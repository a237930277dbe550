/** Request targets with arguments through lws_parse: each argument in a fragment of its own, one linked to the next. */
module RequestTargets {
  import opened Bytes
  import opened Options
  import opened UriPath
  import opened UriArgs
  import opened HeaderParser

  /** No token is an end of line or a NUL, and no raw space ends the target early. */
  predicate Harmless(ts: seq<Coded>) { forall i | 0 <= i < |ts| :: ts[i].c != 0 && ts[i].c != CR }

  lemma TokensStep(raw: seq<byte>)
    requires UriPath.Complete(raw) && raw != []
    ensures var n := if raw[0] == PERCENT then 3 else 1;
      && n <= |raw| && UriPath.Complete(raw[n..]) && Tokens(raw) == [Tokens(raw)[0]] + Tokens(raw[n..])
      && Tokens(raw)[0] == if raw[0] == PERCENT then Coded(CharToHex(raw[1]) * 16 + CharToHex(raw[2]), true)
                           else Coded(raw[0], false)
  {
  }

  /** Fragment k lies complete with the given text and is continued by the next one. */
  ghost predicate Linked(fs: seq<Frag>, data: seq<byte>, k: nat, text: seq<byte>) {
    && k < |fs| && fs[k].next == k + 1 && fs[k].offset + fs[k].len <= |data|
    && data[fs[k].offset..fs[k].offset + fs[k].len] == text
  }

  ghost predicate LinkedAll(fs: seq<Frag>, data: seq<byte>, n: nat, texts: seq<seq<byte>>) {
    forall i | 0 <= i < |texts| :: Linked(fs, data, n + i, texts[i])
  }

  function Texts(fields: seq<seq<Coded>>): (r: seq<seq<byte>>)
    ensures |r| == |fields|
  {
    seq(|fields|, i requires 0 <= i < |fields| => FieldText(fields[i]))
  }

  /** At p, the tokens `ts` of arguments that begin in fragment n have been taken. */
  ghost predicate CollectedAt(p: ArgPoint, n: nat, ts: seq<Coded>) {
    var fields := Fields(ts);
    var last := fields[|fields| - 1];
    && p.n == n + |fields| - 1 < |p.fs|
    && LinkedAll(p.fs, p.before, n, Texts(fields[..|fields| - 1]))
    && p.text == FieldText(last) && p.named == Named(last)
    && p.fs[p.n].offset <= |p.before| && p.text == p.before[p.fs[p.n].offset..]
  }

  /** What ArgTaken says, in terms of the points before and after. */
  ghost predicate Taken(p: ArgPoint, q: ArgPoint, t: Coded) {
    && |q.fs| == |p.fs| && p.n <= q.n < |q.fs| && q.fs[..p.n] == p.fs[..p.n] && p.before <= q.before
    && q.fs[q.n].offset <= |q.before| && q.text == q.before[q.fs[q.n].offset..]
    && if Separator(t)
       then q.n == p.n + 1 && q.fs[p.n] == Frag(p.fs[p.n].offset, |p.text|, q.n) && q.text == [] && !q.named
       else q.n == p.n && q.text == p.text + [Shown(t, p.named)]
            && q.named == (p.named || t == Coded(EQUALS, false))
  }

  lemma LinkedStays(fs: seq<Frag>, gs: seq<Frag>, data: seq<byte>, after: seq<byte>, n: nat, texts: seq<seq<byte>>)
    requires LinkedAll(fs, data, n, texts) && n + |texts| <= |fs| && |gs| == |fs|
    requires gs[..n + |texts|] == fs[..n + |texts|] && data <= after
    ensures LinkedAll(gs, after, n, texts)
  {
    forall i | 0 <= i < |texts| ensures Linked(gs, after, n + i, texts[i]) {
      var f := fs[n + i];
      assert gs[n + i] == gs[..n + |texts|][n + i] == fs[..n + |texts|][n + i] == f;
      assert Linked(fs, data, n + i, texts[i]);
      assert after[f.offset..f.offset + f.len] == data[f.offset..f.offset + f.len];
    }
  }

  lemma FieldsSnoc(ts: seq<Coded>, t: Coded)
    ensures var r := Fields(ts);
      Fields(ts + [t]) == if Separator(t) then r + [[]] else r[..|r| - 1] + [r[|r| - 1] + [t]]
  {
    assert (ts + [t])[..|ts|] == ts;
  }

  lemma FieldSnoc(field: seq<Coded>, t: Coded)
    ensures FieldText(field + [t]) == FieldText(field) + [Shown(t, Named(field))]
    ensures Named(field + [t]) <==> Named(field) || t == Coded(EQUALS, false)
  {
    assert (field + [t])[..|field|] == field;
  }

  /** One more token keeps the collected arguments what they should be. */
  lemma TokenCollected(p: ArgPoint, q: ArgPoint, n: nat, ts: seq<Coded>, t: Coded)
    requires CollectedAt(p, n, ts) && Taken(p, q, t)
    ensures CollectedAt(q, n, ts + [t])
  {
    if Separator(t) {
      SeparatorCollected(p, q, n, ts, t);
    } else {
      OtherCollected(p, q, n, ts, t);
    }
  }

  lemma SeparatorCollected(p: ArgPoint, q: ArgPoint, n: nat, ts: seq<Coded>, t: Coded)
    requires CollectedAt(p, n, ts) && Taken(p, q, t) && Separator(t)
    ensures CollectedAt(q, n, ts + [t])
  {
    hide CollectedAt, Fields, LinkedAll, Texts, FieldText, Named;
    var init, last := Parts(p, n, ts);
    FieldsSnoc(ts, t);
    LinkedStays(p.fs, q.fs, p.before, q.before, n, Texts(init));
    Separated(p, q, n, init, last, t);
    NoField();
    Assemble(q, n, ts + [t], init + [last], []);
  }

  lemma NoField()
    ensures FieldText([]) == [] && !Named([])
  {
  }

  lemma Parts(p: ArgPoint, n: nat, ts: seq<Coded>) returns (init: seq<seq<Coded>>, last: seq<Coded>)
    requires CollectedAt(p, n, ts)
    ensures Fields(ts) == init + [last] && Fields(ts)[..|init|] == init && Fields(ts)[|init|] == last
    ensures |Fields(ts)| == |init| + 1 && p.n == n + |init| < |p.fs|
    ensures LinkedAll(p.fs, p.before, n, Texts(init)) && p.text == FieldText(last) && p.named == Named(last)
    ensures p.fs[p.n].offset <= |p.before| && p.text == p.before[p.fs[p.n].offset..]
  {
    hide Fields, LinkedAll, Texts, FieldText, Named;
    var fields := Fields(ts);
    init, last := fields[..|fields| - 1], fields[|fields| - 1];
  }

  lemma Assemble(q: ArgPoint, n: nat, ts: seq<Coded>, init: seq<seq<Coded>>, last: seq<Coded>)
    requires Fields(ts) == init + [last] && q.n == n + |init| < |q.fs|
    requires LinkedAll(q.fs, q.before, n, Texts(init)) && q.text == FieldText(last) && q.named == Named(last)
    requires q.fs[q.n].offset <= |q.before| && q.text == q.before[q.fs[q.n].offset..]
    ensures CollectedAt(q, n, ts)
  {
    hide Fields, LinkedAll, Texts, FieldText, Named;
    assert (init + [last])[..|init|] == init;
  }

  lemma OtherCollected(p: ArgPoint, q: ArgPoint, n: nat, ts: seq<Coded>, t: Coded)
    requires CollectedAt(p, n, ts) && Taken(p, q, t) && !Separator(t)
    ensures CollectedAt(q, n, ts + [t])
  {
    hide CollectedAt, Fields, LinkedAll, Texts, FieldText, Named, Shown;
    var init, last := Parts(p, n, ts);
    FieldsSnoc(ts, t);
    LinkedStays(p.fs, q.fs, p.before, q.before, n, Texts(init));
    FieldSnoc(last, t);
    Assemble(q, n, ts + [t], init, last + [t]);
  }

  lemma Separated(p: ArgPoint, q: ArgPoint, n: nat, init: seq<seq<Coded>>, last: seq<Coded>, t: Coded)
    requires Taken(p, q, t) && Separator(t) && LinkedAll(q.fs, q.before, n, Texts(init)) && p.n == n + |init|
    requires p.n < |p.fs| && p.fs[p.n].offset <= |p.before| && p.text == p.before[p.fs[p.n].offset..]
    requires p.text == FieldText(last)
    ensures LinkedAll(q.fs, q.before, n, Texts(init + [last]))
  {
    var f := q.fs[p.n];
    assert Texts(init + [last]) == Texts(init) + [FieldText(last)];
    assert q.before[f.offset..f.offset + f.len] == p.before[f.offset..] == p.text;
    assert Linked(q.fs, q.before, p.n, p.text);
  }

  // ---- the code ----

  /** The bytes of one token. */
  method TakeToken(hs: Headers, raw: seq<byte>) returns (ok: bool, n: nat)
    requires hs.InArgs() && hs.ues == NoEscape && raw != [] && UriPath.Complete(raw) && Harmless(Tokens(raw)[..1])
    modifies hs, hs.data, hs.frags, hs.fragIndex
    ensures n == if raw[0] == PERCENT then 3 else 1
    ensures if ok then hs.ArgTaken(old(hs.ArgAt()), Tokens(raw)[0]) && hs.ues == NoEscape
            else old(hs.pos) == hs.capacity || old(hs.nfrag) + 1 == FRAGS
  {
    hide hs.ArgTaken, WellLinked;
    TokensStep(raw);
    assert Tokens(raw)[..1][0] == Tokens(raw)[0];
    n := if raw[0] == PERCENT then 3 else 1;
    ok := hs.Parse(raw[0], Unfinished);
    if raw[0] == PERCENT {
      ok := hs.Parse(raw[1], Unfinished);
      ok := hs.Parse(raw[2], Unfinished);
    }
  }

  lemma PointsTaken(hs: Headers, p: ArgPoint, t: Coded)
    requires hs.ArgTaken(p, t)
    ensures hs.InArgs() && Taken(p, hs.ArgAt(), t) && hs.ArgAt().s == p.s && hs.ArgAt().index == p.index
    ensures |hs.ArgAt().before| == |p.before| + 1
  {
    hide WellLinked;
    assert hs.Text() == hs.data[..hs.pos][hs.frags[hs.nfrag].offset..];
    assert hs.data[..|p.before|] == hs.data[..hs.pos][..|p.before|];
  }

  lemma PointIsTight(hs: Headers)
    requires hs.InArgs()
    ensures var p := hs.ArgAt();
      |p.fs| == FRAGS && p.n < FRAGS && p.fs[p.n].offset <= |p.before| && p.text == p.before[p.fs[p.n].offset..]
  {
    hide WellLinked;
    assert hs.Text() == hs.data[..hs.pos][hs.frags[hs.nfrag].offset..];
  }

  /** All the arguments, up to the space behind them. */
  method CollectArguments(hs: Headers, raw: seq<byte>, ghost start: ArgPoint) returns (ok: bool)
    requires hs.InArgs() && hs.ues == NoEscape && hs.ArgAt() == start && start.text == [] && !start.named
    requires UriPath.Complete(raw) && Harmless(Tokens(raw))
    modifies hs, hs.data, hs.frags, hs.fragIndex
    ensures ok ==>
      AtTokens(hs, start, Tokens(raw)) && hs.pos <= |start.before| + |raw|
    ensures !ok ==> |start.before| + |raw| >= hs.capacity || start.n + |Tokens(raw)| + 1 >= FRAGS
  {
    PointIsTight(hs);
    Nothing(start);
    hide hs.InArgs, CollectedAt, Follows, Tokens;
    var i := 0;
    ghost var ts := [];
    ok := true;
    while i < |raw|
      invariant 0 <= i <= |raw| && UriPath.Complete(raw[i..]) && Tokens(raw) == ts + Tokens(raw[i..])
      invariant AtTokens(hs, start, ts) && ok
      invariant hs.pos <= |start.before| + i && hs.nfrag <= start.n + |ts|
    {
      var n;
      Ahead(raw, ts, i);
      ok, n := OneToken(hs, raw[i..], start, ts);
      if !ok {
        return;
      }
      Regrouped(ts, raw, i, n);
      ts := ts + [Tokens(raw[i..])[0]];
      i := i + n;
    }
    NoTokens(raw, ts);
  }

  lemma Regrouped(ts: seq<Coded>, raw: seq<byte>, i: nat, n: nat)
    requires i < |raw| && UriPath.Complete(raw[i..]) && n == if raw[i] == PERCENT then 3 else 1
    ensures i + n <= |raw| && UriPath.Complete(raw[i + n..]) && Tokens(raw[i..]) != []
    ensures ts + Tokens(raw[i..]) == ts + [Tokens(raw[i..])[0]] + Tokens(raw[i + n..])
  {
    TokensStep(raw[i..]);
    hide Tokens;
    assert raw[i..][n..] == raw[i + n..];
    var head, tail := [Tokens(raw[i..])[0]], Tokens(raw[i + n..]);
    assert ts + (head + tail) == ts + head + tail;
  }

  lemma Ahead(raw: seq<byte>, ts: seq<Coded>, i: nat)
    requires i < |raw| && UriPath.Complete(raw) && UriPath.Complete(raw[i..]) && Harmless(Tokens(raw))
    requires Tokens(raw) == ts + Tokens(raw[i..])
    ensures Tokens(raw[i..]) != [] && Harmless(Tokens(raw[i..])[..1])
  {
    TokensStep(raw[i..]);
    hide Tokens, UriPath.Complete;
    var rest := Tokens(raw[i..]);
    assert rest[..1][0] == rest[0] == (ts + rest)[|ts|];
  }

  lemma NoTokens(raw: seq<byte>, ts: seq<Coded>)
    ensures raw[|raw|..] == [] && Tokens([]) == [] && ts + [] == ts
  {
  }

  /** After these tokens of arguments that began at `start`. */
  ghost predicate AtTokens(hs: Headers, start: ArgPoint, ts: seq<Coded>)
    reads hs, hs.frags, hs.fragIndex, hs.data
  {
    hs.InArgs() && hs.ues == NoEscape && CollectedAt(hs.ArgAt(), start.n, ts) && Follows(start, hs.ArgAt())
  }

  method OneToken(hs: Headers, raw: seq<byte>, ghost start: ArgPoint, ghost ts: seq<Coded>) returns (ok: bool, n: nat)
    requires AtTokens(hs, start, ts) && raw != [] && UriPath.Complete(raw)
    requires Tokens(raw) != [] && Harmless(Tokens(raw)[..1])
    modifies hs, hs.data, hs.frags, hs.fragIndex
    ensures n == if raw[0] == PERCENT then 3 else 1
    ensures ok ==>
      AtTokens(hs, start, ts + [Tokens(raw)[0]]) && hs.pos == old(hs.pos) + 1 && hs.nfrag <= old(hs.nfrag) + 1
    ensures !ok ==> old(hs.pos) == hs.capacity || old(hs.nfrag) + 1 == FRAGS
  {
    hide hs.ArgTaken, CollectedAt, Follows, Taken, WellLinked;
    ghost var p, t := hs.ArgAt(), Tokens(raw)[0];
    ok, n := TakeToken(hs, raw);
    if ok {
      PointsTaken(hs, p, t);
      ghost var q := hs.ArgAt();
      TokenCollected(p, q, start.n, ts, t);
      FollowsOn(start, p, q, t);
      assert |q.before| == hs.pos && |p.before| == old(hs.pos);
    }
  }

  /** What was there before the arguments is still there. */
  ghost predicate Follows(p: ArgPoint, q: ArgPoint) {
    && q.s == p.s && q.index == p.index && |q.fs| == |p.fs| && p.n <= q.n < |q.fs| && q.fs[..p.n] == p.fs[..p.n]
    && p.before <= q.before
  }

  lemma FollowsOn(start: ArgPoint, p: ArgPoint, q: ArgPoint, t: Coded)
    requires Follows(start, p) && Taken(p, q, t) && q.s == p.s && q.index == p.index
    ensures Follows(start, q) && q.n <= p.n + 1
  {
    assert q.fs[..start.n] == q.fs[..p.n][..start.n] == p.fs[..p.n][..start.n];
  }

  lemma Nothing(start: ArgPoint)
    requires start.text == [] && !start.named && |start.fs| == FRAGS && start.n < FRAGS
    requires start.fs[start.n].offset <= |start.before| && start.text == start.before[start.fs[start.n].offset..]
    ensures CollectedAt(start, start.n, []) && Follows(start, start)
  {
  }

  /** A path and the '?' behind it: the path is complete and arguments begin, or the '?' is dropped. */
  method PathAndQuestion(hs: Headers, path: seq<byte>) returns (ok: bool)
    requires hs.InPath() && hs.Path() == START && UriPath.Complete(path) && OrdinaryFrom(NoEscape, path)
    requires Decode(path) != [] && Decode(path)[0] == SLASH
    modifies hs, hs.data, hs.frags, hs.fragIndex
    ensures UriBytes(START, path).Some?
    ensures var (text, begun) := AtQuestion(UriBytes(START, path).value);
      ok ==>
        if begun then hs.ArgsBegun(old(hs.state), old(hs.nfrag), text, old(hs.fragIndex[..]))
        else hs.InPath() && hs.Place() == old(hs.Place()) && hs.Path() == Uri(SeenSlash, NoEscape, text)
    ensures ok ==> hs.pos <= old(hs.pos) + |path| + 3
    ensures !ok ==> old(hs.pos) + |path| + 3 > hs.capacity || old(hs.nfrag) + 1 == FRAGS
  {
    hide WellLinked, AtQuestion, Decode, UriPath.Complete, OrdinaryFrom, UriBytes, hs.ArgsBegun;
    EndsUnescaped(path);
    QuestionExactly(path);
    ok := hs.CollectPath(path);
    if !ok {
      return;
    }
    ok := hs.Parse(QUESTION, Unfinished);
  }

  /** What a request with arguments leaves: the path in fragment 1, the arguments in those from 2 on. */
  ghost predicate Request(hs: Headers, h: Token, path: seq<byte>, texts: seq<seq<byte>>)
    reads hs, hs.frags, hs.fragIndex, hs.data
    requires texts != []
  {
    var last := texts[|texts| - 1];
    && hs.Valid() && hs.fragIndex[h] == 1 && hs.fragIndex[TOKEN_URI_ARGS] == 2 && hs.nfrag == |texts| + 2
    && hs.Stored(1, path) && LinkedAll(hs.frags[..], hs.data[..hs.pos], 2, texts[..|texts| - 1])
    && hs.Stored(|texts| + 1, if last == [] then [SLASH] else last)
    && hs.InVersion(NoEscape)
  }

  /**
   * A whole target with arguments, from nothing to the space behind it. Each argument is stored decoded in a
   * fragment of its own, linked to the next; only an empty last one turns into a slash.
   */
  method TargetWithArguments(hs: Headers, h: Token, path: seq<byte>, args: seq<byte>) returns (ok: bool)
    requires hs.Valid() && hs.Empty() && hs.ups == Idle && IsMethod(h) && hs.limits[h] >= hs.capacity
    requires UriPath.Complete(path) && OrdinaryFrom(NoEscape, path) && Decode(path) != [] && Decode(path)[0] == SLASH
    requires UriBytes(START, path).Some? && AtQuestion(UriBytes(START, path).value).1
    requires UriPath.Complete(args) && Harmless(Tokens(args))
    modifies hs, hs.data, hs.frags, hs.fragIndex
    ensures ok ==> Request(hs, h, AtQuestion(UriBytes(START, path).value).0, Arguments(args))
    ensures !ok ==> |path| + |args| + 5 > hs.capacity || |Tokens(args)| + 4 >= FRAGS
  {
    hide AtQuestion, Decode, UriPath.Complete, OrdinaryFrom, UriBytes, Tokens, Request, WellLinked;
    hs.BeginTarget(h);
    ghost var index := hs.fragIndex[..];
    ok := PathAndQuestion(hs, path);
    if !ok {
      return;
    }
    ok := ArgumentsAndSpace(hs, h, args, AtQuestion(UriBytes(START, path).value).0, index);
  }

  method ArgumentsAndSpace(hs: Headers, h: Token, args: seq<byte>, ghost path: seq<byte>, ghost index: seq<nat>)
    returns (ok: bool)
    requires |index| == TOKENS && index[h] == 1 && index[TOKEN_HTTP] == 0 && IsMethod(h)
    requires hs.ArgsBegun(Collecting(h), 1, path, index) && UriPath.Complete(args) && Harmless(Tokens(args))
    modifies hs, hs.data, hs.frags, hs.fragIndex
    ensures ok ==> Request(hs, h, path, Arguments(args))
    ensures !ok ==> old(hs.pos) + |args| + 2 > hs.capacity || |Tokens(args)| + 4 >= FRAGS
  {
    ghost var start := hs.ArgAt();
    PathInPlace(hs, path, start);
    hide UriPath.Complete, Tokens, Request, WellLinked, Harmless, AtTokens, Fields, hs.InArgs, hs.Stored;
    ok := CollectArguments(hs, args, start);
    if !ok {
      return;
    }
    ghost var q := ArgsPoint(hs, start, Tokens(args));
    TextsOf(q, 2, args);
    hide CollectedAt, Arguments;
    ok := SpaceBehind(hs, h, path, Arguments(args), start);
  }

  /** The path's fragment, as it was when the arguments began. */
  ghost predicate PathAt(start: ArgPoint, path: seq<byte>) {
    && |start.fs| == FRAGS && start.n == 2 && start.fs[1].next == 0
    && start.fs[1].offset + start.fs[1].len < |start.before|
    && start.before[start.fs[1].offset..start.fs[1].offset + start.fs[1].len] == path
    && start.before[start.fs[1].offset + start.fs[1].len] == 0
  }

  lemma PathInPlace(hs: Headers, path: seq<byte>, start: ArgPoint)
    requires hs.InArgs() && hs.ArgAt() == start && hs.Stored(1, path) && hs.nfrag == 2
    ensures PathAt(start, path)
  {
    var f := hs.frags[1];
    assert hs.data[..hs.pos][f.offset..f.offset + f.len] == hs.data[f.offset..f.offset + f.len];
  }

  method SpaceBehind(hs: Headers, h: Token, ghost path: seq<byte>, ghost texts: seq<seq<byte>>, ghost start: ArgPoint)
    returns (ok: bool)
    requires hs.InArgs() && hs.ues == NoEscape && Follows(start, hs.ArgAt()) && PathAt(start, path)
    requires |start.index| == TOKENS && start.index[h] == 1 && start.index[TOKEN_URI_ARGS] == 2 && IsMethod(h)
    requires start.index[TOKEN_HTTP] == 0 && texts != [] && hs.nfrag == |texts| + 1
    requires LinkedAll(hs.frags[..], hs.data[..hs.pos], 2, texts[..|texts| - 1]) && hs.Text() == texts[|texts| - 1]
    modifies hs, hs.data, hs.frags, hs.fragIndex
    ensures ok ==> Request(hs, h, path, texts)
    ensures !ok ==> old(hs.pos) + 2 > hs.capacity || |texts| + 2 == FRAGS
  {
    hide Request, WellLinked, PathAt, LinkedAll;
    ghost var q := hs.ArgAt();
    assert hs.fragIndex[TOKEN_HTTP] == q.index[TOKEN_HTTP];
    ok := hs.Parse(SPACE, Unfinished);
    if ok {
      RequestStored(hs, h, path, texts, start, q, if q.text == [] then [SLASH] else q.text);
    }
  }

  lemma TextsOf(p: ArgPoint, n: nat, args: seq<byte>)
    requires UriPath.Complete(args) && CollectedAt(p, n, Tokens(args))
    ensures var texts := Arguments(args);
      && p.n == n + |texts| - 1 <= n + |Tokens(args)| && LinkedAll(p.fs, p.before, n, texts[..|texts| - 1])
      && p.text == texts[|texts| - 1]
  {
    var fields := Fields(Tokens(args));
    FieldsCount(Tokens(args));
    hide Fields, LinkedAll, FieldText, Tokens, Named, UriPath.Complete;
    assert Arguments(args) == Texts(fields);
    assert Texts(fields)[..|fields| - 1] == Texts(fields[..|fields| - 1]);
  }

  lemma {:induction false} FieldsCount(ts: seq<Coded>)
    ensures |Fields(ts)| <= |ts| + 1
    decreases |ts|
  {
    if ts != [] { FieldsCount(ts[..|ts| - 1]); }
  }

  lemma ArgsPoint(hs: Headers, start: ArgPoint, ts: seq<Coded>) returns (q: ArgPoint)
    requires AtTokens(hs, start, ts)
    ensures hs.InArgs() && hs.ues == NoEscape && q == hs.ArgAt() && CollectedAt(q, start.n, ts) && Follows(start, q)
  {
    q := hs.ArgAt();
  }

  lemma RequestStored(hs: Headers, h: Token, path: seq<byte>, texts: seq<seq<byte>>, start: ArgPoint, q: ArgPoint,
                      last: seq<byte>)
    requires texts != [] && hs.ArgsEnded(q, last, NoEscape) && Follows(start, q)
    requires |start.index| == TOKENS && start.index[h] == 1 && start.index[TOKEN_URI_ARGS] == 2 && IsMethod(h)
    requires q.n == |texts| + 1 && LinkedAll(q.fs, q.before, 2, texts[..|texts| - 1])
    requires last == if texts[|texts| - 1] == [] then [SLASH] else texts[|texts| - 1]
    requires PathAt(start, path)
    ensures Request(hs, h, path, texts)
  {
    hide WellLinked;
    var f := start.fs[1];
    assert hs.frags[1] == hs.frags[..q.n][1] == q.fs[..q.n][1] == q.fs[..2][1] == f;
    var d := hs.data[..hs.pos];
    assert q.before == hs.data[..|q.before|] == d[..|q.before|];
    assert start.before <= d;
    assert hs.data[f.offset..f.offset + f.len] == start.before[f.offset..f.offset + f.len];
    LinkedStays(q.fs, hs.frags[..], q.before, d, 2, texts[..|texts| - 1]);
  }
}
