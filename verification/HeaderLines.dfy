/** Whole header lines through lws_parse: what is stored of a value, also of a repeated or an overlong one. */
module HeaderLines {
  import opened Bytes
  import opened Sequences
  import opened UriPath
  import opened HeaderParser

  // ---- what a line's bytes come to ----

  /** A first fragment leaves out leading spaces, one behind an empty first fragment all of them, others none. */
  datatype Mode = Leading | Always | Never

  predicate Swallowed(mode: Mode, kept: seq<byte>, c: byte) {
    c == SPACE && (mode == Always || (mode == Leading && kept == []))
  }

  function Kept(mode: Mode, raw: seq<byte>): (r: seq<byte>)
    ensures |r| <= |raw|
  {
    if raw == [] then []
    else
      var k, c := Kept(mode, raw[..|raw| - 1]), raw[|raw| - 1];
      if Swallowed(mode, k, c) then k else k + [c]
  }

  /** The value behind its leading spaces. */
  function Stripped(raw: seq<byte>): seq<byte> {
    if raw != [] && raw[0] == SPACE then Stripped(raw[1..]) else raw
  }

  lemma {:induction false} StrippedSnoc(raw: seq<byte>, c: byte)
    ensures Stripped(raw + [c]) == if c == SPACE && Stripped(raw) == [] then [] else Stripped(raw) + [c]
    decreases |raw|
  {
    if raw == [] {
      assert [] + [c] == [c] && [c][1..] == [];
    } else {
      assert (raw + [c])[1..] == raw[1..] + [c];
      if raw[0] == SPACE { StrippedSnoc(raw[1..], c); }
    }
  }

  lemma {:induction false} LeadingStrips(raw: seq<byte>)
    ensures Kept(Leading, raw) == Stripped(raw)
    decreases |raw|
  {
    if raw != [] {
      var init, c := raw[..|raw| - 1], raw[|raw| - 1];
      LeadingStrips(init);
      StrippedSnoc(init, c);
      assert init + [c] == raw;
    }
  }

  lemma {:induction false} NeverKeepsAll(raw: seq<byte>)
    ensures Kept(Never, raw) == raw
    decreases |raw|
  {
    if raw != [] {
      NeverKeepsAll(raw[..|raw| - 1]);
      assert raw[..|raw| - 1] + [raw[|raw| - 1]] == raw;
    }
  }

  lemma {:induction false} AlwaysDropsSpaces(raw: seq<byte>)
    ensures SPACE !in Kept(Always, raw)
    ensures Kept(Always, raw) == raw <==> SPACE !in raw
    decreases |raw|
  {
    if raw != [] {
      var init, c := raw[..|raw| - 1], raw[|raw| - 1];
      AlwaysDropsSpaces(init);
      assert init + [c] == raw;
      assert SPACE in raw <==> SPACE in init || c == SPACE;
      SameInit(Kept(Always, init), init, c);
    }
  }

  lemma SameInit(a: seq<byte>, b: seq<byte>, c: byte)
    ensures a + [c] == b + [c] <==> a == b
  {
    assert (a + [c])[..|a|] == a && (b + [c])[..|b|] == b;
  }

  function Cut(text: seq<byte>, limit: nat): (r: seq<byte>)
    ensures |r| <= limit
  {
    if |text| <= limit then text else text[..limit]
  }

  /** Neither the end of a line nor a NUL. */
  predicate Inner(raw: seq<byte>) { forall i | 0 <= i < |raw| :: raw[i] != CR && raw[i] != 0 }

  // ---- the text of a header: its fragments' one after the other ----

  ghost predicate Linkable(fs: seq<Frag>, size: nat, last: nat) {
    && last < |fs|
    && forall i | 1 <= i <= last ::
         (fs[i].next == 0 || i < fs[i].next <= last) && fs[i].offset + fs[i].len <= size
  }

  ghost function ChainText(fs: seq<Frag>, data: seq<byte>, last: nat, n: nat): seq<byte>
    requires Linkable(fs, |data|, last) && n <= last
    decreases last - n
  {
    if n == 0 then []
    else
      TextOf(fs[n], data) + if fs[n].next == 0 then [] else ChainText(fs, data, last, fs[n].next)
  }

  ghost function TextOf(f: Frag, data: seq<byte>): seq<byte>
    requires f.offset + f.len <= |data|
  {
    data[f.offset..f.offset + f.len]
  }

  /** Among gs, fragment last + 1 is linked behind the chain from n among fs. */
  ghost predicate LinkedBehind(fs: seq<Frag>, gs: seq<Frag>, size: nat, last: nat, n: nat)
    requires Linkable(fs, size, last) && 1 <= n <= last
  {
    && last + 1 < |gs| && gs[last + 1].next == 0
    && var k := LastOf(fs, last, n);
       gs[k] == fs[k].(next := last + 1) && forall i | 1 <= i <= last && i != k :: gs[i] == fs[i]
  }

  lemma StaysLinkable(fs: seq<Frag>, gs: seq<Frag>, size: nat, after: nat, last: nat, n: nat)
    requires Linkable(fs, size, last) && 1 <= n <= last && LinkedBehind(fs, gs, size, last, n)
    requires size <= after && gs[last + 1].offset + gs[last + 1].len <= after
    ensures Linkable(gs, after, last + 1) && Linkable(fs, after, last)
  {
  }

  /** A new last fragment linked behind the chain's end adds its text to the chain's. */
  lemma {:induction false} ChainGrows(
      fs: seq<Frag>, gs: seq<Frag>, data: seq<byte>, after: seq<byte>, size: nat, last: nat, n: nat)
    requires Linkable(fs, size, last) && 1 <= n <= last && LinkedBehind(fs, gs, size, last, n)
    requires size <= |data| && size <= |after| && after[..size] == data[..size]
    requires gs[last + 1].offset + gs[last + 1].len <= |after|
    ensures Linkable(gs, |after|, last + 1) && Linkable(fs, |data|, last)
    ensures ChainText(gs, after, last + 1, n) == ChainText(fs, data, last, n) + TextOf(gs[last + 1], after)
    decreases last - n
  {
    StaysLinkable(fs, gs, size, |after|, last, n);
    StaysLinkable(fs, gs, size, |after| + |data|, last, n);
    SameText(data, after, size, fs[n]);
    ChainStep(fs, data, last, n);
    ChainStep(gs, after, last + 1, n);
    if fs[n].next != 0 {
      var m := fs[n].next;
      ChainGrows(fs, gs, data, after, size, last, m);
      NotLast(fs, gs, size, last, n);
      hide LinkedBehind, LastOf, Linkable, ChainText, TextOf;
      Regroup(TextOf(fs[n], data), ChainText(fs, data, last, m), TextOf(gs[last + 1], after));
    } else {
      IsLast(fs, gs, size, last, n);
      ChainStep(gs, after, last + 1, last + 1);
      hide LinkedBehind, LastOf, Linkable, ChainText, TextOf;
    }
  }

  lemma ChainStep(fs: seq<Frag>, data: seq<byte>, last: nat, n: nat)
    requires Linkable(fs, |data|, last) && 1 <= n <= last
    ensures ChainText(fs, data, last, n)
         == TextOf(fs[n], data) + if fs[n].next == 0 then [] else ChainText(fs, data, last, fs[n].next)
  {
  }

  lemma IsLast(fs: seq<Frag>, gs: seq<Frag>, size: nat, last: nat, n: nat)
    requires Linkable(fs, size, last) && 1 <= n <= last && LinkedBehind(fs, gs, size, last, n) && fs[n].next == 0
    ensures gs[n] == fs[n].(next := last + 1) && gs[last + 1].next == 0
  {
  }

  lemma NotLast(fs: seq<Frag>, gs: seq<Frag>, size: nat, last: nat, n: nat)
    requires Linkable(fs, size, last) && 1 <= n <= last && LinkedBehind(fs, gs, size, last, n) && fs[n].next != 0
    ensures gs[n] == fs[n]
  {
  }

  lemma SameText(data: seq<byte>, after: seq<byte>, size: nat, f: Frag)
    requires f.offset + f.len <= size <= |data| && size <= |after| && after[..size] == data[..size]
    ensures TextOf(f, data) == TextOf(f, after)
  {
    assert data[f.offset..f.offset + f.len] == data[..size][f.offset..f.offset + f.len];
    assert after[f.offset..f.offset + f.len] == after[..size][f.offset..f.offset + f.len];
  }

  lemma {:induction false} ChainTextLength(fs: seq<Frag>, data: seq<byte>, last: nat, n: nat)
    requires Linkable(fs, |data|, last) && n <= last
    ensures |ChainText(fs, data, last, n)| == ChainLength(fs, last, n)
    decreases last - n
  {
    if n != 0 && fs[n].next != 0 { ChainTextLength(fs, data, last, fs[n].next); }
  }

  lemma {:induction false} InsideAll(fs: seq<Frag>, last: nat, pos: nat, i: nat)
    requires last < |fs| && WellLinked(fs, last, pos) && 1 <= i <= last
    ensures fs[i].offset + fs[i].len <= pos
  {
    if i < last { OffsetsGrow(fs, last, pos, i, last); }
  }

  lemma Links(hs: Headers)
    requires hs.Valid()
    ensures Linkable(hs.frags[..], hs.pos, hs.nfrag) && Linkable(hs.frags[..], |hs.data[..]|, hs.nfrag)
  {
    forall i | 1 <= i <= hs.nfrag ensures hs.frags[i].offset + hs.frags[i].len <= hs.pos {
      InsideAll(hs.frags[..], hs.nfrag, hs.pos, i);
    }
  }

  /** All there is of header h. */
  ghost function Value(hs: Headers, h: Token): (r: seq<byte>)
    reads hs, hs.frags, hs.data, hs.fragIndex
    requires hs.Valid()
    ensures |r| == ChainLength(hs.frags[..], hs.nfrag, hs.fragIndex[h])
  {
    Links(hs);
    ChainTextLength(hs.frags[..], hs.data[..], hs.nfrag, hs.fragIndex[h]);
    ChainText(hs.frags[..], hs.data[..], hs.nfrag, hs.fragIndex[h])
  }

  // ---- lines ----

  /** The bytes of a value and the CR behind them; `base` is what its fragment begins with. */
  method CollectValue(hs: Headers, raw: seq<byte>, ghost mode: Mode, ghost base: seq<byte>) returns (ok: bool)
    requires hs.InValue() && hs.Text() == base && Inner(raw)
    requires mode == (if hs.fragIndex[hs.state.h] == hs.nfrag then Leading
                      else if hs.FirstLen() == 0 then Always else Never)
    requires mode == Leading ==> base == []
    modifies hs, hs.data, hs.frags, hs.fragIndex
    ensures hs.nfrag == old(hs.nfrag) && hs.currentLimit == old(hs.currentLimit)
    ensures hs.fragIndex[..] == old(hs.fragIndex[..])
    ensures hs.Elsewhere(old(hs.nfrag), old(hs.frags[..]), old(hs.data[..hs.pos]))
    ensures var text := base + Kept(mode, raw);
      ok ==>
        && hs.Valid() && hs.ues == NoEscape && hs.Stored(hs.nfrag, Cut(text, hs.currentLimit))
        && hs.state == if |text| == hs.currentLimit then Skipping else SkippingSawCr
    ensures !ok ==> old(hs.pos) + |raw| >= hs.capacity
  {
    hide WellLinked;
    ghost var n, fs, before, limit := hs.nfrag, hs.frags[..], hs.data[..hs.pos], hs.currentLimit;
    assert InLine(hs, hs.state, base, n, limit);
    assert ModeIs(hs, hs.state, n, mode) && hs.Elsewhere(n, fs, before);
    ok := CollectBytes(hs, raw, base, Line(mode, hs.state, n, limit, hs.fragIndex[..], fs, before));
  }

  /** What stays the same all through the line whose value is collected. */
  datatype Line =
    Line(mode: Mode, s: State, n: nat, limit: nat, index: seq<nat>, fs: seq<Frag>, before: seq<byte>)

  ghost predicate Along(hs: Headers, text: seq<byte>, l: Line)
    reads hs, hs.frags, hs.fragIndex, hs.data
  {
    && InLine(hs, l.s, text, l.n, l.limit) && ModeIs(hs, l.s, l.n, l.mode) && hs.Elsewhere(l.n, l.fs, l.before)
    && hs.nfrag == l.n && hs.currentLimit == l.limit && hs.fragIndex[..] == l.index
  }

  ghost predicate Finished(hs: Headers, text: seq<byte>, l: Line)
    reads hs, hs.frags, hs.fragIndex, hs.data
  {
    && hs.Valid() && hs.ues == NoEscape && hs.Stored(l.n, Cut(text, l.limit))
    && hs.state == if |text| == l.limit then Skipping else SkippingSawCr
  }

  /** What a failure leaves in place too. */
  ghost predicate Undisturbed(hs: Headers, l: Line)
    reads hs, hs.frags, hs.fragIndex, hs.data
  {
    hs.Elsewhere(l.n, l.fs, l.before) && hs.nfrag == l.n && hs.currentLimit == l.limit && hs.fragIndex[..] == l.index
  }

  /** The same, byte by byte. */
  method CollectBytes(hs: Headers, raw: seq<byte>, ghost base: seq<byte>, ghost l: Line) returns (ok: bool)
    requires Along(hs, base, l) && |base| <= l.limit && Inner(raw) && (l.mode == Leading ==> base == [])
    modifies hs, hs.data, hs.frags, hs.fragIndex
    ensures Undisturbed(hs, l) && (ok ==> Finished(hs, base + Kept(l.mode, raw), l))
    ensures !ok ==> old(hs.pos) + |raw| >= hs.capacity
  {
    ghost var at := hs.pos;
    var i := 0;
    SoFarEnds(l.mode, base, raw);
    assert Undisturbed(hs, l);
    hide Along, Finished, Undisturbed, Kept, Swallowed, SoFar;
    while i < |raw|
      invariant 0 <= i <= |raw| && Along(hs, SoFar(l.mode, base, raw, i), l) && Undisturbed(hs, l)
      invariant hs.pos <= at + i + 1 && (|SoFar(l.mode, base, raw, i)| <= l.limit ==> hs.pos <= at + i)
    {
      SoFarMore(l.mode, base, raw, i);
      ok := ValueByteIn(hs, raw[i], base, Kept(l.mode, raw[..i]), l);
      if !ok {
        return;
      }
      i := i + 1;
    }
    ok := EndOfValue(hs, base + Kept(l.mode, raw), l);
  }

  /** What a value comes to after i bytes of its line. */
  function SoFar(mode: Mode, base: seq<byte>, raw: seq<byte>, i: nat): seq<byte>
    requires i <= |raw|
  {
    base + Kept(mode, raw[..i])
  }

  lemma SoFarEnds(mode: Mode, base: seq<byte>, raw: seq<byte>)
    ensures SoFar(mode, base, raw, 0) == base && SoFar(mode, base, raw, |raw|) == base + Kept(mode, raw)
  {
    assert raw[..|raw|] == raw && raw[..0] == [];
  }

  lemma SoFarMore(mode: Mode, base: seq<byte>, raw: seq<byte>, i: nat)
    requires i < |raw|
    ensures var k := Kept(mode, raw[..i]);
      && SoFar(mode, base, raw, i) == base + k
      && SoFar(mode, base, raw, i + 1) == base + if Swallowed(mode, k, raw[i]) then k else k + [raw[i]]
  {
    KeptMore(mode, raw, i);
  }

  lemma KeptMore(mode: Mode, raw: seq<byte>, i: nat)
    requires i < |raw|
    ensures Kept(mode, raw[..i + 1]) ==
      if Swallowed(mode, Kept(mode, raw[..i]), raw[i]) then Kept(mode, raw[..i]) else Kept(mode, raw[..i]) + [raw[i]]
  {
    assert raw[..i + 1][..i] == raw[..i];
  }

  /** Inside a line, when `text` is what its value comes to so far. */
  ghost predicate InLine(hs: Headers, s: State, text: seq<byte>, n: nat, limit: nat)
    reads hs, hs.frags, hs.fragIndex, hs.data
  {
    if |text| <= limit then hs.InValue() && hs.state == s && hs.nfrag == n && hs.Text() == text
    else hs.Valid() && hs.ues == NoEscape && hs.state == Skipping && hs.nfrag == n && hs.Stored(n, text[..limit])
  }

  /** Which spaces are swallowed while fragment n of the header is collected. */
  ghost predicate ModeIs(hs: Headers, s: State, n: nat, mode: Mode)
    reads hs, hs.frags, hs.fragIndex
  {
    && s.Collecting? && hs.fragIndex.Length == TOKENS && hs.frags.Length == FRAGS && hs.fragIndex[s.h] <= n < FRAGS
    && mode == if hs.fragIndex[s.h] == n then Leading
               else if hs.frags[hs.fragIndex[s.h]].len == 0 then Always else Never
  }

  method ValueByteIn(hs: Headers, c: byte, ghost base: seq<byte>, ghost kept: seq<byte>, ghost l: Line)
    returns (ok: bool)
    requires Along(hs, base + kept, l) && (l.mode == Leading ==> base == []) && c != CR && c != 0
    modifies hs, hs.data, hs.frags, hs.fragIndex
    ensures Undisturbed(hs, l)
    ensures ok ==> Along(hs, base + if Swallowed(l.mode, kept, c) then kept else kept + [c], l)
    ensures !ok ==> old(hs.pos) == hs.capacity && |base + kept| <= l.limit
    ensures ok ==> hs.pos <= old(hs.pos) + 1 && (|base + kept| > l.limit ==> hs.pos == old(hs.pos))
  {
    hide LastOf, WellLinked;
    ghost var gs, index := hs.frags[..], hs.fragIndex[..];
    ok := hs.Parse(c, Unfinished);
    assert hs.fragIndex[l.s.h] == index[l.s.h];
    assert index[l.s.h] < l.n ==> hs.frags[index[l.s.h]] == hs.frags[..l.n][index[l.s.h]] == gs[index[l.s.h]];
    assert base + (kept + [c]) == base + kept + [c];
  }

  method EndOfValue(hs: Headers, ghost text: seq<byte>, ghost l: Line) returns (ok: bool)
    requires Along(hs, text, l)
    modifies hs, hs.data, hs.frags, hs.fragIndex
    ensures Undisturbed(hs, l) && (ok ==> Finished(hs, text, l))
    ensures !ok ==> old(hs.pos) == hs.capacity && |text| <= l.limit
  {
    hide LastOf, WellLinked;
    ok := hs.Parse(CR, Unfinished);
    assert |text| == l.limit ==> Cut(text, l.limit) == text;
  }

  /** The line's first byte after its name, and LF at its end; at its limit a value takes the next line with it. */
  predicate After(s: State, text: seq<byte>, limit: nat) {
    s == if |text| == limit then Skipping else NamePart
  }

  /**
   * A header not seen before, from the byte that completes its name to the line's end: its value is the line
   * behind its leading spaces, cut at the token's limit and NUL-terminated.
   */
  method FirstLine(hs: Headers, c: byte, name: Token, raw: seq<byte>) returns (ok: bool)
    requires hs.Valid() && hs.state == NamePart && hs.ues == NoEscape && Inner(raw)
    requires IsValue(Mapped(name)) && hs.fragIndex[Mapped(name)] == 0
    modifies hs, hs.data, hs.frags, hs.fragIndex
    ensures var h, text := Mapped(name), Stripped(raw);
      ok ==>
        && hs.Valid() && hs.ues == NoEscape && hs.nfrag == old(hs.nfrag) + 1
        && hs.fragIndex[..] == old(hs.fragIndex[..])[h := hs.nfrag]
        && Value(hs, h) == Cut(text, hs.limits[h]) && hs.Stored(hs.nfrag, Cut(text, hs.limits[h]))
        && After(hs.state, text, hs.limits[h])
    ensures !ok ==> old(hs.pos) + |raw| >= hs.capacity || old(hs.nfrag) + 1 == FRAGS
  {
    hide LastOf, WellLinked, Kept;
    ok := hs.Parse(c, Known(name));
    if !ok {
      return;
    }
    LeadingStrips(raw);
    assert [] + Kept(Leading, raw) == Kept(Leading, raw);
    ok := CollectValue(hs, raw, Leading, []);
    if !ok {
      return;
    }
    ok := hs.Parse(LF, Unfinished);
    OnlyFragment(hs, Mapped(name), Cut(Stripped(raw), hs.limits[Mapped(name)]));
  }

  lemma OnlyFragment(hs: Headers, h: Token, text: seq<byte>)
    requires hs.Valid() && 1 <= hs.fragIndex[h] == hs.nfrag && hs.Stored(hs.nfrag, text)
    ensures Value(hs, h) == text
  {
    Links(hs);
    assert TextOf(hs.frags[hs.nfrag], hs.data[..]) == text;
  }

  /**
   * A header that was there before: a space and the line's bytes come behind what there is, up to the token's
   * limit for each line. No leading spaces are left out, and all spaces if the header's first line was empty.
   */
  method RepeatedLine(hs: Headers, c: byte, name: Token, raw: seq<byte>) returns (ok: bool)
    requires hs.Valid() && hs.state == NamePart && hs.ues == NoEscape && Inner(raw)
    requires IsValue(Mapped(name)) && hs.fragIndex[Mapped(name)] != 0
    modifies hs, hs.data, hs.frags, hs.fragIndex
    ensures var h := Mapped(name);
      var text := [SPACE] + Kept(if old(hs.frags[hs.fragIndex[h]].len) == 0 then Always else Never, raw);
      ok ==>
        && hs.Valid() && hs.ues == NoEscape && hs.nfrag == old(hs.nfrag) + 1
        && hs.fragIndex[..] == old(hs.fragIndex[..])
        && Value(hs, h) == old(Value(hs, h)) + Cut(text, hs.limits[h])
        && hs.Stored(hs.nfrag, Cut(text, hs.limits[h]))
        && After(hs.state, text, hs.limits[h])
    ensures !ok ==> old(hs.pos) + |raw| + 1 >= hs.capacity || old(hs.nfrag) + 1 == FRAGS
  {
    hide LastOf, WellLinked, Kept;
    ghost var h, mode := Mapped(name), if hs.frags[hs.fragIndex[Mapped(name)]].len == 0 then Always else Never;
    ghost var fs, data, last, size := hs.frags[..], hs.data[..], hs.nfrag, hs.pos;
    ghost var index := hs.fragIndex[..];
    Links(hs);
    ok := BeginRepeated(hs, c, name);
    if !ok {
      return;
    }
    hide hs.InValue, LinkedBehind, Linkable;
    ghost var gs := hs.frags[..];
    ok := CollectValue(hs, raw, mode, [SPACE]);
    if !ok {
      return;
    }
    StillLinked(fs, gs, hs.frags[..], size, last, index[h]);
    EndRepeated(hs, h, fs, data, size, last, [SPACE] + Kept(mode, raw));
  }

  method EndRepeated(hs: Headers, ghost h: Token, ghost fs: seq<Frag>, ghost data: seq<byte>, ghost size: nat,
                     ghost last: nat, ghost text: seq<byte>)
    requires hs.Valid() && hs.nfrag == last + 1 && 1 <= hs.fragIndex[h] <= last && hs.ues == NoEscape
    requires hs.Stored(hs.nfrag, Cut(text, hs.limits[h]))
    requires hs.state == if |text| == hs.limits[h] then Skipping else SkippingSawCr
    requires Linkable(fs, size, last) && size <= |data| == hs.data.Length && hs.data[..size] == data[..size]
    requires LinkedBehind(fs, hs.frags[..], size, last, hs.fragIndex[h])
    modifies hs, hs.data, hs.frags, hs.fragIndex
    ensures hs.Valid() && hs.ues == NoEscape && hs.nfrag == old(hs.nfrag) && Linkable(fs, |data|, last)
    ensures hs.fragIndex[..] == old(hs.fragIndex[..])
    ensures Value(hs, h) == ChainText(fs, data, last, hs.fragIndex[h]) + Cut(text, hs.limits[h])
    ensures hs.Stored(hs.nfrag, Cut(text, hs.limits[h])) && After(hs.state, text, hs.limits[h])
  {
    hide LastOf, WellLinked, LinkedBehind, Linkable, Cut;
    ghost var gs, index := hs.frags[..], hs.fragIndex[..];
    var _ := hs.Parse(LF, Unfinished);
    assert hs.frags[..] == gs && hs.fragIndex[h] == index[h];
    Extended(hs, h, fs, data, size, last, Cut(text, hs.limits[h]));
  }

  /** Linking changes no fragment's length. */
  lemma SameFirst(fs: seq<Frag>, gs: seq<Frag>, last: nat, n: nat)
    requires 1 <= n <= last < |fs| && |gs| == |fs|
    requires forall i | 1 <= i <= last :: fs[i].next == 0 || i < fs[i].next <= last
    requires var k := LastOf(fs, last, n);
      gs[k] == fs[k].(next := last + 1) && forall i | 1 <= i <= last && i != k :: gs[i] == fs[i]
    ensures gs[n].len == fs[n].len
  {
  }

  /** The byte that completes the name of a header that was there before. */
  method BeginRepeated(hs: Headers, c: byte, name: Token) returns (ok: bool)
    requires hs.Valid() && hs.state == NamePart && hs.ues == NoEscape
    requires IsValue(Mapped(name)) && hs.fragIndex[Mapped(name)] != 0 && Linkable(hs.frags[..], hs.pos, hs.nfrag)
    modifies hs, hs.data, hs.frags, hs.fragIndex
    ensures var h, first := Mapped(name), old(hs.fragIndex[Mapped(name)]);
      ok ==>
        && LinkedBehind(old(hs.frags[..]), hs.frags[..], old(hs.pos), old(hs.nfrag), first)
        && hs.InValue() && hs.Text() == [SPACE] && hs.state == Collecting(h) && hs.nfrag == old(hs.nfrag) + 1
        && hs.fragIndex[..] == old(hs.fragIndex[..]) && hs.frags[first].len == old(hs.frags[hs.fragIndex[h]].len)
        && hs.pos == old(hs.pos) + 1 && hs.data[..old(hs.pos)] == old(hs.data[..hs.pos])
        && hs.currentLimit == hs.limits[h]
    ensures !ok ==> old(hs.pos) == hs.capacity || old(hs.nfrag) + 1 == FRAGS
  {
    hide LastOf, WellLinked;
    ghost var h, fs, index, before := Mapped(name), hs.frags[..], hs.fragIndex[..], hs.data[..hs.pos];
    ghost var size, last := hs.pos, hs.nfrag;
    ok := hs.Parse(c, Known(name));
    if ok { BegunLinked(hs, h, fs, index, before, size, last); }
  }

  lemma BegunLinked(hs: Headers, h: Token, fs: seq<Frag>, index: seq<nat>, before: seq<byte>, size: nat, last: nat)
    requires Linkable(fs, size, last) && |index| == TOKENS && 1 <= index[h] <= last && |fs| == FRAGS
    requires hs.ValueBegun(h, last, fs, index, before)
    ensures LinkedBehind(fs, hs.frags[..], size, last, index[h])
    ensures hs.InValue() && hs.Text() == [SPACE] && hs.state == Collecting(h) && hs.nfrag == last + 1
    ensures hs.fragIndex[..] == index && hs.frags[index[h]].len == fs[index[h]].len
    ensures hs.pos == |before| + 1 && hs.data[..|before|] == before && hs.currentLimit == hs.limits[h]
  {
    SameFirst(fs, hs.frags[..], last, index[h]);
  }

  lemma StillLinked(fs: seq<Frag>, gs: seq<Frag>, after: seq<Frag>, size: nat, last: nat, n: nat)
    requires Linkable(fs, size, last) && 1 <= n <= last && LinkedBehind(fs, gs, size, last, n)
    requires |after| == |gs| && after[..last + 1] == gs[..last + 1] && after[last + 1].next == 0
    ensures LinkedBehind(fs, after, size, last, n)
  {
    assert forall i | 0 <= i <= last :: after[i] == after[..last + 1][i] == gs[i];
  }

  lemma Extended(hs: Headers, h: Token, fs: seq<Frag>, data: seq<byte>, size: nat, last: nat, text: seq<byte>)
    requires hs.Valid() && hs.nfrag == last + 1 && 1 <= hs.fragIndex[h] <= last && hs.Stored(hs.nfrag, text)
    requires Linkable(fs, size, last) && size <= |data| == hs.data.Length && hs.data[..size] == data[..size]
    requires LinkedBehind(fs, hs.frags[..], size, last, hs.fragIndex[h])
    ensures Linkable(fs, |data|, last)
    ensures Value(hs, h) == ChainText(fs, data, last, hs.fragIndex[h]) + text
  {
    hide LinkedBehind, LastOf;
    Links(hs);
    ChainGrows(fs, hs.frags[..], data, hs.data[..], size, last, hs.fragIndex[h]);
    assert TextOf(hs.frags[hs.nfrag], hs.data[..]) == text;
  }

  /**
   * A whole request line from nothing: the byte that completes the method's name, the target, a space, the
   * version and the line's end. The method's header holds the normal form of the decoded target, and the
   * version's what followed, behind its leading spaces.
   */
  method RequestLine(hs: Headers, h: Token, target: seq<byte>, version: seq<byte>) returns (ok: bool)
    requires hs.Valid() && hs.Empty() && hs.ups == Idle && IsMethod(h) && hs.limits[h] >= hs.capacity
    requires UriPath.Complete(target) && OrdinaryFrom(NoEscape, target) && Inner(version)
    requires Decode(target) != [] && Decode(target)[0] == SLASH
    modifies hs, hs.data, hs.frags, hs.fragIndex
    ensures ok ==>
      hs.Valid() && hs.ues == NoEscape && hs.fragIndex[h] == 1 && hs.Stored(1, Normalise(Decode(target)))
    ensures ok ==> Value(hs, TOKEN_HTTP) == Cut(Stripped(version), hs.currentLimit)
                   && After(hs.state, Stripped(version), hs.currentLimit)
  {
    hide Normalise, Decode, UriPath.Complete, OrdinaryFrom, Inner, After, Cut, Stripped, hs.Stored, WellLinked;
    ok := hs.RequestTarget(h, target);
    if !ok {
      return;
    }
    ghost var index := hs.fragIndex[..];
    ok := VersionLine(hs, version, 1, Normalise(Decode(target)));
    assert hs.fragIndex[h] == hs.fragIndex[..][h] == index[h];
  }

  /** The version and the line's end, behind the complete fragment k. */
  method VersionLine(hs: Headers, version: seq<byte>, ghost k: nat, ghost text: seq<byte>) returns (ok: bool)
    requires hs.InVersion(NoEscape) && hs.Stored(k, text) && hs.Valid() && hs.nfrag > k && Inner(version)
    modifies hs, hs.data, hs.frags, hs.fragIndex
    ensures hs.fragIndex[..] == old(hs.fragIndex[..])
    ensures ok ==>
      && hs.Valid() && hs.ues == NoEscape && hs.Stored(k, text)
      && Value(hs, TOKEN_HTTP) == Cut(Stripped(version), hs.currentLimit)
      && After(hs.state, Stripped(version), hs.currentLimit)
  {
    hide LastOf, WellLinked, Kept;
    ghost var n, gs, before := hs.nfrag, hs.frags[..], hs.data[..hs.pos];
    assert before[gs[k].offset..gs[k].offset + gs[k].len] == hs.data[gs[k].offset..gs[k].offset + gs[k].len];
    LeadingStrips(version);
    assert [] + Kept(Leading, version) == Kept(Leading, version);
    ok := CollectValue(hs, version, Leading, []);
    if !ok {
      return;
    }
    StillStored(hs, k, gs, before, n, text);
    ok := hs.Parse(LF, Unfinished);
    OnlyFragment(hs, TOKEN_HTTP, Cut(Stripped(version), hs.currentLimit));
  }

  /** A complete fragment stays what it is while a later one is collected. */
  lemma StillStored(hs: Headers, k: nat, gs: seq<Frag>, before: seq<byte>, n: nat, text: seq<byte>)
    requires 1 <= k < n && hs.Elsewhere(n, gs, before) && |gs| == FRAGS && n < FRAGS
    requires gs[k].next == 0 && gs[k].offset + gs[k].len < |before|
    requires before[gs[k].offset..gs[k].offset + gs[k].len] == text && before[gs[k].offset + gs[k].len] == 0
    requires hs.pos <= hs.data.Length
    ensures hs.Stored(k, text)
  {
    var f := gs[k];
    assert hs.frags[k] == hs.frags[..n][k] == gs[..n][k] == f;
    assert hs.data[f.offset..f.offset + f.len] == hs.data[..|before|][f.offset..f.offset + f.len];
    assert hs.data[f.offset + f.len] == hs.data[..|before|][f.offset + f.len];
  }

  /** The line of a header nobody knows leaves everything stored as it was. */
  method SkippedLine(hs: Headers, c: byte, raw: seq<byte>) returns (ok: bool)
    requires hs.Valid() && hs.state == NamePart && hs.ues == NoEscape && Inner(raw)
    modifies hs, hs.data, hs.frags, hs.fragIndex
    ensures hs.nfrag == old(hs.nfrag) && hs.pos == old(hs.pos) && hs.data[..] == old(hs.data[..])
    ensures hs.frags[..] == old(hs.frags[..]) && hs.fragIndex[..] == old(hs.fragIndex[..])
    ensures ok == (hs.server ==> hs.MethodSeen())
    ensures ok ==> hs.Valid() && hs.state == NamePart && hs.ues == NoEscape
  {
    hide LastOf, WellLinked;
    ok := hs.Parse(c, Unknown);
    if !ok {
      return;
    }
    ghost var data, frags, index := hs.data[..], hs.frags[..], hs.fragIndex[..];
    var i := 0;
    while i < |raw|
      invariant 0 <= i <= |raw| && hs.Valid() && hs.state == Skipping && hs.ues == NoEscape
      invariant hs.nfrag == old(hs.nfrag) && hs.pos == old(hs.pos)
      invariant hs.data[..] == data && hs.frags[..] == frags && hs.fragIndex[..] == index
    {
      ok := hs.Parse(raw[i], Unfinished);
      i := i + 1;
    }
    ok := hs.Parse(CR, Unfinished);
    ok := hs.Parse(LF, Unfinished);
  }

  /** Behind a value of exactly its limit a whole line is lost, whatever it says. */
  method LostLine(hs: Headers, raw: seq<byte>) returns (ok: bool)
    requires hs.Valid() && hs.state == Skipping && hs.ues == NoEscape && Inner(raw)
    modifies hs, hs.data, hs.frags, hs.fragIndex
    ensures ok && hs.Valid() && hs.state == NamePart && hs.ues == NoEscape
    ensures hs.nfrag == old(hs.nfrag) && hs.data[..] == old(hs.data[..])
    ensures hs.frags[..] == old(hs.frags[..]) && hs.fragIndex[..] == old(hs.fragIndex[..])
  {
    hide LastOf, WellLinked;
    ghost var data, frags, index := hs.data[..], hs.frags[..], hs.fragIndex[..];
    var i := 0;
    while i < |raw|
      invariant 0 <= i <= |raw| && hs.Valid() && hs.state == Skipping && hs.ues == NoEscape
      invariant hs.nfrag == old(hs.nfrag)
      invariant hs.data[..] == data && hs.frags[..] == frags && hs.fragIndex[..] == index
    {
      ok := hs.Parse(raw[i], Unfinished);
      i := i + 1;
    }
    ok := hs.Parse(CR, Unfinished);
    ok := hs.Parse(LF, Unfinished);
  }

  /** A repeated value is joined by one space exactly if no space is there to be kept or lost wrongly. */
  lemma JoinedExactly(first: seq<byte>, raw: seq<byte>)
    ensures first + ([SPACE] + Kept(Never, raw)) == first + [SPACE] + Stripped(raw) <==>
      raw == [] || raw[0] != SPACE
    ensures first + ([SPACE] + Kept(Always, raw)) == first + [SPACE] + Stripped(raw) <==> SPACE !in Stripped(raw)
  {
    NeverKeepsAll(raw);
    StrippedSame(raw);
    AlwaysOfStripped(raw);
    AlwaysDropsSpaces(Stripped(raw));
    hide Kept, Stripped;
    SameBehind(first, Kept(Never, raw), Stripped(raw));
    SameBehind(first, Kept(Always, raw), Stripped(raw));
  }

  /** An instance: two lines "X: a" and "X: b" read as "a", two spaces and "b". */
  lemma TwoSpaces()
    ensures Stripped([SPACE, 97]) + ([SPACE] + Kept(Never, [SPACE, 98])) == [97, SPACE, SPACE, 98]
  {
    NeverKeepsAll([SPACE, 98]);
    assert [SPACE, 97][1..] == [97];
    assert Stripped([97]) == [97];
  }

  lemma SameBehind(first: seq<byte>, a: seq<byte>, b: seq<byte>)
    ensures first + ([SPACE] + a) == first + [SPACE] + b <==> a == b
  {
    assert first + ([SPACE] + a) == first + [SPACE] + a;
    SameTail(first + [SPACE], a, b);
  }

  lemma SameTail(p: seq<byte>, a: seq<byte>, b: seq<byte>)
    ensures p + a == p + b <==> a == b
  {
    assert (p + a)[|p|..] == a && (p + b)[|p|..] == b;
  }

  lemma {:induction false} StrippedShorter(raw: seq<byte>)
    ensures |Stripped(raw)| <= |raw|
    decreases |raw|
  {
    if raw != [] && raw[0] == SPACE { StrippedShorter(raw[1..]); }
  }

  lemma StrippedSame(raw: seq<byte>)
    ensures Stripped(raw) == raw <==> raw == [] || raw[0] != SPACE
  {
    if raw != [] && raw[0] == SPACE { StrippedShorter(raw[1..]); }
  }

  /** The spaces in front are lost anyway. */
  lemma {:induction false} AlwaysOfStripped(raw: seq<byte>)
    ensures Kept(Always, raw) == Kept(Always, Stripped(raw))
    decreases |raw|
  {
    if raw != [] && raw[0] == SPACE {
      AlwaysOfStripped(raw[1..]);
      AlwaysTail(raw);
    }
  }

  lemma {:induction false} AlwaysTail(raw: seq<byte>)
    requires raw != [] && raw[0] == SPACE
    ensures Kept(Always, raw) == Kept(Always, raw[1..])
    decreases |raw|
  {
    if |raw| > 1 {
      var init := raw[..|raw| - 1];
      AlwaysTail(init);
      assert init[1..] == raw[1..][..|raw| - 2];
    } else {
      assert raw[..0] == [] && raw[1..] == [];
    }
  }
}
