/** The arguments of a request target: what each of them should be, and the path they come behind. */
module UriArgs {
  import opened Bytes
  import opened Options
  import opened UriPath

  const QUESTION: byte := 63
  const AMPERSAND: byte := 38
  const SEMICOLON: byte := 59
  const PLUS: byte := 43
  const EQUALS: byte := 61
  const UNDERSCORE: byte := 95

  /** A byte of the target behind its escapes; `enc`: it was escaped. */
  datatype Coded = Coded(c: byte, enc: bool)

  function Tokens(raw: seq<byte>): seq<Coded>
    requires Complete(raw)
    decreases |raw|
  {
    if raw == [] then []
    else if raw[0] == PERCENT then [Coded(CharToHex(raw[1]) * 16 + CharToHex(raw[2]), true)] + Tokens(raw[3..])
    else [Coded(raw[0], false)] + Tokens(raw[1..])
  }

  /** Only a plain '&' or ';' separates. */
  predicate Separator(t: Coded) { !t.enc && (t.c == AMPERSAND || t.c == SEMICOLON) }

  /** The fields between separators, as many as there are separators and one. */
  function Fields(ts: seq<Coded>): (r: seq<seq<Coded>>)
    ensures |r| >= 1
  {
    if ts == [] then [[]]
    else
      var r, t := Fields(ts[..|ts| - 1]), ts[|ts| - 1];
      if Separator(t) then r + [[]] else r[..|r| - 1] + [r[|r| - 1] + [t]]
  }

  /** The name of a field ends at its first plain '='. */
  predicate Named(field: seq<Coded>) { Coded(EQUALS, false) in field }

  /** A plain '+' is a space; an escaped '=' in the name is made harmless. */
  function Shown(t: Coded, named: bool): byte {
    if t == Coded(EQUALS, true) && !named then UNDERSCORE
    else if t == Coded(PLUS, false) then SPACE
    else t.c
  }

  function FieldText(field: seq<Coded>): (r: seq<byte>)
    ensures |r| == |field|
  {
    if field == [] then []
    else
      var init, t := field[..|field| - 1], field[|field| - 1];
      FieldText(init) + [Shown(t, Named(init))]
  }

  /** What each argument should read as. */
  function Arguments(raw: seq<byte>): (r: seq<seq<byte>>)
    requires Complete(raw)
    ensures |r| >= 1
  {
    var fs := Fields(Tokens(raw));
    seq(|fs|, i requires 0 <= i < |fs| => FieldText(fs[i]))
  }

  /** The path as it is stored when a plain '?' comes, and whether arguments begin. */
  function AtQuestion(u: Uri): (seq<byte>, bool) {
    match u.ups
    case SeenDot => (u.text + [DOT], true)
    case SeenDotDot => (Backup(u.text), |Backup(u.text)| > 1)
    case _ => (u.text, true)
  }

  /**
   * A path before '?' is stored in normal form and arguments begin, except behind a last segment '.', which
   * is kept, and behind one '..' that leads to the root, where the '?' is dropped and the path goes on.
   */
  lemma QuestionExactly(raw: seq<byte>)
    requires Complete(raw) && Decode(raw) != [] && Decode(raw)[0] == SLASH
    ensures UriBytes(START, raw).Some?
    ensures var segs := Split(Decode(raw)[1..]);
      var last, kept := segs[|segs| - 1], StackOf(segs[..|segs| - 1]);
      var (text, begun) := AtQuestion(UriBytes(START, raw).value);
      && (begun <==> !(last == [DOT, DOT] && |kept| <= 1))
      && (text == Normalise(Decode(raw)) <==> last != [DOT])
      && text != []
  {
    var p := Decode(raw);
    TracksTarget(raw);
    var u := UriBytes(START, raw).value;
    var segs := Split(p[1..]);
    var last, kept := segs[|segs| - 1], StackOf(segs[..|segs| - 1]);
    FinishNormalises(u, p);
    hide Tracks, Normalise, Decode, Complete, UriBytes, Split, StackOf;
    QuestionAt(u, kept, last);
  }

  lemma QuestionAt(u: Uri, kept: seq<seq<byte>>, last: seq<byte>)
    requires At(u, kept, last)
    ensures var (text, begun) := AtQuestion(u);
      (begun <==> !(last == [DOT, DOT] && |kept| <= 1)) && (text == Finish(u) <==> last != [DOT]) && text != []
  {
    TextBegins(u, kept, last);
    if last == [DOT, DOT] {
      BackupPops(kept);
      if |kept| > 1 {
        OnlySegments(kept);
        JoinAbsolute(kept[..|kept| - 1]);
      }
    } else if last == [DOT] {
      assert |AtQuestion(u).0| == |u.text| + 1;
    }
  }

  /** An instance: of "/.?" the dot is kept, where the path is the root. */
  lemma DotIsKept()
    ensures UriBytes(START, [SLASH, DOT]).Some? && Complete([SLASH, DOT])
    ensures AtQuestion(UriBytes(START, [SLASH, DOT]).value) == ([SLASH, DOT], true)
    ensures Normalise(Decode([SLASH, DOT])) == [SLASH]
  {
    var raw := [SLASH, DOT];
    assert raw[1..] == [DOT] && [DOT][1..] == [];
    assert Complete([DOT]) && Decode([DOT]) == [DOT] && Decode(raw) == raw;
    PathOf(raw, [DOT]);
    QuestionExactly(raw);
    var u := UriBytes(START, raw).value;
    assert UriBytes(PathByte(START, SLASH), [DOT]) == UriBytes(PathByte(PathByte(START, SLASH), DOT), []);
    assert u == Uri(SeenDot, NoEscape, [SLASH]);
  }

  /** An instance: of "/..?" the '?' is dropped, so that what follows goes on with the path. */
  lemma QuestionIsDropped()
    ensures UriBytes(START, [SLASH, DOT, DOT]).Some?
    ensures AtQuestion(UriBytes(START, [SLASH, DOT, DOT]).value) == ([SLASH], false)
  {
    var raw := [SLASH, DOT, DOT];
    assert raw[1..] == [DOT, DOT] && [DOT, DOT][1..] == [DOT] && [DOT][1..] == [];
    var u1 := PathByte(START, SLASH);
    var u2, u3 := PathByte(u1, DOT), PathByte(PathByte(u1, DOT), DOT);
    assert UriBytes(u2, [DOT]) == UriBytes(u3, []);
    assert UriBytes(u1, [DOT, DOT]) == UriBytes(u2, [DOT]);
    assert u3 == Uri(SeenDotDot, NoEscape, [SLASH]);
  }

  lemma PathOf(p: seq<byte>, seg: seq<byte>)
    requires p == [SLASH] + seg && seg == [DOT]
    ensures Normalise(p) == [SLASH]
  {
    assert p[1..] == seg;
    var r := Split([]);
    assert r == [[]] && r[..0] == [] && r[0] + [DOT] == [DOT];
    assert seg[..0] == [] && Split(seg) == r[..0] + [r[0] + [DOT]] == [[DOT]];
    assert [[DOT]][..0] == [] && StackOf([[DOT]]) == Push(StackOf([]), [DOT]) == [];
  }

  lemma OnlySegments(stack: seq<seq<byte>>)
    requires Segments(stack) && stack != []
    ensures Segments(stack[..|stack| - 1])
  {
  }

  lemma TextBegins(u: Uri, stack: seq<seq<byte>>, cur: seq<byte>)
    requires At(u, stack, cur)
    ensures u.text != [] && (u.ups == SeenDot <==> cur == [DOT]) && (u.ups == SeenDotDot <==> cur == [DOT, DOT])
    ensures Special(cur) ==> u.text == Join(stack) + [SLASH]
  {
  }

  lemma TracksTarget(raw: seq<byte>)
    requires Complete(raw) && Decode(raw) != [] && Decode(raw)[0] == SLASH
    ensures UriBytes(START, raw).Some? && Tracks(UriBytes(START, raw).value, Decode(raw))
  {
    var p := Decode(raw);
    DecodesFirst(START, raw);
    var first := PathByte(START, SLASH);
    assert [SLASH][1..] == [] && StackOf([]) == [] && Split([])[..0] == [];
    assert Tracks(first, [SLASH]);
    TracksBytes(first, [SLASH], p[1..]);
    assert [SLASH] + p[1..] == p;
  }
}
