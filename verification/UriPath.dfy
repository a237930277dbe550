/** The request path canonicaliser inside lws_parse, against a stack-of-segments normaliser. */
module UriPath {
  import opened Bytes
  import opened Options

  const SLASH: byte := 47
  const DOT: byte := 46
  const PERCENT: byte := 37
  const SPACE: byte := 32

  // ---- what the code does ----

  datatype Ups = Idle | SeenSlash | SeenDot | SeenDotDot

  datatype Escape = NoEscape | SeenPercent | SeenHex(stash: byte)

  /** `text` is what has been stored of the path so far. */
  datatype Uri = Uri(ups: Ups, escape: Escape, text: seq<byte>)

  /** do { drop a byte } while (more than one is left and the dropped one was no slash) */
  function BackLoop(t: seq<byte>): (r: seq<byte>)
    requires |t| >= 2
    ensures 1 <= |r| < |t| && r == t[..|r|]
  {
    var u := t[..|t| - 1];
    if |u| > 1 && t[|t| - 1] != SLASH then BackLoop(u) else u
  }

  /** Back up one directory level if possible. */
  function Backup(t: seq<byte>): (r: seq<byte>)
    ensures |r| <= |t| && r == t[..|r|]
  {
    if |t| > 2 then BackLoop(t[..|t| - 1]) else t
  }

  /** One decoded byte of the path, which is none of those with a meaning of their own. */
  function PathByte(u: Uri, c: byte): Uri {
    match u.ups
    case Idle => u.(ups := if c == SLASH then SeenSlash else Idle, text := u.text + [c])
    case SeenSlash =>
      if c == SLASH then u
      else if c == DOT then u.(ups := SeenDot)
      else u.(ups := Idle, text := u.text + [c])
    case SeenDot =>
      if c == DOT then u.(ups := SeenDotDot)
      else if c == SLASH then u.(ups := SeenSlash)
      else u.(ups := Idle, text := u.text + [DOT, c])
    case SeenDotDot =>
      if c == SLASH then
        var t := Backup(u.text);
        u.(ups := SeenSlash, text := if |t| > 1 then t + [c] else t)
      else u.(ups := Idle, text := u.text + [DOT, DOT, c])
  }

  /** One received byte of the request target other than the closing space; None forbids the request. */
  function UriByte(u: Uri, c: byte): Option<Uri> {
    match u.escape
    case NoEscape => Some(if c == PERCENT then u.(escape := SeenPercent) else PathByte(u, c))
    case SeenPercent => if CharToHex(c) < 0 then None else Some(u.(escape := SeenHex(c)))
    case SeenHex(stash) =>
      if CharToHex(c) < 0 || CharToHex(stash) < 0 then None
      else Some(PathByte(u.(escape := NoEscape), CharToHex(stash) * 16 + CharToHex(c)))
  }

  /** Dots seen but not stored. */
  function Held(u: Uri): nat {
    match u.ups
    case SeenDot => 1
    case SeenDotDot => 2
    case _ => 0
  }

  lemma StoresNoMoreThanRead(u: Uri, c: byte)
    requires UriByte(u, c).Some?
    ensures var v := UriByte(u, c).value; |v.text| + Held(v) <= |u.text| + Held(u) + 1
  {
  }

  function UriBytes(u: Uri, raw: seq<byte>): Option<Uri>
    decreases |raw|
  {
    if raw == [] then Some(u)
    else match UriByte(u, raw[0])
      case None => None
      case Some(v) => UriBytes(v, raw[1..])
  }

  /** The space after the target. */
  function Finish(u: Uri): seq<byte> {
    var t := if u.text == [] then [SLASH] else u.text;
    if u.ups == SeenDotDot then Backup(t) else t
  }

  const START := Uri(Idle, NoEscape, [])

  // ---- what it should do ----

  /** Every '%' starts an escape of two hex digits, and no space ends the target early. */
  predicate Complete(raw: seq<byte>)
    decreases |raw|
  {
    if raw == [] then true
    else if raw[0] == PERCENT then |raw| >= 3 && CharToHex(raw[1]) >= 0 && CharToHex(raw[2]) >= 0 && Complete(raw[3..])
    else raw[0] != SPACE && Complete(raw[1..])
  }

  function Decode(raw: seq<byte>): seq<byte>
    requires Complete(raw)
    decreases |raw|
  {
    if raw == [] then []
    else if raw[0] == PERCENT then [CharToHex(raw[1]) * 16 + CharToHex(raw[2])] + Decode(raw[3..])
    else [raw[0]] + Decode(raw[1..])
  }

  /** The segments of a path, separated by slashes. */
  function Split(p: seq<byte>): (r: seq<seq<byte>>)
    ensures |r| >= 1
  {
    if p == [] then [[]]
    else
      var r := Split(p[..|p| - 1]);
      var c := p[|p| - 1];
      if c == SLASH then r + [[]] else r[..|r| - 1] + [r[|r| - 1] + [c]]
  }

  /** Empty and '.' segments vanish, '..' removes the segment before it, if any. */
  function Push(stack: seq<seq<byte>>, seg: seq<byte>): seq<seq<byte>> {
    if seg == [] || seg == [DOT] then stack
    else if seg == [DOT, DOT] then (if stack == [] then [] else stack[..|stack| - 1])
    else stack + [seg]
  }

  function StackOf(segs: seq<seq<byte>>): seq<seq<byte>> {
    if segs == [] then [] else Push(StackOf(segs[..|segs| - 1]), segs[|segs| - 1])
  }

  function Join(stack: seq<seq<byte>>): seq<byte> {
    if stack == [] then [] else Join(stack[..|stack| - 1]) + [SLASH] + stack[|stack| - 1]
  }

  /** The kept segments; a final slash only where the path ends in an empty or '.' segment. */
  function Render(stack: seq<seq<byte>>, last: seq<byte>): seq<byte> {
    if stack == [] then [SLASH]
    else Join(stack) + if last == [] || last == [DOT] then [SLASH] else []
  }

  /** The normal form of an absolute path. */
  function Normalise(p: seq<byte>): seq<byte>
    requires p != []
  {
    var segs := Split(p[1..]);
    Render(StackOf(segs), segs[|segs| - 1])
  }

  // ---- why it does ----

  predicate NoSlash(seg: seq<byte>) { forall i | 0 <= i < |seg| :: seg[i] != SLASH }

  predicate Segments(stack: seq<seq<byte>>) {
    forall i | 0 <= i < |stack| :: stack[i] != [] && NoSlash(stack[i])
  }

  predicate Special(seg: seq<byte>) { seg == [] || seg == [DOT] || seg == [DOT, DOT] }

  function UpsOf(seg: seq<byte>): Ups {
    if seg == [] then SeenSlash else if seg == [DOT] then SeenDot else if seg == [DOT, DOT] then SeenDotDot else Idle
  }

  /** What is stored when `stack` has been kept and `cur` is the segment being read. */
  function Stored(stack: seq<seq<byte>>, cur: seq<byte>): seq<byte> {
    Join(stack) + [SLASH] + if Special(cur) then [] else cur
  }

  predicate At(u: Uri, stack: seq<seq<byte>>, cur: seq<byte>) {
    && Segments(stack) && NoSlash(cur)
    && u.ups == UpsOf(cur) && u.text == Stored(stack, cur)
  }

  /** The automaton's state after `done` whole segments and part `cur` of the next. */
  predicate Tracks(u: Uri, p: seq<byte>) {
    p != [] && p[0] == SLASH && u.escape == NoEscape &&
    var segs := Split(p[1..]);
    var stack, cur := StackOf(segs[..|segs| - 1]), segs[|segs| - 1];
    At(u, stack, cur)
  }

  lemma {:induction false} BackLoopDropsSegment(base: seq<byte>, seg: seq<byte>)
    requires base != [] && base[|base| - 1] == SLASH && NoSlash(seg) && |base| + |seg| >= 2
    ensures BackLoop(base + seg) == if |base| > 1 then base[..|base| - 1] else base
    decreases |seg|
  {
    var t := base + seg;
    if seg == [] {
      assert t == base;
    } else {
      assert t[..|t| - 1] == base + seg[..|seg| - 1];
      if |t| > 2 {
        BackLoopDropsSegment(base, seg[..|seg| - 1]);
      }
    }
  }

  lemma BackupPops(stack: seq<seq<byte>>)
    requires Segments(stack)
    ensures Backup(Join(stack) + [SLASH]) ==
      if |stack| <= 1 then [SLASH] else Join(stack[..|stack| - 1])
  {
    if stack != [] {
      var base, seg := Join(stack[..|stack| - 1]) + [SLASH], stack[|stack| - 1];
      var t := Join(stack) + [SLASH];
      assert t[..|t| - 1] == base + seg;
      BackLoopDropsSegment(base, seg);
      if |stack| > 1 {
        JoinNonEmpty(stack[..|stack| - 1]);
        assert base[..|base| - 1] == Join(stack[..|stack| - 1]);
      }
    }
  }

  lemma JoinNonEmpty(stack: seq<seq<byte>>)
    requires stack != []
    ensures |Join(stack)| >= 1
  {
  }

  lemma SplitSnoc(p: seq<byte>, c: byte)
    requires p != []
    ensures (p + [c])[1..] == p[1..] + [c]
    ensures var r := Split(p[1..]);
      Split(p[1..] + [c]) == if c == SLASH then r + [[]] else r[..|r| - 1] + [r[|r| - 1] + [c]]
  {
    assert (p[1..] + [c])[..|p| - 1] == p[1..];
  }

  lemma SlashByte(u: Uri, stack: seq<seq<byte>>, cur: seq<byte>)
    requires At(u, stack, cur)
    ensures At(PathByte(u, SLASH), Push(stack, cur), [])
  {
    if cur == [DOT, DOT] {
      assert u.text == Join(stack) + [SLASH];
      BackupPops(stack);
      assert Join([]) + [SLASH] + [] == [SLASH];
      if |stack| > 1 {
        var below := stack[..|stack| - 1];
        JoinAbsolute(below);
        assert Join(below) + [SLASH] + [] == Join(below) + [SLASH];
      }
    } else if !Special(cur) {
      assert (stack + [cur])[..|stack|] == stack;
      assert Join(stack + [cur]) == Join(stack) + [SLASH] + cur;
    }
  }

  /** A non-empty stack renders to more than a slash. */
  lemma JoinAbsolute(stack: seq<seq<byte>>)
    requires stack != [] && Segments(stack)
    ensures |Join(stack)| > 1
  {
    assert stack[|stack| - 1] != [];
  }

  lemma OtherByte(u: Uri, stack: seq<seq<byte>>, cur: seq<byte>, c: byte)
    requires At(u, stack, cur) && c != SLASH
    ensures At(PathByte(u, c), stack, cur + [c])
  {
    var next := cur + [c];
    assert next[..|cur|] == cur && next[|cur|] == c;
    assert cur == [] ==> next == [c];
    assert cur == [DOT] ==> next == [DOT, c];
    assert cur == [DOT, DOT] ==> next == [DOT, DOT, c];
    assert Stored(stack, cur) + [c] == Join(stack) + [SLASH] + ((if Special(cur) then [] else cur) + [c]);
  }

  /** One more decoded byte keeps the automaton and the segment stack together. */
  lemma TracksByte(u: Uri, p: seq<byte>, c: byte)
    requires Tracks(u, p)
    ensures Tracks(PathByte(u, c), p + [c])
  {
    hide Stored, UpsOf, Join, PathByte, Backup;
    var segs := Split(p[1..]);
    var done, cur := segs[..|segs| - 1], segs[|segs| - 1];
    var stack := StackOf(done);
    SplitSnoc(p, c);
    KeepsEscape(u, c);
    var after := Split((p + [c])[1..]);
    if c == SLASH {
      assert after[..|after| - 1] == segs && after[|after| - 1] == [];
      SlashByte(u, stack, cur);
    } else {
      assert after[..|after| - 1] == done && after[|after| - 1] == cur + [c];
      OtherByte(u, stack, cur, c);
    }
  }

  lemma KeepsEscape(u: Uri, c: byte)
    ensures PathByte(u, c).escape == u.escape
  {
  }

  function PathBytes(u: Uri, p: seq<byte>): Uri
    decreases |p|
  {
    if p == [] then u else PathBytes(PathByte(u, p[0]), p[1..])
  }

  lemma {:induction false} TracksBytes(u: Uri, p: seq<byte>, more: seq<byte>)
    requires Tracks(u, p)
    ensures Tracks(PathBytes(u, more), p + more)
    decreases |more|
  {
    if more == [] {
      assert p + more == p;
    } else {
      TracksByte(u, p, more[0]);
      TracksBytes(PathByte(u, more[0]), p + [more[0]], more[1..]);
      assert p + [more[0]] + more[1..] == p + more;
    }
  }

  /** Escapes are decoded before path processing. */
  lemma {:induction false} DecodesFirst(u: Uri, raw: seq<byte>)
    requires Complete(raw) && u.escape == NoEscape
    ensures UriBytes(u, raw) == Some(PathBytes(u, Decode(raw)))
    decreases |raw|
  {
    if raw != [] {
      if raw[0] == PERCENT {
        var c := CharToHex(raw[1]) * 16 + CharToHex(raw[2]);
        var u1 := u.(escape := SeenPercent);
        var u2 := u.(escape := SeenHex(raw[1]));
        assert UriBytes(u1, raw[1..]) == UriBytes(u2, raw[1..][1..]);
        assert raw[1..][1..] == raw[2..] && raw[2..][1..] == raw[3..];
        assert UriBytes(u2, raw[2..]) == UriBytes(PathByte(u, c), raw[3..]);
        DecodesFirst(PathByte(u, c), raw[3..]);
      } else {
        DecodesFirst(PathByte(u, raw[0]), raw[1..]);
      }
    }
  }

  lemma FinishNormalises(u: Uri, p: seq<byte>)
    requires Tracks(u, p)
    ensures Finish(u) == Normalise(p)
  {
    var segs := Split(p[1..]);
    var stack, cur := StackOf(segs[..|segs| - 1]), segs[|segs| - 1];
    assert StackOf(segs) == Push(stack, cur);
    FinishRenders(u, stack, cur);
  }

  lemma FinishRenders(u: Uri, stack: seq<seq<byte>>, cur: seq<byte>)
    requires At(u, stack, cur)
    ensures Finish(u) == Render(Push(stack, cur), cur)
  {
    assert |u.text| >= 1;
    assert Special(cur) ==> u.text == Join(stack) + [SLASH];
    if cur == [DOT, DOT] {
      BackupPops(stack);
      if |stack| > 1 {
        assert Push(stack, cur) == stack[..|stack| - 1];
        assert Join(stack[..|stack| - 1]) + [] == Join(stack[..|stack| - 1]);
      }
    } else if !Special(cur) {
      assert (stack + [cur])[..|stack|] == stack;
    } else if stack == [] {
      assert Join(stack) + [SLASH] == [SLASH];
    }
  }

  /** The stored path of any request target is its normal form. */
  lemma StoredPathIsNormal(raw: seq<byte>)
    requires Complete(raw) && Decode(raw) != [] && Decode(raw)[0] == SLASH
    ensures UriBytes(START, raw).Some?
    ensures Finish(UriBytes(START, raw).value) == Normalise(Decode(raw))
  {
    var p := Decode(raw);
    DecodesFirst(START, raw);
    var first := PathByte(START, SLASH);
    assert [SLASH][1..] == [] && StackOf([]) == [] && Split([])[..0] == [];
    assert Tracks(first, [SLASH]);
    TracksBytes(first, [SLASH], p[1..]);
    assert [SLASH] + p[1..] == p;
    FinishNormalises(PathBytes(START, p), p);
  }

  lemma {:induction false} PathKeepsEscape(u: Uri, p: seq<byte>)
    ensures PathBytes(u, p).escape == u.escape
    decreases |p|
  {
    if p != [] {
      KeepsEscape(u, p[0]);
      PathKeepsEscape(PathByte(u, p[0]), p[1..]);
    }
  }

  /** Complete escapes leave none half read. */
  lemma EndsUnescaped(raw: seq<byte>)
    requires Complete(raw)
    ensures UriBytes(START, raw).Some? && UriBytes(START, raw).value.escape == NoEscape
  {
    DecodesFirst(START, raw);
    PathKeepsEscape(START, Decode(raw));
  }

  lemma NormalIsNotEmpty(raw: seq<byte>)
    requires Complete(raw) && Decode(raw) != [] && Decode(raw)[0] == SLASH
    requires UriBytes(START, raw).Some?
    ensures UriBytes(START, raw).value.text != []
  {
    var p := Decode(raw);
    DecodesFirst(START, raw);
    var first := PathByte(START, SLASH);
    assert [SLASH][1..] == [] && StackOf([]) == [] && Split([])[..0] == [];
    TracksBytes(first, [SLASH], p[1..]);
  }

  /** No kept segment is empty, '.' or '..', so a stored path cannot name anything above the root. */
  lemma {:induction false} KeptSegmentsAreOrdinary(segs: seq<seq<byte>>)
    ensures forall i | 0 <= i < |StackOf(segs)| :: !Special(StackOf(segs)[i])
  {
    if segs != [] {
      KeptSegmentsAreOrdinary(segs[..|segs| - 1]);
    }
  }
}
