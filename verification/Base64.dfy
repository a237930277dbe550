/** Base64 (section 4 of RFC 4648): the encoder and the forgiving decoder. */
module Base64 {
  import opened Bytes
  import opened Sequences

  type Six = n: nat | n < 64

  const PAD: byte := 0x3d

  // ---- what it means ----

  /** The alphabet, as the table `encode` lists it. */
  function Symbol(v: Six): byte {
    if v < 26 then 0x41 + v
    else if v < 52 then 0x61 + v - 26
    else if v < 62 then 0x30 + v - 52
    else if v == 62 then 0x2b
    else 0x2f
  }

  /** Table 1 of RFC 4648, both ways; a character outside it has no value. */
  const UPPER := "ABCDEFGHIJKLMNOPQRSTUVWXYZ"
  const LOWER := "abcdefghijklmnopqrstuvwxyz"
  const ALPHABET := UPPER + LOWER + "0123456789" + "+/"

  lemma SymbolIsStandard(v: Six, c: byte)
    ensures |ALPHABET| == 64 && Symbol(v) == ALPHABET[v] as int
    ensures Value(c) == v + 1 <==> c == ALPHABET[v] as int
    ensures Value(c) == 0 <==> forall k | 0 <= k < 64 :: c != ALPHABET[k] as int
  {
    AlphabetCase(v);
    forall k: Six ensures Value(c) == k + 1 <==> c == ALPHABET[k] as int { AlphabetCase(k); }
    if Value(c) > 0 { assert c == ALPHABET[Value(c) - 1] as int; }
  }

  lemma AlphabetCase(v: Six)
    ensures |ALPHABET| == 64 && Symbol(v) == ALPHABET[v] as int
  {
    UpperAt();
    LowerAt();
    hide UPPER, LOWER;
    assert forall k | 0 <= k < 10 :: "0123456789"[k] as int == 0x30 + k;
  }

  lemma UpperAt()
    ensures |UPPER| == 26 && forall k | 0 <= k < 26 :: UPPER[k] as int == 0x41 + k
  {
  }

  lemma LowerAt()
    ensures |LOWER| == 26 && forall k | 0 <= k < 26 :: LOWER[k] as int == 0x61 + k
  {
  }

  /** One more than the value of a symbol, or 0: what the table `decode` comes down to. */
  function Value(c: byte): (v: nat)
    ensures v <= 64
  {
    if 0x41 <= c <= 0x5a then c - 0x41 + 1
    else if 0x61 <= c <= 0x7a then c - 0x61 + 27
    else if 0x30 <= c <= 0x39 then c - 0x30 + 53
    else if c == 0x2b then 63
    else if c == 0x2f then 64
    else 0
  }

  /** Up to three bytes as four characters. */
  function Quad(t: seq<byte>): (r: seq<byte>)
    requires 1 <= |t| <= 3
    ensures |r| == 4
  {
    var t1 := if |t| > 1 then t[1] else 0;
    var t2 := if |t| > 2 then t[2] else 0;
    [ Symbol(t[0] / 4), Symbol(t[0] % 4 * 16 + t1 / 16),
      if |t| > 1 then Symbol(t1 % 16 * 4 + t2 / 64) else PAD, if |t| > 2 then Symbol(t2 % 64) else PAD ]
  }

  function Encoded(data: seq<byte>): seq<byte> {
    if data == [] then []
    else if |data| <= 3 then Quad(data)
    else Quad(data[..3]) + Encoded(data[3..])
  }

  /** The next symbol: how much is read, the last character seen, and its Value (0 only at the end). */
  function Scan(s: seq<byte>): (r: (nat, byte, nat))
    requires s != []
    ensures 1 <= r.0 <= |s| && r.2 <= 64 && (r.2 == 0 ==> r.0 == |s|)
  {
    if Value(s[0]) != 0 || |s| == 1 then (1, s[0], Value(s[0]))
    else var (n, c, v) := Scan(s[1..]); (n + 1, c, v)
  }

  /** The four places of one group; a place that no symbol reaches keeps its old value. */
  datatype Group = Group(read: nat, quad: seq<Six>, len: nat, last: byte)

  /** One more place: its symbol, or its old value at the end of the text. */
  function Placed(g: Group, i: nat, r: (nat, byte, nat)): Group
    requires |g.quad| == 4 && i < 4 && r.2 <= 64
  {
    Group(g.read + r.0, if r.2 != 0 then g.quad[i := r.2 - 1] else g.quad, g.len + 1, r.1)
  }

  function Collect(s: seq<byte>, g: Group, i: nat): (r: Group)
    requires |g.quad| == 4 && i <= 4 && g.read <= |s|
    ensures |r.quad| == 4 && g.read <= r.read <= |s| && r.len <= g.len + 4 - i
    ensures i < 4 && g.read < |s| ==> g.read < r.read && r.len > g.len
    decreases 4 - i
  {
    if i == 4 || g.read == |s| then g
    else
      Collect(s, Placed(g, i, Scan(s[g.read..])), i + 1)
  }

  /** A group that ends the text in '=' counts one symbol less. */
  function Symbols(g: Group, size: nat): nat {
    if g.read == size && g.last == PAD && g.len > 0 then g.len - 1 else g.len
  }

  function Triple(q: seq<Six>, len: nat): seq<byte>
    requires |q| == 4
  {
    (if len >= 2 then [Join(q[0], 4, q[1] / 16)] else [])
    + (if len >= 3 then [Join(q[1] % 16, 16, q[2] / 4)] else [])
    + (if len >= 4 then [Join(q[2] % 4, 64, q[3])] else [])
  }

  /** High bits and low bits of one byte. */
  function Join(high: nat, shift: nat, low: nat): byte
    requires high * shift + low < 256
  {
    high * shift + low
  }

  function Decoded(s: seq<byte>, quad: seq<Six>): seq<byte>
    requires |quad| == 4
    decreases |s|
  {
    if s == [] then []
    else
      var g := Collect(s, Group(0, quad, 0, 0), 0);
      Triple(g.quad, Symbols(g, |s|)) + Decoded(s[g.read..], g.quad)
  }

  /** What the decoder returns: a group counts one less than its symbols. */
  function Length(s: seq<byte>, quad: seq<Six>): int
    requires |quad| == 4
    decreases |s|
  {
    if s == [] then 0
    else
      var g := Collect(s, Group(0, quad, 0, 0), 0);
      Symbols(g, |s|) - 1 + Length(s[g.read..], g.quad)
  }

  /** No group, nor the NUL at the end, is found to overrun the output buffer. */
  predicate Fits(s: seq<byte>, quad: seq<Six>, done: int, size: int)
    requires |quad| == 4
    decreases |s|
  {
    if s == [] then done + 1 < size
    else
      var g := Collect(s, Group(0, quad, 0, 0), 0);
      size >= done + g.len - 1 && Fits(s[g.read..], g.quad, done + Symbols(g, |s|) - 1, size)
  }

  // ---- round trip ----

  lemma SymbolValue(v: Six)
    ensures Value(Symbol(v)) == v + 1 && Symbol(v) != PAD && Value(PAD) == 0
  {
  }

  lemma {:induction false} EncodedLength(data: seq<byte>)
    ensures |Encoded(data)| == (|data| + 2) / 3 * 4
    decreases |data|
  {
    if |data| > 3 { EncodedLength(data[3..]); }
  }

  lemma EncodedHead(data: seq<byte>, len: nat)
    requires data != [] && len == if |data| < 3 then |data| else 3
    ensures Encoded(data) == Quad(data[..len]) + Encoded(data[len..])
  {
    if |data| <= 3 {
      assert data[..len] == data && data[len..] == [];
      assert Encoded(data) == Quad(data) + [];
    }
  }

  /** Splitting three bytes into four symbols and joining them again. */
  lemma Rejoined(a: byte, b: byte, c: byte)
    ensures a / 4 * 4 + (a % 4 * 16 + b / 16) / 16 == a
    ensures (a % 4 * 16 + b / 16) % 16 * 16 + (b % 16 * 4 + c / 64) / 4 == b
    ensures (b % 16 * 4 + c / 64) % 4 * 64 + c % 64 == c
  {
    assert (a % 4 * 16 + b / 16) / 16 == a % 4 && (a % 4 * 16 + b / 16) % 16 == b / 16;
    assert (b % 16 * 4 + c / 64) / 4 == b % 16 && (b % 16 * 4 + c / 64) % 4 == c / 64;
  }

  /** A symbol is read at once. */
  lemma ScanSymbol(s: seq<byte>, at: nat, v: Six)
    requires at < |s| && s[at] == Symbol(v)
    ensures Scan(s[at..]) == (1, Symbol(v), v + 1)
  {
    SymbolValue(v);
  }

  /** The padding at the end is read in one go. */
  lemma ScanPad(s: seq<byte>, at: nat)
    requires at < |s| <= at + 2 && forall i | at <= i < |s| :: s[i] == PAD
    ensures Scan(s[at..]) == (|s| - at, PAD, 0)
  {
    if |s| == at + 2 { assert s[at..][1..] == [PAD]; }
  }

  lemma {:induction false} CollectOne(s: seq<byte>, g: Group, i: nat)
    requires |g.quad| == 4 && i < 4 && g.read < |s|
    ensures Collect(s, g, i) == Collect(s, Placed(g, i, Scan(s[g.read..])), i + 1)
  {
    hide Scan, Placed;
  }

  lemma CollectNoMore(s: seq<byte>)
    ensures forall g: Group, i: nat | |g.quad| == 4 && g.read <= |s| && i <= 4 && (i == 4 || g.read == |s|) ::
      Collect(s, g, i) == g
  {
  }

  lemma TakeSymbol(s: seq<byte>, g: Group, i: nat, v: Six)
    requires |g.quad| == 4 && i < 4 && g.read < |s| && s[g.read] == Symbol(v)
    ensures Collect(s, g, i) == Collect(s, Group(g.read + 1, g.quad[i := v], g.len + 1, Symbol(v)), i + 1)
  {
    hide Scan, Symbol;
    ScanSymbol(s, g.read, v);
  }

  /** A text that starts with n symbols has them all in place after n rounds. */
  lemma {:induction false} TakeSymbols(s: seq<byte>, quad: seq<Six>, v: seq<Six>, n: nat)
    requires |quad| == 4 && 1 <= n <= 4 && n <= |v| && n <= |s| && forall i | 0 <= i < n :: s[i] == Symbol(v[i])
    ensures Collect(s, Group(0, quad, 0, 0), 0)
         == Collect(s, Group(n, v[..n] + quad[n..], n, Symbol(v[n - 1])), n)
  {
    hide Collect, Symbol;
    if n == 1 {
      TakeSymbol(s, Group(0, quad, 0, 0), 0, v[0]);
      assert quad[0 := v[0]] == v[..1] + quad[1..];
    } else {
      TakeSymbols(s, quad, v, n - 1);
      var g := Group(n - 1, v[..n - 1] + quad[n - 1..], n - 1, Symbol(v[n - 2]));
      TakeSymbol(s, g, n - 1, v[n - 1]);
      assert g.quad[n - 1 := v[n - 1]] == v[..n] + quad[n..];
    }
  }

  /** The six-bit values of a full or partial group of bytes. */
  function Values(t: seq<byte>): (r: seq<Six>)
    requires 1 <= |t| <= 3
    ensures |r| == 4 && forall i | 0 <= i <= |t| :: Quad(t)[i] == Symbol(r[i])
    ensures forall i | |t| < i < 4 :: Quad(t)[i] == PAD
  {
    var t1: byte := if |t| > 1 then t[1] else 0;
    var t2: byte := if |t| > 2 then t[2] else 0;
    [t[0] / 4, t[0] % 4 * 16 + t1 / 16, t1 % 16 * 4 + t2 / 64, t2 % 64]
  }

  lemma ValuesJoin(t: seq<byte>)
    requires 1 <= |t| <= 3
    ensures Triple(Values(t), |t| + 1) == t
  {
    Rejoined(t[0], if |t| > 1 then t[1] else 0, if |t| > 2 then t[2] else 0);
  }

  /** A whole group of three bytes, whatever follows it. */
  lemma FullGroup(t: seq<byte>, rest: seq<byte>, quad: seq<Six>)
    requires |t| == 3 && |quad| == 4
    ensures Decoded(Quad(t) + rest, quad) == t + Decoded(rest, Values(t))
    ensures Length(Quad(t) + rest, quad) == 3 + Length(rest, Values(t))
    ensures forall done, size :: Fits(Quad(t) + rest, quad, done, size)
                            <==> size >= done + 3 && Fits(rest, Values(t), done + 3, size)
  {
    hide Quad, Values, Triple, Symbol;
    var s, v := Quad(t) + rest, Values(t);
    TakeSymbols(s, quad, v, 4);
    assert v[..4] + quad[4..] == v;
    SymbolValue(v[3]);
    ValuesJoin(t);
    assert s[4..] == rest;
  }

  /** The padded group at the end, collected. */
  lemma LastCollected(t: seq<byte>, quad: seq<Six>, q: seq<Six>)
    requires 1 <= |t| <= 2 && |quad| == 4 && q == Values(t)[..|t| + 1] + quad[|t| + 1..]
    ensures Collect(Quad(t), Group(0, quad, 0, 0), 0) == Group(4, q, |t| + 2, PAD)
  {
    hide Quad, Values, Symbol, Scan, Collect, Value;
    var s, v, n := Quad(t), Values(t), |t| + 1;
    var g := Group(n, q, n, Symbol(v[n - 1]));
    TakeSymbols(s, quad, v, n);
    ScanPad(s, n);
    CollectOne(s, g, n);
    assert Placed(g, n, (4 - n, PAD, 0)) == Group(4, q, n + 1, PAD);
    CollectNoMore(s);
  }

  /** The padded group at the end. */
  lemma LastGroup(t: seq<byte>, quad: seq<Six>)
    requires 1 <= |t| <= 2 && |quad| == 4
    ensures Decoded(Quad(t), quad) == t && Length(Quad(t), quad) == |t|
    ensures forall done, size :: Fits(Quad(t), quad, done, size) <==> done + |t| + 1 < size
  {
    hide Quad, Values, Triple, Collect;
    var s, v, n := Quad(t), Values(t), |t| + 1;
    var q := v[..n] + quad[n..];
    LastCollected(t, quad, q);
    ValuesJoin(t);
    SameTriple(v, q, n);
    assert s[4..] == [];
  }

  lemma SameTriple(a: seq<Six>, b: seq<Six>, n: nat)
    requires |a| == |b| == 4 && n <= 4 && a[..n] == b[..n]
    ensures Triple(a, n) == Triple(b, n)
  {
    assert forall i | 0 <= i < n :: a[i] == a[..n][i] == b[i];
  }

  /** Decoding the encoding gives the bytes and their number back, through all three cases of padding. */
  lemma {:induction false} RoundTrip(data: seq<byte>, quad: seq<Six>)
    requires |quad| == 4
    ensures Decoded(Encoded(data), quad) == data && Length(Encoded(data), quad) == |data|
    ensures forall done, size :: Fits(Encoded(data), quad, done, size) <==> done + |data| + 1 < size
    decreases |data|
  {
    hide Decoded, Quad, Values, Length, Fits;
    if data == [] {
      NothingDecoded(quad);
    } else if |data| < 3 {
      LastGroup(data, quad);
    } else if |data| == 3 {
      FullGroup(data, [], quad);
      NothingDecoded(Values(data));
      assert Quad(data) + [] == Quad(data) && data + [] == data;
    } else {
      FullGroup(data[..3], Encoded(data[3..]), quad);
      RoundTrip(data[3..], Values(data[..3]));
      assert data[..3] + data[3..] == data;
    }
  }

  lemma NothingDecoded(quad: seq<Six>)
    requires |quad| == 4
    ensures Decoded([], quad) == [] && Length([], quad) == 0
    ensures forall done, size :: Fits([], quad, done, size) <==> done + 1 < size
  {
  }

  // ---- text behind the encoding ----

  /** Characters that are no symbols, such as a line end. */
  predicate Junk(s: seq<byte>) { s != [] && forall i | 0 <= i < |s| :: Value(s[i]) == 0 }

  /** Nothing but padding and junk is left: it is read in one go, and the last of it decides. */
  lemma {:induction false} ScanJunk(s: seq<byte>)
    requires Junk(s)
    ensures Scan(s) == (|s|, s[|s| - 1], 0)
    decreases |s|
  {
    hide Value;
    if |s| > 1 { ScanJunk(s[1..]); }
  }

  /** The first group of a text and the rest. */
  lemma DecodesGroup(s: seq<byte>, quad: seq<Six>, done: int, size: int)
    requires |quad| == 4 && s != []
    ensures var g := Collect(s, Group(0, quad, 0, 0), 0);
      && 0 < g.read <= |s| && 0 < g.len <= 4 && |g.quad| == 4
      && Decoded(s, quad) == Triple(g.quad, Symbols(g, |s|)) + Decoded(s[g.read..], g.quad)
      && Length(s, quad) == Symbols(g, |s|) - 1 + Length(s[g.read..], g.quad)
      && (Fits(s, quad, done, size) <==>
            size >= done + g.len - 1 && Fits(s[g.read..], g.quad, done + Symbols(g, |s|) - 1, size))
  {
    hide Collect, Triple, Symbols;
  }

  /** The group that n symbols in front of junk make up. */
  lemma CollectJunk(v: seq<Six>, n: nat, junk: seq<byte>, head: seq<byte>, quad: seq<Six>)
    requires |quad| == 4 && n <= 3 && n <= |v| && |head| == n && Junk(junk)
    requires forall i | 0 <= i < n :: head[i] == Symbol(v[i])
    ensures Collect(head + junk, Group(0, quad, 0, 0), 0)
         == Group(n + |junk|, v[..n] + quad[n..], n + 1, junk[|junk| - 1])
  {
    hide Symbol, Scan, Collect, Junk;
    var s := head + junk;
    var q := v[..n] + quad[n..];
    if n == 0 {
      assert q == quad;
    } else {
      TakeSymbols(s, quad, v, n);
    }
    assert s[n..] == junk;
    ScanJunk(junk);
    var g := Group(n, q, n, if n == 0 then 0 else Symbol(v[n - 1]));
    CollectOne(s, g, n);
    CollectNoMore(s);
  }

  /** A text that is one group. */
  lemma OneGroup(s: seq<byte>, quad: seq<Six>, g: Group)
    requires |quad| == 4 && s != [] && g == Collect(s, Group(0, quad, 0, 0), 0) && g.read == |s| && |g.quad| == 4
    ensures Decoded(s, quad) == Triple(g.quad, Symbols(g, |s|)) && Length(s, quad) == Symbols(g, |s|) - 1
  {
    hide Triple, Collect, Symbols, Decoded, Length, Fits;
    DecodesGroup(s, quad, 0, 0);
    assert s[|s|..] == [];
    NothingDecoded(g.quad);
    assert Triple(g.quad, Symbols(g, |s|)) + [] == Triple(g.quad, Symbols(g, |s|));
  }

  /** What n symbols in front of junk decode to; `n` is 2 or 3 at the end of a text, and 0 behind whole groups. */
  lemma SymbolsAndJunk(v: seq<Six>, n: nat, junk: seq<byte>, head: seq<byte>, quad: seq<Six>)
    requires |quad| == 4 && n <= 3 && n <= |v| && |head| == n && Junk(junk)
    requires forall i | 0 <= i < n :: head[i] == Symbol(v[i])
    ensures var q := v[..n] + quad[n..];
      var count := if junk[|junk| - 1] == PAD then n else n + 1;
      Decoded(head + junk, quad) == Triple(q, count) && Length(head + junk, quad) == count - 1
  {
    assert junk != [];
    hide *;
    CollectJunk(v, n, junk, head, quad);
    JunkSymbols(n, junk, v[..n] + quad[n..]);
    OneGroup(head + junk, quad, Group(n + |junk|, v[..n] + quad[n..], n + 1, junk[|junk| - 1]));
  }

  lemma JunkSymbols(n: nat, junk: seq<byte>, q: seq<Six>)
    requires junk != []
    ensures Symbols(Group(n + |junk|, q, n + 1, junk[|junk| - 1]), n + |junk|)
         == if junk[|junk| - 1] == PAD then n else n + 1
  {
  }

  /** A partial group in front of junk: the bytes come back, and one more unless a '=' ends the text. */
  lemma LastGroupJunk(t: seq<byte>, junk: seq<byte>, quad: seq<Six>)
    requires 1 <= |t| <= 2 && |quad| == 4 && Junk(junk)
    ensures var r := Decoded(Quad(t) + junk, quad);
      && |t| <= |r| && r[..|t|] == t && Length(Quad(t) + junk, quad) == |r|
      && |r| == if junk[|junk| - 1] == PAD then |t| else |t| + 1
  {
    hide Quad, Values, Triple, Symbol, Value, Decoded, Length;
    var v, n := Values(t), |t| + 1;
    var head, tail := Quad(t)[..n], Quad(t)[n..] + junk;
    assert Quad(t) + junk == head + tail;
    PadJunk(t, junk);
    SymbolsAndJunk(v, n, tail, head, quad);
    var q := v[..n] + quad[n..];
    ValuesJoin(t);
    TripleGrows(v, q, n);
  }

  lemma PadJunk(t: seq<byte>, junk: seq<byte>)
    requires 1 <= |t| <= 2 && Junk(junk)
    ensures var tail := Quad(t)[|t| + 1..] + junk; Junk(tail) && tail[|tail| - 1] == junk[|junk| - 1]
  {
    hide Symbol;
    SymbolValue(0);
  }

  lemma TripleGrows(a: seq<Six>, b: seq<Six>, n: nat)
    requires |a| == |b| == 4 && 2 <= n <= 3 && a[..n] == b[..n]
    ensures |Triple(a, n)| == n - 1 && Triple(b, n) == Triple(a, n)
    ensures |Triple(b, n + 1)| == n && Triple(b, n + 1)[..n - 1] == Triple(a, n)
  {
    assert forall i | 0 <= i < n :: a[i] == a[..n][i] == b[i];
  }

  /** The encoding up to its last, partial group. */
  lemma {:induction false} JunkBehind(data: seq<byte>, junk: seq<byte>, quad: seq<Six>)
    requires |quad| == 4 && Junk(junk)
    ensures var s := Encoded(data) + junk;
      var r := Decoded(s, quad);
      var whole, pad := |data| % 3 == 0, junk[|junk| - 1] == PAD;
      && |data| <= |r| && r[..|data|] == data && |r| == (if whole || pad then |data| else |data| + 1)
      && Length(s, quad) == if whole && pad then |r| - 1 else |r|
    decreases |data|
  {
    hide Decoded, Length, Quad, Values, Symbol, Value, Triple, Fits;
    if data == [] {
      NoSymbols(junk, quad);
    } else if |data| < 3 {
      LastGroupJunk(data, junk, quad);
    } else {
      var rest := Encoded(data[3..]);
      EncodedHead(data, 3);
      FullGroup(data[..3], rest + junk, quad);
      assert Encoded(data) + junk == Quad(data[..3]) + (rest + junk);
      JunkBehind(data[3..], junk, Values(data[..3]));
      assert data == data[..3] + data[3..];
    }
  }

  lemma NoSymbols(junk: seq<byte>, quad: seq<Six>)
    requires |quad| == 4 && Junk(junk)
    ensures Encoded([]) + junk == junk && Decoded(junk, quad) == []
    ensures Length(junk, quad) == if junk[|junk| - 1] == PAD then -1 else 0
  {
    hide Value, Scan;
    SymbolsAndJunk([], 0, junk, [], quad);
    assert [] + junk == junk;
  }

  /**
   * With text behind it that holds no symbols, an encoding decodes to its bytes exactly if it needed no
   * padding or the text ends in '='; otherwise a byte too many comes back. Their number comes back exactly
   * if one of the two holds but not both.
   */
  lemma JunkHarmsExactly(data: seq<byte>, junk: seq<byte>, quad: seq<Six>)
    requires |quad| == 4 && Junk(junk)
    ensures Decoded(Encoded(data) + junk, quad) == data <==> |data| % 3 == 0 || junk[|junk| - 1] == PAD
    ensures Length(Encoded(data) + junk, quad) == |data| <==> (|data| % 3 == 0) != (junk[|junk| - 1] == PAD)
  {
    hide Decoded, Length, Encoded;
    JunkBehind(data, junk, quad);
  }

  /** A newline behind either kind of padding brings back a byte too many; behind whole groups it does no harm. */
  lemma NewlineBehind(a: byte, b: byte, c: byte, quad: seq<Six>)
    requires |quad| == 4
    ensures |Decoded(Encoded([a]) + [10], quad)| == 2 && |Decoded(Encoded([a, b]) + [10], quad)| == 3
    ensures Decoded(Encoded([a, b, c]) + [10], quad) == [a, b, c]
  {
    hide Decoded, Length, Encoded;
    JunkBehind([a], [10], quad);
    JunkBehind([a, b], [10], quad);
    JunkBehind([a, b, c], [10], quad);
  }

  /** An instance for all data: room for exactly the bytes and the NUL is refused, one byte more is not. */
  lemma ExactRoomIsRefused(data: seq<byte>, quad: seq<Six>)
    requires |quad| == 4
    ensures !Fits(Encoded(data), quad, 0, |data| + 1) && Fits(Encoded(data), quad, 0, |data| + 2)
  {
    RoundTrip(data, quad);
  }

  // ---- the code ----

  /** Up to three bytes, the rest zero. */
  method ReadTriple(data: seq<byte>, pos: nat, triple: array<byte>) returns (next: nat, len: nat)
    requires pos < |data| && triple.Length == 3
    modifies triple
    ensures 1 <= len <= 3 && next == pos + len <= |data| && (len < 3 ==> next == |data|)
    ensures triple[..len] == data[pos..next] && forall k | len <= k < 3 :: triple[k] == 0
  {
    next, len := pos, 0;
    for i := 0 to 3
      invariant len == (if i <= |data| - pos then i else |data| - pos) && next == pos + len
      invariant forall k | 0 <= k < i :: triple[k] == if k < len then data[pos + k] else 0
    {
      if next < |data| {
        triple[i] := data[next];
        next, len := next + 1, len + 1;
      } else {
        triple[i] := 0;
      }
    }
  }

  method PutQuad(triple: array<byte>, len: nat, out: array<byte>, at: nat)
    requires triple.Length == 3 && 1 <= len <= 3 && triple != out && at + 4 <= out.Length
    requires forall k | len <= k < 3 :: triple[k] == 0
    modifies out
    ensures out[..at + 4] == old(out[..at]) + Quad(triple[..len])
  {
    out[at] := Symbol(triple[0] / 4);
    out[at + 1] := Symbol(triple[0] % 4 * 16 + triple[1] / 16);
    out[at + 2] := if len > 1 then Symbol(triple[1] % 16 * 4 + triple[2] / 64) else PAD;
    out[at + 3] := if len > 2 then Symbol(triple[2] % 64) else PAD;
    assert out[..at + 4] == old(out[..at]) + [out[at], out[at + 1], out[at + 2], out[at + 3]];
  }

  /** lws_b64_encode_string */
  method Encode(data: seq<byte>, out: array<byte>, outSize: nat) returns (done: int)
    requires outSize <= out.Length
    modifies out
    ensures var n := (|data| + 2) / 3 * 4;
      && done == (if n + 1 < outSize then n else -1)
      && (done >= 0 ==> out[..n] == Encoded(data) && out[n] == 0)
  {
    hide Quad, Symbol;
    var pos, size := 0, 0;
    var triple := new byte[3](_ => 0);
    EncodedLength(data);
    assert data[0..] == data;
    while pos < |data|
      invariant pos <= |data| && size <= out.Length
      invariant out[..size] + Encoded(data[pos..]) == Encoded(data)
    {
      ghost var rest := data[pos..];
      var next, len := ReadTriple(data, pos, triple);
      EncodedHead(rest, len);
      assert rest[..len] == data[pos..next] && rest[len..] == data[next..];
      if size + 4 >= outSize {
        return -1;
      }
      PutQuad(triple, len, out, size);
      pos, size := next, size + 4;
    }
    assert data[|data|..] == [];
    if size + 1 >= outSize {
      return -1;
    }
    out[size] := 0;
    done := size;
  }

  /** Read on until a symbol is found or the text ends. */
  method NextSymbol(input: seq<byte>, pos: nat) returns (next: nat, c: byte, v: nat)
    requires pos < |input|
    ensures next > pos && (next - pos, c, v) == Scan(input[pos..])
  {
    next, c, v := pos + 1, input[pos], Value(input[pos]);
    while next < |input| && v == 0
      invariant pos < next <= |input| && v <= 64 && c == input[next - 1] && v == Value(c)
      invariant var (n, d, w) := Scan(input[next - 1..]); (n + next - 1 - pos, d, w) == Scan(input[pos..])
      decreases |input| - next
    {
      assert input[next - 1..][1..] == input[next..];
      c, v := input[next], Value(input[next]);
      next := next + 1;
    }
  }

  /** One group of up to four symbols; places not reached keep what they held. */
  method CollectGroup(input: seq<byte>, pos: nat, quad: array<Six>) returns (next: nat, len: nat, c: byte)
    requires pos < |input| && quad.Length == 4
    modifies quad
    ensures pos < next <= |input|
    ensures Group(next - pos, quad[..], len, c) == Collect(input[pos..], Group(0, old(quad[..]), 0, 0), 0)
  {
    hide Scan, Collect;
    CollectNoMore(input[pos..]);
    next, len, c := pos, 0, 0;
    ghost var s, quad0 := input[pos..], quad[..];
    var i := 0;
    while i < 4 && next < |input|
      invariant i <= 4 && pos <= next <= |input| && (i > 0 ==> pos < next)
      invariant Collect(s, Group(next - pos, quad[..], len, c), i) == Collect(s, Group(0, quad0, 0, 0), 0)
    {
      assert s[next - pos..] == input[next..];
      ghost var before, g := quad[..], Group(next - pos, quad[..], len, c);
      CollectOne(s, g, i);
      var v;
      next, c, v := NextSymbol(input, next);
      len := len + 1;
      if v != 0 {
        quad[i] := v - 1;
        assert quad[..] == before[i := v - 1];
      }
      i := i + 1;
    }
  }

  /** lws_b64_decode_string on the text before the NUL. */
  method Decode(input: seq<byte>, out: array<byte>, outSize: nat, quad: array<Six>) returns (done: int)
    requires outSize <= out.Length && quad.Length == 4
    modifies out, quad
    ensures var q := old(quad[..]);
      && done == (if Fits(input, q, 0, outSize) then Length(input, q) else -1)
      && (Fits(input, q, 0, outSize) ==>
            var n := |Decoded(input, q)|;
            n < outSize && out[..n] == Decoded(input, q) && out[n] == 0)
  {
    hide Collect, Triple, Decoded, Length, Fits, Value;
    done := 0;
    var pos: nat, at: nat := 0, 0;
    ghost var q0 := quad[..];
    assert input[0..] == input;
    while pos < |input|
      invariant pos <= |input| && done <= at <= done + 1 && (pos < |input| ==> at == done) && at <= out.Length
      invariant done + Length(input[pos..], quad[..]) == Length(input, q0)
      invariant Fits(input[pos..], quad[..], done, outSize) == Fits(input, q0, 0, outSize)
      invariant out[..at] + Decoded(input[pos..], quad[..]) == Decoded(input, q0)
      decreases |input| - pos
    {
      ghost var rest := input[pos..];
      DecodesGroup(rest, quad[..], done, outSize);
      var next, len, c := CollectGroup(input, pos, quad);
      assert rest[next - pos..] == input[next..];
      if outSize < done + len - 1 {
        return -1;
      }
      ghost var before := out[..at];
      if next == |input| && c == PAD {
        len := len - 1;
      }
      at := PutTriple(quad, len, out, at);
      Regroup(before, Triple(quad[..], len), Decoded(input[next..], quad[..]));
      done := done + len - 1;
      pos := next;
    }
    assert input[|input|..] == [];
    NothingDecoded(quad[..]);
    if done + 1 >= outSize {
      return -1;
    }
    out[at] := 0;
  }

  method PutTriple(quad: array<Six>, len: nat, out: array<byte>, at: nat) returns (next: nat)
    requires quad.Length == 4 && len <= 4 && at + (if len == 0 then 0 else len - 1) <= out.Length
    modifies out
    ensures next == at + (if len == 0 then 0 else len - 1) && out[..next] == old(out[..at]) + Triple(quad[..], len)
  {
    next := at;
    if len >= 2 {
      out[next], next := Join(quad[0], 4, quad[1] / 16), next + 1;
    }
    if len >= 3 {
      out[next], next := Join(quad[1] % 16, 16, quad[2] / 4), next + 1;
    }
    if len >= 4 {
      out[next], next := Join(quad[2] % 4, 64, quad[3]), next + 1;
    }
  }
}
