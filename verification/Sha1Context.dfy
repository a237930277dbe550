/** The streaming SHA-1 context (sha1_step, sha1_loop, sha1_pad, sha1_result). */
module Sha1Context {
  import opened Bytes
  import opened Frames
  import opened Sha1

  const MAX_MESSAGE := 0x2000_0000_0000_0000
  const WORD64 := 0x1_0000_0000_0000_0000

  /** The code's own round functions. */
  function FCode(t: nat, b: word, c: word, d: word): word {
    if t < 20 then (b & c) | (!b & d)
    else if t < 40 then (b ^ c) ^ d
    else if t < 60 then (b & c) | (b & d) | (c & d)
    else (b ^ c) ^ d
  }

  lemma SameFunctions(t: nat, b: word, c: word, d: word)
    ensures FCode(t, b, c, d) == F(t, b, c, d)
  {
    assert (b & c) | (!b & d) == (b & c) ^ (!b & d);
    assert (b & c) | (b & d) | (c & d) == (b & c) ^ (b & d) ^ (c & d);
  }

  /** The 16-word window holds the schedule words of rounds lo..lo + 16. */
  ghost predicate Window(w: seq<word>, m: Block, t: nat) {
    |w| == 16 && forall j | Low(t) <= j < Low(t) + 16 :: w[j % 16] == W(m, j)
  }

  function Low(t: nat): nat { if t <= 16 then 0 else t - 16 }

  /** What a context holds after `fed`: the state after its whole blocks, and the rest. */
  ghost predicate Held(h: Regs, tail: seq<byte>, fed: seq<byte>) {
    && |tail| < 64 && |tail| == |fed| % 64
    && h == Absorb(fed[..|fed| - |tail|])
    && tail == fed[|fed| - |tail|..]
  }

  lemma HeldMore(h: Regs, tail: seq<byte>, fed: seq<byte>, data: seq<byte>)
    requires Held(h, tail, fed) && |tail| + |data| < 64
    ensures Held(h, tail + data, fed + data)
  {
    hide Absorb;
    var whole := fed[..|fed| - |tail|];
    assert fed + data == whole + (tail + data);
    assert (fed + data)[..|whole|] == whole;
  }

  lemma HeldBlock(h: Regs, tail: seq<byte>, fed: seq<byte>, data: seq<byte>)
    requires Held(h, tail, fed) && |tail| + |data| == 64
    ensures Held(Compress(h, BlockOf(tail + data)), [], fed + data)
  {
    hide Compress, BlockOf;
    var whole, all := fed[..|fed| - |tail|], fed + data;
    assert all == whole + (tail + data);
    assert all[..|all| - 64] == whole && all[|all| - 64..] == tail + data;
    assert all[..|all| - 0] == all && all[|all| - 0..] == [];
  }

  class Context {
    var h: Regs
    const m: array<byte>
    var count: nat
    /** Bits of message seen: a 64-bit counter. */
    var bits: nat
    /** Everything put into blocks so far. */
    ghost var fed: seq<byte>

    ghost predicate Valid()
      reads this, m
    {
      && m.Length == 64 && bits < WORD64 && count < 64
      && Held(h, m[..count], fed)
    }

    /** _sha1_init */
    constructor ()
      ensures Valid() && fed == [] && bits == 0 && fresh(m)
    {
      h, m, count, bits := H0, new byte[64](_ => 0), 0, 0;
      fed := [];
      new;
      assert m[..0] == [] && Absorb([]) == H0;
    }

    /** Rounds lo..hi with the schedule kept in place in 16 words. */
    method RunRounds(w: array<word>, ghost block: Block, lo: nat, hi: nat, start: Regs, ghost r0: Regs)
      returns (r: Regs)
      requires w.Length == 16 && lo <= hi && Window(w[..], block, lo) && start == Rounds(r0, block, lo)
      modifies w
      ensures Window(w[..], block, hi) && r == Rounds(r0, block, hi)
    {
      hide Round, W, Rounds;
      r := start;
      var t := lo;
      while t < hi
        invariant lo <= t <= hi && Window(w[..], block, t) && r == Rounds(r0, block, t)
      {
        Schedule(w, block, t);
        r := OneRound(r, t, w[t % 16]);
        NextRound(r0, block, t);
        t := t + 1;
      }
    }

    method OneRound(r: Regs, t: nat, w: word) returns (next: Regs)
      ensures next == Round(r, t, w)
    {
      hide F, FCode, Mix;
      SameFunctions(t, r.b, r.c, r.d);
      next := Mix(r, FCode(t, r.b, r.c, r.d), t, w);
    }

    /** From round 16 on, the word of round t replaces that of round t - 16. */
    method Schedule(w: array<word>, ghost block: Block, t: nat)
      requires w.Length == 16 && Window(w[..], block, t)
      modifies w
      ensures w.Length == 16 && Window(w[..], block, t + 1) && w[t % 16] == W(block, t)
    {
      hide *;
      ghost var before := w[..];
      WindowAt(before, block, t);
      if t >= 16 {
        var s := t % 16;
        assert (s + 0) % 16 == s;
        w[s] := NextCode(w[(s + 13) % 16], w[(s + 8) % 16], w[(s + 2) % 16], w[s]);
        assert w[..] == before[s := W(block, t)];
      }
      WindowShift(before, w[..], block, t);
    }

    /** The block's 16 words, most significant byte first. */
    method LoadWords() returns (w: array<word>)
      requires m.Length == 64
      ensures fresh(w) && w.Length == 16 && w[..] == BlockOf(m[..])
    {
      hide WordAt, RotL;
      w := new word[16](_ => 0);
      for t := 0 to 16
        invariant forall j | 0 <= j < t :: w[j] == WordAt(m[..], 4 * j)
      {
        w[t] := WordAt(m[..], 4 * t);
      }
    }

    /** sha1_step: one full block. */
    method Step()
      requires m.Length == 64
      modifies this`h, m
      ensures h == Compress(old(h), BlockOf(old(m[..])))
    {
      hide Rounds, BlockOf, Add;
      ghost var block := BlockOf(m[..]);
      var w := LoadWords();
      assert Rounds(h, block, 0) == h by {
        RoundsZero(h, block);
      }
      assert Window(w[..], block, 0) by {
        FirstWindow(block);
      }
      var r := RunRounds(w, block, 0, 20, h, h);
      r := RunRounds(w, block, 20, 40, r, h);
      r := RunRounds(w, block, 40, 60, r, h);
      r := RunRounds(w, block, 60, 80, r, h);
      h := Add(h, r);
      forall i | 0 <= i < 64 {
        m[i] := 0;
      }
    }

    /** Put up to a block's rest of bytes into the block, and process it if that fills it. */
    method Put(data: seq<byte>)
      requires Valid() && 0 < |data| <= 64 - count
      modifies this`h, this`count, this`fed, m
      ensures Valid() && fed == old(fed) + data && count == (old(count) + |data|) % 64
    {
      hide Held, Compress, BlockOf;
      ghost var tail := m[..count];
      forall i | 0 <= i < |data| {
        m[count + i] := data[i];
      }
      assert m[..count + |data|] == tail + data;
      if count + |data| < 64 {
        HeldMore(h, tail, fed, data);
        count := count + |data|;
      } else {
        HeldBlock(h, tail, fed, data);
        assert m[..] == tail + data;
        count := 0;
        Step();
        assert m[..0] == [];
      }
      fed := fed + data;
    }

    /** sha1_loop: any number of bytes, however they are split over calls. */
    method Loop(input: seq<byte>)
      requires Valid()
      modifies this`h, this`count, this`fed, this`bits, m
      ensures Valid() && fed == old(fed) + input && bits == Counted(old(bits), |input|)
    {
      hide Absorb, Counted;
      var off := 0;
      assert input[..0] == [];
      CountedNothing(bits);
      while off < |input|
        invariant 0 <= off <= |input| && Valid() && fed == old(fed) + input[..off]
        invariant bits == Counted(old(bits), off)
      {
        var gap := 64 - count;
        var size := if gap < |input| - off then gap else |input| - off;
        Put(input[off..off + size]);
        assert input[..off] + input[off..off + size] == input[..off + size];
        CountedMore(old(bits), off, size);
        bits := Counted(bits, size);
        off := off + size;
      }
      assert input[..off] == input;
    }

    /** bzero the next n bytes of the block and account for them. */
    method PutZeros(n: nat)
      requires Valid() && n <= 64 - count
      modifies this`h, this`count, this`fed, m
      ensures Valid() && fed == old(fed) + Zeros(n) && count == (old(count) + n) % 64
    {
      hide Held;
      if n == 0 {
        assert fed + Zeros(0) == fed;
      } else {
        Put(Zeros(n));
      }
    }

    /** PUTPAD of the eight bytes of the bit count, most significant first. */
    method PutLength(bytes: seq<byte>)
      requires Valid() && count == 56 && |bytes| == 8
      modifies this`h, this`count, this`fed, m
      ensures Valid() && fed == old(fed) + bytes
    {
      hide Held;
      assert bytes[..0] == [];
      for i := 0 to 8
        invariant Valid() && count == (56 + i) % 64 && fed == old(fed) + bytes[..i]
      {
        Put([bytes[i]]);
        assert bytes[..i] + [bytes[i]] == bytes[..i + 1];
      }
      assert bytes[..8] == bytes;
    }

    /** Zeros up to eight bytes short of a full block, through the end of this one if need be. */
    method FillToLength() returns (ghost z: nat)
      requires Valid()
      modifies this`h, this`count, this`fed, m
      ensures Valid() && count == 56 && z < 64 && fed == old(fed) + Zeros(z)
    {
      hide Held;
      z := 0;
      if 64 - count < 8 {
        z := 64 - count;
        PutZeros(64 - count);
      } else {
        assert fed + Zeros(0) == fed;
      }
      ghost var more := 56 - count;
      assert old(fed) + Zeros(z) + Zeros(more) == old(fed) + Zeros(z + more);
      PutZeros(64 - count - 8);
      z := z + more;
    }

    /** sha1_pad */
    method PadOut()
      requires Valid() && bits == 8 * |fed| < WORD64
      modifies this`h, this`count, this`fed, m
      ensures Valid() && fed == Pad(old(fed)) && count == 0
    {
      hide Absorb, BigEndian;
      ghost var msg := fed;
      Put([0x80]);
      ghost var z := FillToLength();
      assert |fed| == |msg| + 1 + z;
      PadCount(|msg|, z);
      PutLength(BigEndian(bits, 8));
    }

    /** sha1_result */
    method Result() returns (digest: seq<byte>)
      requires Valid() && bits == 8 * |fed| < WORD64
      modifies this`h, this`count, this`fed, m
      ensures digest == Digest(old(fed))
    {
      PadOut();
      assert m[..0] == [] && fed[..|fed| - 0] == fed;
      digest := WordBytes(h.a) + WordBytes(h.b) + WordBytes(h.c) + WordBytes(h.d) + WordBytes(h.e);
    }
  }

  /** lws_SHA1 */
  method SHA1(d: seq<byte>) returns (md: seq<byte>)
    requires |d| < MAX_MESSAGE
    ensures md == Digest(d)
  {
    hide *;
    var ctx := new Context();
    CountedSmall(|d|);
    ctx.Loop(d);
    assert [] + d == d;
    md := ctx.Result();
  }

  lemma PadCount(len: nat, z: nat)
    requires z < 64 && (len + 1 + z) % 64 == 56
    ensures z == PadZeros(len)
  {
  }

  /** The 64-bit bit counter after n more bytes. */
  function Counted(bits: nat, n: nat): (r: nat)
    ensures r < WORD64
  {
    (bits + 8 * n) % WORD64
  }

  lemma CountedNothing(bits: nat)
    requires bits < WORD64
    ensures Counted(bits, 0) == bits
  {
  }

  lemma CountedSmall(n: nat)
    requires n < MAX_MESSAGE
    ensures Counted(0, n) == 8 * n < WORD64
  {
  }

  lemma CountedMore(bits: nat, n: nat, k: nat)
    ensures Counted(Counted(bits, n), k) == Counted(bits, n + k)
  {
    var a := bits + 8 * n;
    var q := a / WORD64;
    assert a % WORD64 + 8 * k == bits + 8 * (n + k) - WORD64 * q;
  }

  /** The schedule step as the code writes it, over the slots of rounds t - 3, t - 8, t - 14 and t - 16. */
  function NextCode(w3: word, w8: word, w14: word, w16: word): word {
    RotL(w3 ^ w8 ^ w14 ^ w16, 1)
  }

  lemma SlotBack(t: nat, k: nat)
    requires k <= 16 <= t
    ensures (t % 16 + (16 - k)) % 16 == (t - k) % 16
  {
    var q := t / 16;
    assert t - k == 16 * (q - 1) + (t % 16 + (16 - k));
  }

  /** What the window gives the next round. */
  lemma WindowAt(w: seq<word>, block: Block, t: nat)
    requires Window(w, block, t)
    ensures t >= 16 ==>
      NextCode(w[(t % 16 + 13) % 16], w[(t % 16 + 8) % 16], w[(t % 16 + 2) % 16], w[(t % 16 + 0) % 16]) == W(block, t)
  {
    hide *;
    if t >= 16 {
      WindowSlot(w, block, t, 3);
      WindowSlot(w, block, t, 8);
      WindowSlot(w, block, t, 14);
      WindowSlot(w, block, t, 16);
      NextWord(block, t);
    }
  }

  lemma WindowSlot(w: seq<word>, block: Block, t: nat, k: nat)
    requires Window(w, block, t) && 1 <= k <= 16 <= t
    ensures w[(t % 16 + (16 - k)) % 16] == W(block, t - k)
  {
    hide W;
    SlotBack(t, k);
  }

  lemma NextWord(block: Block, t: nat)
    requires t >= 16
    ensures W(block, t) == NextCode(W(block, t - 3), W(block, t - 8), W(block, t - 14), W(block, t - 16))
  {
  }

  lemma WindowShift(w: seq<word>, next: seq<word>, block: Block, t: nat)
    requires Window(w, block, t)
    requires next == if t < 16 then w else w[t % 16 := W(block, t)]
    ensures Window(next, block, t + 1) && next[t % 16] == W(block, t)
  {
    hide W;
    if t >= 16 {
      forall j | t - 15 <= j <= t ensures next[j % 16] == W(block, j) {
        OtherSlot(t, j);
      }
    }
  }

  lemma OtherSlot(t: nat, j: nat)
    requires t >= 16 && t - 15 <= j <= t
    ensures j % 16 == t % 16 <==> j == t
  {
    var q, p := t / 16, j / 16;
    assert t - j == 16 * (q - p) + (t % 16 - j % 16);
  }

  lemma NextRound(r0: Regs, block: Block, t: nat)
    ensures Rounds(r0, block, t + 1) == Round(Rounds(r0, block, t), t, W(block, t))
  {
    hide Round, W;
  }

  lemma RoundsZero(r: Regs, m: Block)
    ensures Rounds(r, m, 0) == r
  {
  }

  lemma FirstWindow(m: Block)
    ensures Window(m, m, 0)
  {
  }
}
