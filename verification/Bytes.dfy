/** Bytes as small integers, and the exclusive-or the masking uses. */
module Bytes {
  type byte = x: int | 0 <= x < 256

  /** Bitwise exclusive-or of two numbers, least significant bit first. */
  function BitXor(a: nat, b: nat): (r: nat)
  {
    if a == 0 && b == 0 then 0 else (a + b) % 2 + 2 * BitXor(a / 2, b / 2)
  }

  lemma {:induction false} BitXorBound(a: nat, b: nat, bits: nat, bound: nat)
    requires a < bound && b < bound && bound == Power2(bits)
    ensures BitXor(a, b) < bound
  {
    if a != 0 || b != 0 {
      BitXorBound(a / 2, b / 2, bits - 1, bound / 2);
    }
  }

  function Power2(n: nat): (r: nat)
    ensures r >= 1
  {
    if n == 0 then 1 else 2 * Power2(n - 1)
  }

  function Xor(a: byte, b: byte): byte {
    assert Power2(8) == 256;
    BitXorBound(a, b, 8, 256);
    BitXor(a, b)
  }

  lemma {:induction false} BitXorTwice(a: nat, b: nat)
    ensures BitXor(BitXor(a, b), b) == a
  {
    if a != 0 || b != 0 {
      var r, bit := BitXor(a / 2, b / 2), (a + b) % 2;
      BitXorTwice(a / 2, b / 2);
      var x := bit + 2 * r;
      assert BitXor(a, b) == x && x % 2 == bit && x / 2 == r;
      calc {
        BitXor(x, b);
        (x + b) % 2 + 2 * BitXor(x / 2, b / 2);
        { Parity(a, b, r); }
        a % 2 + 2 * (a / 2);
        a;
      }
    }
  }

  lemma Parity(a: nat, b: nat, r: nat)
    ensures ((a + b) % 2 + 2 * r + b) % 2 == a % 2
  {
    assert (a + b) % 2 + 2 * r + b == a + 2 * (r + b - (a + b) / 2);
  }

  /** Masking is undone by masking again (section 5.3 of RFC 6455). */
  lemma XorTwice(a: byte, b: byte)
    ensures Xor(Xor(a, b), b) == a
  {
    BitXorTwice(a, b);
  }

  /** The i-th bit from below. */
  function Bit(n: nat, i: nat): nat
    decreases i
  {
    if i == 0 then n % 2 else Bit(n / 2, i - 1)
  }

  lemma {:induction false} BitXorBits(a: nat, b: nat, i: nat)
    ensures Bit(BitXor(a, b), i) == if Bit(a, i) == Bit(b, i) then 0 else 1
    decreases i
  {
    if a == 0 && b == 0 {
      ZeroBits(i);
    } else {
      BitXorHalves(a, b);
      LowBits(a, b);
      BitStep(a, i);
      BitStep(b, i);
      BitStep(BitXor(a, b), i);
      hide BitXor, Bit;
      if i > 0 { BitXorBits(a / 2, b / 2, i - 1); }
    }
  }

  lemma BitStep(n: nat, i: nat)
    ensures Bit(n, i) == if i == 0 then n % 2 else Bit(n / 2, i - 1)
  {
  }

  lemma LowBits(a: nat, b: nat)
    ensures (a + b) % 2 == if a % 2 == b % 2 then 0 else 1
  {
  }

  lemma BitXorHalves(a: nat, b: nat)
    requires a != 0 || b != 0
    ensures BitXor(a, b) / 2 == BitXor(a / 2, b / 2) && BitXor(a, b) % 2 == (a + b) % 2
  {
    var rest := BitXor(a / 2, b / 2);
    assert BitXor(a, b) == (a + b) % 2 + 2 * rest;
  }

  lemma {:induction false} ZeroBits(i: nat)
    ensures Bit(0, i) == 0
  {
    if i > 0 { ZeroBits(i - 1); }
  }

  /** Octets are masked bit by bit: a bit of the result is set exactly if those of the two differ. */
  lemma XorIsBitwise(a: byte, b: byte, i: nat)
    ensures Bit(Xor(a, b), i) == if Bit(a, i) == Bit(b, i) then 0 else 1
  {
    BitXorBits(a, b, i);
  }

  lemma {:induction false} XorZero(a: nat)
    ensures BitXor(a, 0) == a
  {
    if a != 0 { XorZero(a / 2); }
  }

  function Concat(parts: seq<seq<byte>>): seq<byte> {
    if parts == [] then [] else parts[0] + Concat(parts[1..])
  }

  /** char_to_hex: the value of a hex digit, or -1. */
  function CharToHex(c: byte): (v: int)
    ensures v == -1 || 0 <= v < 16
  {
    if 0x30 <= c <= 0x39 then c - 0x30
    else if 0x61 <= c <= 0x66 then c - 0x61 + 10
    else if 0x41 <= c <= 0x46 then c - 0x41 + 10
    else -1
  }

  /** The digits of both cases and nothing else. */
  lemma HexDigitsExactly(c: byte, v: nat)
    requires v < 16
    ensures CharToHex(c) == v <==> c == "0123456789abcdef"[v] as int || c == "0123456789ABCDEF"[v] as int
    ensures CharToHex(c) < 0 <==>
      forall k | 0 <= k < 16 :: c != "0123456789abcdef"[k] as int && c != "0123456789ABCDEF"[k] as int
  {
    HexTable(c);
    if CharToHex(c) >= 0 {
      var k := CharToHex(c);
      assert c == "0123456789abcdef"[k] as int || c == "0123456789ABCDEF"[k] as int;
    }
  }

  lemma HexTable(c: byte)
    ensures forall k | 0 <= k < 16 ::
      CharToHex(c) == k <==> c == "0123456789abcdef"[k] as int || c == "0123456789ABCDEF"[k] as int
  {
    forall k | 0 <= k < 16
      ensures CharToHex(c) == k <==> c == "0123456789abcdef"[k] as int || c == "0123456789ABCDEF"[k] as int
    {
      HexCase(k);
    }
  }

  lemma HexCase(k: nat)
    requires k < 16
    ensures "0123456789abcdef"[k] as int == if k < 10 then 0x30 + k else 0x61 + k - 10
    ensures "0123456789ABCDEF"[k] as int == if k < 10 then 0x30 + k else 0x41 + k - 10
  {
  }
}
