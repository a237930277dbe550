/** SHA-1 as FIPS 180-4 defines it: padding (section 5.1.1) and the 80-word method (section 6.1.2). */
module Sha1 {
  import opened Bytes
  import opened Frames

  type word = bv32

  datatype Regs = Regs(a: word, b: word, c: word, d: word, e: word)

  const H0 := Regs(0x67452301, 0xefcdab89, 0x98badcfe, 0x10325476, 0xc3d2e1f0)

  function RotL(x: word, n: nat): word
    requires 0 < n < 32
  {
    (x << n) | (x >> (32 - n))
  }

  function K(t: nat): word {
    if t < 20 then 0x5a827999 else if t < 40 then 0x6ed9eba1 else if t < 60 then 0x8f1bbcdc else 0xca62c1d6
  }

  function F(t: nat, b: word, c: word, d: word): word {
    if t < 20 then (b & c) ^ (!b & d)
    else if t < 40 then b ^ c ^ d
    else if t < 60 then (b & c) ^ (b & d) ^ (c & d)
    else b ^ c ^ d
  }

  type Block = b: seq<word> | |b| == 16 witness seq(16, _ => 0)

  /** The t-th word of the message schedule. */
  function W(m: Block, t: nat): word {
    if t < 16 then m[t] else RotL(W(m, t - 3) ^ W(m, t - 8) ^ W(m, t - 14) ^ W(m, t - 16), 1)
  }

  /** Rotate the working variables, with f the round function's value. */
  function Mix(r: Regs, f: word, t: nat, w: word): Regs {
    Regs(RotL(r.a, 5) + f + r.e + w + K(t), r.a, RotL(r.b, 30), r.c, r.d)
  }

  function Round(r: Regs, t: nat, w: word): Regs { Mix(r, F(t, r.b, r.c, r.d), t, w) }

  /** The working variables after the first t rounds. */
  function Rounds(r: Regs, m: Block, t: nat): Regs {
    if t == 0 then r else Round(Rounds(r, m, t - 1), t - 1, W(m, t - 1))
  }

  function Add(x: Regs, y: Regs): Regs {
    Regs(x.a + y.a, x.b + y.b, x.c + y.c, x.d + y.d, x.e + y.e)
  }

  function Compress(r: Regs, m: Block): Regs { Add(r, Rounds(r, m, 80)) }

  function WordAt(data: seq<byte>, at: nat): word
    requires at + 4 <= |data|
  {
    var a: int, b: int, c: int, d: int := data[at], data[at + 1], data[at + 2], data[at + 3];
    (a * 0x100_0000 + b * 0x1_0000 + c * 0x100 + d) as word
  }

  function BlockOf(data: seq<byte>): Block
    requires |data| == 64
  {
    seq(16, i requires 0 <= i < 16 => WordAt(data, 4 * i))
  }

  function Absorb(data: seq<byte>): Regs
    requires |data| % 64 == 0
  {
    if data == [] then H0
    else Compress(Absorb(data[..|data| - 64]), BlockOf(data[|data| - 64..]))
  }

  function Zeros(n: nat): seq<byte> { seq(n, _ => 0) }

  /** The message, a one bit, zeros up to 8 bytes short of a block, and the length in bits. */
  function Pad(msg: seq<byte>): (r: seq<byte>)
    ensures |r| % 64 == 0
  {
    var z := PadZeros(|msg|);
    assert (|msg| + 1 + z + 8) % 64 == 0;
    msg + [0x80] + Zeros(z) + BigEndian(8 * |msg|, 8)
  }

  function PadZeros(len: nat): (z: nat)
    ensures z < 64 && (len + 1 + z) % 64 == 56
  {
    (119 - len % 64) % 64
  }

  function WordBytes(w: word): seq<byte> { BigEndian(w as nat, 4) }

  /** SHA-1 of a message. */
  function Digest(msg: seq<byte>): seq<byte> {
    var r := Absorb(Pad(msg));
    WordBytes(r.a) + WordBytes(r.b) + WordBytes(r.c) + WordBytes(r.d) + WordBytes(r.e)
  }
}
