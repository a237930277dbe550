/** The frame layout of section 5.2 of RFC 6455, as the receiver of any frame sees it. */
module Frames {
  import opened Bytes

  const CONTINUATION := 0
  const TEXT := 1
  const BINARY := 2
  const CLOSE := 8
  const PING := 9
  const PONG := 10

  /** The connection states in which a WebSocket can be (enum lws_connection_states). */
  datatype WsState =
    Established | ReturnedClose | AwaitingCloseAck | FlushingBeforeClose | Shutdown | DeadSocket

  /** Room kept in front of a payload for its header. */
  const LWS_PRE := 16

  const MAX_LENGTH := 0x8000_0000_0000_0000

  type Key = k: seq<byte> | |k| == 4 witness [0, 0, 0, 0]

  /** One frame as an endpoint means it: the key is empty for an unmasked frame. */
  datatype Frame = Frame(opcode: nat, fin: bool, payload: seq<byte>)

  predicate IsControl(opcode: nat) { opcode / 8 % 2 == 1 }

  /** Shortest-form length field; `bit` is 128 on a masked frame. */
  function LengthField(len: nat, bit: nat): seq<byte>
    requires len < MAX_LENGTH && bit in {0, 128}
  {
    if len < 126 then [len + bit]
    else if len < 65536 then [126 + bit, len / 256, len % 256]
    else [127 + bit] + BigEndian(len, 8)
  }

  function BigEndian(n: nat, size: nat): (r: seq<byte>)
    ensures |r| == size
  {
    if size == 0 then [] else BigEndian(n / 256, size - 1) + [n % 256]
  }

  function FromBigEndian(s: seq<byte>): nat {
    if s == [] then 0 else 256 * FromBigEndian(s[..|s| - 1]) + s[|s| - 1]
  }

  function Power256(n: nat): nat {
    if n == 0 then 1 else 256 * Power256(n - 1)
  }

  lemma {:induction false} BigEndianRoundTrip(n: nat, size: nat)
    requires n < Power256(size)
    ensures FromBigEndian(BigEndian(n, size)) == n
  {
    if size > 0 {
      BigEndianRoundTrip(n / 256, size - 1);
      var r := BigEndian(n, size);
      assert r[..size - 1] == BigEndian(n / 256, size - 1);
    }
  }

  lemma {:induction false} BigEndianHead(data: seq<byte>)
    requires data != []
    ensures FromBigEndian(data) == data[0] * Power256(|data| - 1) + FromBigEndian(data[1..])
    decreases |data|
  {
    if |data| > 1 {
      var init := data[..|data| - 1];
      BigEndianHead(init);
      assert init[1..] == data[1..][..|data| - 2];
      assert 256 * (data[0] * Power256(|data| - 2)) == data[0] * Power256(|data| - 1);
    } else {
      assert data[1..] == [] && data[..0] == [];
      assert FromBigEndian(data[..0]) == 0;
    }
  }

  function FirstByte(opcode: nat, fin: bool): byte
    requires opcode < 16
  {
    opcode + if fin then 128 else 0
  }

  function Mask(data: seq<byte>, key: Key, phase: nat): (r: seq<byte>)
    ensures |r| == |data|
  {
    seq(|data|, i requires 0 <= i < |data| => Xor(data[i], key[(phase + i) % 4]))
  }

  /** A payload area after its first `len` bytes were masked where they lie. */
  function Masked(area: seq<byte>, len: nat, key: Key): (r: seq<byte>)
    requires len <= |area|
    ensures |r| == |area|
  {
    Mask(area[..len], key, 0) + area[len..]
  }

  /** The bytes of one unmasked frame. */
  function Encode(f: Frame): seq<byte>
    requires f.opcode < 16 && |f.payload| < MAX_LENGTH
  {
    [FirstByte(f.opcode, f.fin)] + LengthField(|f.payload|, 0) + f.payload
  }

  /** The bytes of one frame masked with `key`. */
  function EncodeMasked(f: Frame, key: Key): seq<byte>
    requires f.opcode < 16 && |f.payload| < MAX_LENGTH
  {
    [FirstByte(f.opcode, f.fin)] + LengthField(|f.payload|, 128) + key + Mask(f.payload, key, 0)
  }

  lemma MaskTwice(data: seq<byte>, key: Key, phase: nat)
    ensures Mask(Mask(data, key, phase), key, phase) == data
  {
    var m := Mask(data, key, phase);
    forall i | 0 <= i < |data| ensures Mask(m, key, phase)[i] == data[i] {
      XorTwice(data[i], key[(phase + i) % 4]);
    }
  }
}
