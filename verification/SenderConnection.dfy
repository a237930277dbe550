/** The sending half of a connection as the code keeps it: framing in the caller's buffer and the truncation buffer. */
module SenderConnection {
  import opened Bytes
  import opened Frames
  import opened Send

  class Sender {
    const bufferSize: nat
    /** mode == LWSCM_WS_CLIENT: this side masks. */
    const client: bool
    var truncAlloc: array?<byte>
    var truncOffset: nat
    var truncLen: nat
    const mask: array<byte>
    var maskIdx: nat
    var insideFrame: bool
    var ws: WsState
    var unusable: bool
    ghost var wire: seq<byte>
    ghost var items: seq<Item>

    ghost predicate Valid()
      reads this
    {
      && mask.Length == 4
      && (truncAlloc == null ==> truncLen == 0)
      && (truncAlloc != null ==> truncOffset + truncLen <= truncAlloc.Length && truncAlloc != mask)
    }

    ghost function Pending(): seq<byte>
      reads `truncAlloc, `truncOffset, `truncLen, truncAlloc
      requires truncAlloc == null ==> truncLen == 0
      requires truncAlloc != null ==> truncOffset + truncLen <= truncAlloc.Length
    {
      if truncAlloc == null then [] else truncAlloc[truncOffset..truncOffset + truncLen]
    }

    ghost function State(): Tx
      reads this, truncAlloc
      requires Valid()
    {
      Tx(wire, Pending(), insideFrame, ws, unusable, client, items)
    }

    constructor (bufferSize: nat, client: bool)
      ensures Valid() && fresh(mask) && this.bufferSize == bufferSize
      ensures State() == Tx([], [], false, Established, false, client, []) && truncAlloc == null
    {
      this.bufferSize, this.client := bufferSize, client;
      truncAlloc, truncOffset, truncLen := null, 0, 0;
      mask, maskIdx := new byte[4](_ => 0), 0;
      insideFrame, ws, unusable := false, Established, false;
      wire, items := [], [];
    }

    /** lws_issue_raw on a caller's buffer. */
    method IssueNew(buf: array<byte>, from: nat, len: nat, answer: Answer) returns (n: int)
      requires Valid() && from + len <= buf.Length && buf != truncAlloc
      modifies this`truncAlloc, this`truncOffset, this`truncLen, this`unusable, this`wire, truncAlloc
      ensures Valid() && (State(), n) == Send.IssueNew(old(State()), old(buf[from..from + len]), bufferSize, answer)
      ensures truncAlloc == old(truncAlloc) || fresh(truncAlloc)
    {
      if len == 0 {
        return 0;
      }
      if ws == FlushingBeforeClose && truncLen == 0 {
        return len;
      }
      if truncLen != 0 {
        return -1;
      }
      if answer == Error {
        unusable := true;
        return -1;
      }
      TakeNew(buf, from, len, Sent(answer, Limit(bufferSize, len)));
      return len;
    }

    /** The socket took `sent` bytes of a caller's buffer. */
    method TakeNew(buf: array<byte>, from: nat, len: nat, sent: nat)
      requires Valid() && truncLen == 0 && from + len <= buf.Length && sent <= len && buf != truncAlloc
      modifies this`wire, this`truncAlloc, this`truncOffset, this`truncLen, truncAlloc
      ensures Valid() && (truncAlloc == old(truncAlloc) || fresh(truncAlloc))
      ensures wire == old(wire) + old(buf[from..from + len])[..sent]
      ensures Pending() == old(buf[from..from + len])[sent..]
    {
      ghost var all := buf[from..from + len];
      wire := wire + buf[from..from + sent];
      assert all[..sent] == buf[from..from + sent] && all[sent..] == buf[from + sent..from + len];
      if sent < len {
        Keep(buf, from + sent, len - sent);
      }
    }

    /** Buffer the remainder, in the old allocation if that is large enough. */
    method Keep(buf: array<byte>, from: nat, len: nat)
      requires Valid() && from + len <= buf.Length && buf != truncAlloc
      modifies this`truncAlloc, this`truncOffset, this`truncLen, truncAlloc
      ensures Valid() && Pending() == old(buf[from..from + len])
      ensures truncAlloc == old(truncAlloc) || fresh(truncAlloc)
    {
      if truncAlloc == null || len > truncAlloc.Length {
        truncAlloc := new byte[len](_ => 0);
      }
      truncOffset, truncLen := 0, len;
      forall i | 0 <= i < len {
        truncAlloc[i] := buf[from + i];
      }
    }

    /** lws_issue_raw on the kept remainder itself. */
    method IssuePending(answer: Answer) returns (n: int)
      requires Valid() && truncLen > 0
      modifies this`truncOffset, this`truncLen, this`unusable, this`wire
      ensures Valid() && (State(), n) == Send.IssuePending(old(State()), bufferSize, answer)
    {
      if answer == Error {
        unusable := true;
        return -1;
      }
      var len := truncLen;
      n := Sent(answer, Limit(bufferSize, truncLen));
      Drop(n);
      if truncLen == 0 {
        n := if ws == FlushingBeforeClose then -1 else len;
      }
    }

    /** The socket took n bytes of the remainder. */
    method Drop(n: nat)
      requires Valid() && n <= truncLen && truncLen > 0
      modifies this`truncOffset, this`truncLen, this`wire
      ensures Valid() && truncLen == old(truncLen) - n
      ensures wire == old(wire) + old(Pending())[..n] && Pending() == old(Pending())[n..]
    {
      wire := wire + truncAlloc[truncOffset..truncOffset + n];
      assert Pending()[..n] == truncAlloc[truncOffset..truncOffset + n];
      truncOffset, truncLen := truncOffset + n, truncLen - n;
    }

    /** The header in front of the payload; `gap` bytes are left for the key. Returns its length. */
    method PutHeader(buf: array<byte>, first: byte, len: nat, gap: nat) returns (pre: nat)
      requires buf.Length >= LWS_PRE && len < MAX_LENGTH && gap in {0, 4}
      modifies buf
      ensures gap + 2 <= pre <= LWS_PRE
      ensures buf[LWS_PRE - pre..LWS_PRE - gap] == [first] + LengthField(len, if gap == 4 then 128 else 0)
      ensures buf[LWS_PRE..] == old(buf[LWS_PRE..])
    {
      hide BigEndian;
      var bit := if gap == 4 then 128 else 0;
      if len < 126 {
        pre := gap + 2;
        PutTwo(buf, LWS_PRE - pre, first, len + bit);
      } else if len < 65536 {
        pre := gap + 4;
        PutFour(buf, LWS_PRE - pre, first, 126 + bit, len);
      } else {
        pre := gap + 10;
        PutTen(buf, LWS_PRE - pre, first, 127 + bit, len);
      }
    }

    method PutFour(buf: array<byte>, at: nat, first: byte, mark: byte, len: nat)
      requires at + 4 <= LWS_PRE <= buf.Length && len < 65536
      modifies buf
      ensures buf[at..at + 4] == [first] + [mark, len / 256, len % 256] && buf[LWS_PRE..] == old(buf[LWS_PRE..])
    {
      PutTwo(buf, at, first, mark);
      PutTwo(buf, at + 2, len / 256, len % 256);
      assert buf[..at + 2][at..] == [first, mark];
      assert buf[at..at + 4] == [first, mark] + [len / 256, len % 256];
    }

    method PutTen(buf: array<byte>, at: nat, first: byte, mark: byte, len: nat)
      requires at + 10 <= LWS_PRE <= buf.Length && len < MAX_LENGTH
      modifies buf
      ensures buf[at..at + 10] == [first] + ([mark] + BigEndian(len, 8)) && buf[LWS_PRE..] == old(buf[LWS_PRE..])
    {
      hide BigEndian;
      PutTwo(buf, at, first, mark);
      PutLength64(buf, at + 2, len);
      assert buf[..at + 2][at..] == [first, mark];
      assert buf[at..at + 10] == [first, mark] + BigEndian(len, 8);
    }

    method PutTwo(buf: array<byte>, at: nat, a: byte, b: byte)
      requires at + 2 <= LWS_PRE <= buf.Length
      modifies buf
      ensures buf[at..at + 2] == [a, b] && buf[..at + 2][at..] == [a, b]
      ensures buf[..at] == old(buf[..at]) && buf[LWS_PRE..] == old(buf[LWS_PRE..])
    {
      buf[at], buf[at + 1] := a, b;
      assert buf[..at + 2][at..] == buf[at..at + 2];
    }

    method PutLength64(buf: array<byte>, at: nat, len: nat)
      requires at + 8 <= LWS_PRE <= buf.Length && len < MAX_LENGTH
      modifies buf
      ensures buf[at..at + 8] == BigEndian(len, 8)
      ensures buf[..at] == old(buf[..at]) && buf[LWS_PRE..] == old(buf[LWS_PRE..])
    {
      buf[at] := ShiftRight(len, 7) % 128;
      buf[at + 1] := ShiftRight(len, 6) % 256;
      buf[at + 2] := ShiftRight(len, 5) % 256;
      buf[at + 3] := ShiftRight(len, 4) % 256;
      buf[at + 4] := ShiftRight(len, 3) % 256;
      buf[at + 5] := ShiftRight(len, 2) % 256;
      buf[at + 6] := ShiftRight(len, 1) % 256;
      buf[at + 7] := ShiftRight(len, 0) % 256;
      BigEndian8(len);
    }

    /** lws_0405_frame_mask_generate */
    method GenerateMask(key: Key)
      requires mask.Length == 4
      modifies mask, this`maskIdx
      ensures mask[..] == key && maskIdx == 0
    {
      forall i | 0 <= i < 4 {
        mask[i] := key[i];
      }
      maskIdx := 0;
    }

    /** Mask the payload where it lies and put the key in front of it. */
    method MaskInPlace(buf: array<byte>, len: nat, ghost key: Key)
      requires mask.Length == 4 && mask[..] == key && maskIdx == 0 && buf != mask && LWS_PRE + len <= buf.Length
      modifies buf, this`maskIdx
      ensures buf[..LWS_PRE - 4] == old(buf[..LWS_PRE - 4])
      ensures buf[LWS_PRE - 4..LWS_PRE] == key
      ensures buf[LWS_PRE..LWS_PRE + len] == Mask(old(buf[LWS_PRE..LWS_PRE + len]), key, 0)
      ensures buf[LWS_PRE + len..] == old(buf[LWS_PRE + len..])
    {
      hide Mask;
      XorPayload(buf, len, key);
      assert buf[..LWS_PRE][..LWS_PRE - 4] == buf[..LWS_PRE - 4];
      assert old(buf[..LWS_PRE])[..LWS_PRE - 4] == old(buf[..LWS_PRE - 4]);
      ghost var rest := buf[LWS_PRE..];
      assert rest[..len] == buf[LWS_PRE..LWS_PRE + len] && rest[len..] == buf[LWS_PRE + len..];
      PutKey(buf, key);
      assert buf[LWS_PRE..][..len] == buf[LWS_PRE..LWS_PRE + len] && buf[LWS_PRE..][len..] == buf[LWS_PRE + len..];
    }

    method XorPayload(buf: array<byte>, len: nat, ghost key: Key)
      requires mask.Length == 4 && mask[..] == key && maskIdx == 0 && buf != mask && LWS_PRE + len <= buf.Length
      modifies buf, this`maskIdx
      ensures buf[..LWS_PRE] == old(buf[..LWS_PRE])
      ensures buf[LWS_PRE..LWS_PRE + len] == Mask(old(buf[LWS_PRE..LWS_PRE + len]), key, 0)
      ensures buf[LWS_PRE + len..] == old(buf[LWS_PRE + len..])
    {
      hide Xor;
      ghost var before := buf[..];
      var n := 0;
      while n < len
        invariant 0 <= n <= len && maskIdx % 4 == n % 4
        invariant forall j | 0 <= j < buf.Length ::
          buf[j] == if LWS_PRE <= j < LWS_PRE + n then Xor(before[j], key[(j - LWS_PRE) % 4]) else before[j]
      {
        buf[LWS_PRE + n] := Xor(buf[LWS_PRE + n], mask[maskIdx % 4]);
        maskIdx := (maskIdx + 1) % 256;
        n := n + 1;
      }
      MaskedArea(before, buf[..], len, key);
    }

    method PutKey(buf: array<byte>, ghost key: Key)
      requires mask.Length == 4 && mask[..] == key && buf != mask && LWS_PRE <= buf.Length
      modifies buf
      ensures buf[..LWS_PRE - 4] == old(buf[..LWS_PRE - 4]) && buf[LWS_PRE - 4..LWS_PRE] == key
      ensures buf[LWS_PRE..] == old(buf[LWS_PRE..])
    {
      forall i | 0 <= i < 4 {
        buf[LWS_PRE - 4 + i] := mask[i];
      }
    }

    method MaskedFrame(buf: array<byte>, len: nat, first: byte, key: Key) returns (pre: nat)
      requires Valid() && buf != mask && LWS_PRE + len <= buf.Length && len < MAX_WRITE
      modifies buf, mask, this`maskIdx
      ensures Valid() && pre <= LWS_PRE
      ensures buf[LWS_PRE - pre..LWS_PRE + len]
           == [first] + LengthField(len, 128) + key + Mask(old(buf[LWS_PRE..LWS_PRE + len]), key, 0)
      ensures buf[LWS_PRE..] == Masked(old(buf[LWS_PRE..]), len, key)
    {
      hide Mask, LengthField;
      ghost var payload := buf[LWS_PRE..LWS_PRE + len];
      ghost var before := buf[LWS_PRE..];
      pre := PutHeader(buf, first, len, 4);
      assert before[..len] == payload && before[len..] == buf[LWS_PRE + len..];
      assert buf[LWS_PRE..LWS_PRE + len] == buf[LWS_PRE..][..len] == payload;
      ghost var header := buf[..LWS_PRE - 4][LWS_PRE - pre..];
      assert header == buf[LWS_PRE - pre..LWS_PRE - 4];
      GenerateMask(key);
      MaskInPlace(buf, len, key);
      assert buf[LWS_PRE - pre..LWS_PRE - 4] == buf[..LWS_PRE - 4][LWS_PRE - pre..] == header;
      assert buf[LWS_PRE..] == buf[LWS_PRE..LWS_PRE + len] + buf[LWS_PRE + len..];
      assert buf[LWS_PRE - pre..LWS_PRE + len] == header + buf[LWS_PRE - 4..LWS_PRE] + buf[LWS_PRE..LWS_PRE + len];
    }

    method PlainFrame(buf: array<byte>, len: nat, first: byte) returns (pre: nat)
      requires LWS_PRE + len <= buf.Length && len < MAX_WRITE
      modifies buf
      ensures pre <= LWS_PRE
      ensures buf[LWS_PRE - pre..LWS_PRE + len] == [first] + LengthField(len, 0) + old(buf[LWS_PRE..LWS_PRE + len])
      ensures buf[LWS_PRE..] == old(buf[LWS_PRE..])
    {
      hide LengthField;
      ghost var payload := buf[LWS_PRE..LWS_PRE + len];
      pre := PutHeader(buf, first, len, 0);
      assert buf[LWS_PRE..LWS_PRE + len] == buf[LWS_PRE..][..len] == payload;
      assert buf[LWS_PRE - pre..LWS_PRE + len] == buf[LWS_PRE - pre..LWS_PRE] + buf[LWS_PRE..LWS_PRE + len];
    }

    /** Build the frame around the payload at buf[LWS_PRE..LWS_PRE + len]; returns the header's length. */
    method FrameInPlace(buf: array<byte>, len: nat, kind: Kind, noFin: bool, key: Key) returns (pre: nat)
      requires Valid() && buf != mask && LWS_PRE + len <= buf.Length && len < MAX_WRITE
      modifies buf, mask, this`maskIdx
      ensures Valid() && pre <= LWS_PRE
      ensures buf[LWS_PRE - pre..LWS_PRE + len]
           == ItemBytes(Whole(Frame(Opcode(kind), !noFin, old(buf[LWS_PRE..LWS_PRE + len])), key), client)
      ensures buf[LWS_PRE..] == if client then Masked(old(buf[LWS_PRE..]), len, key) else old(buf[LWS_PRE..])
    {
      hide Mask, LengthField, Masked, ItemBytes, Encode, EncodeMasked, FirstByte;
      var first := FirstOf(kind, noFin);
      ItemWhole(kind, noFin, buf[LWS_PRE..LWS_PRE + len], key);
      if client {
        pre := MaskedFrame(buf, len, first, key);
      } else {
        pre := PlainFrame(buf, len, first);
      }
    }

    /** lws_write of the payload at buf[LWS_PRE..LWS_PRE + len]; `key` is what the random source would give. */
    method Write(buf: array<byte>, len: nat, kind: Kind, noFin: bool, key: Key, answer: Answer) returns (n: int)
      requires Valid() && buf != mask && buf != truncAlloc && LWS_PRE + len <= buf.Length && len < MAX_WRITE
      modifies this, buf, mask, truncAlloc
      ensures Valid()
      ensures (State(), n)
           == Send.Write(old(State()), Request(kind, noFin, old(buf[LWS_PRE..LWS_PRE + len]), key), bufferSize, answer)
      ensures truncAlloc == old(truncAlloc) || fresh(truncAlloc)
      ensures buf[LWS_PRE..] == if MayWrite(old(ws), kind, noFin) && !old(insideFrame) && client
                                then Masked(old(buf[LWS_PRE..]), len, key) else old(buf[LWS_PRE..])
    {
      hide Masked, ItemBytes, MayWrite, Send.IssueNew, Bypasses;
      if !MayWrite(ws, kind, noFin) {
        return 0;
      }
      ghost var before := State();
      ghost var item := ItemOf(before, Request(kind, noFin, buf[LWS_PRE..LWS_PRE + len], key));
      var pre := Prepare(buf, len, kind, noFin, key, item);
      n := IssueNew(buf, LWS_PRE - pre, pre + len, answer);
      n := Finish(n, len, kind, noFin, item);
    }

    /** A frame around the payload, unless a frame is thought to be unfinished. */
    method Prepare(buf: array<byte>, len: nat, kind: Kind, noFin: bool, key: Key, ghost item: Item) returns (pre: nat)
      requires Valid() && buf != mask && buf != truncAlloc && LWS_PRE + len <= buf.Length && len < MAX_WRITE
      requires item == ItemOf(State(), Request(kind, noFin, buf[LWS_PRE..LWS_PRE + len], key))
      modifies buf, mask, this`maskIdx
      ensures Valid() && State() == old(State()) && pre <= LWS_PRE
      ensures buf[LWS_PRE - pre..LWS_PRE + len] == ItemBytes(item, client)
      ensures buf[LWS_PRE..] == if !insideFrame && client then Masked(old(buf[LWS_PRE..]), len, key)
                                else old(buf[LWS_PRE..])
    {
      hide Masked, EncodeMasked, Encode, Mask;
      pre := 0;
      if !insideFrame {
        pre := FrameInPlace(buf, len, kind, noFin, key);
      }
    }

    method Finish(issued: int, len: nat, kind: Kind, noFin: bool, ghost item: Item) returns (n: int)
      requires Valid()
      modifies this`insideFrame, this`items
      ensures Valid()
      ensures var v := if issued > 0 then old(State()).(items := old(items) + [item]) else old(State());
        (State(), n) ==
        if Bypasses(kind, noFin) then (v, issued)
        else if issued <= 0 then (v.(insideFrame := true), issued)
        else (v.(insideFrame := false), len)
    {
      n := issued;
      if n > 0 {
        items := items + [item];
      }
      if !Bypasses(kind, noFin) {
        insideFrame := n <= 0;
        n := if n <= 0 then n else len;
      }
    }

    /** The truncation buffer's turn when the socket is writable. */
    method Flush(answer: Answer) returns (n: int)
      requires Valid()
      modifies this`truncOffset, this`truncLen, this`unusable, this`wire
      ensures Valid() && (State(), n) == Send.Flush(old(State()), bufferSize, answer)
    {
      if truncLen == 0 {
        n := 0;
      } else {
        n := IssuePending(answer);
      }
    }
  }

  /** The first byte of a frame of this kind. */
  function FirstOf(kind: Kind, noFin: bool): byte {
    Opcode(kind) + if noFin then 0 else 128
  }

  lemma ItemWhole(kind: Kind, noFin: bool, payload: seq<byte>, key: Key)
    requires |payload| < MAX_WRITE
    ensures Small(Whole(Frame(Opcode(kind), !noFin, payload), key))
    ensures ItemBytes(Whole(Frame(Opcode(kind), !noFin, payload), key), true)
         == [FirstOf(kind, noFin)] + LengthField(|payload|, 128) + key + Mask(payload, key, 0)
    ensures ItemBytes(Whole(Frame(Opcode(kind), !noFin, payload), key), false)
         == [FirstOf(kind, noFin)] + LengthField(|payload|, 0) + payload
  {
    hide Mask, LengthField;
  }

  /** A buffer whose payload has been masked byte by byte. */
  lemma MaskedArea(before: seq<byte>, after: seq<byte>, len: nat, key: Key)
    requires |after| == |before| >= LWS_PRE + len
    requires forall j | 0 <= j < |after| ::
      after[j] == if LWS_PRE <= j < LWS_PRE + len then Xor(before[j], key[(j - LWS_PRE) % 4]) else before[j]
    ensures after[..LWS_PRE] == before[..LWS_PRE] && after[LWS_PRE + len..] == before[LWS_PRE + len..]
    ensures after[LWS_PRE..LWS_PRE + len] == Mask(before[LWS_PRE..LWS_PRE + len], key, 0)
  {
    hide Xor;
  }

  /** `n >> 8 * bytes` */
  function ShiftRight(n: nat, bytes: nat): nat {
    if bytes == 0 then n else ShiftRight(n, bytes - 1) / 256
  }

  lemma BigEndian8(n: nat)
    requires n < MAX_LENGTH
    ensures BigEndian(n, 8) == [
      ShiftRight(n, 7) % 128, ShiftRight(n, 6) % 256, ShiftRight(n, 5) % 256, ShiftRight(n, 4) % 256,
      ShiftRight(n, 3) % 256, ShiftRight(n, 2) % 256, ShiftRight(n, 1) % 256, ShiftRight(n, 0) % 256]
  {
    var a := n / 256;
    var b := a / 256;
    var c := b / 256;
    var d := c / 256;
    var e := d / 256;
    var f := e / 256;
    var g := f / 256;
    assert ShiftRight(n, 1) == a;
    assert ShiftRight(n, 2) == b;
    assert ShiftRight(n, 3) == c;
    assert ShiftRight(n, 4) == d;
    assert ShiftRight(n, 5) == e;
    assert ShiftRight(n, 6) == f;
    assert ShiftRight(n, 7) == g;
    BigEndianDigits(n, a, b, c, d, e, f, g);
    TopDigit(n, a, b, c, d, e, f, g);
  }

  lemma TopDigit(n: nat, a: nat, b: nat, c: nat, d: nat, e: nat, f: nat, g: nat)
    requires n < MAX_LENGTH
    requires a == n / 256 && b == a / 256 && c == b / 256 && d == c / 256
    requires e == d / 256 && f == e / 256 && g == f / 256
    ensures g < 128
  {
    assert a < MAX_LENGTH / 0x100;
    assert b < MAX_LENGTH / 0x1_0000;
    assert c < MAX_LENGTH / 0x100_0000;
    assert d < MAX_LENGTH / 0x1_0000_0000;
    assert e < MAX_LENGTH / 0x100_0000_0000;
    assert f < MAX_LENGTH / 0x1_0000_0000_0000;
  }

  lemma BigEndianDigits(n: nat, a: nat, b: nat, c: nat, d: nat, e: nat, f: nat, g: nat)
    requires a == n / 256 && b == a / 256 && c == b / 256 && d == c / 256
    requires e == d / 256 && f == e / 256 && g == f / 256
    ensures BigEndian(n, 8)
         == [g % 256, f % 256, e % 256, d % 256, c % 256, b % 256, a % 256, n % 256]
  {
    assert BigEndian(g, 1) == [g % 256];
    assert BigEndian(f, 2) == [g % 256, f % 256];
    assert BigEndian(e, 3) == [g % 256, f % 256, e % 256];
    assert BigEndian(d, 4) == [g % 256, f % 256, e % 256, d % 256];
    assert BigEndian(c, 5) == [g % 256, f % 256, e % 256, d % 256, c % 256];
    assert BigEndian(b, 6) == [g % 256, f % 256, e % 256, d % 256, c % 256, b % 256];
    assert BigEndian(a, 7) == [g % 256, f % 256, e % 256, d % 256, c % 256, b % 256, a % 256];
  }
}
