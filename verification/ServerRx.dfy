/** The server's frame parser: what one received byte does (lws_rx_sm). */
module ServerRx {
  import opened Bytes
  import opened Frames

  datatype Parse = New | HdrLen | Len16High | Len16Low | Len64(k: nat) | KeyByte(i: nat) | Payload

  /** A call into user code: payload of a data or PONG frame, or a peer's Close. */
  datatype Event =
    | Receive(opcode: nat, fin: bool, data: seq<byte>, left: nat)
    | PeerClose(data: seq<byte>)

  /** What user code does in a callback: reception requests made inside it, and its result. */
  datatype Reply = Reply(requests: seq<bool>, result: int)

  /** User code is any function of everything it has been called with so far. */
  type Callback = seq<Event> -> Reply

  /** The two bits of rxflow_change_to, and whether the poll entry asks for input. */
  datatype Flow = Flow(allow: bool, changePending: bool, pollIn: bool)

  datatype Header = Header(opcode: nat, rsv: nat, fin: bool, binary: bool, masked: bool)

  datatype Keying = Keying(zero: bool, mask: Key, phase: nat)

  datatype Peer = Peer(
    ws: WsState, unusable: bool, txPending: bool,
    pingPending: bool, ping: seq<byte>, payloadIsClose: bool)

  datatype User = User(flow: Flow, cached: bool, log: seq<Event>)

  datatype Status = Running | Failed | Overflowed

  datatype Rx = Rx(
    parse: Parse, hdr: Header, key: Keying, len: nat,
    buf: seq<byte>, cap: nat,
    peer: Peer, user: User, status: Status)

  const SIZE_T := 0x1_0000_0000_0000_0000

  function RxFlowControl(f: Flow, enable: bool): Flow {
    if enable == f.allow then f else f.(allow := enable, changePending := true)
  }

  function Requests(f: Flow, rs: seq<bool>): Flow
    decreases |rs|
  {
    if rs == [] then f else Requests(RxFlowControl(f, rs[0]), rs[1..])
  }

  /** Carry a requested change out, unless cached input still has to be drained. */
  function ApplyFlow(f: Flow, cached: bool): Flow {
    if f.changePending && !cached then f.(changePending := false, pollIn := f.allow) else f
  }

  function CallUser(u: User, e: Event, cb: Callback): (r: (User, int))
    ensures r.0.log == u.log + [e] && r.0.cached == u.cached
  {
    var log := u.log + [e];
    var reply := cb(log);
    var asked := Requests(u.flow, reply.requests);
    (User(if reply.result == 0 then ApplyFlow(asked, u.cached) else asked, u.cached, log), reply.result)
  }

  function ProcessAsPing(s: Rx): Rx {
    if |s.buf| > 125 then s.(buf := [])
    else s.(peer := s.peer.(ping := s.buf, pingPending := true), buf := [])
  }

  function SpillClose(s: Rx, cb: Callback): Rx {
    if s.peer.ws == AwaitingCloseAck || s.peer.ws == ReturnedClose then s.(status := Failed)
    else if s.peer.txPending then s.(peer := s.peer.(unusable := true), status := Failed)
    else
      var (user, n) := CallUser(s.user, PeerClose(s.buf), cb);
      if n != 0 then s.(user := user, status := Failed)
      else ProcessAsPing(s.(user := user, peer := s.peer.(ws := ReturnedClose, payloadIsClose := true)))
  }

  function SpillReceive(s: Rx, cb: Callback): Rx {
    if s.peer.ws == ReturnedClose || s.peer.ws == AwaitingCloseAck || (s.buf == [] && s.hdr.opcode != PONG) then
      s.(buf := [])
    else
      var (user, n) := CallUser(s.user, Receive(s.hdr.opcode, s.hdr.fin, s.buf, s.len), cb);
      s.(user := user, buf := [], status := if n < 0 then Failed else s.status)
  }

  /** The whole frame, or a full receive buffer of it, is ready. */
  function Spill(s: Rx, cb: Callback): Rx {
    if s.hdr.opcode == CLOSE then SpillClose(s, cb)
    else if s.hdr.opcode == PING then
      if s.peer.pingPending then s.(buf := []) else ProcessAsPing(s)
    else SpillReceive(s, cb)
  }

  predicate LegalOpcode(opcode: nat) {
    opcode <= BINARY || CLOSE <= opcode <= PONG
  }

  function FirstHeaderByte(s: Rx, c: byte): Rx {
    var opcode := c % 16;
    var binary := if opcode == TEXT || opcode == BINARY then opcode == BINARY else s.hdr.binary;
    var t := s.(
      key := s.key.(zero := true),
      hdr := Header(opcode, c / 16 % 8 * 16, c / 128 == 1, binary, s.hdr.masked));
    if LegalOpcode(opcode) then t.(parse := HdrLen) else t.(status := Failed)
  }

  function LengthByte(s: Rx, c: byte, cb: Callback): Rx {
    var t := s.(hdr := s.hdr.(masked := c / 128 == 1));
    if c % 128 >= 126 then
      if IsControl(s.hdr.opcode) then t.(status := Failed)
      else t.(parse := if c % 128 == 126 then Len16High else Len64(8))
    else if t.hdr.masked then t.(len := c % 128, parse := KeyByte(0))
    else if c % 128 != 0 then t.(len := c % 128, parse := Payload)
    else Spill(t.(len := 0, parse := New), cb)
  }

  /** After an extended length a zero length is not looked for: the code relies on shortest-form lengths. */
  function AfterExtendedLength(s: Rx, len: nat): Rx {
    s.(len := len, parse := if s.hdr.masked then KeyByte(0) else Payload)
  }

  function Len64Byte(s: Rx, k: nat, c: byte): Rx {
    if k == 8 then
      if c >= 128 then s.(status := Failed) else s.(len := c * Power256(7), parse := Len64(7))
    else if k >= 2 then s.(len := s.len + c * Power256(k - 1), parse := Len64(k - 1))
    else AfterExtendedLength(s, s.len + c)
  }

  function KeyByteIn(s: Rx, i: nat, c: byte, cb: Callback): Rx
    requires i < 4
  {
    var key := s.key.(mask := s.key.mask[i := c], zero := s.key.zero && c == 0);
    if i < 3 then s.(key := key, parse := KeyByte(i + 1))
    else
      var t := s.(key := key.(phase := 0));
      if t.len == 0 then Spill(t.(parse := New), cb) else t.(parse := Payload)
  }

  function Unmasked(key: Keying, c: byte): byte {
    if key.zero then c else Xor(c, key.mask[key.phase % 4])
  }

  function Advance(key: Keying, n: nat): Keying {
    if key.zero then key else key.(phase := (key.phase + n) % 4)
  }

  /** size_t arithmetic: decrementing zero wraps. */
  function Decrement(n: nat): nat {
    if n == 0 then SIZE_T - 1 else n - 1
  }

  function Store(s: Rx, c: byte): Rx {
    s.(buf := s.buf + [Unmasked(s.key, c)], key := Advance(s.key, 1), len := Decrement(s.len))
  }

  function PayloadByte(s: Rx, c: byte, cb: Callback): Rx {
    if |s.buf| >= s.cap then s.(status := Overflowed)
    else
      var t := Store(s, c);
      if t.len == 0 then Spill(t.(parse := New), cb)
      else if |t.buf| != t.cap then t
      else Spill(t, cb)
  }

  /** One received byte. */
  function Feed(s: Rx, c: byte, cb: Callback): Rx {
    if s.status != Running then s
    else if s.peer.unusable then s.(status := Failed)
    else match s.parse
      case New => FirstHeaderByte(s, c)
      case HdrLen => LengthByte(s, c, cb)
      case Len16High => s.(len := c * 256, parse := Len16Low)
      case Len16Low => AfterExtendedLength(s, s.len + c)
      case Len64(k) => Len64Byte(s, k, c)
      case KeyByte(i) => if i < 4 then KeyByteIn(s, i, c, cb) else s
      case Payload => PayloadByte(s, c, cb)
  }

  /** An open connection stays usable until a byte fails it. */
  lemma FeedUsable(s: Rx, c: byte, cb: Callback)
    requires s.status == Running && !s.peer.unusable
    ensures Feed(s, c, cb).status == Running ==> !Feed(s, c, cb).peer.unusable
  {
  }

  function FeedAll(s: Rx, data: seq<byte>, cb: Callback): Rx
    decreases |data|
  {
    if data == [] then s else FeedAll(Feed(s, data[0], cb), data[1..], cb)
  }

  lemma {:induction false} FeedAllAppend(s: Rx, a: seq<byte>, b: seq<byte>, cb: Callback)
    ensures FeedAll(s, a + b, cb) == FeedAll(FeedAll(s, a, cb), b, cb)
    decreases |a|
  {
    if a == [] {
      assert a + b == b;
    } else {
      FeedAllAppend(Feed(s, a[0], cb), a[1..], b, cb);
      assert (a + b)[1..] == a[1..] + b;
    }
  }

  lemma FeedAllOne(s: Rx, c: byte, cb: Callback)
    ensures FeedAll(s, [c], cb) == Feed(s, c, cb)
  {
    assert FeedAll(s, [c], cb) == FeedAll(Feed(s, c, cb), [c][1..], cb);
  }

  function Plain(key: Keying, data: seq<byte>): seq<byte> {
    if key.zero then data else Mask(data, key.mask, key.phase)
  }

  lemma PhaseShift(phase: nat, i: nat)
    requires i > 0
    ensures ((phase + 1) % 4 + (i - 1)) % 4 == (phase + i) % 4
  {
    var q := (phase + 1) / 4;
    assert (phase + 1) % 4 + (i - 1) == phase + i - 4 * q;
  }

  lemma MaskTail(data: seq<byte>, key: Key, phase: nat, i: nat)
    requires 0 < i < |data|
    ensures Mask(data, key, phase)[i] == Mask(data[1..], key, (phase + 1) % 4)[i - 1]
  {
    hide Xor;
    PhaseShift(phase, i);
  }

  lemma MaskCons(data: seq<byte>, key: Key, phase: nat)
    requires data != []
    ensures Mask(data, key, phase) == [Xor(data[0], key[phase % 4])] + Mask(data[1..], key, (phase + 1) % 4)
  {
    hide Xor;
    forall i | 0 < i < |data|
      ensures Mask(data, key, phase)[i] == Mask(data[1..], key, (phase + 1) % 4)[i - 1]
    {
      MaskTail(data, key, phase, i);
    }
  }

  lemma PlainCons(key: Keying, data: seq<byte>)
    requires data != []
    ensures Plain(key, data) == [Unmasked(key, data[0])] + Plain(Advance(key, 1), data[1..])
  {
    hide Xor, Mask;
    if key.zero {
      assert data == [data[0]] + data[1..];
    } else {
      MaskCons(data, key.mask, key.phase);
    }
  }

  /** How many bytes the bulk path takes: all it may, less the one it leaves for the state machine. */
  function BulkAmount(s: Rx, available: nat): (m: nat)
    ensures m == 0 || m < available
    ensures m == 0 || (|s.buf| + m < s.cap && m < s.len)
  {
    var room := if |s.buf| <= s.cap then s.cap - |s.buf| else 0;
    var most := Min(room, Min(s.len, available));
    if most <= 1 then 0 else most - 1
  }

  function Min(a: nat, b: nat): nat { if a < b then a else b }

  /** The bulk path's effect: bytes unmasked straight into the buffer, nothing else happening. */
  function Stored(s: Rx, data: seq<byte>): Rx {
    s.(buf := s.buf + Plain(s.key, data), key := Advance(s.key, |data|),
       len := if |data| <= s.len then s.len - |data| else s.len)
  }

  lemma FeedStores(s: Rx, c: byte, cb: Callback)
    requires s.parse == Payload && s.status == Running && !s.peer.unusable
    requires |s.buf| + 1 < s.cap && 1 < s.len
    ensures Feed(s, c, cb) == Store(s, c)
  {
  }

  /** The bulk path refines the byte-at-a-time machine, and no byte of it calls user code. */
  lemma {:induction false} BulkIsBytewise(s: Rx, data: seq<byte>, cb: Callback)
    requires s.parse == Payload && s.status == Running && !s.peer.unusable && s.key.phase < 4
    requires data == [] || (|s.buf| + |data| < s.cap && |data| < s.len)
    ensures FeedAll(s, data, cb) == Stored(s, data)
    decreases |data|
  {
    if data == [] {
      StoredNothing(s);
    } else {
      var t := Store(s, data[0]);
      FeedStores(s, data[0], cb);
      BulkIsBytewise(t, data[1..], cb);
      StoredCons(s, data);
    }
  }

  lemma StoredNothing(s: Rx)
    requires s.key.phase < 4
    ensures Stored(s, []) == s
  {
    assert Plain(s.key, []) == [] && s.buf + [] == s.buf;
  }

  lemma StoredCons(s: Rx, data: seq<byte>)
    requires data != [] && s.key.phase < 4 && |data| < s.len
    ensures Stored(s, data) == Stored(Store(s, data[0]), data[1..])
  {
    var t := Store(s, data[0]);
    PlainCons(s.key, data);
    assert s.buf + Plain(s.key, data) == t.buf + Plain(t.key, data[1..]);
    AdvanceTwice(s.key, 1, |data| - 1);
  }

  lemma AdvanceTwice(key: Keying, a: nat, b: nat)
    ensures Advance(Advance(key, a), b) == Advance(key, a + b)
  {
  }

  /** The receive buffer has room for the next byte of any open connection. */
  predicate RoomLeft(s: Rx) {
    s.cap > 0 && s.status != Overflowed && (s.status == Running ==> |s.buf| < s.cap)
  }

  lemma SpillEmpties(s: Rx, cb: Callback)
    requires s.cap > 0 && s.status == Running
    ensures RoomLeft(Spill(s, cb)) && Spill(s, cb).cap == s.cap
  {
  }

  lemma FeedLeavesRoom(s: Rx, c: byte, cb: Callback)
    requires RoomLeft(s)
    ensures RoomLeft(Feed(s, c, cb)) && Feed(s, c, cb).cap == s.cap
  {
    hide Spill;
    if s.status == Running && !s.peer.unusable {
      match s.parse
      case HdrLen =>
        SpillEmpties(s.(hdr := s.hdr.(masked := c / 128 == 1), len := 0, parse := New), cb);
      case KeyByte(i) =>
        if i == 3 {
          var key := s.key.(mask := s.key.mask[i := c], zero := s.key.zero && c == 0, phase := 0);
          SpillEmpties(s.(key := key, parse := New), cb);
        }
      case Payload =>
        SpillEmpties(Store(s, c), cb);
        SpillEmpties(Store(s, c).(parse := New), cb);
      case _ =>
    }
  }

  /** Whatever bytes arrive, well-formed or not, the "Attempted overflow" branch is never taken. */
  lemma {:induction false} NeverOverflows(s: Rx, data: seq<byte>, cb: Callback)
    requires RoomLeft(s)
    ensures RoomLeft(FeedAll(s, data, cb))
    decreases |data|
  {
    if data != [] {
      FeedLeavesRoom(s, data[0], cb);
      NeverOverflows(Feed(s, data[0], cb), data[1..], cb);
    }
  }
}
