/** The receiving half of a server connection as the code keeps it: fields, buffers and loops. */
module ServerConnection {
  import opened Bytes
  import opened Frames
  import opened ServerRx
  import FlowControl

  class Connection {
    /** protocol->rx_buffer_size, or the service buffer size when that is zero. */
    const bufferSize: nat
    var parse: Parse
    var hdr: Header
    var allZeroNonce: bool
    const mask: array<byte>
    var maskIdx: nat
    var rxPacketLength: nat
    const rxUbuf: array<byte>
    var rxUbufHead: nat
    var peer: Peer
    var flow: Flow
    var rxflowBuffer: array?<byte>
    var rxflowPos: nat
    var log: seq<Event>
    var status: Status
    /** Set once a callback that is not about received data has asked for the connection to be closed. */
    var hungUp: bool
    ghost var taken: seq<byte>
    ghost var used: seq<byte>

    ghost predicate Valid()
      reads this
    {
      && mask.Length == 4 && maskIdx < 256
      && rxUbuf.Length == LWS_PRE + bufferSize + 4 && rxUbufHead <= bufferSize
      && mask != rxUbuf
      && (rxflowBuffer != null ==>
            rxflowPos <= rxflowBuffer.Length && rxflowBuffer != mask && rxflowBuffer != rxUbuf)
    }

    ghost predicate Usable()
      reads `status, `peer
    {
      status == Running ==> !peer.unusable
    }

    ghost function Key(): Keying
      reads `allZeroNonce, `maskIdx, mask
      requires mask.Length == 4
    {
      Keying(allZeroNonce, mask[..], maskIdx % 4)
    }

    ghost function Buffered(): seq<byte>
      reads `rxUbufHead, rxUbuf
      requires LWS_PRE + rxUbufHead <= rxUbuf.Length
    {
      rxUbuf[LWS_PRE..LWS_PRE + rxUbufHead]
    }

    /** The parser state the specification talks about. */
    ghost function State(): Rx
      reads this, mask, rxUbuf
      requires Valid()
    {
      Rx(parse, hdr, Key(), rxPacketLength, Buffered(), bufferSize, peer,
         User(flow, rxflowBuffer != null, log), status)
    }

    constructor (bufferSize: nat)
      requires bufferSize > 0
      ensures Valid() && fresh(mask) && fresh(rxUbuf)
      ensures this.bufferSize == bufferSize
      ensures parse == New && rxUbufHead == 0 && peer.ws == Established && !peer.unusable && status == Running
      ensures rxflowBuffer == null && flow == Flow(true, false, true) && !hungUp
      ensures log == [] && taken == [] && used == []
    {
      this.bufferSize := bufferSize;
      parse, hdr := New, Header(0, 0, false, false, false);
      allZeroNonce, mask, maskIdx := false, new byte[4](_ => 0), 0;
      rxPacketLength := 0;
      rxUbuf, rxUbufHead := new byte[LWS_PRE + bufferSize + 4](_ => 0), 0;
      peer := Peer(Established, false, false, false, [], false);
      flow, rxflowBuffer, rxflowPos := Flow(true, false, true), null, 0;
      log, status, hungUp := [], Running, false;
      taken, used := [], [];
    }

    /** user_callback_handle_rxflow */
    method CallUser(e: Event, cb: Callback) returns (n: int)
      modifies this`flow, this`log
      ensures (User(flow, rxflowBuffer != null, log), n)
           == ServerRx.CallUser(old(User(flow, rxflowBuffer != null, log)), e, cb)
    {
      log := log + [e];
      var reply := cb(log);
      n := reply.result;
      var asked := Requests(flow, reply.requests);
      flow := if n == 0 then ApplyFlow(asked, rxflowBuffer != null) else asked;
    }

    method ProcessAsPing()
      requires Valid()
      modifies this`rxUbufHead, this`peer
      ensures Valid() && State() == ServerRx.ProcessAsPing(old(State()))
    {
      if rxUbufHead <= 125 {
        peer := peer.(ping := rxUbuf[LWS_PRE..LWS_PRE + rxUbufHead], pingPending := true);
      }
      rxUbufHead := 0;
    }

    method SpillClose(cb: Callback)
      requires Valid()
      modifies this`peer, this`status, this`rxUbufHead, this`flow, this`log
      ensures Valid() && State() == ServerRx.SpillClose(old(State()), cb)
    {
      hide ServerRx.CallUser, ServerRx.ProcessAsPing;
      if peer.ws == AwaitingCloseAck || peer.ws == ReturnedClose {
        status := Failed;
        return;
      }
      if peer.txPending {
        peer, status := peer.(unusable := true), Failed;
        return;
      }
      var n := CallUser(PeerClose(rxUbuf[LWS_PRE..LWS_PRE + rxUbufHead]), cb);
      if n != 0 {
        status := Failed;
      } else {
        peer := peer.(ws := ReturnedClose, payloadIsClose := true);
        ProcessAsPing();
      }
    }

    /** A zero after the payload, which the buffer has room for. */
    method Terminate()
      requires Valid()
      modifies rxUbuf
      ensures Valid() && State() == old(State())
    {
      rxUbuf[LWS_PRE + rxUbufHead] := 0;
      assert Buffered() == old(Buffered());
    }

    method SpillReceive(cb: Callback)
      requires Valid()
      modifies this`status, this`rxUbufHead, this`flow, this`log, rxUbuf
      ensures Valid() && State() == ServerRx.SpillReceive(old(State()), cb)
    {
      if peer.ws != ReturnedClose && peer.ws != AwaitingCloseAck && (rxUbufHead > 0 || hdr.opcode == PONG) {
        Terminate();
        var n := CallUser(Receive(hdr.opcode, hdr.fin, rxUbuf[LWS_PRE..LWS_PRE + rxUbufHead], rxPacketLength), cb);
        status := if n < 0 then Failed else status;
      }
      rxUbufHead := 0;
    }

    method Spill(cb: Callback)
      requires Valid()
      modifies this`peer, this`status, this`rxUbufHead, this`flow, this`log, rxUbuf
      ensures Valid() && State() == ServerRx.Spill(old(State()), cb)
    {
      if hdr.opcode == CLOSE {
        SpillClose(cb);
      } else if hdr.opcode == PING {
        if peer.pingPending {
          rxUbufHead := 0;
        } else {
          ProcessAsPing();
        }
      } else {
        SpillReceive(cb);
      }
    }

    method FirstHeaderByte(c: byte)
      requires Valid()
      modifies this`allZeroNonce, this`hdr, this`parse, this`status
      ensures Valid() && State() == ServerRx.FirstHeaderByte(old(State()), c)
    {
      allZeroNonce := true;
      var opcode := c % 16;
      var binary := hdr.binary;
      if opcode == TEXT || opcode == BINARY {
        binary := opcode == BINARY;
      }
      hdr := Header(opcode, c / 16 % 8 * 16, c / 128 == 1, binary, hdr.masked);
      if LegalOpcode(opcode) {
        parse := HdrLen;
      } else {
        status := Failed;
      }
    }

    method LengthByte(c: byte, cb: Callback)
      requires Valid()
      modifies this`hdr, this`parse, this`rxPacketLength, this`peer, this`status, this`rxUbufHead, this`flow
      modifies this`log, rxUbuf
      ensures Valid() && State() == ServerRx.LengthByte(old(State()), c, cb)
    {
      hide ServerRx.Spill;
      hdr := hdr.(masked := c / 128 == 1);
      if c % 128 >= 126 {
        if IsControl(hdr.opcode) {
          status := Failed;
        } else {
          parse := if c % 128 == 126 then Len16High else Len64(8);
        }
        return;
      }
      rxPacketLength := c % 128;
      parse := if hdr.masked then KeyByte(0) else if rxPacketLength != 0 then Payload else New;
      if parse == New {
        Spill(cb);
      }
    }

    method ExtendedLengthByte(c: byte)
      requires Valid() && status == Running && !peer.unusable
      requires parse == Len16High || parse == Len16Low || parse.Len64?
      modifies this`rxPacketLength, this`parse, this`status
      ensures Valid()
      ensures forall cb :: State() == ServerRx.Feed(old(State()), c, cb)
    {
      match parse {
        case Len16High =>
          rxPacketLength, parse := c * 256, Len16Low;
          return;
        case Len16Low =>
          rxPacketLength := rxPacketLength + c;
        case Len64(k) =>
          if k == 8 {
            if c >= 128 {
              status := Failed;
            } else {
              rxPacketLength, parse := c * Power256(7), Len64(7);
            }
            return;
          }
          if k >= 2 {
            rxPacketLength, parse := rxPacketLength + c * Power256(k - 1), Len64(k - 1);
            return;
          }
          rxPacketLength := rxPacketLength + c;
      }
      parse := if hdr.masked then KeyByte(0) else Payload;
    }

    method StoreKeyByte(i: nat, c: byte)
      requires Valid() && i < 4
      modifies this`allZeroNonce, mask
      ensures Valid() && State() == old(State()).(key := State().key)
      ensures State().key
           == old(State().key).(mask := old(State().key.mask)[i := c], zero := old(allZeroNonce) && c == 0)
    {
      mask[i] := c;
      if c != 0 {
        allZeroNonce := false;
      }
    }

    method KeyByteIn(i: nat, c: byte, cb: Callback)
      requires Valid() && i < 4
      modifies this`allZeroNonce, this`maskIdx, mask
      modifies this`parse, this`peer, this`status, this`rxUbufHead, this`flow, this`log, rxUbuf
      ensures Valid() && State() == ServerRx.KeyByteIn(old(State()), i, c, cb)
    {
      hide ServerRx.Spill;
      StoreKeyByte(i, c);
      if i < 3 {
        parse := KeyByte(i + 1);
        return;
      }
      parse, maskIdx := Payload, 0;
      if rxPacketLength == 0 {
        parse := New;
        Spill(cb);
      }
    }

    method StoreByte(c: byte)
      requires Valid() && rxUbufHead < bufferSize
      modifies this`rxUbufHead, this`maskIdx, this`rxPacketLength, rxUbuf
      ensures Valid() && State() == ServerRx.Store(old(State()), c)
    {
      hide Xor;
      if allZeroNonce {
        rxUbuf[LWS_PRE + rxUbufHead] := c;
      } else {
        rxUbuf[LWS_PRE + rxUbufHead] := Xor(c, mask[maskIdx % 4]);
        maskIdx := (maskIdx + 1) % 256;
      }
      rxUbufHead, rxPacketLength := rxUbufHead + 1, Decrement(rxPacketLength);
      assert Buffered() == old(Buffered()) + [Unmasked(old(Key()), c)];
    }

    method PayloadByte(c: byte, cb: Callback)
      requires Valid() && parse == Payload
      modifies this`maskIdx, this`rxPacketLength
      modifies this`parse, this`peer, this`status, this`rxUbufHead, this`flow, this`log, rxUbuf
      ensures Valid() && State() == ServerRx.PayloadByte(old(State()), c, cb)
    {
      if rxUbufHead + LWS_PRE >= LWS_PRE + bufferSize {
        status := Overflowed;
        return;
      }
      StoreByte(c);
      if rxPacketLength == 0 {
        parse := New;
        Spill(cb);
      } else if rxUbufHead == bufferSize {
        Spill(cb);
      }
    }

    /** lws_rx_sm: one received byte. */
    method RxSm(c: byte, cb: Callback)
      requires Valid() && status == Running
      modifies this, mask, rxUbuf
      ensures Valid() && unchanged(`taken, `used, `hungUp, `rxflowBuffer, `rxflowPos)
      ensures State() == Feed(old(State()), c, cb)
    {
      if peer.unusable {
        status := Failed;
        return;
      }
      match parse {
        case New => FirstHeaderByte(c);
        case HdrLen => LengthByte(c, cb);
        case KeyByte(i) => if i < 4 { KeyByteIn(i, c, cb); }
        case Payload => PayloadByte(c, cb);
        case _ => ExtendedLengthByte(c);
      }
    }

    /** Four bytes at a time, then the rest one by one; `key` is the key seen from the current position. */
    method UnmaskInto(data: seq<byte>, key: Key)
      requires Valid() && rxUbufHead + |data| <= bufferSize
      modifies rxUbuf
      ensures rxUbuf[..LWS_PRE + rxUbufHead] == old(rxUbuf[..LWS_PRE + rxUbufHead])
      ensures rxUbuf[LWS_PRE + rxUbufHead..LWS_PRE + rxUbufHead + |data|] == Mask(data, key, 0)
    {
      hide Xor;
      var to := LWS_PRE + rxUbufHead;
      ghost var before := rxUbuf[..];
      var j, n := 0, |data| / 4;
      while n > 0
        invariant 0 <= n && 0 <= j && j + 4 * n == |data| / 4 * 4 && j % 4 == 0
        invariant PutUnmasked(before, rxUbuf[..], to, data, j, key)
      {
        rxUbuf[to + j] := Xor(data[j], key[0]);
        rxUbuf[to + j + 1] := Xor(data[j + 1], key[1]);
        rxUbuf[to + j + 2] := Xor(data[j + 2], key[2]);
        rxUbuf[to + j + 3] := Xor(data[j + 3], key[3]);
        j, n := j + 4, n - 1;
      }
      UnmaskRest(data, key, to, before);
      UnmaskedSlices(before, rxUbuf[..], to, data, key);
    }

    /** The bytes left over after the blocks of four. */
    method UnmaskRest(data: seq<byte>, key: Key, to: nat, ghost before: seq<byte>)
      requires to + |data| <= rxUbuf.Length && PutUnmasked(before, rxUbuf[..], to, data, |data| / 4 * 4, key)
      modifies rxUbuf
      ensures PutUnmasked(before, rxUbuf[..], to, data, |data|, key)
    {
      hide Xor;
      var n := 0;
      while n < |data| % 4
        invariant 0 <= n <= |data| % 4
        invariant PutUnmasked(before, rxUbuf[..], to, data, |data| / 4 * 4 + n, key)
      {
        rxUbuf[to + |data| / 4 * 4 + n] := Xor(data[|data| / 4 * 4 + n], key[n]);
        n := n + 1;
      }
    }

    method CopyInto(data: seq<byte>)
      requires Valid() && rxUbufHead + |data| <= bufferSize
      modifies rxUbuf
      ensures rxUbuf[..LWS_PRE + rxUbufHead] == old(rxUbuf[..LWS_PRE + rxUbufHead])
      ensures rxUbuf[LWS_PRE + rxUbufHead..LWS_PRE + rxUbufHead + |data|] == data
    {
      var to := LWS_PRE + rxUbufHead;
      forall j | 0 <= j < |data| {
        rxUbuf[to + j] := data[j];
      }
    }

    method WritePlain(data: seq<byte>)
      requires Valid() && rxUbufHead + |data| <= bufferSize
      modifies rxUbuf
      ensures rxUbuf[LWS_PRE..LWS_PRE + rxUbufHead + |data|] == old(Buffered()) + Plain(old(Key()), data)
    {
      hide Xor, Mask;
      ghost var to := LWS_PRE + rxUbufHead;
      if allZeroNonce {
        CopyInto(data);
      } else {
        var key := [mask[maskIdx % 4], mask[(maskIdx + 1) % 4], mask[(maskIdx + 2) % 4], mask[(maskIdx + 3) % 4]];
        RotatedMask(data, key, mask[..], maskIdx);
        UnmaskInto(data, key);
      }
      assert rxUbuf[LWS_PRE..to] == rxUbuf[..to][LWS_PRE..];
      assert rxUbuf[LWS_PRE..to + |data|] == rxUbuf[LWS_PRE..to] + rxUbuf[to..to + |data|];
    }

    /** lws_payload_until_length_exhausted */
    method PayloadUntilLengthExhausted(input: seq<byte>, at: nat) returns (m: nat)
      requires Valid() && at <= |input|
      modifies rxUbuf, this`rxUbufHead, this`rxPacketLength, this`maskIdx
      ensures Valid() && m == BulkAmount(old(State()), |input| - at) && at + m <= |input|
      ensures State() == Stored(old(State()), input[at..at + m])
    {
      var avail := Min(bufferSize - rxUbufHead, Min(rxPacketLength, |input| - at));
      if avail <= 1 {
        StoredNothing(State());
        return 0;
      }
      m := avail - 1;
      Take(input[at..at + m]);
    }

    method Take(data: seq<byte>)
      requires Valid() && rxUbufHead + |data| <= bufferSize && |data| <= rxPacketLength
      modifies rxUbuf, this`rxUbufHead, this`rxPacketLength, this`maskIdx
      ensures Valid() && State() == Stored(old(State()), data)
    {
      hide Xor, Mask;
      WritePlain(data);
      AdvanceMask(|data|);
      Grow(|data|);
    }

    method AdvanceMask(n: nat)
      requires Valid()
      modifies this`maskIdx
      ensures Valid() && State() == old(State()).(key := Advance(old(Key()), n))
    {
      if !allZeroNonce {
        AdvancedIndex(maskIdx, n);
        maskIdx := (maskIdx + n) % 4;
      }
    }

    method Grow(n: nat)
      requires Valid() && rxUbufHead + n <= bufferSize && n <= rxPacketLength
      modifies this`rxUbufHead, this`rxPacketLength
      ensures Valid()
      ensures State()
           == old(State()).(len := old(rxPacketLength) - n, buf := rxUbuf[LWS_PRE..LWS_PRE + old(rxUbufHead) + n])
    {
      rxUbufHead, rxPacketLength := rxUbufHead + n, rxPacketLength - n;
    }

    /** Keep input that reception being paused leaves unparsed; a buffer being drained already holds it. */
    method RxflowCache(rest: seq<byte>)
      requires Valid()
      modifies this`rxflowBuffer, this`rxflowPos
      ensures Valid() && State() == FlowControl.WithFlow(old(State()), flow, true)
      ensures old(rxflowBuffer) != null ==> unchanged(`rxflowBuffer, `rxflowPos)
      ensures old(rxflowBuffer) == null ==> fresh(rxflowBuffer) && rxflowBuffer[..] == rest && rxflowPos == 0
    {
      if rxflowBuffer != null {
        return;
      }
      rxflowBuffer, rxflowPos := new byte[|rest|](i requires 0 <= i < |rest| => rest[i]), 0;
    }

    /** The loop of lws_interpret_incoming_packet: stops at the end, on failure, or when reception is paused. */
    method ParseInput(input: seq<byte>, cb: Callback) returns (n: nat)
      requires Valid() && status == Running && !peer.unusable
      requires rxflowBuffer != null ==> rxflowPos + |input| <= rxflowBuffer.Length
      modifies this, mask, rxUbuf
      ensures Valid() && unchanged(`taken, `hungUp, `rxflowBuffer)
      ensures Usable() && (State(), n) == FlowControl.Consume(old(State()), input, cb)
      ensures used == old(used) + input[..n]
      ensures rxflowBuffer != null ==> rxflowPos == old(rxflowPos) + n
    {
      hide FlowControl.Consume;
      ghost var start := State();
      n := 0;
      FlowControl.ReachesSelf(start, input, cb);
      while n < |input| && status == Running && flow.allow
        invariant n <= |input| && Valid() && Usable()
        invariant unchanged(`taken, `hungUp, `rxflowBuffer)
        invariant used == old(used) + input[..n]
        invariant rxflowBuffer != null ==> rxflowPos == old(rxflowPos) + n
        invariant FlowControl.Reaches(start, input, n, State(), cb)
        decreases |input| - n
      {
        n := TakeTurn(start, input, n, cb);
      }
      FlowControl.ReachesEnd(start, input, n, State(), cb);
    }

    method TakeTurn(ghost start: Rx, input: seq<byte>, at: nat, cb: Callback) returns (next: nat)
      requires Valid() && status == Running && !peer.unusable && flow.allow && at < |input|
      requires rxflowBuffer != null ==> rxflowPos + |input| - at <= rxflowBuffer.Length
      requires FlowControl.Reaches(start, input, at, State(), cb)
      modifies this, mask, rxUbuf
      ensures Valid() && unchanged(`taken, `hungUp, `rxflowBuffer)
      ensures at < next <= |input| && used == old(used) + input[at..next]
      ensures rxflowBuffer != null ==> rxflowPos == old(rxflowPos) + next - at
      ensures Usable()
      ensures FlowControl.Reaches(start, input, next, State(), cb)
    {
      hide FlowControl.Turn, FlowControl.TurnLength;
      ghost var before := State();
      var k := TakeOne(input[at..], cb);
      next := at + k;
      FlowControl.TurnReaches(before, input[at..], cb);
      FlowControl.ReachesMore(start, input, at, before, k, State(), cb);
      assert input[at..][..k] == input[at..next];
    }

    /** One turn: perhaps a bulk run, then one byte through the state machine. */
    method TakeOne(rest: seq<byte>, cb: Callback) returns (k: nat)
      requires Valid() && status == Running && !peer.unusable && rest != []
      requires rxflowBuffer != null ==> rxflowPos + |rest| <= rxflowBuffer.Length
      modifies this, mask, rxUbuf
      ensures Valid() && unchanged(`taken, `hungUp, `rxflowBuffer)
      ensures k == FlowControl.TurnLength(old(State()), |rest|) && 0 < k <= |rest|
      ensures State() == FlowControl.Turn(old(State()), rest, cb)
      ensures used == old(used) + rest[..k]
      ensures Usable()
      ensures rxflowBuffer != null ==> rxflowPos == old(rxflowPos) + k
    {
      hide Feed, FlowControl.BeforeLast, FlowControl.TurnLength;
      k := TakeBulk(rest);
      Account(k);
      FeedUsable(State(), rest[k - 1], cb);
      RxSm(rest[k - 1], cb);
      used := used + rest[..k];
    }

    /** Account for what is used in the rxflow buffer. */
    method Account(k: nat)
      requires Valid() && (rxflowBuffer != null ==> rxflowPos + k <= rxflowBuffer.Length)
      modifies this`rxflowPos
      ensures Valid() && State() == old(State())
      ensures rxflowBuffer != null ==> rxflowPos == old(rxflowPos) + k
    {
      if rxflowBuffer != null {
        rxflowPos := rxflowPos + k;
      }
    }

    /** The bulk run, if payload is being received; k counts the byte left for the state machine too. */
    method TakeBulk(rest: seq<byte>) returns (k: nat)
      requires Valid() && rest != []
      modifies rxUbuf, this`rxUbufHead, this`rxPacketLength, this`maskIdx
      ensures Valid() && k == FlowControl.TurnLength(old(State()), |rest|) && 0 < k <= |rest|
      ensures State() == FlowControl.BeforeLast(old(State()), rest)
    {
      if parse == Payload {
        var m := PayloadUntilLengthExhausted(rest, 0);
        k := m + 1;
        assert rest[0..m] == rest[..m];
      } else {
        k := 1;
      }
    }

    /** lws_interpret_incoming_packet: 0 when all is parsed, 1 when paused with input left, -1 on failure. */
    method Interpret(input: seq<byte>, cb: Callback) returns (code: int, ghost n: nat)
      requires Valid() && status == Running && !peer.unusable
      requires rxflowBuffer != null ==> rxflowPos + |input| <= rxflowBuffer.Length
      modifies this, mask, rxUbuf
      ensures Valid() && unchanged(`taken, `hungUp)
      ensures Usable() && n == FlowControl.Consume(old(State()), input, cb).1 && used == old(used) + input[..n]
      ensures code == if status != Running then -1 else if n < |input| then 1 else 0
      ensures State() == var t := FlowControl.Consume(old(State()), input, cb).0;
        if code == 1 then FlowControl.WithFlow(t, t.user.flow, true) else t
      ensures old(rxflowBuffer) != null ==> rxflowBuffer == old(rxflowBuffer) && rxflowPos == old(rxflowPos) + n
      ensures old(rxflowBuffer) == null && code == 1 ==>
        rxflowBuffer != null && fresh(rxflowBuffer) && rxflowBuffer[..] == input[n..] && rxflowPos == 0
      ensures old(rxflowBuffer) == null && code != 1 ==> rxflowBuffer == null
    {
      var parsed := ParseInput(input, cb);
      n := parsed;
      if status != Running {
        return -1, n;
      }
      if parsed < |input| {
        RxflowCache(input[parsed..]);
        return 1, n;
      }
      return 0, n;
    }

    ghost function Cache(): seq<byte>
      reads `rxflowBuffer, `rxflowPos, rxflowBuffer
      requires rxflowBuffer != null ==> rxflowPos <= rxflowBuffer.Length
    {
      if rxflowBuffer == null then [] else rxflowBuffer[rxflowPos..]
    }

    /** The connection the whole-run properties talk about. */
    ghost function Conn(): FlowControl.Conn
      reads this, mask, rxUbuf, rxflowBuffer
      requires Valid()
    {
      FlowControl.Conn(State(), Cache(), taken, used, hungUp)
    }

    method DrainCache(cb: Callback)
      requires Valid() && status == Running && Usable() && rxflowBuffer != null && peer.ws != ReturnedClose
      modifies this, mask, rxUbuf
      ensures Valid() && Usable() && Conn() == FlowControl.Drain(old(Conn()), cb)
      ensures rxflowBuffer != null ==> rxflowBuffer == old(rxflowBuffer)
    {
      ghost var rest := Cache();
      FlowControl.ConsumeKeepsCached(State(), rest, cb);
      var code, n := Interpret(rxflowBuffer[rxflowPos..], cb);
      assert Cache() == rest[n..];
      FinishDrain();
    }

    /** Having drained the buffer, drop it and carry out any change of reception that waited for it. */
    method FinishDrain()
      requires Valid() && rxflowBuffer != null
      modifies this`rxflowBuffer, this`flow
      ensures Valid() && Cache() == old(Cache())
      ensures State() == if status == Running && old(Cache()) == []
        then FlowControl.WithFlow(old(State()), ApplyFlow(old(flow), false), false) else old(State())
      ensures rxflowBuffer != null ==> rxflowBuffer == old(rxflowBuffer)
    {
      if status == Running && rxflowPos == rxflowBuffer.Length {
        rxflowBuffer := null;
        flow := ApplyFlow(flow, false);
      }
    }

    method ReadSocket(chunk: seq<byte>, cb: Callback)
      requires Valid() && status == Running && Usable() && rxflowBuffer == null && peer.ws != ReturnedClose
      modifies this, mask, rxUbuf
      ensures Valid() && Usable() && Conn() == FlowControl.Read(old(Conn()), chunk, cb)
      ensures rxflowBuffer != null ==> fresh(rxflowBuffer)
    {
      var code, n := Interpret(chunk, cb);
      taken := taken + chunk;
      assert Cache() == if code == 1 then chunk[n..] else [];
    }

    /** The receiving part of one lws_service_fd_tsi; `chunk` is what a read would return. */
    method Service(chunk: seq<byte>, cb: Callback)
      requires Valid() && Usable()
      modifies this, mask, rxUbuf
      ensures Valid() && Usable() && Conn() == FlowControl.Service(old(Conn()), chunk, cb)
      ensures rxflowBuffer != null ==> rxflowBuffer == old(rxflowBuffer) || fresh(rxflowBuffer)
    {
      if status != Running || hungUp {
        return;
      }
      if peer.ws == ReturnedClose || peer.ws == AwaitingCloseAck {
        flow := RxFlowControl(flow, true);
      }
      if !flow.allow {
        return;
      }
      if rxflowBuffer != null {
        if peer.ws != ReturnedClose {
          DrainCache(cb);
        }
      } else if flow.pollIn && chunk != [] {
        if peer.ws == ReturnedClose {
          taken := taken + chunk;
        } else {
          ReadSocket(chunk, cb);
        }
      }
    }

    /** lws_rx_flow_control outside a receive callback. */
    method UserRequest(enable: bool)
      requires Valid()
      modifies this`flow
      ensures Valid() && Conn() == FlowControl.Advance(old(Conn()), FlowControl.UserRequest(enable), cb => Reply([], 0))
    {
      if enable != flow.allow {
        flow := flow.(allow := enable, changePending := true);
      }
    }

    /** user_callback_handle_rxflow around a callback that is not about received data; 0 keeps the connection. */
    method UserCallback(reply: Reply) returns (n: int)
      requires Valid() && status == Running && !hungUp
      modifies this`flow, this`hungUp
      ensures Valid() && n == reply.result
      ensures Conn() == FlowControl.OtherCallback(old(Conn()), reply)
    {
      n := reply.result;
      var asked := flow;
      var i := 0;
      while i < |reply.requests|
        invariant 0 <= i <= |reply.requests|
        invariant Requests(asked, reply.requests[i..]) == Requests(flow, reply.requests)
      {
        assert reply.requests[i..][1..] == reply.requests[i + 1..];
        if reply.requests[i] != asked.allow {
          asked := asked.(allow := reply.requests[i], changePending := true);
        }
        i := i + 1;
      }
      flow, hungUp := asked, n != 0;
      if n == 0 {
        HandleRxflow();
      }
    }

    /** _lws_rx_flow_control: carry a pending change out unless a buffer is still to be drained. */
    method HandleRxflow()
      requires Valid()
      modifies this`flow
      ensures Valid() && flow == ApplyFlow(old(flow), rxflowBuffer != null)
      ensures FlowControl.Settled(old(flow)) && rxflowBuffer == null ==> flow.pollIn == flow.allow == old(flow.allow)
    {
      if flow.changePending && rxflowBuffer == null {
        flow := flow.(changePending := false, pollIn := flow.allow);
      }
    }
  }

  /** Of a buffer, the first `done` bytes of data have been put unmasked at `to`. */
  ghost predicate PutUnmasked(before: seq<byte>, after: seq<byte>, to: nat, data: seq<byte>, done: nat, key: Key)
    requires done <= |data|
  {
    && |after| == |before| && to + |data| <= |before|
    && forall i | 0 <= i < |after| ::
         after[i] == if to <= i < to + done then Xor(data[i - to], key[(i - to) % 4]) else before[i]
  }

  lemma UnmaskedSlices(before: seq<byte>, after: seq<byte>, to: nat, data: seq<byte>, key: Key)
    requires PutUnmasked(before, after, to, data, |data|, key)
    ensures after[..to] == before[..to] && after[to..to + |data|] == Mask(data, key, 0)
  {
    hide Xor;
  }

  lemma AdvancedIndex(idx: nat, n: nat)
    ensures (idx + n) % 4 % 4 == (idx % 4 + n) % 4
  {
  }

  lemma RotatedMask(data: seq<byte>, rotated: Key, key: Key, idx: nat)
    requires rotated == [key[idx % 4], key[(idx + 1) % 4], key[(idx + 2) % 4], key[(idx + 3) % 4]]
    ensures Mask(data, rotated, 0) == Mask(data, key, idx % 4)
  {
    forall i | 0 <= i < |data| ensures rotated[i % 4] == key[(idx % 4 + i) % 4] {
      assert (idx + i % 4) % 4 == (idx % 4 + i) % 4;
    }
  }
}
