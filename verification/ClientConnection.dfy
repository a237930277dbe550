/** The client's frame parser as the code keeps it: fields and buffers updated byte by byte. */
module ClientConnection {
  import opened Bytes
  import opened Frames
  import ServerRx
  import opened ClientRx
  import Utf8

  /** The frame being received. */
  datatype Header = Header(opcode: nat, fin: bool, masked: bool)

  /** What is waiting to be answered. */
  datatype Answers = Answers(pingPending: bool, ping: seq<byte>, closeReason: bool)

  class Connection {
    const bufferSize: nat
    const validate: bool
    var parse: ServerRx.Parse
    var hdr: Header
    var allZeroNonce: bool
    const mask: array<byte>
    var maskIdx: nat
    var rxPacketLength: nat
    const rxUbuf: array<byte>
    var rxUbufHead: nat
    var checks: Checks
    var answers: Answers
    var state: WsState
    var log: seq<ServerRx.Event>
    var outcome: Outcome

    constructor (bufferSize: nat, validate: bool)
      requires bufferSize > 0
      ensures Valid() && Room() && State() == Fresh(bufferSize, validate)
      ensures this.bufferSize == bufferSize && fresh(mask) && fresh(rxUbuf)
    {
      this.bufferSize, this.validate := bufferSize, validate;
      parse, hdr := ServerRx.New, Header(0, false, false);
      allZeroNonce, mask, maskIdx := false, new byte[4](_ => 0), 0;
      rxPacketLength := 0;
      rxUbuf, rxUbufHead := new byte[LWS_PRE + bufferSize + 4](_ => 0), 0;
      checks := Checks(false, false, false, false, 0);
      answers := Answers(false, [], false);
      state, log, outcome := Established, [], Open;
      new;
      assert mask[..] == [0, 0, 0, 0];
    }

    ghost predicate Valid()
      reads `maskIdx, `rxUbufHead, `checks
    {
      && mask.Length == 4 && maskIdx < 256 && mask != rxUbuf
      && rxUbuf.Length == LWS_PRE + bufferSize + 4 && rxUbufHead <= bufferSize
      && Utf8.Known(checks.utf8)
    }

    ghost function Key(): ServerRx.Keying
      reads `allZeroNonce, `maskIdx, mask
      requires mask.Length == 4
    {
      ServerRx.Keying(allZeroNonce, mask[..], maskIdx % 4)
    }

    ghost function Buffered(): seq<byte>
      reads `rxUbufHead, rxUbuf
      requires LWS_PRE + rxUbufHead <= rxUbuf.Length
    {
      rxUbuf[LWS_PRE..LWS_PRE + rxUbufHead]
    }

    ghost function State(): Client
      reads this, mask, rxUbuf
      requires Valid()
    {
      Client(parse, hdr.opcode, hdr.fin, hdr.masked, Key(), rxPacketLength, Buffered(), bufferSize, validate,
             checks, answers.pingPending, answers.ping, answers.closeReason, state, log, outcome)
    }

    /** Bytes fit: the buffer is emptied whenever it is full. */
    ghost predicate Room()
      reads `rxUbufHead, `outcome
    {
      outcome == Open ==> rxUbufHead < bufferSize
    }

    /** The specification's state, or at least its verdict once the connection is over. */
    ghost predicate Is(t: Client)
      reads this, mask, rxUbuf
      requires Valid()
    {
      outcome == t.outcome && log == t.log && (outcome == Open ==> State() == t)
    }

    /** The checks a frame's first byte must pass, and what they leave behind. */
    method CheckFirst(c: byte) returns (ok: bool, k: Checks)
      requires Valid()
      ensures ok == !FaultyFirst(checks, c)
      ensures ok ==> k == FinChecks(FirstChecks(checks, c % 16, validate), c % 16, c >= 128) && Utf8.Known(k.utf8)
    {
      ok := true;
      var opcode, fin := c % 16, c >= 128;
      k := checks.(defeatCheck := false);
      if opcode == TEXT {
        k := k.(continuationPossible := true, checkUtf8 := validate, utf8 := 0);
      } else if opcode == BINARY {
        k := k.(checkUtf8 := false, continuationPossible := true);
      } else if opcode == CONTINUATION {
        ok := k.continuationPossible;
      } else if opcode == CLOSE {
        k := k.(checkUtf8 := false, utf8 := 0);
      } else if ReservedOpcode(opcode) {
        ok := false;
      } else {
        k := k.(defeatCheck := true);
      }
      if c / 16 % 8 != 0 || (k.owedAFin && (opcode == TEXT || opcode == BINARY)) || (IsControl(opcode) && !fin) {
        ok := false;
      }
      if !IsControl(opcode) && fin {
        k := k.(continuationPossible := false, owedAFin := false);
      }
      if !fin {
        k := k.(owedAFin := true);
      }
    }

    method FirstByteIn(c: byte)
      requires Valid() && outcome == Open
      modifies this`hdr, this`parse, this`checks, this`outcome
      ensures Valid() && Is(ClientRx.FirstByteIn(old(State()), c))
    {
      hide FaultyFirst, FirstChecks, FinChecks;
      var ok, k := CheckFirst(c);
      if !ok {
        outcome := Rejected;
        return;
      }
      checks := k;
      hdr := Header(c % 16, c >= 128, hdr.masked);
      parse := ServerRx.HdrLen;
    }

    method SpillClose(user: UserCode)
      requires Valid() && outcome == Open
      modifies this`outcome, this`log, this`state, rxUbuf
      ensures Valid() && Is(ClientRx.SpillClose(old(State()), user))
    {
      if validate && rxUbufHead > 2 {
        var bad, _ := Utf8.CheckUtf8(checks.utf8, rxUbuf[LWS_PRE + 2..LWS_PRE + rxUbufHead]);
        assert Buffered()[2..] == rxUbuf[LWS_PRE + 2..LWS_PRE + rxUbufHead];
        if bad {
          outcome := Rejected;
          return;
        }
      }
      if state == AwaitingCloseAck {
        outcome := Closed;
        return;
      }
      FixCloseCode();
      log := log + [ServerRx.PeerClose(rxUbuf[LWS_PRE..LWS_PRE + rxUbufHead])];
      outcome := Closed;
      if user(log) == 0 {
        state := ReturnedClose;
      }
    }

    method FixCloseCode()
      requires Valid()
      modifies rxUbuf
      ensures Buffered() == CheckedClose(old(Buffered()))
    {
      if rxUbufHead >= 2 {
        var high: int := rxUbuf[LWS_PRE];
        if BadCloseCode(high * 256 + rxUbuf[LWS_PRE + 1]) {
          rxUbuf[LWS_PRE], rxUbuf[LWS_PRE + 1] := 1002 / 256, 1002 % 256;
          assert Buffered() == [1002 / 256, 1002 % 256] + old(Buffered())[2..];
        }
      }
    }

    method SpillPing()
      requires Valid()
      modifies this`answers, this`rxUbufHead
      ensures Valid() && State() == ClientRx.SpillPing(old(State()))
      ensures rxUbufHead == 0
    {
      if !answers.closeReason && !answers.pingPending && rxUbufHead <= 125 {
        answers := answers.(pingPending := true, ping := rxUbuf[LWS_PRE..LWS_PRE + rxUbufHead]);
      }
      rxUbufHead := 0;
    }

    /** Text is checked before it is handed over. */
    method CheckText() returns (ok: bool)
      requires Valid()
      modifies this`checks
      ensures Valid()
      ensures var check := old(checks).checkUtf8 && !old(checks).defeatCheck;
        var r := if check then Utf8.Run(old(checks).utf8, Buffered()) else Utf8.Ok(old(checks).utf8);
        && ok == !(r == Utf8.Bad || (check && rxPacketLength == 0 && hdr.fin && r.state != 0))
        && (ok ==> checks == old(checks).(utf8 := r.state))
    {
      ok := true;
      if checks.checkUtf8 && !checks.defeatCheck {
        Utf8.RunKnown(checks.utf8, Buffered());
        var bad, next := Utf8.CheckUtf8(checks.utf8, rxUbuf[LWS_PRE..LWS_PRE + rxUbufHead]);
        checks := checks.(utf8 := next);
        ok := !bad && !(rxPacketLength == 0 && hdr.fin && next != 0);
      }
    }

    method SpillData(user: UserCode)
      requires Valid() && outcome == Open
      modifies this`checks, this`outcome, this`log, this`rxUbufHead, rxUbuf
      ensures Valid() && Is(ClientRx.SpillData(old(State()), user))
      ensures outcome == Open ==> rxUbufHead == 0
    {
      hide Utf8.Run, ClientRx.HandOver;
      var ok := CheckText();
      if !ok {
        outcome := Rejected;
        return;
      }
      HandOver(user);
    }

    method HandOver(user: UserCode)
      requires Valid() && outcome == Open
      modifies this`outcome, this`log, this`rxUbufHead, rxUbuf
      ensures Valid() && (outcome == Open ==> rxUbufHead == 0)
      ensures Is(ClientRx.HandOver(old(State()), user))
    {
      if state != ReturnedClose && state != AwaitingCloseAck {
        log := log + [ServerRx.Receive(hdr.opcode, hdr.fin, rxUbuf[LWS_PRE..LWS_PRE + rxUbufHead], rxPacketLength)];
        rxUbuf[LWS_PRE + rxUbufHead] := 0;
        if user(log) != 0 {
          outcome := Closed;
          return;
        }
      }
      rxUbufHead := 0;
    }

    method Spill(user: UserCode)
      requires Valid() && outcome == Open
      modifies this`checks, this`outcome, this`log, this`state, this`answers, this`rxUbufHead, rxUbuf
      ensures Valid() && Is(ClientRx.Spill(old(State()), user))
      ensures outcome == Open ==> rxUbufHead == 0
    {
      hide ClientRx.SpillClose, ClientRx.SpillPing, ClientRx.SpillData;
      if hdr.opcode == CLOSE {
        SpillClose(user);
        CloseEnds(old(State()), user);
      } else if hdr.opcode == PING {
        SpillPing();
      } else {
        SpillData(user);
      }
    }

    method Begin(user: UserCode)
      requires Valid() && outcome == Open && Room()
      modifies this`parse
      modifies this`checks, this`outcome, this`log, this`state, this`answers, this`rxUbufHead, rxUbuf
      ensures Valid() && Room() && Is(ClientRx.Begin(old(State()), user))
    {
      hide ClientRx.Spill;
      parse := if rxPacketLength != 0 then ServerRx.Payload else ServerRx.New;
      if rxPacketLength == 0 {
        Spill(user);
      }
    }

    method AfterLength(len: nat, user: UserCode)
      requires Valid() && outcome == Open && Room()
      modifies this`parse, this`rxPacketLength
      modifies this`checks, this`outcome, this`log, this`state, this`answers, this`rxUbufHead, rxUbuf
      ensures Valid() && Room() && Is(ClientRx.AfterLength(old(State()), len, user))
    {
      hide ClientRx.Begin;
      rxPacketLength := len;
      if hdr.masked {
        parse := ServerRx.KeyByte(0);
      } else {
        Begin(user);
      }
    }

    method LengthByte(c: byte, user: UserCode)
      requires Valid() && outcome == Open && Room()
      modifies this`hdr, this`parse, this`rxPacketLength
      modifies this`checks, this`outcome, this`log, this`state, this`answers, this`rxUbufHead, rxUbuf
      ensures Valid() && Room() && Is(ClientRx.LengthByte(old(State()), c, user))
    {
      hide ClientRx.AfterLength;
      hdr := hdr.(masked := c / 128 == 1);
      if c % 128 < 126 {
        AfterLength(c, user);
      } else if IsControl(hdr.opcode) {
        outcome := Rejected;
      } else {
        parse := if c % 128 == 126 then ServerRx.Len16High else ServerRx.Len64(8);
      }
    }

    method ExtendedLengthByte(c: byte, user: UserCode)
      requires Valid() && outcome == Open && Room()
      requires parse == ServerRx.Len16High || parse == ServerRx.Len16Low || parse.Len64?
      modifies this`parse, this`rxPacketLength
      modifies this`checks, this`outcome, this`log, this`state, this`answers, this`rxUbufHead, rxUbuf
      ensures Valid() && Room() && Is(Feed(old(State()), c, user))
    {
      hide ClientRx.AfterLength, ClientRx.Len64Byte;
      match parse {
        case Len16High =>
          rxPacketLength, parse := c * 256, ServerRx.Len16Low;
        case Len16Low =>
          AfterLength(rxPacketLength + c, user);
        case Len64(k) =>
          Len64Byte(k, c, user);
      }
    }

    method Len64Byte(k: nat, c: byte, user: UserCode)
      requires Valid() && outcome == Open && Room()
      modifies this`parse, this`rxPacketLength
      modifies this`checks, this`outcome, this`log, this`state, this`answers, this`rxUbufHead, rxUbuf
      ensures Valid() && Room() && Is(ClientRx.Len64Byte(old(State()), k, c, user))
    {
      hide ClientRx.AfterLength, Power256;
      if k == 8 {
        if c >= 128 {
          outcome := Rejected;
        } else {
          rxPacketLength, parse := c * Power256(7), ServerRx.Len64(7);
        }
      } else if k >= 2 {
        rxPacketLength, parse := rxPacketLength + c * Power256(k - 1), ServerRx.Len64(k - 1);
      } else {
        AfterLength(rxPacketLength + c, user);
      }
    }

    method StoreKeyByte(i: nat, c: byte)
      requires Valid() && i < 4
      modifies this`allZeroNonce, mask
      ensures Valid() && State() == old(State()).(key := Key())
      ensures Key() == old(Key()).(mask := old(Key()).mask[i := c], zero := old(allZeroNonce) && c == 0)
    {
      mask[i] := c;
      if c != 0 {
        allZeroNonce := false;
      }
    }

    method KeyByteIn(i: nat, c: byte, user: UserCode)
      requires Valid() && outcome == Open && Room() && i < 4
      modifies this`allZeroNonce, mask, this`parse
      modifies this`checks, this`outcome, this`log, this`state, this`answers, this`rxUbufHead, rxUbuf
      ensures Valid() && Room() && Is(ClientRx.KeyByteIn(old(State()), i, c, user))
    {
      hide ClientRx.Begin;
      StoreKeyByte(i, c);
      if i < 3 {
        parse := ServerRx.KeyByte(i + 1);
      } else {
        Begin(user);
      }
    }

    method StoreByte(c: byte)
      requires Valid() && rxUbufHead < bufferSize
      modifies this`rxUbufHead, this`maskIdx, this`rxPacketLength, rxUbuf
      ensures Valid() && State() == ClientRx.Store(old(State()), c) && rxUbufHead == old(rxUbufHead) + 1
    {
      hide Xor;
      var d := c;
      if hdr.masked && !allZeroNonce {
        d := Xor(c, mask[maskIdx % 4]);
        maskIdx := (maskIdx + 1) % 256;
      }
      rxUbuf[LWS_PRE + rxUbufHead] := d;
      rxUbufHead, rxPacketLength := rxUbufHead + 1, ServerRx.Decrement(rxPacketLength);
      assert Buffered() == old(Buffered()) + [d];
    }

    method PayloadByte(c: byte, user: UserCode)
      requires Valid() && outcome == Open && Room() && parse == ServerRx.Payload
      modifies this`maskIdx, this`rxPacketLength, this`parse
      modifies this`checks, this`outcome, this`log, this`state, this`answers, this`rxUbufHead, rxUbuf
      ensures Valid() && Room() && Is(ClientRx.PayloadByte(old(State()), c, user))
    {
      hide ClientRx.Spill, ClientRx.Store;
      StoreByte(c);
      if rxPacketLength == 0 {
        parse := ServerRx.New;
        Spill(user);
      } else if rxUbufHead == bufferSize {
        Spill(user);
      }
    }

    /** lws_client_rx_sm: one received byte. The buffer always has room for it. */
    method RxSm(c: byte, user: UserCode)
      requires Valid() && outcome == Open && Room() && bufferSize > 0
      modifies this, mask, rxUbuf
      ensures Valid() && Room() && Is(Feed(old(State()), c, user))
    {
      match parse {
        case New => FirstByteIn(c);
        case HdrLen => LengthByte(c, user);
        case KeyByte(i) => if i < 4 { KeyByteIn(i, c, user); }
        case Payload => PayloadByte(c, user);
        case _ => ExtendedLengthByte(c, user);
      }
    }

    /** A read: its bytes one by one, until one of them ends the connection. */
    method Receive(input: seq<byte>, user: UserCode)
      requires Valid() && Room() && bufferSize > 0
      modifies this, mask, rxUbuf
      ensures Valid() && Room() && Is(FeedAll(old(State()), input, user))
    {
      hide Feed, FeedAll;
      ghost var start := State();
      var i := 0;
      FeedAllNothing(start, user);
      assert input[..0] == [];
      while i < |input| && outcome == Open
        invariant 0 <= i <= |input| && Valid() && Room() && Is(FeedAll(start, input[..i], user))
      {
        ghost var before := State();
        RxSm(input[i], user);
        FeedAllAppend(start, input[..i], [input[i]], user);
        FeedAllOne(before, input[i], user);
        assert input[..i] + [input[i]] == input[..i + 1];
        i := i + 1;
      }
      assert input == input[..i] + input[i..];
      FeedAllAppend(start, input[..i], input[i..], user);
      if i < |input| {
        FeedAllDead(FeedAll(start, input[..i], user), input[i..], user);
      } else {
        FeedAllNothing(FeedAll(start, input, user), user);
        assert input[..i] == input;
      }
    }
  }

  lemma CloseEnds(s: Client, user: UserCode)
    requires s.outcome == Open
    ensures ClientRx.SpillClose(s, user).outcome != Open
  {
  }
}
