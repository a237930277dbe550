/** The client accepts exactly the frame sequences RFC 6455 allows: fragmentation, control frames and UTF-8. */
module Conformance {
  import opened Bytes
  import opened Sequences
  import opened Frames
  import ServerRx
  import Delivery
  import opened ClientRx
  import Utf8

  // ---- what is allowed: sections 5.2, 5.4, 5.5 and 8.1 of RFC 6455 ----

  /** A server frame: its first byte (FIN, reserved bits and opcode) and its payload. */
  datatype WireFrame = WireFrame(first: byte, payload: seq<byte>)
  {
    function Opcode(): nat { first % 16 }
    predicate Fin() { first >= 128 }
    predicate NoReservedBits() { first / 16 % 8 == 0 }
  }

  predicate Sized(f: WireFrame) { |f.payload| < MAX_LENGTH }

  function BytesOf(f: WireFrame): seq<byte>
    requires Sized(f)
  {
    [f.first] + LengthField(|f.payload|, 0) + f.payload
  }

  datatype Message = NoMessage | Begun(text: bool, soFar: seq<byte>)

  /** The message a frame belongs to after it, or None if it may not come here. */
  function Extend(m: Message, f: WireFrame): Message
    requires !IsControl(f.Opcode())
  {
    if f.Opcode() == CONTINUATION then
      if m.NoMessage? then NoMessage else Begun(m.text, m.soFar + f.payload)
    else if (f.Opcode() == TEXT || f.Opcode() == BINARY) && m.NoMessage? then Begun(f.Opcode() == TEXT, f.payload)
    else NoMessage
  }

  ghost predicate GoodText(m: Message, fin: bool, validate: bool)
    requires m.Begun?
  {
    validate && m.text ==> if fin then Utf8.Valid(m.soFar) else Utf8.Viable(m.soFar)
  }

  predicate GoodControl(f: WireFrame) {
    (f.Opcode() == PING || f.Opcode() == PONG) && f.Fin() && |f.payload| <= 125
  }

  /** One frame is allowed when message m is open. */
  ghost predicate Allowed(m: Message, f: WireFrame, validate: bool) {
    f.NoReservedBits() &&
    if IsControl(f.Opcode()) then GoodControl(f)
    else Extend(m, f).Begun? && GoodText(Extend(m, f), f.Fin(), validate)
  }

  function Next(m: Message, f: WireFrame): Message {
    if IsControl(f.Opcode()) then m
    else if f.Fin() then NoMessage
    else Extend(m, f)
  }

  ghost predicate Conformant(m: Message, fs: seq<WireFrame>, validate: bool)
    decreases |fs|
  {
    fs == [] || (Allowed(m, fs[0], validate) && Conformant(Next(m, fs[0]), fs[1..], validate))
  }

  predicate NoClose(fs: seq<WireFrame>) {
    forall i | 0 <= i < |fs| :: Sized(fs[i]) && fs[i].Opcode() != CLOSE
  }

  function Stream(fs: seq<WireFrame>): seq<byte>
    requires NoClose(fs)
  {
    if fs == [] then [] else BytesOf(fs[0]) + Stream(fs[1..])
  }

  /** What user code is to see of a frame: its payload with opcode and FIN. PINGs are kept from it. */
  function Shown(opcode: nat, fin: bool, payload: seq<byte>, left: nat): seq<Delivery.Tagged> {
    if opcode == PING then [] else Delivery.Tag(payload, opcode, fin, left)
  }

  function StreamShown(fs: seq<WireFrame>): seq<Delivery.Tagged> {
    if fs == [] then [] else Shown(fs[0].Opcode(), fs[0].Fin(), fs[0].payload, 0) + StreamShown(fs[1..])
  }

  // ---- why the client does that ----

  /** User code that does not end the connection itself. */
  ghost predicate Patient(user: UserCode) { forall log :: user(log) == 0 }

  /** Between two frames of an open connection on which message m has begun. */
  ghost predicate Between(s: Client, m: Message) {
    && s.outcome == Open && s.parse == ServerRx.New && s.buf == [] && s.cap > 0 && s.ws == Established
    && s.checks.continuationPossible == s.checks.owedAFin == m.Begun?
    && (m.Begun? ==> s.checks.checkUtf8 == (s.validate && m.text))
    && (m.Begun? && s.checks.checkUtf8 ==> Utf8.Run(0, m.soFar) == Utf8.Ok(s.checks.utf8))
  }

  predicate Checking(s: Client) { s.checks.checkUtf8 && !s.checks.defeatCheck && s.opcode != PING }

  /** Verdict on the payload bytes of a frame that are still to be looked at. */
  function Verdict(s: Client, data: seq<byte>): Utf8.Check {
    if Checking(s) then Utf8.Run(s.checks.utf8, data) else Utf8.Ok(s.checks.utf8)
  }

  /** After a frame whose remaining payload was `data`. */
  predicate FrameDone(s: Client, data: seq<byte>, t: Client) {
    var v := Verdict(s, data);
    if v == Utf8.Bad || (Checking(s) && s.fin && v.state != 0) then t.outcome == Rejected
    else
      && t.outcome == Open && t.parse == ServerRx.New && t.buf == []
      && t.cap == s.cap && t.ws == s.ws && t.validate == s.validate
      && t.checks == s.checks.(utf8 := v.state)
      && Delivery.Delivered(t.log) == Delivery.Delivered(s.log) + Shown(s.opcode, s.fin, data, 0)
  }

  predicate DataOrPingPong(s: Client) { s.opcode != CLOSE && s.ws == Established && s.outcome == Open && s.cap > 0 }

  lemma HandedOver(s: Client, user: UserCode)
    requires Patient(user) && s.ws == Established
    ensures HandOver(s, user) == s.(buf := [], log := s.log + [ServerRx.Receive(s.opcode, s.fin, s.buf, s.len)])
  {
  }

  /** Spilling a data frame or a PING reports it or remembers it, checks its text, and empties the buffer. */
  lemma SpillEffect(s: Client, user: UserCode)
    requires Patient(user) && DataOrPingPong(s)
    ensures var t := Spill(s, user);
      if Verdict(s, s.buf) == Utf8.Bad || (Checking(s) && s.len == 0 && s.fin && Verdict(s, s.buf).state != 0)
      then t.outcome == Rejected
      else
        && t == s.(buf := [], checks := s.checks.(utf8 := Verdict(s, s.buf).state),
                   log := t.log, pingPending := t.pingPending, ping := t.ping)
        && t.log == if s.opcode == PING then s.log
                    else s.log + [ServerRx.Receive(s.opcode, s.fin, s.buf, s.len)]
  {
    hide Utf8.Run, HandOver, Patient;
    if s.opcode != PING {
      var v := Verdict(s, s.buf);
      if v.Ok? { HandedOver(s.(checks := s.checks.(utf8 := v.state)), user); }
    }
  }

  /** What a spill adds to what user code has seen. */
  lemma SpillShows(s: Client, user: UserCode)
    requires Patient(user) && DataOrPingPong(s)
    ensures var t := Spill(s, user);
      t.outcome == Open ==>
        Delivery.Delivered(t.log) == Delivery.Delivered(s.log) + Shown(s.opcode, s.fin, s.buf, s.len)
  {
    hide Spill, Utf8.Run, Delivery.Tag, Delivery.Delivered;
    SpillEffect(s, user);
    Delivery.DeliveredAppend(s.log, ServerRx.Receive(s.opcode, s.fin, s.buf, s.len));
    assert Delivery.Delivered(s.log) + [] == Delivery.Delivered(s.log);
  }

  lemma SpillWhole(s: Client, user: UserCode)
    requires Patient(user) && DataOrPingPong(s) && s.parse == ServerRx.New && s.len == 0
    ensures FrameDone(s, s.buf, Spill(s, user))
  {
    hide Spill, Utf8.Run, Shown;
    SpillEffect(s, user);
    SpillShows(s, user);
  }

  lemma ShownSplit(opcode: nat, fin: bool, a: seq<byte>, b: seq<byte>)
    ensures Shown(opcode, fin, a + b, 0) == Shown(opcode, fin, a, |b|) + Shown(opcode, fin, b, 0)
  {
  }

  lemma VerdictSplit(s: Client, a: seq<byte>, b: seq<byte>)
    ensures Verdict(s, a + b) == match Verdict(s, a)
      case Bad => Utf8.Bad
      case Ok(u) => Verdict(s.(checks := s.checks.(utf8 := u)), b)
  {
    hide Utf8.Run;
    Utf8.RunAppend(s.checks.utf8, a, b);
  }

  lemma {:induction false} PayloadRun(s: Client, data: seq<byte>, user: UserCode)
    requires Patient(user) && DataOrPingPong(s) && s.parse == ServerRx.Payload && !s.masked
    requires s.len == |data| > 0
    ensures FrameDone(s, s.buf + data, FeedAll(s, data, user))
    decreases |data|
  {
    hide Utf8.Run, Spill, FrameDone;
    var t := Store(s, data[0]);
    assert s.buf + data == t.buf + data[1..];
    var u := Feed(s, data[0], user);
    if t.len == 0 {
      var v := t.(parse := ServerRx.New);
      SpillWhole(v, user);
      FeedAllNothing(u, user);
      assert data[1..] == [] && t.buf + [] == t.buf;
      SameFrame(s, v, t.buf, u);
    } else if |t.buf| != t.cap {
      PayloadRun(t, data[1..], user);
      SameFrame(s, t, t.buf + data[1..], FeedAll(t, data[1..], user));
    } else {
      SpillEffect(t, user);
      if u.outcome == Open {
        assert u.buf + data[1..] == data[1..];
        PayloadRun(u, data[1..], user);
      } else {
        FeedAllDead(u, data[1..], user);
      }
      SpilledBefore(t, u, data[1..], FeedAll(u, data[1..], user), user);
      SameFrame(s, t, t.buf + data[1..], FeedAll(u, data[1..], user));
    }
  }

  /** A spill in the middle of a frame, and the rest of the frame. */
  lemma SpilledBefore(t: Client, u: Client, rest: seq<byte>, end: Client, user: UserCode)
    requires Patient(user) && DataOrPingPong(t) && u == Spill(t, user) && t.len == |rest| > 0
    requires if u.outcome == Open then FrameDone(u, rest, end) else end == u
    ensures FrameDone(t, t.buf + rest, end)
  {
    hide Utf8.Run, Spill, Shown, Delivery.Delivered;
    SpillEffect(t, user);
    SpillShows(t, user);
    ShownSplit(t.opcode, t.fin, t.buf, rest);
    VerdictSplit(t, t.buf, rest);
    Regroup(Delivery.Delivered(t.log), Shown(t.opcode, t.fin, t.buf, |rest|), Shown(t.opcode, t.fin, rest, 0));
  }

  /** The frame's length has arrived; header checks are behind. */
  lemma AfterLengthRun(s: Client, data: seq<byte>, user: UserCode)
    requires Patient(user) && DataOrPingPong(s) && !s.masked && s.buf == []
    ensures FrameDone(s, data, FeedAll(AfterLength(s, |data|, user), data, user))
  {
    hide Utf8.Run, Spill, FrameDone;
    if data == [] {
      var t := s.(len := 0, parse := ServerRx.New);
      SpillWhole(t, user);
      SameFrame(s, t, data, Spill(t, user));
    } else {
      var t := s.(len := |data|, parse := ServerRx.Payload);
      assert t.buf + data == data;
      PayloadRun(t, data, user);
      SameFrame(s, t, data, FeedAll(t, data, user));
    }
  }

  lemma SameFrame(s: Client, t: Client, data: seq<byte>, u: Client)
    requires t == s.(len := t.len, parse := t.parse, buf := t.buf, key := t.key) && FrameDone(t, data, u)
    ensures FrameDone(s, data, u)
  {
    hide Utf8.Run;
  }

  lemma {:induction false} Length64Run(s: Client, data: seq<byte>, user: UserCode)
    requires s.outcome == Open && s.parse.Len64? && 1 <= s.parse.k <= 7 && |data| == s.parse.k && !s.masked
    ensures FeedAll(s, data, user) == AfterLength(s, s.len + FromBigEndian(data), user)
    decreases |data|
  {
    hide AfterLength;
    var t := Feed(s, data[0], user);
    BigEndianHead(data);
    if |data| == 1 {
      assert FeedAll(t, data[1..], user) == t;
      assert FromBigEndian(data[1..]) == 0;
    } else {
      Length64Run(t, data[1..], user);
      LengthForgets(s, t, t.len + FromBigEndian(data[1..]), user);
    }
  }

  /** What follows the length does not depend on how it was collected. */
  lemma LengthForgets(s: Client, t: Client, len: nat, user: UserCode)
    requires t == s.(len := t.len, parse := t.parse) && !s.masked
    ensures AfterLength(s, len, user) == AfterLength(t, len, user)
  {
    hide Spill;
    assert s.(len := len, parse := ServerRx.New) == t.(len := len, parse := ServerRx.New);
    assert s.(len := len, parse := ServerRx.Payload) == t.(len := len, parse := ServerRx.Payload);
  }

  lemma {:induction false} LengthRun(s: Client, len: nat, user: UserCode)
    requires s.outcome == Open && s.parse == ServerRx.HdrLen && len < MAX_LENGTH
    requires IsControl(s.opcode) ==> len < 126
    ensures FeedAll(s, LengthField(len, 0), user) == AfterLength(s.(masked := false), len, user)
  {
    hide AfterLength, BigEndian;
    var field := LengthField(len, 0);
    var t := Feed(s, field[0], user);
    if len < 126 {
      assert FeedAll(t, field[1..], user) == t;
    } else if len < 65536 {
      Length16Field(t, len, field[1..], user);
      LengthForgets(s.(masked := false), t, len, user);
    } else {
      Length64Field(t, len, field[1..], user);
      LengthForgets(s.(masked := false), t, len, user);
    }
  }

  lemma Length16Field(t: Client, len: nat, data: seq<byte>, user: UserCode)
    requires t.outcome == Open && t.parse == ServerRx.Len16High && !t.masked
    requires len < 65536 && data == [len / 256, len % 256]
    ensures FeedAll(t, data, user) == AfterLength(t, len, user)
  {
    hide AfterLength;
    var u := Feed(t, data[0], user);
    assert data[1..] == [data[1]];
    FeedAllOne(u, data[1], user);
    LengthForgets(t, u, len, user);
  }

  lemma Length64Field(t: Client, len: nat, data: seq<byte>, user: UserCode)
    requires t.outcome == Open && t.parse == ServerRx.Len64(8) && !t.masked
    requires len < MAX_LENGTH && data == BigEndian(len, 8)
    ensures FeedAll(t, data, user) == AfterLength(t, len, user)
  {
    hide AfterLength;
    assert Power256(8) == ServerRx.SIZE_T && Power256(7) == 0x100_0000_0000_0000;
    BigEndianRoundTrip(len, 8);
    BigEndianHead(data);
    assert data[0] < 128;
    var u := Feed(t, data[0], user);
    Length64Run(u, data[1..], user);
    LengthForgets(t, u, len, user);
  }

  lemma OversizedControl(s: Client, len: nat, user: UserCode)
    requires s.outcome == Open && s.parse == ServerRx.HdrLen && 126 <= len < MAX_LENGTH && IsControl(s.opcode)
    ensures FeedAll(s, LengthField(len, 0), user).outcome == Rejected
  {
    var field := LengthField(len, 0);
    var t := Feed(s, field[0], user);
    assert t.outcome == Rejected;
    FeedAllDead(t, field[1..], user);
  }

  /** A frame whose first byte is faulty is rejected there and then. */
  lemma FaultyFrame(s: Client, f: WireFrame, user: UserCode)
    requires s.outcome == Open && s.parse == ServerRx.New && Sized(f) && FaultyFirst(s.checks, f.first)
    ensures FeedAll(s, BytesOf(f), user).outcome == Rejected
  {
    var t := Feed(s, f.first, user);
    FeedAllDead(t, BytesOf(f)[1..], user);
  }

  /** Otherwise its payload decides. */
  lemma WholeFrame(s: Client, f: WireFrame, user: UserCode)
    requires Patient(user) && s.outcome == Open && s.parse == ServerRx.New && s.buf == [] && s.cap > 0
    requires s.ws == Established
    requires Sized(f) && !FaultyFirst(s.checks, f.first) && f.Opcode() != CLOSE
    ensures var t := Feed(s, f.first, user);
      var u := FeedAll(s, BytesOf(f), user);
      if IsControl(f.Opcode()) && |f.payload| >= 126 then u.outcome == Rejected
      else FrameDone(t.(masked := false), f.payload, u)
  {
    hide FrameDone, AfterLength;
    var t := Feed(s, f.first, user);
    var rest := LengthField(|f.payload|, 0) + f.payload;
    assert BytesOf(f) == [f.first] + rest && BytesOf(f)[1..] == rest;
    FeedAllAppend(t, LengthField(|f.payload|, 0), f.payload, user);
    if IsControl(f.Opcode()) && |f.payload| >= 126 {
      OversizedControl(t, |f.payload|, user);
      FeedAllDead(FeedAll(t, LengthField(|f.payload|, 0), user), f.payload, user);
    } else {
      LengthRun(t, |f.payload|, user);
      AfterLengthRun(t.(masked := false), f.payload, user);
    }
  }

  lemma FirstByteVerdict(s: Client, m: Message, f: WireFrame)
    requires Between(s, m) && f.Opcode() != CLOSE
    ensures FaultyFirst(s.checks, f.first) <==>
      || !f.NoReservedBits()
      || (if IsControl(f.Opcode()) then (f.Opcode() != PING && f.Opcode() != PONG) || !f.Fin()
          else !Extend(m, f).Begun?)
  {
    assert IsControl(f.Opcode()) <==> f.Opcode() >= 8;
  }

  lemma ControlFrame(s: Client, m: Message, f: WireFrame, user: UserCode)
    requires Patient(user) && Between(s, m) && Sized(f) && GoodControl(f) && f.NoReservedBits()
    ensures Between(FeedAll(s, BytesOf(f), user), m) && FeedAll(s, BytesOf(f), user).validate == s.validate
    ensures Shows(s, f, FeedAll(s, BytesOf(f), user))
  {
    hide FeedAll, Utf8.Run, Shown, Delivery.Delivered;
    assert IsControl(f.Opcode());
    WholeFrame(s, f, user);
  }

  /** After the frame user code has seen its payload too. */
  predicate Shows(s: Client, f: WireFrame, t: Client) {
    Delivery.Delivered(t.log) == Delivery.Delivered(s.log) + Shown(f.Opcode(), f.Fin(), f.payload, 0)
  }

  /** The checker's verdict on the frame is the verdict on the message so far. */
  lemma TextVerdict(m: Message, u: byte, data: seq<byte>, fin: bool)
    requires m.Begun? ==> Utf8.Run(0, m.soFar) == Utf8.Ok(u)
    requires m.NoMessage? ==> u == 0
    ensures var all := (if m.Begun? then m.soFar else []) + data;
      && Utf8.Run(u, data) == Utf8.Run(0, all)
      && (Utf8.Run(0, all) == Utf8.Ok(0) <==> Utf8.Valid(all))
      && (Utf8.Run(0, all).Ok? <==> Utf8.Viable(all))
  {
    hide Utf8.Valid, Utf8.Viable;
    var before := if m.Begun? then m.soFar else [];
    Utf8.RunAppend(0, before, data);
    Utf8.CheckIsExact(before + data);
    Utf8.RejectsAtOnce(before + data);
  }

  /** The state after the first byte of a data frame. */
  lemma DataFirst(s: Client, m: Message, f: WireFrame, user: UserCode)
    requires Between(s, m) && !IsControl(f.Opcode()) && !FaultyFirst(s.checks, f.first)
    requires Extend(m, f).Begun?
    ensures var t := Feed(s, f.first, user).(masked := false);
      Checking(t) == (s.validate && Extend(m, f).text)
      && t.opcode == f.Opcode() && t.log == s.log && t.fin == f.Fin()
      && t.validate == s.validate && t.outcome == Open && t.cap == s.cap && t.ws == s.ws
      && t.checks.continuationPossible == t.checks.owedAFin == !f.Fin()
      && t.checks.checkUtf8 == (s.validate && Extend(m, f).text)
      && (t.checks.checkUtf8 ==>
            (m.Begun? ==> Utf8.Run(0, m.soFar) == Utf8.Ok(t.checks.utf8)) && (m.NoMessage? ==> t.checks.utf8 == 0))
  {
    hide Utf8.Run;
    assert f.Opcode() <= BINARY;
  }

  lemma DataFrame(s: Client, m: Message, f: WireFrame, user: UserCode)
    requires Patient(user) && Between(s, m) && Sized(f) && !IsControl(f.Opcode()) && !FaultyFirst(s.checks, f.first)
    requires Extend(m, f).Begun?
    ensures var u := FeedAll(s, BytesOf(f), user);
      if GoodText(Extend(m, f), f.Fin(), s.validate)
      then Between(u, Next(m, f)) && u.validate == s.validate && Shows(s, f, u)
      else u.outcome == Rejected
  {
    hide FeedAll, Utf8.Run, Utf8.Valid, Utf8.Viable, Feed, Shown, Delivery.Delivered;
    WholeFrame(s, f, user);
    DataFirst(s, m, f, user);
    var t := Feed(s, f.first, user).(masked := false);
    if Checking(t) {
      TextVerdict(m, t.checks.utf8, f.payload, f.Fin());
      assert [] + f.payload == f.payload;
    }
  }

  lemma FrameStep(s: Client, m: Message, f: WireFrame, user: UserCode)
    requires Patient(user) && Between(s, m) && Sized(f) && f.Opcode() != CLOSE
    ensures var u := FeedAll(s, BytesOf(f), user);
      if Allowed(m, f, s.validate) then Between(u, Next(m, f)) && u.validate == s.validate && Shows(s, f, u)
      else u.outcome == Rejected
  {
    hide FeedAll, GoodText, Between, FaultyFirst, Shows;
    FirstByteVerdict(s, m, f);
    BetweenParts(s, m);
    if FaultyFirst(s.checks, f.first) {
      FaultyFrame(s, f, user);
    } else if !IsControl(f.Opcode()) {
      DataFrame(s, m, f, user);
    } else if |f.payload| <= 125 {
      ControlFrame(s, m, f, user);
    } else {
      WholeFrame(s, f, user);
    }
  }

  lemma BetweenParts(s: Client, m: Message)
    requires Between(s, m)
    ensures s.outcome == Open && s.parse == ServerRx.New && s.buf == [] && s.cap > 0 && s.ws == Established
  {
  }

  /**
   * However its payload is fragmented, spilled or interrupted by PING and PONG, a frame sequence is
   * accepted exactly if it conforms: fragmentation grammar, control frame rules, and valid UTF-8 text.
   * User code then has every payload byte of it, in order, with its frame's opcode and FIN.
   */
  lemma {:induction false} AcceptsExactlyConformant(s: Client, m: Message, fs: seq<WireFrame>, user: UserCode)
    requires Patient(user) && Between(s, m) && NoClose(fs)
    ensures FeedAll(s, Stream(fs), user).outcome == Open <==> Conformant(m, fs, s.validate)
    ensures FeedAll(s, Stream(fs), user).outcome != Closed
    ensures FeedAll(s, Stream(fs), user).outcome == Open ==>
      Delivery.Delivered(FeedAll(s, Stream(fs), user).log) == Delivery.Delivered(s.log) + StreamShown(fs)
    decreases |fs|
  {
    hide Between, Allowed, Delivery.Delivered, Shown, BytesOf, FeedAll, Next;
    BetweenParts(s, m);
    if fs == [] {
      FeedAllNothing(s, user);
      assert Delivery.Delivered(s.log) + [] == Delivery.Delivered(s.log);
    } else {
      var t := FeedAll(s, BytesOf(fs[0]), user);
      FrameStep(s, m, fs[0], user);
      FeedAllAppend(s, BytesOf(fs[0]), Stream(fs[1..]), user);
      if Allowed(m, fs[0], s.validate) {
        AcceptsExactlyConformant(t, Next(m, fs[0]), fs[1..], user);
        Regroup(Delivery.Delivered(s.log), Shown(fs[0].Opcode(), fs[0].Fin(), fs[0].payload, 0), StreamShown(fs[1..]));
      } else {
        FeedAllDead(t, Stream(fs[1..]), user);
      }
    }
  }

  /** From a fresh connection on: nothing begun, nothing seen. */
  lemma FreshAcceptsExactlyConformant(cap: nat, validate: bool, fs: seq<WireFrame>, user: UserCode)
    requires cap > 0 && Patient(user) && NoClose(fs)
    ensures Between(Fresh(cap, validate), NoMessage)
    ensures var t := FeedAll(Fresh(cap, validate), Stream(fs), user);
      && (t.outcome == Open <==> Conformant(NoMessage, fs, validate))
      && (t.outcome == Open ==> Delivery.Delivered(t.log) == StreamShown(fs))
  {
    hide FeedAll;
    var s := Fresh(cap, validate);
    AcceptsExactlyConformant(s, NoMessage, fs, user);
    assert Delivery.Delivered(s.log) + StreamShown(fs) == StreamShown(fs);
  }

  // ---- Close frames: section 5.5.1 of RFC 6455 ----

  /** The part of a Close frame's payload that fits the receive buffer, which is all the client looks at. */
  function Seen(s: Client, payload: seq<byte>): seq<byte>
  {
    if |payload| < s.cap - |s.buf| then s.buf + payload
    else if s.cap <= |s.buf| then s.buf
    else s.buf + payload[..s.cap - |s.buf|]
  }

  predicate BadReason(s: Client, seen: seq<byte>) {
    s.validate && |seen| > 2 && Utf8.Run(s.checks.utf8, seen[2..]) == Utf8.Bad
  }

  predicate CloseDone(s: Client, seen: seq<byte>, t: Client) {
    if BadReason(s, seen) then t.outcome == Rejected && t.log == s.log
    else t.outcome == Closed && t.ws == ReturnedClose && t.log == s.log + [ServerRx.PeerClose(CheckedClose(seen))]
  }

  lemma SpillCloseDone(s: Client, user: UserCode)
    requires Patient(user) && s.opcode == CLOSE && s.ws == Established
    ensures CloseDone(s, s.buf, Spill(s, user))
  {
    hide Utf8.Run, CheckedClose;
  }

  lemma {:induction false} ClosePayloadRun(s: Client, data: seq<byte>, user: UserCode)
    requires Patient(user) && s.opcode == CLOSE && s.ws == Established && s.outcome == Open
    requires s.parse == ServerRx.Payload && !s.masked && |s.buf| < s.cap && s.len == |data| > 0
    ensures CloseDone(s, Seen(s, data), FeedAll(s, data, user))
    decreases |data|
  {
    hide Utf8.Run, CheckedClose, Spill;
    var t := Store(s, data[0]);
    var u := Feed(s, data[0], user);
    if t.len == 0 {
      SpillCloseDone(t.(parse := ServerRx.New), user);
      assert Seen(s, data) == t.buf;
      FeedAllDead(u, data[1..], user);
    } else if |t.buf| != t.cap {
      assert Seen(s, data) == Seen(t, data[1..]);
      ClosePayloadRun(t, data[1..], user);
    } else {
      SpillCloseDone(t, user);
      assert Seen(s, data) == t.buf;
      FeedAllDead(u, data[1..], user);
    }
  }

  lemma CloseAfterLength(s: Client, data: seq<byte>, user: UserCode)
    requires Patient(user) && s.opcode == CLOSE && s.ws == Established && s.outcome == Open
    requires !s.masked && s.buf == [] && s.cap > 0
    ensures CloseDone(s, Seen(s, data), FeedAll(AfterLength(s, |data|, user), data, user))
  {
    hide Utf8.Run, Spill, CheckedClose, FeedAll;
    if data == [] {
      FeedAllNothing(AfterLength(s, 0, user), user);
      SpillCloseDone(s.(len := 0, parse := ServerRx.New), user);
      assert Seen(s, data) == [];
    } else {
      var t := s.(len := |data|, parse := ServerRx.Payload);
      ClosePayloadRun(t, data, user);
      assert Seen(s, data) == Seen(t, data);
    }
  }

  /**
   * A Close frame ends the connection: as a fault if it is fragmented, has reserved bits, is longer than
   * 125 bytes or gives a reason that is no beginning of UTF-8 text, and otherwise by reporting it once.
   * A reason that stops inside a character is let through.
   */
  lemma CloseFrame(s: Client, m: Message, f: WireFrame, user: UserCode)
    requires Patient(user) && Between(s, m) && Sized(f) && f.Opcode() == CLOSE
    ensures var u := FeedAll(s, BytesOf(f), user);
      var seen := Seen(s, f.payload);
      if !f.NoReservedBits() || !f.Fin() || |f.payload| > 125 || (s.validate && |seen| > 2 && !Utf8.Viable(seen[2..]))
      then u.outcome == Rejected
      else u.outcome == Closed && u.ws == ReturnedClose && u.log == s.log + [ServerRx.PeerClose(CheckedClose(seen))]
  {
    hide Utf8.Run, Utf8.Viable, Spill, CheckedClose, AfterLength, FeedAll;
    if FaultyFirst(s.checks, f.first) {
      FaultyFrame(s, f, user);
    } else {
      var t := Feed(s, f.first, user);
      var field := LengthField(|f.payload|, 0);
      BytesSplit(s, f, user);
      FeedAllAppend(t, field, f.payload, user);
      if |f.payload| > 125 {
        OversizedControl(t, |f.payload|, user);
        FeedAllDead(FeedAll(t, field, user), f.payload, user);
      } else {
        LengthRun(t, |f.payload|, user);
        CloseAfterLength(t.(masked := false), f.payload, user);
        var seen := Seen(s, f.payload);
        if |seen| > 2 { Utf8.RejectsAtOnce(seen[2..]); }
      }
    }
  }

  /** An instance: 1000 and two of the three bytes of a character are taken for a good Close. */
  lemma CutReasonIsLetThrough(s: Client, m: Message, user: UserCode)
    requires Patient(user) && Between(s, m) && s.cap >= 4
    ensures var f := WireFrame(128 + CLOSE, [3, 232, 226, 130]);
      FeedAll(s, BytesOf(f), user).outcome == Closed && !Utf8.Valid(f.payload[2..])
  {
    hide FeedAll, CheckedClose;
    var f := WireFrame(128 + CLOSE, [3, 232, 226, 130]);
    CloseFrame(s, m, f, user);
    var reason := f.payload[2..];
    assert Seen(s, f.payload) == f.payload && reason == [226, 130];
    var t := Utf8.Lead(226).state;
    assert t != 0 && Utf8.Step(t, 130).Ok? && Utf8.Step(t, 130).state != 0;
    assert Utf8.Run(t, reason[1..]) == Utf8.Step(t, 130);
    Utf8.RejectsAtOnce(reason);
    Utf8.CheckIsExact(reason);
  }

  lemma BytesSplit(s: Client, f: WireFrame, user: UserCode)
    requires Sized(f)
    ensures FeedAll(s, BytesOf(f), user)
         == FeedAll(Feed(s, f.first, user), LengthField(|f.payload|, 0) + f.payload, user)
  {
    hide Feed;
    var rest := LengthField(|f.payload|, 0) + f.payload;
    assert BytesOf(f) == [f.first] + rest && BytesOf(f)[1..] == rest;
  }
}
