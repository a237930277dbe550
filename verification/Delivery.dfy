/** Every frame the sender can write reaches user code byte for byte, through any segmentation. */
module Delivery {
  import opened Bytes
  import opened Frames
  import opened ServerRx

  /** A delivered payload byte: its frame's opcode and FIN, and how many payload bytes of the frame follow it. */
  datatype Tagged = Tagged(b: byte, opcode: nat, fin: bool, after: nat)

  function Tag(data: seq<byte>, opcode: nat, fin: bool, left: nat): (r: seq<Tagged>)
    ensures |r| == |data|
  {
    seq(|data|, i requires 0 <= i < |data| => Tagged(data[i], opcode, fin, left + |data| - 1 - i))
  }

  function Delivered(log: seq<Event>): seq<Tagged> {
    if log == [] then []
    else Delivered(log[..|log| - 1]) + EventBytes(log[|log| - 1])
  }

  function EventBytes(e: Event): seq<Tagged> {
    if e.Receive? then Tag(e.data, e.opcode, e.fin, e.left) else []
  }

  predicate ReachesUser(opcode: nat) { opcode <= BINARY || opcode == PONG }

  /** What user code should see of one frame. */
  function FrameBytes(f: Frame): seq<Tagged> {
    if ReachesUser(f.opcode) then Tag(f.payload, f.opcode, f.fin, 0) else []
  }

  function StreamBytes(fs: seq<Frame>): seq<Tagged> {
    if fs == [] then [] else FrameBytes(fs[0]) + StreamBytes(fs[1..])
  }

  predicate CarriesData(opcode: nat) { opcode <= BINARY || opcode == PING || opcode == PONG }

  /** The frames a writer may send without starting a close. */
  predicate Sendable(f: Frame) {
    && CarriesData(f.opcode) && |f.payload| < MAX_LENGTH
    && (IsControl(f.opcode) ==> |f.payload| < 126)
  }

  predicate AllSendable(fs: seq<Frame>) {
    forall i | 0 <= i < |fs| :: Sendable(fs[i])
  }

  /** The frames on the wire, the i-th masked with the i-th key. */
  function Wire(fs: seq<Frame>, keys: seq<Key>): seq<byte>
    requires |fs| == |keys|
    requires AllSendable(fs)
  {
    if fs == [] then [] else EncodeMasked(fs[0], keys[0]) + Wire(fs[1..], keys[1..])
  }

  /** Between two bytes of an open, unfailed connection. */
  predicate Good(s: Rx) {
    && s.status == Running && !s.peer.unusable && s.peer.ws == Established
    && |s.buf| < s.cap
    && s.key.phase < 4
  }

  predicate Ready(s: Rx) { Good(s) && s.parse == New && s.buf == [] }

  /** Delivered bytes plus those waiting in the receive buffer. */
  function Progress(s: Rx): seq<Tagged> {
    Delivered(s.user.log) + if ReachesUser(s.hdr.opcode) then Tag(s.buf, s.hdr.opcode, s.hdr.fin, s.len) else []
  }

  /** The connection has failed because user code asked for it in its last callback. */
  predicate Rejected(t: Rx, cb: Callback) {
    t.status == Failed && cb(t.user.log).result < 0
  }

  lemma DeliveredAppend(log: seq<Event>, e: Event)
    ensures Delivered(log + [e]) == Delivered(log) + EventBytes(e)
  {
    assert (log + [e])[..|log|] == log;
  }

  /** The spill never loses or repeats a byte: data moves from the buffer to the log. */
  lemma SpillDelivers(s: Rx, cb: Callback)
    requires s.status == Running && !s.peer.unusable && s.peer.ws == Established && s.cap > 0 && s.key.phase < 4
    requires s.hdr.opcode != CLOSE && LegalOpcode(s.hdr.opcode)
    ensures var t := Spill(s, cb);
      && t.buf == [] && t.parse == s.parse && t.len == s.len && t.hdr == s.hdr && t.key == s.key && t.cap == s.cap
      && (Rejected(t, cb) || Good(t))
      && Delivered(t.user.log) == Progress(s)
  {
    if ReachesUser(s.hdr.opcode) && (s.buf != [] || s.hdr.opcode == PONG) {
      DeliveredAppend(s.user.log, Receive(s.hdr.opcode, s.hdr.fin, s.buf, s.len));
    }
  }

  function Expected(s: Rx, plain: seq<byte>): seq<Tagged> {
    if ReachesUser(s.hdr.opcode) then Tag(plain, s.hdr.opcode, s.hdr.fin, 0) else []
  }

  function One(s: Rx, b: byte): seq<Tagged>
    requires s.len > 0
  {
    if ReachesUser(s.hdr.opcode) then [Tagged(b, s.hdr.opcode, s.hdr.fin, s.len - 1)] else []
  }

  lemma StoreProgress(s: Rx, c: byte)
    requires s.len > 0
    ensures Progress(Store(s, c)) == Progress(s) + One(s, Unmasked(s.key, c))
  {
    var t := Store(s, c);
    if ReachesUser(s.hdr.opcode) {
      assert Tag(t.buf, s.hdr.opcode, s.hdr.fin, t.len)
          == Tag(s.buf, s.hdr.opcode, s.hdr.fin, s.len) + One(s, Unmasked(s.key, c));
    }
  }

  lemma ProgressEmpty(s: Rx)
    requires s.buf == []
    ensures Progress(s) == Delivered(s.user.log)
  {
  }

  /** One payload byte adds exactly its tagged self, whether or not it makes the buffer spill. */
  lemma PayloadStep(s: Rx, c: byte, cb: Callback)
    requires Good(s) && s.parse == Payload && s.len > 0 && CarriesData(s.hdr.opcode)
    ensures var t := Feed(s, c, cb);
      && t.parse == (if s.len == 1 then New else Payload)
      && t.len == s.len - 1 && t.hdr == s.hdr && t.key == Advance(s.key, 1)
      && (Rejected(t, cb) || Good(t)) && (t.len == 0 ==> t.buf == [])
    ensures Progress(Feed(s, c, cb)) == Progress(s) + One(s, Unmasked(s.key, c))
  {
    var t := Store(s, c);
    StoreProgress(s, c);
    var u := t.(parse := if t.len == 0 then New else Payload);
    assert Progress(u) == Progress(t);
    if t.len == 0 || |t.buf| == t.cap {
      SpillDelivers(u, cb);
      assert Feed(s, c, cb) == Spill(u, cb);
      ProgressEmpty(Spill(u, cb));
    } else {
      assert Feed(s, c, cb) == t;
    }
  }

  lemma {:induction false} FeedAllDead(s: Rx, data: seq<byte>, cb: Callback)
    requires s.status != Running
    ensures FeedAll(s, data, cb) == s
    decreases |data|
  {
    if data != [] { FeedAllDead(s, data[1..], cb); }
  }

  lemma TagCons(b: byte, plain: seq<byte>, opcode: nat, fin: bool)
    ensures Tag([b] + plain, opcode, fin, 0) == [Tagged(b, opcode, fin, |plain|)] + Tag(plain, opcode, fin, 0)
  {
  }

  lemma ExpectedCons(s: Rx, t: Rx, data: seq<byte>)
    requires data != [] && s.len == |data| && t.hdr == s.hdr && t.key == Advance(s.key, 1)
    ensures Expected(s, Plain(s.key, data)) == One(s, Unmasked(s.key, data[0])) + Expected(t, Plain(t.key, data[1..]))
  {
    PlainCons(s.key, data);
    TagCons(Unmasked(s.key, data[0]), Plain(t.key, data[1..]), s.hdr.opcode, s.hdr.fin);
  }

  lemma ExpectedNothing(s: Rx)
    ensures Expected(s, Plain(s.key, [])) == []
  {
  }

  /** Where a run of bytes leaves the connection: refused by user code, or open with all of it delivered. */
  predicate Delivers(t: Rx, all: seq<Tagged>, cb: Callback) {
    && Delivered(t.user.log) <= all
    && (Rejected(t, cb) || (Ready(t) && Delivered(t.user.log) == all))
  }

  lemma {:induction false} PayloadRun(s: Rx, data: seq<byte>, cb: Callback)
    requires Good(s) && s.parse == Payload && s.len == |data| > 0 && CarriesData(s.hdr.opcode)
    ensures Delivers(FeedAll(s, data, cb), Progress(s) + Expected(s, Plain(s.key, data)), cb)
    decreases |data|
  {
    hide Feed, Plain, Tag, Delivered, Advance, Unmasked, One;
    var t := Feed(s, data[0], cb);
    PayloadStep(s, data[0], cb);
    ExpectedCons(s, t, data);
    var rest := Expected(t, Plain(t.key, data[1..]));
    assert Progress(s) + Expected(s, Plain(s.key, data)) == Progress(t) + rest;
    if t.status == Failed {
      FeedAllDead(t, data[1..], cb);
    } else if s.len > 1 {
      PayloadRun(t, data[1..], cb);
    } else {
      assert data[1..] == [];
      ExpectedNothing(t);
      ProgressEmpty(t);
    }
  }

  function LengthState(s: Rx, parse: Parse, len: nat): Rx {
    s.(parse := parse, len := len, hdr := s.hdr.(masked := true))
  }

  lemma {:induction false} Length64Run(s: Rx, data: seq<byte>, cb: Callback)
    requires Good(s) && s.parse.Len64? && 1 <= s.parse.k <= 7 && |data| == s.parse.k && s.hdr.masked
    ensures FeedAll(s, data, cb) == s.(parse := KeyByte(0), len := s.len + FromBigEndian(data))
    decreases |data|
  {
    var t := Feed(s, data[0], cb);
    BigEndianHead(data);
    if |data| == 1 {
      assert FeedAll(t, data[1..], cb) == t;
      assert FromBigEndian(data[1..]) == 0;
    } else {
      Length64Run(t, data[1..], cb);
    }
  }

  lemma LengthRun(s: Rx, len: nat, cb: Callback)
    requires Good(s) && s.parse == HdrLen && len < MAX_LENGTH && (IsControl(s.hdr.opcode) ==> len < 126)
    ensures FeedAll(s, LengthField(len, 128), cb) == LengthState(s, KeyByte(0), len)
  {
    var field := LengthField(len, 128);
    var t := Feed(s, field[0], cb);
    if len < 126 {
      assert FeedAll(t, field[1..], cb) == t;
    } else if len < 65536 {
      var u := Feed(t, field[1], cb);
      assert FeedAll(t, field[1..], cb) == FeedAll(u, field[1..][1..], cb);
      assert field[1..][1..] == [field[2]];
      FeedAllOne(u, field[2], cb);
    } else {
      Length64Field(t, len, field[1..], cb);
    }
  }

  lemma Length64Field(t: Rx, len: nat, data: seq<byte>, cb: Callback)
    requires Good(t) && t.parse == Len64(8) && t.hdr.masked && len < MAX_LENGTH && data == BigEndian(len, 8)
    ensures FeedAll(t, data, cb) == t.(parse := KeyByte(0), len := len)
  {
    assert Power256(8) == SIZE_T && Power256(7) == 0x100_0000_0000_0000;
    BigEndianRoundTrip(len, 8);
    BigEndianHead(data);
    assert data[0] < 128;
    Length64Run(Feed(t, data[0], cb), data[1..], cb);
  }

  predicate AllZero(key: Key) { key == [0, 0, 0, 0] }

  /** After the whole header of a masked frame. */
  function KeyedState(s: Rx, key: Key): Rx {
    s.(parse := Payload, key := Keying(s.key.zero && AllZero(key), key, 0))
  }

  lemma KeyRun(s: Rx, key: Key, cb: Callback)
    requires Good(s) && s.parse == KeyByte(0)
    ensures FeedAll(s, key, cb) ==
      if s.len == 0 then Spill(KeyedState(s, key).(parse := New), cb) else KeyedState(s, key)
  {
    var s1 := Feed(s, key[0], cb);
    var s2 := Feed(s1, key[1], cb);
    var s3 := Feed(s2, key[2], cb);
    var s4 := Feed(s3, key[3], cb);
    assert key == [key[0]] + [key[1]] + [key[2]] + [key[3]];
    assert s4 == if s.len == 0 then Spill(KeyedState(s, key).(parse := New), cb) else KeyedState(s, key) by {
      assert s.key.mask[0 := key[0]][1 := key[1]][2 := key[2]][3 := key[3]] == key;
    }
    FeedAllOne(s, key[0], cb);
    FeedAllOne(s1, key[1], cb);
    FeedAllOne(s2, key[2], cb);
    FeedAllOne(s3, key[3], cb);
    FeedAllAppend(s, [key[0]], [key[1]], cb);
    FeedAllAppend(s, [key[0]] + [key[1]], [key[2]], cb);
    FeedAllAppend(s, [key[0]] + [key[1]] + [key[2]], [key[3]], cb);
  }

  lemma PlainOfMasked(key: Key, payload: seq<byte>)
    ensures Plain(Keying(AllZero(key), key, 0), Mask(payload, key, 0)) == payload
  {
    MaskTwice(payload, key, 0);
    if AllZero(key) {
      forall i | 0 <= i < |payload| ensures Mask(payload, key, 0)[i] == payload[i] {
        XorZero(payload[i]);
      }
    }
  }

  lemma HeaderRun(s: Rx, f: Frame, key: Key, cb: Callback) returns (t: Rx)
    requires Ready(s) && Sendable(f)
    ensures t == FeedAll(s, [FirstByte(f.opcode, f.fin)] + LengthField(|f.payload|, 128), cb)
    ensures Good(t) && t.parse == KeyByte(0) && t.buf == [] && t.len == |f.payload| && t.user == s.user
    ensures t.hdr.opcode == f.opcode && t.hdr.fin == f.fin && t.key.zero
  {
    var c := FirstByte(f.opcode, f.fin);
    var u := Feed(s, c, cb);
    assert c % 16 == f.opcode && (c / 128 == 1 <==> f.fin);
    FeedAllOne(s, c, cb);
    FeedAllAppend(s, [c], LengthField(|f.payload|, 128), cb);
    LengthRun(u, |f.payload|, cb);
    t := FeedAll(u, LengthField(|f.payload|, 128), cb);
  }

  /** A whole masked frame: user code gets its payload, unmasked, in order, with its opcode and FIN. */
  lemma FrameRun(s: Rx, f: Frame, key: Key, cb: Callback)
    requires Ready(s) && Sendable(f)
    ensures Delivers(FeedAll(s, EncodeMasked(f, key), cb), Delivered(s.user.log) + FrameBytes(f), cb)
  {
    var head := [FirstByte(f.opcode, f.fin)] + LengthField(|f.payload|, 128);
    var body := Mask(f.payload, key, 0);
    var t := HeaderRun(s, f, key, cb);
    FeedAllAppend(s, head, key, cb);
    FeedAllAppend(s, head + key, body, cb);
    assert EncodeMasked(f, key) == head + key + body;
    KeyRun(t, key, cb);
    var u := KeyedState(t, key);
    ProgressEmpty(u);
    if f.payload == [] {
      SpillDelivers(u.(parse := New), cb);
      var v := Spill(u.(parse := New), cb);
      assert FeedAll(v, body, cb) == v;
      ProgressEmpty(u.(parse := New));
      assert FrameBytes(f) == [];
    } else {
      PlainOfMasked(key, f.payload);
      PayloadRun(u, body, cb);
    }
  }

  lemma {:induction false} LogGrows(s: Rx, data: seq<byte>, cb: Callback)
    ensures s.user.log <= FeedAll(s, data, cb).user.log
    decreases |data|
  {
    if data != [] {
      FeedLogGrows(s, data[0], cb);
      LogGrows(Feed(s, data[0], cb), data[1..], cb);
    }
  }

  lemma {:induction false} DeliveredMonotone(a: seq<Event>, b: seq<Event>)
    requires a <= b
    ensures Delivered(a) <= Delivered(b)
    decreases |b|
  {
    if |a| < |b| {
      var init := b[..|b| - 1];
      DeliveredMonotone(a, init);
      assert Delivered(b) == Delivered(init) + EventBytes(b[|b| - 1]);
    } else {
      assert a == b;
    }
  }

  lemma InsideFrame(s: Rx, part: seq<byte>, whole: seq<byte>, cb: Callback)
    requires part <= whole
    ensures Delivered(FeedAll(s, part, cb).user.log) <= Delivered(FeedAll(s, whole, cb).user.log)
    ensures FeedAll(s, part, cb).status != Running ==> FeedAll(s, whole, cb) == FeedAll(s, part, cb)
  {
    var tail := whole[|part|..];
    assert whole == part + tail;
    FeedAllAppend(s, part, tail, cb);
    if FeedAll(s, part, cb).status != Running {
      FeedAllDead(FeedAll(s, part, cb), tail, cb);
    }
    LogGrows(FeedAll(s, part, cb), tail, cb);
    DeliveredMonotone(FeedAll(s, part, cb).user.log, FeedAll(s, whole, cb).user.log);
  }

  lemma SpillLogGrows(s: Rx, cb: Callback)
    ensures s.user.log <= Spill(s, cb).user.log
  {
  }

  lemma FeedLogGrows(s: Rx, c: byte, cb: Callback)
    ensures s.user.log <= Feed(s, c, cb).user.log
  {
    if s.status == Running && !s.peer.unusable {
      match s.parse
      case HdrLen =>
        var t := s.(hdr := s.hdr.(masked := c / 128 == 1));
        SpillLogGrows(t.(len := 0, parse := New), cb);
      case KeyByte(i) =>
        if i == 3 {
          var t := s.(key := s.key.(mask := s.key.mask[i := c], zero := s.key.zero && c == 0, phase := 0));
          SpillLogGrows(t.(parse := New), cb);
        }
      case Payload =>
        SpillLogGrows(Store(s, c), cb);
        SpillLogGrows(Store(s, c).(parse := New), cb);
      case _ =>
    }
  }

  lemma ConcatPrefix(a: seq<Tagged>, x: seq<Tagged>, y: seq<Tagged>, z: seq<Tagged>)
    requires z <= a + x
    ensures z <= a + (x + y)
  {
    assert a + (x + y) == (a + x) + y;
  }

  predicate Outcome(t: Rx, all: seq<Tagged>, complete: bool, cb: Callback) {
    && Delivered(t.user.log) <= all
    && (t.status == Running || Rejected(t, cb))
    && (complete ==> Delivers(t, all, cb))
  }

  lemma BeyondFrame(s: Rx, f: Frame, key: Key, rest: seq<byte>, later: seq<Tagged>, complete: bool, cb: Callback)
    requires Ready(s) && Sendable(f)
    requires var t := FeedAll(s, EncodeMasked(f, key), cb);
      Ready(t) ==> Outcome(FeedAll(t, rest, cb), Delivered(t.user.log) + later, complete, cb)
    ensures Outcome(FeedAll(s, EncodeMasked(f, key) + rest, cb),
                    Delivered(s.user.log) + (FrameBytes(f) + later), complete, cb)
  {
    FrameRun(s, f, key, cb);
    FeedAllAppend(s, EncodeMasked(f, key), rest, cb);
    AfterOutcome(FeedAll(s, EncodeMasked(f, key), cb), Delivered(s.user.log), FrameBytes(f), rest, later, complete, cb);
  }

  lemma AfterOutcome(t: Rx, base: seq<Tagged>, mine: seq<Tagged>, rest: seq<byte>, later: seq<Tagged>,
                     complete: bool, cb: Callback)
    requires Delivers(t, base + mine, cb)
    requires Ready(t) ==> Outcome(FeedAll(t, rest, cb), Delivered(t.user.log) + later, complete, cb)
    ensures Outcome(FeedAll(t, rest, cb), base + (mine + later), complete, cb)
  {
    if t.status == Failed {
      FeedAllDead(t, rest, cb);
      ConcatPrefix(base, mine, later, Delivered(t.user.log));
    } else {
      assert base + (mine + later) == Delivered(t.user.log) + later;
    }
  }

  /**
   * For any prefix of the wire, what user code has got is a prefix of what was written; once the whole
   * wire has been consumed on an open connection it is all of it.
   */
  lemma {:induction false} PrefixDelivered(s: Rx, fs: seq<Frame>, keys: seq<Key>, wire: seq<byte>, cb: Callback)
    requires Ready(s) && |fs| == |keys| && AllSendable(fs)
    requires wire <= Wire(fs, keys)
    ensures Outcome(FeedAll(s, wire, cb), Delivered(s.user.log) + StreamBytes(fs), wire == Wire(fs, keys), cb)
    decreases |fs|
  {
    if fs == [] {
      assert FeedAll(s, wire, cb) == s;
      assert Delivered(s.user.log) + StreamBytes(fs) == Delivered(s.user.log);
    } else {
      var first, tail := EncodeMasked(fs[0], keys[0]), Wire(fs[1..], keys[1..]);
      if |wire| < |first| {
        assert wire <= first;
        InsideFrame(s, wire, first, cb);
        FrameRun(s, fs[0], keys[0], cb);
        ConcatPrefix(Delivered(s.user.log), FrameBytes(fs[0]), StreamBytes(fs[1..]),
                     Delivered(FeedAll(s, wire, cb).user.log));
      } else {
        var rest := wire[|first|..];
        assert wire == first + rest && rest <= tail && (wire == first + tail <==> rest == tail);
        var t := FeedAll(s, first, cb);
        if Ready(t) {
          PrefixDelivered(t, fs[1..], keys[1..], rest, cb);
        }
        BeyondFrame(s, fs[0], keys[0], rest, StreamBytes(fs[1..]), rest == tail, cb);
      }
    }
  }

  /** User code that never ends the connection. */
  ghost predicate Patient(cb: Callback) { forall log :: cb(log).result >= 0 }

  /** The server asks for no order among frames: any sequence of sendable ones is delivered whole. */
  lemma AnyOrderDelivered(s: Rx, fs: seq<Frame>, keys: seq<Key>, cb: Callback)
    requires Ready(s) && |fs| == |keys| && AllSendable(fs) && Patient(cb)
    ensures var t := FeedAll(s, Wire(fs, keys), cb);
      Ready(t) && Delivered(t.user.log) == Delivered(s.user.log) + StreamBytes(fs)
  {
    hide FeedAll, Wire, Ready;
    PrefixDelivered(s, fs, keys, Wire(fs, keys), cb);
    var t := FeedAll(s, Wire(fs, keys), cb);
    assert cb(t.user.log).result >= 0;
  }

  /** A continuation of nothing, a text left open and a binary frame inside it: the server delivers all three. */
  lemma DisorderDelivered(s: Rx, keys: seq<Key>, cb: Callback)
    requires Ready(s) && |keys| == 3 && Patient(cb)
    ensures var fs := [Frame(CONTINUATION, true, [1]), Frame(TEXT, false, [2]), Frame(BINARY, true, [3])];
      && AllSendable(fs)
      && Delivered(FeedAll(s, Wire(fs, keys), cb).user.log) == Delivered(s.user.log)
         + [Tagged(1, CONTINUATION, true, 0), Tagged(2, TEXT, false, 0), Tagged(3, BINARY, true, 0)]
  {
    hide FeedAll, Wire, Ready, Delivered;
    var a, b, c := Frame(CONTINUATION, true, [1]), Frame(TEXT, false, [2]), Frame(BINARY, true, [3]);
    var fs := [a, b, c];
    assert forall i | 0 <= i < 3 :: CarriesData(fs[i].opcode) && !IsControl(fs[i].opcode);
    AnyOrderDelivered(s, fs, keys, cb);
    assert fs[1..] == [b, c] && fs[1..][1..] == [c] && fs[1..][1..][1..] == [];
    assert StreamBytes([c]) == FrameBytes(c) + StreamBytes([]);
    assert StreamBytes([b, c]) == FrameBytes(b) + StreamBytes([c]);
    assert StreamBytes(fs) == FrameBytes(a) + StreamBytes([b, c]);
    assert FrameBytes(a) == [Tagged(1, CONTINUATION, true, 0)];
    assert FrameBytes(b) == [Tagged(2, TEXT, false, 0)];
    assert FrameBytes(c) == [Tagged(3, BINARY, true, 0)];
  }
}
