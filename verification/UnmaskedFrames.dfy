/**
 * The server does not insist on masking, as section 5.1 of RFC 6455 wants it to: an unmasked frame is delivered
 * like a masked one, except that an extended length of zero sends it astray.
 */
module UnmaskedFrames {
  import opened Bytes
  import opened Frames
  import opened ServerRx
  import opened Delivery

  lemma {:induction false} Length64Plain(s: Rx, data: seq<byte>, cb: Callback)
    requires Good(s) && s.parse.Len64? && 1 <= s.parse.k <= 7 && |data| == s.parse.k && !s.hdr.masked
    ensures FeedAll(s, data, cb) == s.(parse := Payload, len := s.len + FromBigEndian(data))
    decreases |data|
  {
    var t := Feed(s, data[0], cb);
    BigEndianHead(data);
    if |data| == 1 {
      assert FeedAll(t, data[1..], cb) == t;
      assert FromBigEndian(data[1..]) == 0;
    } else {
      Length64Plain(t, data[1..], cb);
    }
  }

  lemma Length64Field(t: Rx, len: nat, data: seq<byte>, cb: Callback)
    requires Good(t) && t.parse == Len64(8) && !t.hdr.masked && len < MAX_LENGTH && data == BigEndian(len, 8)
    ensures FeedAll(t, data, cb) == t.(parse := Payload, len := len)
  {
    assert Power256(8) == SIZE_T && Power256(7) == 0x100_0000_0000_0000;
    BigEndianRoundTrip(len, 8);
    BigEndianHead(data);
    assert data[0] < 128;
    Length64Plain(Feed(t, data[0], cb), data[1..], cb);
  }

  lemma LengthPlain(s: Rx, len: nat, cb: Callback)
    requires Good(s) && s.parse == HdrLen && 0 < len < MAX_LENGTH && (IsControl(s.hdr.opcode) ==> len < 126)
    ensures FeedAll(s, LengthField(len, 0), cb) == s.(parse := Payload, len := len, hdr := s.hdr.(masked := false))
  {
    hide Spill, FeedAll, BigEndian;
    var field := LengthField(len, 0);
    var t := Feed(s, field[0], cb);
    FeedAllOne(s, field[0], cb);
    if len < 126 {
      assert field == [field[0]];
    } else if len < 65536 {
      FeedAllOne(t, field[1], cb);
      FeedAllOne(Feed(t, field[1], cb), field[2], cb);
      FeedAllAppend(s, [field[0]], [field[1]], cb);
      FeedAllAppend(s, [field[0]] + [field[1]], [field[2]], cb);
      assert field == [field[0]] + [field[1]] + [field[2]];
    } else {
      Length64Field(t, len, field[1..], cb);
      FeedAllAppend(s, [field[0]], field[1..], cb);
      assert field == [field[0]] + field[1..];
    }
  }

  /** Every unmasked frame in shortest form is delivered, whatever the standard says. */
  lemma UnmaskedIsDelivered(s: Rx, f: Frame, cb: Callback)
    requires Ready(s) && Sendable(f)
    ensures Delivers(FeedAll(s, Encode(f), cb), Delivered(s.user.log) + FrameBytes(f), cb)
  {
    var c := FirstByte(f.opcode, f.fin);
    var field := LengthField(|f.payload|, 0);
    var t := Feed(s, c, cb);
    HeaderPlain(s, f, cb);
    hide Feed, FeedAll, LengthField, Delivers, HeaderRead;
    FeedAllOne(s, c, cb);
    FeedAllAppend(s, [c], field + f.payload, cb);
    assert Encode(f) == [c] + (field + f.payload);
    if f.payload == [] {
      assert field + f.payload == field;
      EmptyPlain(t, f, cb);
    } else {
      FeedAllAppend(t, field, f.payload, cb);
      BodyPlain(t, f, cb);
    }
  }

  /** Behind the first byte of frame f. */
  predicate HeaderRead(t: Rx, f: Frame) {
    Good(t) && t.parse == HdrLen && t.buf == [] && t.key.zero && t.hdr.opcode == f.opcode && t.hdr.fin == f.fin
  }

  lemma HeaderPlain(s: Rx, f: Frame, cb: Callback)
    requires Ready(s) && Sendable(f)
    ensures var t := Feed(s, FirstByte(f.opcode, f.fin), cb); HeaderRead(t, f) && t.user == s.user
  {
    var c := FirstByte(f.opcode, f.fin);
    assert c % 16 == f.opcode && (c / 128 == 1 <==> f.fin);
  }

  lemma BodyPlain(t: Rx, f: Frame, cb: Callback)
    requires HeaderRead(t, f) && Sendable(f) && f.payload != []
    ensures Delivers(FeedAll(FeedAll(t, LengthField(|f.payload|, 0), cb), f.payload, cb),
                     Delivered(t.user.log) + FrameBytes(f), cb)
  {
    hide FeedAll, LengthField;
    LengthPlain(t, |f.payload|, cb);
    var u := t.(parse := Payload, len := |f.payload|, hdr := t.hdr.(masked := false));
    ProgressEmpty(u);
    PayloadRun(u, f.payload, cb);
  }

  lemma EmptyPlain(t: Rx, f: Frame, cb: Callback)
    requires HeaderRead(t, f) && Sendable(f) && f.payload == []
    ensures Delivers(FeedAll(t, LengthField(0, 0), cb), Delivered(t.user.log) + FrameBytes(f), cb)
  {
    var u := t.(len := 0, parse := New, hdr := t.hdr.(masked := false));
    SpillDelivers(u, cb);
    ProgressEmpty(u);
    assert FrameBytes(f) == [];
    FeedAllOne(t, 0, cb);
    assert LengthField(0, 0) == [0];
    hide Spill;
  }

  /** A zero length in the 16-bit form leaves the server waiting for a payload, where 0 itself ends the frame. */
  lemma ZeroLengthSentAstray(s: Rx, cb: Callback)
    requires Good(s) && s.parse == HdrLen && s.buf == [] && !IsControl(s.hdr.opcode)
    ensures var t := FeedAll(s, [126, 0, 0], cb); t.status == Running && t.parse == Payload && t.len == 0
    ensures forall c: byte :: Store(FeedAll(s, [126, 0, 0], cb), c).len == SIZE_T - 1
  {
    hide Spill, FeedAll;
    var s1 := Feed(s, 126, cb);
    var s2 := Feed(s1, 0, cb);
    FeedAllOne(s, 126, cb);
    FeedAllOne(s1, 0, cb);
    FeedAllOne(s2, 0, cb);
    FeedAllAppend(s, [126], [0], cb);
    FeedAllAppend(s, [126] + [0], [0], cb);
    assert [126, 0, 0] == [126] + [0] + [0];
  }

  /** After an unmasked extended length the server knows where the frame ends exactly if the length is not zero. */
  lemma ExtendedLengthExactly(s: Rx, c: byte, cb: Callback)
    requires Good(s) && !s.hdr.masked && (s.parse == Len16Low || s.parse == Len64(1))
    ensures var t := Feed(s, c, cb);
      t.parse == Payload && (t.len == 0 <==> s.len == 0 && c == 0)
  {
  }
}
