/** What the two frame parsers refuse, keep and report, byte by byte, in the terms of section 5.2 of RFC 6455. */
module Verdicts {
  import opened Bytes
  import opened Frames
  import ServerRx
  import ClientRx
  import Conformance
  import Utf8

  // ---- the server ----

  /** The first byte: FIN, three reserved bits and the opcode; exactly the reserved opcodes fail the connection. */
  lemma ServerFirstByte(s: ServerRx.Rx, c: byte, cb: ServerRx.Callback)
    requires s.status == ServerRx.Running && !s.peer.unusable && s.parse == ServerRx.New
    ensures var t := ServerRx.Feed(s, c, cb);
      && t.hdr.opcode == c % 16 && (t.hdr.fin <==> c >= 128) && t.hdr.rsv == c / 16 % 8 * 16
      && (t.hdr.binary <==> c % 16 == 2 || (c % 16 != 1 && s.hdr.binary))
      && (t.status == ServerRx.Failed <==> 3 <= c % 16 <= 7 || 11 <= c % 16)
      && (t.status == ServerRx.Running ==> t.parse == ServerRx.HdrLen)
      && t.buf == s.buf && t.user == s.user && t.peer == s.peer
  {
  }

  /** A control frame with an extended length fails the connection, and so does a length of 2^63 or more. */
  lemma ServerLengthFaults(s: ServerRx.Rx, c: byte, cb: ServerRx.Callback)
    requires s.status == ServerRx.Running && !s.peer.unusable
    ensures s.parse == ServerRx.HdrLen && c % 128 >= 126 ==>
      (ServerRx.Feed(s, c, cb).status == ServerRx.Failed <==> s.hdr.opcode / 8 % 2 == 1)
    ensures s.parse == ServerRx.Len64(8) ==>
      (ServerRx.Feed(s, c, cb).status == ServerRx.Failed <==> c >= 128)
    ensures (s.parse == ServerRx.Len16High || s.parse == ServerRx.Len16Low
             || (s.parse.Len64? && s.parse.k < 8) || (s.parse.KeyByte? && s.parse.i < 3)) ==>
      ServerRx.Feed(s, c, cb).status == ServerRx.Running
  {
  }

  /** A payload byte is stored as it came if the key is zero or there is none, and else exclusive-or its key byte. */
  lemma ServerStores(s: ServerRx.Rx, c: byte)
    ensures var t := ServerRx.Store(s, c);
      && t.buf == s.buf + [if s.key.zero then c else Xor(c, s.key.mask[s.key.phase % 4])]
      && (s.len > 0 ==> t.len == s.len - 1)
      && (!s.key.zero ==> t.key.phase == (s.key.phase + 1) % 4)
  {
  }

  /** User code ends the connection by a negative result, and no other. */
  lemma ServerUserDecides(s: ServerRx.Rx, cb: ServerRx.Callback)
    requires s.status == ServerRx.Running && s.peer.ws == Established
    requires s.hdr.opcode <= 2 || s.hdr.opcode == 10
    ensures var t := ServerRx.Spill(s, cb);
      var e := ServerRx.Receive(s.hdr.opcode, s.hdr.fin, s.buf, s.len);
      if s.buf == [] && s.hdr.opcode != 10 then t == s
      else
        && t.user.log == s.user.log + [e] && t.buf == []
        && (t.status == ServerRx.Failed <==> cb(s.user.log + [e]).result < 0)
  {
    hide ServerRx.ApplyFlow, ServerRx.Requests;
  }

  /** Once closing has begun user code gets no more data. */
  lemma ServerKeepsQuiet(s: ServerRx.Rx, cb: ServerRx.Callback)
    requires s.peer.ws == ReturnedClose || s.peer.ws == AwaitingCloseAck
    requires s.hdr.opcode != 8
    ensures ServerRx.Spill(s, cb).user == s.user
  {
  }

  /** A Close is reported to user code with its payload while the connection is open and nothing is kept back. */
  lemma ServerReportsClose(s: ServerRx.Rx, cb: ServerRx.Callback)
    requires s.status == ServerRx.Running && s.peer.ws == Established && s.hdr.opcode == 8
    ensures var t := ServerRx.Spill(s, cb);
      var e := ServerRx.PeerClose(s.buf);
      if s.peer.txPending then t.user == s.user && t.status == ServerRx.Failed && t.peer.unusable
      else
        && t.user.log == s.user.log + [e]
        && (t.status == ServerRx.Failed <==> cb(s.user.log + [e]).result != 0)
        && (t.status == ServerRx.Running ==> t.peer.ws == ReturnedClose && t.peer.payloadIsClose)
  {
    hide ServerRx.ApplyFlow, ServerRx.Requests;
  }

  /**
   * The server does not insist on masking: an unmasked short frame of data reaches user code like a masked one.
   * Section 5.1 of RFC 6455 wants the connection closed.
   */
  lemma UnmaskedIsTaken(s: ServerRx.Rx, c: byte, b: byte, cb: ServerRx.Callback)
    requires s.status == ServerRx.Running && !s.peer.unusable && s.parse == ServerRx.New && s.buf == [] && s.cap > 0
    requires s.peer.ws == Established && c % 16 <= 2
    ensures ServerRx.FeedAll(s, [c, 1, b], cb).user.log == s.user.log + [ServerRx.Receive(c % 16, c >= 128, [b], 0)]
  {
    var s1 := ServerRx.Feed(s, c, cb);
    var s2 := ServerRx.Feed(s1, 1, cb);
    var s3 := ServerRx.Feed(s2, b, cb);
    assert s2.parse == ServerRx.Payload && s2.len == 1 && s2.key.zero && s2.buf + [b] == [b];
    hide ServerRx.Feed, ServerRx.Requests, ServerRx.ApplyFlow;
    assert [c, 1, b][1..] == [1, b] && [1, b][1..] == [b] && [b][1..] == [];
    assert ServerRx.FeedAll(s2, [b], cb) == ServerRx.FeedAll(s3, [], cb);
    assert ServerRx.FeedAll(s1, [1, b], cb) == ServerRx.FeedAll(s2, [b], cb);
  }

  // ---- the client ----

  /** Lengths: as on the server, and a zero length ends the frame. */
  lemma ClientLengthFaults(s: ClientRx.Client, c: byte, user: ClientRx.UserCode)
    requires s.outcome == ClientRx.Open
    ensures s.parse == ServerRx.HdrLen && c % 128 >= 126 ==>
      (ClientRx.Feed(s, c, user).outcome == ClientRx.Rejected <==> s.opcode / 8 % 2 == 1)
    ensures s.parse == ServerRx.Len64(8) ==>
      (ClientRx.Feed(s, c, user).outcome == ClientRx.Rejected <==> c >= 128)
  {
  }

  /** A masked frame's payload is unmasked with its key, unless that is known to be zero. */
  lemma ClientStores(s: ClientRx.Client, c: byte)
    ensures var t := ClientRx.Store(s, c);
      && t.buf == s.buf + [if s.masked && !s.key.zero then Xor(c, s.key.mask[s.key.phase % 4]) else c]
      && (s.len > 0 ==> t.len == s.len - 1)
      && t.key == (if s.masked && !s.key.zero then s.key.(phase := (s.key.phase + 1) % 4) else s.key)
  {
  }

  /** Any result but 0 ends the connection, and 0 keeps it, if the text was fine. */
  lemma ClientUserDecides(s: ClientRx.Client, user: ClientRx.UserCode)
    requires s.outcome == ClientRx.Open && s.ws == Established && s.opcode != 8 && s.opcode != 9
    requires !s.checks.checkUtf8
    ensures var t := ClientRx.Spill(s, user);
      var log := s.log + [ServerRx.Receive(s.opcode, s.fin, s.buf, s.len)];
      t.log == log && t.outcome == if user(log) != 0 then ClientRx.Closed else ClientRx.Open
  {
    hide Utf8.Run, ClientRx.SpillClose, ClientRx.SpillPing;
  }

  /** Codes 1000 to 1003, 1007 to 1011, and 3000 up may be used by a peer. */
  predicate MayBeUsed(code: nat) { code in {1000, 1001, 1002, 1003, 1007, 1008, 1009, 1010, 1011} || code >= 3000 }

  function CodeOf(reason: seq<byte>): nat
    requires |reason| >= 2
  {
    reason[0] as int * 256 + reason[1]
  }

  /** What is reported and parroted of a Close: its bytes, with a code that may not be used replaced by 1002. */
  lemma CloseCodePassesExactly(buf: seq<byte>)
    ensures var told := ClientRx.CheckedClose(buf);
      && |told| == |buf| && (|buf| >= 2 ==> told[2..] == buf[2..])
      && (told == buf <==> |buf| < 2 || MayBeUsed(CodeOf(buf)))
      && (|buf| >= 2 && !MayBeUsed(CodeOf(buf)) ==> told[..2] == [3, 234])
      && 3 * 256 + 234 == 1002
  {
  }

  /** So a good Close is reported once, and as it came exactly if its code may be used. */
  lemma CloseReported(s: ClientRx.Client, m: Conformance.Message, f: Conformance.WireFrame, user: ClientRx.UserCode)
    requires Conformance.Patient(user) && Conformance.Between(s, m) && Conformance.Sized(f) && f.first == 136
    requires |f.payload| <= 125 && |f.payload| < s.cap && (|f.payload| > 2 ==> Utf8.Viable(f.payload[2..]))
    ensures var t := ClientRx.FeedAll(s, Conformance.BytesOf(f), user);
      && t.outcome == ClientRx.Closed && |t.log| == |s.log| + 1 && s.log <= t.log && t.log[|s.log|].PeerClose?
      && var told := t.log[|s.log|].data;
         && |told| == |f.payload| && (|told| >= 2 ==> told[2..] == f.payload[2..])
         && (told == f.payload <==> |f.payload| < 2 || MayBeUsed(CodeOf(f.payload)))
         && (|told| >= 2 && !MayBeUsed(CodeOf(f.payload)) ==> told[..2] == [3, 234])
  {
    Conformance.CloseFrame(s, m, f, user);
    assert Conformance.Seen(s, f.payload) == f.payload by { assert [] + f.payload == f.payload; }
    CloseCodePassesExactly(f.payload);
    hide ClientRx.FeedAll, ClientRx.CheckedClose;
  }
}
