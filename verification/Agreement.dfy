/** The frame parsers and the closing model speak of the same connection: what a control frame does to both. */
module Agreement {
  import opened Bytes
  import opened Frames
  import ServerRx
  import ClientRx
  import opened Send
  import opened Closing

  /** A server's parser and its closing state. */
  predicate SameServer(s: ServerRx.Rx, e: Endpoint) {
    && !e.tx.client && s.peer.ws == e.tx.ws && s.peer.unusable == e.tx.unusable
    && s.peer.txPending == (e.tx.pending != [])
    && s.peer.pingPending == e.pingPending && s.peer.payloadIsClose == e.payloadIsClose
    && (e.pingPending ==> s.peer.ping == e.stash[..e.pingLen])
  }

  /** A control frame of the peer's leaves both in step, or the connection is closed on both sides of the model. */
  lemma ServerControlFrame(s: ServerRx.Rx, e: Endpoint, cb: ServerRx.Callback, c: Config, ch: Chance)
    requires SameServer(s, e) && s.status == ServerRx.Running && !s.peer.unusable && Reads(e.tx.ws)
    requires s.hdr.opcode == PING || s.hdr.opcode == CLOSE
    requires |s.buf| < MAX_WRITE
    ensures var t := ServerRx.Spill(s, cb);
      var verdict := cb(s.user.log + [ServerRx.PeerClose(s.buf)]).result;
      if s.hdr.opcode == PING then t.status == ServerRx.Running && SameServer(t, PeerPing(e, s.buf))
      else
        var f := PeerClose(e, s.buf, verdict, c, ch);
        if t.status == ServerRx.Running then SameServer(t, f)
        else f == CloseFree(e.(tx := e.tx.(unusable := t.peer.unusable)), NoStatus, c, ch)
  {
    hide CloseFree, ServerRx.ApplyFlow, ServerRx.Requests;
    var p := s.buf;
    if |p| <= STASH { assert (p + e.stash[|p|..])[..|p|] == p; }
  }

  /** A client's parser and its closing state. */
  predicate SameClient(s: ClientRx.Client, e: Endpoint) {
    && e.tx.client && s.ws == e.tx.ws && s.pingPending == e.pingPending && s.closeReason == (e.closeLen > 0)
    && (e.pingPending ==> s.ping == e.stash[..e.pingLen])
  }

  lemma ClientPing(s: ClientRx.Client, e: Endpoint)
    requires SameClient(s, e) && Reads(e.tx.ws)
    ensures SameClient(ClientRx.SpillPing(s), PeerPing(e, s.buf))
  {
    var p := s.buf;
    if |p| <= STASH { assert (p + e.stash[|p|..])[..|p|] == p; }
  }

  /** A Close the client's parser accepts is parroted with its code put right, and the connection closed. */
  lemma ClientClose(s: ClientRx.Client, e: Endpoint, user: ClientRx.UserCode, c: Config, ch: Chance)
    requires SameClient(s, e) && Reads(e.tx.ws) && s.outcome == ClientRx.Open && |s.buf| < MAX_WRITE
    ensures var t := ClientRx.SpillClose(s, user);
      var payload := ClientRx.CheckedClose(s.buf);
      var verdict := user(s.log + [ServerRx.PeerClose(payload)]);
      var f := PeerClose(e, payload, verdict, c, ch);
      && |payload| == |s.buf|
      && (t.outcome == ClientRx.Closed && t.ws != ReturnedClose ==> f == CloseFree(e, NoStatus, c, ch))
      && (t.outcome == ClientRx.Closed && t.ws == ReturnedClose && e.tx.ws != ReturnedClose ==>
            var g := WriteOut(e, Request(Close, false, payload, ch.key), c, ch.answer).0;
            f == CloseFree(g.(tx := g.tx.(ws := ReturnedClose)), NoStatus, c, ch))
  {
    hide CloseFree, WriteOut;
  }
}
