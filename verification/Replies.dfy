/** What an endpoint answers, with which payload, and how its connection ends: the closing model in the peer's terms. */
module Replies {
  import opened Bytes
  import opened Frames
  import opened Send
  import opened Closing

  /** An open connection on which nothing is kept back and the next write gets a header. */
  predicate Idle(e: Endpoint) {
    && e.tx.ws == Established && e.tx.pending == [] && !e.tx.insideFrame && !e.tx.unusable && !e.sendShut
  }

  /** A control frame goes out with the bytes the stash held. */
  lemma StashSent(e: Endpoint, k: Kind, len: StashLen, c: Config, ch: Chance)
    requires Idle(e) && k in {Ping, Pong, Close} && ch.answer != Error
    ensures var (f, n) := WriteStash(e, k, len, c, ch);
      var opcode := if k == Ping then 9 else if k == Pong then 10 else 8;
      && n > 0
      && f.tx.items == e.tx.items + [Whole(Frame(opcode, true, e.stash[..len]), ch.key)]
      && f.stash == (if e.tx.client then Masked(e.stash, len, ch.key) else e.stash)
      && f == e.(tx := f.tx, sent := e.sent + [k], stash := f.stash)
      && f.tx.ws == Established && f.tx.client == e.tx.client && !f.tx.insideFrame && !f.tx.unusable
  {
    var r := Request(k, false, e.stash[..len], ch.key);
    WriteTells(e.tx, r, c.bufferSize, ch.answer);
    WriteItems(e.tx, r, c.bufferSize, ch.answer);
    hide Write, Masked;
  }

  // ---- PING and PONG: sections 5.5.2 and 5.5.3 of RFC 6455 ----

  /** `q` over the beginning of `p`, as far as p goes. */
  function Over(q: seq<byte>, p: seq<byte>): (r: seq<byte>)
    ensures |r| == |p|
  {
    if |q| < |p| then q + p[|q|..] else q[..|p|]
  }

  /** The bytes lws_close_reason leaves: the code and what fits of the text. */
  function Prepared(code: nat, text: seq<byte>): (r: seq<byte>)
    ensures |r| <= STASH
  {
    [code / 256 % 256, code % 256] + if |text| < STASH - 2 then text else text[..STASH - 2]
  }

  /** What becomes of a pending PONG's payload while user code prepares reasons in the same buffer. */
  function Overlaid(p: seq<byte>, moves: seq<Move>): (r: seq<byte>)
    ensures |r| == |p|
    decreases |moves|
  {
    if moves == [] then p
    else if moves[0].op.DoReason? then Overlaid(Over(Prepared(moves[0].op.code, moves[0].op.text), p), moves[1..])
    else Overlaid(p, moves[1..])
  }

  predicate OwesPong(e: Endpoint, p: seq<byte>) {
    Idle(e) && !e.payloadIsClose && e.pingPending && e.pingLen == |p| && e.stash[..e.pingLen] == p
  }

  predicate BeforePong(op: Closing.Op) { op.DoPing? || op.DoCheck? || op.DoReason? }

  lemma PongStep(e: Endpoint, p: seq<byte>, op: Closing.Op, c: Config, ch: Chance)
    requires OwesPong(e, p) && BeforePong(op)
    ensures var f := Step(e, op, c, ch);
      f.tx == e.tx
      && OwesPong(f, if op.DoReason? then Over(Prepared(op.code, op.text), p) else p)
  {
    if op.DoReason? {
      var q := Prepared(op.code, op.text);
      var f := Step(e, op, c, ch);
      assert f.stash == q + e.stash[|q|..];
      assert f.stash[..|p|] == Over(q, p);
    }
  }

  lemma {:induction false} PongRun(e: Endpoint, p: seq<byte>, moves: seq<Move>, c: Config)
    requires OwesPong(e, p) && AllPossible(moves) && forall i | 0 <= i < |moves| :: BeforePong(moves[i].op)
    ensures OwesPong(Closing.Run(e, moves, c), Overlaid(p, moves)) && Closing.Run(e, moves, c).tx == e.tx
    decreases |moves|
  {
    hide Step, OwesPong, Prepared;
    if moves != [] {
      var op := moves[0].op;
      PongStep(e, p, op, c, moves[0].chance);
      PongRun(Step(e, op, c, moves[0].chance), if op.DoReason? then Over(Prepared(op.code, op.text), p) else p,
              moves[1..], c);
    }
  }

  lemma PaysPong(e: Endpoint, p: seq<byte>, c: Config, ch: Chance)
    requires OwesPong(e, p) && ch.answer != Error
    ensures var f := Pollout(e, c, ch);
      && f.tx.items == e.tx.items + [Whole(Frame(10, true, p), ch.key)]
      && f.tx.ws == Established && !f.pingPending && f.checkPing == e.checkPing
  {
    StashSent(e, Pong, e.pingLen, c, ch);
    hide WriteStash, CloseFree;
  }

  /**
   * The first PING of an idle connection is answered by exactly one PONG, at the next POLLOUT, whatever further
   * PINGs and checks come before it. It has the PING's payload except where user code has prepared a close
   * reason meanwhile, which shares its buffer.
   */
  lemma AnswersPing(e: Endpoint, p: seq<byte>, moves: seq<Move>, c: Config, after: Chance)
    requires Idle(e) && !e.pingPending && !e.payloadIsClose && (e.tx.client ==> e.closeLen == 0) && |p| <= 125
    requires AllPossible(moves) && (forall i | 0 <= i < |moves| :: BeforePong(moves[i].op)) && after.answer != Error
    ensures var f := Pollout(Closing.Run(PeerPing(e, p), moves, c), c, after);
      && f.tx.items == e.tx.items + [Whole(Frame(10, true, Overlaid(p, moves)), after.key)]
      && f.tx.ws == Established && !f.pingPending
  {
    hide Pollout, Closing.Run, Overlaid;
    var f := PeerPing(e, p);
    assert f.stash[..|p|] == p;
    PongRun(f, p, moves, c);
    PaysPong(Closing.Run(f, moves, c), Overlaid(p, moves), c, after);
  }

  /** Without a reason prepared in between, that is the PING's own payload. */
  lemma {:induction false} NothingOverlaid(p: seq<byte>, moves: seq<Move>)
    requires forall i | 0 <= i < |moves| :: !moves[i].op.DoReason?
    ensures Overlaid(p, moves) == p
    decreases |moves|
  {
    if moves != [] { NothingOverlaid(p, moves[1..]); }
  }

  /** An instance: the PING "hi" is answered by the two bytes of the code 1000. */
  lemma ReasonSpoilsPong(e: Endpoint, c: Config, ch: Chance, after: Chance)
    requires Idle(e) && !e.pingPending && !e.payloadIsClose && e.closeLen == 0 && after.answer != Error
    ensures var f := Pollout(Closing.Run(PeerPing(e, [104, 105]), [Move(DoReason(1000, []), ch)], c), c, after);
      f.tx.items == e.tx.items + [Whole(Frame(10, true, [3, 232]), after.key)]
  {
    var moves := [Move(DoReason(1000, []), ch)];
    AnswersPing(e, [104, 105], moves, c, after);
    assert moves[1..] == [];
    assert Prepared(1000, []) == [3, 232];
    assert Overlaid([104, 105], moves) == Overlaid(Over([3, 232], [104, 105]), []);
  }

  /** A PING is dropped if one is pending, it is too long, nobody reads any more, or a client has its reason ready. */
  lemma DropsPingExactly(e: Endpoint, p: seq<byte>)
    ensures PeerPing(e, p) ==
      if e.pingPending || |p| > 125 || e.tx.ws == FlushingBeforeClose || e.tx.ws == DeadSocket
         || (e.tx.client && e.closeLen > 0)
      then e else e.(pingPending := true, pingLen := |p|, stash := p + e.stash[|p|..])
  {
  }

  /** With no PONG to send, a check sends an empty PING. */
  lemma ChecksWithEmptyPing(e: Endpoint, c: Config, ch: Chance)
    requires Idle(e) && !e.pingPending && ch.answer != Error
    ensures var f := Pollout(Step(e, DoCheck, c, ch), c, ch);
      f.tx.items == e.tx.items + [Whole(Frame(9, true, []), ch.key)] && f.tx.ws == Established && !f.checkPing
  {
    StashSent(e, Ping, 0, c, ch);
    assert e.stash[..0] == [];
    hide WriteStash, CloseFree;
  }

  /** What is kept back goes before anything else, and alone. */
  lemma RemainderFirst(e: Endpoint, c: Config, ch: Chance)
    requires e.tx.ws == Established && e.tx.pending != [] && !e.sendShut && ch.answer.Took?
    ensures var f := Pollout(e, c, ch);
      var all := |e.tx.pending| <= ch.answer.n && |e.tx.pending| <= c.bufferSize + 20;
      && f == e.(tx := f.tx) && f.tx.items == e.tx.items && f.tx.ws == Established
      && f.tx.wire + f.tx.pending == e.tx.wire + e.tx.pending
      && (f.tx.pending == [] <==> all)
      && (ch.answer.n > 0 ==> |f.tx.wire| > |e.tx.wire|)
  {
    hide CloseFree;
    var k := Sent(ch.answer, Limit(c.bufferSize, |e.tx.pending|));
    assert e.tx.wire + e.tx.pending[..k] + e.tx.pending[k..] == e.tx.wire + e.tx.pending;
  }

  // ---- a prepared reason and the payloads that share its buffer ----

  /** A server's reason gives way to a PING that comes after it. */
  lemma PingSpoilsReason(e: Endpoint, code: nat, text: seq<byte>, p: seq<byte>, c: Config, ch: Chance)
    requires Idle(e) && !e.pingPending && |p| <= 125 && ch.answer != Error
    ensures var reason := Prepared(code, text);
      var f := CloseFree(PeerPing(SetReason(e, code, text), p), NoStatus, c, ch);
      && f.tx.ws == AwaitingCloseAck
      && f.tx.items == e.tx.items
           + [Whole(Frame(8, true, if e.tx.client then reason else Over(p, reason)), ch.key)]
  {
    var f := SetReason(e, code, text);
    var g := PeerPing(f, p);
    var reason := Prepared(code, text);
    assert f.stash[..|reason|] == reason;
    assert g.stash[..|reason|] == if e.tx.client then reason else Over(p, reason);
    StashSent(g, Close, g.closeLen, c, ch);
    hide WriteStash, Prepared;
  }

  /** An instance: behind the PING "hi" a server's Close says 26729 where 1000 was prepared. */
  lemma CloseSaysPing(e: Endpoint, c: Config, ch: Chance)
    requires Idle(e) && !e.tx.client && !e.pingPending && ch.answer != Error
    ensures CloseFree(PeerPing(SetReason(e, 1000, []), [104, 105]), NoStatus, c, ch).tx.items
         == e.tx.items + [Whole(Frame(8, true, [104, 105]), ch.key)]
  {
    PingSpoilsReason(e, 1000, [], [104, 105], c, ch);
    assert Over([104, 105], Prepared(1000, [])) == [104, 105];
  }

  /** A server's reason survives exactly if the PING agrees with it as far as both go. */
  lemma ReasonSurvivesExactly(p: seq<byte>, reason: seq<byte>)
    ensures Over(p, reason) == reason <==> forall i | 0 <= i < |p| && i < |reason| :: p[i] == reason[i]
  {
    assert forall i | 0 <= i < |reason| :: Over(p, reason)[i] == if i < |p| then p[i] else reason[i];
  }

  /** A client that sends the PONG it owed masks the reason prepared meanwhile along with it. */
  lemma PongMasksReason(e: Endpoint, code: nat, text: seq<byte>, c: Config, ch: Chance, after: Chance)
    requires Idle(e) && e.tx.client && !e.payloadIsClose && e.pingPending
    requires ch.answer.Took? && ch.answer.n >= 131 && c.bufferSize >= 111 && after.answer != Error
    ensures var reason := Prepared(code, text);
      var m := if e.pingLen < |reason| then e.pingLen else |reason|;
      var f := Pollout(SetReason(e, code, text), c, ch);
      var g := CloseFree(f, NoStatus, c, after);
      g.tx.items == f.tx.items + [Whole(Frame(8, true, Mask(reason[..m], ch.key, 0) + reason[m..]), after.key)]
  {
    var s := SetReason(e, code, text);
    var f := Pollout(s, c, ch);
    var reason := Prepared(code, text);
    var m := if e.pingLen < |reason| then e.pingLen else |reason|;
    StashSent(s, Pong, s.pingLen, c, ch);
    PongTakenWhole(s, c, ch);
    assert s.stash[..|reason|] == reason;
    MaskedPrefix(s.stash, s.pingLen, |reason|, m, ch.key);
    assert Idle(f) && f.stash[..|reason|] == Mask(reason[..m], ch.key, 0) + reason[m..];
    StashSent(f, Close, f.closeLen, c, after);
    hide WriteStash;
  }

  lemma PongTakenWhole(e: Endpoint, c: Config, ch: Chance)
    requires Idle(e) && ch.answer.Took? && ch.answer.n >= 131 && c.bufferSize >= 111
    ensures WriteStash(e, Pong, e.pingLen, c, ch).0.tx.pending == []
  {
    hide Mask;
  }

  lemma MaskedPrefix(stash: Stash, len: StashLen, n: nat, m: nat, key: Key)
    requires n <= STASH && m == if len < n then len else n
    ensures Masked(stash, len, key)[..n] == Mask(stash[..n][..m], key, 0) + stash[..n][m..]
  {
    hide Xor;
  }

  // ---- the peer's Close, and how connections end ----

  /** A client parrots the Close it gets, whole, and hangs up. */
  lemma ClientParrotsClose(e: Endpoint, p: seq<byte>, c: Config, ch: Chance)
    requires Idle(e) && e.tx.client && |p| < MAX_WRITE && ch.answer != Error
    ensures var f := PeerClose(e, p, 0, c, ch);
      && f.tx.items == e.tx.items + [Whole(Frame(8, true, p), ch.key)]
      && f.tx.ws == if f.tx.pending == [] then Shutdown else FlushingBeforeClose
  {
    var r := Request(Close, false, p, ch.key);
    WriteTells(e.tx, r, c.bufferSize, ch.answer);
    WriteItems(e.tx, r, c.bufferSize, ch.answer);
    hide Write;
  }

  /** A Close that user code vetoes is not answered: with no reason ready the connection is hung up. */
  lemma VetoedCloseHangsUp(e: Endpoint, p: seq<byte>, verdict: int, c: Config, ch: Chance)
    requires Idle(e) && e.closeLen == 0 && |p| < MAX_WRITE && verdict != 0
    ensures PeerClose(e, p, verdict, c, ch) == e.(tx := e.tx.(ws := Shutdown), sendShut := c.halfClose)
  {
  }

  /** The Close awaited ends the connection, and is not answered again. */
  lemma AcknowledgedCloseEnds(e: Endpoint, p: seq<byte>, verdict: int, c: Config, ch: Chance)
    requires e.tx.ws == AwaitingCloseAck && !e.tx.unusable && |p| < MAX_WRITE
    ensures PeerClose(e, p, verdict, c, ch)
         == e.(tx := e.tx.(ws := Shutdown), sendShut := e.sendShut || c.halfClose)
  {
  }

  /** A server that still owes bytes when the peer's Close comes drops the connection without an answer. */
  lemma CloseBehindRemainder(e: Endpoint, p: seq<byte>, verdict: int, c: Config, ch: Chance)
    requires e.tx.ws == Established && !e.tx.client && e.tx.pending != [] && |p| < MAX_WRITE
    ensures PeerClose(e, p, verdict, c, ch) == e.(tx := e.tx.(unusable := true, ws := DeadSocket))
  {
  }

  /** Hanging up takes two calls: the sending side is shut down first, and then, or on a broken socket, all is over. */
  lemma HangsUpInTwo(e: Endpoint, reason: Reason, c: Config, ch: Chance)
    requires e.tx.ws == Established && e.tx.pending == [] && e.closeLen == 0
    ensures var f := CloseFree(e, NoStatus, c, ch);
      var g := CloseFree(f, reason, c, ch);
      && (e.tx.unusable ==> f == e.(tx := e.tx.(ws := DeadSocket)))
      && (!e.tx.unusable ==> f == e.(tx := e.tx.(ws := Shutdown), sendShut := e.sendShut || c.halfClose))
      && g.tx.ws == DeadSocket && g.tx.wire == e.tx.wire && g.tx.items == e.tx.items
  {
  }

  /** When the context is destroyed a connection is dead at once, whatever it was about to do. */
  lemma DestroyedAtOnce(e: Endpoint, c: Config, ch: Chance)
    ensures CloseFree(e, ContextDestroy, c, ch) == e.(tx := e.tx.(ws := DeadSocket))
  {
  }

  /** Flushing before a close ends: with the remainder gone the connection is hung up in the same POLLOUT. */
  lemma FlushingEnds(e: Endpoint, c: Config, ch: Chance)
    requires e.tx.ws == FlushingBeforeClose && e.tx.pending != [] && !e.tx.unusable && !e.sendShut
    ensures var f := Pollout(e, c, ch);
      match ch.answer
      case Error => f.tx.ws == DeadSocket && f.tx.wire == e.tx.wire
      case Again => f == e
      case Took(n) =>
        if |e.tx.pending| <= n && |e.tx.pending| <= c.bufferSize + 20
        then f.tx.ws == Shutdown && f.sendShut == c.halfClose
             && f.tx.pending == [] && f.tx.wire == e.tx.wire + e.tx.pending
        else f.tx.ws == FlushingBeforeClose && f.tx.wire + f.tx.pending == e.tx.wire + e.tx.pending
             && (n > 0 ==> |f.tx.pending| < |e.tx.pending|)
  {
    FlushTurn(e, c, ch);
    hide OwnClose, HandlePollout;
  }

  lemma FlushTurn(e: Endpoint, c: Config, ch: Chance)
    requires e.tx.ws == FlushingBeforeClose && e.tx.pending != [] && !e.tx.unusable && !e.sendShut
    ensures var (f, ok) := HandlePollout(e, c, ch);
      && f == e.(tx := e.tx.(wire := f.tx.wire, pending := f.tx.pending, unusable := f.tx.unusable))
      && f.tx.wire + f.tx.pending == e.tx.wire + e.tx.pending
      && f.tx.unusable == (ch.answer == Error) && ok == (ch.answer != Error && f.tx.pending != [])
      && (!ch.answer.Took? ==> f.tx.wire == e.tx.wire && f.tx.pending == e.tx.pending)
      && (ch.answer.Took? ==>
            (f.tx.pending == [] <==> |e.tx.pending| <= ch.answer.n && |e.tx.pending| <= c.bufferSize + 20)
            && (f.tx.pending == [] ==> f.tx.wire == e.tx.wire + e.tx.pending)
            && (ch.answer.n > 0 ==> |f.tx.pending| < |e.tx.pending|))
  {
    var k := Sent(ch.answer, Limit(c.bufferSize, |e.tx.pending|));
    assert e.tx.wire + e.tx.pending[..k] + e.tx.pending[k..] == e.tx.wire + e.tx.pending;
    hide WriteStash;
  }
}
