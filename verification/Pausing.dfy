/** A pause pauses: what user code asked for last decides whether anything is read or parsed. */
module Pausing {
  import opened Bytes
  import opened Frames
  import opened ServerRx
  import opened FlowControl

  /** Requests made one after the other come to the last of them. */
  lemma {:induction false} LastRequestDecides(f: Flow, rs: seq<bool>)
    ensures Requests(f, rs).allow == if rs == [] then f.allow else rs[|rs| - 1]
    ensures rs == [] ==> Requests(f, rs) == f
    ensures Requests(f, rs).pollIn == f.pollIn
    decreases |rs|
  {
    if rs != [] { LastRequestDecides(RxFlowControl(f, rs[0]), rs[1..]); }
  }

  // ---- outside receiving ----

  /** User code's last word in this step is to pause. */
  predicate AsksPause(step: Step) {
    match step
    case Serve(_) => false
    case UserRequest(enable) => !enable
    case UserCallback(reply) => reply.requests != [] && !reply.requests[|reply.requests| - 1]
  }

  /** User code does not ask for reception, or takes it back in the same callback. */
  predicate StaysPaused(step: Step) {
    step.Serve? || AsksPause(step) || (step.UserCallback? && step.reply.requests == [])
  }

  predicate AllStayPaused(steps: seq<Step>) { forall i | 0 <= i < |steps| :: StaysPaused(steps[i]) }

  /** An open connection on which reception is paused. */
  predicate Paused(c: Conn) { c.rx.peer.ws == Established && !c.rx.user.flow.allow }

  lemma AsksPauses(c: Conn, step: Step, cb: Callback)
    requires c.rx.peer.ws == Established && c.rx.status == Running && !c.hungUp && AsksPause(step)
    ensures var d := FlowControl.Advance(c, step, cb);
      Paused(d) && d.taken == c.taken && d.used == c.used && d.cache == c.cache
  {
    if step.UserCallback? { LastRequestDecides(c.rx.user.flow, step.reply.requests); }
  }

  lemma PausedStep(c: Conn, step: Step, cb: Callback)
    requires Paused(c) && StaysPaused(step)
    ensures var d := FlowControl.Advance(c, step, cb);
      Paused(d) && d.taken == c.taken && d.used == c.used && d.cache == c.cache
  {
    hide Drain, Read;
    if step.UserCallback? { LastRequestDecides(c.rx.user.flow, step.reply.requests); }
  }

  lemma {:induction false} PausedRun(c: Conn, steps: seq<Step>, cb: Callback)
    requires Paused(c) && AllStayPaused(steps)
    ensures var d := Run(c, steps, cb);
      Paused(d) && d.taken == c.taken && d.used == c.used && d.cache == c.cache
    decreases |steps|
  {
    hide FlowControl.Advance;
    if steps != [] {
      assert StaysPaused(steps[0]);
      PausedStep(c, steps[0], cb);
      PausedRun(FlowControl.Advance(c, steps[0], cb), steps[1..], cb);
    }
  }

  /**
   * On an open connection, once user code's last word in a callback or outside one is to pause, nothing is read
   * and nothing parsed in any run until it asks for reception again.
   */
  lemma PauseHolds(c: Conn, step: Step, steps: seq<Step>, cb: Callback)
    requires c.rx.peer.ws == Established && c.rx.status == Running && !c.hungUp
    requires AsksPause(step) && AllStayPaused(steps)
    ensures var d := Run(c, [step] + steps, cb);
      d.taken == c.taken && d.used == c.used && d.cache == c.cache
  {
    AsksPauses(c, step, cb);
    PausedRun(FlowControl.Advance(c, step, cb), steps, cb);
    assert ([step] + steps)[1..] == steps;
  }

  /** If the callback also returns 0 and no cache is being drained, poll() is no longer asked for input. */
  lemma PauseReachesPoll(c: Conn, reply: Reply, cb: Callback)
    requires c.rx.status == Running && !c.hungUp && !c.rx.user.cached && Settled(c.rx.user.flow)
    requires AsksPause(UserCallback(reply)) && reply.result == 0
    ensures !OtherCallback(c, reply).rx.user.flow.pollIn
  {
    LastRequestDecides(c.rx.user.flow, reply.requests);
    RequestsSettled(c.rx.user.flow, reply.requests);
  }

  // ---- while receiving ----

  /** What a call of user code leaves wanted. */
  lemma CallUserWants(u: User, e: Event, cb: Callback)
    ensures var v := CallUser(u, e, cb).0;
      var rs := cb(u.log + [e]).requests;
      v.flow.allow == if rs == [] then u.flow.allow else rs[|rs| - 1]
  {
    LastRequestDecides(u.flow, cb(u.log + [e]).requests);
  }

  /** After a byte, reception is as the callback it caused, if any, last asked for. */
  predicate Wants(s: Rx, t: Rx, cb: Callback) {
    if |t.user.log| == |s.user.log| then t.user.log == s.user.log && t.user.flow == s.user.flow
    else
      && |t.user.log| == |s.user.log| + 1 && s.user.log <= t.user.log
      && var rs := cb(t.user.log).requests;
         t.user.flow.allow == if rs == [] then s.user.flow.allow else rs[|rs| - 1]
  }

  lemma SpillWants(s: Rx, cb: Callback)
    ensures Wants(s, Spill(s, cb), cb)
  {
    hide CallUser;
    CallUserWants(s.user, PeerClose(s.buf), cb);
    CallUserWants(s.user, Receive(s.hdr.opcode, s.hdr.fin, s.buf, s.len), cb);
  }

  lemma FeedWants(s: Rx, c: byte, cb: Callback)
    ensures Wants(s, Feed(s, c, cb), cb)
  {
    hide Spill;
    if s.status == Running && !s.peer.unusable {
      match s.parse
      case HdrLen =>
        SpillWants(s.(hdr := s.hdr.(masked := c / 128 == 1), len := 0, parse := New), cb);
      case KeyByte(i) =>
        if i == 3 {
          var key := s.key.(mask := s.key.mask[i := c], zero := s.key.zero && c == 0, phase := 0);
          SpillWants(s.(key := key, parse := New), cb);
        }
      case Payload =>
        SpillWants(Store(s, c), cb);
        SpillWants(Store(s, c).(parse := New), cb);
      case _ =>
    }
  }

  /** A receive callback whose last word is to pause stops the loop behind the byte that caused it. */
  lemma ReceivePauses(s: Rx, input: seq<byte>, cb: Callback)
    requires input != [] && s.status == Running && s.user.flow.allow
    requires var t := Feed(s, input[0], cb);
      |t.user.log| > |s.user.log| && var rs := cb(t.user.log).requests; rs != [] && !rs[|rs| - 1]
    ensures Consume(s, input, cb) == (Feed(s, input[0], cb), 1)
  {
    hide Feed;
    FeedWants(s, input[0], cb);
    assert Consume(Feed(s, input[0], cb), input[1..], cb) == (Feed(s, input[0], cb), 0);
  }

  /** And otherwise it goes on: without such a callback the loop stops only when the connection fails. */
  lemma {:induction false} GoesOnUnlessPaused(s: Rx, input: seq<byte>, cb: Callback)
    requires s.user.flow.allow && forall log :: cb(log).requests == [] || cb(log).requests[|cb(log).requests| - 1]
    ensures var (t, n) := Consume(s, input, cb); t.user.flow.allow && (t.status == Running ==> n == |input|)
    decreases |input|
  {
    hide Feed;
    if input != [] && s.status == Running {
      FeedWants(s, input[0], cb);
      GoesOnUnlessPaused(Feed(s, input[0], cb), input[1..], cb);
    }
  }

  // ---- while closing ----

  /** While the peer's answer to a Close is awaited the pause is lifted: the cache is drained, or the socket read. */
  lemma AwaitingReadsAnyway(c: Conn, chunk: seq<byte>, cb: Callback)
    requires c.rx.status == Running && !c.hungUp && c.rx.peer.ws == AwaitingCloseAck
    ensures var d := Service(c, chunk, cb);
      && (c.rx.user.cached && c.cache != [] ==> |d.used| > |c.used|)
      && (!c.rx.user.cached && c.rx.user.flow.pollIn && chunk != [] ==>
            d.taken == c.taken + chunk && |d.used| > |c.used|)
  {
    hide Feed;
  }

  /** While the answer to the peer's Close is owed, what is read is thrown away. */
  lemma OwingReadsNothing(c: Conn, chunk: seq<byte>, cb: Callback)
    requires c.rx.status == Running && !c.hungUp && c.rx.peer.ws == ReturnedClose
    ensures var d := Service(c, chunk, cb);
      && d.used == c.used && d.cache == c.cache && d.rx.user.log == c.rx.user.log
      && (!c.rx.user.cached && c.rx.user.flow.pollIn ==> d.taken == c.taken + chunk)
  {
    hide Drain, Read;
  }
}
