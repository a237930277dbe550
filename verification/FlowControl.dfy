/** Reading, pausing, caching and draining input on the server (lws_interpret_incoming_packet and its caller). */
module FlowControl {
  import opened Bytes
  import opened Frames
  import opened ServerRx

  /** Feed bytes until there are none, the connection fails, or user code has paused reception. */
  function Consume(s: Rx, input: seq<byte>, cb: Callback): (r: (Rx, nat))
    ensures r.1 <= |input|
    decreases |input|
  {
    if input == [] || s.status != Running || !s.user.flow.allow then (s, 0)
    else
      var (t, n) := Consume(Feed(s, input[0], cb), input[1..], cb);
      (t, n + 1)
  }

  /**
   * `cache` is the undrained part of rxflow_buffer, `taken` all bytes read, `used` all bytes parsed;
   * `hungUp`: user code has asked for the connection to be closed, outside receiving.
   */
  datatype Conn = Conn(rx: Rx, cache: seq<byte>, taken: seq<byte>, used: seq<byte>, hungUp: bool)

  function WithFlow(s: Rx, flow: Flow, cached: bool): Rx {
    s.(user := s.user.(flow := flow, cached := cached))
  }

  /** While closing, reception is forced on: only control frames matter any more. */
  function ForceFlow(s: Rx): Rx {
    if s.peer.ws == ReturnedClose || s.peer.ws == AwaitingCloseAck then
      WithFlow(s, RxFlowControl(s.user.flow, true), s.user.cached)
    else s
  }

  function Drain(c: Conn, cb: Callback): Conn {
    var (rx, n) := Consume(c.rx, c.cache, cb);
    var d := c.(rx := rx, cache := c.cache[n..], used := c.used + c.cache[..n]);
    if rx.status == Running && d.cache == [] then
      d.(rx := WithFlow(rx, ApplyFlow(rx.user.flow, false), false))
    else d
  }

  function Read(c: Conn, chunk: seq<byte>, cb: Callback): Conn {
    var (rx, n) := Consume(c.rx, chunk, cb);
    var d := c.(rx := rx, taken := c.taken + chunk, used := c.used + chunk[..n]);
    if rx.status == Running && n < |chunk| then
      d.(rx := WithFlow(rx, rx.user.flow, true), cache := chunk[n..])
    else d
  }

  /** One service of the socket; `chunk` is what a read would return if the code gets as far as reading. */
  function Service(c: Conn, chunk: seq<byte>, cb: Callback): Conn {
    if c.rx.status != Running || c.hungUp then c
    else
      var d := c.(rx := ForceFlow(c.rx));
      if !d.rx.user.flow.allow then d
      else if d.rx.user.cached then
        if d.rx.peer.ws == ReturnedClose then d else Drain(d, cb)
      else if !d.rx.user.flow.pollIn || chunk == [] then d
      else if d.rx.peer.ws == ReturnedClose then d.(taken := d.taken + chunk)
      else Read(d, chunk, cb)
  }

  /** A callback that is not about received data, such as WRITEABLE: its requests are carried out if it returns 0. */
  function OtherCallback(c: Conn, reply: Reply): Conn {
    if c.rx.status != Running || c.hungUp then c
    else
      var asked := Requests(c.rx.user.flow, reply.requests);
      if reply.result != 0 then c.(rx := WithFlow(c.rx, asked, c.rx.user.cached), hungUp := true)
      else c.(rx := WithFlow(c.rx, ApplyFlow(asked, c.rx.user.cached), c.rx.user.cached))
  }

  datatype Step = Serve(chunk: seq<byte>) | UserRequest(enable: bool) | UserCallback(reply: Reply)

  function Advance(c: Conn, step: Step, cb: Callback): Conn {
    match step
    case Serve(chunk) => Service(c, chunk, cb)
    case UserRequest(enable) =>
      c.(rx := WithFlow(c.rx, RxFlowControl(c.rx.user.flow, enable), c.rx.user.cached))
    case UserCallback(reply) => OtherCallback(c, reply)
  }

  function Run(c: Conn, steps: seq<Step>, cb: Callback): Conn
    decreases |steps|
  {
    if steps == [] then c else Run(Advance(c, steps[0], cb), steps[1..], cb)
  }

  /** Everything of the parser except the reception switches, which do not influence it. */
  function Core(s: Rx): Rx { WithFlow(s, Flow(true, false, true), false) }

  lemma SpillCloseCore(s: Rx, t: Rx, cb: Callback)
    requires Core(s) == Core(t)
    ensures Core(SpillClose(s, cb)) == Core(SpillClose(t, cb))
  {
  }

  lemma SpillReceiveCore(s: Rx, t: Rx, cb: Callback)
    requires Core(s) == Core(t)
    ensures Core(SpillReceive(s, cb)) == Core(SpillReceive(t, cb))
  {
  }

  lemma SpillCore(s: Rx, t: Rx, cb: Callback)
    requires Core(s) == Core(t)
    ensures Core(Spill(s, cb)) == Core(Spill(t, cb))
  {
    SpillCloseCore(s, t, cb);
    SpillReceiveCore(s, t, cb);
  }

  lemma FeedCore(s: Rx, t: Rx, c: byte, cb: Callback)
    requires Core(s) == Core(t)
    ensures Core(Feed(s, c, cb)) == Core(Feed(t, c, cb))
  {
    assert t == WithFlow(s, t.user.flow, t.user.cached);
    if s.status == Running && !s.peer.unusable {
      match s.parse
      case HdrLen =>
        var a := s.(hdr := s.hdr.(masked := c / 128 == 1), len := 0, parse := New);
        var b := t.(hdr := t.hdr.(masked := c / 128 == 1), len := 0, parse := New);
        SpillCore(a, b, cb);
      case KeyByte(i) =>
        if i == 3 {
          var key := s.key.(mask := s.key.mask[i := c], zero := s.key.zero && c == 0, phase := 0);
          SpillCore(s.(key := key, parse := New), t.(key := key, parse := New), cb);
        }
      case Payload =>
        SpillCore(Store(s, c), Store(t, c), cb);
        SpillCore(Store(s, c).(parse := New), Store(t, c).(parse := New), cb);
      case _ =>
    }
  }

  lemma {:induction false} FeedAllCore(s: Rx, t: Rx, data: seq<byte>, cb: Callback)
    requires Core(s) == Core(t)
    ensures Core(FeedAll(s, data, cb)) == Core(FeedAll(t, data, cb))
    decreases |data|
  {
    if data != [] {
      FeedCore(s, t, data[0], cb);
      FeedAllCore(Feed(s, data[0], cb), Feed(t, data[0], cb), data[1..], cb);
    }
  }

  lemma {:induction false} ConsumeIsFeeding(s: Rx, input: seq<byte>, cb: Callback)
    ensures var (t, n) := Consume(s, input, cb);
      && t == FeedAll(s, input[..n], cb)
      && (n < |input| ==> t.status != Running || !t.user.flow.allow)
    decreases |input|
  {
    var (t, n) := Consume(s, input, cb);
    if n != 0 {
      ConsumeIsFeeding(Feed(s, input[0], cb), input[1..], cb);
      assert input[..n][1..] == input[1..][..n - 1];
    }
  }

  /** From `s`, consuming `input` comes by `t` after its first k bytes. */
  ghost predicate Reaches(s: Rx, input: seq<byte>, k: nat, t: Rx, cb: Callback) {
    && k <= |input|
    && Consume(s, input, cb).0 == Consume(t, input[k..], cb).0
    && Consume(s, input, cb).1 == Consume(t, input[k..], cb).1 + k
  }

  lemma ReachesMore(s: Rx, input: seq<byte>, j: nat, t: Rx, k: nat, u: Rx, cb: Callback)
    requires Reaches(s, input, j, t, cb) && Reaches(t, input[j..], k, u, cb)
    ensures Reaches(s, input, j + k, u, cb)
  {
    assert input[j..][k..] == input[j + k..];
  }

  lemma ReachesFeed(s: Rx, input: seq<byte>, cb: Callback)
    requires input != [] && s.status == Running && s.user.flow.allow
    ensures Reaches(s, input, 1, Feed(s, input[0], cb), cb)
  {
  }

  lemma ReachesSelf(s: Rx, input: seq<byte>, cb: Callback)
    ensures Reaches(s, input, 0, s, cb)
  {
    assert input[0..] == input;
  }

  /** Taking bytes in bulk does not change what is consumed, nor when reception is seen to be paused. */
  lemma {:induction false} ConsumeBulk(s: Rx, input: seq<byte>, m: nat, cb: Callback)
    requires s.parse == Payload && s.status == Running && !s.peer.unusable && s.key.phase < 4 && s.user.flow.allow
    requires m <= |input| && (m == 0 || (|s.buf| + m < s.cap && m < s.len))
    ensures Reaches(s, input, m, Stored(s, input[..m]), cb)
    decreases m
  {
    if m == 0 {
      StoredNothing(s);
      ReachesSelf(s, input, cb);
    } else {
      var t := Store(s, input[0]);
      FeedStores(s, input[0], cb);
      ReachesFeed(s, input, cb);
      ConsumeBulk(t, input[1..], m - 1, cb);
      StoredCons(s, input[..m]);
      assert input[1..][..m - 1] == input[..m][1..];
      ReachesMore(s, input, 1, t, m - 1, Stored(s, input[..m]), cb);
    }
  }

  /** How far one turn of the receive loop gets: perhaps a bulk run, then one byte through the state machine. */
  function TurnLength(s: Rx, available: nat): nat {
    (if s.parse == Payload then BulkAmount(s, available) else 0) + 1
  }

  function BeforeLast(s: Rx, input: seq<byte>): Rx
    requires input != []
  {
    if s.parse == Payload then Stored(s, input[..TurnLength(s, |input|) - 1]) else s
  }

  function Turn(s: Rx, input: seq<byte>, cb: Callback): Rx
    requires input != []
  {
    Feed(BeforeLast(s, input), input[TurnLength(s, |input|) - 1], cb)
  }

  lemma TurnReaches(s: Rx, input: seq<byte>, cb: Callback)
    requires input != [] && s.status == Running && !s.peer.unusable && s.key.phase < 4 && s.user.flow.allow
    ensures Reaches(s, input, TurnLength(s, |input|), Turn(s, input, cb), cb)
  {
    var m := TurnLength(s, |input|) - 1;
    var u := BeforeLast(s, input);
    if s.parse == Payload {
      ConsumeBulk(s, input, m, cb);
    } else {
      ReachesSelf(s, input, cb);
    }
    ReachesFeed(u, input[m..], cb);
    ReachesMore(s, input, m, u, 1, Turn(s, input, cb), cb);
  }

  lemma ReachesEnd(s: Rx, input: seq<byte>, k: nat, t: Rx, cb: Callback)
    requires Reaches(s, input, k, t, cb)
    requires k == |input| || t.status != Running || !t.user.flow.allow
    ensures Consume(s, input, cb) == (t, k)
  {
  }

  /**
   * Nothing read is lost, repeated or reordered while the connection is open: parsed bytes, then cached
   * bytes, are exactly the bytes read, and the parser has done with the parsed ones what it would have
   * done with them in one piece.
   */
  predicate Conserved(c: Conn, start: Rx, cb: Callback) {
    && (c.rx.status == Running && c.rx.peer.ws != ReturnedClose ==> c.used + c.cache == c.taken)
    && (c.rx.status == Running ==> (c.rx.user.cached <==> c.cache != []))
    && c.used <= c.taken
    && Core(c.rx) == Core(FeedAll(start, c.used, cb))
  }

  lemma Parsed(start: Rx, rx: Rx, used: seq<byte>, more: seq<byte>, cb: Callback)
    requires Core(rx) == Core(FeedAll(start, used, cb))
    ensures Core(FeedAll(rx, more, cb)) == Core(FeedAll(start, used + more, cb))
  {
    FeedAllAppend(start, used, more, cb);
    FeedAllCore(rx, FeedAll(start, used, cb), more, cb);
  }

  lemma DrainConserves(c: Conn, start: Rx, cb: Callback)
    requires Conserved(c, start, cb) && c.rx.status == Running && c.rx.user.cached && c.rx.peer.ws != ReturnedClose
    ensures Conserved(Drain(c, cb), start, cb)
  {
    var (rx, n) := Consume(c.rx, c.cache, cb);
    ConsumeIsFeeding(c.rx, c.cache, cb);
    ConsumeKeepsCached(c.rx, c.cache, cb);
    Parsed(start, c.rx, c.used, c.cache[..n], cb);
    assert c.used + c.cache[..n] + c.cache[n..] == c.taken;
  }

  lemma FeedKeepsCached(s: Rx, c: byte, cb: Callback)
    ensures Feed(s, c, cb).user.cached == s.user.cached
  {
  }

  lemma {:induction false} ConsumeKeepsCached(s: Rx, input: seq<byte>, cb: Callback)
    ensures Consume(s, input, cb).0.user.cached == s.user.cached
    decreases |input|
  {
    if Consume(s, input, cb).1 != 0 {
      FeedKeepsCached(s, input[0], cb);
      ConsumeKeepsCached(Feed(s, input[0], cb), input[1..], cb);
    }
  }

  lemma ReadConserves(c: Conn, start: Rx, chunk: seq<byte>, cb: Callback)
    requires Conserved(c, start, cb) && c.rx.status == Running && !c.rx.user.cached && c.rx.peer.ws != ReturnedClose
    ensures Conserved(Read(c, chunk, cb), start, cb)
  {
    var (rx, n) := Consume(c.rx, chunk, cb);
    ConsumeIsFeeding(c.rx, chunk, cb);
    ConsumeKeepsCached(c.rx, chunk, cb);
    Parsed(start, c.rx, c.used, chunk[..n], cb);
    assert c.used == c.taken;
    assert c.used + chunk[..n] + chunk[n..] == c.taken + chunk;
    assert n == |chunk| ==> chunk[..n] == chunk;
  }

  lemma ServiceConserves(c: Conn, start: Rx, chunk: seq<byte>, cb: Callback)
    requires Conserved(c, start, cb)
    ensures Conserved(Service(c, chunk, cb), start, cb)
  {
    if c.rx.status == Running && !c.hungUp {
      var d := c.(rx := ForceFlow(c.rx));
      assert Core(d.rx) == Core(c.rx);
      assert Conserved(d, start, cb);
      if d.rx.user.flow.allow && d.rx.peer.ws != ReturnedClose {
        if d.rx.user.cached {
          DrainConserves(d, start, cb);
        } else if d.rx.user.flow.pollIn && chunk != [] {
          ReadConserves(d, start, chunk, cb);
        }
      }
    }
  }

  /** Receive conservation over every run, whenever and from wherever user code pauses and resumes. */
  lemma {:induction false} RunConserves(c: Conn, start: Rx, steps: seq<Step>, cb: Callback)
    requires Conserved(c, start, cb)
    ensures Conserved(Run(c, steps, cb), start, cb)
    decreases |steps|
  {
    if steps != [] {
      if steps[0].Serve? {
        ServiceConserves(c, start, steps[0].chunk, cb);
      }
      RunConserves(Advance(c, steps[0], cb), start, steps[1..], cb);
    }
  }

  // ---- a pause can always be ended ----

  /** What poll() is asked for is what user code last wanted, unless that is still to be carried out. */
  predicate Settled(f: Flow) { f.changePending || f.pollIn == f.allow }

  lemma {:induction false} RequestsSettled(f: Flow, rs: seq<bool>)
    requires Settled(f)
    ensures Settled(Requests(f, rs))
    decreases |rs|
  {
    if rs != [] { RequestsSettled(RxFlowControl(f, rs[0]), rs[1..]); }
  }

  lemma CallUserSettled(u: User, e: Event, cb: Callback)
    requires Settled(u.flow)
    ensures Settled(CallUser(u, e, cb).0.flow)
  {
    RequestsSettled(u.flow, cb(u.log + [e]).requests);
  }

  lemma SpillSettled(s: Rx, cb: Callback)
    requires Settled(s.user.flow)
    ensures Settled(Spill(s, cb).user.flow)
  {
    hide CallUser;
    CallUserSettled(s.user, PeerClose(s.buf), cb);
    CallUserSettled(s.user, Receive(s.hdr.opcode, s.hdr.fin, s.buf, s.len), cb);
  }

  lemma FeedSettled(s: Rx, c: byte, cb: Callback)
    requires Settled(s.user.flow)
    ensures Settled(Feed(s, c, cb).user.flow)
  {
    hide Spill;
    if s.status == Running && !s.peer.unusable {
      match s.parse
      case HdrLen =>
        SpillSettled(s.(hdr := s.hdr.(masked := c / 128 == 1), len := 0, parse := New), cb);
      case KeyByte(i) =>
        if i == 3 {
          var key := s.key.(mask := s.key.mask[i := c], zero := s.key.zero && c == 0, phase := 0);
          SpillSettled(s.(key := key, parse := New), cb);
        }
      case Payload =>
        SpillSettled(Store(s, c), cb);
        SpillSettled(Store(s, c).(parse := New), cb);
      case _ =>
    }
  }

  lemma {:induction false} ConsumeSettled(s: Rx, input: seq<byte>, cb: Callback)
    requires Settled(s.user.flow)
    ensures Settled(Consume(s, input, cb).0.user.flow)
    decreases |input|
  {
    hide Feed;
    if Consume(s, input, cb).1 != 0 {
      FeedSettled(s, input[0], cb);
      ConsumeSettled(Feed(s, input[0], cb), input[1..], cb);
    }
  }

  lemma AdvanceSettled(c: Conn, step: Step, cb: Callback)
    requires Settled(c.rx.user.flow)
    ensures Settled(Advance(c, step, cb).rx.user.flow)
  {
    hide Consume;
    match step {
      case Serve(chunk) =>
        var rx := ForceFlow(c.rx);
        ConsumeSettled(rx, c.cache, cb);
        ConsumeSettled(rx, chunk, cb);
      case UserRequest(enable) =>
      case UserCallback(reply) => RequestsSettled(c.rx.user.flow, reply.requests);
    }
  }

  /** Over every run poll() is asked for what user code last wanted, unless that change is still due. */
  lemma {:induction false} RunSettled(c: Conn, steps: seq<Step>, cb: Callback)
    requires Settled(c.rx.user.flow)
    ensures Settled(Run(c, steps, cb).rx.user.flow)
    decreases |steps|
  {
    hide Advance;
    if steps != [] {
      AdvanceSettled(c, steps[0], cb);
      RunSettled(Advance(c, steps[0], cb), steps[1..], cb);
    }
  }

  /**
   * After any run of an open connection, one callback that asks for reception is enough: the next service
   * parses what is cached, or reads what there is.
   */
  lemma ResumesAfterAnyRun(c: Conn, start: Rx, steps: seq<Step>, chunk: seq<byte>, cb: Callback)
    requires Conserved(c, start, cb) && Settled(c.rx.user.flow) && chunk != []
    requires var d := Run(c, steps, cb); d.rx.status == Running && !d.hungUp && d.rx.peer.ws == Established
    ensures var d := Run(c, steps, cb);
      var e := Run(d, [UserCallback(Reply([true], 0)), Serve(chunk)], cb);
      && |e.used| > |d.used|
      && (d.cache == [] ==> e.taken == d.taken + chunk)
  {
    hide Feed;
    RunSettled(c, steps, cb);
    RunConserves(c, start, steps, cb);
    var d := Run(c, steps, cb);
    var f := OtherCallback(d, Reply([true], 0));
    assert [true][1..] == [];
    assert Requests(RxFlowControl(d.rx.user.flow, true), []) == RxFlowControl(d.rx.user.flow, true);
    assert f.rx.user.flow.allow && (d.cache == [] ==> f.rx.user.flow.pollIn);
    var s0, s1 := UserCallback(Reply([true], 0)), Serve(chunk);
    assert [s0, s1][1..] == [s1] && [s1][1..] == [];
    assert Run(f, [s1], cb) == Run(Service(f, chunk, cb), [], cb);
  }
}
