/**
 * The closing handshake, spread over lws_close_free_wsi, the POLLOUT handler and the two frame parsers:
 * who may write a Close frame, and what may be written after it.
 */
module Closing {
  import opened Bytes
  import opened Frames
  import opened Send

  /** Room for a control payload in ping_payload_buf behind its padding. */
  const STASH := 125

  type Stash = s: seq<byte> | |s| == STASH witness seq(STASH, _ => 0)
  type StashLen = n: nat | n <= STASH

  /**
   * `stash` is ping_payload_buf, shared by the pending PONG or Close and by the close reason user code gave.
   * `sent` lists the kinds of the accepted writes, in the order of `tx.items`.
   */
  datatype Endpoint = Endpoint(
    tx: Tx, sent: seq<Kind>, sendShut: bool, stash: Stash,
    pingPending: bool, pingLen: StashLen, payloadIsClose: bool, closeLen: StashLen, checkPing: bool)

  /** `halfClose`: shutdown(SHUT_WR) stops later sends. */
  datatype Config = Config(bufferSize: nat, halfClose: bool)

  /** What the random source and the socket would answer in one step. */
  datatype Chance = Chance(key: Key, answer: Answer)

  datatype Reason = NoStatus | ContextDestroy | Status(code: nat)

  function Answered(e: Endpoint, answer: Answer): Answer {
    if e.sendShut then Error else answer
  }

  function Record(e: Endpoint, t: Tx, k: Kind): Endpoint {
    e.(tx := t, sent := if |t.items| > |e.tx.items| then e.sent + [k] else e.sent)
  }

  function WriteOut(e: Endpoint, r: Request, c: Config, answer: Answer): (Endpoint, int)
    requires Writable(r)
  {
    var (t, n) := Write(e.tx, r, c.bufferSize, Answered(e, answer));
    (Record(e, t, r.kind), n)
  }

  /** A client masks what it sends where it lies. */
  function AfterMasking(e: Endpoint, k: Kind, len: StashLen, key: Key): Stash
  {
    if MayWrite(e.tx.ws, k, false) && !e.tx.insideFrame && e.tx.client then Masked(e.stash, len, key)
    else e.stash
  }

  function WriteStash(e: Endpoint, k: Kind, len: StashLen, c: Config, ch: Chance): (Endpoint, int)
  {
    WriteOut(e.(stash := AfterMasking(e, k, len, ch.key)), Request(k, false, e.stash[..len], ch.key), c, ch.answer)
  }

  function JustKill(e: Endpoint, reason: Reason, c: Config): Endpoint {
    if e.tx.ws != Shutdown && reason != ContextDestroy && !e.tx.unusable
    then e.(tx := e.tx.(ws := Shutdown), sendShut := e.sendShut || c.halfClose)
    else e.(tx := e.tx.(ws := DeadSocket))
  }

  /** The two bytes sent for a reason no user code prepared: the code shifts by 16 where 8 is meant. */
  function ReasonBytes(code: nat): seq<byte> { [code / 65536 % 256, code % 256] }

  function OwnClose(e: Endpoint, reason: Reason, c: Config, ch: Chance): Endpoint
    requires (e.closeLen > 0 || reason.Status?)
  {
    var f := if e.closeLen > 0 then e else e.(closeLen := 2, stash := ReasonBytes(reason.code) + e.stash[2..]);
    var (g, n) := WriteStash(f, Close, f.closeLen, c, ch);
    if n >= 0 then g.(tx := g.tx.(ws := AwaitingCloseAck)) else JustKill(g, reason, c)
  }

  /** lws_close_free_wsi */
  function CloseFree(e: Endpoint, reason: Reason, c: Config, ch: Chance): Endpoint
  {
    if e.tx.unusable || reason == ContextDestroy || e.tx.ws == Shutdown then JustKill(e, reason, c)
    else if e.tx.ws == DeadSocket then e
    else if e.tx.ws == AwaitingCloseAck then JustKill(e, reason, c)
    else if e.tx.ws == FlushingBeforeClose then if e.tx.pending != [] then e else JustKill(e, reason, c)
    else if e.tx.pending != [] then e.(tx := e.tx.(ws := FlushingBeforeClose))
    else if e.tx.ws == Established && (e.closeLen > 0 || reason.Status?) then OwnClose(e, reason, c, ch)
    else JustKill(e, reason, c)
  }

  /** lws_read looks at WebSocket bytes in these states only, or goes on in a read that turned the state. */
  predicate Reads(ws: WsState) {
    ws == Established || ws == AwaitingCloseAck || ws == Shutdown || ws == ReturnedClose
  }

  function StashPing(e: Endpoint, payload: seq<byte>): Endpoint
  {
    if |payload| > STASH then e
    else e.(stash := payload + e.stash[|payload|..], pingLen := |payload|, pingPending := true)
  }

  function PeerPing(e: Endpoint, payload: seq<byte>): Endpoint
  {
    if !Reads(e.tx.ws) || e.pingPending || (e.tx.client && e.closeLen > 0) then e else StashPing(e, payload)
  }

  /** A Close frame from the peer; `verdict` is what user code says to it. */
  function ServerPeerClose(e: Endpoint, payload: seq<byte>, verdict: int, c: Config, ch: Chance): Endpoint
  {
    if e.tx.unusable || e.tx.ws == AwaitingCloseAck || e.tx.ws == ReturnedClose then CloseFree(e, NoStatus, c, ch)
    else if e.tx.pending != [] then CloseFree(e.(tx := e.tx.(unusable := true)), NoStatus, c, ch)
    else if verdict != 0 then CloseFree(e, NoStatus, c, ch)
    else StashPing(e.(tx := e.tx.(ws := ReturnedClose), payloadIsClose := true), payload)
  }

  /** The client parrots the payload at once and closes, whatever came of the write. */
  function ClientPeerClose(e: Endpoint, payload: seq<byte>, verdict: int, c: Config, ch: Chance): Endpoint
    requires |payload| < MAX_WRITE
  {
    if e.tx.ws == AwaitingCloseAck || verdict != 0 then CloseFree(e, NoStatus, c, ch)
    else
      var f := WriteOut(e, Request(Close, false, payload, ch.key), c, ch.answer).0;
      CloseFree(f.(tx := f.tx.(ws := ReturnedClose)), NoStatus, c, ch)
  }

  function PeerClose(e: Endpoint, payload: seq<byte>, verdict: int, c: Config, ch: Chance): Endpoint
    requires |payload| < MAX_WRITE
  {
    if !Reads(e.tx.ws) then e
    else if e.tx.client then ClientPeerClose(e, payload, verdict, c, ch)
    else ServerPeerClose(e, payload, verdict, c, ch)
  }

  function FlushFirst(e: Endpoint, c: Config, answer: Answer): (Endpoint, bool) {
    var (t, n) := Flush(e.tx, c.bufferSize, Answered(e, answer));
    (e.(tx := t), n >= 0)
  }

  /** The POLLOUT handler; false asks for the connection to be closed. */
  function HandlePollout(e: Endpoint, c: Config, ch: Chance): (Endpoint, bool)
  {
    if e.tx.pending != [] then FlushFirst(e, c, ch.answer)
    else if e.tx.ws == FlushingBeforeClose then (e, false)
    else if (e.tx.ws == Established && e.pingPending) || (e.tx.ws == ReturnedClose && e.payloadIsClose) then
      var (f, n) := WriteStash(e, if e.payloadIsClose then Close else Pong, e.pingLen, c, ch);
      if n < 0 then (f, false) else (f.(pingPending := false), !e.payloadIsClose)
    else if e.tx.ws == Established && !e.tx.unusable && e.checkPing then
      var (f, n) := WriteStash(e.(checkPing := false), Ping, 0, c, ch);
      (f, n >= 0)
    else (e, true)
  }

  function Pollout(e: Endpoint, c: Config, ch: Chance): Endpoint
  {
    if e.tx.ws == Established || e.tx.ws == ReturnedClose || e.tx.ws == FlushingBeforeClose then
      var (f, ok) := HandlePollout(e, c, ch);
      if ok then f
      else
        var g := if f.tx.ws == ReturnedClose then f.(tx := f.tx.(ws := FlushingBeforeClose)) else f;
        CloseFree(g, NoStatus, c, ch)
    else e
  }

  /** lws_close_reason: the code, then as much of the text as fits. */
  function SetReason(e: Endpoint, code: nat, text: seq<byte>): Endpoint
  {
    var taken := if |text| < STASH - 2 then text else text[..STASH - 2];
    e.(stash := [code / 256 % 256, code % 256] + taken + e.stash[2 + |taken|..], closeLen := 2 + |taken|)
  }

  datatype Op =
    | DoUser(r: Request)                                // user code writes; a Close goes through lws_close_reason
    | DoReason(code: nat, text: seq<byte>)
    | DoPing(payload: seq<byte>)
    | DoClose(payload: seq<byte>, verdict: int)
    | DoPollout
    | DoCheck                                           // the service loop wants to see a PONG
    | DoFree(reason: Reason)                            // anything else that ends the connection
    | DoBreak                                           // a timeout or a hangup

  predicate Possible(op: Op) {
    match op
    case DoUser(r) => Writable(r) && r.kind != Close
    case DoClose(payload, _) => |payload| < MAX_WRITE
    case _ => true
  }

  function Step(e: Endpoint, op: Op, c: Config, ch: Chance): Endpoint
    requires Possible(op)
  {
    match op
    case DoUser(r) => WriteOut(e, r, c, ch.answer).0
    case DoReason(code, text) => SetReason(e, code, text)
    case DoPing(payload) => PeerPing(e, payload)
    case DoClose(payload, verdict) => PeerClose(e, payload, verdict, c, ch)
    case DoPollout => Pollout(e, c, ch)
    case DoCheck => if e.tx.ws == Established && !e.tx.unusable then e.(checkPing := true) else e
    case DoFree(reason) => CloseFree(e, reason, c, ch)
    case DoBreak => e.(tx := e.tx.(unusable := true))
  }

  // ---- at most one Close frame, and nothing after it: section 5.5.1 of RFC 6455 ----

  predicate KindsMatch(items: seq<Item>, sent: seq<Kind>) {
    |sent| == |items| && forall i | 0 <= i < |items| :: items[i].Whole? ==> items[i].frame.opcode == Opcode(sent[i])
  }

  /** Send conservation, and `sent` describing what was accepted. */
  predicate Intact(wire: seq<byte>, pending: seq<byte>, items: seq<Item>, sent: seq<Kind>, client: bool) {
    AllSmall(items) && wire + pending == AllBytes(items, client) && KindsMatch(items, sent)
  }

  predicate Base(e: Endpoint) { Intact(e.tx.wire, e.tx.pending, e.tx.items, e.sent, e.tx.client) }

  predicate CloseOnlyLast(sent: seq<Kind>) { forall i | 0 <= i < |sent| - 1 :: sent[i] != Close }

  /** A Close has been accepted for sending. */
  predicate Said(e: Endpoint) { e.sent != [] && e.sent[|e.sent| - 1] == Close }

  /** States from which no write of any kind is accepted any more. */
  predicate Quiet(e: Endpoint) {
    var ws := e.tx.ws;
    || ws == AwaitingCloseAck || ws == FlushingBeforeClose || ws == DeadSocket
    || (ws == Shutdown && (e.tx.client || e.sendShut))
    || (ws == ReturnedClose && e.sendShut)
  }

  predicate Core(e: Endpoint) {
    && Base(e) && CloseOnlyLast(e.sent)
    && (e.tx.client ==> !e.payloadIsClose)
    && (Said(e) || e.sendShut || e.payloadIsClose ==> e.tx.ws != Established)
  }

  predicate Good(e: Endpoint) {
    && Core(e)
    && (e.tx.client ==> e.tx.ws != ReturnedClose)
    && (Said(e) ==> Quiet(e))
    && (e.sendShut ==> e.tx.ws != AwaitingCloseAck)
  }

  /** What an endpoint never takes back. */
  predicate Later(e: Endpoint, f: Endpoint) { f.tx.client == e.tx.client && e.sent <= f.sent }

  /** What a write can change. */
  predicate Written(e: Endpoint, k: Kind, f: Endpoint, n: int) {
    && Base(f) && f == e.(tx := f.tx, sent := f.sent, stash := f.stash)
    && f.tx.ws == e.tx.ws && f.tx.client == e.tx.client
    && (f.sent != e.sent ==> f.sent == e.sent + [k] && MayWrite(e.tx.ws, k, false) && !e.sendShut && n >= 0)
  }

  lemma WriteEffect(t: Tx, r: Request, bufferSize: nat, answer: Answer)
    requires Writable(r)
    ensures var (u, n) := Write(t, r, bufferSize, answer);
      && u.ws == t.ws && u.client == t.client
      && (u.items == t.items
          || (u.items == t.items + [ItemOf(t, r)] && MayWrite(t.ws, r.kind, r.noFin) && answer != Error && n >= 0))
  {
    hide ItemBytes;
  }

  lemma KindsMatchMore(items: seq<Item>, sent: seq<Kind>, item: Item, k: Kind)
    requires KindsMatch(items, sent) && (item.Whole? ==> item.frame.opcode == Opcode(k))
    ensures KindsMatch(items + [item], sent + [k])
  {
  }

  lemma WriteOutWritten(e: Endpoint, r: Request, c: Config, answer: Answer)
    requires Base(e) && Writable(r)
    ensures var (f, n) := WriteOut(e, r, c, answer); Written(e, r.kind, f, n) && f.stash == e.stash
  {
    hide Write, AllSmall, AllBytes, KindsMatch, Opcode;
    var a := Answered(e, answer);
    WriteEffect(e.tx, r, c.bufferSize, a);
    WriteConserves(e.tx, r, c.bufferSize, a);
    KindsMatchMore(e.tx.items, e.sent, ItemOf(e.tx, r), r.kind);
  }

  lemma WriteStashWritten(e: Endpoint, k: Kind, len: StashLen, c: Config, ch: Chance)
    requires Base(e)
    ensures var (f, n) := WriteStash(e, k, len, c, ch); Written(e, k, f, n)
  {
    hide WriteOut;
    var masked := e.(stash := AfterMasking(e, k, len, ch.key));
    WriteOutWritten(masked, Request(k, false, e.stash[..len], ch.key), c, ch.answer);
  }

  lemma OneMore(sent: seq<Kind>, k: Kind)
    requires CloseOnlyLast(sent) && (sent != [] ==> sent[|sent| - 1] != Close)
    ensures CloseOnlyLast(sent + [k])
  {
  }

  lemma JustKillGood(e: Endpoint, reason: Reason, c: Config)
    requires Core(e) && (c.halfClose || e.tx.client)
    ensures Good(JustKill(e, reason, c)) && Later(e, JustKill(e, reason, c))
  {
    hide Intact, CloseOnlyLast;
  }

  lemma OwnCloseGood(e: Endpoint, reason: Reason, c: Config, ch: Chance)
    requires Core(e) && (c.halfClose || e.tx.client)
    requires e.tx.ws == Established && (e.closeLen > 0 || reason.Status?)
    ensures Good(OwnClose(e, reason, c, ch)) && Later(e, OwnClose(e, reason, c, ch))
  {
    hide WriteStash, JustKill, Intact, CloseOnlyLast;
    var f := if e.closeLen > 0 then e else e.(closeLen := 2, stash := ReasonBytes(reason.code) + e.stash[2..]);
    WriteStashWritten(f, Close, f.closeLen, c, ch);
    OneMore(f.sent, Close);
    var (g, n) := WriteStash(f, Close, f.closeLen, c, ch);
    if n < 0 { JustKillGood(g, reason, c); }
  }

  lemma CloseFreeGood(e: Endpoint, reason: Reason, c: Config, ch: Chance)
    requires Core(e) && (c.halfClose || e.tx.client)
    ensures Good(CloseFree(e, reason, c, ch)) && Later(e, CloseFree(e, reason, c, ch))
  {
    hide OwnClose, JustKill, Intact, CloseOnlyLast;
    JustKillGood(e, reason, c);
    if e.tx.ws == Established && (e.closeLen > 0 || reason.Status?) { OwnCloseGood(e, reason, c, ch); }
  }

  lemma PeerCloseGood(e: Endpoint, payload: seq<byte>, verdict: int, c: Config, ch: Chance)
    requires Good(e) && (c.halfClose || e.tx.client) && |payload| < MAX_WRITE
    ensures Good(PeerClose(e, payload, verdict, c, ch)) && Later(e, PeerClose(e, payload, verdict, c, ch))
  {
    hide CloseFree, WriteOut, Intact, CloseOnlyLast;
    CloseFreeGood(e, NoStatus, c, ch);
    if e.tx.client && (e.tx.ws == Established || e.tx.ws == Shutdown) {
      var r := Request(Close, false, payload, ch.key);
      WriteOutWritten(e, r, c, ch.answer);
      if !Said(e) { OneMore(e.sent, Close); }
      var f := WriteOut(e, r, c, ch.answer).0;
      CloseFreeGood(f.(tx := f.tx.(ws := ReturnedClose)), NoStatus, c, ch);
    } else if !e.tx.client {
      CloseFreeGood(e.(tx := e.tx.(unusable := true)), NoStatus, c, ch);
    }
  }


  lemma HandlePolloutCore(e: Endpoint, c: Config, ch: Chance)
    requires Good(e)
    ensures var (f, ok) := HandlePollout(e, c, ch); Core(f) && Later(e, f) && (ok ==> Good(f))
  {
    hide WriteStash, Flush, Intact, CloseOnlyLast;
    if e.tx.pending != [] {
      FlushIntact(e, c, ch);
    } else if (e.tx.ws == Established && e.pingPending) || (e.tx.ws == ReturnedClose && e.payloadIsClose) {
      var k := if e.payloadIsClose then Close else Pong;
      WriteStashWritten(e, k, e.pingLen, c, ch);
      if !Said(e) { OneMore(e.sent, k); }
    } else if e.tx.ws == Established && !e.tx.unusable && e.checkPing {
      WriteStashWritten(e.(checkPing := false), Ping, 0, c, ch);
      OneMore(e.sent, Ping);
    }
  }

  lemma FlushIntact(e: Endpoint, c: Config, ch: Chance)
    requires Base(e)
    ensures var (t, n) := Flush(e.tx, c.bufferSize, Answered(e, ch.answer));
      Base(e.(tx := t)) && t == e.tx.(wire := t.wire, pending := t.pending, unusable := t.unusable)
  {
    FlushConserves(e.tx, c.bufferSize, Answered(e, ch.answer));
  }

  lemma PolloutGood(e: Endpoint, c: Config, ch: Chance)
    requires Good(e) && (c.halfClose || e.tx.client)
    ensures Good(Pollout(e, c, ch)) && Later(e, Pollout(e, c, ch))
  {
    hide HandlePollout, CloseFree, Intact, CloseOnlyLast;
    HandlePolloutCore(e, c, ch);
    var (f, ok) := HandlePollout(e, c, ch);
    var g := if f.tx.ws == ReturnedClose then f.(tx := f.tx.(ws := FlushingBeforeClose)) else f;
    CloseFreeGood(g, NoStatus, c, ch);
  }

  lemma UserGood(e: Endpoint, r: Request, c: Config, answer: Answer)
    requires Good(e) && Writable(r) && r.kind != Close
    ensures Good(WriteOut(e, r, c, answer).0) && Later(e, WriteOut(e, r, c, answer).0)
  {
    hide WriteOut, Intact, CloseOnlyLast;
    WriteOutWritten(e, r, c, answer);
    if !Said(e) { OneMore(e.sent, r.kind); }
  }

  lemma StepGood(e: Endpoint, op: Op, c: Config, ch: Chance)
    requires Good(e) && Possible(op) && (c.halfClose || e.tx.client)
    ensures Good(Step(e, op, c, ch)) && Later(e, Step(e, op, c, ch))
  {
    hide WriteOut, CloseFree, Pollout, PeerClose, Intact, CloseOnlyLast;
    match op {
      case DoUser(r) => UserGood(e, r, c, ch.answer);
      case DoClose(payload, verdict) => PeerCloseGood(e, payload, verdict, c, ch);
      case DoPollout => PolloutGood(e, c, ch);
      case DoFree(reason) => CloseFreeGood(e, reason, c, ch);
      case _ =>
    }
  }

  datatype Move = Move(op: Op, chance: Chance)

  predicate AllPossible(moves: seq<Move>) { forall i | 0 <= i < |moves| :: Possible(moves[i].op) }

  function Run(e: Endpoint, moves: seq<Move>, c: Config): Endpoint
    requires AllPossible(moves)
    decreases |moves|
  {
    if moves == [] then e
    else Run(Step(e, moves[0].op, c, moves[0].chance), moves[1..], c)
  }

  /** At most one Close frame, as the last frame of all. */
  predicate OneCloseLast(items: seq<Item>) {
    forall i | 0 <= i < |items| - 1 :: items[i].Whole? ==> items[i].frame.opcode != CLOSE
  }

  /**
   * In every run an endpoint gets at most one Close frame accepted, as its last frame of all, and the
   * socket only ever sees a beginning of those frames; once a Close is accepted nothing else is.
   */
  lemma {:induction false} RunClosesOnce(e: Endpoint, moves: seq<Move>, c: Config)
    requires Good(e) && AllPossible(moves) && (c.halfClose || e.tx.client)
    ensures var f := Run(e, moves, c);
      && Good(f) && Later(e, f) && OneCloseLast(f.tx.items)
      && f.tx.wire <= AllBytes(f.tx.items, f.tx.client)
      && (Said(e) ==> f.sent == e.sent)
    decreases |moves|
  {
    hide Step;
    if moves != [] {
      hide Good;
      var f := Step(e, moves[0].op, c, moves[0].chance);
      StepGood(e, moves[0].op, c, moves[0].chance);
      RunClosesOnce(f, moves[1..], c);
      if Said(e) { NothingAfter(e, f); }
    }
  }

  lemma NothingAfter(e: Endpoint, f: Endpoint)
    requires Said(e) && Good(f) && Later(e, f)
    ensures f.sent == e.sent && Said(f)
  {
    assert f.sent[|e.sent| - 1] == e.sent[|e.sent| - 1];
  }

  function Fresh(client: bool): Endpoint {
    Endpoint(Tx([], [], false, Established, false, client, []), [], false, seq(STASH, _ => 0),
             false, 0, false, 0, false)
  }

  lemma FreshGood(client: bool)
    ensures Good(Fresh(client))
  {
  }

  /**
   * A server whose socket went on sending after shutdown(SHUT_WR) would answer a second Close:
   * it still parses in LWSS_SHUTDOWN, and there a Close takes it back to where lws_write lets one out.
   */
  lemma SecondClose(bufferSize: nat, moves: seq<Move>)
    requires var ch := Chance([0, 0, 0, 0], Took(2));
      moves == [Move(DoClose([], 0), ch), Move(DoPollout, ch), Move(DoClose([], 0), ch), Move(DoPollout, ch)]
    ensures AllPossible(moves) && Run(Fresh(false), moves, Config(bufferSize, false)).sent == [Close, Close]
    ensures !OneCloseLast(Run(Fresh(false), moves, Config(bufferSize, false)).tx.items)
  {
    var ch := Chance([0, 0, 0, 0], Took(2));
    var c := Config(bufferSize, false);
    var e0 := Fresh(false);
    var e1 := Step(e0, moves[0].op, c, ch);
    var e2 := AnswersClose(e1, c, ch);
    var e3 := Step(e2, moves[2].op, c, ch);
    var e4 := AnswersClose(e3, c, ch);
    assert moves[1..][1..][1..][1..] == [];
    assert Run(e3, moves[1..][1..][1..], c) == e4;
    assert Run(e2, moves[1..][1..], c) == e4;
    assert Run(e1, moves[1..], c) == e4;
    assert e4.tx.items[0] == Whole(Frame(CLOSE, true, []), ch.key);
  }

  lemma AnswersClose(e: Endpoint, c: Config, ch: Chance) returns (f: Endpoint)
    requires !e.tx.client && e.tx.ws == ReturnedClose && e.payloadIsClose && e.pingLen == 0
    requires e.tx.pending == [] && !e.tx.unusable && !e.tx.insideFrame && !e.sendShut && !c.halfClose
    requires ch.answer == Took(2)
    ensures f == Step(e, DoPollout, c, ch)
    ensures f == e.(tx := f.tx, sent := e.sent + [Close], pingPending := false)
    ensures f.tx == e.tx.(wire := f.tx.wire, items := f.tx.items, ws := Shutdown)
    ensures f.tx.items == e.tx.items + [Whole(Frame(CLOSE, true, []), ch.key)]
  {
    f := Step(e, DoPollout, c, ch);
    assert e.stash[..0] == [];
  }

  /** So a server closes once in every run exactly if shutting down its socket works; a client always does. */
  lemma ClosesOnceExactlyIfHalfClosed(client: bool, bufferSize: nat, halfClose: bool)
    ensures (forall moves :: AllPossible(moves) ==>
               OneCloseLast(Run(Fresh(client), moves, Config(bufferSize, halfClose)).tx.items))
       <==> (client || halfClose)
  {
    hide Run, OneCloseLast;
    var c := Config(bufferSize, halfClose);
    if client || halfClose {
      forall moves | AllPossible(moves) ensures OneCloseLast(Run(Fresh(client), moves, c).tx.items) {
        FreshGood(client);
        RunClosesOnce(Fresh(client), moves, c);
      }
    } else {
      var ch := Chance([0, 0, 0, 0], Took(2));
      SecondClose(bufferSize,
        [Move(DoClose([], 0), ch), Move(DoPollout, ch), Move(DoClose([], 0), ch), Move(DoPollout, ch)]);
    }
  }

  // ---- what the Close says ----

  /** A server that owes the peer a Close with payload p. */
  predicate Owes(e: Endpoint, p: seq<byte>) {
    && !e.tx.client && e.tx.ws == ReturnedClose && e.payloadIsClose && e.pingPending
    && e.pingLen == |p| && e.stash[..e.pingLen] == p && e.tx.pending == [] && !e.tx.unusable && !e.sendShut
  }

  predicate Meanwhile(op: Op) { Possible(op) && (op.DoUser? || op.DoPing? || op.DoCheck?) }

  lemma OwesStep(e: Endpoint, p: seq<byte>, op: Op, c: Config, ch: Chance)
    requires Owes(e, p) && Meanwhile(op)
    ensures Owes(Step(e, op, c, ch), p) && Step(e, op, c, ch).tx == e.tx
  {
  }

  lemma {:induction false} OwesRun(e: Endpoint, p: seq<byte>, moves: seq<Move>, c: Config)
    requires Owes(e, p) && AllPossible(moves) && forall i | 0 <= i < |moves| :: Meanwhile(moves[i].op)
    ensures Owes(Run(e, moves, c), p) && Run(e, moves, c).tx == e.tx
    decreases |moves|
  {
    hide Step, Owes, Meanwhile;
    if moves != [] {
      OwesStep(e, p, moves[0].op, c, moves[0].chance);
      OwesRun(Step(e, moves[0].op, c, moves[0].chance), p, moves[1..], c);
    }
  }

  /**
   * A server answers the peer's Close with the payload it came with, replacing any PONG it owed, whatever
   * PINGs and writes come in between; after a refused data write the answer goes out without its header.
   */
  lemma {:induction false} EchoesPeerClose(
      e: Endpoint, p: seq<byte>, moves: seq<Move>, c: Config, ch: Chance, after: Chance)
    requires !e.tx.client && e.tx.ws == Established && e.tx.pending == [] && !e.tx.unusable && !e.sendShut
    requires |p| <= STASH && AllPossible(moves) && forall i | 0 <= i < |moves| :: Meanwhile(moves[i].op)
    requires after.answer != Error
    ensures var g := Pollout(Run(PeerClose(e, p, 0, c, ch), moves, c), c, after);
      g.tx.items == e.tx.items + if !e.tx.insideFrame then [Whole(Frame(CLOSE, true, p), after.key)]
                                 else if p == [] then [] else [Headless(p)]
  {
    hide Pollout, Run;
    var f := PeerClose(e, p, 0, c, ch);
    assert f.stash[..|p|] == p;
    OwesRun(f, p, moves, c);
    PaysClose(Run(f, moves, c), p, c, after);
  }

  lemma PaysClose(e: Endpoint, p: seq<byte>, c: Config, ch: Chance)
    requires Owes(e, p) && ch.answer != Error
    ensures var g := Pollout(e, c, ch);
      g.tx.items == e.tx.items + if !e.tx.insideFrame then [Whole(Frame(CLOSE, true, p), ch.key)]
                                 else if p == [] then [] else [Headless(p)]
  {
    hide CloseFree, Write, Masked;
    assert Answered(e, ch.answer) == ch.answer && e.stash[..e.pingLen] == p && e.tx.items + [] == e.tx.items;
    var (f, n) := WriteStash(e, Close, e.pingLen, c, ch);
    CloseAccepted(e.tx, p, ch, c.bufferSize);
    KeepsItems(f.(pingPending := false, tx := f.tx.(ws := FlushingBeforeClose)), c, ch);
  }

  lemma CloseAccepted(t: Tx, p: seq<byte>, ch: Chance, bufferSize: nat)
    requires MayWrite(t.ws, Close, false) && t.pending == [] && t.ws != FlushingBeforeClose
    requires |p| <= STASH && ch.answer != Error
    ensures var r := Request(Close, false, p, ch.key);
      var (u, n) := Write(t, r, bufferSize, ch.answer);
      && n >= 0 && u.ws == t.ws && u.items == t.items + if t.insideFrame && p == [] then [] else [ItemOf(t, r)]
  {
    hide Mask, LengthField;
  }

  /** Flushing, hanging up: nothing is written when a server closes after its Close. */
  lemma KeepsItems(e: Endpoint, c: Config, ch: Chance)
    requires e.tx.ws == FlushingBeforeClose
    ensures CloseFree(e, NoStatus, c, ch).tx.items == e.tx.items
  {
  }

  predicate CanClose(e: Endpoint) {
    && e.tx.ws == Established && e.tx.pending == [] && !e.tx.insideFrame && !e.tx.unusable && !e.sendShut
  }

  lemma OwnCloseSays(e: Endpoint, c: Config, ch: Chance)
    requires CanClose(e) && ch.answer != Error && e.closeLen > 0
    ensures var f := OwnClose(e, NoStatus, c, ch);
      && f.tx.items == e.tx.items + [Whole(Frame(CLOSE, true, e.stash[..e.closeLen]), ch.key)]
      && f.tx.ws == AwaitingCloseAck
  {
    hide Write, Masked;
    assert Answered(e, ch.answer) == ch.answer;
    CloseAccepted(e.tx, e.stash[..e.closeLen], ch, c.bufferSize);
  }

  /** The reason user code prepared goes out as the Close: its code and what fits of its text. */
  lemma PreparedCloseSays(e: Endpoint, code: nat, text: seq<byte>, c: Config, ch: Chance)
    requires CanClose(e) && ch.answer != Error && code < 65536
    ensures var f := CloseFree(SetReason(e, code, text), NoStatus, c, ch);
      var taken := if |text| < STASH - 2 then text else text[..STASH - 2];
      && f.tx.items == e.tx.items + [Whole(Frame(CLOSE, true, BigEndian(code, 2) + taken), ch.key)]
      && f.tx.ws == AwaitingCloseAck
  {
    hide OwnClose;
    var f := SetReason(e, code, text);
    OwnCloseSays(f, c, ch);
    assert BigEndian(code / 256, 1) == [code / 256];
    assert BigEndian(code, 2) == [code / 256, code % 256];
    assert f.stash[..f.closeLen] == BigEndian(code, 2) + if |text| < STASH - 2 then text else text[..STASH - 2];
  }

  /** A status given by the caller instead is shifted too far: the peer reads it right only below 256. */
  lemma UnpreparedCloseSays(e: Endpoint, code: nat, c: Config, ch: Chance)
    requires CanClose(e) && ch.answer != Error && e.closeLen == 0 && code < 65536
    ensures var f := CloseFree(e, Status(code), c, ch);
      && f.tx.items == e.tx.items + [Whole(Frame(CLOSE, true, ReasonBytes(code)), ch.key)]
      && (FromBigEndian(ReasonBytes(code)) == code <==> code < 256)
  {
    var f := e.(closeLen := 2, stash := ReasonBytes(code) + e.stash[2..]);
    SameOwnClose(e, code, c, ch);
    OwnCloseSays(f, c, ch);
    assert f.stash[..2] == ReasonBytes(code);
    assert ReasonBytes(code)[..1] == [0] && [0][..0] == [];
    assert FromBigEndian(ReasonBytes(code)[..1]) == 0;
  }

  /** An instance: 1001, going away, is read as 233. */
  lemma GoingAwayIsMisread(e: Endpoint, c: Config, ch: Chance)
    requires CanClose(e) && ch.answer != Error && e.closeLen == 0
    ensures CloseFree(e, Status(1001), c, ch).tx.items
         == e.tx.items + [Whole(Frame(CLOSE, true, [0, 233]), ch.key)]
  {
    UnpreparedCloseSays(e, 1001, c, ch);
  }

  lemma SameOwnClose(e: Endpoint, code: nat, c: Config, ch: Chance)
    requires CanClose(e) && e.closeLen == 0 && ch.answer != Error
    ensures CloseFree(e, Status(code), c, ch).tx.items
         == OwnClose(e.(closeLen := 2, stash := ReasonBytes(code) + e.stash[2..]), NoStatus, c, ch).tx.items
  {
    hide WriteStash;
  }

  // ---- when a Close of one's own is accepted at all ----

  /** From a quiet state nothing more is ever accepted. */
  lemma FreeQuiet(e: Endpoint, reason: Reason, c: Config, ch: Chance)
    requires Quiet(e) && (c.halfClose || e.tx.client)
    ensures var f := CloseFree(e, reason, c, ch); Quiet(f) && f.sent == e.sent && f.tx.client == e.tx.client
  {
    hide OwnClose;
  }

  lemma NotWritten(e: Endpoint, r: Request, c: Config, answer: Answer)
    requires Writable(r) && (e.sendShut || !MayWrite(e.tx.ws, r.kind, r.noFin))
    ensures var f := WriteOut(e, r, c, answer).0;
      f == e.(tx := f.tx) && f.tx.ws == e.tx.ws && f.tx.client == e.tx.client
  {
    hide Write, MayWrite;
    WriteEffect(e.tx, r, c.bufferSize, Answered(e, answer));
  }

  lemma PeerCloseQuiet(e: Endpoint, payload: seq<byte>, verdict: int, c: Config, ch: Chance)
    requires Quiet(e) && (c.halfClose || e.tx.client) && |payload| < MAX_WRITE
    ensures var f := PeerClose(e, payload, verdict, c, ch);
      Quiet(f) && f.sent == e.sent && f.tx.client == e.tx.client
  {
    hide ServerPeerClose, ClientPeerClose;
    if Reads(e.tx.ws) {
      if e.tx.client {
        ClientPeerCloseQuiet(e, payload, verdict, c, ch);
      } else {
        ServerPeerCloseQuiet(e, payload, verdict, c, ch);
      }
    }
  }

  lemma ClientPeerCloseQuiet(e: Endpoint, payload: seq<byte>, verdict: int, c: Config, ch: Chance)
    requires Quiet(e) && e.tx.client && Reads(e.tx.ws) && |payload| < MAX_WRITE
    ensures var f := ClientPeerClose(e, payload, verdict, c, ch);
      Quiet(f) && f.sent == e.sent && f.tx.client == e.tx.client
  {
    hide CloseFree, WriteOut;
    FreeQuiet(e, NoStatus, c, ch);
    if e.tx.ws != AwaitingCloseAck {
      var r := Request(Close, false, payload, ch.key);
      NotWritten(e, r, c, ch.answer);
      var f := WriteOut(e, r, c, ch.answer).0;
      FreeReturned(f.(tx := f.tx.(ws := ReturnedClose)), c, ch);
    }
  }

  lemma ServerPeerCloseQuiet(e: Endpoint, payload: seq<byte>, verdict: int, c: Config, ch: Chance)
    requires Quiet(e) && !e.tx.client && c.halfClose && Reads(e.tx.ws)
    ensures var f := ServerPeerClose(e, payload, verdict, c, ch);
      Quiet(f) && f.sent == e.sent && f.tx.client == e.tx.client
  {
    hide CloseFree;
    FreeQuiet(e, NoStatus, c, ch);
    FreeQuiet(e.(tx := e.tx.(unusable := true)), NoStatus, c, ch);
  }

  /** A client that has parroted a Close, or not, is done. */
  lemma FreeReturned(e: Endpoint, c: Config, ch: Chance)
    requires e.tx.ws == ReturnedClose && (c.halfClose || e.tx.client)
    ensures var f := CloseFree(e, NoStatus, c, ch); Quiet(f) && f.sent == e.sent && f.tx.client == e.tx.client
  {
    hide OwnClose;
  }

  lemma HandlePolloutQuiet(e: Endpoint, c: Config, ch: Chance)
    requires e.tx.ws == FlushingBeforeClose || (e.tx.ws == ReturnedClose && e.sendShut)
    ensures var f := HandlePollout(e, c, ch).0;
      && f.tx.ws == e.tx.ws && f.tx.client == e.tx.client && f.sent == e.sent && f.sendShut == e.sendShut
  {
    hide WriteOut, Masked;
    var k := if e.payloadIsClose then Close else Pong;
    var masked := e.(stash := AfterMasking(e, k, e.pingLen, ch.key));
    if e.sendShut { NotWritten(masked, Request(k, false, e.stash[..e.pingLen], ch.key), c, ch.answer); }
  }

  lemma PolloutQuiet(e: Endpoint, c: Config, ch: Chance)
    requires Quiet(e) && (c.halfClose || e.tx.client)
    ensures var f := Pollout(e, c, ch); Quiet(f) && f.sent == e.sent && f.tx.client == e.tx.client
  {
    hide CloseFree, HandlePollout;
    if e.tx.ws == FlushingBeforeClose || e.tx.ws == ReturnedClose {
      HandlePolloutQuiet(e, c, ch);
      var f := HandlePollout(e, c, ch).0;
      FreeQuiet(if f.tx.ws == ReturnedClose then f.(tx := f.tx.(ws := FlushingBeforeClose)) else f, NoStatus, c, ch);
    }
  }

  lemma StepQuiet(e: Endpoint, op: Op, c: Config, ch: Chance)
    requires Quiet(e) && Possible(op) && (c.halfClose || e.tx.client)
    ensures var f := Step(e, op, c, ch); Quiet(f) && f.sent == e.sent && f.tx.client == e.tx.client
  {
    hide CloseFree, Pollout, PeerClose, WriteOut;
    match op {
      case DoUser(r) => NotWritten(e, r, c, ch.answer);
      case DoClose(payload, verdict) => PeerCloseQuiet(e, payload, verdict, c, ch);
      case DoPollout => PolloutQuiet(e, c, ch);
      case DoFree(reason) => FreeQuiet(e, reason, c, ch);
      case _ =>
    }
  }

  lemma {:induction false} QuietRun(e: Endpoint, moves: seq<Move>, c: Config)
    requires Quiet(e) && AllPossible(moves) && (c.halfClose || e.tx.client)
    ensures Run(e, moves, c).sent == e.sent
    decreases |moves|
  {
    hide Step;
    if moves != [] {
      hide Quiet;
      StepQuiet(e, moves[0].op, c, moves[0].chance);
      QuietRun(Step(e, moves[0].op, c, moves[0].chance), moves[1..], c);
    }
  }

  /** What decides it at the call: a reason, nothing kept back, and a socket that still works. */
  predicate SaysClose(e: Endpoint, reason: Reason, answer: Answer) {
    && (e.closeLen > 0 || reason.Status?) && reason != ContextDestroy
    && e.tx.pending == [] && !e.tx.unusable && answer != Error
  }

  lemma OwnCloseSaid(e: Endpoint, reason: Reason, c: Config, ch: Chance)
    requires e.tx.ws == Established && !e.sendShut && (c.halfClose || e.tx.client)
    ensures var f := CloseFree(e, reason, c, ch);
      && f.sent == e.sent + (if SaysClose(e, reason, ch.answer) then [Close] else [])
      && f.tx.client == e.tx.client && (f.sent == e.sent ==> Quiet(f))
  {
    hide OwnClose;
    if SaysClose(e, reason, Again) { OwnCloseEffect(e, reason, c, ch); }
  }

  lemma OwnCloseEffect(e: Endpoint, reason: Reason, c: Config, ch: Chance)
    requires e.tx.ws == Established && !e.sendShut && (e.closeLen > 0 || reason.Status?)
    requires e.tx.pending == [] && !e.tx.unusable && reason != ContextDestroy
    ensures var f := OwnClose(e, reason, c, ch);
      && f.sent == e.sent + (if ch.answer != Error then [Close] else [])
      && f.tx.client == e.tx.client && (ch.answer == Error ==> f.tx.ws == DeadSocket)
  {
    hide Write, Masked;
    var f := if e.closeLen > 0 then e else e.(closeLen := 2, stash := ReasonBytes(reason.code) + e.stash[2..]);
    var p := f.stash[..f.closeLen];
    assert Answered(e, ch.answer) == ch.answer && p != [];
    WriteEffect(e.tx, Request(Close, false, p, ch.key), c.bufferSize, ch.answer);
    if ch.answer != Error {
      CloseAccepted(e.tx, p, ch, c.bufferSize);
    } else {
      CloseRefused(e.tx, p, ch, c.bufferSize);
    }
  }

  lemma CloseRefused(t: Tx, p: seq<byte>, ch: Chance, bufferSize: nat)
    requires t.ws == Established && t.pending == [] && p != [] && |p| <= STASH && ch.answer == Error
    ensures var (u, n) := Write(t, Request(Close, false, p, ch.key), bufferSize, ch.answer);
      n < 0 && u.unusable && u.items == t.items
  {
    hide Mask, LengthField;
  }

  /**
   * However a connection goes on after it is asked to close, a Close of its own is accepted exactly if that
   * call accepts one. So a reason prepared while a remainder is kept is never sent: flushing ends in hanging up.
   */
  lemma OwnCloseAcceptedExactly(e: Endpoint, reason: Reason, c: Config, ch: Chance)
    requires Good(e) && e.tx.ws == Established && (c.halfClose || e.tx.client)
    ensures (exists moves :: AllPossible(moves) && Said(Run(CloseFree(e, reason, c, ch), moves, c)))
       <==> SaysClose(e, reason, ch.answer)
  {
    hide Run, CloseFree, SaysClose, Quiet, Intact, CloseOnlyLast;
    var f := CloseFree(e, reason, c, ch);
    OwnCloseSaid(e, reason, c, ch);
    assert !Said(e);
    hide Good;
    if SaysClose(e, reason, ch.answer) {
      NoMoves(f, c);
      assert AllPossible([]) && Said(Run(f, [], c));
    } else {
      forall moves | AllPossible(moves) ensures !Said(Run(f, moves, c)) { QuietRun(f, moves, c); }
    }
  }

  /** An instance: one byte is kept back when user code, having prepared 1000 as its reason, ends the connection. */
  lemma ReasonBehindRemainderIsLost(b: byte, bufferSize: nat, ch: Chance, moves: seq<Move>)
    requires AllPossible(moves)
    ensures var c := Config(bufferSize, true);
      var frame := Encode(Frame(BINARY, true, [b]));
      var t := Fresh(false).tx.(wire := frame[..2], pending := frame[2..],
                                items := [Whole(Frame(BINARY, true, [b]), ch.key)]);
      var e := SetReason(Fresh(false).(tx := t, sent := [Binary]), 1000, []);
      e.tx.pending == [b] && e.closeLen == 2 && !Said(Run(CloseFree(e, NoStatus, c, ch), moves, c))
  {
    var c := Config(bufferSize, true);
    var f := Frame(BINARY, true, [b]);
    var frame := Encode(f);
    var item := Whole(f, ch.key);
    var t := Fresh(false).tx.(wire := frame[..2], pending := frame[2..], items := [item]);
    var e := SetReason(Fresh(false).(tx := t, sent := [Binary]), 1000, []);
    assert frame[..2] + frame[2..] == frame;
    AllBytesAppend([], item, false);
    assert [] + [item] == [item] && [] + frame == frame;
    assert Good(e);
    OwnCloseAcceptedExactly(e, NoStatus, c, ch);
  }

  // ---- what becomes of a Close the socket took only part of ----

  /** Part of the connection's own Close is kept back, and nobody will send it. */
  predicate Stuck(e: Endpoint) {
    && e.tx.pending != []
    && match e.tx.ws
       case AwaitingCloseAck => true
       case DeadSocket => true
       case Shutdown => e.sendShut || !e.tx.client
       case FlushingBeforeClose => e.sendShut
       case _ => false
  }

  lemma FreeStuck(e: Endpoint, reason: Reason, c: Config, ch: Chance)
    requires Stuck(e) && (c.halfClose || !e.tx.client)
    ensures var f := CloseFree(e, reason, c, ch);
      Stuck(f) && f.tx.wire == e.tx.wire && f.tx.client == e.tx.client
  {
    hide OwnClose;
  }

  lemma PeerCloseStuck(e: Endpoint, payload: seq<byte>, verdict: int, c: Config, ch: Chance)
    requires Stuck(e) && (c.halfClose || !e.tx.client) && |payload| < MAX_WRITE
    ensures var f := PeerClose(e, payload, verdict, c, ch);
      Stuck(f) && f.tx.wire == e.tx.wire && f.tx.client == e.tx.client
  {
    hide OwnClose, IssueNew, ItemBytes;
    FreeStuck(e, NoStatus, c, ch);
  }

  lemma PolloutStuck(e: Endpoint, c: Config, ch: Chance)
    requires Stuck(e) && (c.halfClose || !e.tx.client)
    ensures var f := Pollout(e, c, ch);
      Stuck(f) && f.tx.wire == e.tx.wire && f.tx.client == e.tx.client
  {
    hide WriteStash, OwnClose;
  }

  lemma StepStuck(e: Endpoint, op: Op, c: Config, ch: Chance)
    requires Stuck(e) && Possible(op) && (c.halfClose || !e.tx.client)
    ensures var f := Step(e, op, c, ch);
      Stuck(f) && f.tx.wire == e.tx.wire && f.tx.client == e.tx.client
  {
    hide CloseFree, Pollout, PeerClose, IssueNew, ItemBytes;
    match op {
      case DoClose(payload, verdict) => PeerCloseStuck(e, payload, verdict, c, ch);
      case DoPollout => PolloutStuck(e, c, ch);
      case DoFree(reason) => FreeStuck(e, reason, c, ch);
      case _ =>
    }
  }

  lemma {:induction false} StuckRun(e: Endpoint, moves: seq<Move>, c: Config)
    requires Stuck(e) && AllPossible(moves) && (c.halfClose || !e.tx.client)
    ensures Stuck(Run(e, moves, c)) && Run(e, moves, c).tx.wire == e.tx.wire
    decreases |moves|
  {
    hide Step;
    if moves != [] {
      hide Stuck;
      StepStuck(e, moves[0].op, c, moves[0].chance);
      StuckRun(Step(e, moves[0].op, c, moves[0].chance), moves[1..], c);
    }
  }

  /**
   * While its answer is awaited POLLOUT is not looked at, so if the socket took only part of a Close of
   * one's own, the rest is never sent, whatever happens.
   */
  lemma ShortCloseIsNeverFinished(e: Endpoint, moves: seq<Move>, c: Config)
    requires e.tx.ws == AwaitingCloseAck && e.tx.pending != []
    requires AllPossible(moves) && (c.halfClose || !e.tx.client)
    ensures Run(e, moves, c).tx.wire == e.tx.wire && Run(e, moves, c).tx.pending != []
  {
    hide Run;
    StuckRun(e, moves, c);
  }

  /** The bytes of a Close of one's own, and their number: a header of two bytes, a client's key, and the reason. */
  function CloseBytes(e: Endpoint, key: Key): (r: seq<byte>)
    ensures |r| == CloseSize(e)
  {
    ItemBytes(Whole(Frame(CLOSE, true, e.stash[..e.closeLen]), key), e.tx.client)
  }

  function CloseSize(e: Endpoint): nat { e.closeLen + if e.tx.client then 6 else 2 }

  /** One write takes all of it: the socket offers room, and the code's own limit for one write call allows it. */
  predicate TakenWhole(e: Endpoint, c: Config, answer: Answer) {
    answer.Took? && answer.n >= CloseSize(e) && c.bufferSize + 20 >= CloseSize(e)
  }

  /** What one's own Close does to an open connection with a prepared reason. */
  lemma OwnCloseFate(e: Endpoint, c: Config, ch: Chance)
    requires CanClose(e) && e.closeLen > 0
    ensures var f := CloseFree(e, NoStatus, c, ch);
      if ch.answer == Error then f.tx.ws == DeadSocket && f.tx.wire == e.tx.wire && f.tx.unusable
      else
        && f.tx.ws == AwaitingCloseAck && f.tx.client == e.tx.client
        && f.tx.wire + f.tx.pending == e.tx.wire + CloseBytes(e, ch.key)
        && |f.tx.wire| == |e.tx.wire| + Sent(ch.answer, Limit(c.bufferSize, CloseSize(e)))
        && (f.tx.pending == [] <==> TakenWhole(e, c, ch.answer))
  {
    hide ItemBytes, Masked;
    var out := CloseBytes(e, ch.key);
    assert Answered(e, ch.answer) == ch.answer;
    assert Write(e.tx, Request(Close, false, e.stash[..e.closeLen], ch.key), c.bufferSize, ch.answer).1
        == IssueNew(e.tx, out, c.bufferSize, ch.answer).1;
    IssueNewConserves(e.tx, out, c.bufferSize, ch.answer);
  }

  lemma StepDead(e: Endpoint, op: Op, c: Config, ch: Chance)
    requires e.tx.ws == DeadSocket && e.tx.unusable && Possible(op)
    ensures var f := Step(e, op, c, ch); f.tx.ws == DeadSocket && f.tx.unusable && f.tx.wire == e.tx.wire
  {
    hide ItemBytes, IssueNew, OwnClose, HandlePollout;
  }

  lemma {:induction false} DeadRun(e: Endpoint, moves: seq<Move>, c: Config)
    requires e.tx.ws == DeadSocket && e.tx.unusable && AllPossible(moves)
    ensures Run(e, moves, c).tx.wire == e.tx.wire
    decreases |moves|
  {
    hide Step;
    if moves != [] {
      StepDead(e, moves[0].op, c, moves[0].chance);
      DeadRun(Step(e, moves[0].op, c, moves[0].chance), moves[1..], c);
    }
  }

  /**
   * A Close of one's own ever reaches the socket whole exactly if its first write takes it whole. A larger
   * reason than the receive buffer allows for is cut by the code itself, whatever the socket offers.
   */
  lemma CloseSentWholeExactly(e: Endpoint, c: Config, ch: Chance)
    requires CanClose(e) && e.closeLen > 0 && (c.halfClose || !e.tx.client)
    ensures (exists moves :: AllPossible(moves)
               && Run(CloseFree(e, NoStatus, c, ch), moves, c).tx.wire == e.tx.wire + CloseBytes(e, ch.key))
       <==> TakenWhole(e, c, ch.answer)
  {
    hide Run, CloseFree, CloseBytes, CanClose;
    var f := CloseFree(e, NoStatus, c, ch);
    OwnCloseFate(e, c, ch);
    if TakenWhole(e, c, ch.answer) {
      NoMoves(f, c);
      assert f.tx.wire + [] == f.tx.wire;
      assert AllPossible([]) && Run(f, [], c).tx.wire == e.tx.wire + CloseBytes(e, ch.key);
    } else {
      forall moves | AllPossible(moves)
        ensures Run(f, moves, c).tx.wire == f.tx.wire
      {
        if ch.answer == Error { DeadRun(f, moves, c); } else { ShortCloseIsNeverFinished(f, moves, c); }
      }
      assert |f.tx.wire| < |e.tx.wire + CloseBytes(e, ch.key)|;
    }
  }

  lemma NoMoves(e: Endpoint, c: Config)
    ensures AllPossible([]) && Run(e, [], c) == e
  {
  }

  /** An instance: with a 64-byte receive buffer no socket gets a server's longest reason out. */
  lemma LongReasonIsCut(e: Endpoint, ch: Chance, moves: seq<Move>)
    requires CanClose(e) && !e.tx.client && e.closeLen == STASH && AllPossible(moves)
    requires ch.answer == Took(1000000)
    ensures var c := Config(64, true);
      var f := Run(CloseFree(e, NoStatus, c, ch), moves, c);
      |f.tx.wire| == |e.tx.wire| + 84 && f.tx.pending != []
  {
    hide Run, CanClose, CloseFree, CloseBytes;
    var c := Config(64, true);
    var f := CloseFree(e, NoStatus, c, ch);
    OwnCloseFate(e, c, ch);
    ShortCloseIsNeverFinished(f, moves, c);
  }
}
