/** Sending: framing, partial sends and the truncation buffer (lws_write and lws_issue_raw). */
module Send {
  import opened Bytes
  import opened Frames

  /** What the socket says to one write call; `Took(n)` may offer more than was asked for. */
  datatype Answer = Error | Again | Took(n: nat)

  datatype Kind = Text | Binary | Continuation | Ping | Pong | Close

  /** What an accepted buffer was: a frame of its own, or bytes sent as more of an unfinished one. */
  datatype Item = Whole(frame: Frame, key: Key) | Headless(bytes: seq<byte>)

  /** `pending` is trunc_alloc[trunc_offset..trunc_offset + trunc_len]. */
  datatype Tx = Tx(
    wire: seq<byte>, pending: seq<byte>,
    insideFrame: bool, ws: WsState, unusable: bool,
    client: bool, items: seq<Item>)

  function Opcode(k: Kind): nat {
    match k
    case Text => TEXT
    case Binary => BINARY
    case Continuation => CONTINUATION
    case Ping => PING
    case Pong => PONG
    case Close => CLOSE
  }

  /** How much of a buffer one write call may take: a receive buffer's worth and the header padding. */
  function Limit(bufferSize: nat, len: nat): nat {
    if len < bufferSize + 20 then len else bufferSize + 20
  }

  function Sent(answer: Answer, limit: nat): nat {
    if answer.Took? then (if answer.n < limit then answer.n else limit) else 0
  }

  /** New data handed to the socket: all accepted, part of it perhaps only kept. */
  function IssueNew(t: Tx, buf: seq<byte>, bufferSize: nat, answer: Answer): (Tx, int) {
    if buf == [] then (t, 0)
    else if t.ws == FlushingBeforeClose && t.pending == [] then (t, |buf|)
    else if t.pending != [] then (t, -1)
    else if answer == Error then (t.(unusable := true), -1)
    else
      var n := Sent(answer, Limit(bufferSize, |buf|));
      (t.(wire := t.wire + buf[..n], pending := buf[n..]), |buf|)
  }

  /** The kept remainder goes first whenever the socket is writable. */
  function IssuePending(t: Tx, bufferSize: nat, answer: Answer): (Tx, int)
    requires t.pending != []
  {
    if answer == Error then (t.(unusable := true), -1)
    else
      var n := Sent(answer, Limit(bufferSize, |t.pending|));
      var u := t.(wire := t.wire + t.pending[..n], pending := t.pending[n..]);
      if u.pending != [] then (u, n)
      else if t.ws == FlushingBeforeClose then (u, -1)
      else (u, |t.pending|)
  }

  /** Once closing has begun, only a request of exactly CLOSE is let through. */
  predicate MayWrite(ws: WsState, k: Kind, noFin: bool) {
    ws == Established || ((ws == ReturnedClose || ws == AwaitingCloseAck) && k == Close && !noFin)
  }

  /** A request of exactly PING, PONG or CLOSE bypasses the fragment bookkeeping. */
  predicate Bypasses(k: Kind, noFin: bool) {
    !noFin && (k == Ping || k == Pong || k == Close)
  }

  /** The key is what the random source gives if one is asked for. */
  datatype Request = Request(kind: Kind, noFin: bool, payload: seq<byte>, key: Key)

  function FrameOf(r: Request): Frame {
    Frame(Opcode(r.kind), !r.noFin, r.payload)
  }

  /** lws_write returns an int, so its callers cannot ask for more than this. */
  const MAX_WRITE := 0x7fff_fff0

  predicate Writable(r: Request) { |r.payload| < MAX_WRITE }

  /** What goes out for a request: a frame, or the bare payload when a frame is thought to be unfinished. */
  function ItemOf(t: Tx, r: Request): Item {
    if t.insideFrame then Headless(r.payload) else Whole(FrameOf(r), r.key)
  }

  predicate Small(item: Item) {
    item.Whole? ==> item.frame.opcode < 16 && |item.frame.payload| < MAX_WRITE
  }

  function ItemBytes(item: Item, client: bool): seq<byte>
    requires Small(item)
  {
    match item
    case Whole(f, key) => if client then EncodeMasked(f, key) else Encode(f)
    case Headless(bytes) => bytes
  }

  /** lws_write */
  function Write(t: Tx, r: Request, bufferSize: nat, answer: Answer): (Tx, int)
    requires Writable(r)
  {
    if !MayWrite(t.ws, r.kind, r.noFin) then (t, 0)
    else
      var out := ItemBytes(ItemOf(t, r), t.client);
      var (u, n) := IssueNew(t, out, bufferSize, answer);
      var v := if n > 0 then u.(items := t.items + [ItemOf(t, r)]) else u;
      if Bypasses(r.kind, r.noFin) then (v, n)
      else if n <= 0 then (v.(insideFrame := true), n)
      else (v.(insideFrame := false), |r.payload|)
  }

  /** The socket is writable: the remainder has priority. */
  function Flush(t: Tx, bufferSize: nat, answer: Answer): (Tx, int) {
    if t.pending == [] then (t, 0) else IssuePending(t, bufferSize, answer)
  }

  datatype Op = DoWrite(r: Request, answer: Answer) | DoFlush(answer: Answer)

  predicate AllWritable(ops: seq<Op>) {
    forall i | 0 <= i < |ops| :: ops[i].DoWrite? ==> Writable(ops[i].r)
  }

  function Apply(t: Tx, op: Op, bufferSize: nat): Tx
    requires op.DoWrite? ==> Writable(op.r)
  {
    match op
    case DoWrite(r, answer) => Write(t, r, bufferSize, answer).0
    case DoFlush(answer) => Flush(t, bufferSize, answer).0
  }

  function Run(t: Tx, ops: seq<Op>, bufferSize: nat): Tx
    requires AllWritable(ops)
    decreases |ops|
  {
    if ops == [] then t else Run(Apply(t, ops[0], bufferSize), ops[1..], bufferSize)
  }

  predicate AllSmall(items: seq<Item>) {
    forall i | 0 <= i < |items| :: Small(items[i])
  }

  function AllBytes(items: seq<Item>, client: bool): seq<byte>
    requires AllSmall(items)
  {
    if items == [] then []
    else AllBytes(items[..|items| - 1], client) + ItemBytes(items[|items| - 1], client)
  }

  lemma AllBytesAppend(items: seq<Item>, item: Item, client: bool)
    requires AllSmall(items) && Small(item)
    ensures AllSmall(items + [item])
    ensures AllBytes(items + [item], client) == AllBytes(items, client) + ItemBytes(item, client)
  {
    assert (items + [item])[..|items|] == items;
  }

  /** Bytes on the socket, then the kept remainder, are exactly the accepted buffers in order. */
  predicate Conserved(t: Tx) {
    AllSmall(t.items) && t.wire + t.pending == AllBytes(t.items, t.client)
  }

  lemma IssueNewConserves(t: Tx, buf: seq<byte>, bufferSize: nat, answer: Answer)
    requires t.ws != FlushingBeforeClose
    ensures var (u, n) := IssueNew(t, buf, bufferSize, answer);
      u.wire + u.pending == t.wire + t.pending + if n > 0 then buf else []
  {
    var k := Sent(answer, Limit(bufferSize, |buf|));
    assert t.wire + buf[..k] + buf[k..] == t.wire + buf;
  }

  /** What a write to the socket leaves of the rest. */
  lemma IssueNewState(t: Tx, r: Request, bufferSize: nat, answer: Answer)
    requires Writable(r)
    ensures var u := IssueNew(t, ItemBytes(ItemOf(t, r), t.client), bufferSize, answer).0;
      u == t.(wire := u.wire, pending := u.pending, unusable := u.unusable)
  {
    hide ItemBytes;
  }

  lemma WriteConserves(t: Tx, r: Request, bufferSize: nat, answer: Answer)
    requires Conserved(t) && Writable(r)
    ensures Conserved(Write(t, r, bufferSize, answer).0)
  {
    hide ItemBytes, AllBytes, IssueNew;
    IssueNewState(t, r, bufferSize, answer);
    if MayWrite(t.ws, r.kind, r.noFin) {
      var item := ItemOf(t, r);
      var out := ItemBytes(item, t.client);
      IssueNewConserves(t, out, bufferSize, answer);
      AllBytesAppend(t.items, item, t.client);
      var (u, n) := IssueNew(t, out, bufferSize, answer);
      assert u.wire + u.pending == AllBytes(t.items, t.client) + if n > 0 then out else [];
    }
  }

  lemma FlushConserves(t: Tx, bufferSize: nat, answer: Answer)
    requires Conserved(t)
    ensures Conserved(Flush(t, bufferSize, answer).0)
  {
    var k := Sent(answer, Limit(bufferSize, |t.pending|));
    assert t.wire + t.pending[..k] + t.pending[k..] == t.wire + t.pending;
  }

  /** Send conservation over every run, whatever the socket takes and whatever is asked for when. */
  lemma {:induction false} RunConserves(t: Tx, ops: seq<Op>, bufferSize: nat)
    requires Conserved(t) && AllWritable(ops)
    ensures Conserved(Run(t, ops, bufferSize))
    ensures Run(t, ops, bufferSize).wire <= AllBytes(Run(t, ops, bufferSize).items, Run(t, ops, bufferSize).client)
    decreases |ops|
  {
    if ops != [] {
      match ops[0] {
        case DoWrite(r, answer) => WriteConserves(t, r, bufferSize, answer);
        case DoFlush(answer) => FlushConserves(t, bufferSize, answer);
      }
      RunConserves(Apply(t, ops[0], bufferSize), ops[1..], bufferSize);
    }
  }

  // ---- what a write means: section 5.2 of RFC 6455, and what lws_write promises its caller ----

  /** A write that is let through, finds nothing kept back and a socket without an error. */
  predicate Accepted(t: Tx, r: Request, answer: Answer) {
    && t.pending == [] && answer != Error && (t.insideFrame ==> r.payload != [])
    && (t.ws == Established
        || (t.ws in {ReturnedClose, AwaitingCloseAck} && r.kind == Close && !r.noFin))
  }

  /** Opcode, FIN and mask bit as the standard numbers them, and the length in the last seven bits. */
  predicate StandardHeader(out: seq<byte>, r: Request, client: bool) {
    && |out| >= 2
    && out[0] % 16 == (match r.kind
         case Text => 1 case Binary => 2 case Continuation => 0 case Ping => 9 case Pong => 10 case Close => 8)
    && out[0] / 16 == (if r.noFin then 0 else 8)
    && (out[1] >= 128 <==> client)
    && out[1] % 128 == (if |r.payload| < 126 then |r.payload| else if |r.payload| < 65536 then 126 else 127)
  }

  lemma ItemHeader(t: Tx, r: Request)
    requires Writable(r) && !t.insideFrame
    ensures StandardHeader(ItemBytes(ItemOf(t, r), t.client), r, t.client)
  {
    hide BigEndian, Mask;
  }

  /** What an accepted write puts on the wire, or keeps for it, begins with such a header. */
  lemma FirstBytesOnWire(t: Tx, r: Request, bufferSize: nat, answer: Answer)
    requires Writable(r) && Accepted(t, r, answer) && !t.insideFrame
    ensures var u := Write(t, r, bufferSize, answer).0;
      t.wire <= u.wire && StandardHeader((u.wire + u.pending)[|t.wire|..], r, t.client)
  {
    ItemHeader(t, r);
    hide ItemBytes, StandardHeader;
    AcceptedWire(t, r, bufferSize, answer);
    hide Write;
  }

  /** The bytes of an accepted write follow those on the wire, as far as the socket takes them. */
  lemma AcceptedWire(t: Tx, r: Request, bufferSize: nat, answer: Answer)
    requires Writable(r) && Accepted(t, r, answer) && !t.insideFrame
    ensures var u := Write(t, r, bufferSize, answer).0;
      t.wire <= u.wire && (u.wire + u.pending)[|t.wire|..] == ItemBytes(ItemOf(t, r), t.client)
  {
    var out := ItemBytes(ItemOf(t, r), t.client);
    ItemSize(ItemOf(t, r), t.client);
    hide ItemBytes;
    var k := Sent(answer, Limit(bufferSize, |out|));
    Halves(t.wire, out, k);
  }

  lemma Halves(a: seq<byte>, out: seq<byte>, k: nat)
    requires k <= |out|
    ensures a <= a + out[..k] && (a + out[..k] + out[k..])[|a|..] == out
  {
  }

  /** What the caller is told: the payload's length for data, what was put out for a control frame, 0 or an error. */
  lemma WriteTells(t: Tx, r: Request, bufferSize: nat, answer: Answer)
    requires Writable(r)
    ensures var (u, n) := Write(t, r, bufferSize, answer);
      var control := r.kind in {Ping, Pong, Close} && !r.noFin;
      && (Accepted(t, r, answer) ==>
            && |u.items| == |t.items| + 1
            && (!t.insideFrame ==>
                  var opcode := match r.kind
                    case Text => 1 case Binary => 2 case Continuation => 0
                    case Ping => 9 case Pong => 10 case Close => 8;
                  u.items == t.items + [Whole(Frame(opcode, !r.noFin, r.payload), r.key)])
            && (t.insideFrame ==> u.items == t.items + [Headless(r.payload)])
            && (if control then n > 0 && (!t.insideFrame ==> n > |r.payload|) else n == |r.payload|))
      && (!Accepted(t, r, answer) ==> u.items == t.items && u.wire == t.wire && u.pending == t.pending && n <= 0)
      && (t.ws != Established && !(t.ws in {ReturnedClose, AwaitingCloseAck} && r.kind == Close && !r.noFin) ==>
            u == t && n == 0)
      && (t.ws == Established && !Accepted(t, r, answer) && !(t.insideFrame && r.payload == []) ==> n == -1)
      && (control ==> u.insideFrame == t.insideFrame)
      && (t.ws == Established && !control ==> u.insideFrame == !Accepted(t, r, answer))
      && (u.unusable == (t.unusable || (n == -1 && t.pending == [])))
  {
    hide LengthField, Mask;
  }

  predicate AllWhole(items: seq<Item>) {
    forall i | 0 <= i < |items| :: items[i].Whole?
  }

  /** A write that is accepted while a frame is thought to be unfinished, and so goes out bare. */
  predicate GoesOutBare(t: Tx, op: Op) {
    && op.DoWrite? && MayWrite(t.ws, op.r.kind, op.r.noFin) && t.insideFrame
    && t.pending == [] && op.answer != Error && op.r.payload != []
  }

  predicate NeverBare(t: Tx, ops: seq<Op>, bufferSize: nat)
    requires AllWritable(ops)
    decreases |ops|
  {
    ops == [] || (!GoesOutBare(t, ops[0]) && NeverBare(Apply(t, ops[0], bufferSize), ops[1..], bufferSize))
  }

  /** One operation adds at most one item, and that is bare exactly if the write is one that GoesOutBare. */
  lemma ApplyWhole(t: Tx, op: Op, bufferSize: nat)
    requires op.DoWrite? ==> Writable(op.r)
    ensures var u := Apply(t, op, bufferSize);
      && u.ws == t.ws && u.client == t.client && t.items <= u.items && |u.items| <= |t.items| + 1
      && (|u.items| > |t.items| ==> op.DoWrite? && u.items[|t.items|] == ItemOf(t, op.r))
      && (AllWhole(u.items) <==> AllWhole(t.items) && !GoesOutBare(t, op))
  {
    hide Write;
    if op.DoWrite? {
      var item := ItemOf(t, op.r);
      WriteItems(t, op.r, bufferSize, op.answer);
      assert AllWhole(t.items + [item]) <==> AllWhole(t.items) && item.Whole? by { OneMoreWhole(t.items, item); }
    }
  }

  lemma OneMoreWhole(items: seq<Item>, item: Item)
    ensures AllWhole(items + [item]) <==> AllWhole(items) && item.Whole?
  {
    assert (items + [item])[|items|] == item;
    assert forall i | 0 <= i < |items| :: (items + [item])[i] == items[i];
  }

  /** What a write adds to the accepted items. */
  lemma WriteItems(t: Tx, r: Request, bufferSize: nat, answer: Answer)
    requires Writable(r)
    ensures var u := Write(t, r, bufferSize, answer).0;
      && u.ws == t.ws && u.client == t.client
      && u.items == t.items +
           if MayWrite(t.ws, r.kind, r.noFin) && t.pending == [] && answer != Error
              && (t.insideFrame ==> r.payload != [])
           then [ItemOf(t, r)] else []
  {
    hide ItemBytes;
    ItemSize(ItemOf(t, r), t.client);
  }

  lemma ItemSize(item: Item, client: bool)
    requires Small(item)
    ensures item.Whole? ==> ItemBytes(item, client) != []
    ensures item.Headless? ==> ItemBytes(item, client) == item.bytes
  {
  }

  /** Over every run, everything accepted is a whole frame exactly if no write is accepted inside an unfinished one. */
  lemma {:induction false} WholeFramesExactlyIfNeverBare(t: Tx, ops: seq<Op>, bufferSize: nat)
    requires AllWritable(ops)
    ensures AllWhole(Run(t, ops, bufferSize).items) <==> AllWhole(t.items) && NeverBare(t, ops, bufferSize)
    decreases |ops|
  {
    hide Apply, GoesOutBare, AllWhole;
    if ops != [] {
      ApplyWhole(t, ops[0], bufferSize);
      WholeFramesExactlyIfNeverBare(Apply(t, ops[0], bufferSize), ops[1..], bufferSize);
    }
  }

  /** A write of data, which the fragment bookkeeping follows; control frames may be refused harmlessly. */
  predicate WritesData(t: Tx, op: Op) {
    op.DoWrite? && MayWrite(t.ws, op.r.kind, op.r.noFin) && !Bypasses(op.r.kind, op.r.noFin)
  }

  /** What the caller can see to: nothing is kept back (lws_partial_buffered). */
  predicate InTurn(t: Tx, op: Op) { WritesData(t, op) ==> t.pending == [] }

  /** What it cannot: the socket gives no error. */
  predicate SocketLives(t: Tx, op: Op) { WritesData(t, op) ==> op.answer != Error }

  predicate Polite(t: Tx, ops: seq<Op>, bufferSize: nat)
    requires AllWritable(ops)
    decreases |ops|
  {
    ops == [] ||
    (InTurn(t, ops[0]) && SocketLives(t, ops[0]) && Polite(Apply(t, ops[0], bufferSize), ops[1..], bufferSize))
  }

  /** Only whole frames so far, and the next write gets a header. */
  predicate InFrames(t: Tx) { AllWhole(t.items) && !t.insideFrame }

  lemma ApplyFraming(t: Tx, op: Op, bufferSize: nat)
    requires op.DoWrite? ==> Writable(op.r)
    ensures InFrames(t) ==> (InFrames(Apply(t, op, bufferSize)) <==> InTurn(t, op) && SocketLives(t, op))
    ensures !InFrames(t) ==> !InFrames(Apply(t, op, bufferSize))
  {
    hide ItemBytes, AllWhole;
    ApplyWhole(t, op, bufferSize);
    if op.DoWrite? { ItemSize(ItemOf(t, op.r), t.client); }
  }

  /**
   * Over every run, only whole frames are accepted and the next write will get its header too, exactly if
   * no data write is made while a remainder is kept back and none meets a socket error.
   */
  lemma {:induction false} InFramesExactlyIfPolite(t: Tx, ops: seq<Op>, bufferSize: nat)
    requires AllWritable(ops)
    ensures InFrames(t) ==> (InFrames(Run(t, ops, bufferSize)) <==> Polite(t, ops, bufferSize))
    ensures !InFrames(t) ==> !InFrames(Run(t, ops, bufferSize))
    decreases |ops|
  {
    hide InFrames, InTurn, SocketLives, Apply;
    if ops != [] {
      ApplyFraming(t, ops[0], bufferSize);
      InFramesExactlyIfPolite(Apply(t, ops[0], bufferSize), ops[1..], bufferSize);
    }
  }

  /** A concrete run that breaks framing: a short write, a refused one, a flush, and a headless one. */
  lemma RefusedWriteBreaksFraming(frame: seq<byte>)
    requires frame == EncodeMasked(Frame(BINARY, true, [7]), [1, 2, 3, 4])
    ensures var r := Request(Binary, false, [7], [1, 2, 3, 4]);
      var t := Tx([], [], false, Established, false, true, []);
      var ops := [DoWrite(r, Took(1)), DoWrite(r, Took(9)), DoFlush(Took(9)), DoWrite(r, Took(9))];
      Run(t, ops, 64).pending == [] && Run(t, ops, 64).wire == frame + [7]
  {
    hide Xor, Mask;
    var r := Request(Binary, false, [7], [1, 2, 3, 4]);
    var whole, bare := Whole(FrameOf(r), r.key), Headless([7]);
    var t0 := Tx([], [], false, Established, false, true, []);
    var t1 := Tx(frame[..1], frame[1..], false, Established, false, true, [whole]);
    var t2 := t1.(insideFrame := true);
    var t3 := t2.(wire := frame, pending := []);
    var t4 := Tx(frame + [7], [], false, Established, false, true, [whole, bare]);
    assert |frame| == 7 && frame[..1] + frame[1..] == frame && [] + frame[..1] == frame[..1];
    assert Write(t0, r, 64, Took(1)).0 == t1;
    assert Write(t1, r, 64, Took(9)).0 == t2;
    assert frame[1..][6..] == [] && frame[1..][..6] == frame[1..];
    assert Flush(t2, 64, Took(9)).0 == t3;
    assert [7][..1] == [7] && [7][1..] == [];
    assert Write(t3, r, 64, Took(9)).0 == t4;
    hide Write, Flush;
    var a, b, c, d := DoWrite(r, Took(1)), DoWrite(r, Took(9)), DoFlush(Took(9)), DoWrite(r, Took(9));
    assert [a, b, c, d][1..] == [b, c, d] && [b, c, d][1..] == [c, d] && [c, d][1..] == [d] && [d][1..] == [];
    assert Run(t3, [d], 64) == Run(t4, [], 64);
    assert Run(t2, [c, d], 64) == Run(t3, [d], 64);
    assert Run(t1, [b, c, d], 64) == Run(t2, [c, d], 64);
  }
}
