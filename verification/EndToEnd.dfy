/** A writing client, a byte stream, and a reading server, run against each other in any order. */
module EndToEnd {
  import opened Bytes
  import opened Frames
  import opened ServerRx
  import Send
  import FlowControl
  import opened Delivery

  datatype Sys = Sys(tx: Send.Tx, conn: FlowControl.Conn)

  /**
   * `ServerService(n)`: the server's socket is serviced while n more bytes, if sent, could be read.
   * `ServerCallback`: user code is called for another reason, as when the socket is writable, and replies so.
   */
  datatype Action =
    | Client(op: Send.Op)
    | ServerService(n: nat)
    | ServerRequest(enable: bool)
    | ServerCallback(reply: Reply)

  function Readable(s: Sys, n: nat): seq<byte>
    requires |s.conn.taken| <= |s.tx.wire|
  {
    var flight := s.tx.wire[|s.conn.taken|..];
    if n < |flight| then flight[..n] else flight
  }

  predicate Connected(s: Sys) { s.conn.taken <= s.tx.wire }

  /** The client writes data, PING or PONG frames, with control payloads in range. */
  predicate ClientMay(a: Action) {
    a.Client? && a.op.DoWrite? ==> Send.Writable(a.op.r) && Sendable(Send.FrameOf(a.op.r))
  }

  function Step(s: Sys, a: Action, bufferSize: nat, cb: Callback): Sys
    requires Connected(s) && ClientMay(a)
  {
    match a
    case Client(op) => s.(tx := Send.Apply(s.tx, op, bufferSize))
    case ServerService(n) => s.(conn := FlowControl.Service(s.conn, Readable(s, n), cb))
    case ServerRequest(enable) => s.(conn := FlowControl.Advance(s.conn, FlowControl.UserRequest(enable), cb))
    case ServerCallback(reply) => s.(conn := FlowControl.OtherCallback(s.conn, reply))
  }

  /** No write is accepted inside a frame thought to be unfinished, as can happen after one was refused. */
  predicate FramedAction(s: Sys, a: Action) {
    a.Client? ==> !Send.GoesOutBare(s.tx, a.op)
  }

  function FramesOf(items: seq<Send.Item>): seq<Frame>
    requires Send.AllWhole(items)
  {
    seq(|items|, i requires 0 <= i < |items| => items[i].frame)
  }

  function KeysOf(items: seq<Send.Item>): seq<Key>
    requires Send.AllWhole(items)
  {
    seq(|items|, i requires 0 <= i < |items| => items[i].key)
  }

  lemma {:induction false} WireAppend(fs: seq<Frame>, keys: seq<Key>, f: Frame, key: Key)
    requires |fs| == |keys| && AllSendable(fs) && Sendable(f)
    ensures AllSendable(fs + [f])
    ensures Wire(fs + [f], keys + [key]) == Wire(fs, keys) + EncodeMasked(f, key)
    decreases |fs|
  {
    if fs == [] {
      assert [f][1..] == [] && [key][1..] == [];
      assert fs + [f] == [f] && keys + [key] == [key];
      assert Wire([f], [key]) == EncodeMasked(f, key) + Wire([], []);
    } else {
      WireAppend(fs[1..], keys[1..], f, key);
      assert (fs + [f])[1..] == fs[1..] + [f] && (keys + [key])[1..] == keys[1..] + [key];
    }
  }

  /** The accepted buffers are the wire form of the accepted frames. */
  lemma {:induction false} BytesAreWire(items: seq<Send.Item>)
    requires Send.AllWhole(items) && Send.AllSmall(items) && AllSendable(FramesOf(items))
    ensures Send.AllBytes(items, true) == Wire(FramesOf(items), KeysOf(items))
    decreases |items|
  {
    if items != [] {
      var init, last := items[..|items| - 1], items[|items| - 1];
      SplitItems(items, init, last);
      BytesAreWire(init);
      WireAppend(FramesOf(init), KeysOf(init), last.frame, last.key);
    }
  }

  lemma SplitItems(items: seq<Send.Item>, init: seq<Send.Item>, last: Send.Item)
    requires Send.AllWhole(items) && AllSendable(FramesOf(items))
    requires items != [] && init == items[..|items| - 1] && last == items[|items| - 1]
    ensures FramesOf(items) == FramesOf(init) + [last.frame] && KeysOf(items) == KeysOf(init) + [last.key]
    ensures AllSendable(FramesOf(init)) && Sendable(last.frame)
  {
    assert Sendable(FramesOf(items)[|items| - 1]);
    forall i | 0 <= i < |init| ensures Sendable(FramesOf(init)[i]) {
      assert Sendable(FramesOf(items)[i]);
    }
  }

  /** What holds between any two actions. */
  predicate Sound(s: Sys, start: Rx, cb: Callback) {
    && Connected(s)
    && s.tx.client && s.tx.ws == Established
    && Send.Conserved(s.tx) && Send.AllWhole(s.tx.items) && AllSendable(FramesOf(s.tx.items))
    && FlowControl.Conserved(s.conn, start, cb)
  }

  lemma ItemsSendable(t: Send.Tx, op: Send.Op, bufferSize: nat)
    requires Send.AllWhole(t.items) && AllSendable(FramesOf(t.items))
    requires op.DoWrite? ==> Send.Writable(op.r) && Sendable(Send.FrameOf(op.r))
    requires !Send.GoesOutBare(t, op)
    ensures var u := Send.Apply(t, op, bufferSize);
      Send.AllWhole(u.items) && AllSendable(FramesOf(u.items)) && t.items <= u.items && t.wire <= u.wire
      && u.client == t.client && u.ws == t.ws
  {
    hide Send.ItemBytes, Send.GoesOutBare;
    Send.ApplyWhole(t, op, bufferSize);
    var u := Send.Apply(t, op, bufferSize);
    forall i | 0 <= i < |u.items| ensures Sendable(FramesOf(u.items)[i]) {
      if i < |t.items| {
        assert FramesOf(u.items)[i] == FramesOf(t.items)[i];
      }
    }
  }

  lemma ServiceTakes(c: FlowControl.Conn, chunk: seq<byte>, cb: Callback)
    ensures var d := FlowControl.Service(c, chunk, cb);
      d.taken == c.taken || d.taken == c.taken + chunk
  {
  }

  lemma StepSound(s: Sys, a: Action, start: Rx, bufferSize: nat, cb: Callback)
    requires Sound(s, start, cb) && ClientMay(a) && FramedAction(s, a)
    ensures Sound(Step(s, a, bufferSize, cb), start, cb)
  {
    match a
    case Client(op) =>
      match op {
        case DoWrite(r, answer) => Send.WriteConserves(s.tx, r, bufferSize, answer);
        case DoFlush(answer) => Send.FlushConserves(s.tx, bufferSize, answer);
      }
      ItemsSendable(s.tx, op, bufferSize);
    case ServerService(n) =>
      var chunk := Readable(s, n);
      FlowControl.ServiceConserves(s.conn, start, chunk, cb);
      ServiceTakes(s.conn, chunk, cb);
    case ServerRequest(enable) =>
    case ServerCallback(reply) =>
  }

  /** A run, in which no write goes out bare. */
  predicate Runs(s: Sys, actions: seq<Action>, bufferSize: nat, cb: Callback, end: Sys)
    decreases |actions|
  {
    if actions == [] then s == end
    else
      && Connected(s) && ClientMay(actions[0]) && FramedAction(s, actions[0])
      && Runs(Step(s, actions[0], bufferSize, cb), actions[1..], bufferSize, cb, end)
  }

  lemma {:induction false} RunSound(s: Sys, actions: seq<Action>, start: Rx, bufferSize: nat, cb: Callback, end: Sys)
    requires Sound(s, start, cb) && Runs(s, actions, bufferSize, cb, end)
    ensures Sound(end, start, cb)
    decreases |actions|
  {
    if actions != [] {
      StepSound(s, actions[0], start, bufferSize, cb);
      RunSound(Step(s, actions[0], bufferSize, cb), actions[1..], start, bufferSize, cb, end);
    }
  }

  predicate Fresh(s: Sys) {
    && s.tx == Send.Tx([], [], false, Established, false, true, [])
    && s.conn.cache == [] && s.conn.taken == [] && s.conn.used == []
    && !s.conn.hungUp && !s.conn.rx.user.cached && s.conn.rx.user.log == []
    && Ready(s.conn.rx)
  }

  lemma FreshSound(s: Sys, cb: Callback)
    requires Fresh(s)
    ensures Sound(s, s.conn.rx, cb)
  {
    assert Send.AllBytes([], true) == [];
    assert FramesOf(s.tx.items) == [];
    assert FeedAll(s.conn.rx, [], cb) == s.conn.rx;
  }

  /**
   * However the client's writes, the socket's short writes, the server's reads and user code's pauses
   * interleave: what user code has been given is a prefix of the accepted frames' payload bytes, tagged
   * with their frame's opcode and FIN; and once every byte has been parsed it is all of them. The
   * connection does not fail unless user code itself asks for it.
   */
  lemma EndToEndPrefix(s: Sys, actions: seq<Action>, bufferSize: nat, cb: Callback, end: Sys)
    requires Fresh(s) && Runs(s, actions, bufferSize, cb, end)
    ensures Send.AllWhole(end.tx.items)
    ensures var written := StreamBytes(FramesOf(end.tx.items));
      var got := Delivered(end.conn.rx.user.log);
      && got <= written
      && (end.conn.rx.status == Running || Rejected(end.conn.rx, cb))
      && (end.tx.pending == [] && end.conn.used == end.tx.wire && end.conn.rx.status == Running ==> got == written)
  {
    hide FeedAll, Wire, Send.AllBytes, StreamBytes, Step, Runs;
    var start := s.conn.rx;
    FreshSound(s, cb);
    RunSound(s, actions, start, bufferSize, cb, end);
    var items := end.tx.items;
    BytesAreWire(items);
    var used := end.conn.used;
    assert used <= end.conn.taken <= end.tx.wire <= Wire(FramesOf(items), KeysOf(items));
    PrefixDelivered(start, FramesOf(items), KeysOf(items), used, cb);
    assert end.conn.rx.user.log == FlowControl.Core(FeedAll(start, used, cb)).user.log;
    assert Delivered(start.user.log) + StreamBytes(FramesOf(items)) == StreamBytes(FramesOf(items));
  }
}
