/** The other direction: a writing server, a byte stream, and a reading client. */
module ServerToClient {
  import opened Bytes
  import opened Frames
  import Send
  import ServerRx
  import Delivery
  import opened ClientRx
  import opened Conformance

  const IDLE := Send.Tx([], [], false, Established, false, false, [])

  /** The server writes data, PING or PONG frames; their sequence is up to it. */
  predicate NoCloses(ops: seq<Send.Op>) {
    forall i | 0 <= i < |ops| :: ops[i].DoWrite? ==> Send.Writable(ops[i].r) && ops[i].r.kind != Send.Close
  }

  predicate Framed(items: seq<Send.Item>) {
    && Send.AllWhole(items) && Send.AllSmall(items)
    && forall i | 0 <= i < |items| :: items[i].frame.opcode != CLOSE
  }

  function WireForm(f: Frame): WireFrame
    requires f.opcode < 16
  {
    WireFrame(FirstByte(f.opcode, f.fin), f.payload)
  }

  /** The accepted frames as a client sees them. */
  function WireFrames(items: seq<Send.Item>): (r: seq<WireFrame>)
    requires Framed(items)
    ensures |r| == |items| && NoClose(r)
  {
    if items == [] then []
    else
      var init, last := items[..|items| - 1], items[|items| - 1];
      assert Send.Small(last);
      WireFrames(init) + [WireForm(last.frame)]
  }

  lemma {:induction false} StreamAppend(fs: seq<WireFrame>, f: WireFrame)
    requires NoClose(fs) && Sized(f) && f.Opcode() != CLOSE
    ensures NoClose(fs + [f]) && Stream(fs + [f]) == Stream(fs) + BytesOf(f)
    decreases |fs|
  {
    hide BytesOf;
    assert NoClose(fs + [f]);
    if fs == [] {
      assert fs + [f] == [f] && [f][1..] == [];
      assert Stream([f]) == BytesOf(f) + Stream([]);
    } else {
      StreamAppend(fs[1..], f);
      assert (fs + [f])[1..] == fs[1..] + [f];
    }
  }

  lemma SameBytes(f: Frame)
    requires f.opcode < 16 && |f.payload| < MAX_LENGTH
    ensures WireForm(f).Opcode() == f.opcode && Sized(WireForm(f)) && BytesOf(WireForm(f)) == Encode(f)
  {
    hide LengthField;
  }

  lemma NoFrames()
    ensures NoClose([]) && Stream([]) == []
  {
  }

  /** What a server has accepted is the stream of its frames. */
  lemma {:induction false} BytesAreStream(items: seq<Send.Item>)
    requires Framed(items)
    ensures Send.AllBytes(items, false) == Stream(WireFrames(items))
    decreases |items|
  {
    hide BytesOf, WireForm, Stream, Encode;
    if items == [] {
      NoFrames();
    } else {
      var init, last := items[..|items| - 1], items[|items| - 1];
      assert Send.Small(last);
      BytesAreStream(init);
      SameBytes(last.frame);
      StreamAppend(WireFrames(init), WireForm(last.frame));
    }
  }

  lemma ApplyFramed(t: Send.Tx, op: Send.Op, bufferSize: nat)
    requires Framed(t.items) && !Send.GoesOutBare(t, op)
    requires op.DoWrite? ==> Send.Writable(op.r) && op.r.kind != Send.Close
    ensures Framed(Send.Apply(t, op, bufferSize).items)
  {
    hide Send.GoesOutBare, Send.Apply;
    Send.ApplyWhole(t, op, bufferSize);
    var u := Send.Apply(t, op, bufferSize);
    forall i | 0 <= i < |u.items| ensures Send.Small(u.items[i]) && u.items[i].frame.opcode != CLOSE {
      if i < |t.items| { assert u.items[i] == t.items[i]; }
    }
  }

  lemma {:induction false} RunFramed(t: Send.Tx, ops: seq<Send.Op>, bufferSize: nat)
    requires Framed(t.items) && NoCloses(ops) && Send.AllWritable(ops) && Send.NeverBare(t, ops, bufferSize)
    ensures Framed(Send.Run(t, ops, bufferSize).items) && Send.Run(t, ops, bufferSize).client == t.client
    decreases |ops|
  {
    hide Send.Apply, Framed, Send.GoesOutBare;
    if ops != [] {
      ApplyFramed(t, ops[0], bufferSize);
      Send.ApplyWhole(t, ops[0], bufferSize);
      RunFramed(Send.Apply(t, ops[0], bufferSize), ops[1..], bufferSize);
    }
  }

  // ---- what has been delivered stays delivered ----

  lemma HandOverGrows(s: Client, user: UserCode)
    ensures s.log <= HandOver(s, user).log
  {
  }

  lemma SpillCloseGrows(s: Client, user: UserCode)
    ensures s.log <= SpillClose(s, user).log
  {
    hide Utf8.Run, CheckedClose;
  }

  lemma SpillGrows(s: Client, user: UserCode)
    ensures s.log <= Spill(s, user).log
  {
    hide SpillClose, SpillData;
    SpillCloseGrows(s, user);
    SpillDataGrows(s, user);
  }

  lemma SpillDataGrows(s: Client, user: UserCode)
    ensures s.log <= SpillData(s, user).log
  {
    hide Utf8.Run, HandOver;
    var check := s.checks.checkUtf8 && !s.checks.defeatCheck;
    var r := if check then Utf8.Run(s.checks.utf8, s.buf) else Utf8.Ok(s.checks.utf8);
    if r.Ok? { HandOverGrows(s.(checks := s.checks.(utf8 := r.state)), user); }
  }

  lemma BeginGrows(s: Client, user: UserCode)
    ensures s.log <= Begin(s, user).log
  {
    hide Spill;
    SpillGrows(s.(parse := ServerRx.New), user);
  }

  lemma AfterLengthGrows(s: Client, len: nat, user: UserCode)
    ensures s.log <= AfterLength(s, len, user).log
  {
    hide Begin;
    BeginGrows(s.(len := len), user);
  }

  lemma LengthByteGrows(s: Client, c: byte, user: UserCode)
    ensures s.log <= LengthByte(s, c, user).log
  {
    hide AfterLength;
    AfterLengthGrows(s.(masked := c / 128 == 1), c, user);
  }

  lemma KeyByteGrows(s: Client, i: nat, c: byte, user: UserCode)
    requires i < 4
    ensures s.log <= KeyByteIn(s, i, c, user).log
  {
    hide Begin;
    BeginGrows(s.(key := s.key.(mask := s.key.mask[i := c], zero := s.key.zero && c == 0)), user);
  }

  lemma PayloadByteGrows(s: Client, c: byte, user: UserCode)
    ensures s.log <= PayloadByte(s, c, user).log
  {
    var t := Store(s, c);
    assert t.log == s.log;
    hide Spill, Store;
    SpillGrows(t.(parse := ServerRx.New), user);
    SpillGrows(t, user);
  }

  lemma Len64ByteGrows(s: Client, k: nat, c: byte, user: UserCode)
    ensures s.log <= Len64Byte(s, k, c, user).log
  {
    hide AfterLength, Power256;
    AfterLengthGrows(s, s.len + c, user);
  }

  lemma FeedGrows(s: Client, c: byte, user: UserCode)
    ensures s.log <= Feed(s, c, user).log
  {
    hide LengthByte, AfterLength, Len64Byte, KeyByteIn, PayloadByte, FinChecks, FirstChecks, FaultyFirst;
    if s.outcome == Open {
      match s.parse
      case New =>
      case HdrLen => LengthByteGrows(s, c, user);
      case Len16High =>
      case Len16Low => AfterLengthGrows(s, s.len + c, user);
      case Len64(k) => Len64ByteGrows(s, k, c, user);
      case KeyByte(i) => if i < 4 { KeyByteGrows(s, i, c, user); }
      case Payload => PayloadByteGrows(s, c, user);
    }
  }

  lemma {:induction false} FeedAllGrows(s: Client, data: seq<byte>, user: UserCode)
    ensures s.log <= FeedAll(s, data, user).log
    decreases |data|
  {
    hide Feed;
    if data != [] {
      FeedGrows(s, data[0], user);
      FeedAllGrows(Feed(s, data[0], user), data[1..], user);
    }
  }

  /** A beginning of an accepted stream leaves the client open, with a beginning of what the whole delivers. */
  lemma BeginningOf(s: Client, all: seq<byte>, read: seq<byte>, user: UserCode)
    requires read <= all && FeedAll(s, all, user).outcome == Open
    ensures FeedAll(s, read, user).outcome == Open
    ensures Delivery.Delivered(FeedAll(s, read, user).log) <= Delivery.Delivered(FeedAll(s, all, user).log)
  {
    hide FeedAll, Delivery.Delivered;
    var t, rest := FeedAll(s, read, user), all[|read|..];
    assert all == read + rest;
    FeedAllAppend(s, read, rest, user);
    if t.outcome != Open { FeedAllDead(t, rest, user); }
    FeedAllGrows(t, rest, user);
    Delivery.DeliveredMonotone(t.log, FeedAll(t, rest, user).log);
  }

  /**
   * However the server's writes and the socket's short writes interleave, and however much of the stream a
   * fresh client has read: if the accepted frames conform, the client is open and user code has a prefix of
   * their payload bytes, tagged with opcode and FIN. Once all has been sent and read, the client is open
   * exactly if they conform, and user code then has all of it.
   */
  lemma ServerToClientPrefix(
      ops: seq<Send.Op>, bufferSize: nat, read: seq<byte>, cap: nat, validate: bool, user: UserCode)
    requires NoCloses(ops) && Send.AllWritable(ops) && Send.NeverBare(IDLE, ops, bufferSize)
    requires cap > 0 && Patient(user) && read <= Send.Run(IDLE, ops, bufferSize).wire
    ensures Framed(Send.Run(IDLE, ops, bufferSize).items)
    ensures var t := Send.Run(IDLE, ops, bufferSize);
      var fs := WireFrames(t.items);
      var u := FeedAll(Fresh(cap, validate), read, user);
      && (Conformant(NoMessage, fs, validate) ==> u.outcome == Open && Delivery.Delivered(u.log) <= StreamShown(fs))
      && (t.pending == [] && read == t.wire ==>
            && (u.outcome == Open <==> Conformant(NoMessage, fs, validate))
            && (u.outcome == Open ==> Delivery.Delivered(u.log) == StreamShown(fs)))
  {
    assert Send.AllBytes([], false) == [];
    assert Framed(IDLE.items) && Send.Conserved(IDLE);
    RunFramed(IDLE, ops, bufferSize);
    Send.RunConserves(IDLE, ops, bufferSize);
    hide FeedAll, Send.Run, Send.AllBytes, Delivery.Delivered, Conformant, StreamShown, WireFrames;
    var t := Send.Run(IDLE, ops, bufferSize);
    var fs := WireFrames(t.items);
    BytesAreStream(t.items);
    FreshAcceptsExactlyConformant(cap, validate, fs, user);
    if Conformant(NoMessage, fs, validate) { BeginningOf(Fresh(cap, validate), Stream(fs), read, user); }
    assert t.pending == [] ==> t.wire == t.wire + t.pending;
  }
}
