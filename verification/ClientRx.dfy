/** The client's frame parser (lws_client_rx_sm): header checks, text validation and control frames. */
module ClientRx {
  import opened Bytes
  import opened Frames
  import opened ServerRx
  import Utf8

  /** Per-message and per-frame checking state. */
  datatype Checks = Checks(
    continuationPossible: bool, owedAFin: bool,
    checkUtf8: bool, defeatCheck: bool, utf8: byte)

  /** Rejected: the frame parser found a fault. Closed: user code or a Close frame ended the connection. */
  datatype Outcome = Open | Rejected | Closed

  datatype Client = Client(
    parse: Parse, opcode: nat, fin: bool, masked: bool, key: Keying,
    len: nat, buf: seq<byte>, cap: nat, validate: bool,
    checks: Checks, pingPending: bool, ping: seq<byte>, closeReason: bool, ws: WsState,
    log: seq<Event>, outcome: Outcome)

  /** A connection just established. */
  function Fresh(cap: nat, validate: bool): Client {
    Client(New, 0, false, false, Keying(false, [0, 0, 0, 0], 0), 0, [], cap, validate,
           Checks(false, false, false, false, 0), false, [], false, Established, [], Open)
  }

  /** User code: the result of a callback, given everything delivered so far. */
  type UserCode = seq<Event> -> int

  predicate ReservedOpcode(opcode: nat) { 3 <= opcode <= 7 || opcode >= 11 }

  function FirstChecks(k: Checks, opcode: nat, validate: bool): Checks {
    var d := k.(defeatCheck := false);
    if opcode == TEXT then d.(continuationPossible := true, checkUtf8 := validate, utf8 := 0)
    else if opcode == BINARY then d.(continuationPossible := true, checkUtf8 := false)
    else if opcode == CONTINUATION then d
    else if opcode == CLOSE then d.(checkUtf8 := false, utf8 := 0)
    else d.(defeatCheck := true)
  }

  function FinChecks(k: Checks, opcode: nat, fin: bool): Checks {
    if fin && !IsControl(opcode) then k.(continuationPossible := false, owedAFin := false)
    else if !fin then k.(owedAFin := true)
    else k
  }

  /** The faults the first byte of a frame can have, in the order the code looks for them. */
  predicate FaultyFirst(k: Checks, c: byte) {
    var opcode := c % 16;
    || (opcode == CONTINUATION && !k.continuationPossible)
    || ReservedOpcode(opcode)
    || c / 16 % 8 != 0
    || (k.owedAFin && (opcode == TEXT || opcode == BINARY))
    || (IsControl(opcode) && c < 128)
  }

  function FirstByteIn(s: Client, c: byte): Client {
    var opcode, fin := c % 16, c >= 128;
    if FaultyFirst(s.checks, c) then s.(outcome := Rejected)
    else s.(opcode := opcode, fin := fin, parse := HdrLen,
            checks := FinChecks(FirstChecks(s.checks, opcode, s.validate), opcode, fin))
  }

  function CallUser(s: Client, e: Event, user: UserCode): (Client, int) {
    (s.(log := s.log + [e]), user(s.log + [e]))
  }

  predicate BadCloseCode(code: nat) {
    code < 1000 || 1004 <= code <= 1006 || 1012 <= code < 3000
  }

  /** A Close code the peer must not use is replaced by 1002 in what is reported and echoed. */
  function CheckedClose(buf: seq<byte>): seq<byte> {
    if |buf| >= 2 && BadCloseCode(buf[0] as int * 256 + buf[1]) then [1002 / 256, 1002 % 256] + buf[2..] else buf
  }

  function SpillClose(s: Client, user: UserCode): Client {
    if s.validate && |s.buf| > 2 && Utf8.Run(s.checks.utf8, s.buf[2..]) == Utf8.Bad then s.(outcome := Rejected)
    else if s.ws == AwaitingCloseAck then s.(outcome := Closed)
    else
      var (t, n) := CallUser(s, PeerClose(CheckedClose(s.buf)), user);
      if n != 0 then t.(outcome := Closed) else t.(ws := ReturnedClose, outcome := Closed)
  }

  function SpillPing(s: Client): Client {
    if s.closeReason || s.pingPending || |s.buf| > 125 then s.(buf := [])
    else s.(pingPending := true, ping := s.buf, buf := [])
  }

  /** Text is checked as it is handed over; a final frame must not end inside a character. */
  function SpillData(s: Client, user: UserCode): Client {
    var check := s.checks.checkUtf8 && !s.checks.defeatCheck;
    var r := if check then Utf8.Run(s.checks.utf8, s.buf) else Utf8.Ok(s.checks.utf8);
    if r == Utf8.Bad then s.(outcome := Rejected)
    else if check && s.len == 0 && s.fin && r.state != 0 then s.(outcome := Rejected)
    else
      HandOver(s.(checks := s.checks.(utf8 := r.state)), user)
  }

  /** Once a Close frame has been sent or answered, user code is not bothered any more. */
  function HandOver(s: Client, user: UserCode): Client {
    if s.ws == ReturnedClose || s.ws == AwaitingCloseAck then s.(buf := [])
    else
      var (t, n) := CallUser(s, Receive(s.opcode, s.fin, s.buf, s.len), user);
      if n != 0 then t.(outcome := Closed) else t.(buf := [])
  }

  function Spill(s: Client, user: UserCode): Client {
    if s.opcode == CLOSE then SpillClose(s, user)
    else if s.opcode == PING then SpillPing(s)
    else SpillData(s, user)
  }

  /** The header is complete: the payload comes next, or there is none. */
  function Begin(s: Client, user: UserCode): Client {
    if s.len != 0 then s.(parse := Payload) else Spill(s.(parse := New), user)
  }

  /** The frame's length is known. */
  function AfterLength(s: Client, len: nat, user: UserCode): Client {
    var t := s.(len := len);
    if t.masked then t.(parse := KeyByte(0)) else Begin(t, user)
  }

  /** Note that on a masked frame the code takes the mask bit into the short length. */
  function LengthByte(s: Client, c: byte, user: UserCode): Client {
    var t := s.(masked := c / 128 == 1);
    if c % 128 >= 126 then
      if IsControl(s.opcode) then t.(outcome := Rejected)
      else t.(parse := if c % 128 == 126 then Len16High else Len64(8))
    else AfterLength(t, c, user)
  }

  function Len64Byte(s: Client, k: nat, c: byte, user: UserCode): Client {
    if k == 8 then
      if c >= 128 then s.(outcome := Rejected) else s.(len := c * Power256(7), parse := Len64(7))
    else if k >= 2 then s.(len := s.len + c * Power256(k - 1), parse := Len64(k - 1))
    else AfterLength(s, s.len + c, user)
  }

  function KeyByteIn(s: Client, i: nat, c: byte, user: UserCode): Client
    requires i < 4
  {
    var t := s.(key := s.key.(mask := s.key.mask[i := c], zero := s.key.zero && c == 0));
    if i < 3 then t.(parse := KeyByte(i + 1)) else Begin(t, user)
  }

  function Store(s: Client, c: byte): Client {
    var unmask := s.masked && !s.key.zero;
    s.(buf := s.buf + [if unmask then Unmasked(s.key, c) else c],
       key := if unmask then Advance(s.key, 1) else s.key,
       len := Decrement(s.len))
  }

  function PayloadByte(s: Client, c: byte, user: UserCode): Client {
    var t := Store(s, c);
    if t.len == 0 then Spill(t.(parse := New), user)
    else if |t.buf| != t.cap then t
    else Spill(t, user)
  }

  /** One received byte. */
  function Feed(s: Client, c: byte, user: UserCode): Client {
    if s.outcome != Open then s
    else match s.parse
      case New => FirstByteIn(s, c)
      case HdrLen => LengthByte(s, c, user)
      case Len16High => s.(len := c * 256, parse := Len16Low)
      case Len16Low => AfterLength(s, s.len + c, user)
      case Len64(k) => Len64Byte(s, k, c, user)
      case KeyByte(i) => if i < 4 then KeyByteIn(s, i, c, user) else s
      case Payload => PayloadByte(s, c, user)
  }

  function FeedAll(s: Client, data: seq<byte>, user: UserCode): Client
    decreases |data|
  {
    if data == [] then s else FeedAll(Feed(s, data[0], user), data[1..], user)
  }

  lemma {:induction false} FeedAllAppend(s: Client, a: seq<byte>, b: seq<byte>, user: UserCode)
    ensures FeedAll(s, a + b, user) == FeedAll(FeedAll(s, a, user), b, user)
    decreases |a|
  {
    hide Feed;
    if a == [] {
      assert a + b == b;
    } else {
      FeedAllAppend(Feed(s, a[0], user), a[1..], b, user);
      assert (a + b)[1..] == a[1..] + b;
    }
  }

  lemma FeedAllNothing(s: Client, user: UserCode)
    ensures FeedAll(s, [], user) == s
  {
  }

  lemma FeedAllOne(s: Client, c: byte, user: UserCode)
    ensures FeedAll(s, [c], user) == Feed(s, c, user)
  {
    hide Feed;
    assert FeedAll(s, [c], user) == FeedAll(Feed(s, c, user), [c][1..], user);
  }

  lemma {:induction false} FeedAllDead(s: Client, data: seq<byte>, user: UserCode)
    requires s.outcome != Open
    ensures FeedAll(s, data, user) == s
    decreases |data|
  {
    if data != [] { FeedAllDead(s, data[1..], user); }
  }

  /** A length in the last seven bits is read as what it says exactly if the frame is not masked. */
  lemma ShortLengthReadExactly(s: Client, c: byte, user: UserCode)
    requires s.outcome == Open && s.parse == HdrLen && c % 128 < 126
    ensures Feed(s, c, user).len == c % 128 <==> c < 128
  {
    hide Utf8.Run;
    if c < 128 { SpillKeepsLength(s.(masked := false, len := c, parse := New), user); }
  }

  lemma SpillKeepsLength(s: Client, user: UserCode)
    ensures Spill(s, user).len == s.len
  {
    hide Utf8.Run, CheckedClose, HandOver;
    HandOverKeepsLength(s.(checks := SpillData(s, user).checks), user);
    SpillDataKeepsLength(s, user);
  }

  lemma SpillDataKeepsLength(s: Client, user: UserCode)
    ensures SpillData(s, user).len == s.len
  {
    hide Utf8.Run;
  }

  lemma HandOverKeepsLength(s: Client, user: UserCode)
    ensures HandOver(s, user).len == s.len
  {
  }

  /** So an empty masked frame leaves the client waiting for 128 bytes of payload. */
  lemma MaskedEmptyFrame(s: Client, user: UserCode)
    requires s.outcome == Open && s.parse == HdrLen
    ensures var t := FeedAll(s, [128, 0, 0, 0, 0], user); t.outcome == Open && t.parse == Payload && t.len == 128
  {
    hide Spill;
    var s1 := Feed(s, 128, user);
    var s2 := Feed(s1, 0, user);
    var s3 := Feed(s2, 0, user);
    var s4 := Feed(s3, 0, user);
    FeedAllAppend(s, [128], [0, 0, 0, 0], user);
    FeedAllOne(s, 128, user);
    FeedAllAppend(s1, [0], [0, 0, 0], user);
    FeedAllOne(s1, 0, user);
    FeedAllAppend(s2, [0], [0, 0], user);
    FeedAllOne(s2, 0, user);
    FeedAllAppend(s3, [0], [0], user);
    FeedAllOne(s3, 0, user);
    FeedAllOne(s4, 0, user);
    assert [128, 0, 0, 0, 0] == [128] + [0, 0, 0, 0] && [0, 0, 0, 0] == [0] + [0, 0, 0];
    assert [0, 0, 0] == [0] + [0, 0] && [0, 0] == [0] + [0];
  }
}
