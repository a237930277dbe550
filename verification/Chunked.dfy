/** Chunked transfer coding (section 4.1 of RFC 7230): the server's printer and the HTTP client's reader. */
module Chunked {
  import opened Bytes
  import opened Sequences

  const CR := 0x0d
  const LF := 0x0a
  const INT_LIMIT := 0x8000_0000

  // ---- what is written ----

  /** An upper-case digit, as printf's %X has it. */
  function HexDigit(n: nat): byte
    requires n < 16
  {
    if n < 10 then 0x30 + n else 0x41 + n - 10
  }

  function HexDigits(n: nat): (s: seq<byte>)
    ensures |s| > 0
  {
    if n < 16 then [HexDigit(n)] else HexDigits(n / 16) + [HexDigit(n % 16)]
  }

  function ChunkHeader(n: nat): seq<byte> { HexDigits(n) + [CR, LF] }

  /** One call's output: a chunk, and the terminating empty chunk after the last. */
  function Printed(data: seq<byte>, final: bool): seq<byte> {
    ChunkHeader(|data|) + data + [CR, LF] + if final then [0x30, CR, LF, CR, LF] else []
  }

  function PrintedAll(chunks: seq<seq<byte>>): seq<byte> {
    if chunks == [] then []
    else Printed(chunks[0], |chunks| == 1) + PrintedAll(chunks[1..])
  }

  // ---- what is read ----

  datatype State = Hex | Cr | Content | PostCr | PostLf

  /** Overflowed: the size ran past what the code's int can hold, where C promises nothing. */
  datatype Verdict = Reading | Completed | Malformed | Overflowed

  datatype Reader = Reader(state: State, remaining: nat, delivered: seq<byte>, verdict: Verdict)

  const FRESH := Reader(Hex, 0, [], Reading)

  function Feed(r: Reader, c: byte): Reader {
    if r.verdict != Reading then r
    else match r.state
      case Hex =>
        if c == CR then r.(state := Cr)
        else if CharToHex(c) < 0 then r.(verdict := Malformed)
        else if r.remaining * 16 + CharToHex(c) >= INT_LIMIT then r.(verdict := Overflowed)
        else r.(remaining := r.remaining * 16 + CharToHex(c))
      case Cr =>
        if c != LF then r.(verdict := Malformed)
        else if r.remaining == 0 then r.(state := Content, verdict := Completed)
        else r.(state := Content)
      case Content =>
        if r.remaining == 0 then r
        else r.(delivered := r.delivered + [c], remaining := r.remaining - 1,
                state := if r.remaining == 1 then PostCr else Content)
      case PostCr => if c != CR then r.(verdict := Malformed) else r.(state := PostLf)
      case PostLf => if c != LF then r.(verdict := Malformed) else r.(state := Hex, remaining := 0)
  }

  function FeedAll(r: Reader, data: seq<byte>): Reader
    decreases |data|
  {
    if data == [] then r else FeedAll(Feed(r, data[0]), data[1..])
  }

  lemma {:induction false} FeedAllAppend(r: Reader, a: seq<byte>, b: seq<byte>)
    ensures FeedAll(r, a + b) == FeedAll(FeedAll(r, a), b)
    decreases |a|
  {
    hide Feed;
    if a == [] {
      assert a + b == b;
    } else {
      FeedAllAppend(Feed(r, a[0]), a[1..], b);
      assert (a + b)[1..] == a[1..] + b;
    }
  }

  lemma {:induction false} FeedAllDead(r: Reader, data: seq<byte>)
    requires r.verdict != Reading
    ensures FeedAll(r, data) == r
    decreases |data|
  {
    if data != [] { FeedAllDead(r, data[1..]); }
  }

  /** Exactly what is malformed: no digit nor CR in a size, no LF behind that CR, no CR and LF behind the data. */
  lemma FaultsExactly(r: Reader, c: byte)
    requires r.verdict == Reading
    ensures
      var digit := exists k | 0 <= k < 16 :: c == "0123456789abcdef"[k] as int || c == "0123456789ABCDEF"[k] as int;
      Feed(r, c).verdict == Malformed <==>
        match r.state
        case Hex => c != 13 && !digit
        case Cr => c != 10
        case Content => false
        case PostCr => c != 13
        case PostLf => c != 10
    ensures Feed(r, c).verdict == Completed <==> r.state == Cr && c == 10 && r.remaining == 0
  {
    HexDigitsExactly(c, 0);
    hide CharToHex;
  }

  /** The digits printed for n are read back as n. */
  lemma {:induction false} DigitsRead(r: Reader, n: nat)
    requires r.verdict == Reading && r.state == Hex && r.remaining == 0 && n < INT_LIMIT
    ensures FeedAll(r, HexDigits(n)) == r.(remaining := n)
  {
    if n < 16 {
      assert FeedAll(r, [HexDigit(n)]) == FeedAll(Feed(r, HexDigit(n)), []);
    } else {
      var d := HexDigit(n % 16);
      DigitsRead(r, n / 16);
      FeedAllAppend(r, HexDigits(n / 16), [d]);
      var t := r.(remaining := n / 16);
      assert FeedAll(t, [d]) == FeedAll(Feed(t, d), []);
    }
  }

  lemma HeaderRead(r: Reader, n: nat)
    requires r.verdict == Reading && r.state == Hex && r.remaining == 0 && n < INT_LIMIT
    ensures FeedAll(r, ChunkHeader(n))
         == r.(remaining := n, state := Content, verdict := if n == 0 then Completed else Reading)
  {
    DigitsRead(r, n);
    FeedAllAppend(r, HexDigits(n), [CR, LF]);
    PairRead(r.(remaining := n), CR, LF);
  }

  lemma PairRead(r: Reader, a: byte, b: byte)
    ensures FeedAll(r, [a, b]) == Feed(Feed(r, a), b)
  {
    hide Feed;
    assert [a, b][1..] == [b];
    assert FeedAll(Feed(r, a), [b]) == FeedAll(Feed(Feed(r, a), b), []);
  }

  /** A stretch of chunk content that fits is delivered whole. */
  lemma {:induction false} ContentRead(r: Reader, data: seq<byte>)
    requires r.verdict == Reading && r.state == Content && 0 < |data| <= r.remaining
    ensures FeedAll(r, data) == r.(delivered := r.delivered + data, remaining := r.remaining - |data|,
                                   state := if r.remaining == |data| then PostCr else Content)
    decreases |data|
  {
    var t := Feed(r, data[0]);
    if |data| == 1 {
      assert data[1..] == [] && data == [data[0]];
    } else {
      ContentRead(t, data[1..]);
      assert r.delivered + data == t.delivered + data[1..];
    }
  }

  predicate Between(r: Reader) { r.verdict == Reading && r.state == Hex && r.remaining == 0 }

  lemma ChunkRead(r: Reader, data: seq<byte>)
    requires Between(r) && 0 < |data| < INT_LIMIT
    ensures FeedAll(r, ChunkHeader(|data|) + data + [CR, LF]) == r.(delivered := r.delivered + data)
  {
    hide Feed;
    HeaderRead(r, |data|);
    var s := r.(remaining := |data|, state := Content);
    ContentRead(s, data);
    var t := s.(delivered := r.delivered + data, remaining := 0, state := PostCr);
    FeedAllAppend(r, ChunkHeader(|data|) + data, [CR, LF]);
    FeedAllAppend(r, ChunkHeader(|data|), data);
    assert FeedAll(t, [CR, LF]) == r.(delivered := r.delivered + data) by { EndOfChunk(t); }
  }

  lemma EndOfChunk(t: Reader)
    requires t.verdict == Reading && t.state == PostCr
    ensures FeedAll(t, [CR, LF]) == t.(state := Hex, remaining := 0)
  {
    PairRead(t, CR, LF);
  }

  predicate Sized(chunks: seq<seq<byte>>) { forall i | 0 <= i < |chunks| :: |chunks[i]| < INT_LIMIT }

  /** The data a receiver of these chunks gets: everything before the first empty one. */
  function UpToEmpty(chunks: seq<seq<byte>>): (r: seq<seq<byte>>)
    ensures |r| <= |chunks|
  {
    if chunks == [] || chunks[0] == [] then [] else [chunks[0]] + UpToEmpty(chunks[1..])
  }

  lemma TerminatorRead(r: Reader, rest: seq<byte>)
    requires Between(r)
    ensures FeedAll(r, ChunkHeader(0) + rest) == r.(state := Content, verdict := Completed)
  {
    HeaderRead(r, 0);
    FeedAllAppend(r, ChunkHeader(0), rest);
    FeedAllDead(r.(state := Content, verdict := Completed), rest);
  }

  lemma {:induction false} PrintedRead(r: Reader, chunks: seq<seq<byte>>)
    requires Between(r) && chunks != [] && Sized(chunks)
    ensures FeedAll(r, PrintedAll(chunks))
         == r.(delivered := r.delivered + Concat(UpToEmpty(chunks)), state := Content, verdict := Completed)
    decreases |chunks|
  {
    hide FeedAll, PrintedAll, Concat;
    ConcatCons([], []);
    if chunks[0] == [] {
      EmptyFirst(r, chunks);
    } else {
      var t := r.(delivered := r.delivered + chunks[0]);
      OneChunk(r, chunks);
      ConcatCons(chunks[0], UpToEmpty(chunks[1..]));
      if |chunks| > 1 {
        PrintedRead(t, chunks[1..]);
        Regroup(r.delivered, chunks[0], Concat(UpToEmpty(chunks[1..])));
      } else {
        TerminatorRead(t, [CR, LF]);
        assert chunks[1..] == [] && chunks[0] + [] == chunks[0];
      }
    }
  }

  lemma ConcatCons(head: seq<byte>, tail: seq<seq<byte>>)
    ensures Concat([head] + tail) == head + Concat(tail) && Concat([]) == []
  {
    assert ([head] + tail)[1..] == tail;
  }

  lemma EmptyFirst(r: Reader, chunks: seq<seq<byte>>)
    requires Between(r) && chunks != [] && chunks[0] == []
    ensures FeedAll(r, PrintedAll(chunks)) == r.(state := Content, verdict := Completed)
    ensures r.delivered + [] == r.delivered
  {
    hide FeedAll, ChunkHeader;
    var more := [CR, LF] + (if |chunks| == 1 then [0x30, CR, LF, CR, LF] else []) + PrintedAll(chunks[1..]);
    assert PrintedAll(chunks) == ChunkHeader(0) + more;
    TerminatorRead(r, more);
  }

  /** The first chunk is read; what follows is the next one or the terminator. */
  lemma OneChunk(r: Reader, chunks: seq<seq<byte>>)
    requires Between(r) && chunks != [] && 0 < |chunks[0]| < INT_LIMIT
    ensures FeedAll(r, PrintedAll(chunks))
         == FeedAll(r.(delivered := r.delivered + chunks[0]),
                    if |chunks| == 1 then ChunkHeader(0) + [CR, LF] else PrintedAll(chunks[1..]))
  {
    hide FeedAll, ChunkHeader;
    var body := ChunkHeader(|chunks[0]|) + chunks[0] + [CR, LF];
    var rest := PrintedAll(chunks[1..]);
    ChunkRead(r, chunks[0]);
    LastHeader();
    if |chunks| == 1 {
      assert rest == [] && PrintedAll(chunks) == body + (ChunkHeader(0) + [CR, LF]);
      FeedAllAppend(r, body, ChunkHeader(0) + [CR, LF]);
    } else {
      assert PrintedAll(chunks) == body + rest;
      FeedAllAppend(r, body, rest);
    }
  }

  lemma LastHeader()
    ensures ChunkHeader(0) == [0x30, CR, LF]
  {
  }

  /**
   * However the bytes are cut into reads, what the client delivers is the data up to the first empty chunk,
   * and it completes there; that is all of the data exactly if nothing but empty chunks follow an empty one.
   */
  lemma RoundTrip(chunks: seq<seq<byte>>, parts: seq<seq<byte>>)
    requires chunks != [] && Sized(chunks) && Concat(parts) == PrintedAll(chunks)
    ensures var r := FeedEach(FRESH, parts);
      && r.verdict == Completed && r.delivered == Concat(UpToEmpty(chunks))
      && (r.delivered == Concat(chunks) <==> Concat(chunks[|UpToEmpty(chunks)|..]) == [])
  {
    hide FeedAll, PrintedAll;
    FeedEachConcat(FRESH, parts);
    PrintedRead(FRESH, chunks);
    UpToEmptyConcat(chunks);
    assert [] + Concat(UpToEmpty(chunks)) == Concat(UpToEmpty(chunks));
  }

  /** An instance: what comes behind an empty chunk is lost. */
  lemma EmptyChunkEndsEarly(parts: seq<seq<byte>>)
    requires Concat(parts) == PrintedAll([[1], [], [2]])
    ensures FeedEach(FRESH, parts).verdict == Completed && FeedEach(FRESH, parts).delivered == [1]
  {
    hide FeedEach, PrintedAll;
    var chunks: seq<seq<byte>> := [[1], [], [2]];
    RoundTrip(chunks, parts);
    assert UpToEmpty(chunks) == [[1]];
    assert Concat([[1 as byte]]) == [1];
  }

  lemma {:induction false} UpToEmptyConcat(chunks: seq<seq<byte>>)
    ensures |UpToEmpty(chunks)| <= |chunks|
    ensures Concat(chunks) == Concat(UpToEmpty(chunks)) + Concat(chunks[|UpToEmpty(chunks)|..])
  {
    if chunks == [] || chunks[0] == [] {
      assert chunks[0..] == chunks;
    } else {
      UpToEmptyConcat(chunks[1..]);
      var k := |UpToEmpty(chunks[1..])|;
      assert UpToEmpty(chunks)[1..] == UpToEmpty(chunks[1..]);
      assert chunks[1..][k..] == chunks[k + 1..];
    }
  }

  function FeedEach(r: Reader, parts: seq<seq<byte>>): Reader
    decreases |parts|
  {
    if parts == [] then r else FeedEach(FeedAll(r, parts[0]), parts[1..])
  }

  lemma {:induction false} FeedEachConcat(r: Reader, parts: seq<seq<byte>>)
    ensures FeedEach(r, parts) == FeedAll(r, Concat(parts))
    decreases |parts|
  {
    if parts != [] {
      FeedEachConcat(FeedAll(r, parts[0]), parts[1..]);
      FeedAllAppend(r, parts[0], Concat(parts[1..]));
    }
  }

  // ---- the code ----

  /** The framing tail of lws_chunked_html_process: the header goes in front of the data, the rest behind it. */
  method Print(a: array<byte>, p: nat, len: nat, maxLen: nat, final: bool) returns (ok: bool, start: nat, n: nat)
    requires |ChunkHeader(len)| <= p && p + len + 7 <= a.Length
    modifies a
    ensures ok == !((final || len > 0) && len + (if final then 7 else 6) >= maxLen)
    ensures ok ==> start + n <= a.Length && a[start..start + n] == Printed(old(a[p..p + len]), final)
  {
    ghost var data := a[p..p + len];
    start, n := p, len;
    if (len > 0 && len - 1 + 7 >= maxLen) || (final && len + 7 >= maxLen) {
      return false, start, n;
    }
    ok := true;
    var header := ChunkHeader(len);
    start := p - |header|;
    forall i | 0 <= i < |header| {
      a[start + i] := header[i];
    }
    n := |header| + len;
    assert a[start..start + n] == header + data;
    n := PutTail(a, start, n, final);
    assert header + data + [CR, LF] + [0x30, CR, LF, CR, LF] == header + data + ([CR, LF] + [0x30, CR, LF, CR, LF]);
  }

  method PutTail(a: array<byte>, start: nat, n: nat, final: bool) returns (m: nat)
    requires start + n + 7 <= a.Length
    modifies a
    ensures start + m <= a.Length
    ensures a[start..start + m] == old(a[start..start + n]) + [CR, LF] + if final then [0x30, CR, LF, CR, LF] else []
  {
    var sp := start + n;
    if final {
      a[sp], a[sp + 1], a[sp + 2], a[sp + 3] := CR, LF, 0x30, CR;
      a[sp + 4], a[sp + 5], a[sp + 6] := LF, CR, LF;
      m := n + 7;
    } else {
      a[sp], a[sp + 1] := CR, LF;
      m := n + 2;
    }
  }

  class HttpClient {
    var chunkParser: State
    var chunkRemaining: nat
    var verdict: Verdict
    /** What the user callback has been given, call after call. */
    ghost var delivered: seq<byte>

    ghost function State(): Reader
      reads this
    {
      Reader(chunkParser, chunkRemaining, delivered, verdict)
    }

    /** Between calls: content is only awaited while there is some, or after the last chunk. */
    ghost predicate Valid()
      reads this
    {
      chunkParser == Content ==> (verdict == Completed) == (chunkRemaining == 0)
    }

    constructor ()
      ensures Valid() && State() == FRESH
    {
      chunkParser, chunkRemaining, verdict, delivered := Hex, 0, Reading, [];
    }

    /** One byte of a header or of the line end behind a chunk; a completed transfer keeps its last byte. */
    method HeaderByte(c: byte)
      requires verdict == Reading && chunkParser != Content
      modifies this
      ensures Valid()
      ensures State() == Feed(old(State()), c)
    {
      match chunkParser {
        case Hex =>
          if c == CR {
            chunkParser := Cr;
          } else {
            var n := CharToHex(c);
            if n < 0 {
              verdict := Malformed;
            } else if chunkRemaining * 16 + n >= INT_LIMIT {
              verdict := Overflowed;
            } else {
              chunkRemaining := chunkRemaining * 16 + n;
            }
          }
        case Cr =>
          if c != LF {
            verdict := Malformed;
          } else {
            chunkParser := Content;
            if chunkRemaining == 0 {
              verdict := Completed;
            }
          }
        case PostCr =>
          if c != CR { verdict := Malformed; } else { chunkParser := PostLf; }
        case PostLf =>
          if c != LF { verdict := Malformed; } else { chunkParser, chunkRemaining := Hex, 0; }
      }
    }

    /** Headers up to the next content, or as far as the bytes go. */
    method Headers(data: seq<byte>, from: nat) returns (pos: nat)
      requires Valid() && from <= |data| && (verdict == Reading || chunkParser == Content)
      modifies this
      ensures Valid()
      ensures from <= pos <= |data| && FeedAll(State(), data[pos..]) == FeedAll(old(State()), data[from..])
      ensures verdict == Reading ==> pos == |data| || chunkParser == Content
      ensures verdict == old(verdict) || verdict != Reading
    {
      pos := from;
      while verdict == Reading && chunkParser != Content && pos < |data|
        invariant from <= pos <= |data| && FeedAll(State(), data[pos..]) == FeedAll(old(State()), data[from..])
        invariant Valid() && (verdict == old(verdict) || verdict != Reading)
        decreases |data| - pos
      {
        assert data[pos..][1..] == data[pos + 1..];
        HeaderByte(data[pos]);
        pos := pos + 1;
      }
    }

    /** As much content as there is: possibly nothing, which the callback is still told about. */
    method Deliver(data: seq<byte>, from: nat) returns (pos: nat)
      requires from <= |data| && verdict == Reading && chunkRemaining > 0 && (from < |data| ==> chunkParser == Content)
      modifies this
      ensures Valid()
      ensures from <= pos <= |data| && FeedAll(State(), data[pos..]) == FeedAll(old(State()), data[from..])
      ensures verdict == Reading && (from < |data| ==> from < pos)
    {
      var n := |data| - from;
      if chunkRemaining < n {
        n := chunkRemaining;
      }
      ghost var before := State();
      delivered := delivered + data[from..from + n];
      chunkRemaining := chunkRemaining - n;
      pos := from + n;
      if chunkRemaining == 0 {
        chunkParser := PostCr;
      }
      assert data[from..] == data[from..pos] + data[pos..];
      FeedAllAppend(before, data[from..pos], data[pos..]);
      if n > 0 {
        ContentRead(before, data[from..pos]);
      } else {
        assert delivered == before.delivered;
      }
    }

    /** lws_http_client_read, after the bytes have been read. */
    method Read(data: seq<byte>)
      requires Valid() && (verdict == Reading || (verdict == Completed && chunkParser == Content))
      modifies this
      ensures Valid() && State() == FeedAll(old(State()), data)
    {
      hide FeedAll;
      FeedAllNothing();
      var pos := 0;
      assert data[0..] == data;
      while true
        invariant pos <= |data| && FeedAll(State(), data[pos..]) == FeedAll(old(State()), data)
        invariant Valid() && (verdict == Reading || (verdict == Completed && chunkParser == Content))
        decreases |data| - pos
      {
        pos := Headers(data, pos);
        if verdict != Reading {
          FeedAllDead(State(), data[pos..]);
          return;
        }
        if chunkRemaining == 0 {
          assert data[|data|..] == [];
          return;
        }
        pos := Deliver(data, pos);
        if pos == |data| {
          assert data[|data|..] == [];
          return;
        }
      }
    }
  }

  lemma FeedAllNothing()
    ensures forall r: Reader {:trigger FeedAll(r, [])} :: FeedAll(r, []) == r
  {
  }
}
