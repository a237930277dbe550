/**
 * permessage-deflate, sending: the last bytes of each bufferload are held back until it is known whether
 * they are the trailer that section 7.2.1 of RFC 7692 wants removed. zlib is an oracle.
 */
module Deflate {
  import opened Bytes
  import opened Frames

  const TRAILER: seq<byte> := [0x00, 0x00, 0xff, 0xff]

  /** One call: what deflate() put into the output buffer, and whether the fragment asked for no FIN. */
  datatype Call = Call(out: seq<byte>, noFin: bool)

  /** tx_held while tx_held_valid is set. */
  datatype Held = Nothing | Five(bytes: seq<byte>)

  predicate Sane(h: Held) { h.Five? ==> |h.bytes| == 5 }

  /** More may follow: no FIN was asked for, or the output buffer was filled to the last byte. */
  predicate Goes(c: Call, size: nat) { c.noFin || |c.out| == size }

  function Back(c: Call, size: nat): nat { if Goes(c, size) then 5 else 4 }

  /** The bufferload before anything is taken off its end. */
  function Load(h: Held, c: Call): seq<byte>
    requires Sane(h)
  {
    match h
    case Nothing => c.out
    case Five(b) => if c.out == [] then [b[0]] else b + c.out
  }

  function Issued(h: Held, c: Call, size: nat): seq<byte>
    requires Sane(h)
  {
    var load, back := Load(h, c), Back(c, size);
    if |load| >= back then load[..|load| - back] else load
  }

  function Keep(h: Held, c: Call, size: nat): (k: Held)
    requires Sane(h)
    ensures Sane(k)
  {
    var load, back := Load(h, c), Back(c, size);
    if |load| >= back && back == 5 then Five(load[|load| - 5..]) else Nothing
  }

  function IssuedAll(h: Held, calls: seq<Call>, size: nat): seq<byte>
    requires Sane(h)
    decreases |calls|
  {
    if calls == [] then [] else Issued(h, calls[0], size) + IssuedAll(Keep(h, calls[0], size), calls[1..], size)
  }

  function KeptAfter(h: Held, calls: seq<Call>, size: nat): Held
    requires Sane(h)
    decreases |calls|
  {
    if calls == [] then h else KeptAfter(Keep(h, calls[0], size), calls[1..], size)
  }

  function Output(calls: seq<Call>): seq<byte> {
    if calls == [] then [] else calls[0].out + Output(calls[1..])
  }

  /** One message: calls that go on, then the last one. Any of them may yield nothing. */
  predicate Message(calls: seq<Call>, size: nat)
    decreases |calls|
  {
    calls != [] &&
    if |calls| == 1 then !Goes(calls[0], size)
    else Goes(calls[0], size) && Message(calls[1..], size)
  }

  /** The calls before the last that yield nothing while five bytes are held. */
  function Starved(h: Held, calls: seq<Call>, size: nat): nat
    requires Sane(h)
    decreases |calls|
  {
    if |calls| <= 1 then 0
    else (if h.Five? && calls[0].out == [] then 1 else 0) + Starved(Keep(h, calls[0], size), calls[1..], size)
  }

  /** At the last call something is held, or it yields a trailer of its own. */
  predicate Cut(h: Held, calls: seq<Call>, size: nat)
    requires Sane(h) && calls != []
    decreases |calls|
  {
    if |calls| == 1 then h.Five? || |calls[0].out| >= 4 else Cut(Keep(h, calls[0], size), calls[1..], size)
  }

  function InHand(h: Held): seq<byte> {
    if h.Five? then h.bytes else []
  }

  /** From the four bytes on that the first starving call loses, the output. */
  function FromLoss(h: Held, calls: seq<Call>, size: nat): seq<byte>
    requires Sane(h)
    decreases |calls|
  {
    if |calls| <= 1 then []
    else if h.Five? && calls[0].out == [] then h.bytes[1..] + Output(calls[1..])
    else FromLoss(Keep(h, calls[0], size), calls[1..], size)
  }

  function Trimmed(s: seq<byte>): seq<byte>
    requires |s| >= 4
  {
    s[..|s| - 4]
  }

  lemma TrimmedAppend(a: seq<byte>, b: seq<byte>)
    requires |b| >= 4
    ensures Trimmed(a + b) == a + Trimmed(b)
  {
  }

  /** A call that goes on and does not starve: issued and kept make up what was held and what came out. */
  lemma GoingOn(h: Held, c: Call, size: nat)
    requires Sane(h) && Goes(c, size) && !(h.Five? && c.out == [])
    ensures InHand(h) + c.out == Issued(h, c, size) + InHand(Keep(h, c, size))
    ensures Keep(h, c, size).Five? <==> h.Five? || |c.out| >= 5
  {
  }

  /** One that starves issues the first of the held bytes and forgets the others. */
  lemma Starving(h: Held, c: Call, size: nat)
    requires Sane(h) && Goes(c, size) && h.Five? && c.out == []
    ensures Issued(h, c, size) == [h.bytes[0]] && Keep(h, c, size) == Nothing
  {
  }

  lemma LastCall(h: Held, c: Call, size: nat)
    requires Sane(h) && !Goes(c, size)
    ensures Keep(h, c, size) == Nothing
    ensures h.Five? ==> Issued(h, c, size) == Trimmed(h.bytes + c.out)
    ensures h.Nothing? ==> Issued(h, c, size) == if |c.out| >= 4 then Trimmed(c.out) else c.out
  {
    if h.Five? && c.out == [] { assert h.bytes + c.out == h.bytes; }
  }

  lemma JustOne(h: Held, calls: seq<Call>, size: nat)
    requires Sane(h) && |calls| == 1
    ensures IssuedAll(h, calls, size) == Issued(h, calls[0], size) && Output(calls) == calls[0].out
    ensures KeptAfter(h, calls, size) == Keep(h, calls[0], size)
  {
    hide Issued, Keep;
    assert calls[1..] == [];
    assert Output(calls[1..]) == [];
    assert IssuedAll(Keep(h, calls[0], size), calls[1..], size) == [];
  }

  /** What every message comes to, byte for byte: each starving call costs four bytes, and so does the cut. */
  lemma {:induction false} Accounts(h: Held, calls: seq<Call>, size: nat)
    requires Sane(h) && Message(calls, size)
    ensures KeptAfter(h, calls, size) == Nothing
    ensures |IssuedAll(h, calls, size)| + 4 * Starved(h, calls, size) + (if Cut(h, calls, size) then 4 else 0)
         == |InHand(h)| + |Output(calls)|
    decreases |calls|
  {
    hide Issued, Keep, Goes;
    var c := calls[0];
    if |calls| == 1 {
      JustOne(h, calls, size);
      LastCall(h, c, size);
    } else {
      if h.Five? && c.out == [] { Starving(h, c, size); } else { GoingOn(h, c, size); }
      Accounts(Keep(h, c, size), calls[1..], size);
    }
  }

  /** Without a starving call, exactly what is cut is missing at the end. */
  lemma {:induction false} SnipsExactly(h: Held, calls: seq<Call>, size: nat)
    requires Sane(h) && Message(calls, size)
    ensures var all, issued := InHand(h) + Output(calls), IssuedAll(h, calls, size);
      Starved(h, calls, size) == 0 ==>
        if Cut(h, calls, size) then |all| >= 4 && issued == Trimmed(all) else issued == all
    decreases |calls|
  {
    hide Issued, Keep, Trimmed, Goes;
    var c, rest := calls[0], calls[1..];
    if |calls| == 1 {
      JustOne(h, calls, size);
      LastCall(h, c, size);
      assert [] + c.out == c.out;
    } else if !(h.Five? && c.out == []) {
      GoingOn(h, c, size);
      var k, x := Keep(h, c, size), Issued(h, c, size);
      SnipsExactly(k, rest, size);
      var tail := InHand(k) + Output(rest);
      Regroup(InHand(h), c.out, x, InHand(k), Output(rest));
      if |tail| >= 4 { TrimmedAppend(x, tail); }
    }
  }

  lemma Regroup(a: seq<byte>, b: seq<byte>, x: seq<byte>, y: seq<byte>, rest: seq<byte>)
    requires a + b == x + y
    ensures a + (b + rest) == x + (y + rest)
  {
    assert a + (b + rest) == (a + b) + rest;
  }

  // ---- the same in terms of what the calls yield ----

  /** Some call before the last yields enough to be held, or the last one has a trailer of its own. */
  predicate Snippable(calls: seq<Call>)
    requires calls != []
  {
    |calls[|calls| - 1].out| >= 4 || exists i | 0 <= i < |calls| - 1 :: |calls[i].out| >= 5
  }

  /** Every call before the last yields something. */
  predicate Fed(calls: seq<Call>) { forall i | 0 <= i < |calls| - 1 :: calls[i].out != [] }

  /** Once a call has yielded enough to be held, every further one before the last yields something. */
  predicate FedOnceHeld(calls: seq<Call>) {
    forall i, j | 0 <= i < j < |calls| - 1 :: |calls[i].out| >= 5 ==> calls[j].out != []
  }

  lemma {:induction false} NeverStarvesExactly(h: Held, calls: seq<Call>, size: nat)
    requires Sane(h) && Message(calls, size)
    ensures Starved(h, calls, size) == 0 <==> FedOnceHeld(calls) && (h.Five? ==> Fed(calls))
    decreases |calls|
  {
    hide Issued, Keep, Goes;
    if |calls| > 1 {
      var c, rest := calls[0], calls[1..];
      FedTail(calls);
      if h.Five? && c.out == [] {
        assert !Fed(calls);
      } else {
        GoingOn(h, c, size);
        NeverStarvesExactly(Keep(h, c, size), rest, size);
      }
    }
  }

  lemma FedTail(calls: seq<Call>)
    requires |calls| > 1
    ensures Fed(calls) <==> calls[0].out != [] && Fed(calls[1..])
    ensures FedOnceHeld(calls) <==> FedOnceHeld(calls[1..]) && (|calls[0].out| >= 5 ==> Fed(calls[1..]))
    ensures Fed(calls) ==> FedOnceHeld(calls)
  {
    var rest := calls[1..];
    assert forall i | 0 <= i < |rest| :: rest[i] == calls[i + 1];
    assert forall i | 0 < i < |calls| :: calls[i] == rest[i - 1];
  }

  lemma {:induction false} CutsExactly(h: Held, calls: seq<Call>, size: nat)
    requires Sane(h) && Message(calls, size) && Starved(h, calls, size) == 0
    ensures Cut(h, calls, size) <==> h.Five? || Snippable(calls)
    decreases |calls|
  {
    hide Issued, Keep, Goes, Snippable;
    if |calls| == 1 {
      assert Snippable(calls) <==> |calls[0].out| >= 4 by { LoneSnippable(calls); }
    } else {
      GoingOn(h, calls[0], size);
      CutsExactly(Keep(h, calls[0], size), calls[1..], size);
      SnippableTail(calls);
    }
  }

  lemma LoneSnippable(calls: seq<Call>)
    requires |calls| == 1
    ensures Snippable(calls) <==> |calls[0].out| >= 4
  {
  }

  lemma SnippableTail(calls: seq<Call>)
    requires |calls| > 1
    ensures Snippable(calls) <==> |calls[0].out| >= 5 || Snippable(calls[1..])
  {
    var rest := calls[1..];
    assert calls[|calls| - 1] == rest[|rest| - 1];
    if i :| 0 <= i < |calls| - 1 && |calls[i].out| >= 5 { assert i > 0 ==> rest[i - 1] == calls[i]; }
    if i :| 0 <= i < |rest| - 1 && |rest[i].out| >= 5 { assert calls[i + 1] == rest[i]; }
  }

  // ---- when the receiver, who appends the trailer again, gets the output back ----

  predicate EndsInTrailer(s: seq<byte>) { |s| >= 4 && s[|s| - 4..] == TRAILER }

  /** Read from its end, nothing but trailers, the first of them perhaps in part. */
  predicate OnlyTrailers(s: seq<byte>) {
    |s| >= 4 && forall j | 0 <= j < |s| :: s[|s| - 1 - j] == TRAILER[3 - j % 4]
  }

  lemma {:induction false} Repeats(s: seq<byte>, j: nat)
    requires |s| >= 4 && s[4..] + TRAILER == s && j < |s|
    ensures s[|s| - 1 - j] == TRAILER[3 - j % 4]
    decreases j
  {
    var i := |s| - 1 - j;
    assert (s[4..] + TRAILER)[i] == s[i];
    if j >= 4 { Repeats(s, j - 4); }
  }

  lemma MovedUpExactly(s: seq<byte>)
    requires |s| >= 4
    ensures s[4..] + TRAILER == s <==> OnlyTrailers(s)
  {
    if s[4..] + TRAILER == s {
      forall j | 0 <= j < |s| ensures s[|s| - 1 - j] == TRAILER[3 - j % 4] { Repeats(s, j); }
    }
    if OnlyTrailers(s) {
      forall i | 0 <= i < |s| ensures (s[4..] + TRAILER)[i] == s[i] {
        var j := |s| - 1 - i;
        assert s[|s| - 1 - j] == TRAILER[3 - j % 4];
        if j >= 4 { assert s[|s| - 1 - (j - 4)] == TRAILER[3 - (j - 4) % 4]; }
      }
    }
  }

  /** Where the one starving call lost its four bytes, if nothing was cut at the end. */
  lemma {:induction false} StarvedOnce(h: Held, calls: seq<Call>, size: nat) returns (p: seq<byte>)
    requires Sane(h) && Message(calls, size) && Starved(h, calls, size) == 1 && !Cut(h, calls, size)
    ensures var lost := FromLoss(h, calls, size);
      && |lost| >= 4
      && InHand(h) + Output(calls) == p + lost && IssuedAll(h, calls, size) == p + lost[4..]
    decreases |calls|
  {
    hide Issued, Keep, Goes, Trimmed;
    var c, rest := calls[0], calls[1..];
    if h.Five? && c.out == [] {
      Starving(h, c, size);
      SnipsExactly(Nothing, rest, size);
      p := [h.bytes[0]];
      assert h.bytes + Output(calls) == p + (h.bytes[1..] + Output(rest));
      assert [] + Output(rest) == Output(rest) == (h.bytes[1..] + Output(rest))[4..];
    } else {
      GoingOn(h, c, size);
      var k, x := Keep(h, c, size), Issued(h, c, size);
      var q := StarvedOnce(k, rest, size);
      p := x + q;
      Regroup(InHand(h), c.out, x, InHand(k), Output(rest));
      var lost := FromLoss(k, rest, size);
      assert x + (q + lost) == p + lost && x + (q + lost[4..]) == p + lost[4..];
    }
  }

  /**
   * For every message the receiver gets the output back in exactly two cases: no call starves, the end is cut
   * and is the trailer; or one call starves, nothing is cut, and all there is from the loss on is trailers.
   */
  lemma TrailerRemoved(calls: seq<Call>, size: nat)
    requires Message(calls, size)
    ensures IssuedAll(Nothing, calls, size) + TRAILER == Output(calls) <==>
      if Starved(Nothing, calls, size) == 0 then Cut(Nothing, calls, size) && EndsInTrailer(Output(calls))
      else
        Starved(Nothing, calls, size) == 1 && !Cut(Nothing, calls, size)
        && OnlyTrailers(FromLoss(Nothing, calls, size))
  {
    assert calls != [];
    hide Message, IssuedAll, KeptAfter, Starved, Cut, FromLoss, OnlyTrailers;
    var all, issued := Output(calls), IssuedAll(Nothing, calls, size);
    Accounts(Nothing, calls, size);
    assert [] + all == all;
    assert |issued + TRAILER| == |issued| + 4;
    hide Output, EndsInTrailer;
    if Starved(Nothing, calls, size) == 0 {
      SnipsExactly(Nothing, calls, size);
      if Cut(Nothing, calls, size) { TrimmedBack(all); }
    } else if Starved(Nothing, calls, size) == 1 && !Cut(Nothing, calls, size) {
      var p := StarvedOnce(Nothing, calls, size);
      MovedUpBack(p, FromLoss(Nothing, calls, size));
    }
  }

  lemma TrimmedBack(all: seq<byte>)
    requires |all| >= 4
    ensures Trimmed(all) + TRAILER == all <==> EndsInTrailer(all)
  {
    assert all == Trimmed(all) + all[|all| - 4..];
    SameRest(Trimmed(all), TRAILER, all[|all| - 4..]);
  }

  lemma MovedUpBack(p: seq<byte>, lost: seq<byte>)
    requires |lost| >= 4
    ensures p + lost[4..] + TRAILER == p + lost <==> OnlyTrailers(lost)
  {
    hide OnlyTrailers;
    MovedUpExactly(lost);
    assert p + lost[4..] + TRAILER == p + (lost[4..] + TRAILER);
    SameRest(p, lost[4..] + TRAILER, lost);
  }

  lemma SameRest(p: seq<byte>, a: seq<byte>, b: seq<byte>)
    ensures p + a == p + b <==> a == b
  {
    assert (p + a)[|p|..] == a && (p + b)[|p|..] == b;
  }

  /** A sync flush yields at least five bytes or fills the buffer: if every call yields something, all is well. */
  lemma FlushedFirst(calls: seq<Call>, size: nat)
    requires Message(calls, size) && |calls[0].out| >= 5 && EndsInTrailer(Output(calls))
    ensures Fed(calls) ==> IssuedAll(Nothing, calls, size) + TRAILER == Output(calls)
    ensures !Fed(calls) ==> Starved(Nothing, calls, size) > 0
  {
    hide Message, IssuedAll, Starved, Cut;
    NeverStarvesExactly(Nothing, calls, size);
    TrailerRemoved(calls, size);
    if Fed(calls) { CutsExactly(Nothing, calls, size); }
    else {
      var i :| 0 <= i < |calls| - 1 && calls[i].out == [];
      assert i > 0 && |calls[0].out| >= 5;
    }
  }

  /** Whole streams of messages: nothing is carried over from one to the next. */
  lemma {:induction false} Stream(messages: seq<seq<Call>>, size: nat)
    requires forall i | 0 <= i < |messages| :: Message(messages[i], size)
    ensures KeptAfter(Nothing, Joined(messages), size) == Nothing
    ensures IssuedAll(Nothing, Joined(messages), size) == IssuedEach(messages, size)
    decreases |messages|
  {
    if messages != [] {
      Accounts(Nothing, messages[0], size);
      Stream(messages[1..], size);
      IssuedAppend(Nothing, messages[0], Joined(messages[1..]), size);
    }
  }

  function Joined(messages: seq<seq<Call>>): seq<Call> {
    if messages == [] then [] else messages[0] + Joined(messages[1..])
  }

  function IssuedEach(messages: seq<seq<Call>>, size: nat): seq<byte> {
    if messages == [] then [] else IssuedAll(Nothing, messages[0], size) + IssuedEach(messages[1..], size)
  }

  lemma {:induction false} IssuedAppend(h: Held, a: seq<Call>, b: seq<Call>, size: nat)
    requires Sane(h)
    ensures Sane(KeptAfter(h, a, size))
    ensures IssuedAll(h, a + b, size) == IssuedAll(h, a, size) + IssuedAll(KeptAfter(h, a, size), b, size)
    ensures KeptAfter(h, a + b, size) == KeptAfter(KeptAfter(h, a, size), b, size)
    decreases |a|
  {
    hide Issued, Keep;
    if a == [] {
      assert a + b == b;
    } else {
      IssuedAppend(Keep(h, a[0], size), a[1..], b, size);
      assert (a + b)[1..] == a[1..] + b;
    }
  }

  lemma OutputFirst(calls: seq<Call>)
    requires calls != []
    ensures Output(calls) == calls[0].out + Output(calls[1..])
  {
  }

  /** An instance: with a buffer of two bytes the trailer comes out in two calls, nothing is cut, and it stays. */
  lemma ShortOutputsKeepTrailer()
    ensures var calls := [Call([0x00, 0x00], false), Call([0xff, 0xff], false), Call([], false)];
      && Message(calls, 2) && Output(calls) == TRAILER && !Snippable(calls)
      && IssuedAll(Nothing, calls, 2) == TRAILER
  {
    var c0, c1, c2 := Call([0x00, 0x00], false), Call([0xff, 0xff], false), Call([], false);
    var calls := [c0, c1, c2];
    assert calls[1..] == [c1, c2] && [c1, c2][1..] == [c2] && [c2][1..] == [];
    assert Message([c2], 2) && Message([c1, c2], 2);
    assert IssuedAll(Nothing, [c2], 2) == [];
    OutputFirst([c2]);
    OutputFirst([c1, c2]);
    OutputFirst(calls);
    assert c0.out + (c1.out + (c2.out + [])) == TRAILER;
    assert IssuedAll(Nothing, [c1, c2], 2) == [0xff, 0xff];
  }

  /** If a call yields nothing while five bytes are held, four of them are lost for good. */
  lemma EmptyCallLosesBytes(a: seq<byte>, size: nat)
    requires |a| == 5 && size > 5
    ensures var calls := [Call(a, true), Call([], true), Call(TRAILER, false)];
      Message(calls, size) && IssuedAll(Nothing, calls, size) == [a[0]]
  {
    var c0, c1, c2 := Call(a, true), Call([], true), Call(TRAILER, false);
    assert [c0, c1, c2][1..] == [c1, c2] && [c1, c2][1..] == [c2] && [c2][1..] == [];
    assert Message([c2], size) && Message([c1, c2], size);
    assert IssuedAll(Nothing, [c2], size) == [];
    assert IssuedAll(Five(a), [c1, c2], size) == [a[0]];
    assert Issued(Nothing, c0, size) == [] && Keep(Nothing, c0, size) == Five(a);
  }

  /** An instance of the other way to be right: the four bytes lost are the trailer, and nothing follows. */
  lemma LostTrailerIsHarmless(b: byte, size: nat)
    requires size > 5
    ensures var calls := [Call([b] + TRAILER, true), Call([], true), Call([], false)];
      && Message(calls, size) && Starved(Nothing, calls, size) == 1
      && IssuedAll(Nothing, calls, size) + TRAILER == Output(calls)
  {
    var a := [b] + TRAILER;
    var c0, c1, c2 := Call(a, true), Call([], true), Call([], false);
    assert [c0, c1, c2][1..] == [c1, c2] && [c1, c2][1..] == [c2] && [c2][1..] == [];
    assert Message([c2], size) && Message([c1, c2], size);
    OutputFirst([c2]);
    OutputFirst([c1, c2]);
    assert IssuedAll(Nothing, [c2], size) == [];
    assert Issued(Nothing, c0, size) == [] && Keep(Nothing, c0, size) == Five(a);
    assert IssuedAll(Five(a), [c1, c2], size) == [b];
    assert Starved(Five(a), [c1, c2], size) == 1;
  }

  // ---- the code ----

  class Compressor {
    /** 1 << args[PMD_TX_BUF_PWR2] */
    const size: nat
    const bufTxDeflated: array<byte>
    const txHeld: array<byte>
    var txHeldValid: bool

    ghost predicate Valid() {
      bufTxDeflated.Length == LWS_PRE + 7 + 5 + size && txHeld.Length == 5 && txHeld != bufTxDeflated
    }

    ghost function State(): (h: Held)
      reads this, txHeld
      requires Valid()
      ensures Sane(h)
    {
      if txHeldValid then Five(txHeld[..]) else Nothing
    }

    constructor (size: nat)
      ensures Valid() && State() == Nothing && this.size == size
    {
      this.size := size;
      var b, h := new byte[LWS_PRE + 7 + 5 + size](_ => 0), new byte[5](_ => 0);
      bufTxDeflated, txHeld, txHeldValid := b, h, false;
    }

    /** LWS_EXT_CB_PAYLOAD_TX around one deflate() call; `more` asks for another round. */
    method PayloadTx(c: Call) returns (token: nat, len: nat, more: bool)
      requires Valid() && |c.out| <= size
      modifies this, bufTxDeflated, txHeld
      ensures Valid() && token + len <= bufTxDeflated.Length
      ensures bufTxDeflated[token..token + len] == Issued(old(State()), c, size)
      ensures State() == Keep(old(State()), c, size)
      ensures more == (|c.out| == size)
    {
      token := Collect(c);
      var nextOut := LWS_PRE + 5 + |c.out|;
      len := nextOut - token;
      ghost var load := bufTxDeflated[token..nextOut];
      var extra := if c.noFin || |c.out| == size then 1 else 0;
      if len >= 4 + extra {
        txHeldValid := extra == 1;
        HoldBack(nextOut, 4 + extra);
        len := len - (4 + extra);
        assert bufTxDeflated[token..token + len] == load[..len];
        assert bufTxDeflated[nextOut - (4 + extra)..nextOut] == load[len..];
        assert extra == 1 ==> txHeld[..] == txHeld[..5] == load[len..];
      }
      more := |c.out| == size;
    }

    /** deflate()'s output with what is held in front of it. */
    method Collect(c: Call) returns (token: nat)
      requires Valid() && |c.out| <= size
      modifies this`txHeldValid, bufTxDeflated
      ensures Valid() && LWS_PRE <= token <= LWS_PRE + 5 && !txHeldValid
      ensures bufTxDeflated[token..LWS_PRE + 5 + |c.out|] == Load(old(State()), c)
    {
      token := LWS_PRE + 5;
      PutOutput(c);
      ghost var behind := bufTxDeflated[LWS_PRE + 5..];
      assert bufTxDeflated[LWS_PRE + 5..LWS_PRE + 5 + |c.out|] == behind[..|c.out|];
      if txHeldValid {
        txHeldValid := false;
        if |c.out| == 0 {
          token := token - 1;
          bufTxDeflated[token] := txHeld[0];
        } else {
          token := token - 5;
          PutHeld();
          assert bufTxDeflated[LWS_PRE + 5..][..|c.out|] == bufTxDeflated[LWS_PRE + 5..LWS_PRE + 5 + |c.out|];
          assert bufTxDeflated[token..LWS_PRE + 5 + |c.out|]
              == bufTxDeflated[token..token + 5] + bufTxDeflated[LWS_PRE + 5..LWS_PRE + 5 + |c.out|];
        }
      }
    }

    method PutOutput(c: Call)
      requires Valid() && |c.out| <= size
      modifies bufTxDeflated
      ensures bufTxDeflated[LWS_PRE + 5..LWS_PRE + 5 + |c.out|] == c.out
    {
      forall i | 0 <= i < |c.out| {
        bufTxDeflated[LWS_PRE + 5 + i] := c.out[i];
      }
    }

    method PutHeld()
      requires Valid()
      modifies bufTxDeflated
      ensures bufTxDeflated[LWS_PRE..LWS_PRE + 5] == txHeld[..]
      ensures bufTxDeflated[LWS_PRE + 5..] == old(bufTxDeflated[LWS_PRE + 5..])
    {
      forall i | 0 <= i < 5 {
        bufTxDeflated[LWS_PRE + i] := txHeld[i];
      }
    }

    method HoldBack(nextOut: nat, back: nat)
      requires Valid() && back <= 5 && back <= nextOut <= bufTxDeflated.Length
      modifies txHeld
      ensures txHeld[..back] == bufTxDeflated[nextOut - back..nextOut]
    {
      var n := back;
      while n > 0
        invariant 0 <= n <= back
        invariant forall i | n <= i < back :: txHeld[i] == bufTxDeflated[nextOut - back + i]
      {
        n := n - 1;
        txHeld[n] := bufTxDeflated[nextOut - back + n];
      }
    }
  }
}
