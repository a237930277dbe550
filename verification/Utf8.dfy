/** The packed-byte UTF-8 checker (lws_check_utf8) is exact and indifferent to how text is split. */
module Utf8 {
  import opened Bytes

  // ---- what the code does ----

  /** Entries e0..f4, then s0, s2, s3: low end | (sixteens - 1) << 2 | index of what follows. */
  const E0F4: seq<byte> := [
    0xa5, 0x8d, 0x8d, 0x8d, 0x8d, 0x8d, 0x8d, 0x8d, 0x8d, 0x8d, 0x8d, 0x8d, 0x8d, 0x85, 0x8d, 0x8d,
    0x9a, 0x8e, 0x8e, 0x8e, 0x82,
    0, 0x8c, 0x8d]

  datatype Check = Bad | Ok(state: byte)

  function Low(s: byte): nat { s / 16 * 16 }

  function High(s: byte): nat { Low(s) + 16 + s / 4 % 4 * 16 }

  function Lead(c: byte): Check {
    if c < 0x80 then Ok(0)
    else if c < 0xc2 || c > 0xf4 then Bad
    else if c < 0xe0 then Ok(0x8c)
    else Ok(E0F4[c - 0xe0])
  }

  function Follow(s: byte): byte
    requires s % 4 < 3
  {
    E0F4[21 + s % 4]
  }

  function Step(s: byte, c: byte): Check {
    if s == 0 then Lead(c)
    else if c < Low(s) || c >= High(s) || s % 4 == 3 then Bad
    else Ok(Follow(s))
  }

  function Run(s: byte, text: seq<byte>): Check
    decreases |text|
  {
    if text == [] then Ok(s)
    else match Step(s, text[0])
      case Bad => Bad
      case Ok(t) => Run(t, text[1..])
  }

  /** lws_check_utf8: the state is updated only if the text is fine so far. */
  method CheckUtf8(state: byte, buf: seq<byte>) returns (bad: bool, next: byte)
    requires Known(state)
    ensures bad == (Run(state, buf) == Bad)
    ensures next == if bad then state else Run(state, buf).state
  {
    var s := state;
    assert buf[0..] == buf;
    for i := 0 to |buf|
      invariant Known(s) && Run(state, buf) == Run(s, buf[i..])
    {
      var c := buf[i];
      StepKnown(s, c);
      assert buf[i..][1..] == buf[i + 1..];
      if s == 0 {
        if c >= 0x80 {
          if c < 0xc2 || c > 0xf4 {
            return true, state;
          }
          s := if c < 0xe0 then 0x8c else E0F4[c - 0xe0];
        }
      } else {
        if c < s / 16 * 16 || c >= s / 16 * 16 + 16 + s / 4 % 4 * 16 {
          return true, state;
        }
        s := E0F4[21 + s % 4];
      }
    }
    return false, s;
  }

  // ---- what it should do: section 4 of RFC 3629 ----

  predicate Tail(c: byte) { 0x80 <= c <= 0xbf }

  predicate IsChar(b: seq<byte>) {
    || (|b| == 1 && b[0] <= 0x7f)
    || (|b| == 2 && 0xc2 <= b[0] <= 0xdf && Tail(b[1]))
    || (|b| == 3 && Tail(b[2]) && (
          || (b[0] == 0xe0 && 0xa0 <= b[1] <= 0xbf)
          || (0xe1 <= b[0] <= 0xec && Tail(b[1]))
          || (b[0] == 0xed && 0x80 <= b[1] <= 0x9f)
          || (0xee <= b[0] <= 0xef && Tail(b[1]))))
    || (|b| == 4 && Tail(b[2]) && Tail(b[3]) && (
          || (b[0] == 0xf0 && 0x90 <= b[1] <= 0xbf)
          || (0xf1 <= b[0] <= 0xf3 && Tail(b[1]))
          || (b[0] == 0xf4 && 0x80 <= b[1] <= 0x8f)))
  }

  ghost predicate Valid(text: seq<byte>)
    decreases |text|
  {
    text == [] || exists k | 1 <= k <= |text| :: IsChar(text[..k]) && Valid(text[k..])
  }

  /** Text that can still become valid. */
  ghost predicate Viable(text: seq<byte>) {
    exists more: seq<byte> :: Valid(text + more)
  }

  // ---- why it does ----

  /** The states that occur: between characters, or owing one to three bytes. */
  predicate Known(s: byte) { s in {0, 0x8c, 0xa5, 0x8d, 0x85, 0x9a, 0x8e, 0x82} }

  /** `rest` completes the character of which `s` has seen the beginning. */
  predicate Completes(s: byte, rest: seq<byte>)
    decreases |rest|
  {
    if s == 0 then rest == []
    else rest != [] && match Step(s, rest[0])
      case Bad => false
      case Ok(t) => Completes(t, rest[1..])
  }

  lemma StepKnown(s: byte, c: byte)
    requires Known(s)
    ensures match Step(s, c) case Bad => true case Ok(t) => Known(t)
    ensures s % 4 < 3
  {
    if s == 0 && 0xe0 <= c <= 0xf4 {
      LeadTable(c);
    }
  }

  lemma LeadTable(c: byte)
    requires 0xe0 <= c <= 0xf4
    ensures E0F4[c - 0xe0] ==
      if c == 0xe0 then 0xa5 else if c == 0xed then 0x85 else if c < 0xf0 then 0x8d
      else if c == 0xf0 then 0x9a else if c < 0xf4 then 0x8e else 0x82
  {
  }

  lemma OneOwed(s: byte, rest: seq<byte>)
    requires s == 0x8c
    ensures Completes(s, rest) <==> |rest| == 1 && Tail(rest[0])
  {
    if rest != [] {
      assert Follow(s) == 0;
      NoneOwed(Follow(s), rest[1..]);
    }
  }

  lemma TwoOwed(s: byte, rest: seq<byte>)
    requires s in {0x8d, 0xa5, 0x85}
    ensures Completes(s, rest) <==> |rest| == 2 && Low(s) <= rest[0] < High(s) && Tail(rest[1])
  {
    if rest != [] {
      assert Follow(s) == 0x8c;
      OneOwed(Follow(s), rest[1..]);
    }
  }

  lemma ThreeOwed(s: byte, rest: seq<byte>)
    requires s in {0x8e, 0x9a, 0x82}
    ensures Completes(s, rest) <==>
      |rest| == 3 && Low(s) <= rest[0] < High(s) && Tail(rest[1]) && Tail(rest[2])
  {
    if rest != [] {
      assert Follow(s) == 0x8d && Low(0x8d) == 0x80 && High(0x8d) == 0xc0;
      TwoOwed(0x8d, rest[1..]);
    }
  }

  /** A lead byte and what completes it are one character, and every character is one. */
  lemma CharOf(c: byte, rest: seq<byte>)
    ensures IsChar([c] + rest) <==> Lead(c).Ok? && Completes(Lead(c).state, rest)
  {
    hide Completes;
    var b := [c] + rest;
    assert forall i | 0 <= i < |rest| :: b[i + 1] == rest[i];
    if 0xe0 <= c <= 0xf4 {
      LeadTable(c);
    }
    if c < 0x80 {
      NoneOwed(Lead(c).state, rest);
    } else if 0xc2 <= c < 0xe0 {
      OneOwed(Lead(c).state, rest);
    } else if 0xe0 <= c < 0xf0 {
      TwoOwed(Lead(c).state, rest);
    } else if 0xf0 <= c <= 0xf4 {
      ThreeOwed(Lead(c).state, rest);
    }
  }

  lemma NoneOwed(s: byte, rest: seq<byte>)
    requires s == 0
    ensures Completes(s, rest) <==> rest == []
  {
  }

  lemma {:induction false} RunAppend(s: byte, a: seq<byte>, b: seq<byte>)
    ensures Run(s, a + b) == match Run(s, a) case Bad => Bad case Ok(t) => Run(t, b)
    decreases |a|
  {
    if a == [] {
      assert a + b == b;
    } else {
      assert (a + b)[1..] == a[1..] + b;
      if Step(s, a[0]).Ok? {
        RunAppend(Step(s, a[0]).state, a[1..], b);
      }
    }
  }

  /** The rest of a text is fine in a state if it finishes the character and is valid after that. */
  ghost predicate Finishes(s: byte, text: seq<byte>) {
    exists k | 0 <= k <= |text| :: Completes(s, text[..k]) && Valid(text[k..])
  }

  lemma FinishesStep(s: byte, text: seq<byte>)
    requires Known(s) && s != 0 && text != []
    ensures Finishes(s, text) <==> Step(s, text[0]).Ok? && Finishes(Step(s, text[0]).state, text[1..])
  {
    hide Valid, Step;
    if Finishes(s, text) {
      var k :| 0 <= k <= |text| && Completes(s, text[..k]) && Valid(text[k..]);
      assert text[..k][1..] == text[1..][..k - 1] && text[1..][k - 1..] == text[k..];
    }
    if Step(s, text[0]).Ok? && Finishes(Step(s, text[0]).state, text[1..]) {
      var t := Step(s, text[0]).state;
      var j :| 0 <= j <= |text[1..]| && Completes(t, text[1..][..j]) && Valid(text[1..][j..]);
      assert text[..j + 1][1..] == text[1..][..j] && text[1..][j..] == text[j + 1..];
    }
  }

  lemma FinishesChar(text: seq<byte>)
    requires text != []
    ensures Valid(text) <==> Lead(text[0]).Ok? && Finishes(Lead(text[0]).state, text[1..])
  {
    hide Lead, Completes, IsChar;
    if Valid(text) {
      var k :| 1 <= k <= |text| && IsChar(text[..k]) && Valid(text[k..]);
      hide Valid;
      CharThen(text, k);
    }
    if Lead(text[0]).Ok? && Finishes(Lead(text[0]).state, text[1..]) {
      var s := Lead(text[0]).state;
      var j :| 0 <= j <= |text[1..]| && Completes(s, text[1..][..j]) && Valid(text[1..][j..]);
      hide Finishes;
      CharThen(text, j + 1);
    }
  }

  lemma CharThen(text: seq<byte>, k: nat)
    requires 1 <= k <= |text|
    ensures text[1..][k - 1..] == text[k..]
    ensures IsChar(text[..k]) <==> Lead(text[0]).Ok? && Completes(Lead(text[0]).state, text[1..][..k - 1])
  {
    hide Lead, Completes, IsChar;
    assert text[..k] == [text[0]] + text[1..][..k - 1];
    CharOf(text[0], text[1..][..k - 1]);
  }

  /** From any state, the checker ends between characters exactly on the texts that finish it. */
  lemma {:induction false} RunIsFinishing(s: byte, text: seq<byte>)
    requires Known(s)
    ensures Run(s, text) == Ok(0) <==> if s == 0 then Valid(text) else Finishes(s, text)
    decreases |text|
  {
    hide Step, Finishes, Valid;
    if text == [] {
      NothingLeft(s);
    } else {
      StepKnown(s, text[0]);
      StepLead(text[0]);
      if s == 0 {
        FinishesChar(text);
      } else {
        FinishesStep(s, text);
      }
      if Step(s, text[0]).Ok? {
        var t := Step(s, text[0]).state;
        RunIsFinishing(t, text[1..]);
        FinishesNothing(text[1..]);
      }
    }
  }

  lemma StepLead(c: byte)
    ensures Step(0, c) == Lead(c)
  {
  }

  lemma NothingLeft(s: byte)
    ensures Valid([]) && (s != 0 ==> !Finishes(s, []))
  {
  }

  lemma FinishesNothing(text: seq<byte>)
    ensures Finishes(0, text) <==> Valid(text)
  {
    if Valid(text) {
      assert text[..0] == [] && text[0..] == text;
      assert Completes(0, text[..0]) && Valid(text[0..]);
    }
    if Finishes(0, text) {
      var k :| 0 <= k <= |text| && Completes(0, text[..k]) && Valid(text[k..]);
      assert text[k..] == text;
    }
  }

  /** The checker accepts a whole text exactly if it is valid UTF-8. */
  lemma CheckIsExact(text: seq<byte>)
    ensures Run(0, text) == Ok(0) <==> Valid(text)
  {
    RunIsFinishing(0, text);
  }

  /** Bytes that bring any state to the end of its character. */
  function Completion(s: byte): seq<byte> {
    if s == 0 then []
    else if s == 0x8c then [0x80]
    else if s == 0xa5 then [0xa0, 0x80]
    else if s == 0x8d || s == 0x85 then [0x80, 0x80]
    else if s == 0x9a then [0x90, 0x80, 0x80]
    else [0x80, 0x80, 0x80]
  }

  lemma {:induction false} CompletionWorks(s: byte)
    requires Known(s)
    ensures Run(s, Completion(s)) == Ok(0)
    decreases |Completion(s)|
  {
    if s != 0 {
      var t := Follow(s);
      assert Step(s, Completion(s)[0]) == Ok(t);
      assert Completion(s)[1..] == Completion(t);
      CompletionWorks(t);
    }
  }

  lemma {:induction false} RunKnown(s: byte, text: seq<byte>)
    requires Known(s)
    ensures match Run(s, text) case Bad => true case Ok(t) => Known(t)
    decreases |text|
  {
    if text != [] {
      StepKnown(s, text[0]);
      if Step(s, text[0]).Ok? {
        RunKnown(Step(s, text[0]).state, text[1..]);
      }
    }
  }

  /** It rejects a beginning of a text exactly when nothing can make that valid any more. */
  lemma RejectsAtOnce(text: seq<byte>)
    ensures Run(0, text).Ok? <==> Viable(text)
  {
    hide Run, Valid;
    RunKnown(0, text);
    if Run(0, text).Ok? {
      var s := Run(0, text).state;
      var more := Completion(s);
      CompletionWorks(s);
      RunAppend(0, text, more);
      CheckIsExact(text + more);
      assert Valid(text + more);
    }
    if Viable(text) {
      var more: seq<byte> :| Valid(text + more);
      CheckIsExact(text + more);
      RunAppend(0, text, more);
    }
  }
}
