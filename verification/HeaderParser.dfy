/** The header parser (lws_parse): collected data, its fragments and their links, one received byte at a time. */
module HeaderParser {
  import opened Bytes
  import opened Options
  import opened UriPath
  import opened UriArgs

  const TOKENS := 86
  const FRAGS := 172
  const TOKEN_CHALLENGE := 8
  const TOKEN_SWORIGIN := 34
  const TOKEN_ORIGIN := 6
  const TOKEN_HTTP := 15
  const TOKEN_URI_ARGS := 76

  const CR: byte := 13
  const LF: byte := 10

  type Token = h: nat | h < TOKENS

  /** Sec-WebSocket-Origin counts as Origin. */
  function Mapped(h: Token): Token { if h == TOKEN_SWORIGIN then TOKEN_ORIGIN else h }

  /** GET, POST, OPTIONS, PUT, PATCH and DELETE. */
  predicate IsMethod(h: nat) { h <= 2 || 73 <= h <= 75 }

  datatype State = Collecting(h: Token) | NamePart | Skipping | SkippingSawCr | Complete

  /** What the table of header names says of the name read so far. */
  datatype Name = Unknown | Unfinished | Known(h: Token)

  /** A header with a value of its own kind of bytes: neither a method's target nor the end of all headers. */
  predicate IsValue(h: nat) { !IsMethod(h) && h != TOKEN_CHALLENGE }

  /** `next` is the fragment that continues this one, or 0. */
  datatype Frag = Frag(offset: nat, len: nat, next: nat)

  predicate Inside(f: Frag, limit: nat) { f.offset + f.len <= limit }

  /** Fragments 1..n are in order, disjoint and inside data[..pos], and every link goes forward. */
  ghost predicate WellLinked(fs: seq<Frag>, n: nat, pos: nat)
    requires n < |fs|
  {
    && (forall i | 1 <= i < n :: Inside(fs[i], fs[i + 1].offset))
    && (n >= 1 ==> Inside(fs[n], pos))
    && (forall i | 1 <= i <= n :: fs[i].next == 0 || i < fs[i].next <= n)
  }

  /** Sum of the lengths along the chain from fragment n; it ends because links go forward. */
  ghost function ChainLength(fs: seq<Frag>, last: nat, n: nat): nat
    requires n <= last < |fs|
    requires forall i | 1 <= i <= last :: fs[i].next == 0 || i < fs[i].next <= last
    decreases last - n
  {
    if n == 0 then 0
    else fs[n].len + if fs[n].next == 0 then 0 else ChainLength(fs, last, fs[n].next)
  }

  /** The end of the chain from fragment n. */
  ghost function LastOf(fs: seq<Frag>, last: nat, n: nat): (k: nat)
    requires 1 <= n <= last < |fs|
    requires forall i | 1 <= i <= last :: fs[i].next == 0 || i < fs[i].next <= last
    ensures n <= k <= last && fs[k].next == 0
    decreases last - n
  {
    if fs[n].next == 0 then n else LastOf(fs, last, fs[n].next)
  }

  lemma {:induction false} OffsetsGrow(fs: seq<Frag>, last: nat, pos: nat, i: nat, j: nat)
    requires last < |fs| && WellLinked(fs, last, pos) && 1 <= i < j <= last
    ensures fs[i].offset + fs[i].len <= fs[j].offset
    decreases j - i
  {
    assert Inside(fs[j - 1], fs[j].offset);
    if i < j - 1 {
      OffsetsGrow(fs, last, pos, i, j - 1);
    }
  }

  /** A header's fragments never overlap: together they are no longer than the data they lie in. */
  lemma {:induction false} ChainFits(fs: seq<Frag>, last: nat, pos: nat, n: nat)
    requires last < |fs| && WellLinked(fs, last, pos) && 1 <= n <= last
    ensures fs[n].offset + ChainLength(fs, last, n) <= pos
    decreases last - n
  {
    if fs[n].next != 0 {
      OffsetsGrow(fs, last, pos, n, fs[n].next);
      ChainFits(fs, last, pos, fs[n].next);
    } else if n < last {
      OffsetsGrow(fs, last, pos, n, last);
    }
  }

  /** What becomes of a byte of the request target: stored (perhaps changed), swallowed, or the request fails. */
  datatype Act = Proceed(c: byte) | Swallow | Fail

  /** A decoded path byte with no meaning of its own besides '/', '.' and '%'. */
  predicate Ordinary(c: byte) {
    c != 0 && c != CR && c != QUESTION && c != AMPERSAND && c != SEMICOLON && c != PLUS
  }

  /** In this state of the escape reader, the byte completes at most an ordinary one. */
  predicate OrdinaryStep(escape: Escape, c: byte) {
    match escape
    case NoEscape => c != SPACE && (c == PERCENT || Ordinary(c))
    case SeenPercent => c != SPACE
    case SeenHex(stash) =>
      c != SPACE && (CharToHex(stash) >= 0 && CharToHex(c) >= 0 ==> Ordinary(CharToHex(stash) * 16 + CharToHex(c)))
  }

  function AfterByte(escape: Escape, c: byte): Escape {
    match escape
    case NoEscape => if c == PERCENT then SeenPercent else NoEscape
    case SeenPercent => SeenHex(c)
    case SeenHex(_) => NoEscape
  }

  /** No byte of the target, raw or decoded, is one with a meaning of its own. */
  predicate OrdinaryFrom(escape: Escape, raw: seq<byte>)
    decreases |raw|
  {
    raw == [] || (OrdinaryStep(escape, raw[0]) && OrdinaryFrom(AfterByte(escape, raw[0]), raw[1..]))
  }

  /** The token that raw byte c completes, if any. */
  function Completed(escape: Escape, c: byte): Option<Coded> {
    match escape
    case NoEscape => if c == PERCENT then None else Some(Coded(c, false))
    case SeenPercent => None
    case SeenHex(stash) =>
      if CharToHex(stash) >= 0 && CharToHex(c) >= 0 then Some(Coded(CharToHex(stash) * 16 + CharToHex(c), true))
      else None
  }

  /** A raw byte of the arguments: escapes are complete, and neither an end of line nor a NUL results. */
  predicate ArgStep(escape: Escape, c: byte) {
    c != SPACE &&
    match escape
    case NoEscape => c != 0 && c != CR
    case SeenPercent => CharToHex(c) >= 0
    case SeenHex(stash) =>
      CharToHex(stash) >= 0 && CharToHex(c) >= 0 && CharToHex(stash) * 16 + CharToHex(c) != 0
      && CharToHex(stash) * 16 + CharToHex(c) != CR
  }

  /** Where the arguments are: what is fixed, and what the current one comes to so far. */
  datatype ArgPoint =
    ArgPoint(s: State, index: seq<nat>, n: nat, fs: seq<Frag>, before: seq<byte>, text: seq<byte>, named: bool)

  class Headers {
    /** max_http_header_data */
    const capacity: nat
    /** context->token_limits, or the capacity for every token. */
    const limits: seq<nat>
    const server: bool
    const data: array<byte>
    var pos: nat
    const frags: array<Frag>
    var nfrag: nat
    const fragIndex: array<nat>
    var state: State
    var ups: Ups
    var ues: Escape
    var postLiteralEqual: bool
    var currentLimit: nat

    ghost predicate Valid()
      reads this, frags, fragIndex
    {
      && Shape()
      && nfrag < FRAGS
      && WellLinked(frags[..], nfrag, pos)
      && Indexed()
      && (ues.SeenHex? ==> CharToHex(ues.stash) >= 0)
    }

    ghost predicate Shape()
      reads `pos, `currentLimit
    {
      && capacity <= 65535 && data.Length == capacity && pos <= capacity
      && frags.Length == FRAGS && fragIndex.Length == TOKENS
      && |limits| == TOKENS && (forall h | 0 <= h < TOKENS :: limits[h] > 0) && currentLimit > 0
    }

    ghost predicate Indexed()
      reads `nfrag, `state, fragIndex
      requires fragIndex.Length == TOKENS
    {
      && (forall h | 0 <= h < TOKENS :: fragIndex[h] <= nfrag)
      && (state.Collecting? ==> fragIndex[state.h] >= 1)
    }

    /** Nothing read yet, on a new connection; no limit is looked at before a name has set it. */
    constructor (capacity: nat, limits: seq<nat>, server: bool)
      requires capacity <= 65535 && |limits| == TOKENS && forall h | 0 <= h < TOKENS :: limits[h] > 0
      ensures Valid() && Empty() && ups == Idle
      ensures this.capacity == capacity && this.limits == limits && fresh(data) && fresh(frags) && fresh(fragIndex)
    {
      this.capacity, this.limits, this.server := capacity, limits, server;
      data, pos := new byte[capacity](_ => 0), 0;
      frags, nfrag := new Frag[FRAGS](_ => Frag(0, 0, 0)), 0;
      fragIndex := new nat[TOKENS](_ => 0);
      state, ups, ues, postLiteralEqual := NamePart, Idle, NoEscape, false;
      currentLimit := limits[0];
    }

    /**
     * The next request on a connection kept alive: lws_union_transition cleared the parser's own state when the
     * last one was accepted, and the table is reset before the next header names are read.
     */
    method NextRequest()
      requires Valid()
      modifies this`pos, this`nfrag, this`state, this`ups, this`ues, this`postLiteralEqual, fragIndex
      ensures Valid() && Empty() && ups == Idle
    {
      ups, postLiteralEqual := Idle, false;
      Reset();
    }

    /** No header has been found yet. */
    ghost predicate Empty()
      reads `pos, `nfrag, `state, `ues, fragIndex
    {
      pos == 0 && nfrag == 0 && state == NamePart && ues == NoEscape
      && forall h | 0 <= h < fragIndex.Length :: fragIndex[h] == 0
    }

    /** lws_header_table_reset, and the state its callers read the next header names in. */
    method Reset()
      requires Valid()
      modifies this`pos, this`nfrag, this`state, this`ues, fragIndex
      ensures Valid() && Empty()
    {
      forall h | 0 <= h < TOKENS {
        fragIndex[h] := 0;
      }
      nfrag, pos := 0, 0;
      state, ues := NamePart, NoEscape;
    }

    /** issue_char: 0 stored, 1 the token's limit is reached, -1 out of space. */
    method IssueChar(c: byte) returns (n: int)
      requires Valid() && nfrag >= 1
      modifies this`pos, data, frags
      ensures Valid() && -1 <= n <= 1
      ensures old(pos) <= pos && data[..old(pos)] == old(data[..pos])
      ensures frags[..nfrag] == old(frags[..nfrag]) && frags[nfrag] == old(frags[nfrag]).(len := frags[nfrag].len)
      ensures old(pos) == capacity <==> n == -1
      ensures n == -1 ==> pos == old(pos) && frags[nfrag] == old(frags[nfrag])
      ensures n == 0 ==> pos == old(pos) + 1 && data[old(pos)] == c && old(frags[nfrag].len) < currentLimit
      ensures n == 0 ==> frags[nfrag].len == old(frags[nfrag].len) + if c != 0 then 1 else 0
      ensures n == 1 ==> frags[nfrag].len == old(frags[nfrag].len) >= currentLimit
      ensures n == 1 ==> if frags[nfrag].len == currentLimit then pos == old(pos) + 1 && data[old(pos)] == 0
                         else pos == old(pos)
    {
      if pos == capacity {
        return -1;
      }
      if frags[nfrag].len < currentLimit {
        data[pos] := c;
        pos := pos + 1;
        if c != 0 {
          frags[nfrag] := frags[nfrag].(len := frags[nfrag].len + 1);
        }
        return 0;
      }
      if frags[nfrag].len == currentLimit {
        data[pos] := 0;
        pos := pos + 1;
      }
      return 1;
    }

    /** The current fragment holds all the data stored since it began. */
    ghost predicate Tight()
      reads `pos, `nfrag, frags
      requires frags.Length == FRAGS && nfrag < FRAGS
    {
      frags[nfrag].offset + frags[nfrag].len == pos
    }

    ghost function Text(): seq<byte>
      reads `pos, `nfrag, frags, data
      requires frags.Length == FRAGS && nfrag < FRAGS && Tight() && pos <= data.Length
    {
      data[frags[nfrag].offset..pos]
    }

    /** Back up one directory level if possible. */
    method BackupInPlace()
      requires Valid() && nfrag >= 1
      modifies this`pos, frags
      ensures Valid() && frags[..nfrag] == old(frags[..nfrag])
      ensures frags[nfrag] == old(frags[nfrag]).(len := frags[nfrag].len)
      ensures old(Tight()) ==> Tight() && Text() == Backup(old(Text()))
    {
      if frags[nfrag].len > 2 {
        ghost var tight, text := Tight(), if Tight() then Text() else [];
        var p, len := FindSlash();
        pos, frags[nfrag] := p, frags[nfrag].(len := len);
        assert tight ==> Text() == Backup(text);
      }
    }

    /** Where the path ends and how long it is once its last segment is gone. */
    method FindSlash() returns (p: nat, len: nat)
      requires Valid() && nfrag >= 1 && frags[nfrag].len > 2
      ensures 1 <= len < frags[nfrag].len && pos - p == frags[nfrag].len - len
      ensures Tight() ==> data[frags[nfrag].offset..p] == Backup(Text())
    {
      ghost var tight, start := Tight(), frags[nfrag].offset;
      ghost var t := data[start..pos - 1];
      p, len := pos - 2, frags[nfrag].len - 2;
      assert tight ==> data[start..p] == t[..|t| - 1];
      while len > 1 && data[p] != SLASH
        invariant 1 <= len <= frags[nfrag].len - 2 && pos - p == frags[nfrag].len - len
        invariant tight ==>
          BackLoop(t) == if len > 1 && data[p] != SLASH then BackLoop(data[start..p]) else data[start..p]
      {
        p, len := p - 1, len - 1;
        assert tight ==> data[start..p + 1][..p - start] == data[start..p];
      }
      assert tight ==> Text()[..|Text()| - 1] == t;
    }

    /** A new, empty fragment at the end of the data; false when there are none left. */
    method NewFragment() returns (ok: bool)
      requires Valid()
      modifies this`nfrag, frags
      ensures Shape() && nfrag == old(nfrag) + 1 && ok == (nfrag < FRAGS)
      ensures ok ==> Valid() && frags[nfrag] == Frag(pos, 0, 0)
      ensures ok ==> frags[..nfrag] == old(frags[..nfrag + 1]) && WellLinked(frags[..], nfrag - 1, pos)
    {
      nfrag := nfrag + 1;
      ok := nfrag < FRAGS;
      if ok {
        frags[nfrag] := Frag(pos, 0, 0);
      }
    }

    /** Begin collecting header h: its first fragment, or one linked behind those it already has. */
    method StartFragment(h: Token) returns (ok: bool)
      requires Valid()
      modifies this`nfrag, this`state, this`pos, frags, fragIndex, data
      ensures ok ==> Valid() && state == Collecting(h)
      ensures ok ==> nfrag == old(nfrag) + 1 && data[..old(pos)] == old(data[..pos]) && old(pos) <= pos
      ensures ok && old(fragIndex[h]) == 0 ==>
        fragIndex[h] == nfrag && frags[..nfrag] == old(frags[..nfrag + 1]) && frags[nfrag] == Frag(pos, 0, 0) && Tight()
      ensures ok && old(nfrag) + 1 < FRAGS && old(fragIndex[h]) == 0 ==> pos == old(pos)
      ensures ok && old(fragIndex[h]) != 0 ==>
        Behind(old(frags[..]), old(nfrag), old(fragIndex[h]), old(pos)) && fragIndex[h] == old(fragIndex[h])
      ensures forall t | 0 <= t < TOKENS && t != h :: fragIndex[t] == old(fragIndex[t])
      ensures !ok ==> old(nfrag) + 1 == FRAGS || (old(fragIndex[h]) != 0 && old(pos) == capacity)
    {
      hide LastOf;
      ghost var before := frags[..];
      ok := NewFragment();
      if !ok {
        return;
      }
      if fragIndex[h] == 0 {
        fragIndex[h] := nfrag;
        state := Collecting(h);
        return;
      }
      ghost var made := frags[..];
      ok := LinkBehind(h);
      if ok {
        assert forall i | 1 <= i < nfrag :: made[i] == before[i];
        SameChain(before, made, nfrag - 1, fragIndex[h]);
      }
    }

    /**
     * The new last fragment continues the chain from `first` as it was among n fragments, and begins with
     * the space that separates it from what the header held before.
     */
    ghost predicate Behind(fs: seq<Frag>, n: nat, first: nat, at: nat)
      reads `pos, `nfrag, frags, data
      requires frags.Length == FRAGS == |fs| && n + 1 < FRAGS && 1 <= first <= n
      requires forall i | 1 <= i <= n :: fs[i].next == 0 || i < fs[i].next <= n
    {
      var k := LastOf(fs, n, first);
      && nfrag == n + 1 && pos == at + 1 <= data.Length && data[at] == SPACE && frags[nfrag] == Frag(at, 1, 0)
      && frags[k] == fs[k].(next := nfrag) && forall i | 1 <= i <= n && i != k :: frags[i] == fs[i]
    }

    /** Walk to the end of a header's chain, before its new fragment is linked. */
    method FindLast(h: Token) returns (n: nat)
      requires Shape() && 1 <= nfrag < FRAGS && 1 <= fragIndex[h] < nfrag && WellLinked(frags[..], nfrag - 1, pos)
      ensures 1 <= n < nfrag && n == LastOf(frags[..], nfrag - 1, fragIndex[h])
    {
      n := fragIndex[h];
      while frags[n].next != 0
        invariant 1 <= n < nfrag && LastOf(frags[..], nfrag - 1, n) == LastOf(frags[..], nfrag - 1, fragIndex[h])
        decreases nfrag - n
      {
        n := frags[n].next;
      }
    }

    method LinkBehind(h: Token) returns (ok: bool)
      requires Valid() && 1 <= fragIndex[h] < nfrag && frags[nfrag].next == 0 && WellLinked(frags[..], nfrag - 1, pos)
      requires frags[nfrag] == Frag(pos, 0, 0)
      modifies this`state, this`pos, frags, data
      ensures ok ==> Valid() && state == Collecting(h)
      ensures data[..old(pos)] == old(data[..pos]) && old(pos) <= pos
      ensures ok ==> Behind(old(frags[..]), nfrag - 1, fragIndex[h], old(pos))
      ensures !ok ==> old(pos) == capacity
    {
      var n := FindLast(h);
      frags[n] := frags[n].(next := nfrag);
      state := Collecting(h);
      var issued := IssueChar(SPACE);
      ok := issued >= 0;
    }

    /** lws_hdr_total_length */
    method TotalLength(h: Token) returns (len: nat)
      requires Valid()
      ensures len == ChainLength(frags[..], nfrag, fragIndex[h]) && len <= pos
    {
      len := 0;
      var n := fragIndex[h];
      if n > 0 {
        ChainFits(frags[..], nfrag, pos, n);
      }
      while n != 0
        invariant 0 <= n <= nfrag
        invariant len + ChainLength(frags[..], nfrag, n) == ChainLength(frags[..], nfrag, fragIndex[h])
        decreases if n == 0 then 0 else nfrag + 1 - n
      {
        len := len + frags[n].len;
        n := frags[n].next;
      }
    }

    /** Where the path of a request is being collected, before any arguments. */
    ghost predicate InPath()
      reads this, frags, fragIndex
    {
      && Valid() && state.Collecting? && IsMethod(state.h)
      && fragIndex[TOKEN_URI_ARGS] == 0 && fragIndex[state.h] == nfrag && Tight()
      && frags[nfrag].next == 0 && currentLimit >= capacity
    }

    /** Where the arguments of a request are being collected. */
    ghost predicate InArgs()
      reads this, frags, fragIndex
    {
      && Valid() && state.Collecting? && IsMethod(state.h) && ups == Idle
      && fragIndex[state.h] < fragIndex[TOKEN_URI_ARGS] <= nfrag && frags[fragIndex[state.h]].len > 0
      && Tight() && frags[nfrag].next == 0 && currentLimit >= capacity
    }

    ghost function ArgAt(): ArgPoint
      reads this, frags, fragIndex, data
      requires InArgs()
    {
      ArgPoint(state, fragIndex[..], nfrag, frags[..], data[..pos], Text(), postLiteralEqual)
    }

    /** Everything but the current argument is as it was at p. */
    ghost predicate SameArgs(p: ArgPoint)
      reads this, frags, fragIndex, data
    {
      && InArgs() && state == p.s && fragIndex[..] == p.index && |p.fs| == FRAGS && p.n < FRAGS
      && p.n <= nfrag && frags[..p.n] == p.fs[..p.n] && |p.before| <= pos && data[..|p.before|] == p.before
    }

    /** The token has been taken: it ends the argument, or belongs to it. */
    ghost predicate ArgTaken(p: ArgPoint, t: Coded)
      reads this, frags, fragIndex, data
    {
      && SameArgs(p) && pos == |p.before| + 1
      && if Separator(t)
         then nfrag == p.n + 1 && frags[p.n] == Frag(p.fs[p.n].offset, |p.text|, nfrag) && Text() == []
              && !postLiteralEqual
         else nfrag == p.n && frags[nfrag].offset == p.fs[p.n].offset && Text() == p.text + [Shown(t, p.named)]
              && postLiteralEqual == (p.named || t == Coded(EQUALS, false))
    }

    /** Nothing has happened since p but to the escape. */
    ghost predicate ArgStays(p: ArgPoint)
      reads this, frags, fragIndex, data
    {
      InArgs() && ArgAt() == p
    }

    /** Where the value of a header is being collected. */
    ghost predicate InValue()
      reads this, frags, fragIndex
    {
      && Valid() && state.Collecting? && !IsMethod(state.h) && state.h != TOKEN_CHALLENGE && ues == NoEscape
      && Tight() && frags[nfrag].next == 0 && frags[nfrag].len <= currentLimit
    }

    /** Where the path lies: what ordinary path bytes leave alone. */
    ghost function Place(): (State, nat, nat, seq<nat>)
      reads `state, `nfrag, frags, fragIndex
      requires frags.Length == FRAGS && nfrag < FRAGS
    {
      (state, nfrag, frags[nfrag].offset, fragIndex[..])
    }

    ghost function Path(): Uri
      reads this, frags, fragIndex, data
      requires InPath()
    {
      Uri(ups, ues, Text())
    }

    /** Priority 2 in the default state of the path: '&' and ';' end an argument, '=' and '+' are looked at. */
    method IdleByte(c: byte, enc: bool) returns (r: Act)
      requires Valid() && nfrag >= 1
      modifies this`pos, this`nfrag, this`ups, this`postLiteralEqual, data, frags
      ensures r != Fail ==> Valid()
      ensures (Ordinary(c) || c == QUESTION) && fragIndex[TOKEN_URI_ARGS] == 0 ==>
        unchanged(`pos, `nfrag, data, frags)
      ensures (Ordinary(c) || c == QUESTION) && fragIndex[TOKEN_URI_ARGS] == 0 ==>
        r == Proceed(c) && ups == if c == SLASH then SeenSlash else old(ups)
      ensures c != 0 && !Separator(Coded(c, enc)) && fragIndex[TOKEN_URI_ARGS] != 0 ==>
        r == Proceed(Shown(Coded(c, enc), old(postLiteralEqual))) && unchanged(`pos, `nfrag, `ups, data, frags)
        && postLiteralEqual == (old(postLiteralEqual) || (c == EQUALS && !enc))
      ensures old(InArgs()) && Separator(Coded(c, enc)) ==>
        if r == Swallow then ArgTaken(old(ArgAt()), Coded(c, enc))
        else r == Fail && (old(pos) == capacity || old(nfrag) + 1 == FRAGS)
    {
      if c == 0 {
        return Fail;
      }
      if (c == AMPERSAND || c == SEMICOLON) && !enc {
        var ok := NextArgument(c);
        return if ok then Swallow else Fail;
      }
      var d := c;
      if c == EQUALS && enc && fragIndex[TOKEN_URI_ARGS] != 0 && !postLiteralEqual {
        d := UNDERSCORE;
      }
      if d == EQUALS && !enc {
        postLiteralEqual := true;
      }
      if d == PLUS && !enc {
        d := SPACE;
      }
      if d == SLASH && fragIndex[TOKEN_URI_ARGS] == 0 {
        ups := SeenSlash;
      }
      return Proceed(d);
    }

    /** The separator is stored but not counted, and a linked fragment begins after it. */
    method NextArgument(c: byte) returns (ok: bool)
      requires Valid() && nfrag >= 1 && c != 0
      modifies this`pos, this`nfrag, this`postLiteralEqual, data, frags
      ensures ok ==> Valid()
      ensures old(InArgs()) ==>
        if ok then
          && InArgs() && nfrag == old(nfrag) + 1 && pos == old(pos) + 1 && Text() == [] && !postLiteralEqual
          && frags[..old(nfrag)] == old(frags[..nfrag]) && data[..old(pos)] == old(data[..pos])
          && frags[old(nfrag)] == Frag(old(frags[nfrag].offset), old(frags[nfrag].len), nfrag)
        else old(pos) == capacity || old(nfrag) + 1 == FRAGS
    {
      var n := IssueChar(c);
      if n < 0 {
        return false;
      }
      frags[nfrag] := Frag(frags[nfrag].offset, frags[nfrag].len - 1, nfrag + 1);
      nfrag := nfrag + 1;
      if nfrag >= FRAGS {
        return false;
      }
      postLiteralEqual := false;
      frags[nfrag] := Frag(pos, 0, 0);
      return true;
    }

    /** A byte after "/..": up a level, or put the dots back. */
    method DotDotByte(c: byte) returns (r: Act)
      requires Valid() && nfrag >= 1
      modifies this`pos, this`ups, data, frags
      ensures r != Fail ==> Valid()
      ensures frags[..nfrag] == old(frags[..nfrag]) && frags[nfrag] == old(frags[nfrag]).(len := frags[nfrag].len)
      ensures (c == SLASH || c == QUESTION) && old(Tight()) ==>
        pos <= capacity && Tight() && Text() == Backup(old(Text())) && ups == SeenSlash
        && r == if |Text()| > 1 then Proceed(c) else Swallow
      ensures Ordinary(c) && c != SLASH && old(Tight()) && currentLimit >= capacity ==>
        if old(pos) + 2 <= capacity
        then r == Proceed(c) && pos <= capacity && Tight() && Text() == old(Text()) + [DOT, DOT] && ups == Idle
        else r == Fail
    {
      if c == SLASH || c == QUESTION {
        BackupInPlace();
        ups := SeenSlash;
        return if frags[nfrag].len > 1 then Proceed(c) else Swallow;
      }
      var n := IssueChar(DOT);
      if n < 0 {
        return Fail;
      }
      n := IssueChar(DOT);
      if n < 0 {
        return Fail;
      }
      ups := Idle;
      return Proceed(c);
    }

    /** Priority 2: the path states. */
    method PathStates(c: byte, enc: bool) returns (r: Act)
      requires Valid() && nfrag >= 1
      modifies this`pos, this`nfrag, this`ups, this`postLiteralEqual, data, frags
      ensures r != Fail ==> Valid()
      ensures old(InPath()) && Ordinary(c) ==>
        match r
        case Fail => old(pos) + 2 > capacity
        case Swallow => InPath() && Place() == old(Place()) && Path() == PathByte(old(Path()), c)
        case Proceed(d) =>
          InPath() && Place() == old(Place()) && d == c && pos <= old(pos) + 2
          && Path().(text := Text() + [c]) == PathByte(old(Path()), c)
      ensures old(InArgs()) && c != 0 && !Separator(Coded(c, enc)) ==>
        r == Proceed(Shown(Coded(c, enc), old(postLiteralEqual))) && unchanged(`pos, `nfrag, `ups, data, frags)
        && postLiteralEqual == (old(postLiteralEqual) || (c == EQUALS && !enc))
      ensures old(InArgs()) && Separator(Coded(c, enc)) ==>
        if r == Swallow then ArgTaken(old(ArgAt()), Coded(c, enc))
        else r == Fail && (old(pos) == capacity || old(nfrag) + 1 == FRAGS)
      ensures old(InPath()) && c == QUESTION && !enc ==>
        var (text, begun) := AtQuestion(old(Path()));
        if r == Fail then begun && old(pos) == capacity
        else InPath() && Place() == old(Place()) && Text() == text && ues == old(ues) && pos <= old(pos) + 1
             && if begun then r == Proceed(c) else r == Swallow && ups == SeenSlash
    {
      hide WellLinked, Backup;
      match ups {
        case Idle =>
          r := IdleByte(c, enc);
        case SeenSlash =>
          if c == SLASH {
            return Swallow;
          }
          ups := if c == DOT then SeenDot else Idle;
          return if c == DOT then Swallow else Proceed(c);
        case SeenDot =>
          r := DotByte(c);
        case SeenDotDot =>
          r := DotDotByte(c);
      }
    }

    method DotByte(c: byte) returns (r: Act)
      requires Valid() && nfrag >= 1
      modifies this`pos, this`ups, data, frags
      ensures r != Fail ==> Valid()
      ensures frags[..nfrag] == old(frags[..nfrag]) && frags[nfrag] == old(frags[nfrag]).(len := frags[nfrag].len)
      ensures c == DOT || c == SLASH ==>
        unchanged(`pos, data, frags) && r == Swallow && ups == if c == DOT then SeenDotDot else SeenSlash
      ensures c != DOT && c != SLASH && old(Tight()) && currentLimit >= capacity ==>
        if old(pos) < capacity
        then r == Proceed(c) && pos <= capacity && Tight() && Text() == old(Text()) + [DOT] && ups == Idle
        else r == Fail
    {
      if c == DOT || c == SLASH {
        ups := if c == DOT then SeenDotDot else SeenSlash;
        return Swallow;
      }
      ups := Idle;
      var n := IssueChar(DOT);
      return if n < 0 then Fail else Proceed(c);
    }

    /** Priority 1: convert %xx. */
    method Unescape(c: byte) returns (r: Act, enc: bool)
      requires Valid()
      modifies this`ues
      ensures r != Fail ==> Valid()
      ensures match old(ues)
        case NoEscape =>
          !enc && if c == PERCENT then r == Swallow && ues == SeenPercent else r == Proceed(c) && ues == NoEscape
        case SeenPercent => if CharToHex(c) < 0 then r == Fail else r == Swallow && ues == SeenHex(c)
        case SeenHex(stash) =>
          if CharToHex(c) < 0 then r == Fail
          else enc && r == Proceed(CharToHex(stash) * 16 + CharToHex(c)) && ues == NoEscape
    {
      enc := false;
      match ues {
        case NoEscape =>
          if c == PERCENT {
            ues, r := SeenPercent, Swallow;
          } else {
            r := Proceed(c);
          }
        case SeenPercent =>
          if CharToHex(c) < 0 {
            return Fail, enc;
          }
          ues, r := SeenHex(c), Swallow;
        case SeenHex(stash) =>
          if CharToHex(c) < 0 {
            return Fail, enc;
          }
          ues, r, enc := NoEscape, Proceed(CharToHex(stash) * 16 + CharToHex(c)), true;
      }
    }

    /** A byte of a path, behind the path states. */
    method PathValueByte(c: byte) returns (ok: bool)
      requires Valid() && state.Collecting?
      modifies this`pos, this`state, data, frags
      ensures ok ==> Valid()
      ensures old(InPath()) && c != CR && c != 0 ==>
        if old(pos) < capacity
        then ok && InPath() && Place() == old(Place()) && Path() == old(Path()).(text := old(Text()) + [c])
        else !ok
      ensures old(InArgs()) && c != CR && c != 0 ==>
        if old(pos) < capacity then
          && ok && InArgs() && Text() == old(Text()) + [c] && pos == old(pos) + 1 && nfrag == old(nfrag)
          && state == old(state) && frags[..nfrag] == old(frags[..nfrag])
          && frags[nfrag].offset == old(frags[nfrag].offset) && data[..old(pos)] == old(data[..pos])
        else !ok
    {
      ok := ValueByte(c);
    }

    /** A byte of a header's value: collected, or its end. */
    method HeaderValueByte(c: byte) returns (ok: bool)
      requires Valid() && state.Collecting?
      modifies this`pos, this`state, data, frags
      ensures ok ==> Valid()
      ensures old(InValue()) ==> ok == (old(pos) < capacity) && Elsewhere(old(nfrag), old(frags[..]), old(data[..pos]))
      ensures old(InValue()) && ok && c != CR && c != 0 && old(frags[nfrag].len) < currentLimit ==>
        Taking(old(state), old(Text()) + [c], old(pos) + 1)
      ensures old(InValue()) && ok && c != 0 && (c == CR || old(frags[nfrag].len) == currentLimit) ==>
        Ended(old(nfrag), old(Text()), old(pos) + 1, old(frags[nfrag].len) == currentLimit)
    {
      ghost var k, text := nfrag, if InValue() then Text() else [];
      ok := ValueByte(c);
      assert old(InValue()) ==> data[frags[k].offset..old(pos)] == text by {
        assert old(InValue()) ==> data[frags[k].offset..old(pos)] == data[..old(pos)][frags[k].offset..];
      }
    }

    /** How long the first fragment of the header being collected is: leading spaces are left out while it is empty. */
    ghost function FirstLen(): nat
      reads this, frags, fragIndex
      requires Valid() && state.Collecting?
    {
      frags[fragIndex[state.h]].len
    }

    ghost predicate Taking(s: State, text: seq<byte>, at: nat)
      reads this, frags, fragIndex, data
    {
      InValue() && state == s && Text() == text && pos == at
    }

    /** The value has ended; at its limit the rest of the line is taken for one more value's end. */
    ghost predicate Ended(k: nat, text: seq<byte>, at: nat, atLimit: bool)
      reads this, frags, fragIndex, data
    {
      Valid() && Stored(k, text) && pos == at && ues == NoEscape && state == if atLimit then Skipping else SkippingSawCr
    }

    /** What collecting leaves alone: the other fragments, where this one begins, and the data before. */
    ghost predicate Elsewhere(n: nat, fs: seq<Frag>, before: seq<byte>)
      reads `nfrag, `pos, frags, data
    {
      && nfrag == n < frags.Length == |fs| && frags[..n] == fs[..n] && frags[n].offset == fs[n].offset
      && |before| <= pos && |before| <= data.Length && data[..|before|] == before
    }

    /** A byte of a value: stored, or the end of the line. */
    method ValueByte(c: byte) returns (ok: bool)
      requires Valid() && state.Collecting?
      modifies this`pos, this`state, data, frags
      ensures ok ==> Valid()
      ensures frags[..nfrag] == old(frags[..nfrag]) && frags[nfrag] == old(frags[nfrag]).(len := frags[nfrag].len)
      ensures old(pos) <= pos && data[..old(pos)] == old(data[..pos])
      ensures
        var ends := old(state) != Collecting(TOKEN_CHALLENGE) && c == CR;
        var full := old(frags[nfrag].len) >= currentLimit;
        && (ok <==> old(pos) < capacity && (ends ==> ues == NoEscape))
        && (ok && !full ==>
              && pos == old(pos) + 1 && data[old(pos)] == (if ends then 0 else c)
              && frags[nfrag].len == old(frags[nfrag].len) + (if ends || c == 0 then 0 else 1)
              && state == if ends then SkippingSawCr else old(state))
        && (ok && full ==>
              && frags[nfrag].len == old(frags[nfrag].len) && state == Skipping
              && if frags[nfrag].len == currentLimit then pos == old(pos) + 1 && data[old(pos)] == 0
                 else pos == old(pos))
    {
      var d := c;
      if state != Collecting(TOKEN_CHALLENGE) && c == CR {
        if ues != NoEscape {
          return false;
        }
        d, state := 0, SkippingSawCr;
      }
      var n := IssueChar(d);
      if n > 0 {
        state := Skipping;
      }
      return n >= 0;
    }

    /** '?': seal off the path and begin the arguments. */
    method StartArguments() returns (ok: bool)
      requires Valid() && nfrag >= 1
      modifies this`pos, this`nfrag, this`ups, this`postLiteralEqual, data, frags, fragIndex
      ensures ok ==> Valid()
      ensures old(InPath()) && old(Text()) != [] && old(ues) == NoEscape ==>
        if ok then ArgsBegun(old(state), old(nfrag), old(Text()), old(fragIndex[..])) && pos == old(pos) + 1
        else old(pos) == capacity || old(nfrag) + 1 == FRAGS
    {
      hide WellLinked;
      ghost var k, text := nfrag, if InPath() then Text() else [];
      if ues != NoEscape {
        return false;
      }
      var n := IssueChar(0);
      if n < 0 {
        return false;
      }
      assert old(InPath()) ==> data[frags[k].offset..frags[k].offset + frags[k].len] == text;
      ok := NewFragment();
      if ok {
        postLiteralEqual, ups := false, Idle;
        fragIndex[TOKEN_URI_ARGS] := nfrag;
        assert old(InPath()) ==> frags[..nfrag][k] == frags[k];
      }
    }

    /** The path is complete in fragment n, and the first argument is about to be collected. */
    ghost predicate ArgsBegun(s: State, n: nat, path: seq<byte>, index: seq<nat>)
      reads this, frags, fragIndex, data
    {
      && InArgs() && state == s && nfrag == n + 1 && Text() == [] && !postLiteralEqual && ues == NoEscape
      && Stored(n, path) && |index| == TOKENS && fragIndex[..] == index[TOKEN_URI_ARGS := n + 1]
    }

    /** A byte of the request target other than a space. */
    method TargetByte(c: byte) returns (ok: bool)
      requires Valid() && state.Collecting?
      modifies this, data, frags, fragIndex
      ensures ok ==> Valid()
      ensures old(InPath()) && OrdinaryStep(old(ues), c) ==>
        match UriByte(old(Path()), c)
        case None => !ok
        case Some(v) => if ok then InPath() && Place() == old(Place()) && Path() == v else old(pos) + 3 > capacity
      ensures old(InArgs()) && ArgStep(old(ues), c) ==>
        match Completed(old(ues), c)
        case None => ok && ArgStays(old(ArgAt())) && ues == AfterByte(old(ues), c)
        case Some(t) => if ok then ArgTaken(old(ArgAt()), t) && ues == NoEscape
                        else old(pos) == capacity || old(nfrag) + 1 == FRAGS
      ensures old(InPath()) && c == QUESTION && old(ues) == NoEscape && AtQuestion(old(Path())).0 != [] ==>
        var (text, begun) := AtQuestion(old(Path()));
        if begun then
          if ok then ArgsBegun(old(state), old(nfrag), text, old(fragIndex[..])) && pos <= old(pos) + 2
          else old(pos) + 2 > capacity || old(nfrag) + 1 == FRAGS
        else ok && InPath() && Place() == old(Place()) && Path() == Uri(SeenSlash, NoEscape, text)
    {
      var r, enc := Unescape(c);
      if !r.Proceed? {
        return r == Swallow;
      }
      hide PathByte, AtQuestion;
      ok := DecodedByte(r.c, enc);
    }

    /** A byte of the request target behind the escapes. */
    method DecodedByte(c: byte, enc: bool) returns (ok: bool)
      requires Valid() && state.Collecting?
      modifies this, data, frags, fragIndex
      ensures ok ==> Valid()
      ensures old(InPath()) && Ordinary(c) ==>
        if ok then InPath() && Place() == old(Place()) && Path() == PathByte(old(Path()), c)
        else old(pos) + 3 > capacity
      ensures old(InArgs()) && c != 0 && c != CR ==>
        if ok then ArgTaken(old(ArgAt()), Coded(c, enc)) && ues == old(ues)
        else old(pos) == capacity || old(nfrag) + 1 == FRAGS
      ensures old(InPath()) && c == QUESTION && !enc && old(ues) == NoEscape && AtQuestion(old(Path())).0 != [] ==>
        var (text, begun) := AtQuestion(old(Path()));
        if begun then
          if ok then ArgsBegun(old(state), old(nfrag), text, old(fragIndex[..])) && pos <= old(pos) + 2
          else old(pos) + 2 > capacity || old(nfrag) + 1 == FRAGS
        else ok && InPath() && Place() == old(Place()) && Path() == Uri(SeenSlash, NoEscape, text)
    {
      hide PathByte, AtQuestion, WellLinked;
      var r := PathStates(c, enc);
      if !r.Proceed? {
        return r == Swallow;
      }
      if r.c == QUESTION && !enc && fragIndex[TOKEN_URI_ARGS] == 0 {
        ok := StartArguments();
      } else {
        ok := PathValueByte(r.c);
      }
    }

    /** The space after the request target. */
    method EndTarget() returns (ok: bool)
      requires Valid() && state.Collecting?
      modifies this, data, frags, fragIndex
      ensures ok ==> Valid() && state == Collecting(TOKEN_HTTP)
      ensures old(InPath()) && old(fragIndex[TOKEN_HTTP]) == 0 ==>
        if ok then Stored(old(nfrag), Finish(old(Path()))) && fragIndex[old(state.h)] == old(nfrag)
             && InVersion(old(ues))
        else old(pos) + 2 > capacity || old(nfrag) + 1 == FRAGS
      ensures old(InArgs()) && old(fragIndex[TOKEN_HTTP]) == 0 ==>
        if ok then ArgsEnded(old(ArgAt()), if old(Text()) == [] then [SLASH] else old(Text()), old(ues))
        else old(pos) + 2 > capacity || old(nfrag) + 1 == FRAGS
    {
      hide WellLinked, Backup;
      if frags[nfrag].len == 0 {
        var n := IssueChar(SLASH);
        if n < 0 {
          return false;
        }
      }
      if ups == SeenDotDot {
        BackupInPlace();
      }
      ok := SealTarget();
    }

    /** Terminate the path and begin collecting the HTTP version. */
    method SealTarget() returns (ok: bool)
      requires Valid() && state.Collecting?
      modifies this`pos, this`nfrag, this`state, data, frags, fragIndex
      ensures ok ==> Valid() && state == Collecting(TOKEN_HTTP)
      ensures old(InPath()) && old(fragIndex[TOKEN_HTTP]) == 0 ==>
        if ok then Stored(old(nfrag), old(Text())) && fragIndex[old(state.h)] == old(nfrag)
             && InVersion(old(ues))
        else old(pos) == capacity || old(nfrag) + 1 == FRAGS
      ensures old(InArgs()) && old(fragIndex[TOKEN_HTTP]) == 0 ==>
        if ok then ArgsEnded(old(ArgAt()), old(Text()), old(ues)) else old(pos) == capacity || old(nfrag) + 1 == FRAGS
    {
      ghost var k, text := nfrag, if InPath() || InArgs() then Text() else [];
      ghost var fs, before := frags[..], data[..pos];
      var n := IssueChar(0);
      if n < 0 {
        return false;
      }
      assert old(InPath()) || old(InArgs()) ==> data[frags[k].offset..frags[k].offset + frags[k].len] == text;
      assert frags[..k] == fs[..k];
      ok := StartFragment(TOKEN_HTTP);
      assert ok && old(fragIndex[TOKEN_HTTP]) == 0 ==> frags[..k] == fs[..k] by {
        assert ok && old(fragIndex[TOKEN_HTTP]) == 0 ==> frags[..k] == frags[..k + 1][..k];
      }
      assert ok ==> data[..|before|] == before by { assert ok ==> data[..|before| + 1][..|before|] == before; }
    }

    /** The last argument is complete, and the others are what they were at p. */
    ghost predicate ArgsEnded(p: ArgPoint, text: seq<byte>, before: Escape)
      reads this, frags, fragIndex, data
    {
      && Valid() && Stored(p.n, text) && InVersion(before) && nfrag == p.n + 1 && |p.index| == TOKENS && |p.fs| == FRAGS
      && fragIndex[..] == p.index[TOKEN_HTTP := nfrag] && frags[..p.n] == p.fs[..p.n]
      && frags[p.n].offset == p.fs[p.n].offset && |p.before| <= pos && data[..|p.before|] == p.before
    }

    /** Fragment k is complete, has the given text, and nothing continues it. */
    ghost predicate Stored(k: nat, text: seq<byte>)
      reads `nfrag, `pos, frags, data
    {
      && 1 <= k <= nfrag < FRAGS && frags.Length == FRAGS
      && frags[k].next == 0
      && frags[k].offset + frags[k].len < pos <= data.Length
      && data[frags[k].offset..frags[k].offset + frags[k].len] == text
      && data[frags[k].offset + frags[k].len] == 0
    }

    /** The HTTP version is about to be collected, in a fragment of its own. */
    ghost predicate InVersion(before: Escape)
      reads this, frags, fragIndex, data
    {
      before == NoEscape ==>
        InValue() && state == Collecting(TOKEN_HTTP) && fragIndex[TOKEN_HTTP] == nfrag > 1 && Text() == []
    }

    method Complete() returns (ok: bool)
      requires Valid()
      modifies this`state
      ensures ok == (ues == NoEscape) && (ok ==> Valid() && state == State.Complete)
    {
      ok := ues == NoEscape;
      if ok {
        state := State.Complete;
      }
    }

    /** A byte while collecting header h. */
    method CollectByte(h: Token, c: byte) returns (ok: bool)
      requires Valid() && state == Collecting(h)
      modifies this, data, frags, fragIndex
      ensures ok ==> Valid()
      ensures old(InPath()) && OrdinaryStep(old(ues), c) ==>
        match UriByte(old(Path()), c)
        case None => !ok
        case Some(v) => if ok then InPath() && Place() == old(Place()) && Path() == v else old(pos) + 3 > capacity
      ensures old(InPath()) && c == SPACE && old(Text()) != [] && old(fragIndex[TOKEN_HTTP]) == 0 ==>
        if ok then Stored(old(nfrag), Finish(old(Path()))) && fragIndex[h] == old(nfrag)
             && InVersion(old(ues))
        else old(pos) + 2 > capacity || old(nfrag) + 1 == FRAGS
      ensures old(InValue()) ==>
        fragIndex[..] == old(fragIndex[..]) && Elsewhere(old(nfrag), old(frags[..]), old(data[..pos]))
      ensures old(InValue()) && c != 0 ==>
        if c == SPACE && old(FirstLen()) == 0 then ok && Taking(old(state), old(Text()), old(pos))
        else if old(pos) == capacity then !ok
        else if c != CR && old(frags[nfrag].len) < currentLimit
        then ok && Taking(old(state), old(Text()) + [c], old(pos) + 1)
        else ok && Ended(old(nfrag), old(Text()), old(pos) + 1, old(frags[nfrag].len) == currentLimit)
      ensures old(InValue()) ==> currentLimit == old(currentLimit)
      ensures old(InArgs()) && ArgStep(old(ues), c) ==>
        match Completed(old(ues), c)
        case None => ok && ArgStays(old(ArgAt())) && ues == AfterByte(old(ues), c)
        case Some(t) => if ok then ArgTaken(old(ArgAt()), t) && ues == NoEscape
                        else old(pos) == capacity || old(nfrag) + 1 == FRAGS
      ensures old(InPath()) && c == QUESTION && old(ues) == NoEscape && AtQuestion(old(Path())).0 != [] ==>
        var (text, begun) := AtQuestion(old(Path()));
        if begun then
          if ok then ArgsBegun(old(state), old(nfrag), text, old(fragIndex[..])) && pos <= old(pos) + 2
          else old(pos) + 2 > capacity || old(nfrag) + 1 == FRAGS
        else ok && InPath() && Place() == old(Place()) && Path() == Uri(SeenSlash, NoEscape, text)
      ensures old(InArgs()) && c == SPACE && old(fragIndex[TOKEN_HTTP]) == 0 ==>
        if ok then ArgsEnded(old(ArgAt()), if old(Text()) == [] then [SLASH] else old(Text()), old(ues))
        else old(pos) + 2 > capacity || old(nfrag) + 1 == FRAGS
    {
      hide UriByte, Finish, WellLinked;
      if frags[fragIndex[h]].len == 0 && c == SPACE {
        return true;
      }
      if !IsMethod(h) {
        ok := HeaderValueByte(c);
        if ok && state == Collecting(TOKEN_CHALLENGE) {
          ok := Complete();
        }
      } else {
        ok := MethodByte(c);
      }
    }

    /** A byte while collecting the target of a method. */
    method MethodByte(c: byte) returns (ok: bool)
      requires Valid() && state.Collecting? && IsMethod(state.h)
      modifies this, data, frags, fragIndex
      ensures ok ==> Valid()
      ensures old(InPath()) && OrdinaryStep(old(ues), c) ==>
        match UriByte(old(Path()), c)
        case None => !ok
        case Some(v) => if ok then InPath() && Place() == old(Place()) && Path() == v else old(pos) + 3 > capacity
      ensures old(InPath()) && c == SPACE && old(fragIndex[TOKEN_HTTP]) == 0 ==>
        if ok then Stored(old(nfrag), Finish(old(Path()))) && fragIndex[old(state.h)] == old(nfrag)
             && InVersion(old(ues))
        else old(pos) + 2 > capacity || old(nfrag) + 1 == FRAGS
      ensures old(InArgs()) && ArgStep(old(ues), c) ==>
        match Completed(old(ues), c)
        case None => ok && ArgStays(old(ArgAt())) && ues == AfterByte(old(ues), c)
        case Some(t) => if ok then ArgTaken(old(ArgAt()), t) && ues == NoEscape
                        else old(pos) == capacity || old(nfrag) + 1 == FRAGS
      ensures old(InPath()) && c == QUESTION && old(ues) == NoEscape && AtQuestion(old(Path())).0 != [] ==>
        var (text, begun) := AtQuestion(old(Path()));
        if begun then
          if ok then ArgsBegun(old(state), old(nfrag), text, old(fragIndex[..])) && pos <= old(pos) + 2
          else old(pos) + 2 > capacity || old(nfrag) + 1 == FRAGS
        else ok && InPath() && Place() == old(Place()) && Path() == Uri(SeenSlash, NoEscape, text)
      ensures old(InArgs()) && c == SPACE && old(fragIndex[TOKEN_HTTP]) == 0 ==>
        if ok then ArgsEnded(old(ArgAt()), if old(Text()) == [] then [SLASH] else old(Text()), old(ues))
        else old(pos) + 2 > capacity || old(nfrag) + 1 == FRAGS
    {
      if c == SPACE {
        ok := EndTarget();
      } else {
        ok := TargetByte(c);
      }
    }

    predicate MethodSeen()
      reads fragIndex
      requires fragIndex.Length == TOKENS
    {
      exists m | 0 <= m < TOKENS :: IsMethod(m) && fragIndex[m] != 0
    }

    /** A method that has not been seen yet, with room for a path of any length. */
    ghost predicate FirstMethod(h: Token, index: seq<nat>)
      requires |limits| == |index| == TOKENS
    {
      IsMethod(h) && index[h] == 0 && index[TOKEN_URI_ARGS] == 0 && limits[h] >= capacity
    }

    /** The path of method h is about to be collected. */
    ghost predicate Began(h: Token, ups0: Ups, ues0: Escape, n: nat, at: nat, index: seq<nat>)
      reads this, frags, fragIndex, data
    {
      && InPath() && Path() == Uri(ups0, ues0, []) && state == Collecting(h)
      && nfrag == n + 1 && pos == at && |index| == TOKENS && fragIndex[..] == index[h := nfrag]
    }

    /** The value of header h is about to be collected: in a first fragment, or in one behind those h has. */
    ghost predicate ValueBegun(h: Token, n: nat, fs: seq<Frag>, index: seq<nat>, before: seq<byte>)
      reads this, frags, fragIndex, data
    {
      && InValue() && state == Collecting(h) && currentLimit == limits[h] && |index| == TOKENS && |fs| == FRAGS
      && nfrag == n + 1 && |before| <= pos && data[..|before|] == before
      && if index[h] == 0
         then fragIndex[..] == index[h := nfrag] && frags[..nfrag] == fs[..nfrag] && Text() == [] && pos == |before|
         else fragIndex[..] == index && Text() == [SPACE] && index[h] <= n
              && (forall i | 1 <= i <= n :: fs[i].next == 0 || i < fs[i].next <= n)
              && Behind(fs, n, index[h], |before|)
    }

    /** A known header begins; the end of all headers is known as one too. */
    method Begin(h: Token) returns (ok: bool)
      requires Valid() && state == NamePart && h != TOKEN_SWORIGIN
      modifies this, data, frags, fragIndex
      ensures ok ==> Valid()
      ensures FirstMethod(h, old(fragIndex[..])) ==>
        if ok then Began(h, old(ups), old(ues), old(nfrag), old(pos), old(fragIndex[..])) else old(nfrag) + 1 == FRAGS
      ensures IsValue(h) && old(ues) == NoEscape ==>
        if ok then ValueBegun(h, old(nfrag), old(frags[..]), old(fragIndex[..]), old(data[..pos]))
        else old(nfrag) + 1 == FRAGS || (old(fragIndex[h]) != 0 && old(pos) == capacity)
      ensures h == TOKEN_CHALLENGE ==>
        ok == (old(ues) == NoEscape) && (ok ==> state == State.Complete)
        && unchanged(`pos, `nfrag, data, frags, fragIndex)
    {
      hide LastOf;
      currentLimit := limits[h];
      if h == TOKEN_CHALLENGE {
        ok := Complete();
      } else {
        ok := StartFragment(h);
      }
    }

    method NameByte(name: Name) returns (ok: bool)
      requires Valid() && state == NamePart
      modifies this, data, frags, fragIndex
      ensures ok ==> Valid()
      ensures name.Known? && FirstMethod(name.h, old(fragIndex[..])) ==>
        if ok then Began(name.h, old(ups), old(ues), old(nfrag), old(pos), old(fragIndex[..]))
        else old(nfrag) + 1 == FRAGS
      ensures name.Known? && IsValue(Mapped(name.h)) && old(ues) == NoEscape ==>
        if ok then ValueBegun(Mapped(name.h), old(nfrag), old(frags[..]), old(fragIndex[..]), old(data[..pos]))
        else old(nfrag) + 1 == FRAGS || (old(fragIndex[Mapped(name.h)]) != 0 && old(pos) == capacity)
      ensures name.Unfinished? ==> ok && unchanged(this, data, frags, fragIndex)
      ensures name.Unknown? ==>
        && ok == (server ==> MethodSeen())
        && unchanged(`pos, `nfrag, `ues, data, frags, fragIndex) && (ok ==> state == Skipping)
      ensures name.Known? && IsMethod(name.h) && old(fragIndex[name.h]) != 0 ==> !ok
      ensures name == Known(TOKEN_CHALLENGE) ==>
        ok == (old(ues) == NoEscape) && (ok ==> state == State.Complete)
        && unchanged(`pos, `nfrag, data, frags, fragIndex)
    {
      match name {
        case Unfinished =>
          return true;
        case Unknown =>
          if server && !MethodSeen() {
            return false;
          }
          state := Skipping;
          return true;
        case Known(n) =>
          if IsMethod(n) && fragIndex[n] != 0 {
            return false;
          }
          hide LastOf, Behind;
          ok := Begin(if n == TOKEN_SWORIGIN then TOKEN_ORIGIN else n);
      }
    }

    /** lws_parse: one received byte; `name` is what the name table says if a name is being read. */
    method Parse(c: byte, name: Name) returns (ok: bool)
      requires Valid()
      modifies this, data, frags, fragIndex
      ensures ok ==> Valid()
      ensures old(InPath()) && OrdinaryStep(old(ues), c) ==>
        match UriByte(old(Path()), c)
        case None => !ok
        case Some(v) => if ok then InPath() && Place() == old(Place()) && Path() == v else old(pos) + 3 > capacity
      ensures old(InPath()) && c == SPACE && old(Text()) != [] && old(fragIndex[TOKEN_HTTP]) == 0 ==>
        if ok then Stored(old(nfrag), Finish(old(Path()))) && fragIndex[old(state.h)] == old(nfrag)
             && InVersion(old(ues))
        else old(pos) + 2 > capacity || old(nfrag) + 1 == FRAGS
      ensures old(InValue()) ==>
        fragIndex[..] == old(fragIndex[..]) && Elsewhere(old(nfrag), old(frags[..]), old(data[..pos]))
      ensures old(InValue()) && c != 0 ==>
        if c == SPACE && old(FirstLen()) == 0 then ok && Taking(old(state), old(Text()), old(pos))
        else if old(pos) == capacity then !ok
        else if c != CR && old(frags[nfrag].len) < currentLimit
        then ok && Taking(old(state), old(Text()) + [c], old(pos) + 1)
        else ok && Ended(old(nfrag), old(Text()), old(pos) + 1, old(frags[nfrag].len) == currentLimit)
      ensures old(InValue()) ==> currentLimit == old(currentLimit)
      ensures old(state) == NamePart && name.Known? && FirstMethod(name.h, old(fragIndex[..])) ==>
        if ok then Began(name.h, old(ups), old(ues), old(nfrag), old(pos), old(fragIndex[..]))
        else old(nfrag) + 1 == FRAGS
      ensures old(state) == NamePart && name.Known? && IsValue(Mapped(name.h)) && old(ues) == NoEscape ==>
        if ok then ValueBegun(Mapped(name.h), old(nfrag), old(frags[..]), old(fragIndex[..]), old(data[..pos]))
        else old(nfrag) + 1 == FRAGS || (old(fragIndex[Mapped(name.h)]) != 0 && old(pos) == capacity)
      ensures old(state) == NamePart && name.Unfinished? ==> ok && unchanged(this, data, frags, fragIndex)
      ensures old(state) == NamePart && name.Unknown? ==>
        && ok == (server ==> MethodSeen())
        && unchanged(`pos, `nfrag, `ues, data, frags, fragIndex) && (ok ==> state == Skipping)
      ensures old(state) == NamePart && name.Known? && IsMethod(name.h) && old(fragIndex[name.h]) != 0 ==> !ok
      ensures old(state) == NamePart && name == Known(TOKEN_CHALLENGE) ==>
        ok == (old(ues) == NoEscape) && (ok ==> state == State.Complete)
        && unchanged(`pos, `nfrag, data, frags, fragIndex)
      ensures old(state) == Skipping ==>
        ok && unchanged(`pos, `nfrag, `ues, `currentLimit, data, frags, fragIndex)
        && state == if c == CR then SkippingSawCr else Skipping
      ensures old(state) == SkippingSawCr ==>
        ok == (old(ues) == NoEscape) && unchanged(`pos, `nfrag, `ues, `currentLimit, data, frags, fragIndex)
        && (ok ==> state == if c == LF then NamePart else Skipping)
      ensures old(state) == State.Complete ==> ok && unchanged(this, data, frags, fragIndex)
      ensures old(InArgs()) && ArgStep(old(ues), c) ==>
        match Completed(old(ues), c)
        case None => ok && ArgStays(old(ArgAt())) && ues == AfterByte(old(ues), c)
        case Some(t) => if ok then ArgTaken(old(ArgAt()), t) && ues == NoEscape
                        else old(pos) == capacity || old(nfrag) + 1 == FRAGS
      ensures old(InPath()) && c == QUESTION && old(ues) == NoEscape && AtQuestion(old(Path())).0 != [] ==>
        var (text, begun) := AtQuestion(old(Path()));
        if begun then
          if ok then ArgsBegun(old(state), old(nfrag), text, old(fragIndex[..])) && pos <= old(pos) + 2
          else old(pos) + 2 > capacity || old(nfrag) + 1 == FRAGS
        else ok && InPath() && Place() == old(Place()) && Path() == Uri(SeenSlash, NoEscape, text)
      ensures old(InArgs()) && c == SPACE && old(fragIndex[TOKEN_HTTP]) == 0 ==>
        if ok then ArgsEnded(old(ArgAt()), if old(Text()) == [] then [SLASH] else old(Text()), old(ues))
        else old(pos) + 2 > capacity || old(nfrag) + 1 == FRAGS
    {
      hide ArgTaken, ArgStays, ArgsBegun, ArgsEnded, ValueBegun, Began, Ended, Taking, Elsewhere, Stored, InVersion;
      hide UriByte, Finish, WellLinked, OrdinaryStep, ArgStep, AtQuestion, MethodSeen;
      match state {
        case Collecting(h) =>
          ok := CollectByte(h, c);
        case NamePart =>
          ok := NameByte(name);
        case Skipping =>
          if c == CR {
            state := SkippingSawCr;
          }
          ok := true;
        case SkippingSawCr =>
          ok := ues == NoEscape;
          if ok {
            state := if c == LF then NamePart else Skipping;
          }
        case Complete =>
          ok := true;
      }
    }

    /**
     * A whole request target and the space after it: unless space runs out, what is stored for the method
     * is the normal form of the decoded target.
     */
    method CollectTarget(raw: seq<byte>) returns (ok: bool)
      requires InPath() && Path() == START && fragIndex[TOKEN_HTTP] == 0
      requires UriPath.Complete(raw) && OrdinaryFrom(NoEscape, raw)
      requires Decode(raw) != [] && Decode(raw)[0] == SLASH
      modifies this, data, frags, fragIndex
      ensures ok ==> Valid() && fragIndex[old(state.h)] == old(nfrag)
      ensures ok ==> Stored(old(nfrag), Normalise(Decode(raw))) && InVersion(NoEscape)
      ensures !ok ==> old(pos) + |raw| + 3 > capacity || old(nfrag) + 1 == FRAGS
    {
      hide Normalise, Decode, Finish, WellLinked, Stored, InValue, Taking, Ended, Elsewhere, InVersion;
      StoredPathIsNormal(raw);
      ok := CollectPath(raw);
      if !ok {
        return;
      }
      assert fragIndex[TOKEN_HTTP] == fragIndex[..][TOKEN_HTTP] == 0;
      NormalIsNotEmpty(raw);
      EndsUnescaped(raw);
      hide UriBytes, UriByte, OrdinaryStep, OrdinaryFrom, UriPath.Complete, Held;
      ok := Parse(SPACE, Unfinished);
    }

    /** The bytes of a path, byte by byte. */
    method CollectPath(raw: seq<byte>) returns (ok: bool)
      requires InPath() && Path() == START && UriBytes(START, raw).Some? && OrdinaryFrom(NoEscape, raw)
      modifies this, data, frags, fragIndex
      ensures ok ==> InPath() && Place() == old(Place()) && Path() == UriBytes(START, raw).value
      ensures ok ==> pos <= old(pos) + |raw| + 1
      ensures !ok ==> old(pos) + |raw| + 3 > capacity
    {
      hide WellLinked, Stored, InValue, Taking, Ended, Elsewhere, InVersion, ArgTaken, ArgStays, ArgsBegun, ArgsEnded;
      ok := true;
      var i := 0;
      while i < |raw|
        invariant 0 <= i <= |raw| && InPath() && Place() == old(Place()) && ok
        invariant OrdinaryFrom(ues, raw[i..]) && UriBytes(Path(), raw[i..]) == UriBytes(START, raw)
        invariant |Text()| + Held(Path()) <= i
      {
        StoresNoMoreThanRead(Path(), raw[i]);
        ok := Parse(raw[i], Unfinished);
        if !ok {
          return;
        }
        assert raw[i..][1..] == raw[i + 1..];
        i := i + 1;
      }
      assert raw[|raw|..] == [];
    }

    /** Any bytes at all: as long as lws_parse goes on, the fragment store is well linked and every chain fits. */
    method ParseAll(input: seq<byte>, names: seq<Name>) returns (ok: bool)
      requires Valid() && |names| == |input|
      modifies this, data, frags, fragIndex
      ensures ok ==> Valid()
      ensures ok ==> forall h | 0 <= h < TOKENS :: ChainLength(frags[..], nfrag, fragIndex[h]) <= pos
    {
      ok := true;
      var i := 0;
      while i < |input| && ok
        invariant 0 <= i <= |input| && (ok ==> Valid())
      {
        ok := Parse(input[i], names[i]);
        i := i + 1;
      }
      if ok {
        forall h | 0 <= h < TOKENS ensures ChainLength(frags[..], nfrag, fragIndex[h]) <= pos {
          if fragIndex[h] > 0 { ChainFits(frags[..], nfrag, pos, fragIndex[h]); }
        }
      }
    }

    /** A request line from nothing: the byte that completes its method's name, the target, and the space. */
    method RequestTarget(h: Token, raw: seq<byte>) returns (ok: bool)
      requires Valid() && Empty() && ups == Idle && IsMethod(h) && limits[h] >= capacity
      requires UriPath.Complete(raw) && OrdinaryFrom(NoEscape, raw)
      requires Decode(raw) != [] && Decode(raw)[0] == SLASH
      modifies this, data, frags, fragIndex
      ensures ok ==> Valid() && fragIndex[h] == 1 && Stored(1, Normalise(Decode(raw))) && InVersion(NoEscape)
      ensures !ok ==> |raw| + 3 > capacity
    {
      hide Normalise, Decode, Stored, WellLinked, UriPath.Complete, OrdinaryFrom, InValue, Taking, Ended, Elsewhere;
      hide InVersion;
      hide InPath, Valid;
      BeginTarget(h);
      ok := CollectTarget(raw);
    }

    /** The byte that completes the first method's name. */
    method BeginTarget(h: Token)
      requires Valid() && Empty() && ups == Idle && IsMethod(h) && limits[h] >= capacity
      modifies this, data, frags, fragIndex
      ensures InPath() && Path() == START && fragIndex[TOKEN_HTTP] == 0
      ensures state == Collecting(h) && nfrag == 1 && pos == 0
    {
      hide ValueBegun, UriByte, Finish, WellLinked, Stored, InValue, Taking, Ended, Elsewhere, MethodSeen;
      assert FirstMethod(h, fragIndex[..]);
      var ok := Parse(SPACE, Known(h));
      assert ok;
      assert fragIndex[TOKEN_HTTP] == fragIndex[..][TOKEN_HTTP] == 0;
    }
  }

  lemma {:induction false} SameChain(a: seq<Frag>, b: seq<Frag>, last: nat, n: nat)
    requires 1 <= n <= last < |a| && |b| == |a| && forall i | 1 <= i <= last :: a[i] == b[i]
    requires forall i | 1 <= i <= last :: a[i].next == 0 || i < a[i].next <= last
    ensures LastOf(a, last, n) == LastOf(b, last, n)
    decreases last - n
  {
    if a[n].next != 0 { SameChain(a, b, last, a[n].next); }
  }
}
