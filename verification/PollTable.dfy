/** The table handed to poll() and the index from file descriptors to connections. */
module PollTable {
  import opened Options

  // ---- what it means ----

  datatype Events = Events(pollin: bool, pollout: bool)

  const NO_EVENTS := Events(false, false)
  const POLLIN := Events(true, false)

  /** One used slot behind the wake-up pipe's. */
  datatype Slot = Slot(fd: nat, events: Events)

  /** `limit` counts the wake-up pipe's slot too; `listening` is the listening socket, if this thread has one. */
  datatype Table = Table(slots: seq<Slot>, limit: nat, listening: Option<nat>)

  function Used(t: Table): nat { 1 + |t.slots| }

  predicate Listed(slots: seq<Slot>, fd: nat) { exists i | 0 <= i < |slots| :: slots[i].fd == fd }

  predicate DistinctFds(slots: seq<Slot>) { forall i, j | 0 <= i < j < |slots| :: slots[i].fd != slots[j].fd }

  function Changed(e: Events, clear: Events, set_: Events): Events {
    Events((e.pollin && !clear.pollin) || set_.pollin, (e.pollout && !clear.pollout) || set_.pollout)
  }

  /** A bit that is set is on, one that is only cleared is off, and others stay. */
  lemma BitsChange(e: Events, clear: Events, set_: Events)
    ensures var r := Changed(e, clear, set_);
      && (set_.pollin ==> r.pollin) && (set_.pollout ==> r.pollout)
      && (!set_.pollin && clear.pollin ==> !r.pollin) && (!set_.pollout && clear.pollout ==> !r.pollout)
      && (!set_.pollin && !clear.pollin ==> r.pollin == e.pollin)
      && (!set_.pollout && !clear.pollout ==> r.pollout == e.pollout)
  {
  }

  /** _lws_change_pollfd; a connection that is not in the table is left alone. */
  function Change(slots: seq<Slot>, fd: nat, clear: Events, set_: Events): (r: seq<Slot>)
    ensures |r| == |slots|
    ensures forall i | 0 <= i < |r| ::
      r[i] == if slots[i].fd == fd then Slot(fd, Changed(slots[i].events, clear, set_)) else slots[i]
  {
    seq(|slots|, i requires 0 <= i < |slots| =>
      if slots[i].fd == fd then Slot(fd, Changed(slots[i].events, clear, set_)) else slots[i])
  }

  function ChangeListening(t: Table, clear: Events, set_: Events): Table {
    if t.listening.None? then t else t.(slots := Change(t.slots, t.listening.value, clear, set_))
  }

  /** A new socket goes last; with one slot left the thread stops accepting. */
  function Insert(t: Table, fd: nat): Table {
    if Used(t) >= t.limit then t
    else
      var u := t.(slots := t.slots + [Slot(fd, POLLIN)]);
      if Used(u) == u.limit - 1 then ChangeListening(u, POLLIN, NO_EVENTS) else u
  }

  /** The last slot takes the place of the removed one. */
  function SwapRemove(slots: seq<Slot>, m: nat): seq<Slot>
    requires m < |slots|
  {
    slots[m := slots[|slots| - 1]][..|slots| - 1]
  }

  function Where(slots: seq<Slot>, fd: nat): (m: nat)
    requires Listed(slots, fd)
    ensures m < |slots| && slots[m].fd == fd
  {
    if slots[0].fd == fd then 0
    else
      var i :| 0 <= i < |slots| && slots[i].fd == fd;
      assert slots[1..][i - 1].fd == fd;
      1 + Where(slots[1..], fd)
  }

  function Remove(t: Table, fd: nat): Table
    requires Listed(t.slots, fd)
  {
    var u := t.(slots := SwapRemove(t.slots, Where(t.slots, fd)));
    if Used(u) < u.limit - 1 then ChangeListening(u, NO_EVENTS, POLLIN) else u
  }

  datatype Op = DoInsert(fd: nat) | DoRemove(fd: nat) | DoChange(fd: nat, clear: Events, set_: Events)

  /** The code asserts that a new socket is not in use yet, and that a removed one is in the table. */
  predicate Possible(t: Table, op: Op) {
    match op
    case DoInsert(fd) => !Listed(t.slots, fd)
    case DoRemove(fd) => Listed(t.slots, fd)
    case DoChange(_, _, _) => true
  }

  function Apply(t: Table, op: Op): Table
    requires Possible(t, op)
  {
    match op
    case DoInsert(fd) => Insert(t, fd)
    case DoRemove(fd) => Remove(t, fd)
    case DoChange(fd, clear, set_) => t.(slots := Change(t.slots, fd, clear, set_))
  }

  predicate AllPossible(t: Table, ops: seq<Op>)
    decreases |ops|
  {
    ops == [] || (Possible(t, ops[0]) && AllPossible(Apply(t, ops[0]), ops[1..]))
  }

  function Run(t: Table, ops: seq<Op>): Table
    requires AllPossible(t, ops)
    decreases |ops|
  {
    if ops == [] then t else Run(Apply(t, ops[0]), ops[1..])
  }

  // ---- the reference: a map from sockets to the events they wait for ----

  function MapChange(m: map<nat, Events>, fd: nat, clear: Events, set_: Events): map<nat, Events> {
    if fd in m then m[fd := Changed(m[fd], clear, set_)] else m
  }

  function MapListening(m: map<nat, Events>, listening: Option<nat>, clear: Events, set_: Events): map<nat, Events> {
    if listening.None? then m else MapChange(m, listening.value, clear, set_)
  }

  /** Accepting stops when one slot is left and resumes when there are more. */
  function MapApply(m: map<nat, Events>, limit: nat, listening: Option<nat>, op: Op): map<nat, Events> {
    match op
    case DoInsert(fd) =>
      if 1 + |m| >= limit then m
      else if 2 + |m| == limit - 1 then MapListening(m[fd := POLLIN], listening, POLLIN, NO_EVENTS)
      else m[fd := POLLIN]
    case DoRemove(fd) =>
      if 1 + |m - {fd}| < limit - 1 then MapListening(m - {fd}, listening, NO_EVENTS, POLLIN) else m - {fd}
    case DoChange(fd, clear, set_) => MapChange(m, fd, clear, set_)
  }

  function MapRun(m: map<nat, Events>, limit: nat, listening: Option<nat>, ops: seq<Op>): map<nat, Events>
    decreases |ops|
  {
    if ops == [] then m else MapRun(MapApply(m, limit, listening, ops[0]), limit, listening, ops[1..])
  }

  /** The table and the map hold the same. */
  ghost predicate Mirrors(slots: seq<Slot>, m: map<nat, Events>) {
    && DistinctFds(slots) && |m| == |slots|
    && Holds(slots, m) && Covers(slots, m)
  }

  lemma ChangeMirrors(slots: seq<Slot>, m: map<nat, Events>, fd: nat, clear: Events, set_: Events)
    requires Mirrors(slots, m)
    ensures Mirrors(Change(slots, fd, clear, set_), MapChange(m, fd, clear, set_))
  {
    var r, n := Change(slots, fd, clear, set_), MapChange(m, fd, clear, set_);
    hide Changed, Change;
    assert forall i | 0 <= i < |r| :: r[i].fd == slots[i].fd;
    assert n.Keys == m.Keys;
    forall f | f in n ensures Listed(r, f) {
      var i :| 0 <= i < |slots| && slots[i].fd == f;
      assert r[i].fd == f;
    }
  }

  lemma ListeningMirrors(t: Table, m: map<nat, Events>, clear: Events, set_: Events)
    requires Mirrors(t.slots, m)
    ensures Mirrors(ChangeListening(t, clear, set_).slots, MapListening(m, t.listening, clear, set_))
  {
    hide Mirrors;
    if t.listening.Some? { ChangeMirrors(t.slots, m, t.listening.value, clear, set_); }
  }

  lemma AppendDistinct(slots: seq<Slot>, fd: nat)
    requires DistinctFds(slots) && !Listed(slots, fd)
    ensures DistinctFds(slots + [Slot(fd, POLLIN)])
  {
    forall i, j | 0 <= i < j <= |slots|
      ensures (slots + [Slot(fd, POLLIN)])[i].fd != (slots + [Slot(fd, POLLIN)])[j].fd
    {
      assert slots[i].fd != if j < |slots| then slots[j].fd else fd;
    }
  }

  lemma MapSizes(m: map<nat, Events>, fd: nat, e: Events)
    ensures fd !in m ==> |m[fd := e]| == |m| + 1
    ensures fd in m ==> |m - {fd}| == |m| - 1
  {
    assert m[fd := e].Keys == m.Keys + {fd};
    assert (m - {fd}).Keys == m.Keys - {fd};
  }

  /** Every key of the map has a slot. */
  predicate Covers(slots: seq<Slot>, m: map<nat, Events>) { forall fd | fd in m :: Listed(slots, fd) }

  /** Every slot's events are the map's. */
  predicate Holds(slots: seq<Slot>, m: map<nat, Events>) {
    forall i | 0 <= i < |slots| :: slots[i].fd in m && m[slots[i].fd] == slots[i].events
  }

  lemma AppendMirrors(slots: seq<Slot>, m: map<nat, Events>, fd: nat)
    requires Mirrors(slots, m) && !Listed(slots, fd)
    ensures Mirrors(slots + [Slot(fd, POLLIN)], m[fd := POLLIN])
  {
    AppendDistinct(slots, fd);
    hide DistinctFds, Listed;
    MapSizes(m, fd, POLLIN);
    AppendHolds(slots, m, fd);
  }

  lemma AppendHolds(slots: seq<Slot>, m: map<nat, Events>, fd: nat)
    requires Holds(slots, m) && Covers(slots, m) && fd !in m
    ensures var r := slots + [Slot(fd, POLLIN)]; Holds(r, m[fd := POLLIN]) && Covers(r, m[fd := POLLIN])
  {
    var r, n := slots + [Slot(fd, POLLIN)], m[fd := POLLIN];
    forall f | f in n ensures Listed(r, f) {
      if f == fd {
        assert r[|slots|].fd == fd;
      } else {
        var i :| 0 <= i < |slots| && slots[i].fd == f;
        assert r[i].fd == f;
      }
    }
  }

  lemma SwapRemoveDistinct(slots: seq<Slot>, k: nat)
    requires DistinctFds(slots) && k < |slots|
    ensures DistinctFds(SwapRemove(slots, k))
  {
    var r := SwapRemove(slots, k);
    assert forall i | 0 <= i < |r| :: r[i] == if i == k then slots[|slots| - 1] else slots[i];
  }

  /** Whichever slot goes, also the last, the others are all still there with their events. */
  lemma SwapRemoveMirrors(slots: seq<Slot>, m: map<nat, Events>, k: nat)
    requires Mirrors(slots, m) && k < |slots|
    ensures Mirrors(SwapRemove(slots, k), m - {slots[k].fd})
  {
    hide Listed;
    SwapRemoveDistinct(slots, k);
    MapSizes(m, slots[k].fd, POLLIN);
    SwapRemoveHolds(slots, m, k);
  }

  lemma SwapRemoveHolds(slots: seq<Slot>, m: map<nat, Events>, k: nat)
    requires DistinctFds(slots) && Holds(slots, m) && Covers(slots, m) && k < |slots|
    ensures var r := SwapRemove(slots, k); Holds(r, m - {slots[k].fd}) && Covers(r, m - {slots[k].fd})
  {
    var last := |slots| - 1;
    var r, n := SwapRemove(slots, k), m - {slots[k].fd};
    forall i | 0 <= i < |r| ensures r[i].fd in n && n[r[i].fd] == r[i].events {
      assert r[i] == slots[if i == k then last else i];
    }
    forall f | f in n ensures Listed(r, f) {
      var i :| 0 <= i < |slots| && slots[i].fd == f;
      assert r[if i == last then k else i].fd == f;
    }
  }

  lemma ApplyMirrors(t: Table, m: map<nat, Events>, op: Op)
    requires Mirrors(t.slots, m) && Possible(t, op)
    ensures Mirrors(Apply(t, op).slots, MapApply(m, t.limit, t.listening, op))
    ensures Apply(t, op) == t.(slots := Apply(t, op).slots)
    ensures Used(t) <= t.limit ==> Used(Apply(t, op)) <= t.limit
  {
    hide SwapRemove, Listed, MapListening, ChangeListening, DistinctFds;
    match op {
      case DoInsert(fd) =>
        AppendMirrors(t.slots, m, fd);
        var u := t.(slots := t.slots + [Slot(fd, POLLIN)]);
        ListeningMirrors(u, m[fd := POLLIN], POLLIN, NO_EVENTS);
        ListeningOnly(u, POLLIN, NO_EVENTS);
      case DoRemove(fd) =>
        var k := Where(t.slots, fd);
        SwapRemoveMirrors(t.slots, m, k);
        var u := t.(slots := SwapRemove(t.slots, k));
        ListeningMirrors(u, m - {fd}, NO_EVENTS, POLLIN);
        ListeningOnly(u, NO_EVENTS, POLLIN);
      case DoChange(fd, clear, set_) => ChangeMirrors(t.slots, m, fd, clear, set_);
    }
  }

  lemma ListeningOnly(t: Table, clear: Events, set_: Events)
    ensures var u := ChangeListening(t, clear, set_); u == t.(slots := u.slots) && |u.slots| == |t.slots|
  {
  }

  /** Over any inserts, swap-removes and event changes the table is the map, and never outgrows its limit. */
  lemma {:induction false} RunMirrors(t: Table, m: map<nat, Events>, ops: seq<Op>)
    requires Mirrors(t.slots, m) && AllPossible(t, ops) && Used(t) <= t.limit
    ensures Mirrors(Run(t, ops).slots, MapRun(m, t.limit, t.listening, ops)) && Used(Run(t, ops)) <= t.limit
    decreases |ops|
  {
    hide Mirrors, Apply, MapApply;
    if ops != [] {
      ApplyMirrors(t, m, ops[0]);
      RunMirrors(Apply(t, ops[0]), MapApply(m, t.limit, t.listening, ops[0]), ops[1..]);
    }
  }

  // ---- the listening socket ----

  /** The listening socket is polled for input exactly while more than one slot is free. */
  predicate Listens(t: Table) {
    t.listening.Some? ==>
      forall i | 0 <= i < |t.slots| ::
        t.slots[i].fd == t.listening.value ==> (t.slots[i].events.pollin <==> Used(t) < t.limit - 1)
  }

  /** The listening socket stays, and nobody else changes its events. */
  predicate LeavesListening(t: Table, op: Op) {
    t.listening.Some? ==>
      match op
      case DoInsert(fd) => fd != t.listening.value
      case DoRemove(fd) => fd != t.listening.value
      case DoChange(fd, _, _) => fd != t.listening.value
  }

  predicate AllLeaveListening(t: Table, ops: seq<Op>) {
    forall i | 0 <= i < |ops| :: LeavesListening(t, ops[i])
  }

  lemma ApplyListens(t: Table, op: Op)
    requires Listens(t) && Possible(t, op) && LeavesListening(t, op) && Used(t) <= t.limit
    ensures Listens(Apply(t, op)) && Apply(t, op) == t.(slots := Apply(t, op).slots)
    ensures Used(Apply(t, op)) <= t.limit
  {
    match op {
      case DoRemove(fd) =>
        var m := Where(t.slots, fd);
        var r := SwapRemove(t.slots, m);
        assert forall i | 0 <= i < |r| :: r[i] == if i == m then t.slots[|t.slots| - 1] else t.slots[i];
      case _ =>
    }
  }

  /** So a thread accepts connections exactly while it has room to spare, over every run. */
  lemma {:induction false} RunListens(t: Table, ops: seq<Op>)
    requires Listens(t) && AllPossible(t, ops) && AllLeaveListening(t, ops) && Used(t) <= t.limit
    ensures Listens(Run(t, ops))
    decreases |ops|
  {
    hide Listens, Apply;
    if ops != [] {
      assert LeavesListening(t, ops[0]);
      ApplyListens(t, ops[0]);
      var u := Apply(t, ops[0]);
      assert forall i | 0 <= i < |ops[1..]| :: LeavesListening(u, ops[1..][i]) <==> LeavesListening(t, ops[i + 1]);
      RunListens(u, ops[1..]);
    }
  }
}
