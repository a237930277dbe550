/** The header-table pool as the code keeps it: entries and connections point at each other; a linked wait list. */
module HeaderTables {
  import opened Options
  import opened Sequences
  import opened HeaderPool

  /** The part of a connection the pool touches. */
  class Wsi {
    var ah: Entry?
    var waitNext: Wsi?

    constructor ()
      ensures ah == null && waitNext == null
    {
      ah, waitNext := null, null;
    }
  }

  /** One set of allocated headers. */
  class Entry {
    var inUse: bool
    var wsi: Wsi?
    var rxpos: nat
    var rxlen: nat

    constructor ()
      ensures !inUse && wsi == null && rxpos == rxlen == 0
    {
      inUse, wsi, rxpos, rxlen := false, null, 0, 0;
    }
  }

  function Owner(w: Wsi?): Option<Wsi> { if w == null then None else Some(w) }

  ghost function Owners(pool: seq<Entry>): (s: seq<Option<Wsi>>)
    reads pool`wsi
    ensures |s| == |pool|
    ensures forall i | 0 <= i < |pool| :: s[i] == Owner(pool[i].wsi)
  {
    if pool == [] then [] else [Owner(pool[0].wsi)] + Owners(pool[1..])
  }

  /** The chain through waitNext visits exactly these, in order. */
  ghost predicate Chained(head: Wsi?, list: seq<Wsi>)
    reads list`waitNext
  {
    && head == (if list == [] then null else list[0])
    && forall i {:trigger list[i].waitNext} | 0 <= i < |list| ::
      list[i].waitNext == if i + 1 < |list| then list[i + 1] else null
  }

  class PerThread {
    const pool: seq<Entry>
    var countInUse: nat
    var waitList: Wsi?
    var waitLength: nat
    /** Every connection there is, and those that wait, newest first. */
    ghost var conns: set<Wsi>
    ghost var waiters: seq<Wsi>

    ghost function Slots(): (s: seq<Option<Wsi>>)
      reads pool`wsi
      ensures |s| == |pool|
      ensures forall i | 0 <= i < |pool| :: s[i] == Owner(pool[i].wsi)
    {
      Owners(pool)
    }

    ghost function State(): Pool<Wsi>
      reads `waiters, pool`wsi
    {
      Pool(Slots(), waiters)
    }

    /** Entry and owner point at each other. */
    ghost predicate Mutual()
      reads `conns, pool`inUse, pool`wsi, conns`ah
    {
      && (forall i, j | 0 <= i < j < |pool| :: pool[i] != pool[j])
      && (forall e | e in pool :: e.inUse == (e.wsi != null))
      && (forall e | e in pool :: e.wsi != null ==> e.wsi in conns && e.wsi.ah == e)
      && (forall w | w in conns :: w.ah != null ==> w.ah in pool && w.ah.wsi == w)
    }

    ghost predicate Waiting()
      reads `waitList, `waitLength, `conns, `waiters, conns`waitNext, waiters`waitNext
    {
      && (forall w | w in waiters :: w in conns)
      && Chained(waitList, waiters) && waitLength == |waiters|
      && (forall w | w in conns :: w !in waiters ==> w.waitNext == null)
    }

    ghost predicate Valid()
      reads this, pool`inUse, pool`wsi, conns`ah, conns`waitNext, waiters`waitNext
    {
      Mutual() && Waiting() && Good(State()) && countInUse == InUse(Slots())
    }

    constructor (entries: seq<Entry>)
      requires forall i, j | 0 <= i < j < |entries| :: entries[i] != entries[j]
      requires forall e | e in entries :: !e.inUse && e.wsi == null
      ensures Valid() && pool == entries && waiters == [] && conns == {}
    {
      pool, countInUse, waitList, waitLength := entries, 0, null, 0;
      conns, waiters := {}, [];
      new;
      NoneInUse(Slots());
    }

    /** A connection that is neither owner nor waiter joins. */
    method Accept(w: Wsi)
      requires Valid() && w !in conns && w.ah == null && w.waitNext == null
      modifies this`conns
      ensures Valid() && State() == old(State()) && conns == old(conns) + {w}
    {
      conns := conns + {w};
      assert w !in waiters;
    }

    /** An entry's owner by position. */
    lemma OwnsExactly(w: Wsi)
      requires Mutual() && w in conns
      ensures Holds(State(), w) <==> w.ah != null
      ensures w.ah != null ==> exists i :: 0 <= i < |pool| && pool[i] == w.ah && i == IndexOf(Slots(), Some(w))
    {
      if w.ah != null {
        var i :| 0 <= i < |pool| && pool[i] == w.ah;
        assert Slots()[i] == Some(w);
        var j := IndexOf(Slots(), Some(w));
        assert pool[j].wsi == w;
      }
      if Holds(State(), w) {
        var j := IndexOf(Slots(), Some(w));
        assert pool[j].wsi == w;
      }
    }

    /** Take the i-th waiter out of the chain; `prev` is the one in front of it, if any. */
    method Unlink(prev: Wsi?, w: Wsi, ghost i: nat)
      requires Waiting() && Distinct(waiters) && i < |waiters| && w == waiters[i]
      requires prev == if i == 0 then null else waiters[i - 1]
      modifies this`waitList, this`waitLength, this`waiters, waiters`waitNext
      ensures Waiting() && waiters == old(waiters[..i] + waiters[i + 1..])
    {
      if prev == null {
        waitList := w.waitNext;
      } else {
        prev.waitNext := w.waitNext;
      }
      w.waitNext := null;
      waitLength := waitLength - 1;
      waiters := waiters[..i] + waiters[i + 1..];
    }

    /** Look for a connection in the wait list. */
    method Find(wsi: Wsi) returns (found: bool, prev: Wsi?, ghost i: nat)
      requires Waiting() && Distinct(waiters)
      ensures found == (wsi in waiters)
      ensures found ==> i < |waiters| && waiters[i] == wsi && prev == (if i == 0 then null else waiters[i - 1])
      ensures found ==> i == IndexOf(waiters, wsi)
    {
      found, prev, i := false, null, 0;
      var w := waitList;
      while w != null
        invariant i <= |waiters| && wsi !in waiters[..i]
        invariant w == (if i < |waiters| then waiters[i] else null) && prev == (if i == 0 then null else waiters[i - 1])
        decreases |waiters| - i
      {
        if w == wsi {
          found := true;
          return;
        }
        prev, w, i := w, w.waitNext, i + 1;
      }
      assert waiters[..i] == waiters;
    }

    /** The last in the list has waited longest. */
    method FindOldest() returns (prev: Wsi?, w: Wsi)
      requires Waiting() && waiters != []
      ensures w == waiters[|waiters| - 1] && prev == if |waiters| == 1 then null else waiters[|waiters| - 2]
    {
      prev, w := null, waitList;
      ghost var i := 0;
      while w.waitNext != null
        invariant i < |waiters| && w == waiters[i] && prev == if i == 0 then null else waiters[i - 1]
        decreases |waiters| - i
      {
        prev, w, i := w, w.waitNext, i + 1;
      }
    }

    method Push(wsi: Wsi)
      requires Waiting() && wsi in conns && wsi !in waiters
      modifies this`waitList, this`waitLength, this`waiters, wsi`waitNext
      ensures Waiting() && waiters == [wsi] + old(waiters)
    {
      wsi.waitNext := waitList;
      waitList := wsi;
      waitLength := waitLength + 1;
      waiters := [wsi] + waiters;
    }

    method FindFree() returns (n: nat)
      requires Mutual() && !Full(State())
      ensures n < |pool| && !pool[n].inUse && n == IndexOf(Slots(), None)
    {
      n := 0;
      while pool[n].inUse
        invariant n < |pool| && None !in Slots()[..n]
        decreases |pool| - n
      {
        n := n + 1;
      }
    }

    /** Give entry n to a connection. */
    method Bind(n: nat, wsi: Wsi)
      requires Mutual() && n < |pool| && wsi in conns && wsi.ah == null && pool[n].wsi == null
      modifies pool[n], wsi`ah
      ensures Mutual() && Slots() == old(Slots())[n := Some(wsi)]
      ensures wsi.ah == pool[n] && pool[n].rxpos == pool[n].rxlen == 0
    {
      var ah := pool[n];
      wsi.ah := ah;
      ah.inUse, ah.wsi := true, wsi;
      ah.rxpos, ah.rxlen := 0, 0;
    }

    /** lws_header_table_attach: false means the connection has to wait. */
    method Attach(wsi: Wsi) returns (granted: bool)
      requires Valid() && wsi in conns
      modifies this, pool, conns
      ensures Valid() && conns == old(conns) && State() == HeaderPool.Attach(old(State()), wsi)
      ensures granted == (wsi.ah != null) && (granted ==> wsi.ah.rxpos == wsi.ah.rxlen == 0)
    {
      hide IndexOf, OneEach, Distinct, Without, InUse, Chained, Owners;
      OwnsExactly(wsi);
      AttachGood(State(), wsi);
      FullExactlyIfAllUsed(Slots());
      if wsi.ah != null {
        wsi.ah.rxpos, wsi.ah.rxlen := 0, 0;
        return true;
      }
      var waiting, _, _ := Find(wsi);
      if countInUse == |pool| {
        if !waiting {
          Push(wsi);
        }
        return false;
      }
      // whoever waits finds the pool full, so there is nobody to take off the wait list here
      Grant(wsi);
      return true;
    }

    method Grant(wsi: Wsi)
      requires Valid() && wsi in conns && wsi.ah == null && waiters == [] && !Full(State())
      modifies this`countInUse, pool, conns`ah
      ensures Mutual() && Waiting() && countInUse == InUse(Slots()) && State() == HeaderPool.Attach(old(State()), wsi)
      ensures wsi.ah != null && wsi.ah.rxpos == wsi.ah.rxlen == 0
    {
      hide InUse, Chained, Owners, OneEach, Distinct;
      OwnsExactly(wsi);
      var n := FindFree();
      InUseUpdate(Slots(), n, Some(wsi));
      Bind(n, wsi);
      countInUse := countInUse + 1;
    }

    /** An entry comes back and nobody waits. */
    method Free(ghost n: nat, wsi: Wsi)
      requires Mutual() && n < |pool| && wsi in conns && wsi.ah == pool[n]
      modifies pool[n], wsi`ah
      ensures Mutual() && Slots() == old(Slots())[n := None] && wsi.ah == null && pool[n].rxpos == old(pool[n].rxpos)
    {
      var ah := wsi.ah;
      wsi.ah := null;
      ah.wsi, ah.inUse := null, false;
    }

    /** An entry comes back while others wait: the oldest of them inherits it. */
    method Inherit(ghost n: nat, wsi: Wsi)
      requires Mutual() && Waiting() && Good(State()) && waiters != []
      requires n < |pool| && wsi in conns && wsi.ah == pool[n] && wsi !in waiters
      modifies this`waitList, this`waitLength, this`waiters, pool, conns`ah, waiters`waitNext
      ensures Mutual() && Waiting()
      ensures waiters == old(waiters[..|waiters| - 1])
      ensures Slots() == old(Slots()[n := Some(waiters[|waiters| - 1])])
    {
      hide Mutual, Chained, Owners, OneEach;
      var prev, heir := FindOldest();
      OwnsExactly(heir);
      Rebind(n, wsi, heir);
      Unlink(prev, heir, |waiters| - 1);
    }

    method Rebind(ghost n: nat, wsi: Wsi, heir: Wsi)
      requires Mutual() && n < |pool| && wsi in conns && heir in conns
      requires wsi.ah == pool[n] && heir.ah == null
      modifies pool[n], wsi`ah, heir`ah
      ensures Mutual() && Slots() == old(Slots())[n := Some(heir)]
    {
      hide Owners;
      var ah := wsi.ah;
      wsi.ah := null;
      heir.ah := ah;
      ah.wsi := heir;
      ah.rxpos, ah.rxlen := 0, 0;
    }

    method Release(wsi: Wsi)
      requires Valid() && wsi in conns && wsi.ah != null
      modifies this`countInUse, this`waitList, this`waitLength, this`waiters, pool, conns`ah, waiters`waitNext
      ensures Mutual() && Waiting() && countInUse == InUse(Slots())
      ensures State() == HeaderPool.Detach(old(State()), wsi)
    {
      hide InUse, Owners, Distinct, Without, OneEach;
      OwnsExactly(wsi);
      ghost var n := IndexOf(Slots(), Some(wsi));
      assert wsi !in waiters;
      InUseUpdate(Slots(), n, None);
      if waitList == null {
        Free(n, wsi);
        countInUse := countInUse - 1;
      } else {
        InUseUpdate(Slots(), n, Some(waiters[|waiters| - 1]));
        Inherit(n, wsi);
      }
    }

    method Leave(wsi: Wsi)
      requires Valid() && wsi in conns && wsi.ah == null
      modifies this`waitList, this`waitLength, this`waiters, waiters`waitNext
      ensures Waiting() && State() == HeaderPool.Detach(old(State()), wsi)
    {
      hide InUse, Chained, Owners, OneEach, Mutual;
      OwnsExactly(wsi);
      var waiting, prev, i := Find(wsi);
      if waiting {
        Unlink(prev, wsi, i);
      }
    }

    /** lws_header_table_detach; an entry with unread bytes stays where it is. */
    method Detach(wsi: Wsi)
      requires Valid() && wsi in conns
      modifies this, pool, conns
      ensures Valid() && conns == old(conns)
      ensures State() == if old(wsi.ah != null && wsi.ah.rxpos != wsi.ah.rxlen) then old(State())
                         else HeaderPool.Detach(old(State()), wsi)
    {
      hide Good, HeaderPool.Detach, InUse, Chained, Owners;
      DetachGood(State(), wsi);
      if wsi.ah == null {
        Leave(wsi);
      } else if wsi.ah.rxpos == wsi.ah.rxlen {
        Release(wsi);
      }
    }
  }

  lemma {:induction false} NoneInUse(slots: seq<Option<Wsi>>)
    requires forall i | 0 <= i < |slots| :: slots[i] == None
    ensures InUse(slots) == 0
    decreases |slots|
  {
    if slots != [] { NoneInUse(slots[1..]); }
  }
}
