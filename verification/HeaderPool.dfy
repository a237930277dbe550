/** The pool of header tables and the list of connections waiting for one: what each operation means. */
module HeaderPool {
  import opened Options
  import opened Sequences

  /** Who owns each entry, and who waits, newest first. */
  datatype Pool<T(==)> = Pool(slots: seq<Option<T>>, waiters: seq<T>)

  predicate Holds<T(==)>(p: Pool<T>, w: T) { Some(w) in p.slots }

  predicate Full<T(==)>(p: Pool<T>) { None !in p.slots }

  function InUse<T>(slots: seq<Option<T>>): nat {
    if slots == [] then 0 else InUse(slots[1..]) + if slots[0].Some? then 1 else 0
  }

  /** lws_header_table_attach: the caller has an entry afterwards, or waits. */
  function Attach<T(==)>(p: Pool<T>, w: T): Pool<T> {
    if Holds(p, w) then p
    else if Full(p) then if w in p.waiters then p else p.(waiters := [w] + p.waiters)
    else Pool(p.slots[IndexOf(p.slots, None) := Some(w)], Without(p.waiters, w))
  }

  /** lws_header_table_detach: the oldest waiter inherits the entry; a waiter gives up waiting. */
  function Detach<T(==)>(p: Pool<T>, w: T): Pool<T> {
    if Holds(p, w) then
      var i := IndexOf(p.slots, Some(w));
      if p.waiters == [] then p.(slots := p.slots[i := None])
      else Pool(p.slots[i := Some(p.waiters[|p.waiters| - 1])], p.waiters[..|p.waiters| - 1])
    else p.(waiters := Without(p.waiters, w))
  }

  predicate OneEach<T(==)>(slots: seq<Option<T>>) {
    forall i, j | 0 <= i < j < |slots| :: slots[i].Some? ==> slots[i] != slots[j]
  }

  /** Nobody owns two entries, nobody waits twice or while owning one, and nobody waits while one is free. */
  predicate Good<T(==)>(p: Pool<T>) {
    && OneEach(p.slots) && Distinct(p.waiters)
    && (forall i | 0 <= i < |p.waiters| :: !Holds(p, p.waiters[i]))
    && (p.waiters != [] ==> Full(p))
  }

  datatype Op<T> = DoAttach(w: T) | DoDetach(w: T)

  function Apply<T(==)>(p: Pool<T>, op: Op<T>): Pool<T> {
    match op
    case DoAttach(w) => Attach(p, w)
    case DoDetach(w) => Detach(p, w)
  }

  function Run<T(==)>(p: Pool<T>, ops: seq<Op<T>>): Pool<T>
    decreases |ops|
  {
    if ops == [] then p else Run(Apply(p, ops[0]), ops[1..])
  }

  lemma {:induction false} InUseUpdate<T>(slots: seq<Option<T>>, i: nat, o: Option<T>)
    requires i < |slots|
    ensures InUse(slots[i := o])
         == InUse(slots) - (if slots[i].Some? then 1 else 0) + if o.Some? then 1 else 0
    decreases |slots|
  {
    if i > 0 {
      InUseUpdate(slots[1..], i - 1, o);
      assert slots[i := o][1..] == slots[1..][i - 1 := o];
    } else {
      assert slots[i := o][1..] == slots[1..];
    }
  }

  lemma {:induction false} FullExactlyIfAllUsed<T>(slots: seq<Option<T>>)
    ensures InUse(slots) <= |slots|
    ensures InUse(slots) == |slots| <==> None !in slots
    decreases |slots|
  {
    if slots != [] {
      FullExactlyIfAllUsed(slots[1..]);
      assert None in slots <==> slots[0] == None || None in slots[1..];
    }
  }

  lemma AttachGood<T>(p: Pool<T>, w: T)
    requires Good(p)
    ensures Good(Attach(p, w)) && (Holds(Attach(p, w), w) != (w in Attach(p, w).waiters))
  {
    if !Holds(p, w) && !Full(p) {
      var i := IndexOf(p.slots, None);
      var q := Attach(p, w);
      assert q.slots[i] == Some(w);
      assert p.waiters == [];
    }
  }

  lemma DetachGood<T>(p: Pool<T>, w: T)
    requires Good(p)
    ensures Good(Detach(p, w)) && !Holds(Detach(p, w), w) && w !in Detach(p, w).waiters
  {
    WithoutDistinct(p.waiters, w);
    if Holds(p, w) && p.waiters != [] {
      Inherited(p, w);
    }
  }

  lemma Inherited<T>(p: Pool<T>, w: T)
    requires Good(p) && Holds(p, w) && p.waiters != []
    ensures var heir := p.waiters[|p.waiters| - 1];
      && Good(Detach(p, w)) && Holds(Detach(p, w), heir) && !Holds(Detach(p, w), w)
      && w !in Detach(p, w).waiters
      && Detach(p, w).slots[IndexOf(p.slots, Some(w))] == Some(heir)
  {
    var i := IndexOf(p.slots, Some(w));
    var heir := p.waiters[|p.waiters| - 1];
    var q := Detach(p, w);
    assert q.slots[i] == Some(heir);
    assert forall v | Holds(q, v) :: Holds(p, v) || v == heir;
  }

  /** Attaching serves the caller if an entry is free, and otherwise makes it the newest waiter; others keep theirs. */
  lemma AttachServesOrQueues<T>(p: Pool<T>, w: T)
    requires Good(p)
    ensures var q := Attach(p, w);
      && (Holds(q, w) <==> Holds(p, w) || None in p.slots)
      && q.waiters == (if Holds(p, w) || None in p.slots || w in p.waiters then p.waiters else [w] + p.waiters)
      && (forall v | v != w :: Holds(q, v) <==> Holds(p, v))
      && InUse(q.slots) == InUse(p.slots) + if Holds(p, w) || None !in p.slots then 0 else 1
  {
    if !Holds(p, w) && !Full(p) {
      var i := IndexOf(p.slots, None);
      var q := Attach(p, w);
      assert p.waiters == [];
      assert q.slots[i] == Some(w);
      InUseUpdate(p.slots, i, Some(w));
      forall v | v != w ensures Holds(q, v) <==> Holds(p, v) {
        if Holds(p, v) { assert q.slots[IndexOf(p.slots, Some(v))] == Some(v); }
      }
    }
  }

  /** Detaching hands the entry to the oldest waiter, or frees it; nobody else gains or loses one. */
  lemma DetachHandsOver<T>(p: Pool<T>, w: T)
    requires Good(p)
    ensures var q := Detach(p, w);
      var heir := if Holds(p, w) && p.waiters != [] then Some(p.waiters[|p.waiters| - 1]) else None;
      && !Holds(q, w) && w !in q.waiters
      && (forall v | v != w :: Holds(q, v) <==> Holds(p, v) || heir == Some(v))
      && (forall v | v != w :: v in q.waiters <==> v in p.waiters && heir != Some(v))
      && InUse(q.slots) == InUse(p.slots) - if Holds(p, w) && p.waiters == [] then 1 else 0
  {
    DetachGood(p, w);
    if Holds(p, w) {
      var i := IndexOf(p.slots, Some(w));
      var q := Detach(p, w);
      InUseUpdate(p.slots, i, q.slots[i]);
      HandedOver(p, w, i, q.slots[i]);
    } else {
      WithoutDistinct(p.waiters, w);
    }
  }

  lemma HandedOver<T>(p: Pool<T>, w: T, i: nat, o: Option<T>)
    requires Good(p) && i < |p.slots| && p.slots[i] == Some(w)
    ensures forall v | v != w :: Some(v) in p.slots[i := o] <==> Some(v) in p.slots || o == Some(v)
    ensures forall v | p.waiters != [] ::
      v in p.waiters[..|p.waiters| - 1] <==> v in p.waiters && v != p.waiters[|p.waiters| - 1]
  {
    var r := p.slots[i := o];
    assert r[i] == o;
    forall v | v != w ensures Some(v) in r <==> Some(v) in p.slots || o == Some(v) {
      if Some(v) in p.slots { assert r[IndexOf(p.slots, Some(v))] == Some(v); }
    }
  }

  /** In every run the pool stays good, so a connection waits only while every entry is owned. */
  lemma {:induction false} RunGood<T>(p: Pool<T>, ops: seq<Op<T>>)
    requires Good(p)
    ensures Good(Run(p, ops))
    decreases |ops|
  {
    hide Good;
    if ops != [] {
      match ops[0] {
        case DoAttach(w) => AttachGood(p, w);
        case DoDetach(w) => DetachGood(p, w);
      }
      RunGood(Apply(p, ops[0]), ops[1..]);
    }
  }

  // ---- first come, first served ----

  /** An owner gives its entry back. */
  predicate Releases<T(==)>(p: Pool<T>, op: Op<T>) { op.DoDetach? && Holds(p, op.w) }

  function Released<T(==)>(p: Pool<T>, ops: seq<Op<T>>): nat
    decreases |ops|
  {
    if ops == [] then 0 else Released(Apply(p, ops[0]), ops[1..]) + if Releases(p, ops[0]) then 1 else 0
  }

  predicate NobodyGivesUp<T(==)>(p: Pool<T>, ops: seq<Op<T>>)
    decreases |ops|
  {
    ops == [] || (!(ops[0].DoDetach? && ops[0].w in p.waiters) && NobodyGivesUp(Apply(p, ops[0]), ops[1..]))
  }

  function KthOldest<T(==)>(p: Pool<T>, k: nat): T
    requires 1 <= k <= |p.waiters|
  {
    p.waiters[|p.waiters| - k]
  }

  lemma StepOrder<T>(p: Pool<T>, op: Op<T>, k: nat)
    requires Good(p) && 1 <= k <= |p.waiters| && !(op.DoDetach? && op.w in p.waiters)
    ensures var q := Apply(p, op);
      if !Releases(p, op) then k <= |q.waiters| && KthOldest(q, k) == KthOldest(p, k)
      else if k > 1 then k - 1 <= |q.waiters| && KthOldest(q, k - 1) == KthOldest(p, k)
      else Holds(q, KthOldest(p, k))
  {
    if Releases(p, op) { Inherited(p, op.w); }
  }

  /** While fewer than k entries have come back, the k-th oldest waiter has only moved up. */
  lemma {:induction false} MovesUp<T>(p: Pool<T>, ops: seq<Op<T>>, k: nat)
    requires Good(p) && 1 <= k <= |p.waiters| && NobodyGivesUp(p, ops) && Released(p, ops) < k
    ensures var q, left := Run(p, ops), k - Released(p, ops);
      Good(q) && left <= |q.waiters| && KthOldest(q, left) == KthOldest(p, k)
    decreases |ops|
  {
    hide Good;
    if ops != [] {
      StepOrder(p, ops[0], k);
      RunGood(p, [ops[0]]);
      assert Run(p, [ops[0]]) == Apply(p, ops[0]) by { assert [ops[0]][1..] == []; }
      MovesUp(Apply(p, ops[0]), ops[1..], if Releases(p, ops[0]) then k - 1 else k);
    }
  }

  /** With no waiter leaving, the k-th oldest gets an entry at exactly the k-th later release: the one released. */
  lemma ServedAtKthRelease<T>(p: Pool<T>, ops: seq<Op<T>>, last: Op<T>, k: nat)
    requires Good(p) && 1 <= k <= |p.waiters| && NobodyGivesUp(p, ops)
    requires Released(p, ops) == k - 1 && Releases(Run(p, ops), last)
    ensures var q := Run(p, ops);
      && !Holds(q, KthOldest(p, k))
      && Apply(q, last).slots == q.slots[IndexOf(q.slots, Some(last.w)) := Some(KthOldest(p, k))]
  {
    MovesUp(p, ops, k);
  }
}
