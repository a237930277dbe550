/** The list of connections with a timeout pending, linked forward by pointers and back by pointers to pointers. */
module TimeoutList {
  import opened Sequences

  // ---- what it means ----

  /** lws_set_timeout on the list, first member first. */
  function Set<T(==)>(list: seq<T>, w: T, reason: nat): seq<T> {
    if reason == 0 then Without(list, w)
    else if w in list then list
    else [w] + list
  }

  datatype Call<T> = Call(w: T, reason: nat)

  function SetAll<T(==)>(list: seq<T>, calls: seq<Call<T>>): seq<T>
    decreases |calls|
  {
    if calls == [] then list else SetAll(Set(list, calls[0].w, calls[0].reason), calls[1..])
  }

  /** Whether a timeout is pending for w after these calls. */
  function Pending<T(==)>(before: bool, calls: seq<Call<T>>, w: T): bool
    decreases |calls|
  {
    if calls == [] then before
    else Pending(if calls[0].w == w then calls[0].reason != 0 else before, calls[1..], w)
  }

  /** One call concerns nobody else: membership follows the reason, and the others keep their order. */
  lemma SetOnlyMoves<T>(list: seq<T>, w: T, reason: nat)
    requires Distinct(list)
    ensures Distinct(Set(list, w, reason)) && (w in Set(list, w, reason) <==> reason != 0)
    ensures Without(Set(list, w, reason), w) == Without(list, w)
    ensures forall v | v != w :: v in Set(list, w, reason) <==> v in list
    ensures reason != 0 && w in list ==> Set(list, w, reason) == list
    ensures reason != 0 && w !in list ==> Set(list, w, reason)[0] == w
  {
    hide IndexOf;
    WithoutDistinct(list, w);
    WithoutFirst(list, w);
    assert w !in list ==> Without(list, w) == list;
    hide Without;
  }

  /** After any calls a connection is in the list, once, exactly if the last call for it gave a reason. */
  lemma {:induction false} MemberExactlyIfPending<T>(list: seq<T>, calls: seq<Call<T>>, w: T)
    requires Distinct(list)
    ensures Distinct(SetAll(list, calls))
    ensures w in SetAll(list, calls) <==> Pending(w in list, calls, w)
    decreases |calls|
  {
    if calls != [] {
      SetOnlyMoves(list, calls[0].w, calls[0].reason);
      MemberExactlyIfPending(Set(list, calls[0].w, calls[0].reason), calls[1..], w);
    }
  }

  /** Members that no call concerns keep their relative order. */
  lemma {:induction false} OthersKeepOrder<T>(list: seq<T>, calls: seq<Call<T>>, u: T, v: T)
    requires Before(list, u, v) && forall i | 0 <= i < |calls| :: calls[i].w != u && calls[i].w != v
    ensures Before(SetAll(list, calls), u, v)
    decreases |calls|
  {
    hide Before, Without;
    if calls != [] {
      var w, reason := calls[0].w, calls[0].reason;
      WithoutKeepsOrder(list, w, u, v);
      PrependKeepsOrder(list, w, u, v);
      OthersKeepOrder(Set(list, w, reason), calls[1..], u, v);
    }
  }

  // ---- the code ----

  /** What timeout_list_prev points at: nothing, the list's head, or another member's timeout_list. */
  datatype Cell = Nowhere | Head | NextOf(w: Wsi)

  class Wsi {
    var next: Wsi?
    var prev: Cell
    var pendingTimeout: nat
    var limit: int

    constructor ()
      ensures next == null && prev == Nowhere && pendingTimeout == 0
    {
      next, prev, pendingTimeout, limit := null, Nowhere, 0, 0;
    }
  }

  class PerThread {
    var timeoutList: Wsi?
    ghost var conns: set<Wsi>
    ghost var list: seq<Wsi>

    /** No cycle, and each member's back pointer is the cell that points at it. */
    ghost predicate LinkedAs(list: seq<Wsi>)
      reads `timeoutList, `conns, conns`next, conns`prev
    {
      && Distinct(list) && (forall w | w in list :: w in conns)
      && timeoutList == (if list == [] then null else list[0])
      && (forall i {:trigger list[i].next} | 0 <= i < |list| ::
            list[i] in conns && list[i].next == if i + 1 < |list| then list[i + 1] else null)
      && (forall i {:trigger list[i].prev} | 0 <= i < |list| ::
            list[i] in conns && list[i].prev == if i == 0 then Head else NextOf(list[i - 1]))
      && (forall w | w in conns :: w !in list ==> w.prev == Nowhere && w.next == null)
    }

    ghost predicate Linked()
      reads `timeoutList, `conns, `list, conns`next, conns`prev
    {
      LinkedAs(list)
    }

    /** The forward pointers once the i-th member has been taken out but is still listed. */
    ghost predicate PassedBy(i: nat)
      reads `timeoutList, `list, `conns, conns`next
      requires i < |list|
    {
      && list[i] in conns && list[i].next == null
      && timeoutList == (if i > 0 then list[0] else if |list| > 1 then list[1] else null)
      && (forall k {:trigger list[k].next} | 0 <= k < |list| && k != i ::
            list[k] in conns
            && list[k].next == var n := if k + 1 == i then k + 2 else k + 1; if n < |list| then list[n] else null)
      && (forall v | v in conns && v !in list :: v.next == null)
    }

    /** And the back pointers. */
    ghost predicate PassedBack(i: nat)
      reads `list, `conns, conns`prev
      requires i < |list|
    {
      && list[i] in conns && list[i].prev == Nowhere
      && (forall k {:trigger list[k].prev} | 0 <= k < |list| && k != i ::
            list[k] in conns
            && list[k].prev == var p := if k == i + 1 then k - 2 else k - 1; if p < 0 then Head else NextOf(list[p]))
      && (forall v | v in conns && v !in list :: v.prev == Nowhere)
    }

    /** A member exactly if something is pending. */
    ghost predicate Valid()
      reads `timeoutList, `conns, `list, conns
    {
      Linked() && forall w | w in conns :: w in list <==> w.pendingTimeout != 0
    }

    constructor ()
      ensures Valid() && conns == {} && list == []
    {
      timeoutList, conns, list := null, {}, [];
    }

    method Accept(w: Wsi)
      requires Valid() && w !in conns && w.next == null && w.prev == Nowhere && w.pendingTimeout == 0
      modifies this`conns
      ensures Valid() && conns == old(conns) + {w} && list == old(list)
    {
      conns := conns + {w};
      assert w !in list;
    }

    /** The cell a back pointer names is made to point elsewhere. */
    method Store(cell: Cell, next: Wsi?)
      requires cell != Nowhere
      modifies this`timeoutList, (if cell.NextOf? then {cell.w} else {})`next
      ensures cell == Head ==> timeoutList == next
      ensures cell.NextOf? ==> cell.w.next == next && timeoutList == old(timeoutList)
    {
      match cell {
        case Head => timeoutList := next;
        case NextOf(w) => w.next := next;
      }
    }

    method PushFront(w: Wsi)
      requires Linked() && w in conns && w !in list
      modifies this`timeoutList, this`list, conns`next, conns`prev
      ensures Linked() && list == [w] + old(list)
    {
      w.next := timeoutList;
      if w.next != null {
        w.next.prev := NextOf(w);
      }
      w.prev := Head;
      Store(w.prev, w);
      list := [w] + list;
    }

    /** lws_remove_from_timeout_list */
    method Remove(w: Wsi)
      requires Linked() && w in conns
      modifies this`timeoutList, this`list, conns`next, conns`prev
      ensures Linked() && list == Without(old(list), w)
    {
      hide Distinct, Without, IndexOf, LinkedAs, PassedBy, PassedBack;
      if w.prev == Nowhere {
        NotMember(w);
      } else {
        var i := Member(w);
        Unlink(w, i);
        Relinked(i);
        list := list[..i] + list[i + 1..];
      }
    }

    lemma NotMember(w: Wsi)
      requires Linked() && w in conns && w.prev == Nowhere
      ensures w !in list && Without(list, w) == list
    {
    }

    lemma Member(w: Wsi) returns (i: nat)
      requires Linked() && w in conns && w.prev != Nowhere
      ensures i < |list| && list[i] == w && Without(list, w) == list[..i] + list[i + 1..] && Distinct(list)
      ensures forall v | v in list :: v in conns
    {
      i := IndexOf(list, w);
    }

    /** After the surgery the rest of the list is linked as it should be. */
    lemma Relinked(i: nat)
      requires Distinct(list) && i < |list| && PassedBy(i) && PassedBack(i) && forall w | w in list :: w in conns
      ensures LinkedAs(list[..i] + list[i + 1..])
    {
      hide Distinct, Without;
      WithoutAt(list, i);
      WithoutDistinct(list, list[i]);
      var r := list[..i] + list[i + 1..];
      forall j | 0 <= j < |r|
        ensures r[j] in conns
        ensures r[j].next == if j + 1 < |r| then r[j + 1] else null
        ensures r[j].prev == if j == 0 then Head else NextOf(r[j - 1])
      {
        assert r[j] == list[if j < i then j else j + 1];
      }
    }

    /** The pointer surgery: the next member's back pointer, the cell in front, and w itself. */
    method Unlink(w: Wsi, ghost i: nat)
      requires Linked() && i < |list| && list[i] == w
      modifies this`timeoutList, conns`next, conns`prev
      ensures PassedBy(i) && PassedBack(i)
    {
      var cell := w.prev;
      PassBack(w, i);
      PassBy(w, cell, i);
    }

    method PassBack(w: Wsi, ghost i: nat)
      requires Linked() && i < |list| && list[i] == w
      modifies conns`prev
      ensures PassedBack(i)
    {
      assert w.next == (if i + 1 < |list| then list[i + 1] else null);
      assert w.prev == (if i == 0 then Head else NextOf(list[i - 1]));
      if w.next != null {
        w.next.prev := w.prev;
      }
      w.prev := Nowhere;
      forall k | 0 <= k < |list| && k != i
        ensures list[k].prev == var p := if k == i + 1 then k - 2 else k - 1; if p < 0 then Head else NextOf(list[p])
      {
        assert list[k] in conns && old(list[k].prev) == (if k == 0 then Head else NextOf(list[k - 1]));
      }
    }

    /** What a list with its forward pointers in order looks like. */
    ghost predicate Forward()
      reads `timeoutList, `list, `conns, conns`next
    {
      && Distinct(list) && (forall w | w in list :: w in conns)
      && timeoutList == (if list == [] then null else list[0])
      && (forall i {:trigger list[i].next} | 0 <= i < |list| ::
            list[i] in conns && list[i].next == if i + 1 < |list| then list[i + 1] else null)
      && (forall w | w in conns :: w !in list ==> w.next == null)
    }

    method PassBy(w: Wsi, cell: Cell, ghost i: nat)
      requires Forward() && i < |list| && list[i] == w && cell == if i == 0 then Head else NextOf(list[i - 1])
      modifies this`timeoutList, conns`next
      ensures PassedBy(i)
    {
      assert w.next == (if i + 1 < |list| then list[i + 1] else null);
      if i > 0 { assert list[i - 1].next == list[i]; }
      Store(cell, w.next);
      w.next := null;
      forall k | 0 <= k < |list| && k != i
        ensures list[k].next == var n := if k + 1 == i then k + 2 else k + 1; if n < |list| then list[n] else null
      {
        assert list[k] in conns && old(list[k].next) == (if k + 1 < |list| then list[k + 1] else null);
      }
    }

    /** lws_set_timeout */
    method SetTimeout(w: Wsi, reason: nat, secs: int, now: int)
      requires Valid() && w in conns
      modifies this`timeoutList, this`list, conns
      ensures Valid() && list == Set(old(list), w, reason)
      ensures w.pendingTimeout == reason && w.limit == now + secs
      ensures forall v | v in conns && v != w :: v.pendingTimeout == old(v.pendingTimeout) && v.limit == old(v.limit)
    {
      hide Distinct, Without;
      SetOnlyMoves(list, w, reason);
      if reason != 0 && w.prev == Nowhere {
        PushFront(w);
      }
      w.limit := now + secs;
      w.pendingTimeout := reason;
      if reason == 0 {
        Remove(w);
      }
    }

    /** A connection that is closed leaves the list whatever is pending. */
    method Close(w: Wsi)
      requires Valid() && w in conns
      modifies this, conns`next, conns`prev
      ensures Valid() && conns == old(conns) - {w} && list == Without(old(list), w)
    {
      assert Distinct(list);
      hide Without, Distinct, LinkedAs;
      WithoutDistinct(list, w);
      Remove(w);
      Forget(w);
    }

    method Forget(w: Wsi)
      requires Linked() && w in conns && w !in list
      requires forall v | v in conns && v != w :: v in list <==> v.pendingTimeout != 0
      modifies this`conns
      ensures Valid() && conns == old(conns) - {w}
    {
      hide Distinct;
      conns := conns - {w};
    }
  }
}
