/** The poll table as the code keeps it: an array that shrinks by moving its last slot, and an index by descriptor. */
module PollFds {
  import opened Options
  import opened PollTable

  /** struct pollfd */
  datatype PollFd = PollFd(fd: nat, events: Events, revents: nat)

  class Wsi {
    const sock: nat
    /** -1 when the connection is not in the table. */
    var position: int

    constructor (sock: nat)
      ensures this.sock == sock && position == -1
    {
      this.sock, position := sock, -1;
    }
  }

  function SlotsOf(fds: seq<PollFd>): (r: seq<Slot>)
    ensures |r| == |fds| && forall i | 0 <= i < |r| :: r[i] == Slot(fds[i].fd, fds[i].events)
  {
    seq(|fds|, i requires 0 <= i < |fds| => Slot(fds[i].fd, fds[i].events))
  }

  class PerThread {
    const limit: nat
    const wakeFd: nat
    const fds: array<PollFd>
    var fdsCount: nat
    const lookup: array<Wsi?>
    const listening: Wsi?
    ghost var conns: set<Wsi>

    ghost predicate Shape()
      reads `fdsCount
    {
      1 <= fdsCount <= limit <= fds.Length
    }

    /** Every used slot but the wake-up pipe's and its connection know each other. */
    ghost predicate Indexed()
      reads `fdsCount, fds, lookup, `conns, conns`position
      requires Shape()
    {
      && fds[0].fd == wakeFd && (wakeFd < lookup.Length ==> lookup[wakeFd] == null)
      && (forall i | 1 <= i < fdsCount ::
            fds[i].fd < lookup.Length && lookup[fds[i].fd] != null
            && lookup[fds[i].fd] in conns && lookup[fds[i].fd].position == i)
      && (forall s | 0 <= s < lookup.Length ::
            lookup[s] != null ==> lookup[s] in conns && lookup[s].sock == s && lookup[s].position != -1)
      && (forall w | w in conns :: w.position != -1 ==>
            1 <= w.position < fdsCount && fds[w.position].fd == w.sock && w.sock < lookup.Length && lookup[w.sock] == w)
    }

    /** A listening socket keeps its descriptor. */
    ghost predicate Listens()
      reads lookup, `conns
    {
      listening != null ==>
        && listening in conns
        && (listening.sock < lookup.Length && lookup[listening.sock] != null ==> lookup[listening.sock] == listening)
    }

    ghost predicate Valid()
      reads `fdsCount, fds, lookup, `conns, conns`position
    {
      Shape() && Indexed() && Listens()
    }

    ghost function Slots(): seq<Slot>
      reads `fdsCount, fds
      requires Shape()
    {
      SlotsOf(fds[1..fdsCount])
    }

    ghost function State(): Table
      reads `fdsCount, fds
      requires Shape()
    {
      Table(Slots(), limit, if listening == null then None else Some(listening.sock))
    }

    /** Only the wake-up pipe is polled at first. */
    constructor (limit: nat, maxFds: nat, wakeFd: nat, listening: Wsi?)
      requires limit >= 1 && (listening != null ==> listening.position == -1)
      ensures Valid() && Slots() == [] && this.limit == limit && this.listening == listening
      ensures conns == if listening == null then {} else {listening}
    {
      this.limit, this.wakeFd, this.listening := limit, wakeFd, listening;
      fds := new PollFd[limit](_ => PollFd(wakeFd, POLLIN, 0));
      lookup := new Wsi?[maxFds](_ => null);
      fdsCount := 1;
      conns := if listening == null then {} else {listening};
    }

    /** Being in the table, being in the index and having a position are the same. */
    lemma InTable(w: Wsi)
      requires Valid() && w in conns
      ensures w.position != -1 <==> w.sock < lookup.Length && lookup[w.sock] == w
      ensures w.position != -1 ==> Listed(Slots(), w.sock) && w.position - 1 == Where(Slots(), w.sock)
      ensures w.position == -1 && (w.sock < lookup.Length ==> lookup[w.sock] == null) ==> !Listed(Slots(), w.sock)
    {
      if w.position != -1 {
        assert Slots()[w.position - 1].fd == w.sock;
        var k := Where(Slots(), w.sock);
        assert fds[k + 1].fd == w.sock;
      } else if Listed(Slots(), w.sock) {
        var i :| 0 <= i < |Slots()| && Slots()[i].fd == w.sock;
        assert fds[i + 1].fd == w.sock;
      }
    }

    lemma Distinct()
      requires Valid()
      ensures DistinctFds(Slots())
    {
      forall i, j | 0 <= i < j < |Slots()| ensures Slots()[i].fd != Slots()[j].fd {
        assert lookup[fds[i + 1].fd].position == i + 1 && lookup[fds[j + 1].fd].position == j + 1;
      }
    }

    /** _lws_change_pollfd */
    method ChangePollfd(w: Wsi?, clear: Events, set_: Events)
      requires Valid() && (w != null ==> w in conns)
      requires w != null && w.position == -1 && w.sock < lookup.Length ==> lookup[w.sock] == null
      modifies fds
      ensures Valid()
      ensures Slots() == if w == null then old(Slots()) else Change(old(Slots()), w.sock, clear, set_)
    {
      if w == null {
        return;
      }
      InTable(w);
      Distinct();
      if w.position >= 0 {
        var p := fds[w.position];
        fds[w.position] := p.(events := Changed(p.events, clear, set_));
      }
    }

    /** A connection joins, at first without a slot. */
    method Accept(w: Wsi)
      requires Valid() && w !in conns && w.position == -1
      modifies this`conns
      ensures Valid() && conns == old(conns) + {w} && State() == old(State())
    {
      conns := conns + {w};
    }

    /** insert_wsi_socket_into_fds; false when there is no room for the socket. */
    method Insert(w: Wsi) returns (ok: bool)
      requires Valid() && w in conns && w.position == -1 && w.sock != wakeFd
      requires w.sock < lookup.Length ==> lookup[w.sock] == null
      requires listening != null && w.sock == listening.sock ==> w == listening
      modifies this`fdsCount, fds, lookup, w`position
      ensures Valid() && ok == (old(fdsCount) < limit && w.sock < lookup.Length)
      ensures State() == if w.sock < lookup.Length then PollTable.Insert(old(State()), w.sock) else old(State())
      ensures ok ==> lookup[w.sock] == w && 1 <= w.position < fdsCount && fds[w.position].fd == w.sock
    {
      if fdsCount >= limit || w.sock >= lookup.Length {
        return false;
      }
      Append(w);
      if fdsCount == limit - 1 {
        ChangePollfd(listening, POLLIN, NO_EVENTS);
      }
      InTable(w);
      return true;
    }

    method Append(w: Wsi)
      requires Valid() && fdsCount < limit && w in conns && w.position == -1 && w.sock != wakeFd
      requires w.sock < lookup.Length && lookup[w.sock] == null
      requires listening != null && w.sock == listening.sock ==> w == listening
      modifies this`fdsCount, fds, lookup, w`position
      ensures Valid() && w.position != -1
      ensures Slots() == old(Slots()) + [Slot(w.sock, POLLIN)]
    {
      lookup[w.sock] := w;
      w.position := fdsCount;
      fds[w.position] := PollFd(w.sock, POLLIN, 0);
      fdsCount := fdsCount + 1;
    }

    /** remove_wsi_socket_from_fds: the last slot's connection takes over the place. */
    method Remove(w: Wsi)
      requires Valid() && w in conns && w.position != -1
      modifies this`fdsCount, fds, lookup, conns`position
      ensures Valid() && w.position == -1 && lookup[w.sock] == null
      ensures Listed(old(Slots()), w.sock) && State() == PollTable.Remove(old(State()), w.sock)
      ensures forall v | v in conns && v != w :: (v.position == -1) == (old(v.position) == -1)
    {
      InTable(w);
      SwapOut(w);
      if fdsCount < limit - 1 {
        ChangePollfd(listening, NO_EVENTS, POLLIN);
      }
    }

    method SwapOut(w: Wsi)
      requires Valid() && w in conns && w.position != -1
      modifies this`fdsCount, fds, lookup, conns`position
      ensures Valid() && w.position == -1 && w.sock < lookup.Length && lookup[w.sock] == null
      ensures 1 <= old(w.position) <= |old(Slots())| && Slots() == SwapRemove(old(Slots()), old(w.position) - 1)
      ensures forall v | v in conns && v != w :: (v.position == -1) == (old(v.position) == -1)
    {
      hide SlotsOf;
      var m := w.position;
      ghost var before := fds[1..fdsCount];
      fds[m] := fds[fdsCount - 1];
      fdsCount := fdsCount - 1;
      var endWsi := lookup[fds[m].fd];
      endWsi.position := m;
      lookup[w.sock] := null;
      w.position := -1;
      assert fds[1..fdsCount] == before[m - 1 := before[fdsCount - 1]][..fdsCount - 1];
    }
  }
}
