/** The timer queue: the drain that runs and removes every expired timer. */
module TimerQueue {
  import opened TimerHeap
  import opened IdleTimeout

  /** A callback applied to the connection table; the table entry it is bound to exists already. */
  function Ran(conns: map<int, Conn>, callback: Callback): map<int, Conn> {
    match callback
    case CloseConnection(fd) => if fd in conns then conns[fd := Closed(conns[fd])] else conns
    case NoCallback => conns
  }

  /** A callback changes the entry it closes, and nothing else. */
  lemma RanIs(conns: map<int, Conn>, callback: Callback, fd: int)
    ensures var after := Ran(conns, callback);
            && (fd in after <==> fd in conns)
            && (fd in conns ==>
                  after[fd] == if callback == CloseConnection(fd) then Closed(conns[fd]) else conns[fd])
  {
  }

  /** The callbacks of `fired`, run in order. */
  function RanAll(conns: map<int, Conn>, fired: seq<Timer>): map<int, Conn> {
    if fired == [] then conns
    else Ran(RanAll(conns, fired[..|fired| - 1]), fired[|fired| - 1].callback)
  }

  /** `fired` are timers of `timers`, each once, due by `now`, in the order they are due. */
  ghost predicate FiredInOrder(timers: map<int, Timer>, now: nat, fired: seq<Timer>) {
    && (forall i :: 0 <= i < |fired| ==> fired[i].fd in timers && timers[fired[i].fd] == fired[i])
    && (forall i :: 0 <= i < |fired| ==> fired[i].timestamp <= now)
    && (forall i, j :: 0 <= i < j < |fired| ==> fired[i].fd != fired[j].fd)
    && (forall i, j :: 0 <= i < j < |fired| ==> fired[i].timestamp <= fired[j].timestamp)
  }

  ghost predicate Fired(fired: seq<Timer>, fd: int) { exists i :: 0 <= i < |fired| && fired[i].fd == fd }

  /** `left` is `timers` without the ones in `fired`, and none of it is due before one of them. */
  ghost predicate Remains(timers: map<int, Timer>, fired: seq<Timer>, left: map<int, Timer>) {
    && (forall fd :: fd in left <==> fd in timers && !Fired(fired, fd))
    && (forall fd :: fd in left ==> left[fd] == timers[fd])
    && (forall i, fd :: 0 <= i < |fired| && fd in left ==> fired[i].timestamp <= left[fd].timestamp)
  }

  lemma NothingFired(timers: map<int, Timer>, now: nat)
    ensures FiredInOrder(timers, now, []) && Remains(timers, [], timers)
  {
  }

  /** Firing the least timer that is left. */
  lemma FireOne(timers: map<int, Timer>, now: nat, fired: seq<Timer>, left: map<int, Timer>, t: Timer)
    requires FiredInOrder(timers, now, fired) && Remains(timers, fired, left)
    requires t.fd in left && left[t.fd] == t && t.timestamp <= now
    requires forall fd :: fd in left ==> t.timestamp <= left[fd].timestamp
    ensures FiredInOrder(timers, now, fired + [t]) && Remains(timers, fired + [t], left - {t.fd})
  {
    var more := fired + [t];
    assert forall i :: 0 <= i < |fired| ==> more[i] == fired[i];
    assert more[|fired|] == t;
    forall fd
      ensures Fired(more, fd) <==> Fired(fired, fd) || fd == t.fd
    {
      if Fired(fired, fd) {
        var i :| 0 <= i < |fired| && fired[i].fd == fd;
        assert more[i].fd == fd;
      }
    }
  }

  /** The table the callbacks are bound to; `TcpServer`'s `conns_`. */
  class ConnTable {
    var conns: map<int, Conn>

    constructor ()
      ensures conns == map[]
    {
      conns := map[];
    }

    /** `handleConnectionClose` on an entry. The close callback and epoll are left out. */
    method HandleConnectionClose(fd: int)
      requires fd in conns
      modifies this
      ensures conns == old(conns)[fd := Closed(old(conns[fd]))]
    {
      var conn := conns[fd];
      if conn.disconnected || !conn.hasChannel {
        return;
      }
      conns := conns[fd := conn.(disconnected := true)];
      conns := conns[fd := conns[fd].(hasChannel := false)];
    }

    method Run(callback: Callback)
      modifies this
      ensures conns == Ran(old(conns), callback)
    {
      if callback.CloseConnection? && callback.fd in conns {
        HandleConnectionClose(callback.fd);
      }
    }
  }

  class TimerQueue {
    const heap: TimerHeap

    constructor ()
      ensures heap.Valid() && heap.Contents() == map[] && fresh(heap)
    {
      heap := new TimerHeap();
    }

    /**
     Runs and removes the expired timers, as long as the callbacks leave the heap
     alone. Exactly those due by `now` fire, each once, in the order they are due,
     and exactly the others stay.
     */
    method HandleTimeout(now: nat, table: ConnTable) returns (ghost fired: seq<Timer>)
      requires heap.Valid()
      modifies heap, table
      ensures heap.Valid()
      ensures FiredInOrder(old(heap.Contents()), now, fired)
      ensures forall fd :: Fired(fired, fd) <==> Expired(old(heap.Contents()), fd, now)
      ensures heap.Contents() ==
              map fd | fd in old(heap.Contents()) && old(heap.Contents())[fd].timestamp > now
                      :: old(heap.Contents())[fd]
      ensures table.conns == RanAll(old(table.conns), fired)
    {
      hide FiredInOrder;
      hide TimerHeap.Indexed;
      hide Ordered;
      hide Represents;
      hide Remains;
      ghost var timers := heap.Contents();
      fired := [];
      NothingFired(timers, now);
      var empty := heap.Empty();
      while !empty
        invariant heap.Valid() && (empty <==> heap.Contents() == map[])
        invariant FiredInOrder(timers, now, fired) && Remains(timers, fired, heap.Contents())
        invariant table.conns == RanAll(old(table.conns), fired)
        decreases |heap.Contents()|
      {
        var expired := heap.Top().value;
        if expired.timestamp <= now {
          table.Run(expired.callback);
          FireOne(timers, now, fired, heap.Contents(), expired);
          var _ := heap.Pop();
          fired := fired + [expired];
        } else {
          break;
        }
        empty := heap.Empty();
      }
      AllFired(timers, now, fired, heap.Contents());
    }
  }

  /** When nothing expired is left, what has fired is exactly what was due. */
  lemma AllFired(timers: map<int, Timer>, now: nat, fired: seq<Timer>, left: map<int, Timer>)
    requires FiredInOrder(timers, now, fired) && Remains(timers, fired, left)
    requires forall fd :: fd in left ==> now < left[fd].timestamp
    ensures forall fd :: Fired(fired, fd) <==> Expired(timers, fd, now)
    ensures left == map fd | fd in timers && timers[fd].timestamp > now :: timers[fd]
  {
    forall fd
      ensures Fired(fired, fd) <==> Expired(timers, fd, now)
    {
      if Fired(fired, fd) {
        var i :| 0 <= i < |fired| && fired[i].fd == fd;
        assert fired[i].timestamp <= now;
      }
    }
    var due := map fd | fd in timers && timers[fd].timestamp > now :: timers[fd];
    assert forall fd :: fd in left <==> fd in due;
    assert forall fd :: fd in left ==> left[fd] == due[fd];
    assert left == due;
  }

  /** What a drain does to the table, when each timer closes its own descriptor. */
  lemma {:induction false} RanAllIs(conns: map<int, Conn>, fired: seq<Timer>)
    requires forall i :: 0 <= i < |fired| ==> fired[i].callback == CloseConnection(fired[i].fd)
    ensures RanAll(conns, fired) ==
            map fd | fd in conns :: if Fired(fired, fd) then Closed(conns[fd]) else conns[fd]
  {
    if fired != [] {
      var before, last := fired[..|fired| - 1], fired[|fired| - 1];
      RanAllIs(conns, before);
      forall fd
        ensures Fired(fired, fd) <==> Fired(before, fd) || fd == last.fd
      {
        if Fired(fired, fd) {
          var i :| 0 <= i < |fired| && fired[i].fd == fd;
          assert i < |before| ==> before[i].fd == fd;
        }
        if Fired(before, fd) {
          var i :| 0 <= i < |before| && before[i].fd == fd;
          assert fired[i].fd == fd;
        }
        assert fired[|fired| - 1].fd == last.fd;
      }
    }
  }
}
