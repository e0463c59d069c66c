/**
 The event-loop side of `TcpServer`: each handler moves the connection table and
 the timer heap as one step of the idle-timeout protocol.
 */
module TcpServer {
  import opened TimerHeap
  import opened IdleTimeout
  import opened TimerQueue

  class TcpServer {
    const table: ConnTable
    const aliveTimer: TimerQueue
    const idleTimeout: nat
    /** The latest time any handler has seen. */
    ghost var clock: nat

    /** `idleTimeout` is in milliseconds. */
    constructor (idleTimeout: nat)
      ensures Valid() && View() == After([], Idle()) && this.idleTimeout == idleTimeout && clock == 0
    {
      this.idleTimeout := idleTimeout;
      table := new ConnTable();
      aliveTimer := new TimerQueue();
      clock := 0;
    }

    /** The timeout in microseconds. */
    function Idle(): nat { idleTimeout * 1000 }

    ghost predicate Valid()
      reads this, table, aliveTimer.heap
    {
      && aliveTimer.heap.Valid()
      && TimersSane(aliveTimer.heap.Contents(), clock, Idle())
    }

    ghost function View(): State
      reads this, table, aliveTimer.heap
      requires Valid()
    {
      State(table.conns, aliveTimer.heap.Contents())
    }

    /** `handleConnected`, with the clock read as `now`. */
    method HandleConnected(connfd: int, now: nat)
      requires Valid() && clock <= now
      modifies this, table, aliveTimer.heap
      ensures Valid() && clock == now && View() == Step(old(View()), Accept(connfd, now), Idle())
    {
      hide TimerHeap.Indexed;
      hide Ordered;
      hide Represents;
      table.conns := table.conns[connfd := FRESH];
      table.conns := table.conns[connfd := table.conns[connfd].(hasChannel := true)];
      aliveTimer.heap.Push(Timer(connfd, now + Idle(), CloseConnection(connfd)));
      clock := now;
    }

    /**
     `handleRead` and `handleWrite` on a connection: the deadline moves, and a
     worker gets the connection. `adjust` only sifts down, which is enough since
     the new deadline is never before the old one.
     */
    method HandleConnectionEvent(fd: int, now: nat)
      requires Valid() && clock <= now
      modifies this, table, aliveTimer.heap
      ensures Valid() && clock == now && View() == Step(old(View()), Activity(fd, now), Idle())
    {
      if fd !in table.conns {
        table.conns := table.conns[fd := FRESH];
      }
      clock := now;
      var conn := table.conns[fd];
      if conn.disconnected || !conn.hasChannel {
        return;
      }
      aliveTimer.heap.Adjust(Timer(fd, now + Idle(), NoCallback));
    }

    /** `handleClose`: the timer stays behind. */
    method HandleClose(fd: int)
      requires Valid()
      modifies this, table
      ensures Valid() && clock == old(clock) && View() == Step(old(View()), Close(fd), Idle())
    {
      if fd !in table.conns {
        table.conns := table.conns[fd := FRESH];
      }
      table.HandleConnectionClose(fd);
    }

    /** `handleTimeout` on the alive timer. */
    method HandleTimeout(now: nat)
      requires Valid() && clock <= now
      modifies this, table, aliveTimer.heap
      ensures Valid() && clock == now && View() == Step(old(View()), Tick(now), Idle())
    {
      ghost var timers, conns := aliveTimer.heap.Contents(), table.conns;
      ghost var fired := aliveTimer.HandleTimeout(now, table);
      RanAllIs(conns, fired);
      assert forall fd :: Fired(fired, fd) <==> Expired(timers, fd, now);
      clock := now;
    }
  }

  /**
   Any run of the handlers: `server` has been through `run`, and goes on with `e`.
   What it then holds is what the run means: the connections alive, no more, each
   with one timer due one timeout, which is given in milliseconds, after its last activity
   on the clock of microseconds.
   */
  method Handle(server: TcpServer, ghost run: seq<Event>, e: Event)
    requires server.Valid() && WellTimed(run + [e])
    requires server.View() == After(run, server.Idle()) && server.clock == Clock(run)
    modifies server, server.table, server.aliveTimer.heap
    ensures server.Valid() && server.View() == After(run + [e], server.Idle())
    ensures server.clock == Clock(run + [e])
    ensures forall fd :: Connected(server.table.conns, fd) <==> Alive(run + [e], fd, server.Idle())
    ensures forall fd :: Alive(run + [e], fd, server.Idle()) ==>
      fd in server.aliveTimer.heap.Contents()
      && server.aliveTimer.heap.Contents()[fd].timestamp
         == LastActive(run + [e], fd) + 1000 * server.idleTimeout
  {
    ghost var longer := run + [e];
    assert longer[..|longer| - 1] == run;
    match e {
      case Accept(fd, now) => server.HandleConnected(fd, now);
      case Activity(fd, now) => server.HandleConnectionEvent(fd, now);
      case Close(fd) => server.HandleClose(fd);
      case Tick(now) => server.HandleTimeout(now);
    }
    forall fd
      ensures Connected(server.table.conns, fd) <==> Alive(longer, fd, server.Idle())
      ensures Alive(longer, fd, server.Idle()) ==>
        fd in server.aliveTimer.heap.Contents()
        && server.aliveTimer.heap.Contents()[fd].timestamp == LastActive(longer, fd) + server.Idle()
    {
      RunsMeanAlive(longer, fd, server.Idle());
    }
  }
}
