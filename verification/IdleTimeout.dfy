/**
 The idle-connection protocol of the event loop as a pure step system, and what
 it means without any timers: a connection lives from its accept until it is
 closed, or until a tick finds it idle for the whole timeout.
 */
module IdleTimeout {
  import opened Common
  import opened TimerHeap

  /** A TcpConnection: its flag, and whether it has a channel. */
  datatype Conn = Conn(disconnected: bool, hasChannel: bool)

  /** What `TcpConnection()` builds when `conns_[fd]` meets a new descriptor. */
  const FRESH := Conn(false, false)

  /** `conns_` and the timers of `alive_timer_`. */
  datatype State = State(conns: map<int, Conn>, timers: map<int, Timer>)

  /** `now` is the clock in microseconds. Read and write events are alike here. */
  datatype Event =
    | Accept(fd: int, now: nat)
    | Activity(fd: int, now: nat)
    | Close(fd: int)
    | Tick(now: nat)

  predicate Open(c: Conn) { !c.disconnected && c.hasChannel }

  predicate Connected(conns: map<int, Conn>, fd: int) { fd in conns && Open(conns[fd]) }

  /** `handleConnectionClose` on an entry of the table. */
  function Closed(c: Conn): Conn {
    if Open(c) then Conn(true, false) else c
  }

  /** `&conns_[fd]`: the entry, made if there is none. */
  function Touched(conns: map<int, Conn>, fd: int): map<int, Conn> {
    if fd in conns then conns else conns[fd := FRESH]
  }

  predicate Expired(timers: map<int, Timer>, fd: int, now: nat) {
    fd in timers && timers[fd].timestamp <= now
  }

  /** One event. `idle` is the timeout in microseconds. */
  function Step(s: State, e: Event, idle: nat): State {
    match e
    case Accept(fd, now) =>
      State(s.conns[fd := Conn(false, true)], s.timers[fd := Timer(fd, now + idle, CloseConnection(fd))])
    case Activity(fd, now) =>
      State(Touched(s.conns, fd),
            if Connected(s.conns, fd) && fd in s.timers
            then s.timers[fd := s.timers[fd].(timestamp := now + idle)] else s.timers)
    case Close(fd) =>
      var conns := Touched(s.conns, fd);
      State(conns[fd := Closed(conns[fd])], s.timers)
    case Tick(now) =>
      State(map fd | fd in s.conns :: if Expired(s.timers, fd, now) then Closed(s.conns[fd]) else s.conns[fd],
            map fd | fd in s.timers && s.timers[fd].timestamp > now :: s.timers[fd])
  }

  /** The state after a run, from a server without connections. */
  function After(run: seq<Event>, idle: nat): State {
    if run == [] then State(map[], map[])
    else Step(After(run[..|run| - 1], idle), run[|run| - 1], idle)
  }

  // ---- the meaning of a run, without timers ----

  /** The time of the last accept or activity on `fd`. */
  function LastActive(run: seq<Event>, fd: int): nat {
    if run == [] then 0
    else
      match run[|run| - 1]
      case Accept(f, now) => if f == fd then now else LastActive(run[..|run| - 1], fd)
      case Activity(f, now) => if f == fd then now else LastActive(run[..|run| - 1], fd)
      case _ => LastActive(run[..|run| - 1], fd)
  }

  /** Accepted, and since then neither closed nor found idle for the timeout by a tick. */
  predicate Alive(run: seq<Event>, fd: int, idle: nat) {
    run != [] &&
    var before := run[..|run| - 1];
    match run[|run| - 1]
    case Accept(f, _) => f == fd || Alive(before, fd, idle)
    case Activity(_, _) => Alive(before, fd, idle)
    case Close(f) => f != fd && Alive(before, fd, idle)
    case Tick(now) => Alive(before, fd, idle) && now < LastActive(before, fd) + idle
  }

  /** The clock at the end of a run. */
  function Clock(run: seq<Event>): nat {
    if run == [] then 0
    else
      match run[|run| - 1]
      case Close(_) => Clock(run[..|run| - 1])
      case e => e.now
  }

  /** The clock never runs backwards. */
  predicate WellTimed(run: seq<Event>) {
    run == [] || (WellTimed(run[..|run| - 1]) && Clock(run[..|run| - 1]) <= Clock(run))
  }

  /** Each timer closes the connection of its own descriptor, and is due within the timeout. */
  ghost predicate TimersSane(timers: map<int, Timer>, clock: nat, idle: nat) {
    forall fd :: fd in timers ==>
      timers[fd].fd == fd && timers[fd].callback == CloseConnection(fd) && timers[fd].timestamp <= clock + idle
  }

  /**
   Over every run, with descriptors reused and stale timers left behind: exactly
   the connections the timer-free meaning keeps alive are connected, each has a
   timer, and that timer is due one timeout after its last activity.
   */
  lemma {:induction false} RunsMeanAlive(run: seq<Event>, fd: int, idle: nat)
    requires WellTimed(run)
    ensures var s := After(run, idle);
            && (Connected(s.conns, fd) <==> Alive(run, fd, idle))
            && (Connected(s.conns, fd) ==> fd in s.timers && s.timers[fd].timestamp == LastActive(run, fd) + idle)
  {
    if run != [] {
      RunsMeanAlive(run[..|run| - 1], fd, idle);
    }
  }

  /**
   When the timer on `fd` is due: one timeout after the accept or activity that set it
   last. A close leaves it where it is, and the first tick behind that time takes it.
   */
  function Deadline(run: seq<Event>, fd: int, idle: nat): Option<nat> {
    if run == [] then None
    else
      var before := run[..|run| - 1];
      var was := Deadline(before, fd, idle);
      match run[|run| - 1]
      case Accept(f, now) => if f == fd then Some(now + idle) else was
      case Activity(f, now) => if f == fd && Alive(before, fd, idle) then Some(now + idle) else was
      case Close(_) => was
      case Tick(now) => if was.Some? && was.value <= now then None else was
  }

  /** The timers of a run are these, stale ones included, and each closes its own descriptor. */
  lemma {:induction false} TimersMean(run: seq<Event>, fd: int, idle: nat)
    requires WellTimed(run)
    ensures var timers, deadline := After(run, idle).timers, Deadline(run, fd, idle);
            && (fd in timers <==> deadline.Some?)
            && (fd in timers ==> timers[fd] == Timer(fd, deadline.value, CloseConnection(fd)))
  {
    if run != [] {
      RunsMeanAlive(run[..|run| - 1], fd, idle);
      TimersMean(run[..|run| - 1], fd, idle);
    }
  }

  predicate Concerns(e: Event, fd: int) { !e.Tick? && e.fd == fd }

  predicate Accepts(e: Event, fd: int) { e.Accept? && e.fd == fd }

  /** The entries of the table: one for every descriptor met, which tells what became of it. */
  lemma {:induction false} EntriesMean(run: seq<Event>, fd: int, idle: nat)
    requires WellTimed(run)
    ensures var conns, alive := After(run, idle).conns, Alive(run, fd, idle);
            && (fd in conns <==> exists e :: e in run && Concerns(e, fd))
            && (fd in conns ==> conns[fd] == Conn(!alive && exists e :: e in run && Accepts(e, fd), alive))
            && (alive ==> exists e :: e in run && Accepts(e, fd))
  {
    if run != [] {
      var before, last := run[..|run| - 1], run[|run| - 1];
      EntriesMean(before, fd, idle);
      RunsMeanAlive(before, fd, idle);
      InLonger(before, last, fd);
      assert run == before + [last];
    }
  }

  lemma InLonger(before: seq<Event>, last: Event, fd: int)
    ensures (exists e :: e in before + [last] && Concerns(e, fd))
       <==> Concerns(last, fd) || exists e :: e in before && Concerns(e, fd)
    ensures (exists e :: e in before + [last] && Accepts(e, fd))
       <==> Accepts(last, fd) || exists e :: e in before && Accepts(e, fd)
  {
    assert forall e :: e in before + [last] <==> e in before || e == last;
    assert last in before + [last];
  }

  lemma {:induction false} TimersStaySane(run: seq<Event>, idle: nat)
    requires WellTimed(run)
    ensures TimersSane(After(run, idle).timers, Clock(run), idle)
  {
    if run != [] {
      TimersStaySane(run[..|run| - 1], idle);
    }
  }

  /** Right after a tick, whoever is still connected has been active within the timeout. */
  lemma NobodyIdleAfterTick(run: seq<Event>, fd: int, now: nat, idle: nat)
    requires WellTimed(run + [Tick(now)])
    ensures var s, t := After(run, idle), After(run + [Tick(now)], idle);
            Connected(t.conns, fd) <==> Connected(s.conns, fd) && now < LastActive(run, fd) + idle
  {
    var longer := run + [Tick(now)];
    assert longer[..|longer| - 1] == run;
    RunsMeanAlive(run, fd, idle);
    RunsMeanAlive(longer, fd, idle);
  }
}
