/**
 The thread pool as a system of steps: callers of `add`, the worker loops and
 `shutdownAll` interleave at every access to what they share.
 */
module ThreadPool {
  import opened Common

  type Task = nat

  /** Where a worker is in `run`; in `Locked`, `Deciding` and `Sleepy` it holds the mutex. */
  datatype Worker =
    | Ready            // before the mutex
    | Locked           // at the condition of the inner loop
    | Sleepy           // the condition held: about to wait
    | Waiting          // on the condition variable
    | Woken            // wants the mutex back
    | Deciding         // behind the inner loop
    | Running(task: Task)
    | Exited

  datatype State = State(
    running: bool,
    queue: seq<Task>,
    workers: seq<Worker>,
    holder: Option<nat>,
    adding: seq<Task>,   // calls of `add` past their check of `running_`
    notifies: nat,       // calls of `add` whose notification is still to come
    closing: bool,       // `shutdownAll` before its notification
    // what has happened
    accepted: seq<Task>,
    started: seq<Task>,
    finished: seq<Task>,
    late: seq<Task>      // accepted after the last worker had gone
  )

  datatype Event =
    | AddCheck(task: Task)
    | AddPush(i: nat)
    | NotifyOne(w: nat)
    | NotifyNobody
    | Shutdown
    | NotifyAll
    | Lock(w: nat)
    | LoopTest(w: nat)
    | Sleep(w: nat)
    | Spurious(w: nat)
    | Decide(w: nat)
    | Finish(w: nat)

  /** `Undefined` stands for `front` on an empty queue. */
  datatype Outcome = Next(state: State) | Disabled | Undefined

  function Init(n: nat): State {
    State(true, [], seq(n, _ => Ready), None, [], 0, false, [], [], [], [])
  }

  predicate AllExited(s: State) { forall w :: 0 <= w < |s.workers| ==> s.workers[w] == Exited }

  predicate Holds(w: Worker) { w.Locked? || w.Sleepy? || w.Deciding? }

  function Wake(ws: seq<Worker>): (r: seq<Worker>)
    ensures |r| == |ws|
    ensures forall w :: 0 <= w < |ws| ==> r[w] == if ws[w].Waiting? then Woken else ws[w]
  {
    if ws == [] then [] else [if ws[0].Waiting? then Woken else ws[0]] + Wake(ws[1..])
  }

  function Move(s: State, w: nat, to: Worker): State
    requires w < |s.workers|
  {
    s.(workers := s.workers[w := to])
  }

  function Step(s: State, e: Event): Outcome {
    match e
    case AddCheck(t) => Next(if s.running then s.(adding := s.adding + [t]) else s)
    case AddPush(i) =>
      if i >= |s.adding| || s.holder.Some? then Disabled
      else
        var t := s.adding[i];
        Next(s.(adding := s.adding[..i] + s.adding[i + 1..], notifies := s.notifies + 1,
                queue := s.queue + [t], accepted := s.accepted + [t],
                late := if AllExited(s) then s.late + [t] else s.late))
    case NotifyOne(w) =>
      if s.notifies == 0 || w >= |s.workers| || !s.workers[w].Waiting? then Disabled
      else Next(Move(s, w, Woken).(notifies := s.notifies - 1))
    case NotifyNobody =>
      if s.notifies == 0 || exists w :: 0 <= w < |s.workers| && s.workers[w].Waiting? then Disabled
      else Next(s.(notifies := s.notifies - 1))
    case Shutdown => if s.running then Next(s.(running := false, closing := true)) else Disabled
    case NotifyAll =>
      if !s.closing then Disabled else Next(s.(workers := Wake(s.workers), closing := false))
    case Lock(w) =>
      if w >= |s.workers| || s.holder.Some? || !(s.workers[w].Ready? || s.workers[w].Woken?) then Disabled
      else Next(Move(s, w, Locked).(holder := Some(w)))
    case LoopTest(w) =>
      if w >= |s.workers| || !s.workers[w].Locked? then Disabled
      else Next(Move(s, w, if s.running && s.queue == [] then Sleepy else Deciding))
    case Sleep(w) =>
      if w >= |s.workers| || !s.workers[w].Sleepy? then Disabled
      else Next(Move(s, w, Waiting).(holder := None))
    case Spurious(w) =>
      if w >= |s.workers| || !s.workers[w].Waiting? then Disabled else Next(Move(s, w, Woken))
    case Decide(w) =>
      if w >= |s.workers| || !s.workers[w].Deciding? then Disabled
      else if !s.running && s.queue == [] then Next(Move(s, w, Exited).(holder := None))
      else if s.queue == [] then Undefined
      else
        var t := s.queue[0];
        Next(Move(s, w, Running(t)).(holder := None, queue := s.queue[1..], started := s.started + [t]))
    case Finish(w) =>
      if w >= |s.workers| || !s.workers[w].Running? then Disabled
      else Next(Move(s, w, Ready).(finished := s.finished + [s.workers[w].task]))
  }

  function After(s: State, run: seq<Event>): Outcome
    decreases |run|
  {
    if run == [] then Next(s)
    else
      var o := Step(s, run[0]);
      if o.Next? then After(o.state, run[1..]) else o
  }

  function OneInFlight(w: Worker): multiset<Task> { if w.Running? then multiset{w.task} else multiset{} }

  /** The tasks being run. */
  function InFlight(ws: seq<Worker>): multiset<Task> {
    if ws == [] then multiset{} else OneInFlight(ws[0]) + InFlight(ws[1..])
  }

  ghost predicate Inv(s: State) {
    && |s.workers| > 0 && (s.holder.Some? ==> s.holder.value < |s.workers|)
    && (forall w :: 0 <= w < |s.workers| ==> (Holds(s.workers[w]) <==> s.holder == Some(w)))
    && s.accepted == s.started + s.queue
    && multiset(s.started) == multiset(s.finished) + InFlight(s.workers)
    && (forall w :: 0 <= w < |s.workers| && s.workers[w].Deciding? ==> s.queue != [] || !s.running)
    && (forall w :: 0 <= w < |s.workers| && s.workers[w].Exited? ==> !s.running)
    && (if AllExited(s) then s.queue == s.late else s.late == [])
  }

  lemma {:induction false} InFlightMoves(ws: seq<Worker>, w: nat, to: Worker)
    requires w < |ws|
    ensures InFlight(ws[w := to]) + OneInFlight(ws[w]) == InFlight(ws) + OneInFlight(to)
  {
    var v := ws[w := to];
    hide OneInFlight;
    if w == 0 {
      assert v[1..] == ws[1..];
      Regroup(multiset{}, InFlight(ws[1..]), OneInFlight(to), OneInFlight(ws[0]));
    } else {
      assert v[1..] == ws[1..][w - 1 := to] && ws[1..][w - 1] == ws[w];
      InFlightMoves(ws[1..], w - 1, to);
      Regroup(OneInFlight(ws[0]), InFlight(v[1..]), OneInFlight(ws[w]), multiset{});
      Regroup(OneInFlight(ws[0]), InFlight(ws[1..]), OneInFlight(to), multiset{});
    }
  }

  lemma Regroup(x: multiset<Task>, m: multiset<Task>, p: multiset<Task>, q: multiset<Task>)
    ensures (x + m) + p == x + (m + p)
    ensures p + m + q == q + m + p
  {
  }

  lemma InFlightMove(ws: seq<Worker>, w: nat, to: Worker)
    requires w < |ws|
    ensures !ws[w].Running? && !to.Running? ==> InFlight(ws[w := to]) == InFlight(ws)
    ensures !ws[w].Running? && to.Running? ==> InFlight(ws[w := to]) == InFlight(ws) + multiset{to.task}
    ensures ws[w].Running? && !to.Running? ==> InFlight(ws[w := to]) + multiset{ws[w].task} == InFlight(ws)
  {
    InFlightMoves(ws, w, to);
    assert InFlight(ws) + multiset{} == InFlight(ws);
    assert InFlight(ws[w := to]) + multiset{} == InFlight(ws[w := to]);
  }

  lemma {:induction false} InFlightWakes(ws: seq<Worker>)
    ensures InFlight(Wake(ws)) == InFlight(ws)
  {
    if ws != [] {
      InFlightWakes(ws[1..]);
    }
  }

  lemma {:induction false} InFlightNone(ws: seq<Worker>)
    requires forall w :: 0 <= w < |ws| ==> !ws[w].Running?
    ensures InFlight(ws) == multiset{}
  {
    if ws != [] {
      InFlightNone(ws[1..]);
    }
  }

  lemma PushKeeps(s: State, e: Event)
    requires Inv(s) && e.AddPush?
    ensures Step(s, e).Next? ==> Inv(Step(s, e).state)
  {
    hide InFlight;
    if Step(s, e).Next? {
      var t := Step(s, e).state;
      assert t.workers == s.workers;
      assert t.accepted == t.started + t.queue;
    }
  }

  lemma NotifyAllKeeps(s: State, e: Event)
    requires Inv(s) && e.NotifyAll?
    ensures Step(s, e).Next? ==> Inv(Step(s, e).state)
  {
    hide InFlight;
    InFlightWakes(s.workers);
  }

  lemma CallerKeeps(s: State, e: Event)
    requires Inv(s) && (e.AddCheck? || e.AddPush? || e.NotifyNobody? || e.Shutdown? || e.NotifyAll?)
    ensures Step(s, e) != Undefined
    ensures Step(s, e).Next? ==> Inv(Step(s, e).state)
  {
    hide InFlight;
    if e.AddPush? {
      PushKeeps(s, e);
    } else if e.NotifyAll? {
      NotifyAllKeeps(s, e);
    }
  }

  /** The worker's state, the mutex and the notifications after a step of the waiting protocol. */
  function Turn(s: State, w: nat, to: Worker, notifies: nat): State
    requires w < |s.workers|
  {
    Move(s, w, to).(notifies := notifies,
                    holder := if Holds(to) then Some(w) else if Holds(s.workers[w]) then None else s.holder)
  }

  lemma WaiterKeeps(s: State, w: nat, to: Worker, notifies: nat)
    requires Inv(s) && w < |s.workers|
    requires !s.workers[w].Running? && s.workers[w] != Exited && !to.Running? && to != Exited
    requires to.Deciding? ==> s.queue != [] || !s.running
    requires Holds(to) && !Holds(s.workers[w]) ==> s.holder.None?
    ensures Inv(Turn(s, w, to, notifies))
  {
    hide InFlight;
    InFlightMove(s.workers, w, to);
    assert !AllExited(s);
    assert Turn(s, w, to, notifies).workers[w] == to;
  }

  lemma ExitKeeps(s: State, w: nat)
    requires Inv(s) && w < |s.workers| && s.workers[w].Deciding? && s.queue == []
    ensures !s.running && Inv(Move(s, w, Exited).(holder := None))
  {
    hide InFlight;
    InFlightMove(s.workers, w, Exited);
    assert s.workers[w] == Deciding;
    assert Move(s, w, Exited).workers[w] == Exited;
  }

  lemma TakeKeeps(s: State, w: nat)
    requires Inv(s) && w < |s.workers| && s.workers[w].Deciding? && s.queue != []
    ensures var t := s.queue[0];
            Inv(Move(s, w, Running(t)).(holder := None, queue := s.queue[1..], started := s.started + [t]))
  {
    hide InFlight;
    var t := s.queue[0];
    InFlightMove(s.workers, w, Running(t));
    assert !AllExited(s) by {
      assert s.workers[w] == Deciding;
    }
    var after := Move(s, w, Running(t)).(holder := None, queue := s.queue[1..], started := s.started + [t]);
    assert after.workers[w] == Running(t) && !AllExited(after);
    assert s.queue == [t] + s.queue[1..];
    assert s.accepted == after.started + after.queue;
    assert multiset(after.started) == multiset(after.finished) + InFlight(after.workers) by {
      assert multiset(s.started + [t]) == multiset(s.started) + multiset{t};
    }
  }

  lemma DecideKeeps(s: State, w: nat)
    requires Inv(s)
    ensures Step(s, Decide(w)) != Undefined
    ensures Step(s, Decide(w)).Next? ==> Inv(Step(s, Decide(w)).state)
  {
    if w < |s.workers| && s.workers[w].Deciding? {
      if s.queue == [] {
        ExitKeeps(s, w);
      } else {
        TakeKeeps(s, w);
      }
      hide Inv;
    }
  }

  lemma FinishKeeps(s: State, w: nat)
    requires Inv(s)
    ensures Step(s, Finish(w)).Next? ==> Inv(Step(s, Finish(w)).state)
  {
    hide InFlight;
    if Step(s, Finish(w)).Next? {
      InFlightMove(s.workers, w, Ready);
      var t := s.workers[w].task;
      assert multiset(s.finished + [t]) == multiset(s.finished) + multiset{t};
      assert Step(s, Finish(w)).state.workers[w] == Ready;
    }
  }

  /** The steps of the waiting protocol are turns. */
  lemma StepTurns(s: State, e: Event)
    requires Inv(s) && Step(s, e).Next?
    requires e.NotifyOne? || e.Lock? || e.LoopTest? || e.Sleep? || e.Spurious?
    ensures Inv(Step(s, e).state)
  {
    hide InFlight;
    var to := match e
      case Lock(_) => Locked
      case LoopTest(_) => if s.running && s.queue == [] then Sleepy else Deciding
      case Sleep(_) => Waiting
      case _ => Woken;
    var notifies := if e.NotifyOne? then s.notifies - 1 else s.notifies;
    assert Step(s, e).state == Turn(s, e.w, to, notifies);
    WaiterKeeps(s, e.w, to, notifies);
  }

  lemma StepKeeps(s: State, e: Event)
    requires Inv(s)
    ensures Step(s, e) != Undefined
    ensures Step(s, e).Next? ==> Inv(Step(s, e).state)
  {
    if e.Decide? {
      DecideKeeps(s, e.w);
    } else if e.Finish? {
      FinishKeeps(s, e.w);
    } else if e.AddCheck? || e.AddPush? || e.NotifyNobody? || e.Shutdown? || e.NotifyAll? {
      CallerKeeps(s, e);
    } else {
      hide Inv;
      if Step(s, e).Next? {
        StepTurns(s, e);
      }
    }
  }

  lemma InitHolds(n: nat)
    requires n > 0
    ensures Inv(Init(n))
  {
    InFlightNone(Init(n).workers);
    assert Init(n).workers[0] == Ready;
  }

  lemma {:induction false} RunKeeps(s: State, run: seq<Event>)
    requires Inv(s)
    ensures After(s, run) != Undefined
    ensures After(s, run).Next? ==> Inv(After(s, run).state)
    decreases |run|
  {
    hide Step;
    hide Inv;
    if run != [] {
      StepKeeps(s, run[0]);
      if Step(s, run[0]).Next? {
        RunKeeps(Step(s, run[0]).state, run[1..]);
      }
    }
  }

  /**
   In every run of a pool with a worker: `front` is never called on an empty queue,
   tasks are started in the order in which they were accepted, and every accepted
   task is queued, being run or finished, once.
   */
  lemma RunsConserve(n: nat, run: seq<Event>)
    requires n > 0
    ensures After(Init(n), run) != Undefined
    ensures After(Init(n), run).Next? ==>
              var s := After(Init(n), run).state;
              && s.accepted == s.started + s.queue
              && multiset(s.accepted) == multiset(s.queue) + InFlight(s.workers) + multiset(s.finished)
  {
    hide Step;
    InitHolds(n);
    RunKeeps(Init(n), run);
  }

  /** The tasks of the calls of `add` that a run makes before its shutdown. */
  function Called(run: seq<Event>): multiset<Task> {
    if run == [] || run[0].Shutdown? then multiset{}
    else (if run[0].AddCheck? then multiset{run[0].task} else multiset{}) + Called(run[1..])
  }

  /** Of what these calls brought, a step moves a task at most from those that are adding to those accepted. */
  lemma StepBrings(s: State, e: Event)
    requires Step(s, e).Next?
    ensures var t := Step(s, e).state;
            && multiset(t.accepted) + multiset(t.adding)
            == multiset(s.accepted) + multiset(s.adding)
               + (if e.AddCheck? && s.running then multiset{e.task} else multiset{})
            && (t.running <==> s.running && !e.Shutdown?)
  {
    if e.AddPush? {
      Push(s.accepted, s.adding, e.i);
    }
  }

  lemma Push(accepted: seq<Task>, adding: seq<Task>, i: nat)
    requires i < |adding|
    ensures multiset(accepted + [adding[i]]) + multiset(adding[..i] + adding[i + 1..])
         == multiset(accepted) + multiset(adding)
  {
    assert adding == adding[..i] + [adding[i]] + adding[i + 1..];
  }

  lemma {:induction false} RunBrings(s: State, run: seq<Event>)
    requires After(s, run).Next?
    ensures var t := After(s, run).state;
            && multiset(t.accepted) + multiset(t.adding)
            == multiset(s.accepted) + multiset(s.adding) + if s.running then Called(run) else multiset{}
    decreases |run|
  {
    if run != [] {
      StepBrings(s, run[0]);
      hide Step;
      RunBrings(Step(s, run[0]).state, run[1..]);
    }
  }

  /**
   Over every run: what has been accepted, with the tasks of the calls still under way, is
   what the calls of `add` before the shutdown brought, each task once for each call. So
   each of these tasks is being added, queued, being run or finished, and no other is.
   */
  lemma EveryCallCounts(n: nat, run: seq<Event>)
    requires n > 0 && After(Init(n), run).Next?
    ensures var s := After(Init(n), run).state;
            && multiset(s.accepted) + multiset(s.adding) == Called(run)
            && multiset(s.adding) + multiset(s.queue) + InFlight(s.workers) + multiset(s.finished) == Called(run)
  {
    RunBrings(Init(n), run);
    hide Step;
    RunsConserve(n, run);
  }

  /**
   When every worker has gone, what has been run is what was accepted, exactly when
   nothing was accepted after the last one went.
   */
  lemma ExitedMeansRan(n: nat, run: seq<Event>)
    requires n > 0 && After(Init(n), run).Next? && AllExited(After(Init(n), run).state)
    ensures var s := After(Init(n), run).state;
            && !s.running
            && multiset(s.accepted) == multiset(s.finished) + multiset(s.late)
            && multiset(s.finished) + multiset(s.late) + multiset(s.adding) == Called(run)
            && (multiset(s.finished) == multiset(s.accepted) <==> s.late == [])
  {
    hide Step;
    InitHolds(n);
    RunKeeps(Init(n), run);
    var s := After(Init(n), run).state;
    assert s.workers[0] == Exited;
    InFlightNone(s.workers);
    RunBrings(Init(n), run);
    assert |multiset(s.accepted)| == |multiset(s.finished)| + |multiset(s.late)|;
  }

  lemma NothingLateStep(s: State, e: Event)
    requires Inv(s) && AllExited(s) && s.adding == [] && Step(s, e).Next?
    ensures var t := Step(s, e).state;
            && t.accepted == s.accepted && t.finished == s.finished && t.late == s.late
            && AllExited(t) && t.adding == []
  {
    hide InFlight;
    assert s.workers[0] == Exited;
  }

  /** Once every worker has gone and no call of `add` is under way, nothing is accepted any more. */
  lemma {:induction false} NothingLate(s: State, run: seq<Event>)
    requires Inv(s) && AllExited(s) && s.adding == [] && After(s, run).Next?
    ensures var t := After(s, run).state;
            t.accepted == s.accepted && t.finished == s.finished && t.late == s.late && AllExited(t)
    decreases |run|
  {
    if run != [] {
      NothingLateStep(s, run[0]);
      StepKeeps(s, run[0]);
      hide Step;
      hide Inv;
      NothingLate(Step(s, run[0]).state, run[1..]);
    }
  }

  /** So then every task that was or will be accepted has been run. */
  lemma EveryTaskRan(n: nat, run: seq<Event>, more: seq<Event>)
    requires n > 0 && After(Init(n), run).Next?
    requires var s := After(Init(n), run).state;
             AllExited(s) && s.adding == [] && s.late == [] && After(s, more).Next?
    ensures var t := After(After(Init(n), run).state, more).state;
            multiset(t.finished) == multiset(t.accepted) == Called(run)
  {
    hide Step;
    InitHolds(n);
    RunKeeps(Init(n), run);
    ExitedMeansRan(n, run);
    NothingLate(After(Init(n), run).state, more);
  }

  /** A call of `add` that passed its check before the shutdown can put in a task that no worker ever runs. */
  lemma LateTaskIsLost(t: Task, more: seq<Event>)
    ensures var o := After(Init(1), LateRun(t));
            && o.Next? && o.state.accepted == [t]
            && (After(o.state, more).Next? ==> After(o.state, more).state.finished == [])
  {
    InitHolds(1);
    RunKeeps(Init(1), LateRun(t));
    LateRunEnds(t);
    hide Step;
    hide Inv;
    var s := After(Init(1), LateRun(t)).state;
    if After(s, more).Next? {
      NothingLate(s, more);
    }
  }

  /** The first step of a run. */
  lemma AfterFirst(s: State, e: Event, run: seq<Event>)
    requires Step(s, e).Next?
    ensures After(s, [e] + run) == After(Step(s, e).state, run)
  {
    hide Step;
    assert ([e] + run)[1..] == run;
  }

  lemma LateRunEnds(t: Task)
    ensures var o := After(Init(1), LateRun(t));
            && o.Next? && AllExited(o.state) && o.state.adding == []
            && o.state.accepted == [t] && o.state.finished == []
  {
    hide After;
    var s1 := Step(Init(1), AddCheck(t)).state;
    var s2 := Step(s1, Shutdown).state;
    var s3 := Step(s2, Lock(0)).state;
    var s4 := Step(s3, LoopTest(0)).state;
    var s5 := Step(s4, Decide(0)).state;
    var s6 := Step(s5, AddPush(0)).state;
    assert s6.accepted == [t] && s6.finished == [] && s6.adding == [] && AllExited(s6);
    AfterFirst(s5, AddPush(0), []);
    AfterFirst(s4, Decide(0), [AddPush(0)]);
    AfterFirst(s3, LoopTest(0), [Decide(0), AddPush(0)]);
    AfterFirst(s2, Lock(0), [LoopTest(0), Decide(0), AddPush(0)]);
    AfterFirst(s1, Shutdown, [Lock(0), LoopTest(0), Decide(0), AddPush(0)]);
    AfterFirst(Init(1), AddCheck(t), [Shutdown, Lock(0), LoopTest(0), Decide(0), AddPush(0)]);
    AfterNothing(s6);
    RunsSplit(t);
  }

  lemma AfterNothing(s: State)
    ensures After(s, []) == Next(s)
  {
  }

  lemma RunsSplit(t: Task)
    ensures [AddPush(0)] == [AddPush(0)] + []
    ensures [Decide(0), AddPush(0)] == [Decide(0)] + [AddPush(0)]
    ensures [LoopTest(0), Decide(0), AddPush(0)] == [LoopTest(0)] + [Decide(0), AddPush(0)]
    ensures [Lock(0), LoopTest(0), Decide(0), AddPush(0)] == [Lock(0)] + [LoopTest(0), Decide(0), AddPush(0)]
    ensures [Shutdown, Lock(0), LoopTest(0), Decide(0), AddPush(0)]
         == [Shutdown] + [Lock(0), LoopTest(0), Decide(0), AddPush(0)]
    ensures LateRun(t) == [AddCheck(t)] + [Shutdown, Lock(0), LoopTest(0), Decide(0), AddPush(0)]
    ensures [Sleep(0)] == [Sleep(0)] + []
    ensures [NotifyAll, Sleep(0)] == [NotifyAll] + [Sleep(0)]
    ensures [Shutdown, NotifyAll, Sleep(0)] == [Shutdown] + [NotifyAll, Sleep(0)]
    ensures [LoopTest(0), Shutdown, NotifyAll, Sleep(0)] == [LoopTest(0)] + [Shutdown, NotifyAll, Sleep(0)]
    ensures HangRun() == [Lock(0)] + [LoopTest(0), Shutdown, NotifyAll, Sleep(0)]
  {
  }

  function LateRun(t: Task): seq<Event> { [AddCheck(t), Shutdown, Lock(0), LoopTest(0), Decide(0), AddPush(0)] }

  // ---- when a shutdown reaches every worker ----

  /** A worker that has neither gone to wait nor decided to. */
  predicate Awake(w: Worker) { !w.Waiting? && !w.Sleepy? }

  lemma StepStaysAwake(s: State, e: Event, w: nat)
    requires !s.running && w < |s.workers| && Awake(s.workers[w]) && Step(s, e).Next?
    ensures var t := Step(s, e).state; !t.running && w < |t.workers| && Awake(t.workers[w])
  {
  }

  /** After the shutdown has cleared its flag, no worker decides to wait any more. */
  lemma {:induction false} StaysAwake(s: State, run: seq<Event>, w: nat)
    requires !s.running && w < |s.workers| && Awake(s.workers[w]) && After(s, run).Next?
    ensures var t := After(s, run).state; w < |t.workers| && Awake(t.workers[w])
    decreases |run|
  {
    hide Awake;
    hide Step;
    if run != [] {
      StepStaysAwake(s, run[0], w);
      StaysAwake(Step(s, run[0]).state, run[1..], w);
    }
  }

  /** Some continuation of `s` leaves worker `w` waiting. */
  ghost predicate CanWait(s: State, w: nat) {
    exists run :: After(s, run).Next? && w < |After(s, run).state.workers| && After(s, run).state.workers[w].Waiting?
  }

  /**
   In a pool of any size, the notification of a shutdown misses a worker exactly when
   the worker is between its test and its wait: `shutdownAll` does not take the mutex.
   Any other worker never waits again.
   */
  lemma ShutdownMissesExactly(s: State, w: nat)
    requires !s.running && s.closing && w < |s.workers|
    ensures CanWait(Step(s, NotifyAll).state, w) <==> s.workers[w].Sleepy?
  {
    var t := Step(s, NotifyAll).state;
    if s.workers[w].Sleepy? {
      AfterFirst(t, Sleep(w), []);
      AfterNothing(Step(t, Sleep(w)).state);
      hide After;
      assert [Sleep(w)] + [] == [Sleep(w)];
      assert After(t, [Sleep(w)]).Next?;
    } else {
      hide Step;
      assert Awake(t.workers[w]);
      forall run | After(t, run).Next?
        ensures var u := After(t, run).state; w < |u.workers| && !u.workers[w].Waiting?
      {
        StaysAwake(t, run, w);
      }
    }
  }

  /** What can wake worker `w`. */
  predicate Wakes(e: Event, w: nat) { e == Spurious(w) || e == NotifyOne(w) || e == NotifyAll }

  /** Each of them does, the last two when such a notification is due. */
  lemma EachWakes(s: State, e: Event, w: nat)
    requires w < |s.workers| && s.workers[w].Waiting? && Wakes(e, w)
    ensures Step(s, e).Next? <==> e.Spurious? || (e.NotifyOne? && s.notifies > 0) || (e.NotifyAll? && s.closing)
    ensures Step(s, e).Next? ==>
              var t := Step(s, e).state; w < |t.workers| && t.workers[w].Woken?
  {
  }

  /** A waiting worker stays where it is until one of these. */
  lemma {:induction false} WaitsOn(s: State, run: seq<Event>, w: nat)
    requires w < |s.workers| && s.workers[w].Waiting? && After(s, run).Next?
    requires forall i :: 0 <= i < |run| ==> !Wakes(run[i], w)
    ensures var t := After(s, run).state; w < |t.workers| && t.workers[w].Waiting?
    decreases |run|
  {
    if run != [] {
      var t := Step(s, run[0]).state;
      assert !Wakes(run[0], w);
      assert w < |t.workers| && t.workers[w].Waiting?;
      hide Step;
      WaitsOn(t, run[1..], w);
    }
  }

  /**
   With the shutdown's notification spent and no call of `add` left to notify, only a
   spurious wakeup can end the wait, and with it the join.
   */
  lemma {:induction false} MissedStaysMissed(s: State, run: seq<Event>, w: nat)
    requires !s.running && !s.closing && s.adding == [] && s.notifies == 0
    requires w < |s.workers| && s.workers[w].Waiting? && After(s, run).Next? && Spurious(w) !in run
    ensures var t := After(s, run).state; w < |t.workers| && t.workers[w].Waiting?
    decreases |run|
  {
    if run != [] {
      var t := Step(s, run[0]).state;
      assert run[0] != Spurious(w);
      assert w < |t.workers| && t.workers[w].Waiting?;
      assert !t.running && !t.closing && t.adding == [] && t.notifies == 0;
      hide Step;
      MissedStaysMissed(t, run[1..], w);
    }
  }

  // ---- and whether it ends ----

  /** No step is left but calls of `add` that return at once and spurious wakeups. */
  ghost predicate Rests(s: State) { forall e: Event :: Step(s, e).Next? ==> e.AddCheck? || e.Spurious? }

  /** Some continuation of `s` comes to rest with a worker left, so that the join never returns. */
  ghost predicate CanHang(s: State) {
    exists run :: After(s, run).Next? && Rests(After(s, run).state) && !AllExited(After(s, run).state)
  }

  /** How many steps a worker still has before it, not counting the tasks in the queue. */
  function Rank(w: Worker, running: bool): nat {
    match w
    case Exited => 0
    case Deciding => 1
    case Locked => 2
    case Ready => 3
    case Woken => 3
    case Running(_) => 4
    case Waiting => if running then 0 else 4
    case Sleepy => if running then 1 else 5
  }

  function RankSum(ws: seq<Worker>, running: bool): nat {
    if ws == [] then 0 else Rank(ws[0], running) + RankSum(ws[1..], running)
  }

  /** A queued task costs a worker four steps, and so does a notification; a call of `add` makes one of each. */
  function Owed(s: State): nat {
    4 * |s.queue| + 9 * |s.adding| + 4 * s.notifies + if s.closing then 1 else 0
  }

  /** A bound on the steps that are left. */
  function StepsLeft(s: State): nat { RankSum(s.workers, s.running) + Owed(s) }

  lemma {:induction false} RankMoves(ws: seq<Worker>, w: nat, to: Worker, running: bool)
    requires w < |ws|
    ensures RankSum(ws[w := to], running) == RankSum(ws, running) - Rank(ws[w], running) + Rank(to, running)
  {
    var v := ws[w := to];
    if w == 0 {
      assert v[1..] == ws[1..];
    } else {
      assert v[1..] == ws[1..][w - 1 := to] && ws[1..][w - 1] == ws[w];
      RankMoves(ws[1..], w - 1, to, running);
    }
  }

  lemma {:induction false} WakeLowers(ws: seq<Worker>)
    ensures RankSum(Wake(ws), false) <= RankSum(ws, false)
  {
    if ws != [] {
      WakeLowers(ws[1..]);
      assert Wake(ws)[1..] == Wake(ws[1..]);
    }
  }

  /** The worker a step moves, and where to. */
  function Moved(s: State, e: Event): (nat, Worker)
    requires |s.workers| > 0
  {
    match e
    case Lock(w) => (w, Locked)
    case LoopTest(w) => (w, if s.running && s.queue == [] then Sleepy else Deciding)
    case Sleep(w) => (w, Waiting)
    case NotifyOne(w) => (w, Woken)
    case Spurious(w) => (w, Woken)
    case Decide(w) => (w, if s.queue == [] then Exited else Running(s.queue[0]))
    case Finish(w) => (w, Ready)
    case _ => (0, s.workers[0])
  }

  /** Calls of `add` come from outside, and in a running pool the shutdown and wakeups that nothing caused. */
  predicate Outside(e: Event, running: bool) { e.AddCheck? || (running && (e.Shutdown? || e.Spurious?)) }

  lemma StepMoves(s: State, e: Event)
    requires |s.workers| > 0 && !Outside(e, s.running) && !e.NotifyAll? && Step(s, e).Next?
    requires s.running ==> forall w :: 0 <= w < |s.workers| && s.workers[w].Deciding? ==> s.queue != []
    ensures var (w, to) := Moved(s, e); var t := Step(s, e).state;
            && w < |s.workers| && t.workers == s.workers[w := to] && t.running == s.running
            && Rank(to, s.running) + Owed(t) < Rank(s.workers[w], s.running) + Owed(s)
  {
  }

  /**
   While the pool runs, and again once the flag is cleared, every step lowers the bound but
   those from outside. In a running pool no shutdown waits to notify.
   */
  lemma StepLowers(s: State, e: Event)
    requires Inv(s) && !Outside(e, s.running) && Step(s, e).Next? && !(s.running && s.closing)
    ensures var t := Step(s, e).state;
            && Inv(t) && t.running == s.running && !(t.running && t.closing) && StepsLeft(t) < StepsLeft(s)
  {
    StepKeeps(s, e);
    assert |s.workers| > 0;
    assert s.running ==> forall w :: 0 <= w < |s.workers| && s.workers[w].Deciding? ==> s.queue != [];
    hide Inv;
    if e.NotifyAll? {
      WakeLowers(s.workers);
    } else {
      StepMoves(s, e);
      var (w, to) := Moved(s, e);
      RankMoves(s.workers, w, to, s.running);
      if s.running {
        StillClosed(s, e);
      }
      hide Step;
      hide Owed;
    }
  }

  lemma StillClosed(s: State, e: Event)
    requires Step(s, e).Next? && !e.Shutdown?
    ensures Step(s, e).state.closing ==> s.closing
  {
  }

  /** So a pool can only take so many steps, whatever their order. */
  lemma {:induction false} RunsAreShort(s: State, run: seq<Event>)
    requires Inv(s) && !(s.running && s.closing) && After(s, run).Next?
    requires forall e :: e in run ==> !Outside(e, s.running)
    ensures var t := After(s, run).state;
            Inv(t) && t.running == s.running && |run| + StepsLeft(t) <= StepsLeft(s)
    decreases |run|
  {
    if run != [] {
      assert run[0] in run;
      StepLowers(s, run[0]);
      hide Step;
      hide Inv;
      hide StepsLeft;
      RunsAreShort(Step(s, run[0]).state, run[1..]);
    }
  }

  /** And so it can always be brought to rest, without spurious wakeups. */
  lemma {:induction false} ComesToRest(s: State) returns (run: seq<Event>)
    requires Inv(s) && !s.running
    ensures After(s, run).Next? && Rests(After(s, run).state) && forall e :: e in run ==> !e.Spurious?
    decreases StepsLeft(s)
  {
    hide Step;
    hide Inv;
    run := [];
    if !Rests(s) {
      var e: Event :| Step(s, e).Next? && !e.AddCheck? && !e.Spurious?;
      StepLowers(s, e);
      var rest := ComesToRest(Step(s, e).state);
      run := [e] + rest;
      AfterFirst(s, e, rest);
    }
  }

  lemma {:induction false} AfterBoth(s: State, run: seq<Event>, more: seq<Event>)
    requires After(s, run).Next?
    ensures After(s, run + more) == After(After(s, run).state, more)
    decreases |run|
  {
    hide Step;
    if run == [] {
      assert run + more == more;
    } else {
      var t := Step(s, run[0]).state;
      AfterBoth(t, run[1..], more);
      FirstOfBoth(run, more);
      AfterFirst(s, run[0], run[1..] + more);
    }
  }

  lemma FirstOfBoth(run: seq<Event>, more: seq<Event>)
    requires run != []
    ensures [run[0]] + (run[1..] + more) == run + more
  {
    assert run == [run[0]] + run[1..];
  }

  /** While nobody waits, the notifications of `add` can all go to nobody. */
  lemma {:induction false} Unheard(s: State) returns (run: seq<Event>)
    requires forall w :: 0 <= w < |s.workers| ==> !s.workers[w].Waiting?
    ensures After(s, run) == Next(s.(notifies := 0))
    decreases s.notifies
  {
    run := [];
    if s.notifies > 0 {
      var t := s.(notifies := s.notifies - 1);
      assert Step(s, NotifyNobody) == Next(t);
      var rest := Unheard(t);
      run := [NotifyNobody] + rest;
      AfterFirst(s, NotifyNobody, rest);
      assert t.(notifies := 0) == s.(notifies := 0);
    }
  }

  /** With no call of `add` under way, a worker about to wait can be left waiting for good. */
  lemma SleepyHangs(t: State, w: nat)
    requires Inv(t) && !t.running && !t.closing && t.adding == []
    requires w < |t.workers| && t.workers[w].Sleepy? && forall v :: 0 <= v < |t.workers| ==> !t.workers[v].Waiting?
    ensures CanHang(t)
  {
    var quiet := t.(notifies := 0);
    var spend := Unheard(t);
    RunKeeps(t, spend);
    StepKeeps(quiet, Sleep(w));
    var waits := Step(quiet, Sleep(w)).state;
    assert waits.workers[w].Waiting? && waits.adding == [] && waits.notifies == 0 && !waits.closing && !waits.running;
    assert Step(quiet, Sleep(w)).Next?;
    hide Step;
    hide Inv;
    hide Rests;
    var rest := ComesToRest(waits);
    MissedStaysMissed(waits, rest, w);
    AfterFirst(quiet, Sleep(w), rest);
    AfterBoth(t, spend, [Sleep(w)] + rest);
    hide After;
    var end := After(waits, rest).state;
    assert end.workers[w] != Exited;
    assert After(t, spend + ([Sleep(w)] + rest)) == Next(end);
  }

  /**
   The shutdown has begun and everybody but perhaps `w` is awake: a call of `add` will
   notify it if it goes to wait, and if it waits already such a call or a notification is left.
   */
  ghost predicate Draining(s: State, w: nat) {
    && Inv(s) && !s.running && w < |s.workers|
    && (forall v :: 0 <= v < |s.workers| && v != w ==> Awake(s.workers[v]))
    && (s.workers[w].Sleepy? ==> s.adding != [])
    && (s.workers[w].Waiting? ==> s.adding != [] || s.notifies > 0)
  }

  /** While `w` is about to wait it holds the mutex, so the pushes come behind its wait. */
  lemma DrainStep(s: State, e: Event, w: nat)
    requires Draining(s, w) && Step(s, e).Next?
    ensures Draining(Step(s, e).state, w)
  {
    hide Step;
    hide Awake;
    StepKeeps(s, e);
    WatchedStep(s, e, w);
    hide Inv;
    var t := Step(s, e).state;
    forall v | 0 <= v < |t.workers| && v != w
      ensures Awake(t.workers[v])
    {
      StepStaysAwake(s, e, v);
    }
  }

  lemma WatchedStep(s: State, e: Event, w: nat)
    requires Draining(s, w) && Step(s, e).Next?
    ensures var t := Step(s, e).state;
            && !t.running && |t.workers| == |s.workers|
            && (t.workers[w].Sleepy? ==> t.adding != [])
            && (t.workers[w].Waiting? ==> t.adding != [] || t.notifies > 0)
  {
    assert s.workers[w].Sleepy? ==> s.holder == Some(w);
    hide InFlight;
    hide AllExited;
  }

  /** As long as a worker is left, some step can be taken. */
  lemma DrainGoesOn(s: State, w: nat) returns (e: Event)
    requires Draining(s, w) && !AllExited(s)
    ensures Step(s, e).Next? && !e.AddCheck? && !e.Spurious?
  {
    hide InFlight;
    if s.holder.Some? {
      var h := s.holder.value;
      assert Holds(s.workers[h]);
      e := if s.workers[h].Locked? then LoopTest(h) else if s.workers[h].Sleepy? then Sleep(h) else Decide(h);
    } else if s.adding != [] {
      e := AddPush(0);
    } else if s.workers[w].Waiting? {
      e := NotifyOne(w);
    } else {
      var v :| 0 <= v < |s.workers| && s.workers[v] != Exited;
      assert Awake(s.workers[v]) && !Holds(s.workers[v]);
      e := if s.workers[v].Running? then Finish(v) else Lock(v);
    }
    StepKeeps(s, e);
  }

  lemma {:induction false} KeepsDraining(s: State, run: seq<Event>, w: nat)
    requires Draining(s, w) && After(s, run).Next?
    ensures Draining(After(s, run).state, w)
    decreases |run|
  {
    if run != [] {
      DrainStep(s, run[0], w);
      hide Step;
      hide Draining;
      KeepsDraining(Step(s, run[0]).state, run[1..], w);
    }
  }

  /** What the notification of a shutdown leaves, unless it can hang. */
  lemma DrainStarts(s: State) returns (w: nat)
    requires Inv(s) && !s.running && s.closing
    requires s.adding != [] || forall w :: 0 <= w < |s.workers| ==> !s.workers[w].Sleepy?
    ensures Draining(Step(s, NotifyAll).state, w)
  {
    hide InFlight;
    StepKeeps(s, NotifyAll);
    w := if s.holder.Some? then s.holder.value else 0;
    var t := Step(s, NotifyAll).state;
    forall v | 0 <= v < |t.workers| && v != w
      ensures Awake(t.workers[v])
    {
      assert !Holds(s.workers[v]);
    }
  }

  /** What it leaves of a worker about to wait. */
  lemma NobodyWaits(s: State, w: nat)
    requires Inv(s) && !s.running && s.closing && w < |s.workers| && s.workers[w].Sleepy?
    ensures var t := Step(s, NotifyAll).state;
            && Inv(t) && !t.running && !t.closing && t.adding == s.adding
            && w < |t.workers| && t.workers[w].Sleepy? && forall v :: 0 <= v < |t.workers| ==> !t.workers[v].Waiting?
  {
    StepKeeps(s, NotifyAll);
    hide Inv;
  }

  /**
   A shutdown can leave a worker waiting for good exactly when its notification finds one
   between test and wait, where the mutex it does not take would have kept it out, and no
   call of `add` is under way: such a call pushes, and notifies, behind the wait.
   */
  lemma ShutdownHangsExactly(s: State)
    requires Inv(s) && !s.running && s.closing
    ensures CanHang(Step(s, NotifyAll).state)
       <==> s.adding == [] && exists w :: 0 <= w < |s.workers| && s.workers[w].Sleepy?
  {
    if s.adding == [] && exists w :: 0 <= w < |s.workers| && s.workers[w].Sleepy? {
      hide Step;
      hide Inv;
      var w :| 0 <= w < |s.workers| && s.workers[w].Sleepy?;
      NobodyWaits(s, w);
      SleepyHangs(Step(s, NotifyAll).state, w);
    } else {
      var w := DrainStarts(s);
      hide Step;
      DrainsOut(Step(s, NotifyAll).state, w);
    }
  }

  lemma DrainsOut(t: State, w: nat)
    requires Draining(t, w)
    ensures !CanHang(t)
  {
    hide Step;
    hide Draining;
    hide Rests;
    hide AllExited;
    forall run | After(t, run).Next?
      ensures !(Rests(After(t, run).state) && !AllExited(After(t, run).state))
    {
      KeepsDraining(t, run, w);
      DrainRests(After(t, run).state, w);
    }
  }

  /** At rest, every worker has gone and nothing is queued that came before the last one went. */
  lemma DrainRests(s: State, w: nat)
    requires Draining(s, w)
    ensures Rests(s) ==> AllExited(s) && s.queue == s.late
  {
    if !AllExited(s) {
      var e := DrainGoesOn(s, w);
      hide Step;
      assert !Rests(s);
    }
  }

  /**
   Every other shutdown ends: each run behind its notification is finite, spurious wakeups
   included, but for calls of `add` that return at once, and where it comes to rest, every
   worker has gone and nothing is in the queue that came before the last one went.
   */
  lemma ShutdownEnds(s: State, run: seq<Event>)
    requires Inv(s) && !s.running && s.closing
    requires s.adding != [] || forall w :: 0 <= w < |s.workers| ==> !s.workers[w].Sleepy?
    requires After(Step(s, NotifyAll).state, run).Next? && forall e :: e in run ==> !e.AddCheck?
    ensures |run| <= StepsLeft(s)
    ensures var t := After(Step(s, NotifyAll).state, run).state; Rests(t) ==> AllExited(t) && t.queue == t.late
  {
    var w := DrainStarts(s);
    StepLowers(s, NotifyAll);
    hide Step;
    hide Inv;
    hide StepsLeft;
    var t := Step(s, NotifyAll).state;
    RunsAreShort(t, run);
    KeepsDraining(t, run, w);
    DrainRests(After(t, run).state, w);
  }

  // ---- and that a running pool runs what it accepts ----

  /**
   While the pool runs, no notification of its shutdown is due, whoever is about to wait has
   found the queue empty, and with a task in the queue somebody is awake or will be notified.
   */
  ghost predicate Alert(s: State) {
    s.running ==>
      && !s.closing
      && (forall w :: 0 <= w < |s.workers| && s.workers[w].Sleepy? ==> s.queue == [])
      && (s.queue != [] ==> s.notifies > 0 || exists w :: 0 <= w < |s.workers| && Awake(s.workers[w]))
  }

  /** The steps that move no worker. */
  lemma CallerStaysAlert(s: State, e: Event)
    requires Inv(s) && Alert(s) && Step(s, e).Next?
    requires e.AddCheck? || e.AddPush? || e.NotifyNobody? || e.Shutdown? || e.NotifyAll?
    ensures Alert(Step(s, e).state)
  {
    hide InFlight;
    hide AllExited;
    var t := Step(s, e).state;
    if e.NotifyNobody? && s.running && s.queue != [] {
      assert !s.workers[0].Waiting? && !s.workers[0].Sleepy?;
      assert Awake(t.workers[0]);
    } else if t.running && t.queue != [] && t.notifies == 0 {
      var w :| 0 <= w < |s.workers| && Awake(s.workers[w]);
      assert Awake(t.workers[w]);
    }
  }

  lemma WorkerStaysAlert(s: State, e: Event)
    requires Inv(s) && Alert(s) && Step(s, e).Next?
    requires !(e.AddCheck? || e.AddPush? || e.NotifyNobody? || e.Shutdown? || e.NotifyAll?)
    ensures Alert(Step(s, e).state)
  {
    hide InFlight;
    hide AllExited;
    var t := Step(s, e).state;
    assert s.running ==> t.workers[e.w] != Exited;
    if Awake(t.workers[e.w]) {
      assert t.running == s.running;
    }
  }

  lemma {:induction false} RunStaysAlert(s: State, run: seq<Event>)
    requires Inv(s) && Alert(s) && After(s, run).Next?
    ensures Inv(After(s, run).state) && Alert(After(s, run).state)
    decreases |run|
  {
    hide Step;
    hide Inv;
    hide Alert;
    if run != [] {
      StepKeeps(s, run[0]);
      if run[0].AddCheck? || run[0].AddPush? || run[0].NotifyNobody? || run[0].Shutdown? || run[0].NotifyAll? {
        CallerStaysAlert(s, run[0]);
      } else {
        WorkerStaysAlert(s, run[0]);
      }
      RunStaysAlert(Step(s, run[0]).state, run[1..]);
    }
  }

  /** No step is left but those from outside. */
  ghost predicate Idle(s: State) { forall e: Event :: Step(s, e).Next? ==> Outside(e, s.running) }

  /** As long as something is to be done in a running pool, some step can be taken. */
  lemma WorkGoesOn(s: State) returns (e: Event)
    requires Inv(s) && Alert(s) && s.running
    requires s.adding != [] || s.queue != [] || exists w :: 0 <= w < |s.workers| && !s.workers[w].Waiting?
    ensures Step(s, e).Next? && !Outside(e, true)
  {
    hide InFlight;
    if s.holder.Some? {
      var h := s.holder.value;
      assert Holds(s.workers[h]);
      e := if s.workers[h].Locked? then LoopTest(h) else if s.workers[h].Sleepy? then Sleep(h) else Decide(h);
    } else if s.adding != [] {
      e := AddPush(0);
    } else if v :| 0 <= v < |s.workers| && !s.workers[v].Waiting? {
      assert s.workers[v] != Exited && !Holds(s.workers[v]);
      e := if s.workers[v].Running? then Finish(v) else Lock(v);
    } else {
      assert s.workers[0].Waiting?;
      e := NotifyOne(0);
    }
    StepKeeps(s, e);
  }

  /**
   No wakeup is lost: as long as the pool runs, each stretch of a run without new calls of
   `add` is finite, and where it comes to rest every worker waits, the queue is empty, and
   every task of every call has been run.
   */
  lemma EveryCallIsServed(n: nat, run: seq<Event>, more: seq<Event>)
    requires n > 0 && After(Init(n), run).Next? && After(Init(n), run).state.running
    requires After(After(Init(n), run).state, more).Next? && forall e :: e in more ==> !Outside(e, true)
    ensures |more| <= StepsLeft(After(Init(n), run).state)
    ensures var t := After(After(Init(n), run).state, more).state;
            && t.running && multiset(t.accepted) + multiset(t.adding) == Called(run)
            && (Idle(t) ==>
                  && t.queue == [] && t.adding == [] && multiset(t.finished) == Called(run)
                  && forall w :: 0 <= w < |t.workers| ==> t.workers[w].Waiting?)
  {
    hide Step;
    hide StepsLeft;
    hide Inv;
    hide Alert;
    InitHolds(n);
    assert Alert(Init(n)) by {
      InitIsAlert(n);
    }
    RunStaysAlert(Init(n), run);
    var s := After(Init(n), run).state;
    NothingCloses(s);
    RunsAreShort(s, more);
    RunStaysAlert(s, more);
    RunBrings(Init(n), run);
    RunBrings(s, more);
    NothingCalled(more);
    var t := After(s, more).state;
    if Idle(t) {
      AtRest(t);
    }
  }

  lemma InitIsAlert(n: nat)
    ensures Alert(Init(n))
  {
  }

  lemma NothingCloses(s: State)
    requires Alert(s)
    ensures !(s.running && s.closing)
  {
  }

  lemma {:induction false} NothingCalled(run: seq<Event>)
    requires forall e :: e in run ==> !e.AddCheck?
    ensures Called(run) == multiset{}
  {
    if run != [] {
      assert run[0] in run;
      NothingCalled(run[1..]);
    }
  }

  lemma AtRest(s: State)
    requires Inv(s) && Alert(s) && s.running && Idle(s)
    ensures s.queue == [] && s.adding == [] && forall w :: 0 <= w < |s.workers| ==> s.workers[w].Waiting?
    ensures multiset(s.finished) == multiset(s.accepted)
  {
    if s.adding != [] || s.queue != [] || exists w :: 0 <= w < |s.workers| && !s.workers[w].Waiting? {
      var e := WorkGoesOn(s);
      hide Step;
      assert false;
    }
    InFlightNone(s.workers);
  }

  function HangRun(): seq<Event> { [Lock(0), LoopTest(0), Shutdown, NotifyAll, Sleep(0)] }

  /**
   `shutdownAll` does not take the mutex, so its notification can fall between a worker's
   test and its wait. Then only a spurious wakeup gets the worker, and the join, going.
   */
  lemma ShutdownCanHang()
    ensures After(Init(1), HangRun()).Next?
    ensures var s := After(Init(1), HangRun()).state;
            && !s.running && s.workers == [Waiting]
            && forall e: Event :: !e.Spurious? ==> Step(s, e) == Disabled || Step(s, e) == Next(s)
  {
    hide After;
    var s0 := Init(1);
    var s1 := Step(s0, Lock(0)).state;
    var s2 := Step(s1, LoopTest(0)).state;
    var s3 := Step(s2, Shutdown).state;
    var s4 := Step(s3, NotifyAll).state;
    var s5 := Step(s4, Sleep(0)).state;
    assert s5.workers == [Waiting];
    AfterFirst(s4, Sleep(0), []);
    AfterFirst(s3, NotifyAll, [Sleep(0)]);
    AfterFirst(s2, Shutdown, [NotifyAll, Sleep(0)]);
    AfterFirst(s1, LoopTest(0), [Shutdown, NotifyAll, Sleep(0)]);
    AfterFirst(s0, Lock(0), [LoopTest(0), Shutdown, NotifyAll, Sleep(0)]);
    AfterNothing(s5);
    RunsSplit(0);
  }
}
