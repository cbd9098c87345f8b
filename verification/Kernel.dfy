/** The task kernel: ready, wait and free queues, the kernel wait table and semaphores
    (cheapos/scheduler.c, cheapos/syscall_task.c, cheapos/semaphoro.c).  Every routine runs with interrupts
    off and is one step. */
module TaskKernel {
  import opened Counting
  import opened PidQueue
  import opened Sequences

  const ROSSO: int := 0
  const VERDE: int := 1

  /** What a task waits for: `wsemaphoro` on a semaphore, or a condition outside this model. */
  datatype Event = WSemaphoro(sem: int) | WOutside(param: int)

  // ---------- The state, as values ----------

  /** `running` is 0 while the idle task runs. */
  datatype State = State(ready: seq<int>, notask: seq<int>, wait: seq<int>, running: int,
                         table: seq<Event>, sems: seq<int>)

  ghost function AllPids(): (s: seq<int>)
    ensures |s| == MAX_TASK_NUM - 1 && forall i | 0 <= i < |s| :: s[i] == i + 1
  {
    seq(MAX_TASK_NUM - 1, i requires 0 <= i => i + 1)
  }

  ghost function Everyone(): multiset<int> {
    multiset(AllPids())
  }

  ghost function Running(k: State): multiset<int> {
    if k.running == 0 then multiset{} else multiset{k.running}
  }

  /** All pids, with the places they are in. */
  ghost function Population(k: State): multiset<int> {
    multiset(k.ready) + multiset(k.notask) + multiset(k.wait) + Running(k)
  }

  /** The semaphores waited for exist. */
  ghost predicate WaitsWell(k: State) {
    |k.table| == MAX_TASK_NUM && forall pid | pid in k.wait :: EventOk(k, pid)
  }

  ghost predicate EventOk(k: State, pid: int) {
    0 <= pid < |k.table| && (k.table[pid].WSemaphoro? ==> 0 <= k.table[pid].sem < |k.sems|)
  }

  /** Nobody is lost and nobody is in two places; semaphores waited for exist. */
  ghost predicate Inv(k: State) {
    Population(k) == Everyone() && WaitsWell(k)
  }

  /** Each pid from 1 to 127 is in exactly one of the four places, and nothing else is anywhere. */
  lemma OnePlaceEach(k: State, pid: int)
    requires Inv(k)
    ensures multiset(k.ready)[pid] + multiset(k.notask)[pid] + multiset(k.wait)[pid] + Running(k)[pid] ==
            if 1 <= pid < MAX_TASK_NUM then 1 else 0
  {
    assert Population(k)[pid] == Everyone()[pid];
    CountIn(AllPids(), pid);
    if 1 <= pid < MAX_TASK_NUM { assert AllPids()[pid - 1] == pid; }
  }

  /** No queue can be full: together they hold 127 pids at most, and each has room for 128. */
  lemma Room(k: State)
    requires Inv(k)
    ensures |k.ready| + |k.notask| + |k.wait| + |Running(k)| == 127
    ensures forall pid | pid in k.ready || pid in k.notask || pid in k.wait :: 1 <= pid < 128
    ensures 0 <= k.running < MAX_TASK_NUM
  {
    assert |Population(k)| == |Everyone()|;
    forall pid | pid in k.ready || pid in k.notask || pid in k.wait ensures 1 <= pid < MAX_TASK_NUM {
      OnePlaceEach(k, pid);
    }
    if k.running != 0 {
      OnePlaceEach(k, k.running);
    }
  }

  // ---------- The steps ----------

  datatype Step =
    | Tick
    | WaitCheck(outside: set<int>)
    | Wait(event: Event)
    | Exit
    | Fork(memory: bool)
    | Exec(loaded: bool)
    | Kill(pid: int)
    | Up(sem: int)

  /** The first ready task runs, or the idle task. */
  ghost function Dispatch(k: State): State {
    if k.ready == [] then k.(running := 0) else k.(ready := k.ready[1..], running := k.ready[0])
  }

  /** What a pass over the first waiting tasks has done: who is woken, who is kept, the semaphores, and who
      was granted which. */
  datatype Pass = Pass(woken: seq<int>, kept: seq<int>, sems: seq<int>, granted: seq<(int, int)>)

  /** One waiting task is asked for: `wsemaphoro` takes the semaphore if it is not red. */
  ghost function Asked(o: Pass, pid: int, e: Event, outside: set<int>): (o': Pass)
    requires e.WSemaphoro? ==> 0 <= e.sem < |o.sems|
    ensures |o'.sems| == |o.sems|
  {
    match e
    case WSemaphoro(s) =>
      if o.sems[s] == ROSSO then o.(kept := o.kept + [pid])
      else Pass(o.woken + [pid], o.kept, o.sems[s := ROSSO], o.granted + [(pid, s)])
    case WOutside(p) =>
      if p in outside then o.(woken := o.woken + [pid]) else o.(kept := o.kept + [pid])
  }

  ghost function Checked(k: State, outside: set<int>, n: nat): (o: Pass)
    requires WaitsWell(k) && n <= |k.wait|
    ensures |o.sems| == |k.sems|
  {
    if n == 0 then Pass([], [], k.sems, [])
    else
      assert k.wait[n - 1] in k.wait && EventOk(k, k.wait[n - 1]);
      Asked(Checked(k, outside, n - 1), k.wait[n - 1], k.table[k.wait[n - 1]], outside)
  }

  /** The search of `kill` through a queue goes round it and stops at the pid: what was passed goes to the end. */
  ghost function Sought(queue: seq<int>, n: nat): seq<int>
    requires n <= |queue|
  {
    queue[n..] + queue[..n]
  }

  ghost function Killed(queue: seq<int>, pid: int, n: nat): seq<int>
    requires n < |queue| && queue[n] == pid
  {
    queue[n + 1..] + queue[..n]
  }

  ghost function IndexOf(queue: seq<int>, pid: int): (n: nat)
    requires pid in queue
    ensures n < |queue| && queue[n] == pid && forall i | 0 <= i < n :: queue[i] != pid
  {
    if queue[0] == pid then 0 else 1 + IndexOf(queue[1..], pid)
  }

  /** A task may not kill itself, the idle task or the start-up task; only ready and waiting tasks are found. */
  ghost predicate CanKill(k: State, pid: int) {
    pid >= 2 && pid != k.running && (pid in k.ready || pid in k.wait)
  }

  /** Whether the step may be taken: the idle task neither waits nor exits. */
  ghost predicate Enabled(k: State, step: Step) {
    match step
    case Wait(e) => k.running > 0 && (e.WSemaphoro? ==> 0 <= e.sem < |k.sems|)
    case Exit => k.running > 0
    case Up(s) => 0 <= s < |k.sems|
    case _ => true
  }

  ghost function Next(k: State, step: Step): State
    requires Inv(k) && Enabled(k, step)
  {
    match step
    case Tick => Dispatch(if k.running == 0 then k else k.(ready := k.ready + [k.running]))
    case WaitCheck(outside) =>
      var o := Checked(k, outside, |k.wait|);
      k.(ready := k.ready + o.woken, wait := o.kept, sems := o.sems)
    case Wait(e) =>
      Room(k);
      Dispatch(k.(wait := k.wait + [k.running], table := k.table[k.running := e]))
    case Exit => Dispatch(k.(notask := k.notask + [k.running]))
    case Fork(memory) =>
      if k.notask == [] then k
      else if memory then k.(notask := k.notask[1..], ready := k.ready + [k.notask[0]])
      else k.(notask := k.notask[1..] + [k.notask[0]])
    case Exec(loaded) =>
      if !loaded || k.notask == [] then k
      else k.(notask := k.notask[1..], ready := k.ready + [k.notask[0]])
    case Kill(pid) =>
      if !CanKill(k, pid) then k
      else if pid in k.ready then k.(ready := Killed(k.ready, pid, IndexOf(k.ready, pid)), notask := k.notask + [pid])
      else k.(wait := Killed(k.wait, pid, IndexOf(k.wait, pid)), notask := k.notask + [pid])
    case Up(s) => k.(sems := k.sems[s := VERDE])
  }

  // ---------- Every step keeps everybody in one place ----------

  lemma DispatchKeeps(k: State, who: multiset<int>)
    requires multiset(k.ready) + multiset(k.notask) + multiset(k.wait) == who && 0 !in who
    ensures Population(Dispatch(k)) == who
  {
    if k.ready != [] {
      assert k.ready == [k.ready[0]] + k.ready[1..];
      assert k.ready[0] in who;
    }
  }

  /** The members of `s`, dealt out to `a` and `b`. */
  ghost predicate Dealt(a: seq<int>, b: seq<int>, s: seq<int>) {
    multiset(a) + multiset(b) == multiset(s)
  }

  lemma {:induction false} CheckedKeeps(k: State, outside: set<int>, n: nat)
    requires WaitsWell(k) && n <= |k.wait|
    ensures Dealt(Checked(k, outside, n).woken, Checked(k, outside, n).kept, k.wait[..n])
  {
    hide Checked, Inv, Dealt, WaitsWell, Population, Everyone;
    if n == 0 {
      NobodyAsked(k, outside);
      assert k.wait[..n] == [];
    } else {
      CheckedKeeps(k, outside, n - 1);
      CheckedStep(k, outside, n);
      var o := Checked(k, outside, n - 1);
      OneMore(o.woken, o.kept, k.wait[n - 1], k.wait[..n - 1], k.wait[..n]);
    }
  }

  lemma NobodyAsked(k: State, outside: set<int>)
    requires WaitsWell(k)
    ensures Checked(k, outside, 0).woken == Checked(k, outside, 0).kept == [] && Dealt([], [], [])
  {
  }

  lemma OneMore(a: seq<int>, b: seq<int>, x: int, s: seq<int>, s': seq<int>)
    requires Dealt(a, b, s) && s' == s + [x]
    ensures Dealt(a + [x], b, s') && Dealt(a, b + [x], s')
  {
  }

  /** The next waiting task is either woken or kept. */
  lemma CheckedStep(k: State, outside: set<int>, n: nat)
    requires WaitsWell(k) && 0 < n <= |k.wait|
    ensures var o, o' := Checked(k, outside, n - 1), Checked(k, outside, n);
            (o'.woken == o.woken + [k.wait[n - 1]] && o'.kept == o.kept) ||
            (o'.kept == o.kept + [k.wait[n - 1]] && o'.woken == o.woken)
  {
    assert k.wait[n - 1] in k.wait;
  }

  lemma KilledKeeps(queue: seq<int>, pid: int, n: nat)
    requires n < |queue| && queue[n] == pid
    ensures multiset(Killed(queue, pid, n)) + multiset{pid} == multiset(queue)
  {
    assert queue == queue[..n] + [queue[n]] + queue[n + 1..];
  }

  lemma FirstAway(queue: seq<int>)
    requires queue != []
    ensures multiset(queue) == multiset{queue[0]} + multiset(queue[1..])
  {
    assert queue == [queue[0]] + queue[1..];
  }

  lemma QueuesKept(k: State)
    requires Inv(k)
    ensures 0 !in Population(k) && k.running >= 0
  {
    Room(k);
    OnePlaceEach(k, 0);
  }

  lemma BirthKeeps(k: State)
    requires k.notask != []
    ensures Population(k.(notask := k.notask[1..], ready := k.ready + [k.notask[0]])) == Population(k)
    ensures Population(k.(notask := k.notask[1..] + [k.notask[0]])) == Population(k)
  {
    FirstAway(k.notask);
  }

  lemma DeathKeeps(k: State, pid: int)
    ensures pid in k.ready ==>
              Population(k.(ready := Killed(k.ready, pid, IndexOf(k.ready, pid)), notask := k.notask + [pid])) ==
              Population(k)
    ensures pid in k.wait ==>
              Population(k.(wait := Killed(k.wait, pid, IndexOf(k.wait, pid)), notask := k.notask + [pid])) ==
              Population(k)
  {
    hide Killed, IndexOf;
    if pid in k.ready { MovedOut(k.ready, k.notask, pid); }
    if pid in k.wait {
      MovedOut(k.wait, k.notask, pid);
      var wait' := Killed(k.wait, pid, IndexOf(k.wait, pid));
      Reorder(multiset(k.ready), multiset(wait'), multiset(k.notask + [pid]), multiset(k.wait), multiset(k.notask));
    }
  }

  lemma Reorder(r: multiset<int>, a: multiset<int>, b: multiset<int>, c: multiset<int>, d: multiset<int>)
    requires a + b == c + d
    ensures r + b + a == r + d + c
  {
    assert r + b + a == r + (a + b) && r + d + c == r + (c + d);
  }

  lemma MovedOut(queue: seq<int>, notask: seq<int>, pid: int)
    requires pid in queue
    ensures multiset(Killed(queue, pid, IndexOf(queue, pid))) + multiset(notask + [pid]) ==
            multiset(queue) + multiset(notask)
  {
    KilledKeeps(queue, pid, IndexOf(queue, pid));
    hide Killed, IndexOf;
    assert multiset(notask + [pid]) == multiset(notask) + multiset{pid};
  }

  lemma PassKeeps(k: State, outside: set<int>)
    requires Inv(k)
    ensures Population(Next(k, WaitCheck(outside))) == Population(k)
  {
    CheckedKeeps(k, outside, |k.wait|);
    assert k.wait[..|k.wait|] == k.wait;
    hide Checked, Inv;
  }

  lemma SwitchKeeps(k: State, step: Step)
    requires Inv(k) && Enabled(k, step) && (step.Tick? || step.Wait? || step.Exit?)
    ensures Population(Next(k, step)) == Population(k)
  {
    QueuesKept(k);
    hide Inv, Dispatch;
    match step {
      case Tick =>
        DispatchKeeps(if k.running == 0 then k else k.(ready := k.ready + [k.running]), Population(k));
      case Wait(e) =>
        TableSize(k);
        DispatchKeeps(k.(wait := k.wait + [k.running], table := k.table[k.running := e]), Population(k));
      case Exit =>
        DispatchKeeps(k.(notask := k.notask + [k.running]), Population(k));
    }
  }

  lemma TableSize(k: State)
    requires Inv(k)
    ensures |k.table| == MAX_TASK_NUM && 0 <= k.running < MAX_TASK_NUM
  {
    Room(k);
  }

  /** Conservation: no step loses or doubles a pid. */
  lemma PopulationKept(k: State, step: Step)
    requires Inv(k) && Enabled(k, step)
    ensures Population(Next(k, step)) == Population(k)
  {
    match step {
      case Tick => SwitchKeeps(k, step);
      case Wait(_) => SwitchKeeps(k, step);
      case Exit => SwitchKeeps(k, step);
      case WaitCheck(outside) => PassKeeps(k, outside);
      case Fork(_) => if k.notask != [] { BirthKeeps(k); }
      case Exec(_) => if k.notask != [] { BirthKeeps(k); }
      case Kill(pid) => DeathKeeps(k, pid);
      case Up(_) =>
    }
  }

  lemma {:induction false} KeptWaited(k: State, outside: set<int>, n: nat, pid: int)
    requires Inv(k) && n <= |k.wait| && pid in Checked(k, outside, n).kept
    ensures pid in k.wait
  {
    if n > 0 && pid in Checked(k, outside, n - 1).kept {
      KeptWaited(k, outside, n - 1, pid);
    }
  }

  lemma InKilled(queue: seq<int>, pid: int, n: nat, x: int)
    requires n < |queue| && queue[n] == pid && x in Killed(queue, pid, n)
    ensures x in queue
  {
  }

  lemma DispatchWaits(k: State)
    ensures Dispatch(k).wait == k.wait && Dispatch(k).table == k.table && Dispatch(k).sems == k.sems
  {
  }

  lemma WaitKeeps(k: State, e: Event)
    requires Inv(k) && Enabled(k, Wait(e))
    ensures WaitsWell(Next(k, Wait(e)))
  {
    TableSize(k);
    var k1 := k.(wait := k.wait + [k.running], table := k.table[k.running := e]);
    DispatchWaits(k1);
    hide Dispatch, Population;
    forall pid | pid in k1.wait ensures EventOk(k1, pid) {
      assert pid in k.wait || pid == k.running;
    }
  }

  lemma CheckKeeps(k: State, outside: set<int>)
    requires Inv(k)
    ensures WaitsWell(Next(k, WaitCheck(outside))) && |Next(k, WaitCheck(outside)).sems| == |k.sems|
  {
    var k' := Next(k, WaitCheck(outside));
    forall pid | pid in k'.wait ensures EventOk(k', pid) {
      KeptWaited(k, outside, |k.wait|, pid);
    }
  }

  lemma KillKeeps(k: State, x: int)
    requires Inv(k)
    ensures WaitsWell(Next(k, Kill(x)))
  {
    var k' := Next(k, Kill(x));
    forall pid | pid in k'.wait ensures EventOk(k', pid) {
      if CanKill(k, x) && x !in k.ready { InKilled(k.wait, x, IndexOf(k.wait, x), pid); }
    }
  }

  lemma OthersKeep(k: State, step: Step)
    requires Inv(k) && Enabled(k, step) && (step.Tick? || step.Exit? || step.Fork? || step.Exec? || step.Up?)
    ensures WaitsWell(Next(k, step)) && |Next(k, step).sems| == |k.sems|
  {
    hide Population, Everyone;
    if step.Tick? {
      DispatchWaits(if k.running == 0 then k else k.(ready := k.ready + [k.running]));
    } else if step.Exit? {
      DispatchWaits(k.(notask := k.notask + [k.running]));
    }
    hide Dispatch;
    forall pid | pid in Next(k, step).wait ensures EventOk(Next(k, step), pid) {
      assert EventOk(k, pid);
    }
  }

  lemma SemaphoresStay(k: State, step: Step)
    requires Inv(k) && (step.Kill? || (step.Wait? && Enabled(k, step)))
    ensures |Next(k, step).sems| == |k.sems|
  {
    hide Population, Everyone, Killed, IndexOf;
  }

  /** Every step keeps the invariant. */
  lemma StepKeeps(k: State, step: Step)
    requires Inv(k) && Enabled(k, step)
    ensures Inv(Next(k, step)) && |Next(k, step).sems| == |k.sems|
  {
    hide Population, Everyone, Dispatch, Checked, CanKill, IndexOf, Killed, WaitsWell, Next;
    PopulationKept(k, step);
    match step {
      case WaitCheck(outside) => CheckKeeps(k, outside);
      case Wait(e) =>
        WaitKeeps(k, e);
        SemaphoresStay(k, step);
      case Kill(x) =>
        KillKeeps(k, x);
        SemaphoresStay(k, step);
      case _ => OthersKeep(k, step);
    }
  }

  // ---------- Semaphores over whole runs ----------

  /** A run so far: the state, who began to wait for which semaphore (without those killed while they waited)
      and who was granted which, in order, and who holds which. */
  datatype Trace = Trace(k: State, entered: seq<(int, int)>, granted: seq<(int, int)>, holders: set<(int, int)>)

  /** The pids in `log` that go with semaphore `s`. */
  ghost function Only(log: seq<(int, int)>, s: int): seq<int> {
    if log == [] then []
    else
      var rest, last := Only(log[..|log| - 1], s), log[|log| - 1];
      if last.1 == s then rest + [last.0] else rest
  }

  /** The tasks in `queue` that wait for semaphore `s`. */
  ghost function Waiters(queue: seq<int>, table: seq<Event>, s: int): seq<int> {
    if queue == [] then []
    else
      var rest, pid := Waiters(queue[..|queue| - 1], table, s), queue[|queue| - 1];
      if 0 <= pid < |table| && table[pid] == WSemaphoro(s) then rest + [pid] else rest
  }

  ghost function DropHolder(holders: set<(int, int)>, pid: int): set<(int, int)> {
    set h | h in holders && h.0 != pid
  }

  /** `log` without the last entry `h`. */
  ghost function Withdrawn(log: seq<(int, int)>, h: (int, int)): seq<(int, int)> {
    if log == [] then []
    else
      var rest, last := log[..|log| - 1], log[|log| - 1];
      if last == h then rest else Withdrawn(rest, h) + [last]
  }

  /** A task killed while it waits for a semaphore will not be granted it. */
  ghost function AfterKill(entered: seq<(int, int)>, k: State, pid: int): seq<(int, int)> {
    if CanKill(k, pid) && pid in k.wait && 0 <= pid < |k.table| && k.table[pid].WSemaphoro? then
      Withdrawn(entered, (pid, k.table[pid].sem))
    else entered
  }

  /** Only the holder of a semaphore may release it. */
  ghost predicate Allowed(r: Trace, step: Step) {
    Enabled(r.k, step) && (step.Up? ==> (r.k.running, step.sem) in r.holders)
  }

  ghost function Advance(r: Trace, step: Step): Trace
    requires Inv(r.k) && Allowed(r, step)
  {
    var k := Next(r.k, step);
    match step
    case Wait(e) =>
      if e.WSemaphoro? then r.(k := k, entered := r.entered + [(r.k.running, e.sem)]) else r.(k := k)
    case WaitCheck(outside) =>
      var o := Checked(r.k, outside, |r.k.wait|);
      r.(k := k, granted := r.granted + o.granted, holders := r.holders + set h | h in o.granted)
    case Exit => r.(k := k, holders := DropHolder(r.holders, r.k.running))
    case Kill(pid) =>
      r.(k := k, entered := AfterKill(r.entered, r.k, pid),
         holders := if CanKill(r.k, pid) then DropHolder(r.holders, pid) else r.holders)
    case Up(s) => r.(k := k, holders := r.holders - {(r.k.running, s)})
    case _ => r.(k := k)
  }

  /** Mutual exclusion: no semaphore has two holders, and one that is held is red. */
  ghost predicate Exclusive(r: Trace) {
    Inv(r.k) &&
    (forall h | h in r.holders :: 0 <= h.1 < |r.k.sems| && r.k.sems[h.1] == ROSSO) &&
    (forall h, h' | h in r.holders && h' in r.holders && h.1 == h'.1 :: h == h')
  }

  /** First come, first served: who has waited for `s` is who was granted it, in the same order, followed by
      those still waiting; those killed while they waited are left out. */
  ghost predicate Fair(r: Trace, s: int) {
    Only(r.entered, s) == Only(r.granted, s) + Waiters(r.k.wait, r.k.table, s)
  }

  /** What one pass does to semaphore `s`: it wakes at most the first who waits for it, and only if it is
      not red. */
  ghost predicate PassOn(k: State, queue: seq<int>, o: Pass, s: int)
    requires |o.sems| == |k.sems|
  {
    Only(o.granted, s) + Waiters(o.kept, k.table, s) == Waiters(queue, k.table, s) &&
    (0 <= s < |k.sems| ==>
       if k.sems[s] == ROSSO then Only(o.granted, s) == [] && o.sems[s] == ROSSO
       else if o.sems[s] == ROSSO then |Only(o.granted, s)| == 1
       else Only(o.granted, s) == [] && Waiters(o.kept, k.table, s) == [])
  }

  lemma WaitersSnoc(queue: seq<int>, table: seq<Event>, s: int, pid: int)
    ensures Waiters(queue + [pid], table, s) ==
            if 0 <= pid < |table| && table[pid] == WSemaphoro(s) then Waiters(queue, table, s) + [pid]
            else Waiters(queue, table, s)
  {
    assert (queue + [pid])[..|queue|] == queue;
  }

  lemma OnlySnoc(log: seq<(int, int)>, s: int, h: (int, int))
    ensures Only(log + [h], s) == if h.1 == s then Only(log, s) + [h.0] else Only(log, s)
  {
    assert (log + [h])[..|log|] == log;
  }

  lemma {:induction false} OnlyJoin(a: seq<(int, int)>, b: seq<(int, int)>, s: int)
    ensures Only(a + b, s) == Only(a, s) + Only(b, s)
  {
    if b == [] {
      assert a + b == a;
    } else {
      var b0, h := b[..|b| - 1], b[|b| - 1];
      OnlyJoin(a, b0, s);
      assert a + b == (a + b0) + [h] && b == b0 + [h];
      OnlySnoc(a + b0, s, h);
      OnlySnoc(b0, s, h);
    }
  }

  /** What asking one task does to those granted, those kept and the semaphore `s`. */
  lemma AskEffects(k: State, o: Pass, pid: int, outside: set<int>, s: int)
    requires |o.sems| == |k.sems| && EventOk(k, pid)
    ensures var o' := Asked(o, pid, k.table[pid], outside);
            var mine, red := k.table[pid] == WSemaphoro(s), 0 <= s < |o.sems| && o.sems[s] == ROSSO;
            Only(o'.granted, s) == (if mine && !red then Only(o.granted, s) + [pid] else Only(o.granted, s)) &&
            Waiters(o'.kept, k.table, s) ==
            (if mine && red then Waiters(o.kept, k.table, s) + [pid] else Waiters(o.kept, k.table, s)) &&
            (0 <= s < |o.sems| ==> o'.sems[s] == if mine then ROSSO else o.sems[s])
  {
    hide Only, Waiters;
    WaitersSnoc(o.kept, k.table, s, pid);
    var e := k.table[pid];
    if e.WSemaphoro? { OnlySnoc(o.granted, s, (pid, e.sem)); }
  }

  lemma AskServes(k: State, queue: seq<int>, o: Pass, pid: int, outside: set<int>, s: int)
    requires |o.sems| == |k.sems| && EventOk(k, pid) && PassOn(k, queue, o, s)
    ensures PassOn(k, queue + [pid], Asked(o, pid, k.table[pid], outside), s)
  {
    hide Only, Waiters, Asked;
    WaitersSnoc(queue, k.table, s, pid);
    AskEffects(k, o, pid, outside, s);
    Associative(Only(o.granted, s), Waiters(o.kept, k.table, s), [pid]);
  }

  lemma {:induction false} PassServes(k: State, outside: set<int>, n: nat, s: int)
    requires WaitsWell(k) && n <= |k.wait|
    ensures PassOn(k, k.wait[..n], Checked(k, outside, n), s)
  {
    if n > 0 {
      PassServes(k, outside, n - 1, s);
      var pid := k.wait[n - 1];
      assert pid in k.wait && EventOk(k, pid);
      assert k.wait[..n] == k.wait[..n - 1] + [pid];
      AskServes(k, k.wait[..n - 1], Checked(k, outside, n - 1), pid, outside, s);
    }
  }

  lemma {:induction false} InOnly(log: seq<(int, int)>, h: (int, int))
    requires h in log
    ensures h.0 in Only(log, h.1)
  {
    var log0, last := log[..|log| - 1], log[|log| - 1];
    assert log == log0 + [last];
    if h in log0 {
      InOnly(log0, h);
    }
  }

  lemma {:induction false} GrantedExist(k: State, outside: set<int>, n: nat, h: (int, int))
    requires WaitsWell(k) && n <= |k.wait| && h in Checked(k, outside, n).granted
    ensures 0 <= h.1 < |k.sems|
  {
    if n > 0 {
      var o, pid := Checked(k, outside, n - 1), k.wait[n - 1];
      assert pid in k.wait && EventOk(k, pid);
      if h in o.granted { GrantedExist(k, outside, n - 1, h); }
    }
  }

  /** A pass grants only semaphores that were not red, each at most once, and leaves them red. */
  lemma GrantedOnce(k: State, outside: set<int>, h: (int, int), h': (int, int))
    requires WaitsWell(k)
    requires var o := Checked(k, outside, |k.wait|); h in o.granted && h' in o.granted && h.1 == h'.1
    ensures 0 <= h.1 < |k.sems| && k.sems[h.1] != ROSSO && Checked(k, outside, |k.wait|).sems[h.1] == ROSSO && h == h'
  {
    var o := Checked(k, outside, |k.wait|);
    GrantedExist(k, outside, |k.wait|, h);
    PassServes(k, outside, |k.wait|, h.1);
    InOnly(o.granted, h);
    InOnly(o.granted, h');
    hide Checked, Only, Waiters, WaitsWell;
    OneMember(Only(o.granted, h.1), h.0, h'.0);
  }

  lemma OneMember(l: seq<int>, a: int, b: int)
    requires a in l && b in l
    ensures l != [] && (|l| == 1 ==> a == b)
  {
  }

  lemma PassExclusive(r: Trace, outside: set<int>)
    requires Exclusive(r)
    ensures Exclusive(Advance(r, WaitCheck(outside)))
  {
    var o := Checked(r.k, outside, |r.k.wait|);
    StepKeeps(r.k, WaitCheck(outside));
    var r' := Advance(r, WaitCheck(outside));
    hide Inv, Checked, Next;
    assert r'.k.sems == o.sems by { NextSems(r.k, outside); }
    forall h | h in r'.holders ensures 0 <= h.1 < |o.sems| && o.sems[h.1] == ROSSO {
      if h in o.granted {
        GrantedOnce(r.k, outside, h, h);
      } else {
        StillRed(r.k, outside, h.1);
      }
    }
    forall h, h' | h in r'.holders && h' in r'.holders && h.1 == h'.1 ensures h == h' {
      if h in o.granted && h' in o.granted {
        GrantedOnce(r.k, outside, h, h');
      } else if h in o.granted {
        GrantedOnce(r.k, outside, h, h);
      } else if h' in o.granted {
        GrantedOnce(r.k, outside, h', h');
      }
    }
  }

  lemma NextSems(k: State, outside: set<int>)
    requires Inv(k)
    ensures Next(k, WaitCheck(outside)).sems == Checked(k, outside, |k.wait|).sems && WaitsWell(k)
  {
  }

  lemma StillRed(k: State, outside: set<int>, s: int)
    requires WaitsWell(k) && 0 <= s < |k.sems| && k.sems[s] == ROSSO
    ensures Checked(k, outside, |k.wait|).sems[s] == ROSSO
  {
    PassServes(k, outside, |k.wait|, s);
  }

  /** Mutual exclusion is kept by every step of a run in which only holders release. */
  lemma ExclusiveKept(r: Trace, step: Step)
    requires Exclusive(r) && Allowed(r, step)
    ensures Exclusive(Advance(r, step))
  {
    if step.WaitCheck? {
      PassExclusive(r, step.outside);
    } else {
      StepKeeps(r.k, step);
      SemsAfter(r.k, step);
      HoldersAfter(r, step);
      var r' := Advance(r, step);
      hide Inv, Next, Advance, Enabled;
      if step.Up? {
        forall h | h in r'.holders ensures r'.k.sems[h.1] == ROSSO && 0 <= h.1 < |r'.k.sems| {
          assert h in r.holders && h != (r.k.running, step.sem);
        }
      }
    }
  }

  lemma HoldersAfter(r: Trace, step: Step)
    requires Inv(r.k) && Allowed(r, step) && !step.WaitCheck?
    ensures Advance(r, step).k == Next(r.k, step) && Advance(r, step).holders <= r.holders
    ensures step.Up? ==>
              Advance(r, step).holders == r.holders - {(r.k.running, step.sem)} &&
              (r.k.running, step.sem) in r.holders
  {
    hide Inv, Next, DropHolder;
    Dropped(r.holders, r.k.running);
    if step.Kill? { Dropped(r.holders, step.pid); }
  }

  lemma Dropped(holders: set<(int, int)>, pid: int)
    ensures DropHolder(holders, pid) <= holders
  {
  }

  lemma SemsAfter(k: State, step: Step)
    requires Inv(k) && Enabled(k, step) && !step.WaitCheck?
    ensures Next(k, step).sems == if step.Up? then k.sems[step.sem := VERDE] else k.sems
  {
    hide Population, Everyone, Killed, IndexOf;
  }

  lemma {:induction false} WaitersFrame(queue: seq<int>, table: seq<Event>, table': seq<Event>, s: int)
    requires |table| == |table'| && forall pid | pid in queue && 0 <= pid < |table| :: table[pid] == table'[pid]
    ensures Waiters(queue, table, s) == Waiters(queue, table', s)
  {
    if queue != [] {
      WaitersFrame(queue[..|queue| - 1], table, table', s);
      assert queue[|queue| - 1] in queue;
    }
  }

  lemma RunningApart(k: State)
    requires Inv(k) && k.running != 0
    ensures k.running !in k.wait
  {
    Room(k);
    OnePlaceEach(k, k.running);
  }

  lemma WaitFair(r: Trace, e: Event, s: int)
    requires Inv(r.k) && Allowed(r, Wait(e)) && Fair(r, s)
    ensures Fair(Advance(r, Wait(e)), s)
  {
    var k := r.k;
    RunningApart(k);
    TableSize(k);
    var table' := k.table[k.running := e];
    WaitersFrame(k.wait, k.table, table', s);
    WaitersSnoc(k.wait, table', s, k.running);
    if e.WSemaphoro? { OnlySnoc(r.entered, s, (k.running, e.sem)); }
    DispatchWaits(k.(wait := k.wait + [k.running], table := table'));
    hide Only, Waiters, Dispatch, Inv;
    Associative(Only(r.granted, s), Waiters(k.wait, k.table, s), [k.running]);
  }

  lemma PassFair(r: Trace, outside: set<int>, s: int)
    requires Inv(r.k) && Fair(r, s)
    ensures Fair(Advance(r, WaitCheck(outside)), s)
  {
    var k := r.k;
    var o := Checked(k, outside, |k.wait|);
    PassServes(k, outside, |k.wait|, s);
    assert k.wait[..|k.wait|] == k.wait;
    OnlyJoin(r.granted, o.granted, s);
    hide Only, Waiters, Checked, Inv;
    Associative(Only(r.granted, s), Only(o.granted, s), Waiters(o.kept, k.table, s));
  }

  lemma NotInBoth(k: State, pid: int)
    requires Inv(k)
    ensures pid !in k.ready || pid !in k.wait
  {
    OnePlaceEach(k, pid);
  }

  /** `queue` without `pid`, the others as they were. */
  ghost function Removed(queue: seq<int>, pid: int): seq<int> {
    if queue == [] then []
    else
      var rest, last := Removed(queue[..|queue| - 1], pid), queue[|queue| - 1];
      if last == pid then rest else rest + [last]
  }

  lemma {:induction false} RemovedJoin(a: seq<int>, b: seq<int>, pid: int)
    ensures Removed(a + b, pid) == Removed(a, pid) + Removed(b, pid)
  {
    if b == [] {
      assert a + b == a;
    } else {
      var b0, last := b[..|b| - 1], b[|b| - 1];
      RemovedJoin(a, b0, pid);
      assert (a + b)[..|a + b| - 1] == a + b0 && (a + b)[|a + b| - 1] == last;
    }
  }

  lemma {:induction false} RemovedAbsent(queue: seq<int>, pid: int)
    requires pid !in queue
    ensures Removed(queue, pid) == queue
  {
    if queue != [] {
      RemovedAbsent(queue[..|queue| - 1], pid);
      assert queue == queue[..|queue| - 1] + [queue[|queue| - 1]];
    }
  }

  lemma {:induction false} WaitersJoin(a: seq<int>, b: seq<int>, table: seq<Event>, s: int)
    ensures Waiters(a + b, table, s) == Waiters(a, table, s) + Waiters(b, table, s)
  {
    if b == [] {
      assert a + b == a;
    } else {
      var b0, last := b[..|b| - 1], b[|b| - 1];
      WaitersJoin(a, b0, table, s);
      assert (a + b)[..|a + b| - 1] == a + b0 && (a + b)[|a + b| - 1] == last;
    }
  }

  lemma RemovedOnly(table: seq<Event>, s: int, pid: int)
    ensures Removed(Waiters([pid], table, s), pid) == []
  {
    assert [pid][..0] == [] && Removed([], pid) == [];
  }

  lemma {:induction false} WaitersAmong(queue: seq<int>, table: seq<Event>, s: int)
    ensures forall pid | pid in Waiters(queue, table, s) :: pid in queue
  {
    if queue != [] {
      WaitersAmong(queue[..|queue| - 1], table, s);
    }
  }

  ghost predicate Disjoint(a: seq<int>, b: seq<int>) {
    forall x | x in a :: x !in b
  }

  /** Two lists without a common member can be exchanged only if one is empty. */
  lemma Commute(u: seq<int>, v: seq<int>)
    requires Disjoint(u, v)
    ensures u + v == v + u <==> u == [] || v == []
  {
    if u != [] && v != [] {
      assert (u + v)[0] == u[0] && (v + u)[0] == v[0];
      assert u[0] in u && v[0] in v;
    } else if u == [] {
      assert u + v == v == v + u;
    } else {
      assert u + v == u == v + u;
    }
  }

  /** No pid is in the wait queue twice. */
  lemma WaitDistinct(k: State, n: nat)
    requires Inv(k) && n < |k.wait|
    ensures k.wait[n] !in k.wait[..n] && k.wait[n] !in k.wait[n + 1..]
    ensures Disjoint(k.wait[..n], k.wait[n + 1..])
  {
    var a, pid, b := k.wait[..n], k.wait[n], k.wait[n + 1..];
    assert k.wait == a + [pid] + b;
    assert multiset(k.wait) == multiset(a) + multiset{pid} + multiset(b);
    OnePlaceEach(k, pid);
    forall x | x in a ensures x !in b {
      OnePlaceEach(k, x);
    }
  }

  /** The waiters of `s` in the wait queue, before, at and behind place `n`, and what is left of them when the
      task at that place goes. */
  lemma Parted(k: State, n: nat, s: int)
    requires Inv(k) && n < |k.wait|
    ensures var pid := k.wait[n];
            var u, v := Waiters(k.wait[..n], k.table, s), Waiters(k.wait[n + 1..], k.table, s);
            var m := if 0 <= pid < |k.table| && k.table[pid] == WSemaphoro(s) then [pid] else [];
            pid in k.wait && 0 <= pid < |k.table| && pid !in u && pid !in v && Disjoint(u, v) &&
            Waiters(k.wait, k.table, s) == u + m + v && Removed(u + m + v, pid) == u + v &&
            Waiters(Killed(k.wait, pid, n), k.table, s) == v + u
  {
    var a, pid, b := k.wait[..n], k.wait[n], k.wait[n + 1..];
    assert pid in k.wait && EventOk(k, pid);
    WaitDistinct(k, n);
    hide Inv, Waiters, Removed;
    WaitersAmong(a, k.table, s);
    WaitersAmong(b, k.table, s);
    assert Disjoint(Waiters(a, k.table, s), Waiters(b, k.table, s));
    assert k.wait == a + [pid] + b;
    PartedLists(a, pid, b, k.table, s);
  }

  lemma PartedLists(a: seq<int>, pid: int, b: seq<int>, table: seq<Event>, s: int)
    requires pid !in Waiters(a, table, s) && pid !in Waiters(b, table, s)
    ensures var u, v := Waiters(a, table, s), Waiters(b, table, s);
            var m := if 0 <= pid < |table| && table[pid] == WSemaphoro(s) then [pid] else [];
            Waiters(a + [pid] + b, table, s) == u + m + v && Removed(u + m + v, pid) == u + v &&
            Waiters(b + a, table, s) == v + u
  {
    hide Waiters, Removed;
    var u, m, v := Waiters(a, table, s), Waiters([pid], table, s), Waiters(b, table, s);
    OneWaiter(table, s, pid);
    RemovedOnly(table, s, pid);
    WaitersJoin(a + [pid], b, table, s);
    WaitersJoin(a, [pid], table, s);
    WaitersJoin(b, a, table, s);
    RemovedJoin(u + m, v, pid);
    RemovedJoin(u, m, pid);
    RemovedAbsent(u, pid);
    RemovedAbsent(v, pid);
    Empty(u);
  }

  lemma OneWaiter(table: seq<Event>, s: int, pid: int)
    ensures Waiters([pid], table, s) == if 0 <= pid < |table| && table[pid] == WSemaphoro(s) then [pid] else []
  {
    assert [] + [pid] == [pid] && Waiters([], table, s) == [];
    WaitersSnoc([], table, s, pid);
  }

  /** Nobody waits for `s` before the task killed, or nobody behind it, or it is not in the wait queue. */
  ghost predicate Orderly(k: State, pid: int, s: int) {
    CanKill(k, pid) && pid in k.wait ==>
      var n := IndexOf(k.wait, pid);
      Waiters(k.wait[..n], k.table, s) == [] || Waiters(k.wait[n + 1..], k.table, s) == []
  }

  /** The waiters of `s` that a kill should leave. */
  ghost function Remaining(k: State, pid: int, s: int): seq<int> {
    var w := Waiters(k.wait, k.table, s);
    if CanKill(k, pid) then Removed(w, pid) else w
  }

  lemma KilledWait(k: State, pid: int)
    requires Inv(k)
    ensures var k' := Next(k, Kill(pid));
            k'.table == k.table &&
            k'.wait == if CanKill(k, pid) && pid in k.wait then Killed(k.wait, pid, IndexOf(k.wait, pid)) else k.wait
  {
    NotInBoth(k, pid);
  }

  /** A kill leaves the waiters of `s` in order, apart from the one killed, exactly if it is orderly. */
  lemma KillKeepsOrder(k: State, pid: int, s: int)
    requires Inv(k)
    ensures var k' := Next(k, Kill(pid)); Waiters(k'.wait, k'.table, s) == Remaining(k, pid, s) <==> Orderly(k, pid, s)
  {
    KilledWait(k, pid);
    hide Next;
    if CanKill(k, pid) {
      if pid in k.wait {
        var n := IndexOf(k.wait, pid);
        Parted(k, n, s);
        hide Inv, Waiters, Removed, IndexOf, Killed, Disjoint, CanKill;
        Commute(Waiters(k.wait[..n], k.table, s), Waiters(k.wait[n + 1..], k.table, s));
      } else {
        WaitersAmong(k.wait, k.table, s);
        RemovedAbsent(Waiters(k.wait, k.table, s), pid);
      }
    }
  }

  // ---------- Kills and the order of service ----------

  /** `log` without its last `pid`. */
  ghost function LastGone(log: seq<int>, pid: int): seq<int> {
    if log == [] then []
    else
      var rest, last := log[..|log| - 1], log[|log| - 1];
      if last == pid then rest else LastGone(rest, pid) + [last]
  }

  lemma {:induction false} WithdrawnOnly(log: seq<(int, int)>, h: (int, int), s: int)
    ensures Only(Withdrawn(log, h), s) == if h.1 == s then LastGone(Only(log, s), h.0) else Only(log, s)
  {
    if log != [] {
      var rest, last := log[..|log| - 1], log[|log| - 1];
      WithdrawnOnly(rest, h, s);
      if last != h { OnlySnoc(Withdrawn(rest, h), s, last); }
    }
  }

  lemma {:induction false} LastGoneAt(a: seq<int>, pid: int, b: seq<int>)
    requires pid !in b
    ensures LastGone(a + [pid] + b, pid) == a + b
  {
    var log := a + [pid] + b;
    if b == [] {
      assert log[..|log| - 1] == a && a + b == a;
    } else {
      var b0, last := b[..|b| - 1], b[|b| - 1];
      LastGoneAt(a, pid, b0);
      assert log[..|log| - 1] == a + [pid] + b0 && log[|log| - 1] == last;
      assert a + b == (a + b0) + [last];
    }
  }

  /** Taking the task killed out of the log takes it out of the waiters the log ends with. */
  lemma Withdraws(entered: seq<(int, int)>, e: Event, pid: int, s: int, g: seq<int>, u: seq<int>, v: seq<int>)
    requires pid !in v
    requires Only(entered, s) == g + (u + (if e == WSemaphoro(s) then [pid] else []) + v)
    ensures Only(if e.WSemaphoro? then Withdrawn(entered, (pid, e.sem)) else entered, s) == g + (u + v)
  {
    if e.WSemaphoro? { WithdrawnOnly(entered, (pid, e.sem), s); }
    hide Only, Withdrawn, LastGone;
    if e == WSemaphoro(s) {
      LastGoneAt(g + u, pid, v);
      assert g + (u + [pid] + v) == (g + u) + [pid] + v;
      Associative(g, u, v);
    } else {
      Empty(u);
    }
  }

  lemma AdvanceKill(r: Trace, pid: int)
    requires Inv(r.k)
    ensures var r' := Advance(r, Kill(pid));
            r'.k == Next(r.k, Kill(pid)) && r'.entered == AfterKill(r.entered, r.k, pid) && r'.granted == r.granted
  {
    hide Inv, Next;
  }

  /** Whoever is killed while waiting for `s` leaves the log of those who wait for it. */
  lemma KillWithdraws(r: Trace, pid: int, s: int)
    requires Inv(r.k) && Fair(r, s)
    ensures Only(AfterKill(r.entered, r.k, pid), s) == Only(r.granted, s) + Remaining(r.k, pid, s)
  {
    var k := r.k;
    NotInBoth(k, pid);
    if CanKill(k, pid) {
      if pid in k.wait {
        var n := IndexOf(k.wait, pid);
        Parted(k, n, s);
        hide Inv, Waiters, Removed, Only, Withdrawn, IndexOf, Killed, Disjoint;
        Withdraws(r.entered, k.table[pid], pid, s, Only(r.granted, s), Waiters(k.wait[..n], k.table, s),
                  Waiters(k.wait[n + 1..], k.table, s));
      } else {
        WaitersAmong(k.wait, k.table, s);
        RemovedAbsent(Waiters(k.wait, k.table, s), pid);
      }
    }
  }

  /** A kill keeps the order of service exactly if it is orderly. */
  lemma KillFair(r: Trace, pid: int, s: int)
    requires Inv(r.k) && Fair(r, s)
    ensures Fair(Advance(r, Kill(pid)), s) <==> Orderly(r.k, pid, s)
  {
    KillWithdraws(r, pid, s);
    KillKeepsOrder(r.k, pid, s);
    AdvanceKill(r, pid);
    var r' := Advance(r, Kill(pid));
    hide Inv, Waiters, Only, Next, Orderly, Remaining, Advance, AfterKill;
    Prefixed(Only(r.granted, s), Remaining(r.k, pid, s), Waiters(r'.k.wait, r'.k.table, s));
  }

  lemma Prefixed(a: seq<int>, b: seq<int>, c: seq<int>)
    ensures a + b == a + c <==> b == c
  {
    if a + b == a + c {
      assert b == (a + b)[|a|..] && c == (a + c)[|a|..];
    }
  }

  /** The order of service at semaphore `s` is kept by every step but a kill that is not orderly. */
  lemma FairKept(r: Trace, step: Step, s: int)
    requires Inv(r.k) && Allowed(r, step) && Fair(r, s)
    ensures Fair(Advance(r, step), s) <==> (step.Kill? ==> Orderly(r.k, step.pid, s))
  {
    hide Only, Waiters, Dispatch, Orderly, Withdrawn;
    var k := r.k;
    match step {
      case Wait(e) => WaitFair(r, e, s);
      case WaitCheck(outside) => PassFair(r, outside, s);
      case Tick => DispatchWaits(if k.running == 0 then k else k.(ready := k.ready + [k.running]));
      case Exit => DispatchWaits(k.(notask := k.notask + [k.running]));
      case Kill(pid) => KillFair(r, pid, s);
      case _ =>
    }
  }

  // ---------- What the steps do, told on the states before and after ----------

  /** Waiting task number `i` is woken by a pass. */
  ghost predicate Wakes(k: State, outside: set<int>, i: int)
    requires WaitsWell(k) && 0 <= i < |k.wait|
  {
    assert k.wait[i] in k.wait && EventOk(k, k.wait[i]);
    match k.table[k.wait[i]]
    case WOutside(p) => p in outside
    case WSemaphoro(s) => k.sems[s] != ROSSO && forall l | 0 <= l < i :: !WaitsFor(k, l, s)
  }

  ghost predicate WaitsFor(k: State, l: int, s: int) {
    0 <= l < |k.wait| && 0 <= k.wait[l] < |k.table| && k.table[k.wait[l]] == WSemaphoro(s)
  }

  ghost predicate InOrder(k: State, s: seq<int>, i: int, j: int)
    requires 0 <= i < |k.wait| && 0 <= j < |k.wait|
  {
    exists a, b :: 0 <= a < b < |s| && s[a] == k.wait[i] && s[b] == k.wait[j]
  }

  // After the first `n` waiting tasks have been asked: who was woken and who kept, in which order, what the
  // semaphores are, and what was granted.

  ghost predicate Sorted(k: State, outside: set<int>, o: Pass, n: int)
    requires WaitsWell(k) && 0 <= n <= |k.wait|
  {
    (forall i | 0 <= i < n :: if Wakes(k, outside, i) then k.wait[i] in o.woken else k.wait[i] in o.kept) &&
    (forall x | x in o.woken :: exists i :: 0 <= i < n && k.wait[i] == x && Wakes(k, outside, i)) &&
    (forall x | x in o.kept :: exists i :: 0 <= i < n && k.wait[i] == x && !Wakes(k, outside, i))
  }

  ghost predicate Ordered(k: State, outside: set<int>, o: Pass, n: int)
    requires WaitsWell(k) && 0 <= n <= |k.wait|
  {
    forall i, j | 0 <= i < j < n ::
      (Wakes(k, outside, i) && Wakes(k, outside, j) ==> InOrder(k, o.woken, i, j)) &&
      (!Wakes(k, outside, i) && !Wakes(k, outside, j) ==> InOrder(k, o.kept, i, j))
  }

  ghost predicate Coloured(k: State, o: Pass, n: int)
    requires |o.sems| == |k.sems|
  {
    forall s | 0 <= s < |k.sems| :: o.sems[s] == if exists l :: l < n && WaitsFor(k, l, s) then ROSSO else k.sems[s]
  }

  ghost predicate Granted(k: State, outside: set<int>, o: Pass, n: int)
    requires WaitsWell(k) && 0 <= n <= |k.wait|
  {
    (forall h | h in o.granted ::
       exists i :: 0 <= i < n && h.0 == k.wait[i] && WaitsFor(k, i, h.1) && Wakes(k, outside, i)) &&
    (forall i, s | 0 <= i < n && WaitsFor(k, i, s) && Wakes(k, outside, i) :: (k.wait[i], s) in o.granted)
  }

  lemma PassedAsk(k: State, outside: set<int>, o: Pass, i: int)
    requires WaitsWell(k) && 0 <= i < |k.wait| && |o.sems| == |k.sems| && Coloured(k, o, i)
    ensures k.wait[i] in k.wait && EventOk(k, k.wait[i])
    ensures var pid := k.wait[i];
            var o', e := Asked(o, pid, k.table[pid], outside), k.table[pid];
            if Wakes(k, outside, i) then
              o'.woken == o.woken + [pid] && o'.kept == o.kept &&
              o'.granted == (if e.WSemaphoro? then o.granted + [(pid, e.sem)] else o.granted) &&
              o'.sems == (if e.WSemaphoro? then o.sems[e.sem := ROSSO] else o.sems)
            else
              o'.kept == o.kept + [pid] && o'.woken == o.woken && o'.granted == o.granted && o'.sems == o.sems &&
              (e.WSemaphoro? ==> o.sems[e.sem] == ROSSO)
  {
    assert k.wait[i] in k.wait && EventOk(k, k.wait[i]);
    var e := k.table[k.wait[i]];
    if e.WSemaphoro? {
      assert o.sems[e.sem] == if exists l :: l < i && WaitsFor(k, l, e.sem) then ROSSO else k.sems[e.sem];
    }
  }

  lemma Appended(k: State, s: seq<int>, x: int, i: int, j: int)
    requires 0 <= i < |k.wait| && 0 <= j < |k.wait|
    ensures InOrder(k, s, i, j) ==> InOrder(k, s + [x], i, j)
    ensures k.wait[i] in s && k.wait[j] == x ==> InOrder(k, s + [x], i, j)
  {
    var t := s + [x];
    if InOrder(k, s, i, j) {
      var a, b :| 0 <= a < b < |s| && s[a] == k.wait[i] && s[b] == k.wait[j];
      assert t[a] == k.wait[i] && t[b] == k.wait[j];
    }
    if k.wait[i] in s && k.wait[j] == x {
      var a :| 0 <= a < |s| && s[a] == k.wait[i];
      assert t[a] == k.wait[i] && t[|s|] == k.wait[j];
    }
  }

  lemma PassedSems(k: State, outside: set<int>, o: Pass, i: int, s: int)
    requires WaitsWell(k) && 0 <= i < |k.wait| && |o.sems| == |k.sems| && 0 <= s < |k.sems|
    requires Coloured(k, o, i)
    ensures k.wait[i] in k.wait && EventOk(k, k.wait[i])
    ensures Asked(o, k.wait[i], k.table[k.wait[i]], outside).sems[s] ==
            if exists l :: l < i + 1 && WaitsFor(k, l, s) then ROSSO else k.sems[s]
  {
    PassedAsk(k, outside, o, i);
    assert o.sems[s] == if exists l :: l < i && WaitsFor(k, l, s) then ROSSO else k.sems[s];
    hide Wakes, WaitsWell, Coloured;
    if exists l :: l < i && WaitsFor(k, l, s) {
      var l :| l < i && WaitsFor(k, l, s);
      assert l < i + 1;
    }
    if WaitsFor(k, i, s) { assert i < i + 1; }
  }

  lemma PassedOrder(k: State, outside: set<int>, o: Pass, i: int, a: int, b: int)
    requires WaitsWell(k) && 0 <= a < b <= i < |k.wait| && |o.sems| == |k.sems|
    requires Sorted(k, outside, o, i) && Ordered(k, outside, o, i) && Coloured(k, o, i)
    ensures k.wait[i] in k.wait && EventOk(k, k.wait[i])
    ensures var o' := Asked(o, k.wait[i], k.table[k.wait[i]], outside);
            (Wakes(k, outside, a) && Wakes(k, outside, b) ==> InOrder(k, o'.woken, a, b)) &&
            (!Wakes(k, outside, a) && !Wakes(k, outside, b) ==> InOrder(k, o'.kept, a, b))
  {
    PassedAsk(k, outside, o, i);
    Appended(k, o.woken, k.wait[i], a, b);
    Appended(k, o.kept, k.wait[i], a, b);
    hide Wakes, WaitsWell, InOrder, Asked;
  }

  lemma PassedMembers(k: State, outside: set<int>, o: Pass, i: int)
    requires WaitsWell(k) && 0 <= i < |k.wait| && |o.sems| == |k.sems| && Sorted(k, outside, o, i) && Coloured(k, o, i)
    ensures k.wait[i] in k.wait && EventOk(k, k.wait[i])
    ensures Sorted(k, outside, Asked(o, k.wait[i], k.table[k.wait[i]], outside), i + 1)
  {
    PassedAsk(k, outside, o, i);
    var o' := Asked(o, k.wait[i], k.table[k.wait[i]], outside);
    hide Wakes, WaitsWell, InOrder, Asked;
    forall x | x in o'.woken ensures exists l :: 0 <= l < i + 1 && k.wait[l] == x && Wakes(k, outside, l) {
      if x in o.woken {
        var l :| 0 <= l < i && k.wait[l] == x && Wakes(k, outside, l);
      }
    }
    forall x | x in o'.kept ensures exists l :: 0 <= l < i + 1 && k.wait[l] == x && !Wakes(k, outside, l) {
      if x in o.kept {
        var l :| 0 <= l < i && k.wait[l] == x && !Wakes(k, outside, l);
      }
    }
  }

  lemma PassedGrants(k: State, outside: set<int>, o: Pass, i: int)
    requires WaitsWell(k) && 0 <= i < |k.wait| && |o.sems| == |k.sems| && Granted(k, outside, o, i) && Coloured(k, o, i)
    ensures k.wait[i] in k.wait && EventOk(k, k.wait[i])
    ensures Granted(k, outside, Asked(o, k.wait[i], k.table[k.wait[i]], outside), i + 1)
  {
    PassedAsk(k, outside, o, i);
    var o' := Asked(o, k.wait[i], k.table[k.wait[i]], outside);
    hide Wakes, WaitsWell, InOrder, Asked;
    forall h | h in o'.granted
      ensures exists l :: 0 <= l < i + 1 && h.0 == k.wait[l] && WaitsFor(k, l, h.1) && Wakes(k, outside, l)
    {
      if h in o.granted {
        var l :| 0 <= l < i && h.0 == k.wait[l] && WaitsFor(k, l, h.1) && Wakes(k, outside, l);
      } else {
        assert WaitsFor(k, i, h.1);
      }
    }
  }

  lemma PassedAll(k: State, outside: set<int>, o: Pass, i: int)
    requires WaitsWell(k) && 0 <= i < |k.wait| && |o.sems| == |k.sems|
    requires Sorted(k, outside, o, i) && Ordered(k, outside, o, i) && Coloured(k, o, i) && Granted(k, outside, o, i)
    ensures k.wait[i] in k.wait && EventOk(k, k.wait[i])
    ensures var o' := Asked(o, k.wait[i], k.table[k.wait[i]], outside);
            Sorted(k, outside, o', i + 1) && Ordered(k, outside, o', i + 1) && Coloured(k, o', i + 1) &&
            Granted(k, outside, o', i + 1)
  {
    PassedMembers(k, outside, o, i);
    PassedGrants(k, outside, o, i);
    var o' := Asked(o, k.wait[i], k.table[k.wait[i]], outside);
    forall a, b | 0 <= a < b < i + 1
      ensures (Wakes(k, outside, a) && Wakes(k, outside, b) ==> InOrder(k, o'.woken, a, b)) &&
              (!Wakes(k, outside, a) && !Wakes(k, outside, b) ==> InOrder(k, o'.kept, a, b))
    {
      hide Wakes, WaitsWell, InOrder, Asked, Sorted, Granted, Coloured, Ordered;
      PassedOrder(k, outside, o, i, a, b);
    }
    forall s | 0 <= s < |k.sems|
      ensures o'.sems[s] == if exists l :: l < i + 1 && WaitsFor(k, l, s) then ROSSO else k.sems[s]
    {
      hide Wakes, WaitsWell, InOrder, Asked, Sorted, Granted, Coloured, Ordered;
      PassedSems(k, outside, o, i, s);
    }
    hide Wakes, WaitsWell, InOrder, Asked, Sorted, Granted;
  }

  lemma {:induction false} AllPassed(k: State, outside: set<int>, n: nat)
    requires WaitsWell(k) && n <= |k.wait|
    ensures var o := Checked(k, outside, n);
            Sorted(k, outside, o, n) && Ordered(k, outside, o, n) && Coloured(k, o, n) && Granted(k, outside, o, n)
  {
    hide Wakes, InOrder, Asked, Checked, Sorted, Ordered, Coloured, Granted, WaitsWell;
    if n == 0 {
      NonePassed(k, outside);
    } else {
      AllPassed(k, outside, n - 1);
      CheckedAsk(k, outside, n - 1);
      PassedAll(k, outside, Checked(k, outside, n - 1), n - 1);
    }
  }

  lemma NonePassed(k: State, outside: set<int>)
    requires WaitsWell(k)
    ensures var o := Checked(k, outside, 0);
            Sorted(k, outside, o, 0) && Ordered(k, outside, o, 0) && Coloured(k, o, 0) && Granted(k, outside, o, 0)
  {
    assert Checked(k, outside, 0) == Pass([], [], k.sems, []);
    assert forall l, s | l < 0 :: !WaitsFor(k, l, s);
    hide Checked, Wakes, WaitsWell, InOrder;
  }

  lemma CheckedAsk(k: State, outside: set<int>, i: nat)
    requires WaitsWell(k) && i < |k.wait|
    ensures k.wait[i] in k.wait && EventOk(k, k.wait[i])
    ensures Checked(k, outside, i + 1) == Asked(Checked(k, outside, i), k.wait[i], k.table[k.wait[i]], outside)
  {
    assert k.wait[i] in k.wait;
    hide Asked;
  }

  /** When waiting task number `i` is woken, spelt out. */
  lemma WakesWhen(k: State, outside: set<int>, i: int)
    requires Inv(k) && 0 <= i < |k.wait|
    ensures 0 <= k.wait[i] < |k.table|
    ensures match k.table[k.wait[i]]
            case WOutside(p) => Wakes(k, outside, i) <==> p in outside
            case WSemaphoro(s) =>
              0 <= s < |k.sems| && WaitsFor(k, i, s) &&
              (Wakes(k, outside, i) <==>
                 k.sems[s] != 0 &&
                 forall l | 0 <= l < i && 0 <= k.wait[l] < |k.table| :: k.table[k.wait[l]] != WSemaphoro(s))
  {
    assert k.wait[i] in k.wait && EventOk(k, k.wait[i]);
    var e := k.table[k.wait[i]];
    if e.WSemaphoro? {
      forall l | 0 <= l < i ensures WaitsFor(k, l, e.sem) <==>
                                    0 <= k.wait[l] < |k.table| && k.table[k.wait[l]] == WSemaphoro(e.sem) {
      }
    }
  }

  lemma WokenParts(k: State, outside: set<int>)
    requires Inv(k)
    ensures WaitsWell(k)
    ensures var o, k' := Checked(k, outside, |k.wait|), Next(k, WaitCheck(outside));
            k' == k.(ready := k.ready + o.woken, wait := o.kept, sems := o.sems) && |o.sems| == |k.sems| &&
            Sorted(k, outside, o, |k.wait|) && Ordered(k, outside, o, |k.wait|) && Coloured(k, o, |k.wait|) &&
            Granted(k, outside, o, |k.wait|)
  {
    AllPassed(k, outside, |k.wait|);
    hide Wakes, Checked, InOrder, Population, Everyone, Sorted, Ordered, Coloured, Granted;
  }

  lemma WokenAt(k: State, outside: set<int>, i: int)
    requires Inv(k) && 0 <= i < |k.wait|
    ensures WaitsWell(k)
    ensures var k' := Next(k, WaitCheck(outside));
            (k.wait[i] in k'.ready <==> Wakes(k, outside, i)) && (k.wait[i] in k'.wait <==> !Wakes(k, outside, i)) &&
            (k.wait[i] in k'.ready <==> k.wait[i] in Checked(k, outside, |k.wait|).woken)
  {
    WokenParts(k, outside);
    NotInBoth(k, k.wait[i]);
    WaitOnce(k, i);
    assert k.wait[i] in k.wait;
    hide Wakes, Checked, Inv, Next;
  }

  lemma WaitOnce(k: State, i: int)
    requires Inv(k) && 0 <= i < |k.wait|
    ensures forall j | 0 <= j < |k.wait| && j != i :: k.wait[j] != k.wait[i]
  {
    WaitDistinct(k, i);
    hide Inv;
    forall j | 0 <= j < i ensures k.wait[j] in k.wait[..i] {
      assert k.wait[..i][j] == k.wait[j];
    }
    forall j | i < j < |k.wait| ensures k.wait[j] in k.wait[i + 1..] {
      assert k.wait[i + 1..][j - i - 1] == k.wait[j];
    }
  }

  /** What a pass does: a task that waits for an outside condition becomes ready exactly if the condition holds;
      of the tasks that wait for a semaphore the first one becomes ready, exactly if the semaphore is not red, and
      it is red afterwards; all others wait on, and nothing else changes. */
  lemma WhoIsWoken(k: State, outside: set<int>)
    requires Inv(k)
    ensures var k' := Next(k, WaitCheck(outside));
            k'.notask == k.notask && k'.running == k.running && k'.table == k.table && |k'.sems| == |k.sems| &&
            (forall i | 0 <= i < |k.wait| ::
               var pid := k.wait[i];
               0 <= pid < |k.table| && (pid in k'.ready <==> pid !in k'.wait) &&
               match k.table[pid]
               case WOutside(p) => pid in k'.ready <==> p in outside
               case WSemaphoro(s) =>
                 0 <= s < |k.sems| && k'.sems[s] == 0 &&
                 (pid in k'.ready <==>
                    k.sems[s] != 0 &&
                    forall l | 0 <= l < i && 0 <= k.wait[l] < |k.table| :: k.table[k.wait[l]] != WSemaphoro(s))) &&
            (forall s | 0 <= s < |k.sems| && k'.sems[s] != k.sems[s] ::
               exists i :: 0 <= i < |k.wait| && 0 <= k.wait[i] < |k.table| && k.table[k.wait[i]] == WSemaphoro(s))
  {
    WokenParts(k, outside);
    var k' := Next(k, WaitCheck(outside));
    hide Checked, Inv, Next, Sorted, Ordered, Granted, Wakes, WaitsWell;
    forall i | 0 <= i < |k.wait|
      ensures var pid := k.wait[i];
              0 <= pid < |k.table| && (pid in k'.ready <==> pid !in k'.wait) &&
              match k.table[pid]
              case WOutside(p) => pid in k'.ready <==> p in outside
              case WSemaphoro(s) =>
                0 <= s < |k.sems| && k'.sems[s] == 0 &&
                (pid in k'.ready <==>
                   k.sems[s] != 0 &&
                   forall l | 0 <= l < i && 0 <= k.wait[l] < |k.table| :: k.table[k.wait[l]] != WSemaphoro(s))
    {
      WokenAt(k, outside, i);
      WakesWhen(k, outside, i);
    }
    forall s | 0 <= s < |k.sems| && k'.sems[s] != k.sems[s]
      ensures exists i :: 0 <= i < |k.wait| && 0 <= k.wait[i] < |k.table| && k.table[k.wait[i]] == WSemaphoro(s)
    {
      var l :| l < |k.wait| && WaitsFor(k, l, s);
    }
  }

  lemma PairInOrder(k: State, outside: set<int>, i: int, j: int)
    requires Inv(k) && 0 <= i < j < |k.wait|
    requires var k' := Next(k, WaitCheck(outside)); k.wait[i] in k'.wait <==> k.wait[j] in k'.wait
    ensures var k' := Next(k, WaitCheck(outside)); InOrder(k, if k.wait[i] in k'.wait then k'.wait else k'.ready, i, j)
  {
    WokenParts(k, outside);
    WokenAt(k, outside, i);
    WokenAt(k, outside, j);
    var o := Checked(k, outside, |k.wait|);
    hide Checked, Inv, Next, Sorted, Coloured, Granted, Wakes, WaitsWell, InOrder;
    Prepended(k, k.ready, o.woken, i, j);
  }

  lemma Prepended(k: State, r: seq<int>, s: seq<int>, i: int, j: int)
    requires 0 <= i < |k.wait| && 0 <= j < |k.wait|
    ensures InOrder(k, s, i, j) ==> InOrder(k, r + s, i, j)
  {
    if InOrder(k, s, i, j) {
      var a, b :| 0 <= a < b < |s| && s[a] == k.wait[i] && s[b] == k.wait[j];
      assert (r + s)[|r| + a] == k.wait[i] && (r + s)[|r| + b] == k.wait[j];
    }
  }

  /** Those woken come behind all that were ready, and of two waiting tasks that are both woken or both kept
      the one that was first stays first. */
  lemma PassInOrder(k: State, outside: set<int>, i: int, j: int)
    requires Inv(k) && 0 <= i < j < |k.wait|
    ensures var k' := Next(k, WaitCheck(outside));
            |k.ready| <= |k'.ready| && k'.ready[..|k.ready|] == k.ready &&
            ((k.wait[i] in k'.wait <==> k.wait[j] in k'.wait) ==>
               var s := if k.wait[i] in k'.wait then k'.wait else k'.ready;
               exists a, b :: 0 <= a < b < |s| && s[a] == k.wait[i] && s[b] == k.wait[j])
  {
    WokenParts(k, outside);
    var k' := Next(k, WaitCheck(outside));
    hide Checked, Inv, Next, Sorted, Ordered, Coloured, Granted, WaitsWell;
    if k.wait[i] in k'.wait <==> k.wait[j] in k'.wait {
      PairInOrder(k, outside, i, j);
    }
  }

  /** A released semaphore is granted by the next pass to the first task that waits for it. */
  lemma ReleasedIsGranted(k: State, s: int, outside: set<int>, i: int)
    requires Inv(k) && 0 <= s < |k.sems| && 0 <= i < |k.wait|
    requires forall l | 0 <= l <= i :: 0 <= k.wait[l] < |k.table| && (k.table[k.wait[l]] == WSemaphoro(s) <==> l == i)
    ensures var k1 := Next(k, Up(s));
            k1 == k.(sems := k1.sems) && |k1.sems| == |k.sems| && Inv(k1) && k1.sems[s] != 0 &&
            (forall l | 0 <= l < |k.sems| && l != s :: k1.sems[l] == k.sems[l]) &&
            k.wait[i] in Next(k1, WaitCheck(outside)).ready
  {
    StepKeeps(k, Up(s));
    var k1 := Next(k, Up(s));
    assert k1.sems[s] != 0 && k1 == k.(sems := k1.sems);
    hide Inv, Next;
    WhoIsWoken(k1, outside);
  }

  /** `n` ticks in a row. */
  ghost function Ticks(k: State, n: nat): State
    requires Inv(k)
    decreases n
  {
    if n == 0 then k
    else
      StepKeeps(k, Tick);
      Ticks(Next(k, Tick), n - 1)
  }

  lemma TickRotates(k: State)
    requires Inv(k) && k.ready != []
    ensures var k' := Next(k, Tick);
            Inv(k') && k'.running == k.ready[0] && |k'.ready| >= |k.ready| - 1 &&
            k'.ready[..|k.ready| - 1] == k.ready[1..]
  {
    StepKeeps(k, Tick);
    hide Inv;
    var r := if k.running == 0 then k.ready else k.ready + [k.running];
    assert r[0] == k.ready[0] && r[1..][..|k.ready| - 1] == k.ready[1..];
    assert Next(k, Tick) == Dispatch(k.(ready := r));
  }

  /** Round robin: the task at place `n` of the ready queue runs after n + 1 ticks. */
  lemma {:induction false} RoundRobin(k: State, n: nat)
    requires Inv(k) && n < |k.ready|
    ensures Ticks(k, n + 1).running == k.ready[n]
    decreases n
  {
    TickRotates(k);
    var k' := Next(k, Tick);
    hide Inv, Next;
    if n == 0 {
      assert Ticks(k, 1) == Ticks(k', 0);
    } else {
      assert k'.ready[n - 1] == k'.ready[..|k.ready| - 1][n - 1] == k.ready[1..][n - 1];
      RoundRobin(k', n - 1);
    }
  }

  /** The running task comes to the end of the ready queue, of the wait queue, or of the free pids, and the first
      ready task runs; with nobody else ready a tick changes nothing. */
  lemma RunningMoves(k: State, e: Event)
    requires Inv(k) && k.running > 0 && (e.WSemaphoro? ==> 0 <= e.sem < |k.sems|)
    ensures var t := Next(k, Tick);
            [t.running] + t.ready == k.ready + [k.running] && t.wait == k.wait && t.notask == k.notask &&
            t.table == k.table && t.sems == k.sems
    ensures var w := Next(k, Wait(e));
            (if k.ready == [] then w.running == 0 && w.ready == [] else [w.running] + w.ready == k.ready) &&
            w.wait == k.wait + [k.running] && w.notask == k.notask && k.running < |k.table| &&
            w.table == k.table[k.running := e] && w.sems == k.sems
    ensures var x := Next(k, Exit);
            (if k.ready == [] then x.running == 0 && x.ready == [] else [x.running] + x.ready == k.ready) &&
            x.wait == k.wait && x.notask == k.notask + [k.running] && x.table == k.table && x.sems == k.sems
  {
    TableSize(k);
    hide Inv;
    var r := k.ready + [k.running];
    assert [r[0]] + r[1..] == r;
    if k.ready != [] { assert [k.ready[0]] + k.ready[1..] == k.ready; }
  }

  /** A fork or an exec that succeeds makes the first free pid the last ready one; a fork without memory makes it
      the last free one; and nothing else ever changes. */
  lemma ChildIsBorn(k: State, step: Step)
    requires Inv(k) && (step.Fork? || step.Exec?)
    ensures var k' := Next(k, step);
            k'.wait == k.wait && k'.running == k.running && k'.table == k.table && k'.sems == k.sems &&
            if k.notask == [] || step == Exec(false) then k' == k
            else if step == Fork(false) then k'.ready == k.ready && k'.notask == k.notask[1..] + [k.notask[0]]
            else k'.ready == k.ready + [k.notask[0]] && k'.notask == k.notask[1..]
  {
    hide Inv;
  }

  /** A kill frees exactly a ready or waiting pid of at least 2 and leaves all others where they are. */
  lemma WhoIsKilled(k: State, pid: int)
    requires Inv(k)
    ensures var k', found := Next(k, Kill(pid)), pid >= 2 && (pid in k.ready || pid in k.wait);
            k'.running == k.running && k'.table == k.table && k'.sems == k.sems &&
            k'.notask == (if found then k.notask + [pid] else k.notask) &&
            (found ==> pid !in k'.ready && pid !in k'.wait) &&
            (!found ==> k' == k) &&
            forall x | x != pid :: (x in k'.ready <==> x in k.ready) && (x in k'.wait <==> x in k.wait)
  {
    RunningIsApart(k);
    NotInBoth(k, pid);
    StepKeeps(k, Kill(pid));
    var k' := Next(k, Kill(pid));
    if pid in k.ready { KilledMembers(k.ready, pid); }
    if pid in k.wait { KilledMembers(k.wait, pid); }
    OnePlaceEach(k', pid);
    hide Inv, Population, IndexOf, Killed;
  }

  lemma RunningIsApart(k: State)
    requires Inv(k)
    ensures k.running !in k.ready && k.running !in k.wait
  {
    Room(k);
    OnePlaceEach(k, k.running);
  }

  lemma KilledMembers(queue: seq<int>, pid: int)
    requires pid in queue
    ensures forall x | x != pid :: x in Killed(queue, pid, IndexOf(queue, pid)) <==> x in queue
  {
    var n := IndexOf(queue, pid);
    assert queue == queue[..n] + [pid] + queue[n + 1..];
  }

  /** The history is what happened: a pass grants a semaphore exactly to those waiting for it who become ready, and
      makes them its holders; a wait for a semaphore is entered; an exit and a kill end all holdings of the pid. */
  lemma HistoryIsTrue(r: Trace, step: Step, pid: int, s: int)
    requires Inv(r.k) && Allowed(r, step)
    ensures var r' := Advance(r, step);
            r'.k == Next(r.k, step) && (step.Wait? || step.Kill? || r'.entered == r.entered) &&
            (step.Wait? ==>
               r'.entered ==
               if step.event.WSemaphoro? then r.entered + [(r.k.running, step.event.sem)] else r.entered) &&
            (if step.WaitCheck? then
               |r'.granted| >= |r.granted| && r'.granted[..|r.granted|] == r.granted &&
               ((pid, s) in r'.granted[|r.granted|..] <==>
                  pid in r.k.wait && pid in r'.k.ready && 0 <= pid < |r.k.table| && r.k.table[pid] == WSemaphoro(s)) &&
               ((pid, s) in r'.holders <==> (pid, s) in r.holders || (pid, s) in r'.granted[|r.granted|..])
             else
               r'.granted == r.granted &&
               ((pid, s) in r'.holders <==>
                  (pid, s) in r.holders && !(step.Exit? && pid == r.k.running) &&
                  !(step.Kill? && pid == step.pid && pid >= 2 && (pid in r.k.ready || pid in r.k.wait)) &&
                  !(step.Up? && pid == r.k.running && s == step.sem)))
  {
    RunningIsApart(r.k);
    if step.WaitCheck? {
      GrantedAre(r.k, step.outside, pid, s);
      var o := Checked(r.k, step.outside, |r.k.wait|);
      assert (r.granted + o.granted)[|r.granted|..] == o.granted;
      hide Inv, Next, Checked;
    } else {
      hide Inv, Next;
    }
  }

  lemma GrantedAre(k: State, outside: set<int>, pid: int, s: int)
    requires Inv(k)
    ensures WaitsWell(k)
    ensures (pid, s) in Checked(k, outside, |k.wait|).granted <==>
            pid in k.wait && pid in Next(k, WaitCheck(outside)).ready && 0 <= pid < |k.table| &&
            k.table[pid] == WSemaphoro(s)
  {
    WokenParts(k, outside);
    var o := Checked(k, outside, |k.wait|);
    hide Checked, Inv, Next, Sorted, Ordered, Coloured, Wakes, WaitsWell;
    if (pid, s) in o.granted {
      var i :| 0 <= i < |k.wait| && (pid, s).0 == k.wait[i] && WaitsFor(k, i, (pid, s).1) && Wakes(k, outside, i);
      WokenAt(k, outside, i);
    }
    if pid in k.wait {
      var i :| 0 <= i < |k.wait| && k.wait[i] == pid;
      WokenAt(k, outside, i);
      assert 0 <= pid < |k.table| && k.table[pid] == WSemaphoro(s) ==> WaitsFor(k, i, s);
    }
  }

  // ---------- Runs ----------

  lemma KeepsInv(r: Trace, step: Step)
    requires Inv(r.k) && Allowed(r, step)
    ensures Inv(Advance(r, step).k)
  {
    StepKeeps(r.k, step);
    hide Inv, Next;
  }

  /** All steps may be taken in turn, and only holders release. */
  ghost predicate AllowedRun(r: Trace, steps: seq<Step>)
    requires Inv(r.k)
    decreases |steps|
  {
    steps == [] || (Allowed(r, steps[0]) && (KeepsInv(r, steps[0]); AllowedRun(Advance(r, steps[0]), steps[1..])))
  }

  ghost function After(r: Trace, steps: seq<Step>): Trace
    requires Inv(r.k) && AllowedRun(r, steps)
    decreases |steps|
  {
    if steps == [] then r
    else
      KeepsInv(r, steps[0]);
      After(Advance(r, steps[0]), steps[1..])
  }

  /** All kills of the run are orderly as far as semaphore `s` goes. */
  ghost predicate OrderlyRun(r: Trace, steps: seq<Step>, s: int)
    requires Inv(r.k) && AllowedRun(r, steps)
    decreases |steps|
  {
    steps == [] ||
    ((steps[0].Kill? ==> Orderly(r.k, steps[0].pid, s)) &&
     (KeepsInv(r, steps[0]); OrderlyRun(Advance(r, steps[0]), steps[1..], s)))
  }

  lemma RunStarts(r: Trace, steps: seq<Step>)
    requires Inv(r.k) && AllowedRun(r, steps) && steps != []
    ensures Allowed(r, steps[0]) && Inv(Advance(r, steps[0]).k) && AllowedRun(Advance(r, steps[0]), steps[1..])
    ensures After(r, steps) == After(Advance(r, steps[0]), steps[1..])
    ensures forall s :: OrderlyRun(r, steps, s) <==>
                        (steps[0].Kill? ==> Orderly(r.k, steps[0].pid, s)) &&
                        OrderlyRun(Advance(r, steps[0]), steps[1..], s)
  {
    KeepsInv(r, steps[0]);
    hide Inv, Allowed, Advance, Orderly;
  }

  /** Safety over all runs: mutual exclusion, and every pid in one place. */
  lemma {:induction false} RunSafe(r: Trace, steps: seq<Step>)
    requires Exclusive(r) && AllowedRun(r, steps)
    ensures Exclusive(After(r, steps))
    decreases |steps|
  {
    if steps != [] {
      RunStarts(r, steps);
      ExclusiveKept(r, steps[0]);
      hide Exclusive, Inv, Allowed, Advance, AllowedRun, After;
      RunSafe(Advance(r, steps[0]), steps[1..]);
    }
  }

  /** Service in the order of arrival over all runs whose kills are orderly. */
  lemma {:induction false} RunFair(r: Trace, steps: seq<Step>, s: int)
    requires Inv(r.k) && AllowedRun(r, steps) && OrderlyRun(r, steps, s) && Fair(r, s)
    ensures Fair(After(r, steps), s)
    decreases |steps|
  {
    if steps != [] {
      RunStarts(r, steps);
      FairKept(r, steps[0], s);
      hide Inv, Allowed, Advance, AllowedRun, OrderlyRun, After, Fair, Orderly;
      RunFair(Advance(r, steps[0]), steps[1..], s);
    }
  }

  lemma {:induction false} NoKills(r: Trace, steps: seq<Step>, s: int)
    requires Inv(r.k) && AllowedRun(r, steps) && forall i | 0 <= i < |steps| :: !steps[i].Kill?
    ensures OrderlyRun(r, steps, s)
    decreases |steps|
  {
    if steps != [] {
      RunStarts(r, steps);
      assert forall i | 0 <= i < |steps[1..]| :: steps[1..][i] == steps[i + 1];
      hide Inv, Allowed, Advance, AllowedRun, OrderlyRun, After, Orderly;
      NoKills(Advance(r, steps[0]), steps[1..], s);
    }
  }

  /** The state `scheduler_init` leaves, with no history. */
  ghost function Boot(table: seq<Event>, sems: seq<int>): (r: Trace)
    requires |table| == MAX_TASK_NUM
    ensures Inv(r.k)
  {
    Trace(State([], AllPids(), [], 0, table, sems), [], [], {})
  }

  lemma BootSafe(table: seq<Event>, sems: seq<int>)
    requires |table| == MAX_TASK_NUM
    ensures Exclusive(Boot(table, sems)) && forall s :: Fair(Boot(table, sems), s)
  {
  }

  /** The same from boot on, spelt out. */
  lemma AllRunsSafe(table: seq<Event>, sems: seq<int>, steps: seq<Step>)
    requires |table| == MAX_TASK_NUM && AllowedRun(Boot(table, sems), steps)
    ensures var r := After(Boot(table, sems), steps);
            (forall h, h' | h in r.holders && h' in r.holders && h.1 == h'.1 :: h == h') &&
            (forall pid ::
               multiset(r.k.ready)[pid] + multiset(r.k.notask)[pid] + multiset(r.k.wait)[pid] + Running(r.k)[pid] ==
               if 1 <= pid < MAX_TASK_NUM then 1 else 0) &&
            (forall s | OrderlyRun(Boot(table, sems), steps, s) :: Fair(r, s)) &&
            ((forall i | 0 <= i < |steps| :: !steps[i].Kill?) ==> forall s :: Fair(r, s))
  {
    BootSafe(table, sems);
    RunSafe(Boot(table, sems), steps);
    var r := After(Boot(table, sems), steps);
    hide Boot, After, Fair, AllowedRun, OrderlyRun, Inv;
    forall s | OrderlyRun(Boot(table, sems), steps, s) ensures Fair(r, s) {
      RunFair(Boot(table, sems), steps, s);
    }
    if forall i | 0 <= i < |steps| :: !steps[i].Kill? {
      forall s ensures Fair(r, s) {
        NoKills(Boot(table, sems), steps, s);
      }
    }
    forall pid
      ensures multiset(r.k.ready)[pid] + multiset(r.k.notask)[pid] + multiset(r.k.wait)[pid] + Running(r.k)[pid] ==
              if 1 <= pid < MAX_TASK_NUM then 1 else 0
    {
      OnePlaceEach(r.k, pid);
    }
  }

  // ---------- A run in which a kill changes the order of service ----------

  /** Four processes are started, and the first three, one after the other, begin to wait for semaphore 0. */
  ghost function StepAt(i: nat): Step {
    if i < 4 then Exec(true) else if i == 4 then Tick else Wait(WSemaphoro(0))
  }

  ghost function StepsFrom(i: nat): seq<Step>
    decreases 8 - i
  {
    if i >= 8 then [] else [StepAt(i)] + StepsFrom(i + 1)
  }

  ghost function TableAt(table: seq<Event>, j: nat): seq<Event>
    requires |table| == MAX_TASK_NUM && j < MAX_TASK_NUM
    ensures |TableAt(table, j)| == MAX_TASK_NUM
  {
    if j <= 1 then table else TableAt(table, j - 1)[j - 1 := WSemaphoro(0)]
  }

  ghost function EnteredAt(j: nat): seq<(int, int)> {
    if j <= 1 then [] else EnteredAt(j - 1) + [(j - 1, 0)]
  }

  /** Where the run is before its step `i`. */
  ghost function Stage(table: seq<Event>, sems: seq<int>, i: nat): Trace
    requires |table| == MAX_TASK_NUM && i <= 8
  {
    var pids := AllPids();
    if i <= 4 then Trace(State(pids[..i], pids[i..], [], 0, table, sems), [], [], {})
    else
      var j := i - 4;
      Trace(State(pids[j..4], pids[4..], pids[..j - 1], j, TableAt(table, j), sems), EnteredAt(j), [], {})
  }

  lemma StageStarts(table: seq<Event>, sems: seq<int>, i: nat)
    requires |table| == MAX_TASK_NUM && |sems| >= 1 && i <= 4 && Inv(Stage(table, sems, i).k)
    ensures Allowed(Stage(table, sems, i), StepAt(i))
    ensures Advance(Stage(table, sems, i), StepAt(i)) == Stage(table, sems, i + 1)
  {
    hide Inv;
    var pids := AllPids();
    if i < 4 {
      assert pids[i..] != [] && pids[i..][0] == i + 1 && pids[i..][1..] == pids[i + 1..];
      assert pids[..i] + [i + 1] == pids[..i + 1];
    } else {
      assert pids[..4][0] == 1 && pids[..4][1..] == pids[1..4] && pids[..0] == [];
    }
  }

  lemma StageWaits(table: seq<Event>, sems: seq<int>, i: nat)
    requires |table| == MAX_TASK_NUM && |sems| >= 1 && 4 < i < 8 && Inv(Stage(table, sems, i).k)
    ensures Allowed(Stage(table, sems, i), StepAt(i))
    ensures Advance(Stage(table, sems, i), StepAt(i)) == Stage(table, sems, i + 1)
  {
    var pids, j := AllPids(), i - 4;
    hide Inv, AllPids;
    assert pids[j..4] != [] && pids[j..4][0] == j + 1 && pids[j..4][1..] == pids[j + 1..4];
    assert pids[..j - 1] + [j] == pids[..j];
  }

  lemma {:induction false} StageInv(table: seq<Event>, sems: seq<int>, i: nat)
    requires |table| == MAX_TASK_NUM && |sems| >= 1 && i <= 8
    ensures Inv(Stage(table, sems, i).k)
    ensures i < 8 ==> Allowed(Stage(table, sems, i), StepAt(i)) &&
                      Advance(Stage(table, sems, i), StepAt(i)) == Stage(table, sems, i + 1)
  {
    if i == 0 {
      StageBoots(table, sems);
    } else {
      StageInv(table, sems, i - 1);
      hide Inv, Stage, Advance, Allowed, StepAt;
      KeepsInv(Stage(table, sems, i - 1), StepAt(i - 1));
    }
    hide Inv, Stage, Advance, Allowed, StepAt;
    if i <= 4 { StageStarts(table, sems, i); } else if i < 8 { StageWaits(table, sems, i); }
  }

  lemma StageBoots(table: seq<Event>, sems: seq<int>)
    requires |table| == MAX_TASK_NUM
    ensures Stage(table, sems, 0) == Boot(table, sems) && Inv(Stage(table, sems, 0).k)
  {
    var r := Boot(table, sems);
    hide Inv;
    assert AllPids()[..0] == [] && AllPids()[0..] == AllPids();
    assert Stage(table, sems, 0) == r;
  }

  lemma {:induction false} RunFrom(table: seq<Event>, sems: seq<int>, i: nat)
    requires |table| == MAX_TASK_NUM && |sems| >= 1 && i <= 8
    ensures Inv(Stage(table, sems, i).k) && AllowedRun(Stage(table, sems, i), StepsFrom(i))
    ensures After(Stage(table, sems, i), StepsFrom(i)) == Stage(table, sems, 8)
    decreases 8 - i
  {
    hide Inv, Stage, Advance, Allowed, StepAt;
    StageInv(table, sems, i);
    if i < 8 {
      RunFrom(table, sems, i + 1);
      var steps := StepsFrom(i);
      assert steps[0] == StepAt(i) && steps[1..] == StepsFrom(i + 1);
    }
  }

  lemma Queued(table: seq<Event>, sems: seq<int>)
    requires |table| == MAX_TASK_NUM
    ensures var r := Stage(table, sems, 8);
            r.k.wait == [1, 2, 3] && r.k.running == 4 && r.k.ready == [] && r.k.sems == sems &&
            |r.k.table| == MAX_TASK_NUM &&
            r.k.table[1] == r.k.table[2] == r.k.table[3] == WSemaphoro(0) &&
            r.entered == [(1, 0), (2, 0), (3, 0)] && r.granted == [] && r.holders == {}
  {
    var pids := AllPids();
    assert pids[..3] == [1, 2, 3];
    hide AllPids;
    assert TableAt(table, 3) == TableAt(table, 2)[2 := WSemaphoro(0)] && TableAt(table, 2) == table[1 := WSemaphoro(0)];
    assert EnteredAt(3) == EnteredAt(2) + [(2, 0)] && EnteredAt(2) == [] + [(1, 0)];
  }

  lemma SecondOf()
    ensures IndexOf([1, 2, 3], 2) == 1 && Killed([1, 2, 3], 2, 1) == [3, 1]
    ensures Withdrawn([(1, 0), (2, 0), (3, 0)], (2, 0)) == [(1, 0), (3, 0)]
  {
    assert [1, 2, 3][1..] == [2, 3];
    var log := [(1, 0), (2, 0), (3, 0)];
    assert log[..2] == [(1, 0), (2, 0)] && log[..2][..1] == [(1, 0)];
    assert Withdrawn(log[..2], (2, 0)) == [(1, 0)];
  }

  lemma BothWait(table: seq<Event>)
    requires |table| == MAX_TASK_NUM && table[1] == table[3] == WSemaphoro(0)
    ensures Waiters([1, 2, 3][..1], table, 0) == [1] && Waiters([1, 2, 3][2..], table, 0) == [3]
  {
    assert [1, 2, 3][..1] == [] + [1] && [1, 2, 3][2..] == [] + [3];
    WaitersSnoc([], table, 0, 1);
    WaitersSnoc([], table, 0, 3);
  }

  /** With 1, 2 and 3 waiting in this order and 2 killed, the queue is 3, 1. */
  lemma SecondKilled(r: Trace)
    requires Inv(r.k) && r.k.wait == [1, 2, 3] && r.k.running == 4 && |r.k.table| == MAX_TASK_NUM
    requires r.k.table[1] == r.k.table[2] == r.k.table[3] == WSemaphoro(0) && r.entered == [(1, 0), (2, 0), (3, 0)]
    ensures var r1 := Advance(r, Kill(2));
            r1.k.wait == [3, 1] && r1.k.table == r.k.table && r1.k.sems == r.k.sems && r1.entered == [(1, 0), (3, 0)] &&
            r1.granted == r.granted && !Orderly(r.k, 2, 0)
  {
    hide Inv, Next, Advance, IndexOf, Waiters, Killed, Withdrawn;
    var k := r.k;
    KilledWait(k, 2);
    AdvanceKill(r, 2);
    SemsAfter(k, Kill(2));
    SecondOf();
    BothWait(k.table);
    assert 2 in k.wait && CanKill(k, 2);
  }

  /** The pass over the queue 3, 1 grants the semaphore to 3. */
  lemma ThirdGranted(r: Trace)
    requires Inv(r.k) && r.k.wait == [3, 1] && |r.k.table| == MAX_TASK_NUM && |r.k.sems| >= 1
    requires r.k.table[1] == r.k.table[3] == WSemaphoro(0) && r.k.sems[0] != ROSSO
    ensures var r' := Advance(r, WaitCheck({}));
            r'.k.wait == [1] && r'.granted == r.granted + [(3, 0)] && r'.entered == r.entered
  {
    var k := r.k;
    assert Checked(k, {}, 0) == Pass([], [], k.sems, []);
    assert Checked(k, {}, 1) == Asked(Checked(k, {}, 0), 3, k.table[3], {});
    assert Checked(k, {}, 2) == Asked(Checked(k, {}, 1), 1, k.table[1], {});
  }

  /** A kill can change the order of service: the run leaves 1, 2 and 3 waiting in this order for a green
      semaphore; 2 is killed, 3 is granted it, and 1 waits on. */
  lemma KillOvertakes(table: seq<Event>, sems: seq<int>)
    requires |table| == MAX_TASK_NUM && |sems| >= 1 && sems[0] != ROSSO
    ensures AllowedRun(Boot(table, sems), StepsFrom(0))
    ensures var r := After(Boot(table, sems), StepsFrom(0));
            r.entered == [(1, 0), (2, 0), (3, 0)] && r.k.wait == [1, 2, 3] &&
            Inv(r.k) && Allowed(r, Kill(2)) && !Orderly(r.k, 2, 0) &&
            var r1 := Advance(r, Kill(2));
            Inv(r1.k) && Allowed(r1, WaitCheck({})) &&
            var r2 := Advance(r1, WaitCheck({}));
            r2.entered == [(1, 0), (3, 0)] && r2.granted == [(3, 0)] && r2.k.wait == [1] && !Fair(r2, 0)
  {
    hide Inv, Advance, Orderly, Stage, AllowedRun, After, Fair;
    RunFrom(table, sems, 0);
    StageBoots(table, sems);
    Queued(table, sems);
    StageInv(table, sems, 8);
    var r := Stage(table, sems, 8);
    SecondKilled(r);
    KeepsInv(r, Kill(2));
    var r1 := Advance(r, Kill(2));
    ThirdGranted(r1);
    var r2 := Advance(r1, WaitCheck({}));
    assert r2.granted == [(3, 0)];
    NotServed(r2);
  }

  lemma NotServed(r: Trace)
    requires r.entered == [(1, 0), (3, 0)] && r.granted == [(3, 0)]
    ensures !Fair(r, 0)
  {
    assert r.entered[..1] == [(1, 0)] && [(1, 0)][..0] == [] && [(3, 0)][..0] == [];
    assert Only([(1, 0)], 0) == [1] && Only(r.entered, 0) == [1, 3] && Only(r.granted, 0) == [3];
    var w := Waiters(r.k.wait, r.k.table, 0);
    assert [1, 3][0] == 1 && ([3] + w)[0] == 3;
  }

  // ---------- The program ----------

  class Kernel {
    const Qready: PidCoda
    const Qnotask: PidCoda
    const Qwait: PidCoda
    const kwait_table: array<Event>
    const task_exitcode: array<int>
    const semaphores: array<int>

    /** The pid of `task_corrente`. */
    var current: int

    /** `scheduler_init`: all pids but that of the idle task are free; the semaphores are green. */
    constructor (n_semaphores: nat)
      ensures Valid() && View() == Boot(kwait_table[..], semaphores[..]).k && semaphores.Length == n_semaphores
      ensures View().ready == View().wait == [] && View().running == 0
      ensures |View().notask| == 127 && forall i | 0 <= i < 127 :: View().notask[i] == i + 1
      ensures forall i | 0 <= i < n_semaphores :: semaphores[i] != ROSSO
      ensures task_exitcode.Length == 128 && forall i | 0 <= i < 128 :: task_exitcode[i] == 0
      ensures fresh(Qready) && fresh(Qnotask) && fresh(Qwait) && fresh(kwait_table) && fresh(task_exitcode) &&
              fresh(semaphores)
      ensures fresh(Qready.dato) && fresh(Qnotask.dato) && fresh(Qwait.dato)
    {
      hide Inv, Boot, AllPids, PidCoda.Contents, PidCoda.Valid;
      Qready := new PidCoda();
      Qnotask := new PidCoda();
      Qwait := new PidCoda();
      kwait_table := new Event[MAX_TASK_NUM](_ => WOutside(0));
      task_exitcode := new int[MAX_TASK_NUM](_ => 0);
      semaphores := new int[n_semaphores](_ => VERDE);
      current := 0;
      new;
      FillNotask();
    }

    /** The part of `scheduler_init` that frees all pids. */
    method FillNotask()
      requires Apart() && Qready.Valid() && Qnotask.Valid() && Qwait.Valid() && current == 0
      requires Qready.Contents() == Qwait.Contents() == Qnotask.Contents() == []
      modifies Qnotask, Qnotask.dato, task_exitcode
      ensures Valid() && View() == Boot(kwait_table[..], semaphores[..]).k
      ensures View().ready == View().wait == [] && View().running == 0
      ensures |View().notask| == MAX_TASK_NUM - 1 && forall i | 0 <= i < MAX_TASK_NUM - 1 :: View().notask[i] == i + 1
      ensures task_exitcode[0] == old(task_exitcode[0]) && forall i | 1 <= i < MAX_TASK_NUM :: task_exitcode[i] == 0
    {
      hide AllPids, PidCoda.Valid, PidCoda.Contents;
      for i := 1 to MAX_TASK_NUM
        invariant Apart() && Qready.Valid() && Qnotask.Valid() && Qwait.Valid()
        invariant Qready.Contents() == [] && Qwait.Contents() == [] && Qnotask.Contents() == AllPids()[..i - 1]
        invariant task_exitcode[0] == old(task_exitcode[0]) && forall j | 1 <= j < i :: task_exitcode[j] == 0
      {
        var inserted := Qnotask.Ins(i);
        assert inserted == 1;
        task_exitcode[i] := 0;
      }
      assert AllPids()[..MAX_TASK_NUM - 1] == AllPids();
      hide Inv;
    }

    ghost predicate Apart() {
      Qready !in {Qnotask, Qwait} && Qnotask != Qwait &&
      Qready.dato !in {Qnotask.dato, Qwait.dato, task_exitcode, semaphores} &&
      Qnotask.dato !in {Qwait.dato, task_exitcode, semaphores} && Qwait.dato !in {task_exitcode, semaphores} &&
      task_exitcode != semaphores && kwait_table.Length == task_exitcode.Length == MAX_TASK_NUM
    }

    ghost predicate Valid()
      reads this, Qready, Qnotask, Qwait, Qready.dato, Qnotask.dato, Qwait.dato, kwait_table, semaphores
    {
      Apart() && Qready.Valid() && Qnotask.Valid() && Qwait.Valid() && Inv(View())
    }

    ghost function View(): State
      requires Qready.Valid() && Qnotask.Valid() && Qwait.Valid()
      reads this, Qready, Qnotask, Qwait, Qready.dato, Qnotask.dato, Qwait.dato, kwait_table, semaphores
    {
      State(Qready.Contents(), Qnotask.Contents(), Qwait.Contents(), current, kwait_table[..], semaphores[..])
    }

    /** `task_setcorrente` of the first ready task, or of the idle task if there is none. */
    method SwitchTask()
      requires Apart() && Qready.Valid() && Qnotask.Valid() && Qwait.Valid()
      requires forall pid | pid in Qready.Contents() :: pid > 0
      modifies Qready, this`current
      ensures Apart() && Qready.Valid() && Qnotask.Valid() && Qwait.Valid() && View() == Dispatch(old(View()))
    {
      ghost var queue := Qready.Contents();
      assert queue != [] ==> queue[0] in queue;
      var pid := Qready.Pop();
      if pid == 0 {
        assert false;
      }
      if pid == -1 {
        pid := 0;
      }
      if pid < 0 {
        assert false;
      }
      current := pid;
    }

    /** `scheduler`: the running task goes to the end of the ready queue, the first one runs. */
    method Scheduler()
      requires Valid()
      modifies Qready, Qready.dato, this`current
      ensures Valid() && View() == Next(old(View()), Tick)
    {
      hide Inv, Dispatch, PidCoda.Contents, PidCoda.Valid;
      Room(View());
      StepKeeps(View(), Tick);
      if current != 0 {
        var inserted := Qready.Ins(current);
        assert inserted == 1;
      }
      SwitchTask();
    }

    /** `kwait_handler`: the running task begins to wait for an event. */
    method KwaitHandler(event: Event)
      requires Valid() && Enabled(View(), Wait(event))
      modifies Qready, Qwait, Qwait.dato, kwait_table, this`current
      ensures Valid() && View() == Next(old(View()), Wait(event))
    {
      hide Inv, Dispatch, PidCoda.Contents, PidCoda.Valid;
      Room(View());
      StepKeeps(View(), Wait(event));
      ghost var table := kwait_table[..];
      var inserted := Qwait.Ins(current);
      assert inserted == 1;
      kwait_table[current] := event;
      assert kwait_table[..] == table[current := event];
      SwitchTask();
    }

    /** `wsemaphoro`: test and set. */
    method Wsemaphoro(sem: int) returns (granted: bool)
      requires 0 <= sem < semaphores.Length
      modifies semaphores
      ensures granted <==> old(semaphores[sem]) != ROSSO
      ensures semaphores[..] == old(semaphores[..])[sem := ROSSO]
    {
      if semaphores[sem] == ROSSO {
        return false;
      }
      semaphores[sem] := ROSSO;
      return true;
    }

    /** Calls the wait function of a task; `outside` are the other conditions that hold now. */
    method Ask(pid: int, outside: set<int>) returns (ready: bool)
      requires 0 <= pid < kwait_table.Length
      requires kwait_table[pid].WSemaphoro? ==> 0 <= kwait_table[pid].sem < semaphores.Length
      modifies semaphores
      ensures var o := Asked(Pass([], [], old(semaphores[..]), []), pid, kwait_table[pid], outside);
              semaphores[..] == o.sems &&
              (if ready then o.woken == [pid] && o.kept == [] else o.woken == [] && o.kept == [pid])
    {
      match kwait_table[pid] {
        case WSemaphoro(s) => ready := Wsemaphoro(s);
        case WOutside(p) => ready := p in outside;
      }
    }

    /** In the pass that began in state `k` the first `i` waiting tasks have been asked. */
    ghost predicate Passing(k: State, outside: set<int>, i: nat)
      requires Apart() && WaitsWell(k) && i <= |k.wait|
      reads this, Qready, Qnotask, Qwait, Qready.dato, Qnotask.dato, Qwait.dato, kwait_table, semaphores
    {
      var o := Checked(k, outside, i);
      Qready.Valid() && Qnotask.Valid() && Qwait.Valid() &&
      Qwait.Contents() == k.wait[i..] + o.kept && Qready.Contents() == k.ready + o.woken && semaphores[..] == o.sems &&
      Qnotask.Contents() == k.notask && current == k.running && kwait_table[..] == k.table
    }

    /** One turn of the pass. */
    method CheckOne(outside: set<int>, ghost k: State, ghost i: nat)
      requires Apart() && WaitsWell(k) && i < |k.wait| && Passing(k, outside, i) && |k.ready| + |k.wait| < MAX_TASK_NUM
      modifies Qready, Qready.dato, Qwait, Qwait.dato, semaphores
      ensures Passing(k, outside, i + 1)
    {
      hide Checked, Asked, PidCoda.Contents, PidCoda.Valid, WaitsWell;
      CheckedSize(k, outside, i);
      CheckTurn(k, outside, i);
      var pid := Qwait.Pop();
      assert pid == k.wait[i];
      assert Qwait.Contents() == k.wait[i + 1..] + Checked(k, outside, i).kept;
      var ready := Ask(pid, outside);
      if ready {
        var inserted := Qready.Ins(pid);
        assert inserted == 1;
      } else {
        var inserted := Qwait.Ins(pid);
        assert inserted == 1;
      }
    }

    /** `kwait_check`: one pass over the waiting tasks, in order. */
    method KwaitCheck(outside: set<int>)
      requires Valid()
      modifies Qready, Qready.dato, Qwait, Qwait.dato, semaphores
      ensures Valid() && View() == Next(old(View()), WaitCheck(outside))
    {
      hide Inv, Checked, PidCoda.Contents, PidCoda.Valid, WaitsWell, Next;
      ghost var k := View();
      Room(k);
      StepKeeps(k, WaitCheck(outside));
      CheckBegins(k, outside);
      assert k.wait[0..] == k.wait && k.wait[|k.wait|..] == [];
      var lung := Qwait.Elements();
      for i := 0 to lung
        invariant Passing(k, outside, i)
      {
        CheckOne(outside, k, i);
      }
      CheckEnds(k, outside);
      assert View() == Next(k, WaitCheck(outside));
    }

    lemma CheckBegins(k: State, outside: set<int>)
      requires Inv(k)
      ensures WaitsWell(k) && Checked(k, outside, 0) == Pass([], [], k.sems, [])
    {
    }

    lemma CheckEnds(k: State, outside: set<int>)
      requires Inv(k)
      ensures var o := Checked(k, outside, |k.wait|);
              Next(k, WaitCheck(outside)) == k.(ready := k.ready + o.woken, wait := o.kept, sems := o.sems)
    {
    }

    lemma {:induction false} CheckedSize(k: State, outside: set<int>, n: nat)
      requires WaitsWell(k) && n <= |k.wait|
      ensures |Checked(k, outside, n).woken| + |Checked(k, outside, n).kept| == n
    {
      if n > 0 {
        CheckedSize(k, outside, n - 1);
        CheckedStep(k, outside, n);
      } else {
        NobodyAsked(k, outside);
      }
    }

    /** Turn `i` of the pass, in terms of one question. */
    lemma CheckTurn(k: State, outside: set<int>, i: nat)
      requires WaitsWell(k) && i < |k.wait|
      ensures var pid, o, o' := k.wait[i], Checked(k, outside, i), Checked(k, outside, i + 1);
              EventOk(k, pid) &&
              var q := Asked(Pass([], [], o.sems, []), pid, k.table[pid], outside);
              o'.sems == q.sems && o'.woken == o.woken + q.woken && o'.kept == o.kept + q.kept
    {
      assert k.wait[i] in k.wait && EventOk(k, k.wait[i]);
    }

    /** The queue part of `syscall_exit`. */
    method Exit(exitcode: int)
      requires Valid() && Enabled(View(), Step.Exit)
      modifies Qready, Qnotask, Qnotask.dato, task_exitcode, this`current
      ensures Valid() && View() == Next(old(View()), Step.Exit)
      ensures 0 <= old(current) < task_exitcode.Length
      ensures task_exitcode[..] == old(task_exitcode[..])[old(current) := exitcode]
    {
      hide Inv, Dispatch, PidCoda.Contents, PidCoda.Valid;
      Room(View());
      StepKeeps(View(), Step.Exit);
      task_exitcode[current] := exitcode;
      var inserted := Qnotask.Ins(current);
      assert inserted == 1;
      SwitchTask();
    }

    /** The queue part of `syscall_fork`; `memory` tells whether the allocation succeeds. */
    method Fork(memory: bool) returns (pid: int)
      requires Valid()
      modifies Qready, Qready.dato, Qnotask, Qnotask.dato
      ensures Valid() && View() == Next(old(View()), Step.Fork(memory))
      ensures pid == if old(View().notask) != [] && memory then old(View().notask)[0] else -1
    {
      hide Inv, PidCoda.Contents, PidCoda.Valid;
      Room(View());
      StepKeeps(View(), Step.Fork(memory));
      var free := Qnotask.Elements();
      if free <= 0 {
        return -1;
      }
      pid := Qnotask.Pop();
      if !memory {
        var inserted := Qnotask.Ins(pid);
        assert inserted == 1;
        return -1;
      }
      var inserted := Qready.Ins(pid);
      assert inserted == 1;
    }

    /** The queue part of `syscall_exec`; `loaded` tells whether file and memory are there. */
    method Exec(loaded: bool) returns (pid: int)
      requires Valid()
      modifies Qready, Qready.dato, Qnotask, Qnotask.dato
      ensures Valid() && View() == Next(old(View()), Step.Exec(loaded))
      ensures pid == if loaded && old(View().notask) != [] then old(View().notask)[0] else -1
    {
      hide Inv, PidCoda.Contents, PidCoda.Valid;
      Room(View());
      StepKeeps(View(), Step.Exec(loaded));
      if !loaded {
        return -1;
      }
      var free := Qnotask.Elements();
      if free <= 0 {
        return -1;
      }
      pid := Qnotask.Pop();
      var inserted := Qready.Ins(pid);
      assert inserted == 1;
    }

    /** One of the two loops of `syscall_kill`: looks for `pid` in `queue` unless it is dead already. */
    method SeekAndKill(queue: PidCoda, pid: int, dead: bool) returns (killed: bool)
      requires Apart() && (queue == Qready || queue == Qwait) && queue.Valid() && Qnotask.Valid()
      requires forall x | x in queue.Contents() :: 0 <= x < MAX_TASK_NUM
      requires |queue.Contents()| < MAX_TASK_NUM && |Qnotask.Contents()| < MAX_TASK_NUM
      modifies queue, queue.dato, Qnotask, Qnotask.dato, task_exitcode
      ensures queue.Valid() && Qnotask.Valid() && (killed <==> dead || pid in old(queue.Contents()))
      ensures if !dead && pid in old(queue.Contents()) then
                queue.Contents() == Killed(old(queue.Contents()), pid, IndexOf(old(queue.Contents()), pid)) &&
                Qnotask.Contents() == old(Qnotask.Contents()) + [pid] && 0 <= pid < task_exitcode.Length &&
                task_exitcode[..] == old(task_exitcode[..])[pid := -1]
              else
                queue.Contents() == old(queue.Contents()) && Qnotask.Contents() == old(Qnotask.Contents()) &&
                task_exitcode[..] == old(task_exitcode[..])
    {
      hide PidCoda.Contents, PidCoda.Valid, IndexOf, Killed;
      ghost var was, notask, codes := queue.Contents(), Qnotask.Contents(), task_exitcode[..];
      var lung := queue.Elements();
      killed := dead;
      var i := 0;
      RoundBegins(was);
      while i < lung && !killed
        invariant 0 <= i <= lung && queue.Valid() && Qnotask.Valid()
        invariant !killed ==> queue.Contents() == Sought(was, i) && Qnotask.Contents() == notask && pid !in was[..i]
        invariant !killed || dead ==> task_exitcode[..] == codes
        invariant killed && !dead ==>
                    pid in was && queue.Contents() == Killed(was, pid, IndexOf(was, pid)) &&
                    Qnotask.Contents() == notask + [pid] && 0 <= pid < task_exitcode.Length &&
                    task_exitcode[..] == codes[pid := -1]
        invariant dead ==> killed && queue.Contents() == was && Qnotask.Contents() == notask
      {
        RoundTurn(was, pid, i);
        assert was[i] in was;
        var pidopt := queue.Pop();
        if pidopt == pid {
          task_exitcode[pidopt] := -1;
          var inserted := Qnotask.Ins(pidopt);
          assert inserted == 1;
          killed := true;
        } else {
          var inserted := queue.Ins(pidopt);
          assert inserted == 1;
        }
        i := i + 1;
      }
      RoundEnds(was);
    }

    lemma RoundBegins(queue: seq<int>)
      ensures Sought(queue, 0) == queue
    {
    }

    lemma RoundEnds(queue: seq<int>)
      ensures Sought(queue, |queue|) == queue && queue[..|queue|] == queue
    {
    }

    /** One turn of the search: the next pid comes out, and goes to the end or is the one sought. */
    lemma RoundTurn(queue: seq<int>, pid: int, i: nat)
      requires i < |queue| && pid !in queue[..i]
      ensures Sought(queue, i) != [] && Sought(queue, i)[0] == queue[i] && |Sought(queue, i)| == |queue|
      ensures Sought(queue, i + 1) == Sought(queue, i)[1..] + [queue[i]]
      ensures queue[i] != pid ==> pid !in queue[..i + 1]
      ensures queue[i] == pid ==>
                pid in queue && IndexOf(queue, pid) == i && Killed(queue, pid, i) == Sought(queue, i)[1..]
    {
      assert queue[..i + 1] == queue[..i] + [queue[i]];
      if queue[i] == pid {
        IndexIs(queue, pid, i);
      }
    }

    lemma IndexIs(queue: seq<int>, pid: int, i: nat)
      requires i < |queue| && queue[i] == pid && pid !in queue[..i]
      ensures IndexOf(queue, pid) == i
    {
      forall j | 0 <= j < i ensures queue[j] != pid {
        assert queue[..i][j] == queue[j];
      }
    }

    /** The queue part of `syscall_kill`. */
    method Kill(pid: int) returns (killed: bool)
      requires Valid()
      modifies Qready, Qready.dato, Qwait, Qwait.dato, Qnotask, Qnotask.dato, task_exitcode
      ensures Valid() && View() == Next(old(View()), Step.Kill(pid))
      ensures killed <==> pid >= 2 && (pid in old(View()).ready || pid in old(View()).wait)
      ensures killed ==> pid < task_exitcode.Length && task_exitcode[..] == old(task_exitcode[..])[pid := -1]
      ensures !killed ==> task_exitcode[..] == old(task_exitcode[..])
    {
      hide Inv, PidCoda.Contents, PidCoda.Valid, IndexOf, Killed;
      Room(View());
      StepKeeps(View(), Step.Kill(pid));
      NotInBoth(View(), pid);
      RunningIsApart(View());
      if current == pid || pid < 2 {
        return false;
      }
      killed := SeekAndKill(Qready, pid, false);
      killed := SeekAndKill(Qwait, pid, killed);
    }

    /** `semaphoro_up`. */
    method SemaphoroUp(sem: int)
      requires Valid() && 0 <= sem < semaphores.Length
      modifies semaphores
      ensures Valid() && View() == Next(old(View()), Step.Up(sem))
    {
      hide Inv, PidCoda.Contents, PidCoda.Valid;
      StepKeeps(View(), Step.Up(sem));
      semaphores[sem] := VERDE;
    }
  }
}
