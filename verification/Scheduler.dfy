/** The round-robin scheduler over the ready queue (src/kernel/task.c). A failing assertion is a result of false. */
module Scheduler {
  import opened Options
  import opened LinkedList

  const RUNNING := 1
  const SLEEPING := 2
  /** RUNNING and SLEEPING: was sleeping, has not been scheduled since. */
  const WAKING_UP := 3
  const IOWAIT := 4

  const TIMER_HZ := 100

  class Task {
    var state: nat
    var wakeupTime: nat
    var didExecve: bool

    constructor (state: nat)
      ensures this.state == state && wakeupTime == 0 && !didExecve
    {
      this.state, wakeupTime, didExecve := state, 0, false;
    }
  }

  /** The RUNNING bit. */
  predicate Runnable(state: nat) {
    state % 2 == 1
  }

  predicate SleepBit(state: nat) {
    state / 2 % 2 == 1
  }

  // ----- the order of turns

  /** The first place from the k-th after c on, around the ring and not c itself, whose flag is set. */
  function FirstFrom(flags: seq<bool>, c: nat, k: nat): (r: Option<nat>)
    requires c < |flags| && 0 < k
    ensures r.Some? ==> r.value < |flags| && r.value != c && flags[r.value]
    decreases |flags| - k
  {
    if k >= |flags| then None
    else if flags[Around(c, k, |flags|)] then Some(Around(c, k, |flags|))
    else FirstFrom(flags, c, k + 1)
  }

  function NextRunnable(flags: seq<bool>, c: nat): (r: Option<nat>)
    requires c < |flags|
  {
    FirstFrom(flags, c, 1)
  }

  /** How many places t is after c in a ring of n. */
  function Distance(c: nat, t: nat, n: nat): (d: nat)
    requires c < n && t < n
    ensures d < n && (d == 0 <==> c == t) && Around(c, d, n) == t
  {
    if t >= c then t - c else t - c + n
  }

  /** The search finds the k-th place after c when it is the first one set. */
  lemma {:induction false} FoundFrom(flags: seq<bool>, c: nat, j: nat, k: nat)
    requires c < |flags| && 0 < j <= k < |flags| && flags[Around(c, k, |flags|)]
    requires forall i | j <= i < k :: !flags[Around(c, i, |flags|)]
    ensures FirstFrom(flags, c, j) == Some(Around(c, k, |flags|))
    decreases k - j
  {
    if j < k {
      FoundFrom(flags, c, j + 1, k);
    }
  }

  lemma {:induction false} NotFoundFrom(flags: seq<bool>, c: nat, j: nat)
    requires c < |flags| && 0 < j && forall i | j <= i < |flags| :: !flags[Around(c, i, |flags|)]
    ensures FirstFrom(flags, c, j) == None
    decreases |flags| - j
  {
    if j < |flags| {
      NotFoundFrom(flags, c, j + 1);
    }
  }

  /** A runnable task that is not the current one gets strictly nearer with every turn: nobody overtakes it. */
  lemma {:induction false} Nearer(flags: seq<bool>, c: nat, t: nat, k: nat)
    requires c < |flags| && t < |flags| && t != c && flags[t] && 0 < k <= Distance(c, t, |flags|)
    ensures var d := FirstFrom(flags, c, k);
            d.Some? && Distance(d.value, t, |flags|) < Distance(c, t, |flags|)
    decreases |flags| - k
  {
    if !flags[Around(c, k, |flags|)] {
      Nearer(flags, c, t, k + 1);
    }
  }

  /** A task's state once a sleeper whose time has come is woken. */
  function WokenState(state: nat, wakeupTime: nat, ticks: nat): (r: nat)
    ensures state == SLEEPING && wakeupTime <= ticks ==> Runnable(r)
    ensures Runnable(state) ==> r == state
    ensures r == SLEEPING ==> ticks < wakeupTime
  {
    if state == SLEEPING && wakeupTime <= ticks then WAKING_UP else state
  }

  /** The place of the current task after one call for each of the given rounds; e is the idle task's place. */
  ghost function PlaceAfter(rounds: seq<seq<bool>>, n: nat, c: nat, e: nat): (p: nat)
    requires c < n && e < n && forall flags | flags in rounds :: |flags| == n
    ensures p < n
  {
    if rounds == [] then c
    else
      var before := PlaceAfter(rounds[..|rounds| - 1], n, c, e);
      var flags := rounds[|rounds| - 1];
      match NextRunnable(flags, before)
      case Some(k) => k
      case None => if flags[before] then before else e
  }

  /**
    * Bounded waiting: whatever the other tasks do between the calls, a task that is runnable at every one of them
    * is current after at most as many calls as it is places behind the current one.
    */
  lemma {:induction false} ComesRound(rounds: seq<seq<bool>>, n: nat, c: nat, e: nat, t: nat)
    requires c < n && e < n && t < n && forall flags | flags in rounds :: |flags| == n && flags[t]
    requires Distance(c, t, n) <= |rounds|
    ensures exists k | 0 <= k <= Distance(c, t, n) :: PlaceAfter(rounds[..k], n, c, e) == t
  {
    if forall k | 0 <= k <= Distance(c, t, n) :: PlaceAfter(rounds[..k], n, c, e) != t {
      NearerEachCall(rounds, n, c, e, t, Distance(c, t, n));
      assert false;
    }
  }

  lemma {:induction false} NearerEachCall(rounds: seq<seq<bool>>, n: nat, c: nat, e: nat, t: nat, k: nat)
    requires c < n && e < n && t < n && forall flags | flags in rounds :: |flags| == n && flags[t]
    requires k <= |rounds| && forall j | 0 <= j <= k :: PlaceAfter(rounds[..j], n, c, e) != t
    ensures Distance(PlaceAfter(rounds[..k], n, c, e), t, n) + k <= Distance(c, t, n)
  {
    if k > 0 {
      NearerEachCall(rounds, n, c, e, t, k - 1);
      assert rounds[..k][..k - 1] == rounds[..k - 1];
      var before := PlaceAfter(rounds[..k - 1], n, c, e);
      assert rounds[k - 1] in rounds;
      Nearer(rounds[k - 1], before, t, 1);
    }
  }

  class Ready {
    const queue: List<Task>
    var current: Task
    var nextTask: Task?
    var taskSwitching: bool
    const kernel: Task
    const idle: Task

    ghost predicate Valid()
      reads this, queue, queue.nodes, idle
    {
      && queue.Valid() && queue.nodes != []
      && (forall i, j | 0 <= i < j < |Tasks()| :: Tasks()[i] != Tasks()[j])
      && idle in Tasks() && idle.state != SLEEPING
    }

    /** The tasks on the queue, in order. */
    ghost function Tasks(): seq<Task>
      reads queue, queue.nodes
    {
      queue.Contents()
    }

    constructor (queue: List<Task>, kernel: Task, idle: Task)
      requires queue.Valid() && idle in queue.Contents() && idle.state != SLEEPING
      requires forall i, j | 0 <= i < j < |queue.nodes| :: queue.Contents()[i] != queue.Contents()[j]
      ensures Valid() && this.queue == queue && current == kernel && taskSwitching && nextTask == null
    {
      this.queue, this.kernel, this.idle := queue, kernel, idle;
      current, nextTask, taskSwitching := kernel, null, true;
    }

    /** switch_task: refuses a sleeping task; a task that was waking up is awake now. */
    method SwitchTask(task: Task) returns (ok: bool)
      requires taskSwitching
      modifies this`current, task`state
      ensures ok <==> old(task.state) != SLEEPING
      ensures current == if ok then task else old(current)
      ensures task.state == if ok && old(current) != task && old(task.state) == WAKING_UP then RUNNING else old(task.state)
    {
      if task.state == SLEEPING {
        return false;
      }
      if task == current {
        return true;
      }
      if task.state == WAKING_UP {
        task.state := RUNNING;
      }
      current := task;
      ok := true;
    }

    ghost function Woken(task: Task, ticks: nat): nat
      reads task
    {
      WokenState(task.state, task.wakeupTime, ticks)
    }

    /** Which tasks on the queue are runnable after the waking. */
    ghost function Flags(ticks: nat): (r: seq<bool>)
      reads queue, queue.nodes, Tasks()
      ensures |r| == |queue.nodes|
    {
      seq(|queue.nodes|, i requires 0 <= i < |queue.nodes| reads queue, queue.nodes, Tasks() => Runnable(Woken(Tasks()[i], ticks)))
    }

    /** The loop that wakes sleepers. */
    method Wake(ticks: nat)
      requires Valid()
      modifies Tasks()`state, Tasks()`wakeupTime
      ensures Valid() && Tasks() == old(Tasks())
      ensures forall p | p in Tasks() :: p.state == old(Woken(p, ticks))
      ensures forall p | p in Tasks() :: p.wakeupTime == if p.state != old(p.state) then 0 else old(p.wakeupTime)
    {
      ghost var tasks := Tasks();
      var it := queue.head;
      assert it == queue.nodes[0];
      hide LinkedList.List.Linked, LinkedList.List.Valid;
      ghost var i := 0;
      while it != null
        invariant 0 <= i <= |queue.nodes| && it == (if i == |queue.nodes| then null else queue.nodes[i])
        invariant forall k | 0 <= k < i :: tasks[k].state == old(Woken(tasks[k], ticks))
        invariant forall k | 0 <= k < i ::
                    tasks[k].wakeupTime == if tasks[k].state != old(tasks[k].state) then 0 else old(tasks[k].wakeupTime)
        invariant forall k | i <= k < |tasks| :: tasks[k].state == old(tasks[k].state) && tasks[k].wakeupTime == old(tasks[k].wakeupTime)
        decreases |queue.nodes| - i
      {
        var p := it.data;
        assert p == tasks[i];
        if p.state == SLEEPING && p.wakeupTime <= ticks {
          p.wakeupTime := 0;
          p.state := WAKING_UP;
        }
        queue.NextPlace(i);
        it := it.next;
        i := i + 1;
      }
    }

    /** The search by list links finds the place the order of turns names. */
    method FindBehind(node: Node<Task>) returns (task: Task?)
      requires Valid() && node in queue.nodes && node.data == current
      ensures current in Tasks()
      ensures match NextRunnable(ReadyFlags(Tasks()), PlaceOf(Tasks(), current))
              case Some(k) => task == Tasks()[k]
              case None => task == null
    {
      hide LinkedList.List.Linked, LinkedList.List.Valid, Runnable, FirstFrom;
      var next := queue.FindNext(node, (p: Task) reads p => Runnable(p.state));
      ghost var flags := ReadyFlags(Tasks());
      ghost var c := queue.Place(node);
      assert Tasks()[c] == current;
      if next == null {
        NotFoundFrom(flags, c, 1);
        task := null;
      } else {
        ghost var k :| 0 < k < |queue.nodes| && queue.FoundAt(node, (p: Task) reads p => Runnable(p.state), next, k);
        FoundFrom(flags, c, 1, k);
        task := next.data;
      }
    }

    /** The task behind the current one; the head's when the current task is off the queue; none when all others sleep. */
    method FindTurn() returns (task: Task?)
      requires Valid()
      ensures current !in Tasks() ==> task == Tasks()[0]
      ensures current in Tasks() ==>
                match NextRunnable(ReadyFlags(Tasks()), PlaceOf(Tasks(), current))
                case Some(k) => task == Tasks()[k]
                case None => task == null
    {
      assert queue.head == queue.nodes[0];
      hide LinkedList.List.Linked, LinkedList.List.Valid, Runnable, FirstFrom, ReadyFlags;
      var found, node := queue.FindFirst(current);
      if node == null {
        return queue.head.data;
      }
      task := FindBehind(node);
    }

    /** The turn taken when nothing was asked for: after the current task by the order of the queue, or from its head. */
    method Turn() returns (ok: bool)
      requires Valid() && taskSwitching
      modifies this`current, Tasks()`state
      ensures Valid() && Tasks() == old(Tasks())
      ensures ok <==> old(current in Tasks() || Runnable(Tasks()[0].state))
      ensures current == if ok then old(Picked(Tasks(), ReadyFlags(Tasks()), current, idle)) else old(current)
      ensures forall p | p in Tasks() :: p.state == AfterSwitch(old(p.state), p != old(current) && p == current)
    {
      hide LinkedList.List.Linked, LinkedList.List.Valid, FirstFrom;
      var task := FindTurn();
      if task == null {
        if Runnable(current.state) {
          return true;
        }
        ok := SwitchTask(idle);
        return;
      }
      if current == task {
        return true;
      }
      if !Runnable(task.state) {
        return false;
      }
      ok := SwitchTask(task);
    }

    /** Nothing is switched while switching is off, or while the kernel task is alone. */
    ghost predicate Halted()
      reads this, queue
    {
      !taskSwitching || (current == kernel && queue.count == 1)
    }

    /** Neither next_task nor did_execve nor a halt cuts the call short. */
    ghost predicate Ordinary()
      reads this, queue, current
    {
      !Halted() && nextTask == null && !current.didExecve
    }

    /** sleep, up to the yield at its end; its assertions fail on a task that sleeps or waits already. */
    method Sleep(milliseconds: nat, now: nat) returns (ok: bool)
      modifies current`state, current`wakeupTime
      ensures ok <==> milliseconds == 0 || old(current.state != SLEEPING && current.state != IOWAIT && current.wakeupTime == 0)
      ensures milliseconds == 0 || !ok ==> current.state == old(current.state) && current.wakeupTime == old(current.wakeupTime)
      ensures milliseconds > 0 && ok ==>
                current.state == SLEEPING && current.wakeupTime == WakeupTick(now, SleepTicks(milliseconds))
    {
      if milliseconds == 0 {
        return true;
      }
      var wait := milliseconds / (1000 / TIMER_HZ);
      if wait == 0 {
        wait := 1;
      }
      if current.state == SLEEPING || current.state == IOWAIT || current.wakeupTime != 0 {
        return false;
      }
      current.state := SLEEPING;
      current.wakeupTime := (now + wait) % TICKS;
      ok := true;
    }

    /** scheduler_taskSwitch. */
    method TaskSwitch(ticks: nat) returns (ok: bool)
      requires Valid()
      modifies this`current, this`nextTask, Tasks(), current, {nextTask}
      ensures Valid() && Tasks() == old(Tasks())
      ensures old(Halted()) ==> ok && current == old(current) && nextTask == old(nextTask) && unchanged(Tasks())
      ensures !old(Halted()) ==> nextTask == null
      ensures old(!Halted() && nextTask != null) ==> ok && current == old(nextTask)
      ensures old(!Halted() && nextTask != null) ==>
                current.state == if old(SleepBit(nextTask.state)) then RUNNING else old(nextTask.state)
      ensures old(!Halted() && nextTask == null && current.didExecve) ==> ok && current == old(current) && !current.didExecve
      ensures old(Ordinary()) ==> (ok <==> old(current in Tasks() || Flags(ticks)[0]))
      ensures old(Ordinary()) ==> current == if ok then old(Picked(Tasks(), Flags(ticks), current, idle)) else old(current)
      ensures old(Ordinary()) ==> forall p | p in Tasks() ::
                p.state == AfterSwitch(old(Woken(p, ticks)), p != old(current) && p == current)
      ensures old(Ordinary()) ==> forall p | p in Tasks() ::
                p.wakeupTime == (if old(Woken(p, ticks)) != old(p.state) then 0 else old(p.wakeupTime)) && p.didExecve == old(p.didExecve)
    {
      if !taskSwitching || (current == kernel && queue.count == 1) {
        return true;
      }
      if nextTask != null {
        var task := nextTask;
        nextTask := null;
        if SleepBit(task.state) {
          task.state := RUNNING;
          task.wakeupTime := 0;
        }
        ok := SwitchTask(task);
        return;
      }
      if current.didExecve {
        current.didExecve := false;
        return true;
      }
      ghost var flags := Flags(ticks);
      Wake(ticks);
      assert ReadyFlags(Tasks()) == flags;
      ok := Turn();
    }
  }

  /** Ticks to sleep for a number of milliseconds: at least one. */
  function SleepTicks(milliseconds: nat): (t: nat)
    ensures t >= 1 && (t == 1 || (t * 10 <= milliseconds < (t + 1) * 10))
  {
    var t := milliseconds / (1000 / TIMER_HZ);
    if t == 0 then 1 else t
  }

  /** Ticks are 32 bits wide. */
  const TICKS := 0x1_0000_0000

  /** The tick that ends a sleep wraps around with the counter. */
  function WakeupTick(now: nat, wait: nat): (t: nat)
    ensures t < TICKS
  {
    (now + wait) % TICKS
  }

  /** A sleep lasts exactly as long as asked for if and only if it ends before the tick counter wraps around. */
  lemma SleepLength(now: nat, wait: nat)
    requires now < TICKS && 0 < wait < TICKS
    ensures (forall ticks | now <= ticks < TICKS :: Runnable(WokenState(SLEEPING, WakeupTick(now, wait), ticks)) <==> wait <= ticks - now)
       <==> now + wait < TICKS
  {
    if now + wait >= TICKS {
      assert WakeupTick(now, wait) == now + wait - TICKS < now;
      assert Runnable(WokenState(SLEEPING, WakeupTick(now, wait), now));
    }
  }

  /** A task that is switched to is awake. */
  function AfterSwitch(state: nat, switched: bool): (r: nat)
    ensures Runnable(r) <==> Runnable(state)
    ensures r == SLEEPING <==> state == SLEEPING
    ensures switched ==> r != WAKING_UP
  {
    if switched && state == WAKING_UP then RUNNING else state
  }

  /** Whose turn it is, from the tasks in order and which of them are runnable. */
  ghost function Picked(tasks: seq<Task>, flags: seq<bool>, current: Task, idle: Task): (p: Task)
    requires |flags| == |tasks| > 0
    ensures current in tasks && p !in tasks ==> p == idle
  {
    if current !in tasks then tasks[0]
    else
      match NextRunnable(flags, PlaceOf(tasks, current))
      case Some(k) => tasks[k]
      case None => if flags[PlaceOf(tasks, current)] then current else idle
  }

  /** Which tasks have their RUNNING bit set. */
  ghost function ReadyFlags(tasks: seq<Task>): (r: seq<bool>)
    reads tasks
    ensures |r| == |tasks|
  {
    seq(|tasks|, i requires 0 <= i < |tasks| reads tasks => Runnable(tasks[i].state))
  }

  /** Where a member of a sequence is first. */
  ghost function PlaceOf<T>(s: seq<T>, x: T): (i: nat)
    requires x in s
    ensures i < |s| && s[i] == x
  {
    var i :| 0 <= i < |s| && s[i] == x;
    i
  }

  /** Whoever is picked, a runnable task that was not current is nearer to its turn. */
  lemma PickedNearer(tasks: seq<Task>, flags: seq<bool>, current: Task, idle: Task, t: Task)
    requires |flags| == |tasks| && current in tasks && t in tasks && t != current && flags[PlaceOf(tasks, t)]
    requires forall i, j | 0 <= i < j < |tasks| :: tasks[i] != tasks[j]
    ensures var p := Picked(tasks, flags, current, idle);
            p in tasks && Distance(PlaceOf(tasks, p), PlaceOf(tasks, t), |tasks|)
                          < Distance(PlaceOf(tasks, current), PlaceOf(tasks, t), |tasks|)
  {
    var c := PlaceOf(tasks, current);
    Nearer(flags, c, PlaceOf(tasks, t), 1);
    var k := NextRunnable(flags, c).value;
    assert PlaceOf(tasks, tasks[k]) == k;
  }

  // ----- runs

  /** What a task has been set to between two calls. */
  datatype Setting = Setting(state: nat, wakeupTime: nat)

  /** One call: what the tasks and the interrupts made of every task on the queue before it, and the tick it comes at. */
  datatype Round = Round(settings: seq<Setting>, ticks: nat) {
    /** This task is runnable when the call looks for the next one: running, or asleep until a tick that has come. */
    predicate Wakes(i: nat)
      requires i < |settings|
    {
      Runnable(WokenState(settings[i].state, settings[i].wakeupTime, ticks))
    }
  }

  method Arrange(r: Ready, settings: seq<Setting>)
    requires r.Valid() && |settings| == |r.Tasks()| && settings[PlaceOf(r.Tasks(), r.idle)].state != SLEEPING
    modifies r.Tasks()`state, r.Tasks()`wakeupTime
    ensures r.Valid() && r.Tasks() == old(r.Tasks())
    ensures forall i | 0 <= i < |settings| :: r.Tasks()[i].state == settings[i].state && r.Tasks()[i].wakeupTime == settings[i].wakeupTime
  {
    ghost var tasks := r.Tasks();
    var node := r.queue.head;
    var i := 0;
    while node != null
      invariant 0 <= i <= |tasks| && node == (if i == |tasks| then null else r.queue.nodes[i])
      invariant r.queue.Valid() && r.Tasks() == tasks
      invariant forall k | 0 <= k < i :: tasks[k].state == settings[k].state && tasks[k].wakeupTime == settings[k].wakeupTime
      decreases |tasks| - i
    {
      assert node.data == tasks[i];
      node.data.state, node.data.wakeupTime := settings[i].state, settings[i].wakeupTime;
      r.queue.NextPlace(i);
      node := node.next;
      i := i + 1;
    }
  }

  /** One call of a run brings a task that wakes at it nearer, if it is not current yet. */
  method Call(r: Ready, t: Task, round: Round)
    requires r.Valid() && r.current in r.Tasks() && t in r.Tasks() && t != r.current && r.taskSwitching && r.nextTask == null
    requires (forall p | p in r.Tasks() :: !p.didExecve) && Fits(r, t, round)
    modifies r`current, r`nextTask, r.Tasks()
    ensures r.Valid() && r.Tasks() == old(r.Tasks()) && r.current in r.Tasks() && r.nextTask == null
    ensures forall p | p in r.Tasks() :: !p.didExecve
    ensures Behind(r, t) < old(Behind(r, t))
  {
    ghost var tasks := r.Tasks();
    ghost var c, place := PlaceOf(tasks, r.current), PlaceOf(tasks, t);
    Arrange(r, round.settings);
    ghost var flags := r.Flags(round.ticks);
    assert flags[place];
    assert r.queue.count == |tasks| > 1;
    hide LinkedList.List.Linked, LinkedList.List.Valid, Picked, Distance, WokenState, AfterSwitch, Runnable;
    PickedNearer(tasks, flags, r.current, r.idle, t);
    var ok := r.TaskSwitch(round.ticks);
  }

  /** A round says something about every task on the queue; the idle task never sleeps, and t is runnable. */
  ghost predicate Fits(r: Ready, t: Task, round: Round)
    requires r.Valid() && t in r.Tasks()
    reads r, r.queue, r.queue.nodes, r.idle
  {
    && |round.settings| == |r.Tasks()| && round.Wakes(PlaceOf(r.Tasks(), t))
    && round.settings[PlaceOf(r.Tasks(), r.idle)].state != SLEEPING
  }

  /** How many places a task is behind the current one. */
  ghost function Behind(r: Ready, t: Task): (d: nat)
    requires r.Valid() && r.current in r.Tasks() && t in r.Tasks()
    reads r, r.queue, r.queue.nodes, r.idle
    ensures d < |r.Tasks()| && (d == 0 <==> t == r.current)
  {
    Distance(PlaceOf(r.Tasks(), r.current), PlaceOf(r.Tasks(), t), |r.Tasks()|)
  }

  /** Calls in a row until a task is current: it never takes more of them than there are tasks between. */
  method WaitFor(r: Ready, t: Task, rounds: seq<Round>) returns (turns: nat)
    requires r.Valid() && r.current in r.Tasks() && t in r.Tasks() && r.taskSwitching && r.nextTask == null
    requires |rounds| >= |r.Tasks()| - 1
    requires forall p | p in r.Tasks() :: !p.didExecve
    requires forall round | round in rounds :: Fits(r, t, round)
    modifies r`current, r`nextTask, r.Tasks()
    ensures r.Valid() && r.Tasks() == old(r.Tasks())
    ensures r.current == t && turns <= old(Behind(r, t)) < |r.Tasks()|
  {
    hide Behind, Ready.Valid;
    turns := 0;
    while r.current != t
      invariant r.Valid() && r.Tasks() == old(r.Tasks()) && r.current in r.Tasks() && r.nextTask == null
      invariant forall p | p in r.Tasks() :: !p.didExecve
      invariant turns + Behind(r, t) <= old(Behind(r, t))
      decreases old(Behind(r, t)) - turns
    {
      assert rounds[turns] in rounds;
      Call(r, t, rounds[turns]);
      turns := turns + 1;
    }
  }
}
