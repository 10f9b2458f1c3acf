/** `MiniTimer`: periodic and one-time tasks kept in buckets by interval, and run
    by the ticks they are due at. */
module MiniTimers {
  import opened Wrappers

  /** `HandlerInfo`; the task is known by its id. */
  datatype HandlerInfo = HandlerInfo(addTime: nat, id: nat)

  type TaskMap = map<nat, seq<HandlerInfo>>

  // -------------------------------------------------------------------------
  // What was asked of the timer, and what it should have done.

  datatype Kind = Period | OneTime

  /** A task as it was added, and the last tick handled before it was removed. */
  datatype Task = Task(kind: Kind, interval: nat, addTime: nat, removed: Option<nat>)

  /** `meet_condition`; on an interval of zero it divides by zero, and nothing is due. */
  predicate DueAt(tick: nat, addTime: nat, interval: nat) {
    interval > 0 && (tick - addTime) % interval == 0
  }

  /** The task runs at tick `t`, among the ticks handled up to `ran`. */
  predicate RunsAt(task: Task, t: nat, ran: nat) {
    match task.kind
    case Period =>
      && task.addTime < t <= ran
      && (task.removed.Some? ==> t <= task.removed.value)
      && DueAt(t, task.addTime, task.interval)
    case OneTime => task.interval > 0 && t == task.addTime + task.interval <= ran
  }

  /** The task is still in its bucket after the ticks up to `ran`. */
  predicate Present(task: Task, ran: nat) {
    match task.kind
    case Period => task.removed == None
    case OneTime => task.interval == 0 || task.addTime + task.interval > ran
  }

  predicate InBucket(m: TaskMap, k: nat, h: HandlerInfo) {
    k in m && h in m[k]
  }

  /** The buckets of one kind hold exactly its present tasks, each once. */
  ghost predicate Buckets(m: TaskMap, kind: Kind, reg: map<nat, Task>, ran: nat) {
    && (forall k, h :: InBucket(m, k, h) ==>
          h.id in reg && reg[h.id] == Task(kind, k, h.addTime, None) && Present(reg[h.id], ran))
    && (forall id :: id in reg && reg[id].kind == kind && Present(reg[id], ran) ==>
          InBucket(m, reg[id].interval, HandlerInfo(reg[id].addTime, id)))
    && (forall k :: k in m ==> Distinct(m[k]))
  }

  ghost predicate Distinct(tasks: seq<HandlerInfo>) {
    forall i, j :: 0 <= i < j < |tasks| ==> tasks[i].id != tasks[j].id
  }

  /** No task has an interval of zero. */
  predicate ZeroEmpty(m: TaskMap) {
    0 in m ==> m[0] == []
  }

  /** A task of this kind that is still there would be divided by. */
  ghost predicate ZeroTask(reg: map<nat, Task>, kind: Kind, ran: nat) {
    exists id :: id in reg && reg[id].kind == kind && reg[id].interval == 0 && Present(reg[id], ran)
  }

  lemma ZeroEmptyIff(m: TaskMap, kind: Kind, reg: map<nat, Task>, ran: nat)
    requires Buckets(m, kind, reg, ran)
    ensures ZeroEmpty(m) <==> !ZeroTask(reg, kind, ran)
  {
    if id :| id in reg && reg[id].kind == kind && reg[id].interval == 0 && Present(reg[id], ran) {
      assert InBucket(m, 0, HandlerInfo(reg[id].addTime, id));
    }
    if !ZeroEmpty(m) {
      assert InBucket(m, 0, m[0][0]);
    }
  }

  /** Every run is one that was due, once. */
  ghost predicate Runs(runs: multiset<(nat, nat)>, reg: map<nat, Task>, ran: nat) {
    forall id, t :: runs[(id, t)] == if id in reg && RunsAt(reg[id], t, ran) then 1 else 0
  }

  // -------------------------------------------------------------------------

  /** A task of this bucket, under this id, is due at `t`. */
  ghost predicate DueHere(tasks: seq<HandlerInfo>, interval: nat, id: nat, t: nat) {
    exists h :: h in tasks && h.id == id && DueAt(t, h.addTime, interval)
  }

  /** A task of one of these buckets, under this id, is due at `t`. */
  ghost predicate DueIn(m: TaskMap, keys: set<nat>, id: nat, t: nat)
    requires keys <= m.Keys
  {
    exists k :: k in keys && DueHere(m[k], k, id, t)
  }

  /** `now` has, beyond `was`, one run at `tick` for each task due in these buckets. */
  ghost predicate Adds(was: multiset<(nat, nat)>, now: multiset<(nat, nat)>, m: TaskMap, keys: set<nat>, tick: nat)
    requires keys <= m.Keys
  {
    forall id, t :: now[(id, t)] == was[(id, t)] + (if t == tick && DueIn(m, keys, id, t) then 1 else 0)
  }

  lemma AddsNothing(runs: multiset<(nat, nat)>, m: TaskMap, tick: nat)
    ensures Adds(runs, runs, m, {}, tick)
  {
    var none: set<nat> := {};
    assert forall id, t :: !DueIn(m, none, id, t);
    assert Adds(runs, runs, m, none, tick);
  }

  /** The buckets have positive intervals, and no id is in two of them. */
  ghost predicate Separate(m: TaskMap) {
    && (forall k :: k in m ==> Distinct(m[k]))
    && (forall k, h, k', h' :: InBucket(m, k, h) && InBucket(m, k', h') && h.id == h'.id ==> k == k')
  }

  /** `now` is `was` without the tasks due at this tick in the buckets `done`. */
  ghost predicate Dropped(was: TaskMap, now: TaskMap, done: set<nat>, tick: nat)
    requires Separate(was)
  {
    && now.Keys == was.Keys
    && (forall k :: k in now ==> Distinct(now[k]))
    && (forall k, h :: InBucket(now, k, h) <==>
          InBucket(was, k, h) && !(k in done && DueAt(tick, h.addTime, k)))
    && (forall k :: k in was && k !in done ==> now[k] == was[k])
  }

  lemma DroppedSnoc(was: TaskMap, now: TaskMap, done: set<nat>, k: nat, rest: seq<HandlerInfo>, tick: nat)
    requires Separate(was) && Dropped(was, now, done, tick) && k in was && k !in done
    requires Distinct(rest) && forall h :: h in rest <==> h in was[k] && !DueAt(tick, h.addTime, k)
    ensures Dropped(was, now[k := rest], done + {k}, tick)
  {
  }

  lemma FirstMultiple(x: int, k: nat)
    requires 0 < x <= k
    ensures x % k == 0 <==> x == k
  {
    if x < k {
      assert x % k == x;
    }
  }

  lemma BucketsSeparate(m: TaskMap, kind: Kind, reg: map<nat, Task>, ran: nat)
    requires Buckets(m, kind, reg, ran)
    ensures Separate(m)
  {
  }

  ghost predicate AddedBy(reg: map<nat, Task>, ran: nat) {
    forall id :: id in reg ==>
      && reg[id].addTime <= ran
      && (reg[id].removed.Some? ==> reg[id].kind == Period && reg[id].removed.value <= ran)
  }

  /** What the next tick finds due in the buckets is what should run at it. */
  lemma PeriodDue(m: TaskMap, reg: map<nat, Task>, ran: nat, id: nat)
    requires Buckets(m, Period, reg, ran) && AddedBy(reg, ran)
    ensures DueIn(m, m.Keys, id, ran + 1) <==>
            id in reg && reg[id].kind == Period && reg[id].removed == None && RunsAt(reg[id], ran + 1, ran + 1)
  {
    if DueIn(m, m.Keys, id, ran + 1) {
      var k :| k in m && DueHere(m[k], k, id, ran + 1);
      var h :| h in m[k] && h.id == id && DueAt(ran + 1, h.addTime, k);
      assert InBucket(m, k, h);
    }
    if id in reg && reg[id].kind == Period && reg[id].removed == None && RunsAt(reg[id], ran + 1, ran + 1) {
      var k, h := reg[id].interval, HandlerInfo(reg[id].addTime, id);
      assert InBucket(m, k, h) && DueHere(m[k], k, id, ran + 1);
    }
  }

  lemma OneTimeDue(m: TaskMap, reg: map<nat, Task>, ran: nat, id: nat)
    requires Buckets(m, OneTime, reg, ran) && AddedBy(reg, ran)
    ensures DueIn(m, m.Keys, id, ran + 1) <==>
            id in reg && reg[id].kind == OneTime && RunsAt(reg[id], ran + 1, ran + 1)
  {
    if DueIn(m, m.Keys, id, ran + 1) {
      var k :| k in m && DueHere(m[k], k, id, ran + 1);
      var h :| h in m[k] && h.id == id && DueAt(ran + 1, h.addTime, k);
      assert InBucket(m, k, h);
      FirstMultiple(ran + 1 - h.addTime, k);
    }
    if id in reg && reg[id].kind == OneTime && RunsAt(reg[id], ran + 1, ran + 1) {
      var k, h := reg[id].interval, HandlerInfo(reg[id].addTime, id);
      FirstMultiple(ran + 1 - h.addTime, k);
      assert InBucket(m, k, h) && DueHere(m[k], k, id, ran + 1);
    }
  }

  /** The runs when, at the tick after `ran`, only the periodic tasks have been seen to. */
  ghost predicate HalfRuns(runs: multiset<(nat, nat)>, reg: map<nat, Task>, ran: nat) {
    forall id, t :: runs[(id, t)] ==
      if id in reg && RunsAt(reg[id], t, if reg[id].kind == Period then ran + 1 else ran) then 1 else 0
  }

  lemma PeriodRunsNow(m: TaskMap, reg: map<nat, Task>, ran: nat, was: multiset<(nat, nat)>, now: multiset<(nat, nat)>)
    requires Buckets(m, Period, reg, ran) && AddedBy(reg, ran)
    requires Runs(was, reg, ran) && Adds(was, now, m, m.Keys, ran + 1)
    ensures HalfRuns(now, reg, ran)
  {
    forall id: nat, t: nat
      ensures now[(id, t)] ==
              if id in reg && RunsAt(reg[id], t, if reg[id].kind == Period then ran + 1 else ran) then 1 else 0
    {
      PeriodDue(m, reg, ran, id);
    }
  }

  lemma OneTimeRunsNow(m: TaskMap, reg: map<nat, Task>, ran: nat, was: multiset<(nat, nat)>, now: multiset<(nat, nat)>)
    requires Buckets(m, OneTime, reg, ran) && AddedBy(reg, ran)
    requires HalfRuns(was, reg, ran) && Adds(was, now, m, m.Keys, ran + 1)
    ensures Runs(now, reg, ran + 1)
  {
    forall id: nat, t: nat
      ensures now[(id, t)] == if id in reg && RunsAt(reg[id], t, ran + 1) then 1 else 0
    {
      OneTimeDue(m, reg, ran, id);
    }
  }

  lemma PeriodNow(m: TaskMap, reg: map<nat, Task>, ran: nat)
    requires Buckets(m, Period, reg, ran)
    ensures Buckets(m, Period, reg, ran + 1)
  {
  }

  lemma OneTimeNow(was: TaskMap, now: TaskMap, reg: map<nat, Task>, ran: nat)
    requires Separate(was) && Buckets(was, OneTime, reg, ran) && AddedBy(reg, ran)
    requires Dropped(was, now, was.Keys, ran + 1)
    ensures Buckets(now, OneTime, reg, ran + 1)
  {
    forall k, h | InBucket(was, k, h)
      ensures DueAt(ran + 1, h.addTime, k) <==> ran + 1 == h.addTime + k
    {
      assert reg[h.id] == Task(OneTime, k, h.addTime, None);
      if k > 0 {
        FirstMultiple(ran + 1 - h.addTime, k);
      }
    }
  }

  // -------------------------------------------------------------------------
  // How often a task has run.

  /** The runs of one task at the ticks up to `t`. */
  ghost function Times(runs: multiset<(nat, nat)>, id: nat, t: nat): nat {
    runs[(id, t)] + if t == 0 then 0 else Times(runs, id, t - 1)
  }

  /** The last of the ticks up to `t` that could run the task. */
  function LastTick(task: Task, t: nat): nat {
    if task.removed.Some? && task.removed.value < t then task.removed.value else t
  }

  lemma DivStep(x: nat, k: nat)
    requires x > 0 && k > 0
    ensures x / k == (x - 1) / k + (if x % k == 0 then 1 else 0)
  {
    var q, r := (x - 1) / k, (x - 1) % k;
    assert x == q * k + (r + 1);
    if r + 1 == k {
      assert x == (q + 1) * k;
      Quotient(x, k, q + 1, 0);
    } else {
      Quotient(x, k, q, r + 1);
    }
  }

  lemma Quotient(x: nat, k: nat, q: nat, r: nat)
    requires k > 0 && x == q * k + r && r < k
    ensures x / k == q && x % k == r
  {
    assert (x / k - q) * k + x % k == r;
    Multiple(x / k - q, k);
    Multiple(q - x / k, k);
    assert (q - x / k) * k == -((x / k - q) * k);
  }

  lemma Multiple(d: int, k: int)
    requires k > 0
    ensures d > 0 ==> d * k >= k
  {
    if d > 0 {
      assert d * k == (d - 1) * k + k;
    }
  }

  /** A periodic task runs once in every interval since it was added, until it is removed. */
  lemma {:induction false} PeriodTimes(runs: multiset<(nat, nat)>, reg: map<nat, Task>, ran: nat, id: nat, t: nat)
    requires Runs(runs, reg, ran) && id in reg && reg[id].interval > 0
    requires reg[id].kind == Period && t <= ran
    ensures var last := LastTick(reg[id], t);
            Times(runs, id, t) ==
            if last > reg[id].addTime then (last - reg[id].addTime) / reg[id].interval else 0
  {
    var task := reg[id];
    assert runs[(id, t)] == if RunsAt(task, t, ran) then 1 else 0;
    if t > 0 {
      PeriodTimes(runs, reg, ran, id, t - 1);
      if task.addTime < t && LastTick(task, t) == t {
        DivStep(t - task.addTime, task.interval);
        if t == task.addTime + 1 {
          Quotient(0, task.interval, 0, 0);
        }
      }
    }
  }

  /** A one-time task runs once, at its time. */
  lemma {:induction false} OneTimeTimes(runs: multiset<(nat, nat)>, reg: map<nat, Task>, ran: nat, id: nat, t: nat)
    requires Runs(runs, reg, ran) && id in reg && reg[id].interval > 0
    requires reg[id].kind == OneTime && t <= ran
    ensures Times(runs, id, t) == if t >= reg[id].addTime + reg[id].interval then 1 else 0
  {
    assert runs[(id, t)] == if RunsAt(reg[id], t, ran) then 1 else 0;
    if t > 0 {
      OneTimeTimes(runs, reg, ran, id, t - 1);
    }
  }

  /** Each periodic task is called once when it is added: it has been, or is about to be. */
  ghost predicate FirstCalls(made: multiset<nat>, due: multiset<nat>, reg: map<nat, Task>) {
    forall id :: made[id] + due[id] == if id in reg && reg[id].kind == Period then 1 else 0
  }

  lemma NewDebt(made: multiset<nat>, due: multiset<nat>, reg: map<nat, Task>, id: nat, task: Task)
    requires FirstCalls(made, due, reg) && id !in reg
    ensures FirstCalls(made, if task.kind == Period then due + multiset{id} else due, reg[id := task])
  {
    assert made[id] + due[id] == 0;
  }

  // -------------------------------------------------------------------------
  // The code.

  class MiniTimer {
    var tick: nat
    var periodTasks: TaskMap
    var onetimeTasks: TaskMap
    var nextId: nat
    var stopped: bool
    /** Which task ran at which tick. */
    var runs: multiset<(nat, nat)>
    /** The calls made by `add_period_task` itself. */
    var firstCalls: multiset<nat>
    ghost var reg: map<nat, Task>
    ghost var ran: nat
    /** The first calls still to be made: `add_period_task` is between unlocking and calling. */
    ghost var due: multiset<nat>

    constructor ()
      ensures Valid() && tick == 0 && reg == map[] && !stopped
    {
      tick, nextId, stopped := 0, 0, false;
      periodTasks, onetimeTasks := map[], map[];
      runs, firstCalls := multiset{}, multiset{};
      reg, ran, due := map[], 0, multiset{};
    }

    ghost predicate Valid()
      reads this
    {
      Filed() && FirstCalls(firstCalls, due, reg)
    }

    /** The buckets and the runs are those of the tasks added. */
    ghost predicate Filed()
      reads this
    {
      && (forall id :: id in reg ==>
            && id < nextId && reg[id].addTime <= tick
            && (reg[id].removed.Some? ==> reg[id].kind == Period && reg[id].removed.value <= ran))
      && (if stopped then ran <= tick else ran == tick)
      && Buckets(periodTasks, Period, reg, ran)
      && Buckets(onetimeTasks, OneTime, reg, ran)
      && Runs(runs, reg, ran)
    }

    /** `add_task_to` on one map. */
    function Added(m: TaskMap, interval: nat, h: HandlerInfo): TaskMap {
      if interval in m then m[interval := m[interval] + [h]] else m[interval := [h]]
    }

    lemma AddedBuckets(m: TaskMap, kind: Kind, interval: nat)
      requires Buckets(m, kind, reg, ran) && ran <= tick
      requires forall id :: id in reg ==> id < nextId
      ensures var reg' := reg[nextId := Task(kind, interval, tick, None)];
              Buckets(Added(m, interval, HandlerInfo(tick, nextId)), kind, reg', ran)
    {
      var h := HandlerInfo(tick, nextId);
      var m' := Added(m, interval, h);
      var reg' := reg[nextId := Task(kind, interval, tick, None)];
      forall k, g
        ensures InBucket(m', k, g) <==> InBucket(m, k, g) || (k == interval && g == h)
      {
      }
      forall k | k in m'
        ensures Distinct(m'[k])
      {
        if k == interval && k in m {
          forall i | 0 <= i < |m[k]|
            ensures m[k][i].id != nextId
          {
            assert InBucket(m, k, m[k][i]);
          }
        }
      }
    }

    /** `add_onetime_task`. */
    method AddOnetimeTask(interval: nat) returns (id: nat)
      requires Valid()
      modifies this`onetimeTasks, this`nextId, this`reg
      ensures Valid() && id == old(nextId)
      ensures id !in old(reg) && reg == old(reg)[id := Task(OneTime, interval, tick, None)]
    {
      NewDebt(firstCalls, due, reg, nextId, Task(OneTime, interval, tick, None));
      id := FileOnetimeTask(interval);
    }

    method FileOnetimeTask(interval: nat) returns (id: nat)
      requires Filed()
      modifies this`onetimeTasks, this`nextId, this`reg
      ensures Filed() && id == old(nextId)
      ensures id !in old(reg) && reg == old(reg)[id := Task(OneTime, interval, tick, None)]
    {
      AddedBuckets(onetimeTasks, OneTime, interval);
      id := nextId;
      onetimeTasks := Added(onetimeTasks, interval, HandlerInfo(tick, id));
      nextId := nextId + 1;
      reg := reg[id := Task(OneTime, interval, tick, None)];
    }

    /** The locked part of `add_period_task`; the caller then owes the first call. */
    method AddPeriodTask(interval: nat) returns (id: nat)
      requires Valid()
      modifies this`periodTasks, this`nextId, this`reg, this`due
      ensures Valid() && id == old(nextId)
      ensures id !in old(reg) && reg == old(reg)[id := Task(Period, interval, tick, None)]
      ensures due == old(due) + multiset{id}
    {
      NewDebt(firstCalls, due, reg, nextId, Task(Period, interval, tick, None));
      id := FilePeriodTask(interval);
      due := due + multiset{id};
    }

    method FilePeriodTask(interval: nat) returns (id: nat)
      requires Filed()
      modifies this`periodTasks, this`nextId, this`reg
      ensures Filed() && id == old(nextId)
      ensures id !in old(reg) && reg == old(reg)[id := Task(Period, interval, tick, None)]
    {
      AddedBuckets(periodTasks, Period, interval);
      id := nextId;
      periodTasks := Added(periodTasks, interval, HandlerInfo(tick, id));
      nextId := nextId + 1;
      reg := reg[id := Task(Period, interval, tick, None)];
    }

    /** The call `f()` at the end of `add_period_task`, outside the lock: once for each. */
    method FirstCall(id: nat)
      requires Valid() && id in due
      modifies this`firstCalls, this`due
      ensures Valid() && id !in due && due == old(due) - multiset{id}
      ensures firstCalls == old(firstCalls) + multiset{id}
    {
      assert firstCalls[id] + due[id] == 1;
      firstCalls := firstCalls + multiset{id};
      due := due - multiset{id};
    }

    /** `remove_func_from_list`. */
    method RemoveFromList(id: nat, tasks: seq<HandlerInfo>) returns (found: bool, rest: seq<HandlerInfo>)
      requires Distinct(tasks)
      ensures found <==> exists h :: h in tasks && h.id == id
      ensures Distinct(rest)
      ensures forall h :: h in rest <==> h in tasks && h.id != id
    {
      var i := 0;
      while i < |tasks| && tasks[i].id != id
        invariant 0 <= i <= |tasks|
        invariant forall j :: 0 <= j < i ==> tasks[j].id != id
      {
        i := i + 1;
      }
      found := i < |tasks|;
      if found {
        rest := tasks[..i] + tasks[i + 1..];
        forall h | h in tasks && h.id != id
          ensures h in rest
        {
          var j :| 0 <= j < |tasks| && tasks[j] == h;
          assert h == if j < i then rest[j] else rest[j - 1];
        }
      } else {
        rest := tasks;
      }
    }

    /** `remove_task_from`: the buckets are searched until one holds the id. */
    method RemoveTaskFrom(id: nat, m: TaskMap) returns (found: bool, k: nat, rest: seq<HandlerInfo>)
      requires forall j :: j in m ==> Distinct(m[j])
      ensures found ==> k in m && (exists h :: InBucket(m, k, h) && h.id == id)
      ensures found ==> Distinct(rest) && forall h :: h in rest <==> h in m[k] && h.id != id
      ensures !found ==> forall j, h :: InBucket(m, j, h) ==> h.id != id
    {
      var keys := m.Keys;
      found, k, rest := false, 0, [];
      while keys != {} && !found
        invariant keys <= m.Keys
        invariant found ==> k in m && (exists h :: InBucket(m, k, h) && h.id == id)
        invariant found ==> Distinct(rest) && forall h :: h in rest <==> h in m[k] && h.id != id
        invariant !found ==> forall j, h :: InBucket(m, j, h) && h.id == id ==> j in keys
        decreases keys
      {
        k :| k in keys;
        found, rest := RemoveFromList(id, m[k]);
        if found {
          ghost var h :| h in m[k] && h.id == id;
          assert InBucket(m, k, h);
        }
        keys := keys - {k};
      }
    }

    /** `remove_period_task`. */
    method RemovePeriodTask(id: nat)
      requires Valid()
      modifies this`periodTasks, this`reg
      ensures Valid()
      ensures reg == if id in old(reg) && old(reg[id]).kind == Period && old(reg[id]).removed == None
                     then old(reg)[id := old(reg[id]).(removed := Some(ran))] else old(reg)
    {
      var found, k, rest := RemoveTaskFrom(id, periodTasks);
      if found {
        ghost var h :| InBucket(periodTasks, k, h) && h.id == id;
        FileWithout(id, k, rest);
      } else {
        NotPeriodic(id);
      }
    }

    method FileWithout(id: nat, k: nat, rest: seq<HandlerInfo>)
      requires Valid() && k in periodTasks && id in reg
      requires reg[id].kind == Period && reg[id].interval == k && reg[id].removed == None
      requires Distinct(rest) && forall h :: h in rest <==> h in periodTasks[k] && h.id != id
      modifies this`periodTasks, this`reg
      ensures Valid() && reg == old(reg)[id := old(reg[id]).(removed := Some(ran))]
    {
      RemovedBuckets(id, k, rest);
      periodTasks := periodTasks[k := rest];
      reg := reg[id := reg[id].(removed := Some(ran))];
    }

    lemma NotPeriodic(id: nat)
      requires Valid() && forall j, h :: InBucket(periodTasks, j, h) ==> h.id != id
      ensures id in reg ==> reg[id].kind != Period || reg[id].removed.Some?
    {
    }

    lemma RemovedBuckets(id: nat, k: nat, rest: seq<HandlerInfo>)
      requires Valid() && k in periodTasks && id in reg
      requires reg[id].kind == Period && reg[id].interval == k && reg[id].removed == None
      requires Distinct(rest) && forall h :: h in rest <==> h in periodTasks[k] && h.id != id
      ensures var reg' := reg[id := reg[id].(removed := Some(ran))];
              && Buckets(periodTasks[k := rest], Period, reg', ran)
              && Buckets(onetimeTasks, OneTime, reg', ran)
              && Runs(runs, reg', ran)
    {
      var m', reg' := periodTasks[k := rest], reg[id := reg[id].(removed := Some(ran))];
      forall j, h
        ensures InBucket(m', j, h) <==> InBucket(periodTasks, j, h) && h.id != id
      {
        if InBucket(periodTasks, j, h) && h.id == id {
          assert j == k;
        }
      }
    }

    /** The inner loop of `timer_handler` on one bucket. */
    method RunList(interval: nat, tasks: seq<HandlerInfo>)
      requires Distinct(tasks) && (interval == 0 ==> tasks == [])
      modifies this`runs
      ensures forall id, t :: runs[(id, t)] == old(runs[(id, t)]) + (if t == tick && DueHere(tasks, interval, id, t) then 1 else 0)
    {
      assert forall id, t :: !DueHere(tasks[..0], interval, id, t);
      for i := 0 to |tasks|
        invariant forall id, t :: runs[(id, t)] == old(runs[(id, t)]) + (if t == tick && DueHere(tasks[..i], interval, id, t) then 1 else 0)
      {
        DueHereSnoc(tasks, i, interval);
        if DueAt(tick, tasks[i].addTime, interval) {
          runs := runs + multiset{(tasks[i].id, tick)};
        }
      }
      assert tasks[..|tasks|] == tasks;
    }

    lemma DueHereSnoc(tasks: seq<HandlerInfo>, i: nat, interval: nat)
      requires i < |tasks| && Distinct(tasks)
      ensures forall id, t :: DueHere(tasks[..i + 1], interval, id, t) <==>
                DueHere(tasks[..i], interval, id, t) || (tasks[i].id == id && DueAt(t, tasks[i].addTime, interval))
      ensures forall t :: !DueHere(tasks[..i], interval, tasks[i].id, t)
    {
      var now, later := tasks[..i], tasks[..i + 1];
      assert later == now + [tasks[i]] && later[i] == tasks[i];
      forall id, t
        ensures DueHere(later, interval, id, t) <==>
          DueHere(now, interval, id, t) || (tasks[i].id == id && DueAt(t, tasks[i].addTime, interval))
        ensures DueHere(now, interval, id, t) ==> id != tasks[i].id
      {
        if DueHere(now, interval, id, t) {
          var h :| h in now && h.id == id && DueAt(t, h.addTime, interval);
          assert h in later;
        } else if tasks[i].id == id && DueAt(t, tasks[i].addTime, interval) {
          assert tasks[i] in later;
        }
      }
    }

    lemma DueInSnoc(m: TaskMap, done: set<nat>, k: nat)
      requires Separate(m) && done <= m.Keys && k in m && k !in done
      ensures forall id, t :: DueIn(m, done + {k}, id, t) <==> DueIn(m, done, id, t) || DueHere(m[k], k, id, t)
      ensures forall id, t :: !(DueIn(m, done, id, t) && DueHere(m[k], k, id, t))
    {
      forall id, t
        ensures !(DueIn(m, done, id, t) && DueHere(m[k], k, id, t))
      {
        if DueIn(m, done, id, t) && DueHere(m[k], k, id, t) {
          var j :| j in done && DueHere(m[j], j, id, t);
          var g :| g in m[j] && g.id == id && DueAt(t, g.addTime, j);
          var h :| h in m[k] && h.id == id && DueAt(t, h.addTime, k);
          assert InBucket(m, j, g) && InBucket(m, k, h);
        }
      }
    }

    /** The periodic half of `timer_handler`. */
    method RunPeriodTasks()
      requires Buckets(periodTasks, Period, reg, ran) && ZeroEmpty(periodTasks)
      modifies this`runs
      ensures Adds(old(runs), runs, periodTasks, periodTasks.Keys, tick)
    {
      BucketsSeparate(periodTasks, Period, reg, ran);
      var keys := periodTasks.Keys;
      ghost var done: set<nat> := {};
      AddsNothing(runs, periodTasks, tick);
      while keys != {}
        invariant keys + done == periodTasks.Keys && keys !! done
        invariant Adds(old(runs), runs, periodTasks, done, tick)
        decreases keys
      {
        var k :| k in keys;
        DueInSnoc(periodTasks, done, k);
        RunList(k, periodTasks[k]);
        keys, done := keys - {k}, done + {k};
      }
      assert done == periodTasks.Keys;
    }

    /** `remove_if(meet_condition)`. */
    method RemoveDue(interval: nat, tasks: seq<HandlerInfo>) returns (rest: seq<HandlerInfo>)
      requires Distinct(tasks) && (interval == 0 ==> tasks == [])
      ensures Distinct(rest)
      ensures forall h :: h in rest <==> h in tasks && !DueAt(tick, h.addTime, interval)
    {
      rest := [];
      for i := 0 to |tasks|
        invariant Distinct(rest)
        invariant forall h :: h in rest <==> h in tasks[..i] && !DueAt(tick, h.addTime, interval)
      {
        assert tasks[..i + 1] == tasks[..i] + [tasks[i]];
        if !DueAt(tick, tasks[i].addTime, interval) {
          forall j | 0 <= j < |rest|
            ensures rest[j].id != tasks[i].id
          {
            assert rest[j] in tasks[..i];
          }
          rest := rest + [tasks[i]];
        }
      }
      assert tasks[..|tasks|] == tasks;
    }

    /** The one-time half of `timer_handler`: run what is due, and drop it. */
    method RunOnetimeTasks()
      requires Buckets(onetimeTasks, OneTime, reg, ran) && ZeroEmpty(onetimeTasks)
      modifies this`runs, this`onetimeTasks
      ensures Separate(old(onetimeTasks))
      ensures Adds(old(runs), runs, old(onetimeTasks), old(onetimeTasks).Keys, tick)
      ensures Dropped(old(onetimeTasks), onetimeTasks, old(onetimeTasks).Keys, tick)
    {
      BucketsSeparate(onetimeTasks, OneTime, reg, ran);
      ghost var m := onetimeTasks;
      var keys := onetimeTasks.Keys;
      ghost var done: set<nat> := {};
      AddsNothing(runs, m, tick);
      while keys != {}
        invariant keys + done == m.Keys && keys !! done
        invariant Dropped(m, onetimeTasks, done, tick)
        invariant Adds(old(runs), runs, m, done, tick)
        decreases keys
      {
        var k :| k in keys;
        DueInSnoc(m, done, k);
        RunList(k, onetimeTasks[k]);
        var rest := RemoveDue(k, onetimeTasks[k]);
        DroppedSnoc(m, onetimeTasks, done, k, rest, tick);
        onetimeTasks := onetimeTasks[k := rest];
        keys, done := keys - {k}, done + {k};
      }
      assert done == m.Keys;
    }

    /**
     * `timer_handler`. A tick that comes without an error runs what is due, or fails
     * dividing by zero exactly when a task of interval zero is there: a periodic one
     * before anything is run. The first tick with an error (the timer was stopped) runs
     * nothing and is the last.
     */
    method TimerHandler(ok: bool) returns (failed: bool)
      requires Valid() && !stopped
      modifies this`tick, this`stopped, this`runs, this`onetimeTasks, this`ran
      ensures failed <==> ok && (ZeroTask(reg, Period, old(ran)) || ZeroTask(reg, OneTime, old(ran)))
      ensures !failed ==> Valid() && tick == old(tick) + 1 && stopped == !ok
      ensures !failed ==> ran == if ok then tick else old(ran)
      ensures ok && ZeroTask(reg, Period, old(ran)) ==> runs == old(runs)
    {
      failed := false;
      if ok {
        failed := GoodTick();
      } else {
        FailedTick();
      }
    }

    method GoodTick() returns (failed: bool)
      requires Filed() && !stopped
      modifies this`tick, this`runs, this`onetimeTasks, this`ran
      ensures failed <==> ZeroTask(reg, Period, old(ran)) || ZeroTask(reg, OneTime, old(ran))
      ensures !failed ==> Filed() && tick == old(tick) + 1 && ran == tick
      ensures ZeroTask(reg, Period, old(ran)) ==> runs == old(runs)
    {
      tick := tick + 1;
      failed := RunDue();
    }

    method FailedTick()
      requires Filed() && !stopped
      modifies this`tick, this`stopped
      ensures Filed() && tick == old(tick) + 1 && stopped
    {
      tick := tick + 1;
      stopped := true;
    }

    /** The buckets are run in the order of their intervals, so that zero comes first. */
    method RunDue() returns (failed: bool)
      requires tick == ran + 1 && AddedBy(reg, ran) && Runs(runs, reg, ran)
      requires Buckets(periodTasks, Period, reg, ran) && Buckets(onetimeTasks, OneTime, reg, ran)
      modifies this`runs, this`onetimeTasks, this`ran
      ensures failed <==> ZeroTask(reg, Period, old(ran)) || ZeroTask(reg, OneTime, old(ran))
      ensures !failed ==> ran == tick && Runs(runs, reg, ran)
      ensures !failed ==> Buckets(periodTasks, Period, reg, ran) && Buckets(onetimeTasks, OneTime, reg, ran)
      ensures ZeroTask(reg, Period, old(ran)) ==> runs == old(runs)
    {
      ZeroEmptyIff(periodTasks, Period, reg, ran);
      ZeroEmptyIff(onetimeTasks, OneTime, reg, ran);
      if 0 in periodTasks && periodTasks[0] != [] {
        return true;
      }
      RunDuePeriod();
      if 0 in onetimeTasks && onetimeTasks[0] != [] {
        return true;
      }
      RunDueOnetime();
      PeriodNow(periodTasks, reg, ran);
      ran := tick;
      failed := false;
    }

    method RunDuePeriod()
      requires tick == ran + 1 && AddedBy(reg, ran) && Runs(runs, reg, ran)
      requires Buckets(periodTasks, Period, reg, ran) && ZeroEmpty(periodTasks)
      modifies this`runs
      ensures HalfRuns(runs, reg, ran)
    {
      RunPeriodTasks();
      PeriodRunsNow(periodTasks, reg, ran, old(runs), runs);
    }

    method RunDueOnetime()
      requires tick == ran + 1 && AddedBy(reg, ran) && HalfRuns(runs, reg, ran)
      requires Buckets(onetimeTasks, OneTime, reg, ran) && ZeroEmpty(onetimeTasks)
      modifies this`runs, this`onetimeTasks
      ensures Runs(runs, reg, ran + 1) && Buckets(onetimeTasks, OneTime, reg, ran + 1)
    {
      RunOnetimeTasks();
      OneTimeRunsNow(old(onetimeTasks), reg, ran, old(runs), runs);
      OneTimeNow(old(onetimeTasks), onetimeTasks, reg, ran);
    }

    /**
     * The timer's guarantee after any calls. A periodic task that is still there has been
     * called once when it was added, if that call is not just due, and by the ticks once in
     * each full interval since; a one-time task has run once from its time on, and not
     * before. A task is in the buckets of its kind exactly while it may still run, and then
     * only in the bucket of its own interval.
     */
    lemma Guarantee(id: nat, k: nat)
      requires Valid() && id in reg && reg[id].interval > 0
      ensures reg[id].kind == Period && reg[id].removed == None && reg[id].addTime <= ran ==>
                firstCalls[id] + due[id] + Times(runs, id, ran) == 1 + (ran - reg[id].addTime) / reg[id].interval
      ensures reg[id].kind == OneTime ==>
                firstCalls[id] == 0 && Times(runs, id, ran) == if ran >= reg[id].addTime + reg[id].interval then 1 else 0
      ensures (exists h :: InBucket(periodTasks, k, h) && h.id == id) <==>
                reg[id].kind == Period && reg[id].removed == None && k == reg[id].interval
      ensures (exists h :: InBucket(onetimeTasks, k, h) && h.id == id) <==>
                reg[id].kind == OneTime && Times(runs, id, ran) == 0 && k == reg[id].interval
    {
      var h := HandlerInfo(reg[id].addTime, id);
      assert firstCalls[id] + due[id] == if reg[id].kind == Period then 1 else 0;
      if reg[id].kind == Period {
        PeriodTimes(runs, reg, ran, id, ran);
        assert Present(reg[id], ran) ==> InBucket(periodTasks, reg[id].interval, h);
        if reg[id].addTime == ran {
          Quotient(0, reg[id].interval, 0, 0);
        }
      } else {
        OneTimeTimes(runs, reg, ran, id, ran);
        assert Present(reg[id], ran) ==> InBucket(onetimeTasks, reg[id].interval, h);
      }
    }
  }
}
