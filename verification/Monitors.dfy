/** `CommBox` and `CommQueue`: monitors with an end flag, one condition for
    producers and one for consumers, and `notify_one` everywhere. A step is one
    critical section, from taking the lock to releasing it or falling asleep. */
module Monitors {
  import opened Wrappers

  /** A producer is outside `put`, asleep in it, or notified but not yet back. */
  datatype Producer<T> = PIdle | PWaiting(v: T) | PWoken(v: T)

  datatype Consumer = CIdle | CWaiting | CWoken | CEnded

  /** The box, its threads, and the histories of what was put and delivered. */
  datatype System<T> = System(
    items: seq<T>, allPut: bool,
    prods: seq<Producer<T>>, cons: seq<Consumer>,
    put: seq<T>, got: seq<T>)

  /** Capacity, and whether `get` notifies a producer. */
  datatype Config = Config(capacity: Option<nat>, getNotifies: bool)

  const COMM_BOX_CONFIG := Config(Some(1), true)
  const COMM_QUEUE_CONFIG := Config(None, false)

  /** `wake` names the thread that `notify_one` picks, if one sleeps. */
  datatype Step<T> =
    | Put(p: nat, v: T, wake: nat)
    | Retry(p: nat, wake: nat)
    | Get(c: nat, wake: nat)
    | AllPut(wake: nat)
    | SpuriousProducer(p: nat)
    | SpuriousConsumer(c: nat)

  predicate Full<T>(cfg: Config, s: System<T>) {
    cfg.capacity.Some? && |s.items| >= cfg.capacity.value
  }

  ghost predicate SomeConsumerWaits(cons: seq<Consumer>) {
    exists c :: 0 <= c < |cons| && cons[c] == CWaiting
  }

  ghost predicate SomeProducerWaits<T>(prods: seq<Producer<T>>) {
    exists p :: 0 <= p < |prods| && prods[p].PWaiting?
  }

  ghost predicate PicksConsumer<T>(s: System<T>, wake: nat) {
    SomeConsumerWaits(s.cons) ==> wake < |s.cons| && s.cons[wake] == CWaiting
  }

  ghost predicate PicksProducer<T>(prods: seq<Producer<T>>, wake: nat) {
    SomeProducerWaits(prods) ==> wake < |prods| && prods[wake].PWaiting?
  }

  function NotifyConsumer(cons: seq<Consumer>, wake: nat): seq<Consumer> {
    if wake < |cons| && cons[wake] == CWaiting then cons[wake := CWoken] else cons
  }

  function NotifyProducer<T>(prods: seq<Producer<T>>, wake: nat): seq<Producer<T>> {
    if wake < |prods| && prods[wake].PWaiting? then prods[wake := PWoken(prods[wake].v)] else prods
  }

  ghost predicate Enabled<T>(s: System<T>, step: Step<T>) {
    match step
    case Put(p, _, wake) => p < |s.prods| && s.prods[p] == PIdle && !s.allPut && PicksConsumer(s, wake)
    case Retry(p, wake) => p < |s.prods| && s.prods[p].PWoken? && PicksConsumer(s, wake)
    case Get(c, wake) =>
      c < |s.cons| && (s.cons[c] == CIdle || s.cons[c] == CWoken) && PicksProducer(s.prods, wake)
    case AllPut(wake) =>
      !s.allPut && (forall p :: 0 <= p < |s.prods| ==> s.prods[p] == PIdle) && PicksConsumer(s, wake)
    case SpuriousProducer(p) => p < |s.prods| && s.prods[p].PWaiting?
    case SpuriousConsumer(c) => c < |s.cons| && s.cons[c] == CWaiting
  }

  /** The body of `put` under the lock: sleep if full, else store and notify. */
  function PutSection<T>(cfg: Config, s: System<T>, p: nat, v: T, wake: nat): System<T>
    requires p < |s.prods|
  {
    if Full(cfg, s) then s.(prods := s.prods[p := PWaiting(v)])
    else s.(items := s.items + [v], put := s.put + [v],
            prods := s.prods[p := PIdle], cons := NotifyConsumer(s.cons, wake))
  }

  /** The body of `get`: sleep if empty and not ended, else deliver the front. */
  function GetSection<T>(cfg: Config, s: System<T>, c: nat, wake: nat): System<T>
    requires c < |s.cons|
  {
    if s.items == [] then
      s.(cons := s.cons[c := if s.allPut then CEnded else CWaiting])
    else
      s.(items := s.items[1..], got := s.got + [s.items[0]], cons := s.cons[c := CIdle],
         prods := if cfg.getNotifies then NotifyProducer(s.prods, wake) else s.prods)
  }

  function Apply<T>(cfg: Config, s: System<T>, step: Step<T>): System<T>
    requires Enabled(s, step)
  {
    match step
    case Put(p, v, wake) => PutSection(cfg, s, p, v, wake)
    case Retry(p, wake) => PutSection(cfg, s, p, s.prods[p].v, wake)
    case Get(c, wake) => GetSection(cfg, s, c, wake)
    case AllPut(wake) => s.(allPut := true, cons := NotifyConsumer(s.cons, wake))
    case SpuriousProducer(p) => s.(prods := s.prods[p := PWoken(s.prods[p].v)])
    case SpuriousConsumer(c) => s.(cons := s.cons[c := CWoken])
  }

  // -------------------------------------------------------------------------
  // Safety, for any number of threads.

  ghost predicate Safe<T>(cfg: Config, s: System<T>) {
    && s.put == s.got + s.items
    && (cfg.capacity.Some? ==> |s.items| <= cfg.capacity.value)
    && (s.allPut ==> forall p :: 0 <= p < |s.prods| ==> s.prods[p] == PIdle)
    && (forall c :: 0 <= c < |s.cons| && s.cons[c] == CEnded ==> s.allPut && s.items == [])
  }

  lemma StepIsSafe<T>(cfg: Config, s: System<T>, step: Step<T>)
    requires Safe(cfg, s) && Enabled(s, step)
    ensures Safe(cfg, Apply(cfg, s, step))
  {
    if step.Get? {
      GetIsSafe(cfg, s, step);
    }
  }

  lemma GetIsSafe<T>(cfg: Config, s: System<T>, step: Step<T>)
    requires Safe(cfg, s) && Enabled(s, step) && step.Get?
    ensures Safe(cfg, Apply(cfg, s, step))
  {
    if s.items != [] {
      assert s.items == [s.items[0]] + s.items[1..];
    }
  }

  /** What is delivered is a prefix of what was put, in order, and a consumer is
      told the end only after everything put was delivered. */
  lemma SafeMeans<T>(cfg: Config, s: System<T>, c: nat)
    requires Safe(cfg, s) && c < |s.cons|
    ensures s.got <= s.put
    ensures s.cons[c] == CEnded ==> s.got == s.put
  {
  }

  // -------------------------------------------------------------------------
  // No thread is stranded, with one consumer.

  function Woken<T>(prods: seq<Producer<T>>): nat {
    if prods == [] then 0
    else Woken(prods[..|prods| - 1]) + if prods[|prods| - 1].PWoken? then 1 else 0
  }

  lemma {:induction false} WokenUpdate<T>(prods: seq<Producer<T>>, p: nat, x: Producer<T>)
    requires p < |prods|
    ensures Woken(prods[p := x])
         == Woken(prods) - (if prods[p].PWoken? then 1 else 0) + (if x.PWoken? then 1 else 0)
  {
    var n := |prods| - 1;
    if p == n {
      assert prods[p := x][..n] == prods[..n];
    } else {
      WokenUpdate(prods[..n], p, x);
      assert prods[p := x][..n] == prods[..n][p := x];
    }
  }

  lemma {:induction false} SomeWoken<T>(prods: seq<Producer<T>>) returns (p: nat)
    requires Woken(prods) > 0
    ensures p < |prods| && prods[p].PWoken?
  {
    var n := |prods| - 1;
    if prods[n].PWoken? {
      p := n;
    } else {
      p := SomeWoken(prods[..n]);
    }
  }

  /** Every free place is matched by a producer on its way, if any sleeps. */
  ghost predicate Live<T>(cfg: Config, s: System<T>) {
    && |s.cons| == 1
    && (s.cons[0] == CWaiting ==> s.items == [] && !s.allPut)
    && (SomeProducerWaits(s.prods) ==>
          cfg.capacity.Some? && cfg.capacity.value <= |s.items| + Woken(s.prods))
  }

  ghost predicate ValidConfig(cfg: Config) {
    cfg.capacity.Some? ==> cfg.capacity.value > 0 && cfg.getNotifies
  }

  lemma PutStaysLive<T>(cfg: Config, s: System<T>, p: nat, v: T, wake: nat)
    requires ValidConfig(cfg) && Safe(cfg, s) && Live(cfg, s)
    requires p < |s.prods| && !s.allPut && !s.prods[p].PWaiting? && PicksConsumer(s, wake)
    ensures Live(cfg, PutSection(cfg, s, p, v, wake))
  {
    var r := PutSection(cfg, s, p, v, wake);
    WokenUpdate(s.prods, p, r.prods[p]);
    if SomeProducerWaits(r.prods) && !Full(cfg, s) {
      var q :| 0 <= q < |r.prods| && r.prods[q].PWaiting?;
      assert s.prods[q].PWaiting?;
    }
    if s.cons[0] == CWaiting {
      assert SomeConsumerWaits(s.cons);
    }
  }

  lemma GetStaysLive<T>(cfg: Config, s: System<T>, wake: nat)
    requires ValidConfig(cfg) && Safe(cfg, s) && Live(cfg, s)
    requires s.cons[0] == CIdle || s.cons[0] == CWoken
    requires PicksProducer(s.prods, wake)
    ensures Live(cfg, GetSection(cfg, s, 0, wake))
  {
    var r := GetSection(cfg, s, 0, wake);
    if SomeProducerWaits(r.prods) {
      var q :| 0 <= q < |r.prods| && r.prods[q].PWaiting?;
      assert s.prods[q].PWaiting?;
      assert SomeProducerWaits(s.prods);
      if s.items != [] {
        WokenUpdate(s.prods, wake, PWoken(s.prods[wake].v));
      }
    }
  }

  lemma StepStaysLive<T>(cfg: Config, s: System<T>, step: Step<T>)
    requires ValidConfig(cfg) && Safe(cfg, s) && Live(cfg, s) && Enabled(s, step)
    ensures Live(cfg, Apply(cfg, s, step))
  {
    match step
    case Put(p, v, wake) => PutStaysLive(cfg, s, p, v, wake);
    case Retry(p, wake) => PutStaysLive(cfg, s, p, s.prods[p].v, wake);
    case Get(c, wake) => GetStaysLive(cfg, s, wake);
    case AllPut(wake) =>
      if s.cons[0] == CWaiting {
        assert SomeConsumerWaits(s.cons);
      }
    case SpuriousProducer(p) =>
      WokenUpdate(s.prods, p, PWoken(s.prods[p].v));
    case SpuriousConsumer(c) =>
  }

  function Init<T>(prods: nat, cons: nat): System<T> {
    System([], false, seq(prods, _ => PIdle), seq(cons, _ => CIdle), [], [])
  }

  ghost predicate IsRun<T>(cfg: Config, s: System<T>, steps: seq<Step<T>>, end: System<T>)
    decreases |steps|
  {
    if steps == [] then s == end
    else Enabled(s, steps[0]) && IsRun(cfg, Apply(cfg, s, steps[0]), steps[1..], end)
  }

  lemma {:induction false} RunIsSafe<T>(cfg: Config, s: System<T>, steps: seq<Step<T>>, end: System<T>)
    requires Safe(cfg, s) && IsRun(cfg, s, steps, end)
    ensures Safe(cfg, end)
    ensures ValidConfig(cfg) && Live(cfg, s) ==> Live(cfg, end)
    decreases |steps|
  {
    if steps != [] {
      StepIsSafe(cfg, s, steps[0]);
      if ValidConfig(cfg) && Live(cfg, s) {
        StepStaysLive(cfg, s, steps[0]);
      }
      RunIsSafe(cfg, Apply(cfg, s, steps[0]), steps[1..], end);
    }
  }

  /** No thread that could move is awake, and some thread sleeps. */
  ghost predicate Stranded<T>(s: System<T>) {
    && (SomeConsumerWaits(s.cons) || SomeProducerWaits(s.prods))
    && (forall c :: 0 <= c < |s.cons| ==> s.cons[c] == CWaiting || s.cons[c] == CEnded)
    && (forall p :: 0 <= p < |s.prods| ==> s.prods[p].PWaiting? || (s.allPut && s.prods[p] == PIdle))
  }

  /** One consumer and at least one producer: whatever the interleaving and the
      spurious wake-ups, a sleeping consumer has nothing to fetch and no end to
      report, sleeping producers have no place that none of them was told of,
      the two sides never sleep together, and no run strands anybody. */
  lemma OneConsumerNeverStranded<T>(cfg: Config, prods: nat, steps: seq<Step<T>>, end: System<T>)
    requires ValidConfig(cfg) && IsRun(cfg, Init<T>(prods, 1), steps, end) && |end.prods| > 0
    ensures |end.cons| == 1
    ensures end.cons[0] == CWaiting ==> end.items == [] && !end.allPut
    ensures SomeProducerWaits(end.prods) ==> Full(cfg, end) || Woken(end.prods) > 0
    ensures end.cons[0] == CWaiting && SomeProducerWaits(end.prods) ==> Woken(end.prods) > 0
    ensures !Stranded(end)
    ensures end.got <= end.put && (end.cons[0] == CEnded ==> end.got == end.put)
  {
    RunIsSafe(cfg, Init<T>(prods, 1), steps, end);
    if Woken(end.prods) > 0 {
      var p := SomeWoken(end.prods);
    }
    if end.cons[0] == CEnded {
      assert forall p :: 0 <= p < |end.prods| ==> end.prods[p] == PIdle;
    } else if end.cons[0] == CWaiting && !SomeProducerWaits(end.prods) {
      assert !end.prods[0].PWaiting?;
    }
  }

  /** So it is with the box, which holds one item and whose `get` notifies, and with the queue. */
  lemma BoxAndQueueNeverStrand<T>(cfg: Config, prods: nat, steps: seq<Step<T>>, end: System<T>)
    requires cfg == COMM_BOX_CONFIG || cfg == COMM_QUEUE_CONFIG
    requires IsRun(cfg, Init<T>(prods, 1), steps, end) && |end.prods| > 0
    ensures !Stranded(end) && (cfg == COMM_BOX_CONFIG ==> |end.items| <= 1)
  {
    OneConsumerNeverStranded(cfg, prods, steps, end);
    RunIsSafe(cfg, Init<T>(prods, 1), steps, end);
  }

  /** With one producer, it sleeps un-notified only on a full box. */
  lemma OneProducerSleepsOnFull<T>(cfg: Config, steps: seq<Step<T>>, end: System<T>)
    requires ValidConfig(cfg) && IsRun(cfg, Init<T>(1, 1), steps, end)
    ensures |end.prods| == 1 && (end.prods[0].PWaiting? ==> Full(cfg, end))
    ensures !(|end.cons| == 1 && end.cons[0] == CWaiting && end.prods[0].PWaiting?)
  {
    RunKeepsThreads(cfg, Init<T>(1, 1), steps, end);
    OneConsumerNeverStranded(cfg, 1, steps, end);
    if Woken(end.prods) > 0 {
      var p := SomeWoken(end.prods);
    }
  }

  // -------------------------------------------------------------------------
  // Nothing is lost or made up between `put` and the box.

  /** The producer is asleep with this value. */
  function Carries<T(==)>(p: Producer<T>, v: T): nat {
    if p != PIdle && p.v == v then 1 else 0
  }

  function AllCarry<T(==)>(prods: seq<Producer<T>>, v: T): nat {
    if prods == [] then 0 else AllCarry(prods[..|prods| - 1], v) + Carries(prods[|prods| - 1], v)
  }

  /** How often `put` was called with this value. */
  function Offered<T(==)>(steps: seq<Step<T>>, v: T): nat {
    if steps == [] then 0 else (if steps[0].Put? && steps[0].v == v then 1 else 0) + Offered(steps[1..], v)
  }

  lemma {:induction false} CarryUpdate<T>(prods: seq<Producer<T>>, p: nat, x: Producer<T>, v: T)
    requires p < |prods|
    ensures AllCarry(prods[p := x], v) == AllCarry(prods, v) - Carries(prods[p], v) + Carries(x, v)
  {
    var n := |prods| - 1;
    if p == n {
      assert prods[p := x][..n] == prods[..n];
    } else {
      CarryUpdate(prods[..n], p, x, v);
      assert prods[p := x][..n] == prods[..n][p := x];
    }
  }

  /** In every run each value is in the box's history, or asleep with its producers, as often
      as it was offered. */
  lemma {:induction false} OfferedIsPut<T>(cfg: Config, s: System<T>, steps: seq<Step<T>>, end: System<T>, v: T)
    requires IsRun(cfg, s, steps, end)
    ensures multiset(end.put)[v] + AllCarry(end.prods, v) ==
            multiset(s.put)[v] + AllCarry(s.prods, v) + Offered(steps, v)
    decreases |steps|
  {
    if steps != [] {
      OneOffered(cfg, s, steps[0], v);
      OfferedIsPut(cfg, Apply(cfg, s, steps[0]), steps[1..], end, v);
    }
  }

  lemma OneOffered<T>(cfg: Config, s: System<T>, step: Step<T>, v: T)
    requires Enabled(s, step)
    ensures var r := Apply(cfg, s, step);
            multiset(r.put)[v] + AllCarry(r.prods, v) ==
            multiset(s.put)[v] + AllCarry(s.prods, v) + if step.Put? && step.v == v then 1 else 0
  {
    match step
    case Put(p, x, _) => CarryUpdate(s.prods, p, if Full(cfg, s) then PWaiting(x) else PIdle, v);
    case Retry(p, _) => CarryUpdate(s.prods, p, if Full(cfg, s) then PWaiting(s.prods[p].v) else PIdle, v);
    case Get(c, wake) =>
      if wake < |s.prods| && s.prods[wake].PWaiting? {
        CarryUpdate(s.prods, wake, PWoken(s.prods[wake].v), v);
      }
    case SpuriousProducer(p) => CarryUpdate(s.prods, p, PWoken(s.prods[p].v), v);
    case AllPut(_) =>
    case SpuriousConsumer(_) =>
  }

  lemma {:induction false} RunKeepsThreads<T>(cfg: Config, s: System<T>, steps: seq<Step<T>>, end: System<T>)
    requires IsRun(cfg, s, steps, end)
    ensures |end.prods| == |s.prods| && |end.cons| == |s.cons|
    decreases |steps|
  {
    if steps != [] {
      RunKeepsThreads(cfg, Apply(cfg, s, steps[0]), steps[1..], end);
    }
  }

  // -------------------------------------------------------------------------
  // Where `notify_one` is not enough.

  lemma {:induction false} RunConcat<T>(cfg: Config, s: System<T>, a: seq<Step<T>>, m: System<T>, b: seq<Step<T>>, end: System<T>)
    requires IsRun(cfg, s, a, m) && IsRun(cfg, m, b, end)
    ensures IsRun(cfg, s, a + b, end)
    decreases |a|
  {
    if a == [] {
      assert a + b == b;
    } else {
      RunConcat(cfg, Apply(cfg, s, a[0]), a[1..], m, b, end);
      assert (a + b)[1..] == a[1..] + b;
    }
  }

  /** `k` consumers have come and found the box empty. */
  function Waiting<T>(prods: nat, n: nat, k: nat): System<T> {
    Init<T>(prods, n).(cons := seq(n, i => if i < k then CWaiting else CIdle))
  }

  lemma {:induction false} AllFallAsleep<T>(cfg: Config, prods: nat, n: nat, k: nat) returns (steps: seq<Step<T>>)
    requires k <= n
    ensures IsRun(cfg, Init<T>(prods, n), steps, Waiting<T>(prods, n, k))
  {
    if k == 0 {
      steps := [];
      assert Waiting<T>(prods, n, 0) == Init<T>(prods, n);
    } else {
      var before := AllFallAsleep<T>(cfg, prods, n, k - 1);
      var s := Waiting<T>(prods, n, k - 1);
      var step := Get(k - 1, 0);
      assert !SomeProducerWaits(s.prods);
      assert Apply(cfg, s, step) == Waiting<T>(prods, n, k);
      assert IsRun(cfg, s, [step], Waiting<T>(prods, n, k)) by {
        assert [step][1..] == [];
      }
      RunConcat(cfg, Init<T>(prods, n), before, s, [step], Waiting<T>(prods, n, k));
      steps := before + [step];
    }
  }

  /** The end of the stream wakes one consumer; a second one would sleep on. */
  lemma TwoConsumersStranded<T>(cfg: Config, prods: nat, n: nat) returns (steps: seq<Step<T>>, end: System<T>)
    requires n >= 2
    ensures IsRun(cfg, Init<T>(prods, n), steps, end) && Stranded(end)
  {
    var s := Waiting<T>(prods, n, n);
    var before := AllFallAsleep<T>(cfg, prods, n, n);
    assert s.cons[0] == CWaiting && SomeConsumerWaits(s.cons);
    var a: Step<T> := AllPut(0);
    var s1 := Apply(cfg, s, a);
    var b: Step<T> := Get(0, 0);
    assert !SomeProducerWaits(s1.prods);
    end := Apply(cfg, s1, b);
    assert IsRun(cfg, s, [a, b], end) by {
      assert [a, b][1..] == [b] && [b][1..] == [];
    }
    RunConcat(cfg, Init<T>(prods, n), before, s, [a, b], end);
    steps := before + [a, b];
    assert end.cons[1] == CWaiting;
  }

  ghost predicate CanStrand<T(!new)>(cfg: Config, s: System<T>) {
    exists steps, end :: IsRun(cfg, s, steps, end) && Stranded(end)
  }

  function Copies<T>(v: T, k: nat): seq<T> {
    seq(k, _ => v)
  }

  /** The first `m` of `n` producers sleep with the same item. */
  function Sleepers<T>(v: T, n: nat, m: nat): seq<Producer<T>> {
    seq(n, i => if i < m then PWaiting(v) else PIdle)
  }

  /** `k` equal items put, `j` of them delivered, to one consumer. */
  function Queued<T>(v: T, k: nat, j: nat, prods: seq<Producer<T>>): System<T>
    requires j <= k
  {
    System(Copies(v, k - j), false, prods, [CIdle], Copies(v, k), Copies(v, j))
  }

  /** One more step at the end of a run. */
  lemma Then<T>(cfg: Config, s: System<T>, steps: seq<Step<T>>, m: System<T>, step: Step<T>, end: System<T>)
    returns (steps': seq<Step<T>>)
    requires IsRun(cfg, s, steps, m) && Enabled(m, step) && end == Apply(cfg, m, step)
    ensures IsRun(cfg, s, steps', end)
  {
    assert [step][1..] == [] && IsRun(cfg, end, [], end);
    assert IsRun(cfg, m, [step], end);
    RunConcat(cfg, s, steps, m, [step], end);
    steps' := steps + [step];
  }

  /** The queue is filled. */
  lemma {:induction false} FillQueue<T>(cfg: Config, v: T, n: nat, k: nat) returns (steps: seq<Step<T>>)
    requires n > 0 && cfg.capacity.Some? && k <= cfg.capacity.value
    ensures IsRun(cfg, Init<T>(n, 1), steps, Queued(v, k, 0, Sleepers(v, n, 0)))
  {
    if k == 0 {
      steps := [];
      assert Init<T>(n, 1) == Queued(v, 0, 0, Sleepers(v, n, 0));
    } else {
      steps := FillQueue(cfg, v, n, k - 1);
      var s, step := Queued(v, k - 1, 0, Sleepers(v, n, 0)), Put(0, v, 0);
      assert Apply(cfg, s, step) == Queued(v, k, 0, Sleepers(v, n, 0));
      steps := Then(cfg, Init<T>(n, 1), steps, s, step, Queued(v, k, 0, Sleepers(v, n, 0)));
    }
  }

  /** Then every producer comes once more, and sleeps. */
  lemma {:induction false} AllProducersSleep<T>(cfg: Config, v: T, n: nat, m: nat) returns (steps: seq<Step<T>>)
    requires n > 0 && cfg.capacity.Some? && m <= n
    ensures IsRun(cfg, Init<T>(n, 1), steps, Queued(v, cfg.capacity.value, 0, Sleepers(v, n, m)))
  {
    if m == 0 {
      steps := FillQueue(cfg, v, n, cfg.capacity.value);
    } else {
      steps := AllProducersSleep(cfg, v, n, m - 1);
      var k := cfg.capacity.value;
      var s, end, step := Queued(v, k, 0, Sleepers(v, n, m - 1)), Queued(v, k, 0, Sleepers(v, n, m)), Put(m - 1, v, 0);
      assert Apply(cfg, s, step) == end by {
        assert Sleepers(v, n, m - 1)[m - 1 := PWaiting(v)] == Sleepers(v, n, m);
      }
      steps := Then(cfg, Init<T>(n, 1), steps, s, step, end);
    }
  }

  /** The consumer takes everything, and wakes nobody. */
  lemma {:induction false} DrainQueue<T>(cfg: Config, v: T, n: nat, j: nat) returns (steps: seq<Step<T>>)
    requires n > 0 && cfg.capacity.Some? && !cfg.getNotifies && j <= cfg.capacity.value
    ensures IsRun(cfg, Init<T>(n, 1), steps, Queued(v, cfg.capacity.value, j, Sleepers(v, n, n)))
  {
    if j == 0 {
      steps := AllProducersSleep(cfg, v, n, n);
    } else {
      steps := DrainQueue(cfg, v, n, j - 1);
      var k := cfg.capacity.value;
      var s, end, step := Queued(v, k, j - 1, Sleepers(v, n, n)), Queued(v, k, j, Sleepers(v, n, n)), Get(0, 0);
      assert s.prods[0].PWaiting?;
      assert Apply(cfg, s, step) == end by {
        assert Copies(v, j - 1) + [v] == Copies(v, j);
      }
      steps := Then(cfg, Init<T>(n, 1), steps, s, step, end);
    }
  }

  /** A `get` that does not notify, as that of `CommQueue`: with a finite capacity, any
      number of producers and their consumer can all sleep for ever on an empty queue. */
  lemma FiniteQueueStrands<T>(cfg: Config, v: T, n: nat) returns (steps: seq<Step<T>>, end: System<T>)
    requires n > 0 && cfg.capacity.Some? && !cfg.getNotifies
    ensures IsRun(cfg, Init<T>(n, 1), steps, end)
    ensures Stranded(end) && end.items == [] && end.prods == Sleepers(v, n, n)
  {
    var k := cfg.capacity.value;
    steps := DrainQueue(cfg, v, n, k);
    var empty := Queued(v, k, k, Sleepers(v, n, n));
    assert empty.prods[0].PWaiting?;
    end := Apply(cfg, empty, Get(0, 0));
    steps := Then(cfg, Init<T>(n, 1), steps, empty, Get(0, 0), end);
    assert end.cons[0] == CWaiting;
  }

  /** Some run strands a thread exactly when there are several consumers, or the capacity
      is finite and `get` does not notify. */
  lemma StrandsIff<T(!new)>(cfg: Config, v: T, prods: nat, n: nat)
    requires prods > 0 && n > 0 && (cfg.capacity.Some? ==> cfg.capacity.value > 0)
    ensures CanStrand(cfg, Init<T>(prods, n)) <==> n >= 2 || (cfg.capacity.Some? && !cfg.getNotifies)
  {
    var s := Init<T>(prods, n);
    if n >= 2 {
      var steps, end := TwoConsumersStranded<T>(cfg, prods, n);
      assert IsRun(cfg, s, steps, end);
    } else if cfg.capacity.Some? && !cfg.getNotifies {
      var steps, end := FiniteQueueStrands(cfg, v, prods);
      assert IsRun(cfg, s, steps, end);
    } else {
      forall steps, end | IsRun(cfg, s, steps, end)
        ensures !Stranded(end)
      {
        RunKeepsThreads(cfg, s, steps, end);
        OneConsumerNeverStranded(cfg, prods, steps, end);
      }
    }
  }

  // -------------------------------------------------------------------------
  // The code: the critical sections of the two classes.

  class CommBox<T> {
    var data: T
    var dataValid: bool
    var allPut: bool

    constructor (init: T)
      ensures Items() == [] && !allPut
    {
      data, dataValid, allPut := init, false, false;
    }

    function Items(): seq<T>
      reads this
    {
      if dataValid then [data] else []
    }

    /** One pass of `put` under the lock; when it must wait `done` is false, and else a
        consumer is notified. */
    method TryPut(t: T) returns (done: bool, notify: bool)
      modifies this`data, this`dataValid
      ensures forall s: System<T>, p: nat, wake: nat :: s.items == old(Items()) && p < |s.prods| ==>
                var r := PutSection(COMM_BOX_CONFIG, s, p, t, wake);
                && Items() == r.items
                && r.prods == s.prods[p := if done then PIdle else PWaiting(t)]
                && r.cons == (if notify then NotifyConsumer(s.cons, wake) else s.cons)
      ensures done <==> old(Items()) == []
    {
      done, notify := !dataValid, false;
      if done {
        data := t;
        dataValid := true;
        notify := true;
      }
    }

    /** One pass of `get`: an item, and a producer notified; or the end of the stream, or
        neither yet. */
    method TryGet() returns (item: Option<T>, ended: bool, notify: bool)
      modifies this`dataValid
      ensures forall s: System<T>, c: nat, wake: nat ::
                s.items == old(Items()) && s.allPut == allPut && c < |s.cons| ==>
                  var r := GetSection(COMM_BOX_CONFIG, s, c, wake);
                  && Items() == r.items
                  && r.got == s.got + (if item.Some? then [item.value] else [])
                  && r.cons == s.cons[c := if item.Some? then CIdle else if ended then CEnded else CWaiting]
                  && r.prods == (if notify then NotifyProducer(s.prods, wake) else s.prods)
      ensures item.Some? <==> old(Items()) != []
    {
      if dataValid {
        item, ended, notify := Some(data), false, true;
        dataValid := false;
      } else {
        item, ended, notify := None, allPut, false;
      }
    }
  }

  class CommQueue<T> {
    var queue: seq<T>
    var allPut: bool

    constructor ()
      ensures queue == [] && !allPut
    {
      queue, allPut := [], false;
    }

    /** `put`: there is no limit, and a consumer is notified. */
    method TryPut(t: T) returns (notify: bool)
      modifies this`queue
      ensures forall s: System<T>, p: nat, wake: nat :: s.items == old(queue) && p < |s.prods| ==>
                var r := PutSection(COMM_QUEUE_CONFIG, s, p, t, wake);
                && queue == r.items
                && r.prods == s.prods[p := PIdle]
                && r.cons == (if notify then NotifyConsumer(s.cons, wake) else s.cons)
    {
      queue := queue + [t];
      notify := true;
    }

    /** One pass of `get`: an item, the end, or neither yet; no producer is notified. */
    method TryGet() returns (item: Option<T>, ended: bool)
      modifies this`queue
      ensures forall s: System<T>, c: nat, wake: nat ::
                s.items == old(queue) && s.allPut == allPut && c < |s.cons| ==>
                  var r := GetSection(COMM_QUEUE_CONFIG, s, c, wake);
                  && queue == r.items
                  && r.got == s.got + (if item.Some? then [item.value] else [])
                  && r.cons == s.cons[c := if item.Some? then CIdle else if ended then CEnded else CWaiting]
                  && r.prods == s.prods
      ensures item.Some? <==> old(queue) != []
    {
      if |queue| > 0 {
        item, ended := Some(queue[0]), false;
        queue := queue[1..];
      } else {
        item, ended := None, allPut;
      }
    }
  }
}
