/** The load-balancing policy on values: the comparison that orders matchers,
    what its first choice means, and the bound it keeps over whole runs. */
module Balance {
  import opened Wrappers

  /** `load_compare`: below the threshold the greater load comes first. */
  predicate LoadCompare(l: nat, r: nat, thres: nat) {
    if l < thres && r < thres then !(l < r) else l < r
  }

  /** `l` may stand before `r` once sorted. */
  predicate Before(l: nat, r: nat, thres: nat) {
    LoadCompare(l, r, thres) || !LoadCompare(r, l, thres)
  }

  /** The comparison answers true both ways, so it is no strict order, exactly
      on equal loads below the threshold. */
  lemma CompareBothWays(l: nat, r: nat, thres: nat)
    ensures LoadCompare(l, r, thres) && LoadCompare(r, l, thres) <==> l == r < thres
  {
  }

  /** Up to those ties it is a total preorder. */
  lemma BeforeIsTotalPreorder(a: nat, b: nat, c: nat, thres: nat)
    ensures Before(a, b, thres) || Before(b, a, thres)
    ensures Before(a, b, thres) && Before(b, c, thres) ==> Before(a, c, thres)
  {
  }

  /** The greatest load below the threshold if there is one, else the least. */
  ghost predicate IsChoice<K>(loads: map<K, nat>, c: K, thres: nat) {
    && c in loads
    && if exists k :: k in loads && loads[k] < thres
       then loads[c] < thres && forall k :: k in loads && loads[k] < thres ==> loads[k] <= loads[c]
       else forall k :: k in loads ==> loads[c] <= loads[k]
  }

  /** A matcher that no other has to precede is the choice, and conversely. */
  lemma FirstIsChoice<K>(loads: map<K, nat>, c: K, thres: nat)
    requires c in loads
    ensures (forall k :: k in loads ==> Before(loads[c], loads[k], thres)) <==> IsChoice(loads, c, thres)
  {
    if IsChoice(loads, c, thres) {
      forall k | k in loads
        ensures Before(loads[c], loads[k], thres)
      {
        if loads[k] < thres {
          assert exists j :: j in loads && loads[j] < thres;
        }
      }
    }
    if forall k :: k in loads ==> Before(loads[c], loads[k], thres) {
      if exists j :: j in loads && loads[j] < thres {
        var j :| j in loads && loads[j] < thres;
        assert Before(loads[c], loads[j], thres);
      }
    }
  }

  // -------------------------------------------------------------------------
  // Runs of one domain's loader beside the timer.

  /** The loader is idle; sends a section to a matcher it chose; or has read the matcher's
      load, in `increase_load`, and not yet written the sum back. */
  datatype Pending<K> = Idle | Chosen(c: K) | Read(c: K, load: nat)

  /** Loads of the READY matchers, and what the loader is at. */
  datatype Loads<K> = Loads(ready: map<K, nat>, pending: Pending<K>)

  /** `LostWrite` is a decay that reads the matcher's load before the loader writes it, and
      writes after: the sum is overwritten. */
  datatype Step<K> =
    | Choose(c: K)
    | ReadLoad
    | WriteLoad
    | LostWrite(reduced: nat)
    | Decay(reduced: nat)
    | Leave(k: K)
    | Join(k: K)

  function Decayed<K>(ready: map<K, nat>, reduced: nat): map<K, nat> {
    map k | k in ready :: if ready[k] > reduced then ready[k] - reduced else 0
  }

  function Committed<K>(ready: map<K, nat>, c: K, g: nat): map<K, nat> {
    if c in ready then ready[c := ready[c] + g] else ready
  }

  /** Every load falls by the amount, or to zero; and two decays are one of both amounts. */
  lemma DecaysAddUp<K>(ready: map<K, nat>, a: nat, b: nat, k: K)
    requires k in ready
    ensures k in Decayed(ready, a) && Decayed(ready, a)[k] == Max(ready[k] - a, 0)
    ensures Decayed(Decayed(ready, a), b) == Decayed(ready, a + b)
  {
  }

  /** The loader is at a matcher that is still READY. */
  predicate Busy<K>(s: Loads<K>) {
    !s.pending.Idle? && s.pending.c in s.ready
  }

  /** The load it will add to. */
  function Base<K>(s: Loads<K>): nat
    requires Busy(s)
  {
    if s.pending.Read? then s.pending.load else s.ready[s.pending.c]
  }

  ghost predicate Enabled<K>(s: Loads<K>, step: Step<K>, thres: nat, g: nat) {
    match step
    case Choose(c) => s.pending.Idle? && IsChoice(s.ready, c, thres)
    case ReadLoad => s.pending.Chosen?
    case WriteLoad => s.pending.Read?
    case LostWrite(_) => s.pending.Read?
    case Decay(r) => MayDecay(s, r, thres)
    case Leave(_) => true
    case Join(k) => k !in s.ready && !(!s.pending.Idle? && s.pending.c == k) && MayJoin(s, thres, g)
  }

  /** When an idle matcher may become READY: no load is above the threshold by more than a
      slice, and no section is on its way to a load that it would then be chosen before. */
  ghost predicate MayJoin<K>(s: Loads<K>, thres: nat, g: nat) {
    && (forall i :: i in s.ready ==> s.ready[i] <= Max(thres - 1, 0) + g)
    && (Busy(s) ==> Base(s) < thres || Base(s) == 0)
  }

  /** When the timer may reduce the loads: not while the loader holds a load it has read at
      or above the threshold, and that another load would fall below. */
  ghost predicate MayDecay<K>(s: Loads<K>, reduced: nat, thres: nat) {
    s.pending.Read? && Busy(s) && Base(s) >= thres ==>
      forall j :: j in s.ready && j != s.pending.c ==> Base(s) <= Decayed(s.ready, reduced)[j]
  }

  function Apply<K>(s: Loads<K>, step: Step<K>, g: nat): Loads<K> {
    match step
    case Choose(c) => s.(pending := Chosen(c))
    case ReadLoad =>
      if s.pending.Idle? then s
      else s.(pending := Read(s.pending.c, if s.pending.c in s.ready then s.ready[s.pending.c] else 0))
    case WriteLoad =>
      Loads(if s.pending.Read? && Busy(s) then s.ready[s.pending.c := s.pending.load + g] else s.ready, Idle)
    case LostWrite(r) => Loads(Decayed(s.ready, r), Idle)
    case Decay(r) => s.(ready := Decayed(s.ready, r))
    case Leave(k) => s.(ready := s.ready - {k})
    case Join(k) => s.(ready := s.ready[k := 0])
  }

  function Max(a: int, b: int): int {
    if a < b then b else a
  }

  /** No READY load exceeds `thres - 1`, or any other READY load, by more than
      one slice. */
  ghost predicate Balanced<K>(ready: map<K, nat>, thres: nat, g: nat) {
    forall i, j :: i in ready && j in ready ==> ready[i] <= Max(thres - 1, ready[j]) + g
  }

  ghost predicate Inv<K>(s: Loads<K>, thres: nat, g: nat) {
    && Balanced(s.ready, thres, g)
    && (Busy(s) ==>
          && s.ready[s.pending.c] <= Base(s)
          && (Base(s) < thres || forall j :: j in s.ready && j != s.pending.c ==> Base(s) <= s.ready[j]))
  }

  lemma StepKeepsInv<K>(s: Loads<K>, step: Step<K>, thres: nat, g: nat)
    requires Inv(s, thres, g) && Enabled(s, step, thres, g)
    ensures Inv(Apply(s, step, g), thres, g)
  {
    match step
    case Choose(c) =>
      if !(exists k :: k in s.ready && s.ready[k] < thres) {
        assert forall j :: j in s.ready ==> s.ready[c] <= s.ready[j];
      }
    case ReadLoad =>
    case WriteLoad => WriteKeeps(s, thres, g);
    case LostWrite(r) => DecayKeeps(s.ready, r, thres, g);
    case Decay(r) => DecayKeeps(s.ready, r, thres, g);
    case Leave(k) =>
    case Join(k) => JoinKeeps(s, k, thres, g);
  }

  lemma DecayKeeps<K>(ready: map<K, nat>, reduced: nat, thres: nat, g: nat)
    requires Balanced(ready, thres, g)
    ensures Balanced(Decayed(ready, reduced), thres, g)
  {
    forall i, j | i in ready && j in ready
      ensures Decayed(ready, reduced)[i] <= Max(thres - 1, Decayed(ready, reduced)[j]) + g
    {
      assert ready[i] <= Max(thres - 1, ready[j]) + g;
    }
  }

  lemma JoinKeeps<K>(s: Loads<K>, k: K, thres: nat, g: nat)
    requires Inv(s, thres, g) && k !in s.ready && MayJoin(s, thres, g)
    requires !s.pending.Idle? ==> s.pending.c != k
    ensures Inv(Apply(s, Join(k), g), thres, g)
  {
    var r := s.ready[k := 0];
    forall i, j | i in r && j in r
      ensures r[i] <= Max(thres - 1, r[j]) + g
    {
      if i != k && j != k {
        assert s.ready[i] <= Max(thres - 1, s.ready[j]) + g;
      }
    }
  }

  lemma WriteKeeps<K>(s: Loads<K>, thres: nat, g: nat)
    requires Inv(s, thres, g) && s.pending.Read?
    ensures Balanced(Apply(s, WriteLoad, g).ready, thres, g)
  {
    var c, r := s.pending.c, Apply(s, WriteLoad, g).ready;
    if Busy(s) {
      forall i, j | i in r && j in r
        ensures r[i] <= Max(thres - 1, r[j]) + g
      {
        assert s.ready[i] <= Max(thres - 1, s.ready[j]) + g;
      }
    }
  }

  /** A run from one state to another. */
  ghost predicate IsRun<K>(start: Loads<K>, steps: seq<Step<K>>, end: Loads<K>, thres: nat, g: nat)
    decreases |steps|
  {
    if steps == [] then start == end
    else
      && Enabled(start, steps[0], thres, g)
      && IsRun(Apply(start, steps[0], g), steps[1..], end, thres, g)
  }

  /** The balance bound over any run from idle matchers: choices, additions, lost additions,
      departures, and decays and arrivals when they may, in any order. */
  lemma {:induction false} RunStaysBalanced<K>(start: Loads<K>, steps: seq<Step<K>>, end: Loads<K>, thres: nat, g: nat)
    requires start.pending.Idle? && forall k :: k in start.ready ==> start.ready[k] == 0
    requires IsRun(start, steps, end, thres, g)
    ensures Balanced(end.ready, thres, g)
  {
    RunKeepsInv(start, steps, end, thres, g);
  }

  lemma {:induction false} RunKeepsInv<K>(start: Loads<K>, steps: seq<Step<K>>, end: Loads<K>, thres: nat, g: nat)
    requires Inv(start, thres, g) && IsRun(start, steps, end, thres, g)
    ensures Inv(end, thres, g)
    decreases |steps|
  {
    if steps != [] {
      StepKeepsInv(start, steps[0], thres, g);
      RunKeepsInv(Apply(start, steps[0], g), steps[1..], end, thres, g);
    }
  }

  lemma {:induction false} RunSnoc<K>(start: Loads<K>, steps: seq<Step<K>>, m: Loads<K>, step: Step<K>, thres: nat, g: nat)
    requires IsRun(start, steps, m, thres, g) && Enabled(m, step, thres, g)
    ensures IsRun(start, steps + [step], Apply(m, step, g), thres, g)
    decreases |steps|
  {
    var all := steps + [step];
    if steps == [] {
      assert all[1..] == [];
    } else {
      RunSnoc(Apply(start, steps[0], g), steps[1..], m, step, thres, g);
      assert all[0] == steps[0] && all[1..] == steps[1..] + [step];
    }
  }

  /** Every run from here stays balanced. */
  ghost predicate StaysBalanced<K(!new)>(s: Loads<K>, thres: nat, g: nat) {
    forall steps, end :: IsRun(s, steps, end, thres, g) ==> Balanced(end.ready, thres, g)
  }

  lemma InvStaysBalanced<K(!new)>(s: Loads<K>, thres: nat, g: nat)
    requires Inv(s, thres, g)
    ensures StaysBalanced(s, thres, g)
  {
    forall steps, end | IsRun(s, steps, end, thres, g)
      ensures Balanced(end.ready, thres, g)
    {
      RunKeepsInv(s, steps, end, thres, g);
    }
  }

  /** What the loader is about to add shows in a run of one step or two. */
  lemma AddingShows<K(!new)>(s: Loads<K>, thres: nat, g: nat)
    requires StaysBalanced(s, thres, g) && Busy(s)
    ensures forall j :: j in s.ready && j != s.pending.c ==> Base(s) + g <= Max(thres - 1, s.ready[j]) + g
  {
    var steps: seq<Step<K>> := [];
    var m := s;
    assert IsRun(s, steps, m, thres, g);
    if s.pending.Chosen? {
      RunSnoc(s, steps, m, ReadLoad, thres, g);
      steps, m := steps + [ReadLoad], Apply(m, ReadLoad, g);
    }
    RunSnoc(s, steps, m, WriteLoad, thres, g);
    var end := Apply(m, WriteLoad, g);
    assert Balanced(end.ready, thres, g);
    assert end.ready == s.ready[s.pending.c := Base(s) + g];
    forall j | j in s.ready && j != s.pending.c
      ensures Base(s) + g <= Max(thres - 1, s.ready[j]) + g
    {
      assert end.ready[s.pending.c] <= Max(thres - 1, end.ready[j]) + g;
    }
  }

  /** An idle matcher can become READY, and every run from there on stay balanced, exactly
      when it may join: the loads are not too high, and neither will be the pending one. */
  lemma JoinIsSafeIff<K(!new)>(s: Loads<K>, k: K, thres: nat, g: nat)
    requires Inv(s, thres, g) && k !in s.ready && (!s.pending.Idle? ==> s.pending.c != k)
    ensures StaysBalanced(Apply(s, Join(k), g), thres, g) <==> MayJoin(s, thres, g)
  {
    var r := Apply(s, Join(k), g);
    if MayJoin(s, thres, g) {
      JoinKeeps(s, k, thres, g);
      InvStaysBalanced(r, thres, g);
    }
    if StaysBalanced(r, thres, g) {
      assert IsRun(r, [], r, thres, g);
      forall i | i in s.ready
        ensures s.ready[i] <= Max(thres - 1, 0) + g
      {
        assert r.ready[i] <= Max(thres - 1, r.ready[k]) + g;
      }
      if Busy(s) {
        AddingShows(r, thres, g);
        assert Base(r) + g <= Max(thres - 1, r.ready[k]) + g;
      }
    }
  }

  /** The timer can reduce the loads, and every run from there on stay balanced, exactly
      when it may: `increase_load` takes no lock, and would write back a load from before. */
  lemma DecayIsSafeIff<K(!new)>(s: Loads<K>, reduced: nat, thres: nat, g: nat)
    requires Inv(s, thres, g)
    ensures StaysBalanced(Apply(s, Decay(reduced), g), thres, g) <==> MayDecay(s, reduced, thres)
  {
    var r := Apply(s, Decay(reduced), g);
    if MayDecay(s, reduced, thres) {
      StepKeepsInv(s, Decay(reduced), thres, g);
      InvStaysBalanced(r, thres, g);
    }
    if StaysBalanced(r, thres, g) && s.pending.Read? && Busy(s) {
      AddingShows(r, thres, g);
    }
  }

  /** A section for `c`, up to the read of its load. */
  lemma ChooseAndRead<K(!new)>(start: Loads<K>, steps: seq<Step<K>>, ready: map<K, nat>, c: K, thres: nat, g: nat)
    returns (steps': seq<Step<K>>)
    requires IsRun(start, steps, Loads(ready, Idle), thres, g) && IsChoice(ready, c, thres)
    ensures IsRun(start, steps', Loads(ready, Read(c, ready[c])), thres, g)
  {
    var m := Loads(ready, Idle);
    RunSnoc(start, steps, m, Choose(c), thres, g);
    RunSnoc(start, steps + [Choose(c)], Apply(m, Choose(c), g), ReadLoad, thres, g);
    steps' := steps + [Choose(c)] + [ReadLoad];
  }

  /** And the rest of it. */
  lemma OneSlice<K(!new)>(start: Loads<K>, steps: seq<Step<K>>, ready: map<K, nat>, c: K, thres: nat, g: nat)
    returns (steps': seq<Step<K>>)
    requires IsRun(start, steps, Loads(ready, Idle), thres, g) && IsChoice(ready, c, thres)
    ensures IsRun(start, steps', Loads(ready[c := ready[c] + g], Idle), thres, g)
  {
    steps' := ChooseAndRead(start, steps, ready, c, thres, g);
    RunSnoc(start, steps', Loads(ready, Read(c, ready[c])), WriteLoad, thres, g);
    steps' := steps' + [WriteLoad];
  }

  function Two<K>(a: K, x: nat, b: K, y: nat): map<K, nat> {
    map[a := x, b := y]
  }

  lemma FirstOfTwo<K>(a: K, x: nat, b: K, y: nat, thres: nat)
    requires a != b && x <= y && (x < thres ==> y >= thres)
    ensures IsChoice(Two(a, x, b, y), a, thres)
  {
    var m := Two(a, x, b, y);
    assert m[a] == x && m[b] == y;
  }

  lemma TwoAgain<K>(a: K, x: nat, b: K, y: nat, z: nat)
    requires a != b
    ensures Two(a, x, b, y) == Two(b, y, a, x) && Two(a, x, b, y)[a := z] == Two(a, z, b, y)
    ensures Two(a, x, b, y)[a] == x && Two(a, x, b, y)[b] == y
  {
  }

  /** Two matchers that got a slice each, and the first chosen again. */
  lemma ReachRead<K(!new)>(a: K, b: K, thres: nat, g: nat) returns (steps: seq<Step<K>>)
    requires a != b && thres <= g && g > 0
    ensures IsRun(Loads(Two(a, 0, b, 0), Idle), steps, Loads(Two(a, g, b, g), Read(a, g)), thres, g)
  {
    var start := Loads(Two(a, 0, b, 0), Idle);
    var zeros := Two(a, 0, b, 0);
    TwoAgain(a, 0, b, 0, g);
    assert zeros[a] == 0 && zeros[b] == 0 && IsChoice(zeros, a, thres);
    assert IsRun(start, [], start, thres, g);
    steps := OneSlice(start, [], zeros, a, thres, g);
    TwoAgain(b, 0, a, g, g);
    TwoAgain(a, g, b, 0, g);
    FirstOfTwo(b, 0, a, g, thres);
    steps := OneSlice(start, steps, Two(b, 0, a, g), b, thres, g);
    TwoAgain(a, g, b, g, g);
    FirstOfTwo(a, g, b, g, thres);
    steps := ChooseAndRead(start, steps, Two(a, g, b, g), a, thres, g);
  }

  /** The bound does fail: while the third slice is added the timer takes everything off
      both matchers, and the first gets its old load back. */
  lemma DecayOverwritten<K(!new)>(a: K, b: K, thres: nat, g: nat) returns (steps: seq<Step<K>>, s: Loads<K>)
    requires a != b && thres <= g && g > 0
    ensures IsRun(Loads(Two(a, 0, b, 0), Idle), steps, s, thres, g)
    ensures var end := Apply(Apply(s, Decay(g), g), WriteLoad, g);
            end.ready == Two(a, 2 * g, b, 0) && !Balanced(end.ready, thres, g)
  {
    steps := ReachRead(a, b, thres, g);
    s := Loads(Two(a, g, b, g), Read(a, g));
    TwoAgain(a, g, b, g, 0);
    assert Decayed(s.ready, g) == Two(a, 0, b, 0);
    TwoAgain(a, 0, b, 0, 2 * g);
    TwoAgain(a, 2 * g, b, 0, 0);
    var end := Two(a, 2 * g, b, 0);
    assert end[a] > Max(thres - 1, end[b]) + g;
  }

  // -------------------------------------------------------------------------
  // What `std::sort` demands of the comparison.

  /** A strict weak order on these loads. */
  ghost predicate StrictWeak(loads: set<nat>, thres: nat) {
    && (forall l :: l in loads ==> !LoadCompare(l, l, thres))
    && (forall l, r, m :: l in loads && r in loads && m in loads ==>
          (LoadCompare(l, r, thres) && LoadCompare(r, m, thres) ==> LoadCompare(l, m, thres)))
    && (forall l, r, m :: l in loads && r in loads && m in loads ==>
          (LoadCompare(l, r, thres) ==> LoadCompare(l, m, thres) || LoadCompare(m, r, thres)))
  }

  /** The comparison is one exactly when no load is below the threshold. */
  lemma StrictWeakIff(loads: set<nat>, thres: nat)
    ensures StrictWeak(loads, thres) <==> forall l :: l in loads ==> l >= thres
  {
    if l :| l in loads && l < thres {
      assert LoadCompare(l, l, thres);
    }
  }
}
