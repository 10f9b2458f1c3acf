/** `RandomGetBox`: a bounded list with one slot being filled outside the lock,
    and removal of chosen items with compaction. Each method is one atomic step
    of the producer (`Write`, `Put`) or of the consumer (`Get`). */
module RandomGetBoxes {

  // -------------------------------------------------------------------------
  // Removal on values.

  ghost predicate InRange(targets: seq<nat>, n: nat) {
    forall i :: 0 <= i < |targets| ==> targets[i] < n
  }

  ghost predicate Distinct(s: seq<nat>) {
    forall i, j :: 0 <= i < j < |s| ==> s[i] != s[j]
  }

  /** The first `n` items without the chosen ones, in order. */
  function Kept<T>(items: seq<T>, targets: seq<nat>, n: nat): seq<T>
    requires n <= |items|
  {
    if n == 0 then []
    else if n - 1 in targets then Kept(items, targets, n - 1)
    else Kept(items, targets, n - 1) + [items[n - 1]]
  }

  /** The chosen items, in the order of choice. */
  function Taken<T>(items: seq<T>, targets: seq<nat>): (r: seq<T>)
    requires InRange(targets, |items|)
    ensures |r| == |targets|
    ensures forall i :: 0 <= i < |targets| ==> r[i] == items[targets[i]]
  {
    if targets == [] then []
    else Taken(items, targets[..|targets| - 1]) + [items[targets[|targets| - 1]]]
  }

  function Below(targets: set<nat>, n: nat): set<nat> {
    set t | t in targets && t < n
  }

  function Elements(s: seq<nat>): set<nat> {
    set i | 0 <= i < |s| :: s[i]
  }

  lemma InElements(s: seq<nat>, x: nat)
    ensures x in s <==> x in Elements(s)
  {
    if x in s {
      var i :| 0 <= i < |s| && s[i] == x;
      assert s[i] in Elements(s);
    }
  }

  lemma {:induction false} KeptCount<T>(items: seq<T>, targets: seq<nat>, n: nat)
    requires n <= |items|
    ensures |Kept(items, targets, n)| + |Below(Elements(targets), n)| == n
  {
    if n == 0 {
      assert Below(Elements(targets), 0) == {};
    } else {
      KeptCount(items, targets, n - 1);
      InElements(targets, n - 1);
      if n - 1 in targets {
        assert Below(Elements(targets), n) == Below(Elements(targets), n - 1) + {n - 1};
      } else {
        assert Below(Elements(targets), n) == Below(Elements(targets), n - 1);
      }
    }
  }

  lemma {:induction false} DistinctCount(s: seq<nat>)
    ensures |Elements(s)| <= |s|
    ensures |Elements(s)| == |s| <==> Distinct(s)
  {
    if s == [] {
      assert Elements(s) == {};
    } else {
      var front, last := s[..|s| - 1], s[|s| - 1];
      DistinctCount(front);
      assert Elements(s) == Elements(front) + {last} by {
        assert s == front + [last];
        forall x | x in Elements(front) + {last}
          ensures x in Elements(s)
        {
          InElements(front, x);
          InElements(s, x);
        }
      }
      InElements(front, last);
      if last in front {
        var i :| 0 <= i < |front| && front[i] == last;
        assert s[i] == s[|s| - 1];
      }
    }
  }

  /** The code shrinks the count by the number of targets: that is the number of
      items kept exactly when no target is named twice. */
  lemma ShrinkIsExact<T>(items: seq<T>, targets: seq<nat>)
    requires InRange(targets, |items|)
    ensures |Kept(items, targets, |items|)| >= |items| - |targets|
    ensures |Kept(items, targets, |items|)| == |items| - |targets| <==> Distinct(targets)
  {
    KeptCount(items, targets, |items|);
    DistinctCount(targets);
    assert Below(Elements(targets), |items|) == Elements(targets);
  }

  // -------------------------------------------------------------------------
  // The history of a box: everything put, which of it is held and which taken.

  datatype Trace<T> = Trace(puts: seq<T>, held: seq<nat>, taken: seq<nat>)

  ghost predicate Increasing(s: seq<nat>) {
    forall i, j :: 0 <= i < j < |s| ==> s[i] < s[j]
  }

  /** Every put is either held or taken, once, and the held ones are in order. */
  ghost predicate Sound<T>(t: Trace<T>) {
    && Increasing(t.held)
    && multiset(t.held) + multiset(t.taken) == Numbers(|t.puts|)
  }

  /** Each of the first `n` numbers once. */
  function Numbers(n: nat): multiset<nat> {
    if n == 0 then multiset{} else Numbers(n - 1) + multiset{n - 1}
  }

  lemma {:induction false} NumbersOnce(n: nat, k: nat)
    ensures Numbers(n)[k] == if k < n then 1 else 0
    ensures |Numbers(n)| == n
  {
    if n > 0 {
      NumbersOnce(n - 1, k);
    }
  }

  /** Items put are items taken and items still held, each once. */
  lemma NothingLost<T>(t: Trace<T>, k: nat)
    requires Sound(t)
    ensures |t.puts| == |t.held| + |t.taken|
    ensures k < |t.puts| ==> (k in t.held <==> k !in t.taken)
  {
    NumbersOnce(|t.puts|, k);
    assert |multiset(t.held) + multiset(t.taken)| == |t.held| + |t.taken|;
    assert (multiset(t.held) + multiset(t.taken))[k] == multiset(t.held)[k] + multiset(t.taken)[k];
    assert k in t.held <==> multiset(t.held)[k] > 0;
    assert k in t.taken <==> multiset(t.taken)[k] > 0;
  }

  ghost predicate Holds<T>(t: Trace<T>, items: seq<T>) {
    && |items| == |t.held|
    && forall i :: 0 <= i < |items| ==> t.held[i] < |t.puts| && items[i] == t.puts[t.held[i]]
  }

  function AfterPut<T>(t: Trace<T>, v: T): Trace<T> {
    Trace(t.puts + [v], t.held + [|t.puts|], t.taken)
  }

  function AfterGet<T>(t: Trace<T>, targets: seq<nat>): Trace<T>
    requires InRange(targets, |t.held|)
  {
    Trace(t.puts, Kept(t.held, targets, |t.held|), t.taken + Taken(t.held, targets))
  }

  lemma PutKeepsSound<T>(t: Trace<T>, items: seq<T>, v: T)
    requires Sound(t) && Holds(t, items)
    ensures Sound(AfterPut(t, v)) && Holds(AfterPut(t, v), items + [v])
  {
    var n, t' := |t.puts|, AfterPut(t, v);
    assert multiset(t'.held) + multiset(t'.taken) == multiset(t.held) + multiset(t.taken) + multiset{n};
  }

  /** Items kept and items taken are the items there were. */
  lemma {:induction false} KeptAndTaken<T>(items: seq<T>, targets: seq<nat>)
    requires InRange(targets, |items|) && Distinct(targets)
    ensures multiset(Kept(items, targets, |items|)) + multiset(Taken(items, targets)) == multiset(items)
    decreases |targets|
  {
    if targets == [] {
      KeepAll(items, |items|);
      assert items[..|items|] == items;
    } else {
      var front, last := targets[..|targets| - 1], targets[|targets| - 1];
      KeptAndTaken(items, front);
      KeptLess(items, front, last, |items|);
      assert targets == front + [last];
      assert multiset(Taken(items, targets)) == multiset(Taken(items, front)) + multiset{items[last]};
    }
  }

  lemma {:induction false} KeepAll<T>(items: seq<T>, n: nat)
    requires n <= |items|
    ensures Kept(items, [], n) == items[..n]
  {
    if n > 0 {
      KeepAll(items, n - 1);
    }
  }

  /** One more target takes exactly its item away. */
  lemma {:induction false} KeptLess<T>(items: seq<T>, front: seq<nat>, last: nat, n: nat)
    requires n <= |items| && last !in front
    ensures multiset(Kept(items, front, n))
         == multiset(Kept(items, front + [last], n)) + if last < n then multiset{items[last]} else multiset{}
  {
    if n > 0 {
      var both, x := front + [last], n - 1;
      KeptLess(items, front, last, x);
      assert x in both <==> x in front || x == last;
      if x in front {
      } else if x == last {
        assert Kept(items, both, n) == Kept(items, both, x);
        assert multiset(Kept(items, front, n)) == multiset(Kept(items, front, x)) + multiset{items[x]};
      } else {
        assert multiset(Kept(items, front, n)) == multiset(Kept(items, front, x)) + multiset{items[x]};
        assert multiset(Kept(items, both, n)) == multiset(Kept(items, both, x)) + multiset{items[x]};
      }
    }
  }

  /** What is kept of an increasing list is increasing, and drawn from it. */
  lemma {:induction false} KeptIncreasing(s: seq<nat>, targets: seq<nat>, n: nat)
    requires n <= |s| && Increasing(s)
    ensures Increasing(Kept(s, targets, n))
    ensures forall i :: 0 <= i < |Kept(s, targets, n)| ==> Kept(s, targets, n)[i] in s[..n]
  {
    if n > 0 {
      KeptIncreasing(s, targets, n - 1);
      assert s[..n] == s[..n - 1] + [s[n - 1]];
    }
  }

  lemma {:induction false} KeptHolds<T>(t: Trace<T>, items: seq<T>, targets: seq<nat>, n: nat)
    requires Holds(t, items) && n <= |items|
    ensures Holds(t.(held := Kept(t.held, targets, n)), Kept(items, targets, n))
  {
    if n > 0 {
      KeptHolds(t, items, targets, n - 1);
    }
  }

  lemma GetKeepsSound<T>(t: Trace<T>, items: seq<T>, targets: seq<nat>)
    requires Sound(t) && Holds(t, items)
    requires InRange(targets, |items|) && Distinct(targets)
    ensures Sound(AfterGet(t, targets)) && Holds(AfterGet(t, targets), Kept(items, targets, |items|))
  {
    KeptAndTaken(t.held, targets);
    KeptIncreasing(t.held, targets, |t.held|);
    KeptHolds(t, items, targets, |items|);
    var t' := AfterGet(t, targets);
    assert multiset(t'.held) + multiset(t'.taken) == multiset(t.held) + multiset(t.taken);
  }

  // -------------------------------------------------------------------------
  // The code.

  /** The two ways an item is moved: `AssignOp` and `SwapOp`. */
  datatype MoveOp = AssignOp | SwapOp

  datatype GetResult<T> =
    | Ended
    | NothingChosen
    | AssertionFail
    | Got(snk: seq<T>)

  class RandomGetBox<T> {
    const N: nat
    const op: MoveOp
    const buff: array<T>
    var curr: int
    var tail: int
    var allPut: bool
    ghost var trace: Trace<T>

    constructor (N: nat, op: MoveOp, init: T)
      ensures Valid() && fresh(buff)
      ensures this.N == N && this.op == op
      ensures Items() == [] && !allPut && trace == Trace([], [], [])
    {
      this.N := N;
      this.op := op;
      buff := new T[N + 1](_ => init);
      curr := 0;
      tail := 0;
      allPut := false;
      trace := Trace([], [], []);
    }

    ghost predicate Valid()
      reads this, buff
    {
      && buff.Length == N + 1
      && 0 <= curr <= tail <= N
      && Sound(trace) && Holds(trace, Items())
    }

    ghost function Items(): seq<T>
      requires buff.Length == N + 1 && 0 <= curr <= N + 1
      reads this, buff
    {
      buff[..curr]
    }

    ghost function Staged(): T
      requires buff.Length == N + 1 && 0 <= tail <= N
      reads this, buff
    {
      buff[tail]
    }

    /** `*acquire() = v`, outside the lock. */
    method Write(v: T)
      requires Valid()
      modifies buff
      ensures Valid() && Staged() == v && Items() == old(Items())
    {
      buff[tail] := v;
      assert buff[..curr] == old(buff[..curr]);
    }

    method Move(i: int, j: int)
      requires 0 <= i < buff.Length && 0 <= j < buff.Length
      modifies buff
      ensures buff[i] == old(buff[j])
      ensures op == SwapOp ==> buff[j] == old(buff[i])
      ensures forall k :: 0 <= k < buff.Length && k != i && (k != j || op == AssignOp) ==> buff[k] == old(buff[k])
    {
      match op
      case AssignOp => buff[i] := buff[j];
      case SwapOp => buff[i], buff[j] := buff[j], buff[i];
    }

    /** `put`; a full box makes the producer wait, so it is not full here. */
    method Put()
      requires Valid() && curr < N
      modifies this`curr, this`tail, this`trace, buff
      ensures Valid() && curr == tail == old(curr) + 1
      ensures Items() == old(Items()) + [old(Staged())]
      ensures trace == AfterPut(old(trace), old(Staged()))
    {
      PutKeepsSound(trace, Items(), Staged());
      trace := AfterPut(trace, Staged());
      Move(curr, tail);
      curr := curr + 1;
      tail := curr;
      assert buff[..curr] == old(buff[..curr]) + [old(buff[tail])];
    }

    method NotifyAllPut()
      requires Valid()
      modifies this`allPut
      ensures Valid() && allPut
    {
      allPut := true;
    }

    /** `get`, with the targets that `choose_targets` answers. An empty box makes
        the consumer wait until something is put or everything has been. A named
        item that is not there is an assertion failure; the box is then as it was. */
    method Get(targets: seq<nat>) returns (r: GetResult<T>)
      requires Valid() && (curr > 0 || allPut)
      modifies this`curr, this`trace, buff
      ensures buff.Length == N + 1 && tail == old(tail) && Staged() == old(Staged())
      ensures r.Ended? <==> old(curr) == 0
      ensures r.NothingChosen? <==> old(curr) > 0 && targets == []
      ensures r.AssertionFail? <==> old(curr) > 0 && !InRange(targets, old(curr))
      ensures !r.Got? ==> Valid() && Items() == old(Items()) && trace == old(trace)
      ensures r.Got? ==> r.snk == Taken(old(Items()), targets)
      ensures r.Got? && Distinct(targets) ==>
                Valid() && Items() == Kept(old(Items()), targets, old(curr)) && trace == AfterGet(old(trace), targets)
      ensures r.Got? && !Distinct(targets) ==>
                curr < |Kept(old(Items()), targets, old(curr))|
    {
      if curr == 0 {
        return Ended;
      }
      if |targets| == 0 {
        return NothingChosen;
      }
      var ok, snk := CopyTargets(targets);
      if !ok {
        return AssertionFail;
      }
      Remove(targets);
      return Got(snk);
    }

    /** `restore data structure`: the box without the targets. */
    method Remove(targets: seq<nat>)
      requires Valid() && InRange(targets, curr)
      modifies this`curr, this`trace, buff
      ensures buff.Length == N + 1 && tail == old(tail) && Staged() == old(Staged())
      ensures Distinct(targets) ==>
                Valid() && Items() == Kept(old(Items()), targets, old(curr)) && trace == AfterGet(old(trace), targets)
      ensures !Distinct(targets) ==> curr < |Kept(old(Items()), targets, old(curr))|
    {
      ghost var items := Items();
      Compact(targets);
      ShrinkIsExact(items, targets);
      curr := curr - |targets|;
      if Distinct(targets) {
        GetKeepsSound(trace, items, targets);
        trace := AfterGet(trace, targets);
        assert Items() == Kept(items, targets, |items|);
      }
    }

    /** The chosen items, unless one is not there. */
    method CopyTargets(targets: seq<nat>) returns (ok: bool, snk: seq<T>)
      requires buff.Length == N + 1 && 0 <= curr <= N
      ensures ok <==> InRange(targets, curr)
      ensures ok ==> snk == Taken(Items(), targets)
    {
      snk := [];
      for k := 0 to |targets|
        invariant InRange(targets[..k], curr)
        invariant snk == Taken(Items(), targets[..k])
      {
        if targets[k] >= curr {
          return false, snk;
        }
        assert targets[..k + 1][..k] == targets[..k];
        snk := snk + [buff[targets[k]]];
      }
      assert targets[..|targets|] == targets;
      ok := true;
    }

    /** The unchosen items move to the front; the staged slot is not touched. */
    method Compact(targets: seq<nat>)
      requires buff.Length == N + 1 && 0 <= curr <= N
      modifies buff
      ensures |Kept(old(Items()), targets, curr)| <= curr
      ensures buff[..|Kept(old(Items()), targets, curr)|] == Kept(old(Items()), targets, curr)
      ensures forall i :: curr <= i <= N ==> buff[i] == old(buff[i])
    {
      ghost var items := Items();
      var pos := 0;
      for i := 0 to curr
        invariant 0 <= pos <= i
        invariant buff[..pos] == Kept(items, targets, i)
        invariant forall k :: i <= k <= N ==> buff[k] == old(buff[k])
      {
        if i !in targets {
          ghost var before := buff[..pos];
          Move(pos, i);
          pos := pos + 1;
          assert buff[..pos] == before + [items[i]];
        }
      }
    }
  }
}
