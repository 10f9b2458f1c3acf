/** The loads of `MatcherManager`: the choice of the next matcher for a domain,
    and the timer's load decay. */
module MatcherManagers {
  import opened Matchers
  import opened Balance

  class MatcherManager {
    /** The list; how matchers enter and leave it is the business of `NodeManagers`. */
    var matchers: seq<Matcher>

    constructor (matchers: seq<Matcher>)
      requires forall i, j :: 0 <= i < j < |matchers| ==> matchers[i] != matchers[j]
      ensures Valid() && this.matchers == matchers
    {
      this.matchers := matchers;
    }

    /** No matcher is in the list twice. */
    ghost predicate Valid()
      reads this
    {
      forall i, j :: 0 <= i < j < |matchers| ==> matchers[i] != matchers[j]
    }

    /** The loads of the READY matchers of a domain. */
    ghost function ReadyLoads(domain: nat): map<Matcher, nat>
      reads this, matchers
    {
      map m | m in matchers && m.state == READY && m.domain == domain :: m.numLoad
    }

    /** The matchers of a list that are of this domain and state, in its order. */
    ghost function Selected(ms: seq<Matcher>, domain: nat, s: MatcherState): seq<Matcher>
      reads ms
    {
      if ms == [] then []
      else
        var front, last := Selected(ms[..|ms| - 1], domain, s), ms[|ms| - 1];
        if last.domain == domain && last.state == s then front + [last] else front
    }

    /** Matchers of two lists, the one after the other. */
    lemma {:induction false} SelectedConcat(a: seq<Matcher>, b: seq<Matcher>, domain: nat, s: MatcherState)
      ensures Selected(a + b, domain, s) == Selected(a, domain, s) + Selected(b, domain, s)
    {
      if b == [] {
        assert a + b == a;
      } else {
        SelectedConcat(a, b[..|b| - 1], domain, s);
        assert (a + b)[..|a + b| - 1] == a + b[..|b| - 1];
      }
    }

    method FindMatchersAtDomainAndState(domain: nat, s: MatcherState) returns (ms: seq<Matcher>)
      ensures ms == Selected(matchers, domain, s)
      ensures forall m :: m in ms <==> m in matchers && m.domain == domain && m.state == s
    {
      ms := [];
      for i := 0 to |matchers|
        invariant ms == Selected(matchers[..i], domain, s)
        invariant forall m :: m in ms <==> m in matchers[..i] && m.domain == domain && m.state == s
      {
        assert matchers[..i + 1][..i] == matchers[..i];
        if matchers[i].domain == domain && matchers[i].state == s {
          ms := ms + [matchers[i]];
        }
      }
      assert matchers[..|matchers|] == matchers;
    }

    ghost predicate Ordered(ms: seq<Matcher>, thres: nat)
      reads ms
    {
      forall i, j :: 0 <= i < j < |ms| ==> Before(ms[i].numLoad, ms[j].numLoad, thres)
    }

    lemma InsertKeepsOrder(ms: seq<Matcher>, m: Matcher, p: nat, thres: nat)
      requires Ordered(ms, thres) && p <= |ms|
      requires forall i :: 0 <= i < p ==> Before(ms[i].numLoad, m.numLoad, thres)
      requires forall j :: p <= j < |ms| ==> Before(m.numLoad, ms[j].numLoad, thres)
      ensures Ordered(ms[..p] + [m] + ms[p..], thres)
    {
      var r := ms[..p] + [m] + ms[p..];
      forall i, j | 0 <= i < j < |r|
        ensures Before(r[i].numLoad, r[j].numLoad, thres)
      {
        assert i < p ==> r[i] == ms[i];
        assert i > p ==> r[i] == ms[i - 1];
        assert j < p ==> r[j] == ms[j];
        assert j > p ==> r[j] == ms[j - 1];
      }
    }

    /** The stand-in for `std::sort` with `load_compare`: a permutation in which
        nothing stands after what it has to precede. */
    method SortByLoad(ms: seq<Matcher>, thres: nat) returns (sorted: seq<Matcher>)
      ensures multiset(sorted) == multiset(ms)
      ensures Ordered(sorted, thres)
    {
      sorted := [];
      for k := 0 to |ms|
        invariant multiset(sorted) == multiset(ms[..k])
        invariant Ordered(sorted, thres)
      {
        sorted := Insert(sorted, ms[k], thres);
        assert ms[..k + 1] == ms[..k] + [ms[k]];
      }
      assert ms[..|ms|] == ms;
    }

    method Insert(sorted: seq<Matcher>, m: Matcher, thres: nat) returns (r: seq<Matcher>)
      requires Ordered(sorted, thres)
      ensures multiset(r) == multiset(sorted) + multiset{m}
      ensures Ordered(r, thres)
    {
      var p := |sorted|;
      while p > 0 && LoadCompare(m.numLoad, sorted[p - 1].numLoad, thres)
        invariant 0 <= p <= |sorted|
        invariant forall j :: p <= j < |sorted| ==> Before(m.numLoad, sorted[j].numLoad, thres)
      {
        p := p - 1;
      }
      r := sorted[..p] + [m] + sorted[p..];
      assert sorted[..p] + sorted[p..] == sorted;
      forall i | 0 <= i < p
        ensures Before(sorted[i].numLoad, m.numLoad, thres)
      {
        BeforeIsTotalPreorder(sorted[i].numLoad, sorted[p - 1].numLoad, m.numLoad, thres);
      }
      InsertKeepsOrder(sorted, m, p, thres);
    }

    /** `choose_next_matcher_for_domain`. While no matcher of the domain is READY
        the code waits, so one is. */
    method ChooseNextMatcherForDomain(domain: nat, thres: nat) returns (c: Matcher)
      requires ReadyLoads(domain) != map[]
      ensures IsChoice(ReadyLoads(domain), c, thres)
    {
      var ms := FindMatchersAtDomainAndState(domain, READY);
      var sorted := SortByLoad(ms, thres);
      ghost var loads := ReadyLoads(domain);
      ghost var k :| k in loads;
      assert k in multiset(sorted);
      c := sorted[0];
      assert c in multiset(ms);
      forall k | k in loads
        ensures Before(loads[c], loads[k], thres)
      {
        assert k in multiset(sorted);
        var j :| 0 <= j < |sorted| && sorted[j] == k;
        BeforeIsTotalPreorder(loads[c], loads[c], loads[c], thres);
      }
      FirstIsChoice(loads, c, thres);
    }

    /** `update_all_matcher_load`: every READY load decays, others stay. */
    method UpdateAllMatcherLoad(reduced: nat)
      requires Valid()
      modifies (set m | m in matchers)`numLoad
      ensures forall d :: ReadyLoads(d) == Decayed(old(ReadyLoads(d)), reduced)
      ensures forall m :: m in matchers && m.state != READY ==> m.numLoad == old(m.numLoad)
    {
      for i := 0 to |matchers|
        invariant forall j :: 0 <= j < |matchers| ==>
          matchers[j].numLoad == (if j < i && matchers[j].state == READY
                                  then (if old(matchers[j].numLoad) > reduced then old(matchers[j].numLoad) - reduced else 0)
                                  else old(matchers[j].numLoad))
      {
        var m := matchers[i];
        if m.state == READY {
          m.numLoad := if m.numLoad > reduced then m.numLoad - reduced else 0;
        }
      }
    }

    /** The load is added when the section has been sent, READY or not. */
    method CommitLoad(c: Matcher, g: nat)
      requires c in matchers
      modifies c`numLoad
      ensures forall d :: ReadyLoads(d) == Committed(old(ReadyLoads(d)), c, g)
      ensures c.numLoad == old(c.numLoad) + g
    {
      c.IncreaseLoad(g);
    }
  }
}
