/** `Matches::matchThread`: a point is matched with its nearest candidate, if that is
    nearer than the second nearest by the threshold. Distances are real numbers. */
module Nearest {
  import opened Wrappers

  /** The least distance, and the index of a candidate at it. */
  ghost predicate IsLeast(ds: seq<real>, top: real, d: real, at: Option<nat>) {
    && d <= top && (forall k :: 0 <= k < |ds| ==> d <= ds[k])
    && (at == None ==> d == top)
    && (at.Some? ==> at.value < |ds| && d == ds[at.value] && d < top)
  }

  /** The least distance of all candidates but one; equal distances count each. */
  ghost predicate IsSecond(ds: seq<real>, top: real, d: real, at: Option<nat>) {
    && d <= top && (forall k :: 0 <= k < |ds| && at != Some(k) ==> d <= ds[k])
    && (d == top || exists k :: 0 <= k < |ds| && at != Some(k) && ds[k] == d)
  }

  /** The scan over the candidates, in order; `top` is `FLT_MAX`. */
  method TwoNearest(ds: seq<real>, top: real) returns (d1: real, d2: real, match_: nat, ghost at: Option<nat>)
    ensures IsLeast(ds, top, d1, at) && IsSecond(ds, top, d2, at)
    ensures at.Some? ==> match_ == at.value
    ensures d1 <= d2
  {
    d1, d2, match_, at := top, top, *, None;
    for i := 0 to |ds|
      invariant IsLeast(ds[..i], top, d1, at) && IsSecond(ds[..i], top, d2, at)
      invariant at.Some? ==> match_ == at.value
      invariant d1 <= d2
    {
      assert ds[..i + 1] == ds[..i] + [ds[i]];
      var d := ds[i];
      if d < d1 {
        d2, d1, match_ := d1, d, i;
        ghost var was := at;
        at := Some(i);
        assert d2 == top || ds[..i + 1][was.value] == d2;
      } else if d < d2 {
        d2 := d;
        assert ds[..i + 1][i] == d2;
      } else {
        assert d2 == top || exists k :: 0 <= k < i && at != Some(k) && ds[..i + 1][k] == d2;
      }
    }
    assert ds[..|ds|] == ds;
  }

  /** Candidate `m` is the one: nearer, by the threshold, than every other and than `top`. */
  predicate StandsOut(ds: seq<real>, top: real, threshold: real, m: nat)
    requires m < |ds|
  {
    ds[m] < top * threshold && forall k :: 0 <= k < |ds| && k != m ==> ds[m] < ds[k] * threshold
  }

  /** A product with a number below one, by name. */
  lemma Less(x: real, t: real) returns (p: real)
    requires x >= 0.0 && 0.0 < t < 1.0
    ensures p == x * t && 0.0 <= p <= x && (x > 0.0 ==> p < x)
  {
    p := x * t;
    assert p == x - x * (1.0 - t);
  }

  lemma Grows(x: real, y: real, t: real)
    requires x <= y && t > 0.0
    ensures x * t <= y * t
  {
    assert y * t - x * t == (y - x) * t;
  }

  /** At most one candidate stands out. */
  lemma StandsOutOnce(ds: seq<real>, top: real, threshold: real, m: nat, n: nat)
    requires 0.0 < threshold < 1.0 && forall k :: 0 <= k < |ds| ==> ds[k] >= 0.0
    requires m < |ds| && n < |ds| && StandsOut(ds, top, threshold, m) && StandsOut(ds, top, threshold, n)
    ensures m == n
  {
    NotBoth(ds[m], ds[n], threshold);
  }

  lemma NotBoth(x: real, y: real, t: real)
    requires x >= 0.0 && y >= 0.0 && 0.0 < t < 1.0
    ensures !(x < y * t && y < x * t)
  {
    var p := Less(x, t);
    var q := Less(y, t);
    assert x < q ==> p <= x < q <= y;
  }

  /**
   * The match of one point: the candidate that stands out, and none if there is no such
   * candidate. The pointer of the scan is never used before it is set.
   */
  method MatchPoint(ds: seq<real>, top: real, threshold: real) returns (found: Option<nat>)
    requires 0.0 < threshold < 1.0 && top > 0.0
    requires forall k :: 0 <= k < |ds| ==> 0.0 <= ds[k]
    ensures found.Some? ==> found.value < |ds| && StandsOut(ds, top, threshold, found.value)
    ensures found == None ==> forall m: nat :: m < |ds| ==> !StandsOut(ds, top, threshold, m)
  {
    var d1, d2, match_, at := TwoNearest(ds, top);
    if d1 < d2 * threshold {
      FirstStandsOut(ds, top, threshold, d1, d2, at);
      found := Some(match_);
    } else {
      found := None;
      forall m: nat | m < |ds|
        ensures !StandsOut(ds, top, threshold, m)
      {
        NoneStandsOut(ds, top, threshold, d1, d2, at, m);
      }
    }
  }

  lemma SecondIsPositive(ds: seq<real>, top: real, d: real, at: Option<nat>)
    requires (forall k :: 0 <= k < |ds| ==> 0.0 <= ds[k]) && top > 0.0 && IsSecond(ds, top, d, at)
    ensures d >= 0.0
  {
  }

  lemma FirstStandsOut(ds: seq<real>, top: real, threshold: real, d1: real, d2: real, at: Option<nat>)
    requires 0.0 < threshold < 1.0 && (forall k :: 0 <= k < |ds| ==> 0.0 <= ds[k]) && top > 0.0
    requires IsLeast(ds, top, d1, at) && IsSecond(ds, top, d2, at) && d1 < d2 * threshold
    ensures at.Some? && StandsOut(ds, top, threshold, at.value)
  {
    SecondIsPositive(ds, top, d2, at);
    var bound := Less(d2, threshold);
    assert d1 < bound <= d2 <= top;
    Grows(d2, top, threshold);
    forall k | 0 <= k < |ds| && k != at.value
      ensures ds[at.value] < ds[k] * threshold
    {
      Grows(d2, ds[k], threshold);
    }
  }

  /** The nearest does not, if the second is too near; */
  lemma NearestDoesNot(ds: seq<real>, top: real, threshold: real, d2: real, m: nat)
    requires m < |ds| && IsSecond(ds, top, d2, Some(m)) && ds[m] >= d2 * threshold
    ensures !StandsOut(ds, top, threshold, m)
  {
    if d2 != top {
      var k :| 0 <= k < |ds| && k != m && ds[k] == d2;
    }
  }

  /** and one that has another nearer or at the top does not. */
  lemma FartherDoesNot(ds: seq<real>, top: real, threshold: real, m: nat, n: nat)
    requires m < |ds| && n < |ds| && m != n && 0.0 <= ds[n] <= ds[m] && 0.0 < threshold < 1.0
    ensures !StandsOut(ds, top, threshold, m)
  {
    var p := Less(ds[n], threshold);
  }

  lemma TopDoesNot(ds: seq<real>, top: real, threshold: real, m: nat)
    requires m < |ds| && ds[m] >= top > 0.0 && 0.0 < threshold < 1.0
    ensures !StandsOut(ds, top, threshold, m)
  {
    var p := Less(top, threshold);
  }

  lemma NoneStandsOut(ds: seq<real>, top: real, threshold: real, d1: real, d2: real, at: Option<nat>, m: nat)
    requires 0.0 < threshold < 1.0 && (forall k :: 0 <= k < |ds| ==> 0.0 <= ds[k]) && top > 0.0
    requires IsLeast(ds, top, d1, at) && IsSecond(ds, top, d2, at) && d1 >= d2 * threshold && m < |ds|
    ensures !StandsOut(ds, top, threshold, m)
  {
    if at == Some(m) {
      NearestDoesNot(ds, top, threshold, d2, m);
    } else if at.Some? {
      FartherDoesNot(ds, top, threshold, m, at.value);
    } else {
      TopDoesNot(ds, top, threshold, m);
    }
  }
}
