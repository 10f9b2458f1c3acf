/** Reading words back from where they stand in a stream. */
module Reading {
  import opened Words
  import opened NewLib

  /** These words stand at this place. */
  predicate Stands(s: seq<word>, at: nat, u: seq<word>) {
    at + |u| <= |s| && s[at..at + |u|] == u
  }

  lemma StandsLeft(s: seq<word>, t: seq<word>, at: nat, u: seq<word>)
    requires Stands(s, at, u)
    ensures Stands(s + t, at, u)
  {
  }

  lemma StandsRight(s: seq<word>, t: seq<word>, at: nat, u: seq<word>)
    requires Stands(t, at, u)
    ensures Stands(s + t, |s| + at, u)
  {
  }

  lemma StandsIn(s: seq<word>, at: nat, u: seq<word>, i: nat, v: seq<word>)
    requires Stands(s, at, u) && Stands(u, i, v)
    ensures Stands(s, at + i, v)
  {
    forall x | 0 <= x < |v|
      ensures s[at + i + x] == v[x]
    {
      assert v[x] == u[i..i + |v|][x] == u[i + x] == s[at..at + |u|][i + x];
    }
  }

  /** The words of `j` features. */
  function WordsOf(j: nat, nwords: nat): nat {
    j * nwords
  }

  /** Features of one width stand one after another. */
  lemma {:induction false} FlattenAt(nwords: nat, points: seq<Feature>, j: nat)
    requires Uniform(nwords, points) && j < |points|
    ensures Stands(Flatten(points), WordsOf(j, nwords), points[j])
  {
    if j == 0 {
      assert WordsOf(j, nwords) == 0;
    } else {
      FlattenAt(nwords, points[1..], j - 1);
      assert WordsOf(j, nwords) == nwords + WordsOf(j - 1, nwords);
      StandsRight(points[0], Flatten(points[1..]), WordsOf(j - 1, nwords), points[j]);
    }
  }

  /** Where feature `j` stands after a line of eight words. */
  function FeatureAt(j: nat, nwords: nat): nat {
    8 + WordsOf(j, nwords)
  }

  /** Features after such a line. */
  lemma FeaturesAfter(line: seq<word>, nwords: nat, points: seq<Feature>, j: nat)
    requires |line| == 8 && Uniform(nwords, points) && j < |points|
    ensures Stands(line + Flatten(points), FeatureAt(j, nwords), points[j])
  {
    FlattenAt(nwords, points, j);
    StandsRight(line, Flatten(points), WordsOf(j, nwords), points[j]);
  }
}
