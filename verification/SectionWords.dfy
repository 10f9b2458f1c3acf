/** What a section says, word by word: the header of every merge unit and its features, and
    the unit of zeros at the end. */
module SectionWords {
  import opened Words
  import opened NewLib
  import opened SectionLoader
  import opened Reading

  /** Where unit `k` of a section begins: each has eight words and its features. */
  function UnitAt(k: nat, mu: nat, nwords: nat): nat {
    k * FeatureAt(mu, nwords)
  }

  /** The header of a unit: five fill words, the sync word, the label of video, slice and
      offset in 10, 10 and 12 bits, and the number of features. */
  function HeaderWords(vid: u16, slice: nat, offset: nat, mu: nat): seq<word>
    requires ValidUnit(mu)
  {
    [0xFFFF_FFFF, 0xFFFF_FFFF, 0xFFFF_FFFF, 0xFFFF_FFFF, 0xFFFF_FFFF, 0xFADC_CAFD,
     (vid * 0x40_0000 + slice * 0x1000 + offset) % 0x1_0000_0000, mu]
  }

  // -------------------------------------------------------------------------
  // One unit.

  lemma UnitHeaderSays(vid: u16, slice: nat, offset: nat, points: seq<Feature>, mu: nat)
    requires ValidUnit(mu)
    ensures Stands(Unit(vid, slice, offset, points, mu), 0, HeaderWords(vid, slice, offset, mu))
  {
    var header := UnitHeader(Label(vid, slice, offset), mu);
    assert header == HeaderWords(vid, slice, offset, mu);
    StandsLeft(header, Flatten(points), 0, header);
  }

  lemma UnitFeatureSays(vid: u16, slice: nat, offset: nat, points: seq<Feature>, mu: nat, nwords: nat, j: nat)
    requires ValidUnit(mu) && Uniform(nwords, points) && j < |points|
    ensures Stands(Unit(vid, slice, offset, points, mu), FeatureAt(j, nwords), points[j])
  {
    FeaturesAfter(UnitHeader(Label(vid, slice, offset), mu), nwords, points, j);
  }

  // -------------------------------------------------------------------------
  // All units.

  lemma NextUnitAt(vid: u16, slice: nat, frames: seq<Feature>, mu: nat, nwords: nat, offs: seq<nat>, k: nat)
    requires ValidUnit(mu) && ValidWidth(nwords) && Uniform(nwords, frames)
    requires InSlice(|frames|, mu, offs) && k < |offs|
    ensures Stands(Units(vid, slice, frames, mu, offs, k + 1), UnitAt(k, mu, nwords),
                   Unit(vid, slice, offs[k], frames[offs[k]..offs[k] + mu], mu))
  {
    UnitsLength(vid, slice, frames, mu, nwords, offs, k);
    UnitAtIs(k, mu, nwords);
    UnitsNext(vid, slice, frames, mu, offs, k);
    var u := Unit(vid, slice, offs[k], frames[offs[k]..offs[k] + mu], mu);
    StandsRight(Units(vid, slice, frames, mu, offs, k), u, 0, u);
  }

  lemma UnitsNext(vid: u16, slice: nat, frames: seq<Feature>, mu: nat, offs: seq<nat>, k: nat)
    requires ValidUnit(mu) && InSlice(|frames|, mu, offs) && k < |offs|
    ensures Units(vid, slice, frames, mu, offs, k + 1) ==
            Units(vid, slice, frames, mu, offs, k) + Unit(vid, slice, offs[k], frames[offs[k]..offs[k] + mu], mu)
  {
  }

  lemma UnitAtIs(k: nat, mu: nat, nwords: nat)
    ensures UnitAt(k, mu, nwords) == k * UnitWords(mu, nwords)
  {
    assert FeatureAt(mu, nwords) == UnitWords(mu, nwords);
  }

  lemma {:induction false} UnitStands(vid: u16, slice: nat, frames: seq<Feature>, mu: nat, nwords: nat,
                                      offs: seq<nat>, n: nat, k: nat)
    requires ValidUnit(mu) && ValidWidth(nwords) && Uniform(nwords, frames)
    requires InSlice(|frames|, mu, offs) && k < n <= |offs|
    ensures Stands(Units(vid, slice, frames, mu, offs, n), UnitAt(k, mu, nwords),
                   Unit(vid, slice, offs[k], frames[offs[k]..offs[k] + mu], mu))
  {
    if k == n - 1 {
      NextUnitAt(vid, slice, frames, mu, nwords, offs, k);
    } else {
      UnitStands(vid, slice, frames, mu, nwords, offs, n - 1, k);
      StandsLeft(Units(vid, slice, frames, mu, offs, n - 1),
                 Unit(vid, slice, offs[n - 1], frames[offs[n - 1]..offs[n - 1] + mu], mu), UnitAt(k, mu, nwords),
                 Unit(vid, slice, offs[k], frames[offs[k]..offs[k] + mu], mu));
    }
  }

  /** The same in the whole section. */
  lemma UnitInSection(vid: u16, slice: nat, frames: seq<Feature>, mu: nat, nwords: nat, k: nat)
    returns (off: nat, u: seq<word>)
    requires ValidUnit(mu) && ValidWidth(nwords) && Uniform(nwords, frames)
    requires (|frames| >= mu || |frames| <= Threshold(mu)) && k < |UnitOffsets(|frames|, mu)|
    ensures off == UnitOffsets(|frames|, mu)[k] && off + mu <= |frames|
    ensures u == Unit(vid, slice, off, frames[off..off + mu], mu)
    ensures Stands(SectionStream(vid, slice, frames, mu, nwords), UnitAt(k, mu, nwords), u)
  {
    OffsetsInSlice(|frames|, mu);
    var offs := UnitOffsets(|frames|, mu);
    off := offs[k];
    u := Unit(vid, slice, off, frames[off..off + mu], mu);
    UnitStands(vid, slice, frames, mu, nwords, offs, |offs|, k);
    StandsLeft(Units(vid, slice, frames, mu, offs, |offs|), Unit(vid, slice, 0, ZeroFrames(mu, nwords), mu),
               UnitAt(k, mu, nwords), u);
  }

  /** Every unit of a section begins with its header, labelled with its own offset. */
  lemma UnitHasHeader(vid: u16, slice: nat, frames: seq<Feature>, mu: nat, nwords: nat, k: nat)
    requires ValidUnit(mu) && ValidWidth(nwords) && Uniform(nwords, frames)
    requires (|frames| >= mu || |frames| <= Threshold(mu)) && k < |UnitOffsets(|frames|, mu)|
    ensures Stands(SectionStream(vid, slice, frames, mu, nwords), UnitAt(k, mu, nwords),
                   HeaderWords(vid, slice, UnitOffsets(|frames|, mu)[k], mu))
  {
    var off, u := UnitInSection(vid, slice, frames, mu, nwords, k);
    UnitHeaderSays(vid, slice, off, frames[off..off + mu], mu);
    StandsIn(SectionStream(vid, slice, frames, mu, nwords), UnitAt(k, mu, nwords), u, 0,
             HeaderWords(vid, slice, off, mu));
  }

  /** After it stand the features of the slice from that offset on. */
  lemma UnitHasFeatures(vid: u16, slice: nat, frames: seq<Feature>, mu: nat, nwords: nat, k: nat, j: nat)
    requires ValidUnit(mu) && ValidWidth(nwords) && Uniform(nwords, frames)
    requires (|frames| >= mu || |frames| <= Threshold(mu)) && k < |UnitOffsets(|frames|, mu)| && j < mu
    ensures UnitOffsets(|frames|, mu)[k] + j < |frames|
    ensures Stands(SectionStream(vid, slice, frames, mu, nwords), UnitAt(k, mu, nwords) + FeatureAt(j, nwords),
                   frames[UnitOffsets(|frames|, mu)[k] + j])
  {
    var off, u := UnitInSection(vid, slice, frames, mu, nwords, k);
    var points := frames[off..off + mu];
    UnitFeatureSays(vid, slice, off, points, mu, nwords, j);
    StandsIn(SectionStream(vid, slice, frames, mu, nwords), UnitAt(k, mu, nwords), u, FeatureAt(j, nwords), points[j]);
  }

  // -------------------------------------------------------------------------
  // The end.

  function AllZero(n: nat): (s: seq<word>)
    ensures |s| == n && forall i :: 0 <= i < n ==> s[i] == 0
  {
    seq(n, _ => 0)
  }

  lemma {:induction false} FlattenZeros(points: seq<Feature>)
    requires forall f :: f in points ==> f == AllZero(|f|)
    ensures Flatten(points) == AllZero(|Flatten(points)|)
  {
    if points != [] {
      FlattenZeros(points[1..]);
      assert points[0] in points;
    }
  }

  lemma ZeroUnitSays(vid: u16, slice: nat, mu: nat, nwords: nat)
    requires ValidUnit(mu) && ValidWidth(nwords)
    ensures var u := Unit(vid, slice, 0, ZeroFrames(mu, nwords), mu);
            |u| == FeatureAt(mu, nwords) && Stands(u, 8, AllZero(|u| - 8))
  {
    var zeros := ZeroFrames(mu, nwords);
    UnitLength(vid, slice, 0, zeros, mu, nwords);
    forall f | f in zeros
      ensures f == AllZero(|f|)
    {
    }
    FlattenZeros(zeros);
    var header := UnitHeader(Label(vid, slice, 0), mu);
    StandsRight(header, Flatten(zeros), 0, Flatten(zeros));
  }

  /** After the last unit stands one more, labelled with offset zero, of zeros; and that is
      all there is. */
  lemma SectionEnds(vid: u16, slice: nat, frames: seq<Feature>, mu: nat, nwords: nat)
    requires ValidUnit(mu) && ValidWidth(nwords) && Uniform(nwords, frames)
    requires |frames| >= mu || |frames| <= Threshold(mu)
    ensures var s := SectionStream(vid, slice, frames, mu, nwords);
            var at := UnitAt(|UnitOffsets(|frames|, mu)|, mu, nwords);
            && Stands(s, at, HeaderWords(vid, slice, 0, mu))
            && |s| == at + FeatureAt(mu, nwords)
            && Stands(s, at + 8, AllZero(FeatureAt(mu, nwords) - 8))
  {
    OffsetsInSlice(|frames|, mu);
    var offs := UnitOffsets(|frames|, mu);
    var units, u := Units(vid, slice, frames, mu, offs, |offs|), Unit(vid, slice, 0, ZeroFrames(mu, nwords), mu);
    UnitsLength(vid, slice, frames, mu, nwords, offs, |offs|);
    UnitHeaderSays(vid, slice, 0, ZeroFrames(mu, nwords), mu);
    ZeroUnitSays(vid, slice, mu, nwords);
    LastStands(units, u, UnitAt(|offs|, mu, nwords), HeaderWords(vid, slice, 0, mu), AllZero(|u| - 8));
  }

  lemma LastStands(units: seq<word>, u: seq<word>, at: nat, header: seq<word>, zeros: seq<word>)
    requires |units| == at && Stands(u, 0, header) && Stands(u, 8, zeros)
    ensures |units + u| == at + |u| && Stands(units + u, at, header) && Stands(units + u, at + 8, zeros)
  {
    StandsRight(units, u, 0, header);
    StandsRight(units, u, 8, zeros);
  }
}
