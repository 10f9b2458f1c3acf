/** `BitFeatureLoader::load_loop`: videos cut into slices, each sent as one
    section under a registered test number. */
module Slicing {
  import opened Words
  import opened NewLib
  import opened SectionLoader
  import opened SectionFacts

  /** One call of `load_section`: `size` features of `points` from `pos` on; and the number
      registered for it. */
  datatype Call = Call(vid: u16, pos: u16, slice: u16, size: nat, points: seq<Feature>, testId: nat)

  /** The slice lies in the vector it points into. */
  predicate InRange(call: Call) {
    call.pos + call.size <= |call.points|
  }

  function CallAt(rec: VideoLibRec, g: nat, k: nat): Call
    requires k * g < 0x1_0000 && k < 0x1_0000
  {
    var vid := FromShort(rec.videoNum);
    Call(vid, k * g, k, g, rec.points, TestId(vid, k))
  }

  /** The calls for the first `k` slices of a video. */
  function VideoCalls(rec: VideoLibRec, g: nat, k: nat): (cs: seq<Call>)
    requires 0 < g && k * g < 0x1_0000
    ensures |cs| == k
  {
    if k == 0 then []
    else
      NextMultiple(g, k - 1);
      VideoCalls(rec, g, k - 1) + [CallAt(rec, g, k - 1)]
  }

  lemma {:induction false} VideoCallsAt(rec: VideoLibRec, g: nat, k: nat, j: nat)
    requires 0 < g && k * g < 0x1_0000 && j < k
    ensures j * g + g <= k * g && j < 0x1_0000 && VideoCalls(rec, g, k)[j] == CallAt(rec, g, j)
  {
    NextMultiple(g, k - 1);
    if j < k - 1 {
      VideoCallsAt(rec, g, k - 1, j);
    }
  }

  lemma NextCall(rec: VideoLibRec, g: nat, k: nat, pos: nat)
    requires 0 < g && pos == k * g && pos + g < 0x1_0000
    ensures k + 1 <= (k + 1) * g == pos + g
    ensures VideoCalls(rec, g, k + 1) == VideoCalls(rec, g, k) + [CallAt(rec, g, k)]
  {
    NextMultiple(g, k);
  }

  lemma NextMultiple(g: nat, k: nat)
    requires 0 < g
    ensures (k + 1) * g == k * g + g
    ensures k <= k * g
  {
  }

  function Slices(n: nat, g: nat): nat
    requires 0 < g
  {
    if n == 0 then 0 else (n - 1) / g
  }

  lemma SlicesBound(n: nat, g: nat, k: nat)
    requires 0 < g && 0 < n
    ensures k <= Slices(n, g) ==> k * g < n
    ensures k == Slices(n, g) <==> k * g < n <= k * g + g
  {
    var q := (n - 1) / g;
    assert n - 1 == q * g + (n - 1) % g;
    if k < q {
      assert (k + 1) * g <= q * g by {
        Ordered(g, k + 1, q);
      }
    } else if k > q {
      assert (q + 1) * g <= k * g by {
        Ordered(g, q + 1, k);
      }
    }
  }

  lemma Ordered(g: nat, a: nat, b: nat)
    requires a <= b
    ensures a * g <= b * g && g * a <= g * b
  {
  }

  /** Frame `f` belongs to slice `f / g` and to no other. */
  lemma SliceOfFrame(g: nat, k: nat, f: nat)
    requires 0 < g
    ensures k * g <= f < k * g + g <==> k == f / g
    ensures f < k * g <==> f / g < k
  {
    var q := f / g;
    assert f == q * g + f % g;
    if k < q {
      Ordered(g, k + 1, q);
      NextMultiple(g, k);
    } else if k > q {
      Ordered(g, q + 1, k);
      NextMultiple(g, q);
    }
  }

  /** The slices are disjoint and consecutive, cover exactly a prefix of the
      video, and leave at least one frame and at most a slice unsent. */
  lemma SlicesCoverPrefix(n: nat, g: nat, f: nat)
    requires 0 < g && 0 < n && f < n
    ensures var q := Slices(n, g);
            && 1 <= n - q * g <= g
            && (f < q * g <==> f / g < q)
            && (forall k :: 0 <= k < q ==> (k * g <= f < k * g + g <==> k == f / g))
  {
    var q := Slices(n, g);
    SlicesBound(n, g, q);
    SliceOfFrame(g, q, f);
    forall k | 0 <= k < q
      ensures k * g <= f < k * g + g <==> k == f / g
    {
      SliceOfFrame(g, k, f);
    }
  }

  /** Every record announces at least one frame, as all decoded records do. */
  ghost predicate Announced(videos: seq<VideoLibRec>) {
    forall i :: 0 <= i < |videos| ==> videos[i].numFrames > 0
  }

  lemma DecodedAreAnnounced(nwords: nat, ws: seq<word>)
    requires 0 < nwords
    ensures Announced(Run(nwords, START, ws, false).Recs())
  {
    RunKeepsInv(nwords, START, ws, false);
  }

  /** The first `k` of these lists, one after another. */
  function Concat(css: seq<seq<Call>>, k: nat): seq<Call>
    requires k <= |css|
  {
    if k == 0 then [] else Concat(css, k - 1) + css[k - 1]
  }

  /** The calls for each video of a library. */
  ghost function CallsOfEach(videos: seq<VideoLibRec>, g: nat): (css: seq<seq<Call>>)
    requires 0 < g && Announced(videos)
    ensures |css| == |videos|
  {
    seq(|videos|, i requires 0 <= i < |videos| => AllCalls(videos[i], g))
  }

  /** The calls for the whole library. */
  ghost function LibCalls(videos: seq<VideoLibRec>, g: nat): seq<Call>
    requires 0 < g && Announced(videos)
  {
    Concat(CallsOfEach(videos, g), |videos|)
  }

  /** The calls of a video stand after those of the videos before it. */
  lemma CallsStand(videos: seq<VideoLibRec>, g: nat, i: nat)
    requires 0 < g && Announced(videos) && i < |videos|
    ensures LibCalls(videos[..i], g) + AllCalls(videos[i], g) <= LibCalls(videos, g)
  {
    var css := CallsOfEach(videos, g);
    assert CallsOfEach(videos[..i], g) == css[..i];
    ConcatPrefix(css, css[..i], i);
    ConcatGrows(css, i + 1, |videos|);
  }

  lemma {:induction false} ConcatPrefix(css: seq<seq<Call>>, front: seq<seq<Call>>, k: nat)
    requires k <= |front| && front <= css
    ensures Concat(css, k) == Concat(front, k)
  {
    if k > 0 {
      ConcatPrefix(css, front, k - 1);
    }
  }

  lemma {:induction false} ConcatGrows(css: seq<seq<Call>>, j: nat, k: nat)
    requires j <= k <= |css|
    ensures Concat(css, j) <= Concat(css, k)
  {
    if j < k {
      ConcatGrows(css, j, k - 1);
    }
  }

  function AllCalls(rec: VideoLibRec, g: nat): seq<Call>
    requires 0 < g && rec.numFrames > 0
  {
    SlicesBound(rec.numFrames, g, Slices(rec.numFrames, g));
    VideoCalls(rec, g, Slices(rec.numFrames, g))
  }

  /** What is handed over for slice `k`: the video, its number as the number of the slice, the
      place and size of the slice, and the number registered. */
  lemma CallSays(rec: VideoLibRec, g: nat, k: nat)
    requires 0 < g && rec.numFrames > 0 && k < |AllCalls(rec, g)|
    ensures var call := AllCalls(rec, g)[k];
            && call.vid == FromShort(rec.videoNum) && call.slice == k && call.slice * g == call.pos
            && call.size == g && call.points == rec.points
            && call.testId == call.vid * 0x400 + call.slice
  {
    SlicesBound(rec.numFrames, g, Slices(rec.numFrames, g));
    VideoCallsAt(rec, g, Slices(rec.numFrames, g), k);
  }

  /** A frame is in the slice of its own number and in no other, and frames are in slices but
      for 1 to `g` at the end. */
  lemma CallsTile(rec: VideoLibRec, g: nat, k: nat, f: nat)
    requires 0 < g && rec.numFrames > 0 && k < |AllCalls(rec, g)|
    ensures var cs := AllCalls(rec, g);
            && (cs[k].pos <= f < cs[k].pos + cs[k].size <==> k == f / g)
            && 1 <= rec.numFrames - |cs| * g <= g
  {
    CallSays(rec, g, k);
    SliceOfFrame(g, k, f);
    SlicesBound(rec.numFrames, g, Slices(rec.numFrames, g));
  }

  /** The numbers registered for two slices of a video differ. */
  lemma TestIdsDiffer(rec: VideoLibRec, g: nat, k: nat, k': nat)
    requires 0 < g && rec.numFrames > 0 && k < |AllCalls(rec, g)| && k' < |AllCalls(rec, g)| && k != k'
    ensures AllCalls(rec, g)[k].slice != AllCalls(rec, g)[k'].slice
    ensures AllCalls(rec, g)[k].testId != AllCalls(rec, g)[k'].testId
  {
    CallSays(rec, g, k);
    CallSays(rec, g, k');
  }

  ghost predicate AllInRange(cs: seq<Call>) {
    forall j :: 0 <= j < |cs| ==> InRange(cs[j])
  }

  /** The frames the loop sends of `n`: a slice while more than a slice is left. */
  function Sliced(n: nat, g: nat): nat
    requires 0 < g
  {
    if n <= g then 0 else g + Sliced(n - g, g)
  }

  lemma {:induction false} SlicedIs(n: nat, g: nat)
    requires 0 < g
    ensures Sliced(n, g) == Slices(n, g) * g
  {
    if n > g {
      SlicedIs(n - g, g);
      OneSliceLess(n, g);
      NextMultiple(g, Slices(n - g, g));
    } else if n > 0 {
      SlicesBound(n, g, 0);
    }
  }

  lemma OneSliceLess(n: nat, g: nat)
    requires 0 < g < n
    ensures Slices(n, g) == Slices(n - g, g) + 1
  {
    var q := Slices(n - g, g);
    SlicesBound(n - g, g, q);
    NextMultiple(g, q);
    SlicesBound(n, g, q + 1);
  }

  /** The slices of a record end within its features. */
  predicate HasSlices(rec: VideoLibRec, g: nat)
    requires 0 < g && rec.numFrames > 0
  {
    Sliced(rec.numFrames, g) <= |rec.points|
  }

  /** The slices are cut by the frames announced. They lie in the features exactly when
      there are features for all of them. */
  lemma CallsInRangeIff(rec: VideoLibRec, g: nat)
    requires 0 < g && rec.numFrames > 0
    ensures AllInRange(AllCalls(rec, g)) <==> HasSlices(rec, g)
    ensures Complete(rec) ==> HasSlices(rec, g)
  {
    var cs, q := AllCalls(rec, g), Slices(rec.numFrames, g);
    SlicedIs(rec.numFrames, g);
    SlicesBound(rec.numFrames, g, q);
    forall j | 0 <= j < q
      ensures cs[j].pos + cs[j].size <= q * g && cs[j].points == rec.points
    {
      VideoCallsAt(rec, g, q, j);
    }
    if q > 0 {
      NextMultiple(g, q - 1);
      VideoCallsAt(rec, g, q, q - 1);
      assert cs[q - 1].pos + cs[q - 1].size == q * g;
    }
  }

  lemma {:induction false} ConcatInRangeIff(css: seq<seq<Call>>, k: nat)
    requires k <= |css|
    ensures AllInRange(Concat(css, k)) <==> forall i :: 0 <= i < k ==> AllInRange(css[i])
  {
    if k > 0 {
      ConcatInRangeIff(css, k - 1);
      InRangeConcat(Concat(css, k - 1), css[k - 1]);
    }
  }

  lemma LibCallsInRangeIff(videos: seq<VideoLibRec>, g: nat)
    requires 0 < g && Announced(videos)
    ensures AllInRange(LibCalls(videos, g)) <==> forall i :: 0 <= i < |videos| ==> HasSlices(videos[i], g)
  {
    var css := CallsOfEach(videos, g);
    ConcatInRangeIff(css, |videos|);
    forall i | 0 <= i < |videos|
      ensures AllInRange(css[i]) <==> HasSlices(videos[i], g)
    {
      CallsInRangeIff(videos[i], g);
    }
  }

  lemma InRangeConcat(a: seq<Call>, b: seq<Call>)
    ensures AllInRange(a + b) <==> AllInRange(a) && AllInRange(b)
  {
    var ab := a + b;
    assert forall j :: 0 <= j < |a| ==> ab[j] == a[j];
    forall j | 0 <= j < |b|
      ensures ab[|a| + j] == b[j]
    {
    }
    if AllInRange(ab) {
      forall j | 0 <= j < |b|
        ensures InRange(b[j])
      {
        assert InRange(ab[|a| + j]);
      }
    }
  }

  lemma {:induction false} TimesInRangeIff(cs: seq<Call>, r: nat)
    ensures AllInRange(Times(cs, r)) <==> r == 0 || AllInRange(cs)
  {
    if r > 0 {
      TimesInRangeIff(cs, r - 1);
      InRangeConcat(Times(cs, r - 1), cs);
    }
  }

  /** A file that ends early, in whatever record, is sliced all the same: past the features
      of its last record exactly when the frames announced reach a slice that is not there. */
  lemma CutShortIsSliced(nwords: nat, recs: seq<VideoLibRec>, header: word, points: seq<Feature>, part: seq<word>, g: nat)
    requires ValidWidth(nwords) && UniformLib(nwords, recs) && AllComplete(recs)
    requires Uniform(nwords, points) && |part| < nwords && 0 < g
    requires header != SYNCWORD && HeaderFrames(header, false) > |points|
    ensures var file := LibFile(recs) + ([SYNCWORD, header] + (Flatten(points) + part));
            var videos := Run(nwords, START, file, false).Recs();
            && Announced(videos)
            && (AllInRange(LibCalls(videos, g)) <==> Sliced(HeaderFrames(header, false), g) <= |points|)
  {
    var file := LibFile(recs) + ([SYNCWORD, header] + (Flatten(points) + part));
    RunCutShort(nwords, recs, header, points, part);
    DecodedAreAnnounced(nwords, file);
    LastMatters(recs, VideoLibRec(HeaderVideo(header, false), HeaderFrames(header, false), points), g);
  }

  /** Complete records have all their slices, so that only the last one matters. */
  lemma LastMatters(recs: seq<VideoLibRec>, last: VideoLibRec, g: nat)
    requires AllComplete(recs) && last.numFrames > 0 && 0 < g
    ensures Announced(recs + [last])
    ensures AllInRange(LibCalls(recs + [last], g)) <==> HasSlices(last, g)
  {
    var videos := recs + [last];
    LibCallsInRangeIff(videos, g);
    forall i | 0 <= i < |recs|
      ensures HasSlices(videos[i], g)
    {
      CallsInRangeIff(recs[i], g);
    }
    assert videos[|recs|] == last;
  }

  /** A saved library cut after any number of words: what is loaded, and when its slices lie
      in the features. */
  lemma CutAnywhereIsSliced(nwords: nat, recs: seq<VideoLibRec>, n: nat, g: nat) returns (k: nat, p: nat)
    requires ValidWidth(nwords) && UniformLib(nwords, recs) && AllComplete(recs) && n <= |LibFile(recs)| && 0 < g
    ensures var d := Run(nwords, START, LibFile(recs)[..n], false);
            && Holds(d, recs, k, p) && Announced(d.Recs())
            && (AllInRange(LibCalls(d.Recs(), g)) <==>
                  (d.phase.Desc? ==> Sliced(recs[k].numFrames, g) <= p))
  {
    k, p := CutAnywhere(nwords, recs, n);
    var d := Run(nwords, START, LibFile(recs)[..n], false);
    DecodedAreAnnounced(nwords, LibFile(recs)[..n]);
    if d.phase.Desc? {
      LastMatters(recs[..k], recs[k].(points := recs[k].points[..p]), g);
    } else {
      LibCallsInRangeIff(d.Recs(), g);
      forall i | 0 <= i < k
        ensures HasSlices(d.Recs()[i], g)
      {
        CallsInRangeIff(recs[i], g);
      }
    }
  }

  function Times(cs: seq<Call>, r: nat): seq<Call> {
    if r == 0 then [] else Times(cs, r - 1) + cs
  }

  /** The calls are made `r` times over. */
  lemma {:induction false} TimesSays(cs: seq<Call>, r: nat, i: nat)
    requires i < r
    ensures |Times(cs, r)| == r * |cs| && i * |cs| + |cs| <= r * |cs|
    ensures Times(cs, r)[i * |cs|..i * |cs| + |cs|] == cs
  {
    var n := |cs|;
    assert (r - 1) * n + n == r * n;
    if r == 1 {
      assert Times(cs, 1) == Times(cs, 0) + cs == cs;
      assert 0 * n == 0 && 1 * n == n;
    } else if i == r - 1 {
      TimesSays(cs, r - 1, 0);
    } else {
      TimesSays(cs, r - 1, i);
    }
  }

  /** The load that `n` slices add. */
  function Load(n: nat, g: nat): nat {
    if n == 0 then 0 else Load(n - 1, g) + g
  }

  /** No load is lost: the loads added are the frames in the slices sent. */
  lemma {:induction false} LoadIsFrames(n: nat, g: nat)
    requires 0 < g
    ensures Load(n, g) == n * g
  {
    if n > 0 {
      LoadIsFrames(n - 1, g);
      NextMultiple(g, n - 1);
    }
  }

  function TestIds(cs: seq<Call>): set<nat> {
    set i | 0 <= i < |cs| :: cs[i].testId
  }

  lemma TestIdsConcat(a: seq<Call>, b: seq<Call>)
    ensures TestIds(a + b) == TestIds(a) + TestIds(b)
  {
    forall t | t in TestIds(a) + TestIds(b)
      ensures t in TestIds(a + b)
    {
      if t in TestIds(a) {
        var i :| 0 <= i < |a| && a[i].testId == t;
        assert (a + b)[i] == a[i];
      } else {
        var i :| 0 <= i < |b| && b[i].testId == t;
        assert (a + b)[|a| + i] == b[i];
      }
    }
  }

  /** Playing the source again registers nothing new. */
  lemma {:induction false} TestIdsTimes(cs: seq<Call>, r: nat)
    ensures TestIds(Times(cs, r)) == if r == 0 then {} else TestIds(cs)
  {
    if r > 0 {
      TestIdsTimes(cs, r - 1);
      TestIdsConcat(Times(cs, r - 1), cs);
    }
  }

  /** What the loader does to its application and to the chosen matchers: the
      calls, the registered numbers, and the load added in all. */
  class BitFeatureLoader {
    var calls: seq<Call>
    var testIds: set<nat>
    var loadAdded: nat

    constructor ()
      ensures calls == [] && testIds == {} && loadAdded == 0
    {
      calls, testIds, loadAdded := [], {}, 0;
    }

    ghost predicate Valid(g: nat)
      reads this
    {
      testIds == TestIds(calls) && loadAdded == Load(|calls|, g)
    }

    /** One slice: the section call, the registration and the added load. */
    method LoadSlice(call: Call, g: nat)
      requires 0 < g && Valid(g)
      modifies this
      ensures Valid(g) && calls == old(calls) + [call]
    {
      TestIdsConcat(calls, [call]);
      assert TestIds([call]) == {call.testId} by {
        assert [call][0].testId in TestIds([call]);
      }
      calls := calls + [call];
      testIds := testIds + {call.testId};
      loadAdded := loadAdded + g;
    }

    /** The inner loop, on one video. The 16-bit `pos` and `numSlice` never wrap: the
        additions below stay in range. The slices need not (`CallsInRangeIff`). */
    method LoadVideo(rec: VideoLibRec, g: nat)
      requires 0 < g && rec.numFrames > 0 && Valid(g)
      modifies this
      ensures Valid(g) && calls == old(calls) + AllCalls(rec, g)
    {
      var left: nat := rec.numFrames;
      var vid := FromShort(rec.videoNum);
      var pos: u16 := 0;
      var numSlice: u16 := 0;
      assert calls == old(calls) + VideoCalls(rec, g, numSlice);
      while left > g
        invariant numSlice * g == pos == rec.numFrames - left
        invariant 0 < left && Valid(g)
        invariant calls == old(calls) + VideoCalls(rec, g, numSlice)
        decreases left
      {
        NextCall(rec, g, numSlice, pos);
        LoadSlice(Call(vid, pos, numSlice, g, rec.points, TestId(vid, numSlice)), g);
        numSlice := numSlice + 1;
        left := left - g;
        pos := pos + g;
      }
      SlicesBound(rec.numFrames, g, numSlice);
    }

    /** All videos once. */
    method LoadVideos(videos: seq<VideoLibRec>, g: nat)
      requires 0 < g && Announced(videos) && Valid(g)
      modifies this
      ensures Valid(g) && calls == old(calls) + LibCalls(videos, g)
    {
      ghost var css := CallsOfEach(videos, g);
      for i := 0 to |videos|
        invariant Valid(g) && calls == old(calls) + Concat(css, i)
      {
        LoadVideo(videos[i], g);
        assert calls == old(calls) + Concat(css, i) + css[i] == old(calls) + (Concat(css, i) + css[i]);
      }
    }

    /** All videos, as often as the source is repeated. Repeating registers nothing new, and
        the load added is that of all the frames in the slices. */
    method LoadLoop(videos: seq<VideoLibRec>, g: nat, repeatTimes: nat)
      requires 0 < g && Announced(videos) && Valid(g)
      modifies this
      ensures Valid(g) && calls == old(calls) + Times(LibCalls(videos, g), repeatTimes)
      ensures testIds == old(testIds) + if repeatTimes == 0 then {} else TestIds(LibCalls(videos, g))
      ensures loadAdded == |calls| * g
      ensures AllInRange(Times(LibCalls(videos, g), repeatTimes)) <==>
                repeatTimes == 0 || forall i :: 0 <= i < |videos| ==> HasSlices(videos[i], g)
    {
      ghost var once := LibCalls(videos, g);
      RepeatLoop(videos, g, repeatTimes);
      TestIdsConcat(old(calls), Times(once, repeatTimes));
      TestIdsTimes(once, repeatTimes);
      LoadIsFrames(|calls|, g);
      LibCallsInRangeIff(videos, g);
      TimesInRangeIff(once, repeatTimes);
    }

    method RepeatLoop(videos: seq<VideoLibRec>, g: nat, repeatTimes: nat)
      requires 0 < g && Announced(videos) && Valid(g)
      modifies this
      ensures Valid(g) && calls == old(calls) + Times(LibCalls(videos, g), repeatTimes)
    {
      ghost var once := LibCalls(videos, g);
      assert calls == old(calls) + Times(once, 0);
      for r := 0 to repeatTimes
        invariant Valid(g) && calls == old(calls) + Times(once, r)
      {
        LoadVideos(videos, g);
        assert calls == old(calls) + (Times(once, r) + once);
      }
    }
  }

  /** Where the last unit of a full slice begins. */
  function LastOffset(g: nat, mu: nat): nat
    requires ValidUnit(mu) && mu <= g
  {
    UnitOffsets(g, mu)[|UnitOffsets(g, mu)| - 1]
  }

  lemma LastIsGreatest(g: nat, mu: nat, j: nat)
    requires ValidUnit(mu) && mu <= g && j < |UnitOffsets(g, mu)|
    ensures UnitOffsets(g, mu)[j] <= LastOffset(g, mu) <= g - mu
    ensures LastOffset(g, mu) == if g % mu > Threshold(mu) then g - mu else g - g % mu - mu
  {
    var offs := UnitOffsets(g, mu);
    OffsetsInSlice(g, mu);
    assert g == g / mu * mu + g % mu;
    assert j < g / mu ==> offs[j] == j * mu;
  }

  /** Every unit of the call's slice is labelled with the number registered for the call: the
      label `load_section` makes of what it is handed. */
  predicate UnitsNameTheirTest(call: Call, mu: nat)
    requires ValidUnit(mu) && mu <= call.size
  {
    forall j :: 0 <= j < |UnitOffsets(call.size, mu)| ==>
      Label(call.vid, call.slice, UnitOffsets(call.size, mu)[j]) / 0x1000 == call.testId
  }

  /** They are exactly when the last unit begins below frame 4096 of the slice, and the
      number fits 20 bits. */
  lemma UnitsNameTheirTestIff(rec: VideoLibRec, g: nat, k: nat, mu: nat)
    requires ValidUnit(mu) && mu <= g < 0x1_0000 && 0 < g && rec.numFrames > 0 && k < |AllCalls(rec, g)|
    ensures AllCalls(rec, g)[k].size == g
    ensures UnitsNameTheirTest(AllCalls(rec, g)[k], mu) <==>
            LastOffset(g, mu) < 0x1000 && FromShort(rec.videoNum) * 0x400 + k < 0x10_0000
  {
    CallSays(rec, g, k);
    LabelsOfCall(AllCalls(rec, g)[k], mu);
  }

  lemma LabelsOfCall(call: Call, mu: nat)
    requires ValidUnit(mu) && mu <= call.size < 0x1_0000 && call.testId == call.vid * 0x400 + call.slice
    ensures UnitsNameTheirTest(call, mu) <==>
            LastOffset(call.size, mu) < 0x1000 && call.vid * 0x400 + call.slice < 0x10_0000
  {
    var offs := UnitOffsets(call.size, mu);
    forall j | 0 <= j < |offs|
      ensures Label(call.vid, call.slice, offs[j]) / 0x1000 == call.testId <==>
              offs[j] < 0x1000 && call.vid * 0x400 + call.slice < 0x10_0000
      ensures offs[j] <= LastOffset(call.size, mu)
    {
      LastIsGreatest(call.size, mu, j);
      LabelNamesTest(call.vid, call.slice, offs[j]);
    }
    assert LastOffset(call.size, mu) == offs[|offs| - 1];
  }

  /** In minutes of 60 frames: up to 68, for every merge unit. */
  lemma MinutesThatFit(minutes: nat, mu: nat)
    requires ValidUnit(mu) && 0 < minutes < 256
    ensures LastOffset(60 * minutes, mu) < 0x1000 <==> minutes <= 68
  {
    LastIsGreatest(60 * minutes, mu, 0);
  }

  /** The frames left after `k` turns of the slicing loop. */
  function Left(n: nat, g: nat, k: nat): int { n - k * g }

  /** The loop ends exactly if slices have frames, or the video has none. */
  lemma LoopEndsIff(n: nat, g: nat)
    ensures (exists k: nat :: Left(n, g, k) <= g) <==> g > 0 || n == 0
  {
    if g > 0 {
      EnoughTurns(n, g);
    } else {
      NoTurns(n);
    }
  }

  lemma EnoughTurns(n: nat, g: nat)
    requires g > 0
    ensures Left(n, g, n) <= g
  {
    Ordered(n, 1, g);
  }

  lemma NoTurns(n: nat)
    ensures forall k: nat :: Left(n, 0, k) == n
    ensures (exists k: nat :: Left(n, 0, k) <= 0) <==> n == 0
  {
    assert Left(n, 0, 0) == n;
  }
}
