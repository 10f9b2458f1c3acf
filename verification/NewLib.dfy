/** The feature library: its records, the one-word-at-a-time decoder
    `VideoLibVec::store`, and the file form written by `saveLibNew`. */
module NewLib {
  import opened Words

  type Feature = seq<word>

  datatype VideoLibRec = VideoLibRec(videoNum: short, numFrames: short, points: seq<Feature>)

  predicate ValidWidth(nwords: nat) {
    nwords == 1 || nwords == 2 || nwords == 4
  }

  /** Every feature of the list has the library's width. */
  ghost predicate Uniform(nwords: nat, points: seq<Feature>) {
    forall i :: 0 <= i < |points| ==> |points[i]| == nwords
  }

  ghost predicate UniformLib(nwords: nat, lib: seq<VideoLibRec>) {
    forall i :: 0 <= i < |lib| ==> Uniform(nwords, lib[i].points)
  }

  function Flatten(points: seq<Feature>): seq<word> {
    if points == [] then [] else points[0] + Flatten(points[1..])
  }

  function TotalFrames(recs: seq<VideoLibRec>): nat {
    if recs == [] then 0 else TotalFrames(recs[..|recs| - 1]) + |recs[|recs| - 1].points|
  }

  // -------------------------------------------------------------------------
  // The decoder on values. Between records `done` is the whole list; inside a
  // record `open` is its last entry, still growing.

  datatype Phase = Sync | Num | Desc(open: VideoLibRec, part: seq<word>)

  datatype Decoder = Decoder(phase: Phase, done: seq<VideoLibRec>, total: nat) {
    function Recs(): seq<VideoLibRec> {
      if phase.Desc? then done + [phase.open] else done
    }
  }

  const START := Decoder(Sync, [], 0)

  predicate Complete(rec: VideoLibRec) {
    0 < rec.numFrames && |rec.points| == rec.numFrames
  }

  ghost predicate AllComplete(recs: seq<VideoLibRec>) {
    forall i :: 0 <= i < |recs| ==> Complete(recs[i])
  }

  /** What `store` keeps on every word stream. */
  ghost predicate Inv(nwords: nat, d: Decoder) {
    && 0 < nwords
    && AllComplete(d.done)
    && d.total == TotalFrames(d.Recs())
    && (d.phase.Desc? ==> |d.phase.part| < nwords && |d.phase.open.points| < d.phase.open.numFrames)
  }

  function HeaderVideo(w: word, fromNet: bool): short {
    ToShort(if fromNet then Swap16(w % 0x1_0000) else w % 0x1_0000)
  }

  function HeaderFrames(w: word, fromNet: bool): short {
    ToShort(if fromNet then Swap16(w / 0x1_0000) else w / 0x1_0000)
  }

  function StepNum(d: Decoder, w: word, fromNet: bool): Decoder {
    if w == SYNCWORD then d
    else if HeaderFrames(w, fromNet) > 0 then
      d.(phase := Desc(VideoLibRec(HeaderVideo(w, fromNet), HeaderFrames(w, fromNet), []), []))
    else d.(phase := Sync)
  }

  /** `back().point_vec.push_back(f)` and the test for the last frame. */
  function AddPoint(d: Decoder, open: VideoLibRec, f: Feature): Decoder {
    var rec := open.(points := open.points + [f]);
    if |rec.points| == rec.numFrames then Decoder(Sync, d.done + [rec], d.total + 1)
    else Decoder(Desc(rec, []), d.done, d.total + 1)
  }

  function StepDesc(nwords: nat, d: Decoder, open: VideoLibRec, part: seq<word>, w: word): Decoder {
    if |part| + 1 == nwords then AddPoint(d, open, part + [w])
    else d.(phase := Desc(open, part + [w]))
  }

  function Step(nwords: nat, d: Decoder, w: word, fromNet: bool): Decoder {
    match d.phase
    case Sync => if w == SYNCWORD then d.(phase := Num) else d
    case Num => StepNum(d, w, fromNet)
    case Desc(open, part) => StepDesc(nwords, d, open, part, w)
  }

  function Run(nwords: nat, d: Decoder, ws: seq<word>, fromNet: bool): Decoder
    decreases |ws|
  {
    if ws == [] then d else Run(nwords, Step(nwords, d, ws[0], fromNet), ws[1..], fromNet)
  }

  lemma TotalSnoc(recs: seq<VideoLibRec>, rec: VideoLibRec)
    ensures TotalFrames(recs + [rec]) == TotalFrames(recs) + |rec.points|
  {
    assert (recs + [rec])[..|recs|] == recs;
  }

  lemma StepDescKeepsInv(nwords: nat, d: Decoder, w: word)
    requires Inv(nwords, d) && d.phase.Desc?
    ensures Inv(nwords, StepDesc(nwords, d, d.phase.open, d.phase.part, w))
  {
    var open := d.phase.open;
    TotalSnoc(d.done, open);
    TotalSnoc(d.done, open.(points := open.points + [d.phase.part + [w]]));
  }

  lemma StepNumKeepsInv(nwords: nat, d: Decoder, w: word, fromNet: bool)
    requires Inv(nwords, d) && d.phase.Num?
    ensures Inv(nwords, StepNum(d, w, fromNet))
  {
    var r := StepNum(d, w, fromNet);
    if r.phase.Desc? {
      TotalSnoc(d.done, r.phase.open);
    }
  }

  lemma StepKeepsInv(nwords: nat, d: Decoder, w: word, fromNet: bool)
    requires Inv(nwords, d)
    ensures Inv(nwords, Step(nwords, d, w, fromNet))
  {
    match d.phase
    case Sync =>
    case Num => StepNumKeepsInv(nwords, d, w, fromNet);
    case Desc(open, part) => StepDescKeepsInv(nwords, d, w);
  }

  /** The decoder invariant, for every word stream. */
  lemma {:induction false} RunKeepsInv(nwords: nat, d: Decoder, ws: seq<word>, fromNet: bool)
    requires Inv(nwords, d)
    ensures Inv(nwords, Run(nwords, d, ws, fromNet))
    decreases |ws|
  {
    if ws != [] {
      StepKeepsInv(nwords, d, ws[0], fromNet);
      RunKeepsInv(nwords, Step(nwords, d, ws[0], fromNet), ws[1..], fromNet);
    }
  }

  lemma {:induction false} RunConcat(nwords: nat, d: Decoder, a: seq<word>, b: seq<word>, fromNet: bool)
    ensures Run(nwords, d, a + b, fromNet) == Run(nwords, Run(nwords, d, a, fromNet), b, fromNet)
    decreases |a|
  {
    if a == [] {
      assert a + b == b;
    } else {
      assert (a + b)[1..] == a[1..] + b;
      RunConcat(nwords, Step(nwords, d, a[0], fromNet), a[1..], b, fromNet);
    }
  }

  lemma RunOne(nwords: nat, d: Decoder, w: word, fromNet: bool)
    ensures Run(nwords, d, [w], fromNet) == Step(nwords, d, w, fromNet)
  {
    assert Run(nwords, Step(nwords, d, w, fromNet), [w][1..], fromNet) == Step(nwords, d, w, fromNet);
  }

  /** Outside a record every word but SYNCWORD is skipped. */
  lemma {:induction false} SyncSkips(nwords: nat, d: Decoder, ws: seq<word>, fromNet: bool)
    requires d.phase == Sync
    requires forall i :: 0 <= i < |ws| ==> ws[i] != SYNCWORD
    ensures Run(nwords, d, ws, fromNet) == d
    decreases |ws|
  {
    if ws != [] {
      SyncSkips(nwords, d, ws[1..], fromNet);
    }
  }

  /** The words of one feature are gathered whatever they are, SYNCWORD included. */
  lemma {:induction false} RunFeature(nwords: nat, d: Decoder, rest: seq<word>, fromNet: bool)
    requires d.phase.Desc?
    requires rest != [] && |d.phase.part| + |rest| == nwords
    ensures Run(nwords, d, rest, fromNet) == AddPoint(d, d.phase.open, d.phase.part + rest)
    decreases |rest|
  {
    if |rest| == 1 {
      assert rest == [rest[0]];
      RunOne(nwords, d, rest[0], fromNet);
    } else {
      RunFeature(nwords, Step(nwords, d, rest[0], fromNet), rest[1..], fromNet);
      assert d.phase.part + [rest[0]] + rest[1..] == d.phase.part + rest;
    }
  }

  /** The features of a record fill it and end in Sync. */
  lemma {:induction false} RunPoints(nwords: nat, d: Decoder, points: seq<Feature>, fromNet: bool)
    requires d.phase.Desc? && d.phase.part == []
    requires 0 < nwords && points != [] && Uniform(nwords, points)
    requires d.phase.open.numFrames == |d.phase.open.points| + |points|
    ensures Run(nwords, d, Flatten(points), fromNet) ==
            Decoder(Sync, d.done + [d.phase.open.(points := d.phase.open.points + points)], d.total + |points|)
    decreases |points|
  {
    var open := d.phase.open;
    RunFeature(nwords, d, points[0], fromNet);
    assert d.phase.part + points[0] == points[0];
    RunConcat(nwords, d, points[0], Flatten(points[1..]), fromNet);
    assert open.points + [points[0]] + points[1..] == open.points + points;
    if |points| == 1 {
      assert points == [points[0]] && Flatten(points[1..]) == [];
    } else {
      RunPoints(nwords, AddPoint(d, open, points[0]), points[1..], fromNet);
    }
  }

  /** Fewer features than announced leave the record open. */
  lemma {:induction false} RunSomePoints(nwords: nat, d: Decoder, points: seq<Feature>, fromNet: bool)
    requires d.phase.Desc? && d.phase.part == []
    requires 0 < nwords && Uniform(nwords, points)
    requires d.phase.open.numFrames > |d.phase.open.points| + |points|
    ensures Run(nwords, d, Flatten(points), fromNet) ==
            Decoder(Desc(d.phase.open.(points := d.phase.open.points + points), []), d.done, d.total + |points|)
    decreases |points|
  {
    var open := d.phase.open;
    if points == [] {
      assert open.points + points == open.points;
    } else {
      RunFeature(nwords, d, points[0], fromNet);
      assert d.phase.part + points[0] == points[0];
      RunConcat(nwords, d, points[0], Flatten(points[1..]), fromNet);
      assert open.points + [points[0]] + points[1..] == open.points + points;
      RunSomePoints(nwords, AddPoint(d, open, points[0]), points[1..], fromNet);
    }
  }

  /** Less than one feature is held until the rest of it comes. */
  lemma {:induction false} RunPart(nwords: nat, d: Decoder, part: seq<word>, fromNet: bool)
    requires d.phase.Desc? && |d.phase.part| + |part| < nwords
    ensures Run(nwords, d, part, fromNet) == d.(phase := Desc(d.phase.open, d.phase.part + part))
    decreases |part|
  {
    if part == [] {
      assert d.phase.part + part == d.phase.part;
    } else {
      RunPart(nwords, Step(nwords, d, part[0], fromNet), part[1..], fromNet);
      assert d.phase.part + [part[0]] + part[1..] == d.phase.part + part;
    }
  }

  /** A record that ends early, wherever: it is kept, with all the frames announced and
      only the features there are. */
  lemma RunCutRecord(nwords: nat, d: Decoder, header: word, points: seq<Feature>, part: seq<word>, fromNet: bool)
    requires d.phase == Sync && Uniform(nwords, points) && |part| < nwords
    requires header != SYNCWORD && HeaderFrames(header, fromNet) > |points|
    ensures Run(nwords, d, [SYNCWORD, header] + (Flatten(points) + part), fromNet) ==
            Decoder(Desc(VideoLibRec(HeaderVideo(header, fromNet), HeaderFrames(header, fromNet), points), part),
                    d.done, d.total + |points|)
  {
    var d1 := Step(nwords, d, SYNCWORD, fromNet);
    var d2 := Step(nwords, d1, header, fromNet);
    assert [SYNCWORD] + [header] == [SYNCWORD, header];
    RunConcat(nwords, d, [SYNCWORD], [header], fromNet);
    RunOne(nwords, d, SYNCWORD, fromNet);
    RunOne(nwords, d1, header, fromNet);
    RunConcat(nwords, d, [SYNCWORD, header], Flatten(points) + part, fromNet);
    RunConcat(nwords, d2, Flatten(points), part, fromNet);
    RunSomePoints(nwords, d2, points, fromNet);
    assert [] + points == points && [] + part == part;
    RunPart(nwords, Run(nwords, d2, Flatten(points), fromNet), part, fromNet);
  }

  /** A sync word, a header announcing all the features, and the features. */
  lemma RunRecord(nwords: nat, d: Decoder, header: word, points: seq<Feature>, fromNet: bool)
    requires d.phase == Sync
    requires 0 < nwords && points != [] && Uniform(nwords, points)
    requires header != SYNCWORD && HeaderFrames(header, fromNet) == |points|
    ensures Run(nwords, d, [SYNCWORD, header] + Flatten(points), fromNet) ==
            Decoder(Sync, d.done + [VideoLibRec(HeaderVideo(header, fromNet), |points|, points)], d.total + |points|)
  {
    var d1 := Step(nwords, d, SYNCWORD, fromNet);
    var d2 := Step(nwords, d1, header, fromNet);
    assert [SYNCWORD] + [header] == [SYNCWORD, header];
    RunConcat(nwords, d, [SYNCWORD], [header], fromNet);
    RunOne(nwords, d, SYNCWORD, fromNet);
    RunOne(nwords, d1, header, fromNet);
    RunConcat(nwords, d, [SYNCWORD, header], Flatten(points), fromNet);
    RunPoints(nwords, d2, points, fromNet);
    assert [] + points == points;
  }

  // -------------------------------------------------------------------------
  // The file form.

  function FileHeader(rec: VideoLibRec): word {
    FromShort(rec.videoNum) + FromShort(rec.numFrames) * 0x1_0000
  }

  function RecordFile(rec: VideoLibRec): seq<word> {
    [SYNCWORD, FileHeader(rec)] + Flatten(rec.points)
  }

  function LibFile(recs: seq<VideoLibRec>): seq<word> {
    if recs == [] then [] else LibFile(recs[..|recs| - 1]) + RecordFile(recs[|recs| - 1])
  }

  lemma SavedHeader(rec: VideoLibRec)
    requires 0 < rec.numFrames
    ensures FileHeader(rec) != SYNCWORD
    ensures HeaderVideo(FileHeader(rec), false) == rec.videoNum
    ensures HeaderFrames(FileHeader(rec), false) == rec.numFrames
  {
    Halves(FromShort(rec.videoNum), FromShort(rec.numFrames));
    assert SYNCWORD / 0x1_0000 == 0xFADC;
  }

  /** The bytes of a header, as they are in a file and as they are on the network: the video
      and the number of features, low byte first or high byte first. */
  lemma HeaderBytes(a: u8, b: u8, c: u8, d: u8)
    ensures HeaderVideo(FromBytes(a, b, c, d), false) == ToShort(a + b * 0x100)
    ensures HeaderFrames(FromBytes(a, b, c, d), false) == ToShort(c + d * 0x100)
    ensures HeaderVideo(FromBytes(a, b, c, d), true) == ToShort(a * 0x100 + b)
    ensures HeaderFrames(FromBytes(a, b, c, d), true) == ToShort(c * 0x100 + d)
  {
    var lo, hi: u16 := a + b * 0x100, c + d * 0x100;
    Halves(lo, hi);
    assert FromBytes(a, b, c, d) == lo + hi * 0x1_0000;
    SwapsTwo(a, b);
    SwapsTwo(c, d);
  }

  /** A record in the file: the sync word, the header low byte first, and the features. */
  lemma RecordFileSays(rec: VideoLibRec)
    ensures var video, frames := FromShort(rec.videoNum), FromShort(rec.numFrames);
            RecordFile(rec) ==
            [0xFADC_CAFD, FromBytes(video % 0x100, video / 0x100, frames % 0x100, frames / 0x100)] + Flatten(rec.points)
  {
    LowByteFirst(FromShort(rec.videoNum), FromShort(rec.numFrames));
  }

  lemma LowByteFirst(lo: u16, hi: u16)
    ensures FromBytes(lo % 0x100, lo / 0x100, hi % 0x100, hi / 0x100) == lo + hi * 0x1_0000
  {
  }

  lemma {:induction false} LoadSaved(nwords: nat, recs: seq<VideoLibRec>)
    requires ValidWidth(nwords) && UniformLib(nwords, recs)
    requires AllComplete(recs)
    ensures Run(nwords, START, LibFile(recs), false) == Decoder(Sync, recs, TotalFrames(recs))
  {
    if recs != [] {
      var front, last := recs[..|recs| - 1], recs[|recs| - 1];
      LoadSaved(nwords, front);
      RunConcat(nwords, START, LibFile(front), RecordFile(last), false);
      SavedHeader(last);
      RunRecord(nwords, Run(nwords, START, LibFile(front), false), FileHeader(last), last.points, false);
      assert front + [last] == recs;
    }
  }

  /** A saved library loads back, and is reported well ended, exactly when every
      record announces the positive number of features it holds. */
  lemma FileRoundTrip(nwords: nat, recs: seq<VideoLibRec>)
    requires ValidWidth(nwords) && UniformLib(nwords, recs)
    ensures Run(nwords, START, LibFile(recs), false) == Decoder(Sync, recs, TotalFrames(recs))
       <==> AllComplete(recs)
  {
    RunKeepsInv(nwords, START, LibFile(recs), false);
    if AllComplete(recs) {
      LoadSaved(nwords, recs);
    }
  }

  /** A file that ends early, in whatever record, whatever its header says. */
  lemma RunCutShort(nwords: nat, recs: seq<VideoLibRec>, header: word, points: seq<Feature>, part: seq<word>)
    requires ValidWidth(nwords) && UniformLib(nwords, recs) && AllComplete(recs)
    requires Uniform(nwords, points) && |part| < nwords
    requires header != SYNCWORD && HeaderFrames(header, false) > |points|
    ensures var d := Run(nwords, START, LibFile(recs) + ([SYNCWORD, header] + (Flatten(points) + part)), false);
            && d.phase.Desc?
            && d.Recs() == recs + [VideoLibRec(HeaderVideo(header, false), HeaderFrames(header, false), points)]
  {
    LoadSaved(nwords, recs);
    RunConcat(nwords, START, LibFile(recs), [SYNCWORD, header] + (Flatten(points) + part), false);
    RunCutRecord(nwords, Run(nwords, START, LibFile(recs), false), header, points, part, false);
  }

  /** Any number of words of some features: whole ones, and part of one more. */
  lemma {:induction false} FlattenCut(nwords: nat, points: seq<Feature>, n: nat) returns (q: nat, part: seq<word>)
    requires 0 < nwords && Uniform(nwords, points) && n <= |Flatten(points)|
    ensures q <= |points| && |part| < nwords && (q == |points| ==> part == [])
    ensures Flatten(points)[..n] == Flatten(points[..q]) + part
    ensures q == |points| ==> n == |Flatten(points)|
    decreases |points|
  {
    if points == [] {
      q, part := 0, [];
    } else if n < nwords {
      q, part := 0, points[0][..n];
      assert Flatten(points[..0]) == [];
    } else {
      var rest;
      rest, part := FlattenCut(nwords, points[1..], n - nwords);
      q := rest + 1;
      assert points[..q][1..] == points[1..][..rest] && points[..q][0] == points[0];
    }
  }

  /** The decoder's records are the first `k`, and if it is inside a record, the next with
      `p` of its features. */
  ghost predicate Holds(d: Decoder, recs: seq<VideoLibRec>, k: nat, p: nat) {
    && k <= |recs|
    && (d.phase.Desc? ==> k < |recs| && p < |recs[k].points|)
    && d.Recs() == recs[..k] + if d.phase.Desc? then [recs[k].(points := recs[k].points[..p])] else []
  }

  /** A saved library cut after any number of words loads as some of its records, and, if it
      ends inside one, that record with all its frames announced and some of its features. */
  lemma {:induction false} CutAnywhere(nwords: nat, recs: seq<VideoLibRec>, n: nat) returns (k: nat, p: nat)
    requires ValidWidth(nwords) && UniformLib(nwords, recs) && AllComplete(recs) && n <= |LibFile(recs)|
    ensures Holds(Run(nwords, START, LibFile(recs)[..n], false), recs, k, p)
  {
    if recs == [] {
      k, p := 0, 0;
    } else {
      var front, last := recs[..|recs| - 1], recs[|recs| - 1];
      if n <= |LibFile(front)| {
        k, p := CutAnywhere(nwords, front, n);
        assert LibFile(recs)[..n] == LibFile(front)[..n];
        assert front[..k] == recs[..k];
      } else {
        var r := n - |LibFile(front)|;
        assert LibFile(recs)[..n] == LibFile(front) + RecordFile(last)[..r];
        LoadSaved(nwords, front);
        RunConcat(nwords, START, LibFile(front), RecordFile(last)[..r], false);
        k, p := CutInRecord(nwords, front, last, r);
        assert front + [last] == recs;
      }
    }
  }

  lemma CutInRecord(nwords: nat, front: seq<VideoLibRec>, last: VideoLibRec, r: nat) returns (k: nat, p: nat)
    requires ValidWidth(nwords) && UniformLib(nwords, front) && AllComplete(front)
    requires Uniform(nwords, last.points) && Complete(last) && 0 < r <= |RecordFile(last)|
    ensures var d := Decoder(Sync, front, TotalFrames(front));
            Holds(Run(nwords, d, RecordFile(last)[..r], false), front + [last], k, p)
  {
    var d := Decoder(Sync, front, TotalFrames(front));
    k, p := |front|, 0;
    assert (front + [last])[..k] == front && (front + [last])[k] == last;
    SavedHeader(last);
    if r == 1 {
      assert RecordFile(last)[..1] == [SYNCWORD];
      RunOne(nwords, d, SYNCWORD, false);
    } else {
      var part;
      p, part := FlattenCut(nwords, last.points, r - 2);
      assert RecordFile(last)[..r] == [SYNCWORD, FileHeader(last)] + Flatten(last.points)[..r - 2];
      if p == |last.points| {
        assert RecordFile(last)[..r] == RecordFile(last);
        RunRecord(nwords, d, FileHeader(last), last.points, false);
        k := |front| + 1;
        assert (front + [last])[..k] == front + [last];
      } else {
        RunCutRecord(nwords, d, FileHeader(last), last.points[..p], part, false);
      }
    }
  }

  // -------------------------------------------------------------------------
  // The code.

  datatype State = SYNC | NUM | DESC

  class VideoLibVec {
    var recs: seq<VideoLibRec>
    const point: array<word>
    var nwords: nat
    var state: State
    var np: int
    var nw: int
    var totalFrames: nat

    constructor (nbits: nat)
      requires nbits == 32 || nbits == 64 || nbits == 128
      ensures Valid() && fresh(point)
      ensures nwords == nbits / 32 && Contents() == START
    {
      recs := [];
      point := new word[4](_ => 0);
      nwords := nbits / 32;
      state := SYNC;
      np := *;
      nw := *;
      totalFrames := 0;
    }

    ghost predicate Shape()
      reads this, point
    {
      && point.Length == 4
      && ValidWidth(nwords)
      && (state == DESC ==>
            && recs != [] && np == |recs[|recs| - 1].points|
            && 0 <= nw < nwords)
    }

    ghost predicate Valid()
      reads this, point
    {
      Shape() && Inv(nwords, Contents())
    }

    /** The decoder this object stands for. */
    ghost function Contents(): Decoder
      reads this, point
    {
      match state
      case SYNC => Decoder(Sync, recs, totalFrames)
      case NUM => Decoder(Num, recs, totalFrames)
      case DESC =>
        if recs != [] && 0 <= nw <= point.Length then
          Decoder(Desc(recs[|recs| - 1], point[..nw]), recs[..|recs| - 1], totalFrames)
        else START
    }

    /** `reset(nbits)`; the width check throws before anything else changes. */
    method Reset(nbits: int) returns (ok: bool)
      requires Valid()
      modifies this, point
      ensures Valid() && ok == (nbits == 32 || nbits == 64 || nbits == 128)
      ensures ok ==> nwords == nbits / 32 && Contents() == START
      ensures !ok ==> nwords == old(nwords) && Contents() == old(Contents())
    {
      if nbits != 32 && nbits != 64 && nbits != 128 {
        return false;
      }
      nwords := nbits / 32;
      forall i | 0 <= i < point.Length {
        point[i] := 0;
      }
      state := SYNC;
      totalFrames := 0;
      recs := [];
      return true;
    }

    /** The `NUM` case: a header opens a record unless it announces no frames. */
    method StoreHeader(w: word, fromNet: bool)
      requires Shape() && state == NUM
      modifies this, point
      ensures Shape() && nwords == old(nwords)
      ensures Contents() == StepNum(old(Contents()), w, fromNet)
    {
      if w != SYNCWORD {
        var rec := VideoLibRec(HeaderVideo(w, fromNet), HeaderFrames(w, fromNet), []);
        if rec.numFrames > 0 {
          np, nw := 0, 0;
          forall i | 0 <= i < point.Length {
            point[i] := 0;
          }
          recs := recs + [rec];
          state := DESC;
          assert point[..nw] == [] && recs[..|recs| - 1] == old(recs);
        } else {
          state := SYNC;
        }
      }
    }

    /** The `DESC` case: one more word of the feature being read. */
    method StoreWord(w: word)
      requires Shape() && state == DESC
      modifies this, point
      ensures Shape() && nwords == old(nwords)
      ensures var d := old(Contents()); Contents() == StepDesc(nwords, d, d.phase.open, d.phase.part, w)
    {
      ghost var d := Contents();
      point[nw] := w;
      nw := nw + 1;
      assert point[..nw] == d.phase.part + [w];
      if nw == nwords {
        nw := 0;
        var rec := recs[|recs| - 1];
        rec := rec.(points := rec.points + [point[..nwords]]);
        recs := recs[..|recs| - 1] + [rec];
        totalFrames := totalFrames + 1;
        np := np + 1;
        assert point[..nw] == [] && recs[..|recs| - 1] == d.done;
        if np == rec.numFrames {
          state := SYNC;
        }
      }
      assert Contents() == StepDesc(nwords, d, d.phase.open, d.phase.part, w);
    }

    method Store(w: word, fromNet: bool)
      requires Valid()
      modifies this, point
      ensures Valid() && nwords == old(nwords)
      ensures Contents() == Step(nwords, old(Contents()), w, fromNet)
    {
      StepKeepsInv(nwords, Contents(), w, fromNet);
      match state
      case SYNC =>
        if w == SYNCWORD {
          state := NUM;
        }
      case NUM => StoreHeader(w, fromNet);
      case DESC => StoreWord(w);
    }

    /** The loop of `loadLibNew` over the words of the file, and the stream
        receiver's loop when `fromNet`. */
    method Load(nbits: int, ws: seq<word>, fromNet: bool) returns (ok: bool)
      requires Valid()
      modifies this, point
      ensures Valid() && ok == (nbits == 32 || nbits == 64 || nbits == 128)
      ensures ok ==> nwords == nbits / 32 && Contents() == Run(nwords, START, ws, fromNet)
    {
      ok := Reset(nbits);
      if ok {
        for i := 0 to |ws|
          invariant Valid() && nwords == nbits / 32
          invariant Contents() == Run(nwords, START, ws[..i], fromNet)
        {
          Store(ws[i], fromNet);
          RunConcat(nwords, START, ws[..i], [ws[i]], fromNet);
          assert ws[..i + 1] == ws[..i] + [ws[i]];
          RunOne(nwords, Run(nwords, START, ws[..i], fromNet), ws[i], fromNet);
        }
        assert ws[..|ws|] == ws;
      }
    }
  }

  lemma {:induction false} FlattenSnoc(points: seq<Feature>, f: Feature)
    ensures Flatten(points + [f]) == Flatten(points) + f
  {
    if points == [] {
      assert (points + [f])[1..] == [];
      assert points + [f] == [f];
    } else {
      assert (points + [f])[1..] == points[1..] + [f];
      FlattenSnoc(points[1..], f);
    }
  }

  lemma FlattenNext(s: seq<word>, t: seq<word>, points: seq<Feature>, i: nat)
    requires i < |points| && t == s + Flatten(points[..i])
    ensures t + points[i] == s + Flatten(points[..i + 1])
  {
    FlattenSnoc(points[..i], points[i]);
    assert points[..i + 1] == points[..i] + [points[i]];
  }

  /** `saveLibNew`: the record appended to the file's words. */
  method SaveLibNew(rec: VideoLibRec, file: seq<word>) returns (file': seq<word>)
    ensures file' == file + RecordFile(rec)
  {
    file' := file + [SYNCWORD];
    file' := file' + [FileHeader(rec)];
    ghost var head := file';
    assert rec.points[..0] == [];
    for i := 0 to |rec.points|
      invariant file' == head + Flatten(rec.points[..i])
    {
      file' := file' + rec.points[i];
      assert rec.points[..i + 1] == rec.points[..i] + [rec.points[i]];
      FlattenSnoc(rec.points[..i], rec.points[i]);
    }
    assert rec.points[..|rec.points|] == rec.points;
  }
}
