/** What a library stream says, word by word, and a receiver that reads it to its end. */
module LibWords {
  import opened Words
  import opened PacketStream
  import opened NewLib
  import opened LibLoader
  import opened Reading

  // -------------------------------------------------------------------------
  // Records.

  /** The words of all packets, in order. */
  function SentWords(lib: seq<VideoLibRec>): seq<word> {
    Payload(LibPackets(lib))
  }

  /** The header line of a record: six fill words, the sync word, and the video and the number
      of features, each in network order. */
  function HeadWords(rec: VideoLibRec): seq<word> {
    var video, size: u16 := FromShort(rec.videoNum), |rec.points| % 0x1_0000;
    [0xFFFF_FFFF, 0xFFFF_FFFF, 0xFFFF_FFFF, 0xFFFF_FFFF, 0xFFFF_FFFF, 0xFFFF_FFFF, 0xFADC_CAFD,
     FromBytes(video / 0x100, video % 0x100, size / 0x100, size % 0x100)]
  }

  /** Where record `i` begins. */
  function RecordAt(lib: seq<VideoLibRec>, i: nat): nat
    requires i <= |lib|
  {
    |LibBody(lib[..i])|
  }

  /** Where its features end. */
  function FillAt(lib: seq<VideoLibRec>, i: nat): nat
    requires i < |lib|
  {
    RecordAt(lib, i) + 8 + |Flatten(lib[i].points)|
  }

  lemma HeadSays(rec: VideoLibRec)
    ensures RecordHead(rec) == HeadWords(rec)
  {
  }

  lemma {:induction false} BodyStarts(lib: seq<VideoLibRec>, i: nat)
    requires i <= |lib|
    ensures Stands(LibBody(lib), 0, LibBody(lib[..i]))
  {
    if i < |lib| {
      var n := |lib| - 1;
      BodyStarts(lib[..n], i);
      assert lib[..n][..i] == lib[..i];
      StandsLeft(LibBody(lib[..n]), RecordWords(lib[n]), 0, LibBody(lib[..i]));
    } else {
      assert lib[..i] == lib;
    }
  }

  lemma RecordInBody(lib: seq<VideoLibRec>, i: nat)
    requires i < |lib|
    ensures Stands(LibBody(lib), RecordAt(lib, i), RecordWords(lib[i]))
    ensures RecordAt(lib, i + 1) == RecordAt(lib, i) + |RecordWords(lib[i])|
  {
    BodyStarts(lib, i + 1);
    assert lib[..i + 1][..i] == lib[..i];
    var before, rec := LibBody(lib[..i]), RecordWords(lib[i]);
    assert LibBody(lib[..i + 1]) == before + rec;
    StandsRight(before, rec, 0, rec);
    StandsIn(LibBody(lib), 0, before + rec, |before|, rec);
  }

  /** Record `i` follows the ones before it. */
  lemma RecordStands(lib: seq<VideoLibRec>, i: nat)
    requires i < |lib|
    ensures Stands(SentWords(lib), RecordAt(lib, i), RecordWords(lib[i]))
    ensures RecordAt(lib, i + 1) == RecordAt(lib, i) + |RecordWords(lib[i])|
  {
    PayloadIsStream(lib);
    RecordInBody(lib, i);
    BodyThenEnd(lib);
    StandsLeft(LibBody(lib), END_LINE + Fill(8), RecordAt(lib, i), RecordWords(lib[i]));
  }

  lemma BodyThenEnd(lib: seq<VideoLibRec>)
    ensures LibStream(lib) == LibBody(lib) + (END_LINE + Fill(8))
  {
  }

  /** Every record begins with its header line. */
  lemma RecordHasHead(lib: seq<VideoLibRec>, i: nat)
    requires i < |lib|
    ensures Stands(SentWords(lib), RecordAt(lib, i), HeadWords(lib[i]))
  {
    RecordStands(lib, i);
    HeadSays(lib[i]);
    var rest := Flatten(lib[i].points) + Fill(Pad(|Flatten(lib[i].points)|));
    assert RecordWords(lib[i]) == HeadWords(lib[i]) + rest;
    StandsLeft(HeadWords(lib[i]), rest, 0, HeadWords(lib[i]));
    StandsIn(SentWords(lib), RecordAt(lib, i), RecordWords(lib[i]), 0, HeadWords(lib[i]));
  }

  /** After it stand its features. */
  lemma RecordHasFeatures(nwords: nat, lib: seq<VideoLibRec>, i: nat, j: nat)
    requires UniformLib(nwords, lib) && i < |lib| && j < |lib[i].points|
    ensures Stands(SentWords(lib), RecordAt(lib, i) + FeatureAt(j, nwords), lib[i].points[j])
  {
    RecordStands(lib, i);
    FeatureSays(nwords, lib[i], j);
    StandsIn(SentWords(lib), RecordAt(lib, i), RecordWords(lib[i]), FeatureAt(j, nwords), lib[i].points[j]);
  }

  lemma FeatureSays(nwords: nat, rec: VideoLibRec, j: nat)
    requires Uniform(nwords, rec.points) && j < |rec.points|
    ensures Stands(RecordWords(rec), FeatureAt(j, nwords), rec.points[j])
  {
    var head, flat := RecordHead(rec), Flatten(rec.points);
    FeaturesAfter(head, nwords, rec.points, j);
    StandsLeft(head + flat, Fill(Pad(|flat|)), FeatureAt(j, nwords), rec.points[j]);
  }

  /** From `at` up to `end`, the next line of eight words, there is fill. */
  ghost predicate FilledUpTo(s: seq<word>, at: nat, end: nat) {
    at <= end < at + 8 && end % 8 == 0 && Stands(s, at, AllOnes(end - at))
  }

  /** After them come fewer than eight fill words. */
  lemma RecordIsFilled(lib: seq<VideoLibRec>, i: nat)
    requires i < |lib|
    ensures FilledUpTo(SentWords(lib), FillAt(lib, i), RecordAt(lib, i + 1))
  {
    RecordStands(lib, i);
    RecordsAlign(lib, i + 1);
    FillStands(SentWords(lib), RecordAt(lib, i), FillAt(lib, i), RecordAt(lib, i + 1), lib[i]);
  }

  lemma RecordsAlign(lib: seq<VideoLibRec>, i: nat)
    requires i <= |lib|
    ensures RecordAt(lib, i) % 8 == 0
  {
    LibBodyAligned(lib[..i]);
  }

  lemma FillStands(s: seq<word>, at: nat, fill: nat, end: nat, rec: VideoLibRec)
    requires Stands(s, at, RecordWords(rec)) && end == at + |RecordWords(rec)| && end % 8 == 0
    requires fill == at + 8 + |Flatten(rec.points)|
    ensures FilledUpTo(s, fill, end)
  {
    var flat := |Flatten(rec.points)|;
    FillSays(rec);
    StandsIn(s, at, RecordWords(rec), 8 + flat, AllOnes(Pad(flat)));
  }

  function AllOnes(n: nat): (s: seq<word>)
    ensures |s| == n && forall i :: 0 <= i < n ==> s[i] == 0xFFFF_FFFF
  {
    seq(n, _ => 0xFFFF_FFFF)
  }

  lemma FillSays(rec: VideoLibRec)
    ensures var flat := |Flatten(rec.points)|;
            |RecordWords(rec)| == 8 + flat + Pad(flat) && Stands(RecordWords(rec), 8 + flat, AllOnes(Pad(flat)))
  {
    var flat := Flatten(rec.points);
    assert Fill(Pad(|flat|)) == AllOnes(Pad(|flat|));
    StandsRight(RecordHead(rec) + flat, Fill(Pad(|flat|)), 0, AllOnes(Pad(|flat|)));
  }

  // -------------------------------------------------------------------------
  // The last words.

  /** After the records come sixteen words: fill, but for the end word at the seventh. */
  ghost predicate EndsAfter(body: seq<word>, s: seq<word>) {
    && |s| == |body| + 16
    && s[..|body|] == body
    && s[|body| + 6] == 0xAFCD_ACDF
    && forall i :: |body| <= i < |body| + 16 && i != |body| + 6 ==> s[i] == 0xFFFF_FFFF
  }

  lemma LibEnds(lib: seq<VideoLibRec>)
    ensures EndsAfter(LibBody(lib), SentWords(lib))
  {
    PayloadIsStream(lib);
    LastWords(LibBody(lib), SentWords(lib));
  }

  lemma LastWords(body: seq<word>, s: seq<word>)
    requires s == body + END_LINE + Fill(8)
    ensures EndsAfter(body, s)
  {
  }

  // -------------------------------------------------------------------------
  // A receiver that stops at the end word.

  /** The decoder, and the words read, when the end word is met between records, or when
      there are no more. */
  datatype Heard = Heard(d: Decoder, read: nat)

  function Listen(nwords: nat, d: Decoder, ws: seq<word>): Heard
    decreases |ws|
  {
    if ws == [] || (d.phase == Sync && ws[0] == 0xAFCD_ACDF) then Heard(d, 0)
    else
      var h := Listen(nwords, Step(nwords, d, ws[0], true), ws[1..]);
      h.(read := h.read + 1)
  }

  /** It reads on through all these words. */
  predicate ReadsOn(nwords: nat, d: Decoder, ws: seq<word>)
    decreases |ws|
  {
    ws == [] ||
    (!(d.phase == Sync && ws[0] == 0xAFCD_ACDF) && ReadsOn(nwords, Step(nwords, d, ws[0], true), ws[1..]))
  }

  lemma {:induction false} ListenOn(nwords: nat, d: Decoder, a: seq<word>, b: seq<word>)
    requires ReadsOn(nwords, d, a)
    ensures var h := Listen(nwords, Run(nwords, d, a, true), b);
            Listen(nwords, d, a + b) == Heard(h.d, |a| + h.read)
    decreases |a|
  {
    if a == [] {
      assert a + b == b;
    } else {
      assert (a + b)[1..] == a[1..] + b;
      ListenOn(nwords, Step(nwords, d, a[0], true), a[1..], b);
    }
  }

  lemma {:induction false} ReadsOnConcat(nwords: nat, d: Decoder, a: seq<word>, b: seq<word>)
    requires ReadsOn(nwords, d, a) && ReadsOn(nwords, Run(nwords, d, a, true), b)
    ensures ReadsOn(nwords, d, a + b)
    decreases |a|
  {
    if a == [] {
      assert a + b == b;
    } else {
      assert (a + b)[1..] == a[1..] + b;
      ReadsOnConcat(nwords, Step(nwords, d, a[0], true), a[1..], b);
    }
  }

  lemma {:induction false} ReadsFill(nwords: nat, d: Decoder, n: nat)
    requires d.phase == Sync
    ensures ReadsOn(nwords, d, Fill(n)) && Run(nwords, d, Fill(n), true) == d
  {
    if n > 0 {
      assert Fill(n)[1..] == Fill(n - 1);
      ReadsFill(nwords, d, n - 1);
    }
  }

  /** The end word is nothing to stop at inside a feature. */
  lemma {:induction false} ReadsFeature(nwords: nat, d: Decoder, rest: seq<word>)
    requires d.phase.Desc? && |d.phase.part| + |rest| == nwords
    ensures ReadsOn(nwords, d, rest)
    decreases |rest|
  {
    if |rest| > 1 {
      ReadsFeature(nwords, Step(nwords, d, rest[0], true), rest[1..]);
    }
  }

  lemma {:induction false} ReadsPoints(nwords: nat, d: Decoder, points: seq<Feature>)
    requires d.phase.Desc? && d.phase.part == []
    requires 0 < nwords && Uniform(nwords, points)
    requires d.phase.open.numFrames == |d.phase.open.points| + |points|
    ensures ReadsOn(nwords, d, Flatten(points))
    decreases |points|
  {
    if points != [] {
      ReadsFeature(nwords, d, points[0]);
      RunFeature(nwords, d, points[0], true);
      assert d.phase.part + points[0] == points[0];
      if |points| == 1 {
        assert Flatten(points[1..]) == [];
      } else {
        ReadsPoints(nwords, AddPoint(d, d.phase.open, points[0]), points[1..]);
      }
      ReadsOnConcat(nwords, d, points[0], Flatten(points[1..]));
    }
  }

  /** The sync word and the header, and what they leave the decoder in. */
  lemma ReadsMarks(nwords: nat, d: Decoder, rec: VideoLibRec) returns (d': Decoder)
    requires d.phase == Sync && |rec.points| < 0x8000
    ensures d' == Run(nwords, d, [SYNCWORD, NetHeader(rec)], true)
    ensures ReadsOn(nwords, d, [SYNCWORD, NetHeader(rec)])
    ensures if rec.points == [] then d' == d
            else d' == d.(phase := Desc(VideoLibRec(rec.videoNum, |rec.points|, []), []))
  {
    var d1 := Step(nwords, d, SYNCWORD, true);
    d' := Step(nwords, d1, NetHeader(rec), true);
    NetHeaderReads(rec);
    assert [SYNCWORD, NetHeader(rec)][1..] == [NetHeader(rec)];
    assert [NetHeader(rec)][1..] == [];
    RunOne(nwords, d1, NetHeader(rec), true);
  }

  /** The features of a record and its fill words. */
  lemma ReadsRest(nwords: nat, d: Decoder, rec: VideoLibRec, n: nat)
    requires 0 < nwords && Uniform(nwords, rec.points)
    requires |rec.points| < 0x8000
    requires if rec.points == [] then d.phase == Sync
             else d.phase == Desc(VideoLibRec(rec.videoNum, |rec.points|, []), [])
    ensures ReadsOn(nwords, d, Flatten(rec.points) + Fill(n))
  {
    if rec.points != [] {
      ReadsPoints(nwords, d, rec.points);
      RunPoints(nwords, d, rec.points, true);
    }
    ReadsFill(nwords, Run(nwords, d, Flatten(rec.points), true), n);
    ReadsOnConcat(nwords, d, Flatten(rec.points), Fill(n));
  }

  lemma ReadsRecord(nwords: nat, d: Decoder, rec: VideoLibRec)
    requires d.phase == Sync && ValidWidth(nwords) && Uniform(nwords, rec.points) && |rec.points| < 0x8000
    ensures ReadsOn(nwords, d, RecordWords(rec))
  {
    var marks, rest := [SYNCWORD, NetHeader(rec)], Flatten(rec.points) + Fill(Pad(|Flatten(rec.points)|));
    ReadsFill(nwords, d, 6);
    var d' := ReadsMarks(nwords, d, rec);
    ReadsRest(nwords, d', rec, Pad(|Flatten(rec.points)|));
    ReadsOnConcat(nwords, d, marks, rest);
    ReadsOnConcat(nwords, d, Fill(6), marks + rest);
    RecordParts(rec, marks, rest);
  }

  lemma RecordParts(rec: VideoLibRec, marks: seq<word>, rest: seq<word>)
    requires marks == [SYNCWORD, NetHeader(rec)] && rest == Flatten(rec.points) + Fill(Pad(|Flatten(rec.points)|))
    ensures RecordWords(rec) == Fill(6) + (marks + rest)
  {
    assert RecordHead(rec) == Fill(6) + marks;
  }

  lemma {:induction false} ReadsBody(nwords: nat, lib: seq<VideoLibRec>)
    requires ValidWidth(nwords) && UniformLib(nwords, lib) && Fits(lib)
    ensures ReadsOn(nwords, START, LibBody(lib))
  {
    if lib != [] {
      var front, last := lib[..|lib| - 1], lib[|lib| - 1];
      ReadsBody(nwords, front);
      RunLibBody(nwords, front);
      ReadsRecord(nwords, Run(nwords, START, LibBody(front), true), last);
      ReadsOnConcat(nwords, START, LibBody(front), RecordWords(last));
    }
  }

  /** It stops in the last line. */
  lemma StopsInLine(nwords: nat, d: Decoder, tail: seq<word>)
    requires d.phase == Sync && |tail| == 16 && tail[6] == 0xAFCD_ACDF
    requires forall i :: 0 <= i < 6 ==> tail[i] == 0xFFFF_FFFF
    ensures Listen(nwords, d, tail) == Heard(d, 6)
  {
    ReadsFill(nwords, d, 6);
    ListenOn(nwords, d, Fill(6), tail[6..]);
    assert tail == Fill(6) + tail[6..];
  }

  /** Such a receiver is not stopped by any word of a feature, stops at the end word of the
      last line, and has all the records then. */
  lemma StopsAtTheEnd(nwords: nat, lib: seq<VideoLibRec>)
    requires ValidWidth(nwords) && UniformLib(nwords, lib) && Fits(lib)
    ensures var s := SentWords(lib);
            var h := Listen(nwords, START, s);
            && h.d.phase == Sync && Contents(h.d.done) == Contents(NonEmpty(lib)) && AllComplete(h.d.done)
            && h.read == |s| - 10 && s[h.read] == 0xAFCD_ACDF
  {
    LibEnds(lib);
    HearsBody(nwords, lib);
    RunLibBody(nwords, lib);
    RunKeepsInv(nwords, START, LibBody(lib), true);
  }

  lemma HearsBody(nwords: nat, lib: seq<VideoLibRec>)
    requires ValidWidth(nwords) && UniformLib(nwords, lib) && Fits(lib)
    ensures Listen(nwords, START, SentWords(lib)) ==
            Heard(Run(nwords, START, LibBody(lib), true), |LibBody(lib)| + 6)
  {
    LibEnds(lib);
    RunLibBody(nwords, lib);
    ReadsBody(nwords, lib);
    StopsAfter(nwords, LibBody(lib), SentWords(lib));
  }

  lemma StopsAfter(nwords: nat, body: seq<word>, s: seq<word>)
    requires ReadsOn(nwords, START, body) && Run(nwords, START, body, true).phase == Sync
    requires EndsAfter(body, s)
    ensures Listen(nwords, START, s) == Heard(Run(nwords, START, body, true), |body| + 6)
  {
    var tail := s[|body|..];
    StopsInLine(nwords, Run(nwords, START, body, true), tail);
    ListenOn(nwords, START, body, tail);
    assert s == body + tail;
  }
}
