/** From a call of the loader to the report of its matches: the labels sent with the features
    come back in the results, and a report names the video and the second they are from. */
module Answers {
  import opened Words
  import opened NewLib
  import opened SectionLoader
  import opened SectionFacts
  import opened Reading
  import opened SectionWords
  import opened Slicing
  import opened LoaderRuns
  import opened Results
  import opened ReportTexts

  /** The label sent with unit `j` of a call. */
  function SentLabel(call: Call, mu: nat, nwords: nat, j: nat): word
    requires InRange(call) && ValidUnit(mu) && mu <= call.size
    requires UnitAt(j, mu, nwords) + 6 < |CallStream(call, mu, nwords)|
  {
    CallStream(call, mu, nwords)[UnitAt(j, mu, nwords) + 6]
  }

  lemma SentLabelIs(call: Call, mu: nat, nwords: nat, j: nat)
    requires InRange(call) && ValidUnit(mu) && mu <= call.size && ValidWidth(nwords) && Uniform(nwords, call.points)
    requires j < |UnitOffsets(call.size, mu)|
    ensures UnitAt(j, mu, nwords) + 6 < |CallStream(call, mu, nwords)|
    ensures SentLabel(call, mu, nwords, j) == Label(call.vid, call.slice, UnitOffsets(call.size, mu)[j])
  {
    var frames := FramesOf(call);
    assert |frames| == call.size;
    UnitHasHeader(call.vid, call.slice, frames, mu, nwords, j);
    var s, at := CallStream(call, mu, nwords), UnitAt(j, mu, nwords);
    var header := HeaderWords(call.vid, call.slice, UnitOffsets(call.size, mu)[j], mu);
    assert s[at..at + 8][6] == header[6];
  }

  /** A section with a label from a call is counted for the twenty low bits of the number
      registered with the call, and at the frame of the slice where its unit begins. */
  lemma LabelComesBack(call: Call, mu: nat, nwords: nat, j: nat, lb: word)
    requires InRange(call) && ValidUnit(mu) && mu <= call.size && ValidWidth(nwords) && Uniform(nwords, call.points)
    requires j < |UnitOffsets(call.size, mu)| && UnitOffsets(call.size, mu)[j] < 0x1000
    requires call.testId == call.vid * 0x400 + call.slice
    ensures UnitAt(j, mu, nwords) + 6 < |CallStream(call, mu, nwords)|
    ensures var s := Section(SentLabel(call, mu, nwords, j), lb);
            && s.TestId() == call.testId % 0x10_0000
            && s.TestPos() == UnitOffsets(call.size, mu)[j]
  {
    var off := UnitOffsets(call.size, mu)[j];
    SentLabelIs(call, mu, nwords, j);
    LabelSplits(call.vid * 0x400 + call.slice, off);
  }

  lemma LabelSplits(t: nat, offset: nat)
    requires t < 0x800_0000 && offset < 0x1000
    ensures (t * 0x1000 + offset) % 0x1_0000_0000 / 0x1000 == t % 0x10_0000
    ensures (t * 0x1000 + offset) % 0x1_0000_0000 % 0x1000 == offset
  {
    var h, l := t / 0x10_0000, t % 0x10_0000;
    assert t * 0x1000 + offset == h * 0x1_0000_0000 + (l * 0x1000 + offset);
    assert (t * 0x1000 + offset) % 0x1_0000_0000 == l * 0x1000 + offset;
  }

  /** With slices of one minute or more a video never has a thousand of them. */
  lemma FewSlices(rec: VideoLibRec, minutes: nat, k: nat)
    requires 0 < minutes && rec.numFrames > 0 && k < |AllCalls(rec, 60 * minutes)|
    ensures k < 0x400
  {
    var g, n := 60 * minutes, |AllCalls(rec, 60 * minutes)|;
    CallsTile(rec, g, k, 0);
    Ordered(n, 60, g);
  }

  /** A line names the second at which the slice of a call starts, and its video exactly when
      that has ten bits. */
  predicate NamesSlice(line: string, call: Call) {
    && (ReadNumber(line, "<result test_video=") == call.vid <==> call.vid < 0x400)
    && ReadNumber(line, " test_pos=") * 60 == call.pos
  }

  /**
   * The whole way. A label sent for slice `k` of a video, in minutes up to 68, comes back in
   * a section; and the line of that section's report names the slice.
   */
  lemma ReportNamesSlice(rec: VideoLibRec, minutes: u8, k: nat, mu: nat, nwords: nat, j: nat, lb: word)
    requires 0 < minutes <= 68 && rec.numFrames > 0 && k < |AllCalls(rec, 60 * minutes)|
    requires ValidUnit(mu) && ValidWidth(nwords) && Uniform(nwords, rec.points) && HasSlices(rec, 60 * minutes)
    requires j < |UnitOffsets(60 * minutes, mu)|
    ensures var call := AllCalls(rec, 60 * minutes)[k];
            && InRange(call) && mu <= call.size && UnitAt(j, mu, nwords) + 6 < |CallStream(call, mu, nwords)|
            && var s := Section(SentLabel(call, mu, nwords, j), lb);
            NamesSlice(Line(s.TestId(), s.OffsetId(), minutes), call)
  {
    var call := MinutesCall(rec, minutes, k, mu, nwords, j);
    LabelComesBack(call, mu, nwords, j, lb);
    LineNames(call, Section(SentLabel(call, mu, nwords, j), lb), minutes);
  }

  /** What there is to know of such a call. */
  lemma MinutesCall(rec: VideoLibRec, minutes: u8, k: nat, mu: nat, nwords: nat, j: nat) returns (call: Call)
    requires 0 < minutes <= 68 && rec.numFrames > 0 && k < |AllCalls(rec, 60 * minutes)|
    requires ValidUnit(mu) && HasSlices(rec, 60 * minutes) && j < |UnitOffsets(60 * minutes, mu)|
    ensures call == AllCalls(rec, 60 * minutes)[k] && InRange(call) && call.points == rec.points
    ensures call.size == 60 * minutes && mu <= call.size && UnitOffsets(call.size, mu)[j] < 0x1000
    ensures call.slice == k < 0x400 && call.pos == call.slice * call.size
    ensures call.testId == call.vid * 0x400 + call.slice
  {
    var g := 60 * minutes;
    call := AllCalls(rec, g)[k];
    CallSays(rec, g, k);
    CallsInRangeIff(rec, g);
    FewSlices(rec, minutes, k);
    MinutesThatFit(minutes, mu);
    Slicing.LastIsGreatest(g, mu, j);
  }

  lemma LineNames(call: Call, s: Section, minutes: u8)
    requires call.slice < 0x400 && call.pos == call.slice * call.size && call.size == 60 * minutes
    requires s.TestId() == (call.vid * 0x400 + call.slice) % 0x10_0000
    ensures NamesSlice(Line(s.TestId(), s.OffsetId(), minutes), call)
  {
    TestSplits(call.vid, call.slice);
    LineTells(s, minutes);
    Minutes(call.slice, minutes);
  }

  lemma Minutes(slice: nat, minutes: nat)
    ensures slice * minutes * 60 == slice * (60 * minutes)
  {
  }

  lemma TestSplits(vid: u16, slice: nat)
    requires slice < 0x400
    ensures var id := (vid * 0x400 + slice) % 0x10_0000;
            id / 1024 == vid % 0x400 && id % 1024 == slice
  {
    var h, l := vid / 0x400, vid % 0x400;
    assert vid * 0x400 + slice == h * 0x10_0000 + (l * 0x400 + slice);
    assert (vid * 0x400 + slice) % 0x10_0000 == l * 0x400 + slice;
  }
}
