/** What the section stream promises: which frames it covers, what its labels
    mean, and how a matcher's packets are numbered over its life. */
module SectionFacts {
  import opened Words
  import opened PacketStream
  import opened NewLib
  import opened SectionLoader
  import opened Matchers

  // -------------------------------------------------------------------------
  // Coverage.

  ghost predicate Covered(size: nat, mu: nat, f: nat)
    requires ValidUnit(mu) && (size >= mu || size <= Threshold(mu))
  {
    var offs := UnitOffsets(size, mu);
    exists k :: 0 <= k < |offs| && offs[k] <= f < offs[k] + mu
  }

  /** The frames left uncovered are a tail of at most the threshold. */
  lemma Coverage(size: nat, mu: nat, f: nat)
    requires ValidUnit(mu) && (size >= mu || size <= Threshold(mu)) && f < size
    ensures Covered(size, mu, f) <==> (size % mu > Threshold(mu) || f < size - size % mu)
    ensures !Covered(size, mu, f) ==> size - f <= Threshold(mu)
  {
    var offs := UnitOffsets(size, mu);
    assert size == size / mu * mu + size % mu;
    if f < size - size % mu {
      FrameUnit(size, mu, f);
      assert offs[f / mu] == f / mu * mu;
    } else if size % mu > Threshold(mu) {
      assert offs[size / mu] == size - mu;
    } else {
      forall k | 0 <= k < |offs|
        ensures offs[k] + mu <= f
      {
        assert offs[k] == k * mu;
        FullUnitFits(size - size % mu, mu, k) by {
          assert (size - size % mu) / mu == size / mu;
        }
      }
    }
  }

  lemma FrameUnit(size: nat, mu: nat, f: nat)
    requires ValidUnit(mu) && f < size - size % mu
    ensures f / mu < size / mu
    ensures f / mu * mu <= f < f / mu * mu + mu
  {
  }

  // -------------------------------------------------------------------------
  // Labels. `MatchSection` reads the video and slice back from the top 20 bits.

  function TestId(vid: u16, slice: nat): nat {
    (vid * 0x400 + slice) % 0x1_0000_0000
  }

  /** The number that results are reported under, `tb >> 12`, is the one that
      was registered exactly when the video and slice numbers fit 20 bits and
      the frame offset fits 12. */
  lemma LabelNamesTest(vid: u16, slice: u16, offset: u16)
    ensures Label(vid, slice, offset) / 0x1000 == TestId(vid, slice)
       <==> (offset < 0x1000 && vid * 0x400 + slice < 0x10_0000)
  {
    var t := vid * 0x400 + slice;
    var whole := t * 0x1000 + offset;
    assert vid * 0x40_0000 + slice * 0x1000 + offset == whole;
    assert TestId(vid, slice) == t;
    LabelTop(t, offset);
  }

  lemma LabelTop(t: nat, offset: u16)
    requires t < 0x800_0000
    ensures (t * 0x1000 + offset) % 0x1_0000_0000 / 0x1000 == (t + offset / 0x1000) % 0x10_0000
    ensures (t + offset / 0x1000) % 0x10_0000 == t <==> (offset < 0x1000 && t < 0x10_0000)
  {
    var q := t + offset / 0x1000;
    var r := offset % 0x1000;
    assert t * 0x1000 + offset == q * 0x1000 + r;
    var h, l := q / 0x10_0000, q % 0x10_0000;
    assert q * 0x1000 + r == h * 0x1_0000_0000 + (l * 0x1000 + r);
    assert l * 0x1000 + r < 0x1_0000_0000;
    assert (q * 0x1000 + r) % 0x1_0000_0000 == l * 0x1000 + r;
  }

  /** Within ten bits of video, ten of slice and twelve of offset, labels of
      different units differ. */
  lemma LabelsInjective(vid: u16, slice: nat, offset: nat, vid': u16, slice': nat, offset': nat)
    requires vid < 0x400 && slice < 0x400 && offset < 0x1000
    requires vid' < 0x400 && slice' < 0x400 && offset' < 0x1000
    requires Label(vid, slice, offset) == Label(vid', slice', offset')
    ensures vid == vid' && slice == slice' && offset == offset'
  {
    var a := vid * 0x400 + slice;
    var b := vid' * 0x400 + slice';
    assert Label(vid, slice, offset) == a * 0x1000 + offset;
    assert Label(vid', slice', offset') == b * 0x1000 + offset';
    assert a == b;
  }

  // -------------------------------------------------------------------------
  // Numbering over a matcher's life.

  /** The packets put for the sections of one matcher: each section starts from
      the matcher's flag and count and leaves them as `load_section` does. */
  function Life(first: bool, start: u8, streams: seq<seq<word>>): seq<PacketValue>
    decreases |streams|
  {
    if streams == [] then []
    else
      Packets(SectionShape(first, start), streams[0])
      + Life(false, (start + |streams[0]| / 360 + 1) % 256, streams[1..])
  }

  ghost predicate NonEmptyStreams(streams: seq<seq<word>>) {
    forall i :: 0 <= i < |streams| ==> streams[i] != []
  }

  ghost predicate Consecutive(ps: seq<PacketValue>) {
    forall j, k :: 0 <= j && k == j + 1 < |ps| ==> Follows(ps[j], ps[k])
  }

  predicate Follows(p: PacketValue, q: PacketValue) {
    q.index == (p.index + 1) % 256
  }

  /** A section puts as many packets as its words need, and takes one number
      more than that exactly when they fill the last packet. */
  lemma SectionNumbers(shape: Shape, s: seq<word>)
    requires s != []
    ensures var ps := Packets(shape, s);
            && 0 < |ps|
            && Consecutive(ps)
            && ps[0].index == shape.start % 256
            && ps[0].ptype == shape.first
            && (forall k :: 0 < k < |ps| ==> ps[k].ptype == shape.rest)
            && |s| / 360 + 1 == |ps| + if |s| % 360 == 0 then 1 else 0
  {
    var ps := Packets(shape, s);
    forall k | 0 <= k < |ps| - 1
      ensures Follows(ps[k], ps[k + 1])
    {
      NextNumber(shape.start, k);
      assert ps[k] == PacketAt(shape, s, k) && ps[k + 1] == PacketAt(shape, s, k + 1);
    }
  }

  lemma NextNumber(start: nat, k: nat)
    ensures (start + (k + 1)) % 256 == ((start + k) % 256 + 1) % 256
  {
  }

  /** The 0x10 type bit marks the first packet of a matcher's life, once. */
  lemma {:induction false} FirstFlagOnce(first: bool, start: u8, streams: seq<seq<word>>)
    requires NonEmptyStreams(streams)
    ensures var ps := Life(first, start, streams);
            && (forall k :: 0 <= k < |ps| ==> ps[k].ptype == if first && k == 0 then 0x14 else 0x04)
            && (streams != [] ==> ps != [])
    decreases |streams|
  {
    if streams != [] {
      SectionNumbers(SectionShape(first, start), streams[0]);
      FirstFlagOnce(false, (start + |streams[0]| / 360 + 1) % 256, streams[1..]);
    }
  }

  /** The payloads of a life are the streams, one after another. */
  lemma {:induction false} LifeCarriesStreams(first: bool, start: u8, streams: seq<seq<word>>)
    ensures Payload(Life(first, start, streams)) == Flatten(streams)
    decreases |streams|
  {
    if streams != [] {
      var shape, next := SectionShape(first, start), (start + |streams[0]| / 360 + 1) % 256;
      LifeCarriesStreams(false, next, streams[1..]);
      PacketsCarryStream(shape, streams[0]);
      PayloadConcat(Packets(shape, streams[0]), Life(false, next, streams[1..]));
    }
  }

  lemma {:induction false} PayloadConcat(a: seq<PacketValue>, b: seq<PacketValue>)
    ensures Payload(a + b) == Payload(a) + Payload(b)
  {
    if b == [] {
      assert a + b == a;
    } else {
      var n := |b| - 1;
      PayloadConcat(a, b[..n]);
      FrontThenLast(a, b);
      PayloadSnoc(a + b[..n], b[n]);
      Associates(Payload(a), Payload(b[..n]), b[n].words);
    }
  }

  lemma FrontThenLast<T>(a: seq<T>, b: seq<T>)
    requires b != []
    ensures a + b[..|b| - 1] + [b[|b| - 1]] == a + b
  {
  }

  lemma Associates<T>(a: seq<T>, b: seq<T>, c: seq<T>)
    ensures a + b + c == a + (b + c)
  {
  }

  lemma {:induction false} LifeStart(first: bool, start: u8, streams: seq<seq<word>>)
    requires NonEmptyStreams(streams) && streams != []
    ensures var ps := Life(first, start, streams);
            ps != [] && ps[0].index == start
  {
    SectionNumbers(SectionShape(first, start), streams[0]);
  }

  lemma ConsecutiveAppend(a: seq<PacketValue>, b: seq<PacketValue>)
    requires a != [] && b != []
    ensures Consecutive(a + b) <==>
            Consecutive(a) && Consecutive(b) && Follows(a[|a| - 1], b[0])
  {
    var ps := a + b;
    if Consecutive(ps) {
      forall j, k | 0 <= j && k == j + 1 < |a|
        ensures Follows(a[j], a[k])
      {
        assert ps[j] == a[j] && ps[k] == a[k];
      }
      forall j, k | 0 <= j && k == j + 1 < |b|
        ensures Follows(b[j], b[k])
      {
        assert ps[|a| + j] == b[j] && ps[|a| + k] == b[k];
      }
      assert ps[|a|] == b[0] && ps[|a| - 1] == a[|a| - 1];
    }
  }

  /** From one section to the next the numbering goes on exactly when the words
      of the section do not fill its last packet. */
  lemma Junction(shape: Shape, s: seq<word>, next: u8)
    requires s != [] && next == (shape.start + |s| / 360 + 1) % 256
    ensures var ps := Packets(shape, s);
            && ps != [] && Consecutive(ps)
            && (next == (ps[|ps| - 1].index + 1) % 256 <==> |s| % 360 != 0)
  {
    SectionNumbers(shape, s);
    var ps := Packets(shape, s);
    var k := |ps| - 1;
    assert ps[k] == PacketAt(shape, s, k);
    NextNumber(shape.start, k);
    LastAndNext(shape.start + |ps|, |s| % 360 == 0, ps[k].index, next);
  }

  lemma LastAndNext(last: nat, skips: bool, index: u8, next: u8)
    requires (index + 1) % 256 == last % 256 && next == (if skips then last + 1 else last) % 256
    ensures next == (index + 1) % 256 <==> !skips
  {
  }

  lemma Join(shape: Shape, s: seq<word>, next: u8, qs: seq<PacketValue>)
    requires s != [] && qs != [] && next == (shape.start + |s| / 360 + 1) % 256
    requires qs[0].index == next
    ensures Consecutive(Packets(shape, s) + qs) <==> |s| % 360 != 0 && Consecutive(qs)
  {
    Junction(shape, s, next);
    ConsecutiveAppend(Packets(shape, s), qs);
  }

  /** No section but the last has a multiple of 360 words. */
  ghost predicate NoneFull(streams: seq<seq<word>>) {
    forall i :: 0 <= i < |streams| - 1 ==> |streams[i]| % 360 != 0
  }

  lemma NoneFullTail(streams: seq<seq<word>>)
    requires |streams| > 1
    ensures NoneFull(streams) <==> |streams[0]| % 360 != 0 && NoneFull(streams[1..])
  {
    var rest := streams[1..];
    forall i | 0 < i < |streams|
      ensures streams[i] == rest[i - 1]
    {
    }
  }

  /** Over a matcher's life the packet numbers run on modulo 256 exactly when no
      section but the last has a multiple of 360 words. */
  lemma {:induction false} NumbersRunOn(first: bool, start: u8, streams: seq<seq<word>>)
    requires NonEmptyStreams(streams)
    ensures Consecutive(Life(first, start, streams)) <==> NoneFull(streams)
    decreases |streams|
  {
    if |streams| == 1 {
      Junction(SectionShape(first, start), streams[0], (start + |streams[0]| / 360 + 1) % 256);
      LifeOfOne(first, start, streams);
    } else if |streams| > 1 {
      var next := (start + |streams[0]| / 360 + 1) % 256;
      NumbersRunOn(false, next, streams[1..]);
      NoneFullTail(streams);
      LifeOfMore(first, start, next, streams);
    }
  }

  lemma LifeOfOne(first: bool, start: u8, streams: seq<seq<word>>)
    requires |streams| == 1
    ensures Life(first, start, streams) == Packets(SectionShape(first, start), streams[0])
  {
    assert Life(false, (start + |streams[0]| / 360 + 1) % 256, streams[1..]) == [];
  }

  lemma LifeIs(first: bool, start: u8, next: u8, streams: seq<seq<word>>)
    requires streams != [] && next == (start + |streams[0]| / 360 + 1) % 256
    ensures Life(first, start, streams) == Packets(SectionShape(first, start), streams[0]) + Life(false, next, streams[1..])
  {
  }

  lemma Joined(first: bool, start: u8, next: u8, s: seq<word>, rest: seq<PacketValue>)
    requires s != [] && rest != [] && next == (start + |s| / 360 + 1) % 256 && rest[0].index == next
    ensures Consecutive(Packets(SectionShape(first, start), s) + rest) <==> |s| % 360 != 0 && Consecutive(rest)
  {
    Join(SectionShape(first, start), s, next, rest);
  }

  lemma LifeOfMore(first: bool, start: u8, next: u8, streams: seq<seq<word>>)
    requires NonEmptyStreams(streams) && |streams| > 1
    requires next == (start + |streams[0]| / 360 + 1) % 256
    ensures Consecutive(Life(first, start, streams))
       <==> |streams[0]| % 360 != 0 && Consecutive(Life(false, next, streams[1..]))
  {
    var rest := Life(false, next, streams[1..]);
    LifeStart(false, next, streams[1..]);
    LifeIs(first, start, next, streams);
    assert streams[0] != [] && rest != [] && rest[0].index == next;
    Joined(first, start, next, streams[0], rest);
  }

  /** A number is lost in practice: four minutes of 32-bit features at 60 frames
      a minute, in merge units of 32, are exactly 360 words. */
  lemma FourMinutesSkip(vid: u16, slice: nat, frames: seq<Feature>)
    requires |frames| == 240 && Uniform(1, frames)
    ensures |SectionStream(vid, slice, frames, 32, 1)| % 360 == 0
  {
    SectionLength(vid, slice, frames, 32, 1);
    OffsetsCount(|frames|, 32);
    assert UnitWords(32, 1) == 40;
  }

  lemma OffsetsCount(size: nat, mu: nat)
    requires ValidUnit(mu) && (size >= mu || size <= Threshold(mu))
    ensures |UnitOffsets(size, mu)| == size / mu + if size % mu > Threshold(mu) then 1 else 0
  {
  }

  // -------------------------------------------------------------------------
  // The code over a matcher's life.

  datatype Slice = Slice(vid: u16, number: nat, frames: seq<Feature>)

  /** A slice `load_section` sends, or skips if it is empty: not between threshold and unit. */
  ghost predicate CanSend(slice: Slice, mu: nat, nwords: nat) {
    && Uniform(nwords, slice.frames) && |slice.frames| < 0xFFFF_FF00
    && (|slice.frames| >= mu || |slice.frames| <= Threshold(mu))
  }

  ghost predicate Sendable(slices: seq<Slice>, mu: nat, nwords: nat) {
    forall i :: 0 <= i < |slices| ==> CanSend(slices[i], mu, nwords)
  }

  function StreamOf(slice: Slice, mu: nat, nwords: nat): seq<word>
    requires ValidUnit(mu) && (|slice.frames| >= mu || |slice.frames| <= Threshold(mu))
  {
    SectionStream(slice.vid, slice.number, slice.frames, mu, nwords)
  }

  /** The streams of the slices that are not empty. */
  ghost function Streams(slices: seq<Slice>, mu: nat, nwords: nat): seq<seq<word>>
    requires ValidUnit(mu) && Sendable(slices, mu, nwords)
  {
    if slices == [] then []
    else if slices[0].frames == [] then Streams(slices[1..], mu, nwords)
    else [StreamOf(slices[0], mu, nwords)] + Streams(slices[1..], mu, nwords)
  }

  /** Of two lists of slices, those of the one and then those of the other. */
  lemma {:induction false} StreamsConcat(a: seq<Slice>, b: seq<Slice>, mu: nat, nwords: nat)
    requires ValidUnit(mu) && Sendable(a, mu, nwords) && Sendable(b, mu, nwords)
    ensures Sendable(a + b, mu, nwords)
    ensures Streams(a + b, mu, nwords) == Streams(a, mu, nwords) + Streams(b, mu, nwords)
  {
    if a == [] {
      assert a + b == b;
    } else {
      StreamsConcat(a[1..], b, mu, nwords);
      assert (a + b)[1..] == a[1..] + b && (a + b)[0] == a[0];
      if a[0].frames != [] {
        assert CanSend(a[0], mu, nwords);
        Associates([StreamOf(a[0], mu, nwords)], Streams(a[1..], mu, nwords), Streams(b, mu, nwords));
      }
    }
  }

  lemma {:induction false} StreamsHaveWords(slices: seq<Slice>, mu: nat, nwords: nat)
    requires ValidUnit(mu) && ValidWidth(nwords) && Sendable(slices, mu, nwords)
    ensures NonEmptyStreams(Streams(slices, mu, nwords))
  {
    if slices != [] {
      StreamsHaveWords(slices[1..], mu, nwords);
      UnitLength(slices[0].vid, slices[0].number, 0, ZeroFrames(mu, nwords), mu, nwords);
    }
  }

  /** A section, and then the rest of a life. */
  lemma LifeGoesOn(before: seq<PacketValue>, mid: seq<PacketValue>, after: seq<PacketValue>,
                   first: bool, start: u8, next: u8, s: seq<word>, rest: seq<seq<word>>)
    requires mid == before + Packets(SectionShape(first, start), s)
    requires next == (start + |s| / 360 + 1) % 256 && after == mid + Life(false, next, rest)
    ensures after == before + Life(first, start, [s] + rest)
  {
    assert ([s] + rest)[1..] == rest;
  }

  /** Sections sent to one READY matcher, one after another: the window gets the matcher's
      `Life`, to which all that is said above about numbers and types applies. */
  method LoadSections(w: OutWindow, m: Matcher, slices: seq<Slice>, ghost mu: nat, ghost nwords: nat)
    requires w.Valid() && m.state == READY && ValidUnit(mu) && ValidWidth(nwords)
    requires m.mergeUnit == mu && m.nbits == 32 * nwords && Sendable(slices, mu, nwords)
    modifies w, w.slot, w.slot.data, m`bitfeatureCount, m`firstFlag
    ensures w.Valid()
    ensures w.sent == old(w.sent) + Life(old(m.firstFlag), old(m.bitfeatureCount), Streams(slices, mu, nwords))
    ensures m.firstFlag == (old(m.firstFlag) && Streams(slices, mu, nwords) == [])
    decreases |slices|
  {
    if slices != [] && slices[0].frames == [] {
      var r := LoadSection(w, m, slices[0].vid, slices[0].number, slices[0].frames);
      LoadSections(w, m, slices[1..], mu, nwords);
    } else if slices != [] {
      assert CanSend(slices[0], mu, nwords);
      ghost var s := LoadOne(w, m, slices[0], mu, nwords);
      ghost var mid, next := w.sent, m.bitfeatureCount;
      LoadSections(w, m, slices[1..], mu, nwords);
      LifeGoesOn(old(w.sent), mid, w.sent, old(m.firstFlag), old(m.bitfeatureCount), next, s, Streams(slices[1..], mu, nwords));
    }
  }

  /** One of them, by its stream. */
  method LoadOne(w: OutWindow, m: Matcher, slice: Slice, ghost mu: nat, ghost nwords: nat) returns (ghost s: seq<word>)
    requires w.Valid() && m.state == READY && ValidUnit(mu) && ValidWidth(nwords)
    requires m.mergeUnit == mu && m.nbits == 32 * nwords && CanSend(slice, mu, nwords) && slice.frames != []
    modifies w, w.slot, w.slot.data, m`bitfeatureCount, m`firstFlag
    ensures w.Valid() && !m.firstFlag
    ensures s == StreamOf(slice, mu, nwords)
    ensures w.sent == old(w.sent) + Packets(SectionShape(old(m.firstFlag), old(m.bitfeatureCount)), s)
    ensures m.bitfeatureCount == (old(m.bitfeatureCount) + |s| / 360 + 1) % 256
    ensures OwnSlot(w, w.slot)
  {
    s := StreamOf(slice, mu, nwords);
    var r := LoadSection(w, m, slice.vid, slice.number, slice.frames);
  }
}
