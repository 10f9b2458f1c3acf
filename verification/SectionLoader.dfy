/** `BitFeatureLoader::load_section`: a slice of a video tiled with merge units
    and streamed to one matcher. */
module SectionLoader {
  import opened Words
  import opened PacketStream
  import opened NewLib
  import opened Matchers
  import opened LibLoader

  const BITFEATURE_TYPE: u8 := 0x04
  const FIRST_TYPE: u8 := 0x14

  predicate ValidUnit(mu: nat) {
    mu == 8 || mu == 16 || mu == 32
  }

  /** A remainder of more frames than this gets a merge unit of its own. */
  function Threshold(mu: nat): nat {
    if mu == 8 then 4 else if mu == 16 then 8 else 10
  }

  // -------------------------------------------------------------------------
  // The specification.

  /** Where the first `n` merge units of a slice start. */
  function FullOffsets(mu: nat, n: nat): (offs: seq<nat>)
    ensures |offs| == n
    ensures forall k :: 0 <= k < n ==> offs[k] == k * mu
  {
    if n == 0 then [] else FullOffsets(mu, n - 1) + [(n - 1) * mu]
  }

  /** Back-to-back units, and one more that ends with the slice and overlaps
      the unit before it when the remainder is worth it. */
  function UnitOffsets(size: nat, mu: nat): seq<nat>
    requires ValidUnit(mu) && (size >= mu || size <= Threshold(mu))
  {
    FullOffsets(mu, size / mu) + if size % mu > Threshold(mu) then [size - mu] else []
  }

  function Label(vid: u16, slice: nat, offset: nat): word {
    (vid * 0x40_0000 + slice * 0x1000 + offset) % 0x1_0000_0000
  }

  function UnitHeader(unitLabel: word, mu: nat): seq<word>
    requires ValidUnit(mu)
  {
    Fill(5) + [SYNCWORD, unitLabel, mu]
  }

  function Unit(vid: u16, slice: nat, offset: nat, points: seq<Feature>, mu: nat): seq<word>
    requires ValidUnit(mu)
  {
    UnitHeader(Label(vid, slice, offset), mu) + Flatten(points)
  }

  ghost predicate InSlice(size: nat, mu: nat, offs: seq<nat>) {
    forall k :: 0 <= k < |offs| ==> offs[k] + mu <= size
  }

  /** The first `k` units. */
  function Units(vid: u16, slice: nat, frames: seq<Feature>, mu: nat, offs: seq<nat>, k: nat): seq<word>
    requires ValidUnit(mu) && InSlice(|frames|, mu, offs) && k <= |offs|
  {
    if k == 0 then []
    else
      var last := offs[k - 1];
      Units(vid, slice, frames, mu, offs, k - 1) + Unit(vid, slice, last, frames[last..last + mu], mu)
  }

  function Zeros(n: nat): (f: Feature)
    ensures |f| == n
  {
    seq(n, _ => 0)
  }

  function ZeroFrames(mu: nat, nwords: nat): (fs: seq<Feature>)
    ensures |fs| == mu && Uniform(nwords, fs)
  {
    seq(mu, _ => Zeros(nwords))
  }

  /** Every access of a slice that is long enough, or short enough, is in range. */
  lemma OffsetsInSlice(size: nat, mu: nat)
    requires ValidUnit(mu) && (size >= mu || size <= Threshold(mu))
    ensures InSlice(size, mu, UnitOffsets(size, mu))
  {
    var offs := UnitOffsets(size, mu);
    forall k | 0 <= k < |offs|
      ensures offs[k] + mu <= size
    {
      if k < size / mu {
        FullUnitFits(size, mu, k);
      }
    }
  }

  lemma FullUnitFits(size: nat, mu: nat, k: nat)
    requires ValidUnit(mu) && k < size / mu
    ensures k * mu + mu <= size
  {
  }

  function SectionStream(vid: u16, slice: nat, frames: seq<Feature>, mu: nat, nwords: nat): seq<word>
    requires ValidUnit(mu) && (|frames| >= mu || |frames| <= Threshold(mu))
  {
    OffsetsInSlice(|frames|, mu);
    var offs := UnitOffsets(|frames|, mu);
    Units(vid, slice, frames, mu, offs, |offs|)
    + Unit(vid, slice, 0, ZeroFrames(mu, nwords), mu)
  }

  function SectionShape(first: bool, start: nat): Shape {
    Shape(if first then FIRST_TYPE else BITFEATURE_TYPE, BITFEATURE_TYPE, start)
  }

  // -------------------------------------------------------------------------
  // Lengths.

  lemma {:induction false} FlattenLength(nwords: nat, points: seq<Feature>)
    requires Uniform(nwords, points)
    ensures nwords == 1 ==> |Flatten(points)| == |points|
    ensures nwords == 2 ==> |Flatten(points)| == 2 * |points|
    ensures nwords == 4 ==> |Flatten(points)| == 4 * |points|
  {
    if points != [] {
      FlattenLength(nwords, points[1..]);
    }
  }

  /** Words of one merge unit with its header. */
  function UnitWords(mu: nat, nwords: nat): nat {
    8 + mu * nwords
  }

  lemma OneMore(n: nat, u: nat)
    ensures (n + 1) * u == n * u + u
  {
  }

  lemma UnitLength(vid: u16, slice: nat, offset: nat, points: seq<Feature>, mu: nat, nwords: nat)
    requires ValidUnit(mu) && ValidWidth(nwords) && Uniform(nwords, points) && |points| == mu
    ensures |Unit(vid, slice, offset, points, mu)| == UnitWords(mu, nwords)
    ensures UnitWords(mu, nwords) % 8 == 0
  {
    FlattenLength(nwords, points);
  }

  lemma {:induction false} UnitsLength(vid: u16, slice: nat, frames: seq<Feature>, mu: nat, nwords: nat, offs: seq<nat>, k: nat)
    requires ValidUnit(mu) && ValidWidth(nwords) && Uniform(nwords, frames)
    requires InSlice(|frames|, mu, offs) && k <= |offs|
    ensures |Units(vid, slice, frames, mu, offs, k)| == k * UnitWords(mu, nwords)
  {
    if k > 0 {
      UnitsLength(vid, slice, frames, mu, nwords, offs, k - 1);
      UnitLength(vid, slice, offs[k - 1], frames[offs[k - 1]..offs[k - 1] + mu], mu, nwords);
      OneMore(k - 1, UnitWords(mu, nwords));
    }
  }

  lemma SectionLength(vid: u16, slice: nat, frames: seq<Feature>, mu: nat, nwords: nat)
    requires ValidUnit(mu) && ValidWidth(nwords) && Uniform(nwords, frames)
    requires |frames| >= mu || |frames| <= Threshold(mu)
    ensures |SectionStream(vid, slice, frames, mu, nwords)|
         == (|UnitOffsets(|frames|, mu)| + 1) * UnitWords(mu, nwords)
  {
    OffsetsInSlice(|frames|, mu);
    UnitsLength(vid, slice, frames, mu, nwords, UnitOffsets(|frames|, mu), |UnitOffsets(|frames|, mu)|);
    UnitLength(vid, slice, 0, ZeroFrames(mu, nwords), mu, nwords);
    OneMore(|UnitOffsets(|frames|, mu)|, UnitWords(mu, nwords));
  }

  // -------------------------------------------------------------------------
  // The code.

  /** The slot belongs to the call: the caller's, or one acquired since. */
  twostate predicate OwnSlot(w: OutWindow, new p: Packet)
    reads w
  {
    p == old(w.slot) || (fresh(p) && fresh(p.data))
  }

  /** A full packet is put and the next one acquired and numbered. */
  method RollOver(w: OutWindow, m: Matcher, cnt: nat,
                  ghost base: seq<PacketValue>, ghost shape: Shape, ghost n: nat, ghost s: seq<word>)
    returns (cnt': nat, ghost n': nat)
    requires Framed(w, base, shape, n, s, cnt)
    requires shape.rest == BITFEATURE_TYPE && m.bitfeatureCount == (shape.start + n + 1) % 256
    modifies w, w.slot, m`bitfeatureCount
    ensures Framed(w, base, shape, n', s, cnt') && cnt' < MAX_WORDS
    ensures m.bitfeatureCount == (shape.start + n' + 1) % 256
    ensures OwnSlot(w, w.slot)
  {
    cnt', n' := cnt, n;
    if cnt == MAX_DATA_LEN / 4 {
      PutFull(w, base, shape, n, s);
      n' := n + 1;
      var pkt := w.Acquire();
      pkt.SetInfo(BITFEATURE_TYPE, m.bitfeatureCount, MAX_DATA_LEN);
      NextIndex(shape.start, n);
      m.IncreaseBitfeatureCount();
      cnt' := 0;
    }
  }

  /** The header words of a merge unit. */
  method SendHeader(w: OutWindow, m: Matcher, unitLabel: word, cnt: nat,
                    ghost base: seq<PacketValue>, ghost shape: Shape, ghost n: nat, ghost s: seq<word>)
    returns (cnt': nat, ghost n': nat)
    requires Framed(w, base, shape, n, s, cnt) && cnt < MAX_WORDS
    requires |s| % 8 == 0 && ValidUnit(m.mergeUnit)
    requires shape.rest == BITFEATURE_TYPE && m.bitfeatureCount == (shape.start + n + 1) % 256
    modifies w, w.slot, w.slot.data, m`bitfeatureCount
    ensures Framed(w, base, shape, n', s + UnitHeader(unitLabel, m.mergeUnit), cnt') && cnt' < MAX_WORDS
    ensures m.bitfeatureCount == (shape.start + n' + 1) % 256
    ensures OwnSlot(w, w.slot)
  {
    LineFits(|s|, n, cnt);
    assert MAX_WORDS - cnt >= 8;
    cnt' := FillWords(w, cnt, 5, base, shape, n, s);
    cnt' := PutWord(w, cnt', SYNCWORD, base, shape, n, s + Fill(5));
    cnt' := PutWord(w, cnt', unitLabel, base, shape, n, s + Fill(5) + [SYNCWORD]);
    cnt' := PutWord(w, cnt', m.mergeUnit, base, shape, n, s + Fill(5) + [SYNCWORD] + [unitLabel]);
    assert s + Fill(5) + [SYNCWORD] + [unitLabel] + [m.mergeUnit] == s + UnitHeader(unitLabel, m.mergeUnit);
    cnt', n' := RollOver(w, m, cnt', base, shape, n, s + UnitHeader(unitLabel, m.mergeUnit));
  }

  /** One feature of a merge unit. */
  method SendFeature(w: OutWindow, m: Matcher, nwords: nat, bit: Feature, cnt: nat,
                     ghost base: seq<PacketValue>, ghost shape: Shape, ghost n: nat, ghost s: seq<word>)
    returns (cnt': nat, ghost n': nat)
    requires ValidWidth(nwords) && |bit| == nwords && WholeFeatures(nwords, |s|)
    requires Framed(w, base, shape, n, s, cnt) && cnt < MAX_WORDS
    requires shape.rest == BITFEATURE_TYPE && m.bitfeatureCount == (shape.start + n + 1) % 256
    modifies w, w.slot, w.slot.data, m`bitfeatureCount
    ensures Framed(w, base, shape, n', s + bit, cnt') && cnt' < MAX_WORDS
    ensures WholeFeatures(nwords, |s + bit|)
    ensures m.bitfeatureCount == (shape.start + n' + 1) % 256
    ensures OwnSlot(w, w.slot)
  {
    FitsOne(nwords, |s|, n, cnt);
    cnt' := CopyWords(w, cnt, bit, base, shape, n, s);
    cnt', n' := RollOver(w, m, cnt', base, shape, n, s + bit);
  }

  /** The features of one merge unit. */
  method SendFeatures(w: OutWindow, m: Matcher, nwords: nat, points: seq<Feature>, cnt: nat,
                      ghost base: seq<PacketValue>, ghost shape: Shape, ghost n: nat, ghost s: seq<word>)
    returns (cnt': nat, ghost n': nat)
    requires ValidWidth(nwords) && Uniform(nwords, points) && WholeFeatures(nwords, |s|)
    requires Framed(w, base, shape, n, s, cnt) && cnt < MAX_WORDS
    requires shape.rest == BITFEATURE_TYPE && m.bitfeatureCount == (shape.start + n + 1) % 256
    modifies w, w.slot, w.slot.data, m`bitfeatureCount
    ensures Framed(w, base, shape, n', s + Flatten(points), cnt') && cnt' < MAX_WORDS
    ensures m.bitfeatureCount == (shape.start + n' + 1) % 256
    ensures OwnSlot(w, w.slot)
  {
    cnt', n' := cnt, n;
    ghost var t := s;
    assert points[..0] == [] && t == s + Flatten(points[..0]);
    for j := 0 to |points|
      invariant Framed(w, base, shape, n', t, cnt') && cnt' < MAX_WORDS
      invariant t == s + Flatten(points[..j])
      invariant WholeFeatures(nwords, |t|)
      invariant m.bitfeatureCount == (shape.start + n' + 1) % 256
      invariant OwnSlot(w, w.slot)
    {
      cnt', n' := SendFeature(w, m, nwords, points[j], cnt', base, shape, n', t);
      FlattenNext(s, t, points, j);
      t := t + points[j];
    }
    assert points[..|points|] == points;
  }

  /** One merge unit: header and features. */
  method SendUnit(w: OutWindow, m: Matcher, nwords: nat, vid: u16, slice: nat, offset: nat, points: seq<Feature>, cnt: nat,
                  ghost base: seq<PacketValue>, ghost shape: Shape, ghost n: nat, ghost s: seq<word>)
    returns (cnt': nat, ghost n': nat)
    requires ValidWidth(nwords) && Uniform(nwords, points)
    requires ValidUnit(m.mergeUnit) && |points| == m.mergeUnit && |s| % 8 == 0
    requires Framed(w, base, shape, n, s, cnt) && cnt < MAX_WORDS
    requires shape.rest == BITFEATURE_TYPE && m.bitfeatureCount == (shape.start + n + 1) % 256
    modifies w, w.slot, w.slot.data, m`bitfeatureCount
    ensures Framed(w, base, shape, n', s + Unit(vid, slice, offset, points, m.mergeUnit), cnt') && cnt' < MAX_WORDS
    ensures |s + Unit(vid, slice, offset, points, m.mergeUnit)| % 8 == 0
    ensures m.bitfeatureCount == (shape.start + n' + 1) % 256
    ensures OwnSlot(w, w.slot)
  {
    var unitLabel := Label(vid, slice, offset);
    ghost var head := UnitHeader(unitLabel, m.mergeUnit);
    cnt', n' := SendHeader(w, m, unitLabel, cnt, base, shape, n, s);
    WholeLines(nwords, |s|, |s + head|);
    cnt', n' := SendFeatures(w, m, nwords, points, cnt', base, shape, n', s + head);
    UnitLength(vid, slice, offset, points, m.mergeUnit, nwords);
    SumOfLines(|s|, UnitWords(m.mergeUnit, nwords));
    assert s + head + Flatten(points) == s + (head + Flatten(points));
  }

  lemma SumOfLines(a: nat, b: nat)
    requires a % 8 == 0 && b % 8 == 0
    ensures (a + b) % 8 == 0
  {
  }

  /** Where the loop body puts the unit it is about to send, in the code's
      unsigned arithmetic. */
  function UnitStart(i: nat, size: nat, mu: nat): nat
    requires i < size
  {
    if Threshold(mu) < size - i < mu then (size - mu) % 0x1_0000_0000 else i
  }

  predicate Skipped(start: nat, size: nat, mu: nat) {
    (start + mu) % 0x1_0000_0000 > size
  }

  /** The first unit of a slice is in range, or skipped, exactly when the slice
      is not between the threshold and one unit: there `size - mu` wraps. */
  lemma FirstAccess(size: nat, mu: nat)
    requires ValidUnit(mu) && 0 < size < 0xFFFF_FF00
    ensures (Skipped(UnitStart(0, size, mu), size, mu) || UnitStart(0, size, mu) + mu <= size)
       <==> (size >= mu || size <= Threshold(mu))
  {
    if Threshold(mu) < size < mu {
      assert (size - mu) % 0x1_0000_0000 == 0x1_0000_0000 + size - mu;
    }
  }

  lemma StartIs(i: nat, size: nat, mu: nat)
    requires ValidUnit(mu) && i < size < 0xFFFF_FF00
    ensures size >= mu || size <= Threshold(mu) ==>
              var start := UnitStart(i, size, mu);
              && (Skipped(start, size, mu) <==> size - i <= Threshold(mu))
              && (!Skipped(start, size, mu) ==> start == if size - i < mu then size - mu else i)
  {
  }

  lemma StartIsPast(size: nat, mu: nat)
    requires ValidUnit(mu) && Threshold(mu) < size < mu
    ensures !Skipped(UnitStart(0, size, mu), size, mu) && UnitStart(0, size, mu) > size
  {
    assert (size - mu) % 0x1_0000_0000 == 0x1_0000_0000 + size - mu;
  }

  /** The head of the loop body. */
  method NextUnit(i: nat, size: nat, mu: nat) returns (skip: bool, i': nat)
    requires ValidUnit(mu) && i < size < 0xFFFF_FF00
    ensures i' == UnitStart(i, size, mu) && skip == Skipped(i', size, mu)
    ensures size >= mu || size <= Threshold(mu) ==>
              && (skip <==> size - i <= Threshold(mu))
              && (!skip ==> i' == if size - i < mu then size - mu else i)
  {
    StartIs(i, size, mu);
    i' := i;
    var numLeft := size - i;
    if numLeft < mu && numLeft > Threshold(mu) {
      i' := (size - mu) % 0x1_0000_0000;
    }
    skip := (i' + mu) % 0x1_0000_0000 > size;
  }

  /** How far the first `k` units reach. */
  ghost function Reached(mu: nat, offs: seq<nat>, k: nat): nat
    requires k <= |offs|
  {
    if k == 0 then 0 else offs[k - 1] + mu
  }

  /** From where the first `k` units end: either nothing worth sending is left,
      or the next unit starts there, or ends with the slice if it would not fit. */
  ghost predicate Next(size: nat, mu: nat, offs: seq<nat>, k: nat)
    requires k <= |offs|
  {
    var i := Reached(mu, offs, k);
    && i <= size
    && if size - i <= Threshold(mu) then k == |offs|
       else k < |offs| && offs[k] == if size - i < mu then size - mu else i
  }

  /** The offsets are those of a loop that goes on where the last unit ended. */
  lemma OffsetsFollow(size: nat, mu: nat, k: nat)
    requires ValidUnit(mu) && (size >= mu || size <= Threshold(mu))
    requires k <= |UnitOffsets(size, mu)|
    ensures Next(size, mu, UnitOffsets(size, mu), k)
  {
    var offs := UnitOffsets(size, mu);
    assert size == size / mu * mu + size % mu;
    if 0 < k <= size / mu {
      assert (k - 1) * mu + mu == k * mu;
    }
    assert Reached(mu, offs, k) == if k <= size / mu then k * mu else size;
    if k < size / mu {
      FullUnitFits(size, mu, k);
    }
  }

  /** One turn of the loop over the merge units; `more` is false when it breaks. */
  method SendNext(w: OutWindow, m: Matcher, nwords: nat, vid: u16, slice: nat, frames: seq<Feature>, i: nat, cnt: nat,
                  ghost offs: seq<nat>, ghost k: nat,
                  ghost base: seq<PacketValue>, ghost shape: Shape, ghost n: nat, ghost s: seq<word>)
    returns (more: bool, i': nat, cnt': nat, ghost n': nat, ghost s': seq<word>)
    requires ValidWidth(nwords) && Uniform(nwords, frames)
    requires ValidUnit(m.mergeUnit) && i < |frames| < 0xFFFF_FF00
    requires |frames| >= m.mergeUnit || |frames| <= Threshold(m.mergeUnit)
    requires InSlice(|frames|, m.mergeUnit, offs) && k <= |offs|
    requires i == Reached(m.mergeUnit, offs, k) && Next(|frames|, m.mergeUnit, offs, k)
    requires s == Units(vid, slice, frames, m.mergeUnit, offs, k)
    requires Framed(w, base, shape, n, s, cnt) && cnt < MAX_WORDS && |s| % 8 == 0
    requires shape.rest == BITFEATURE_TYPE && m.bitfeatureCount == (shape.start + n + 1) % 256
    modifies w, w.slot, w.slot.data, m`bitfeatureCount
    ensures more <==> k < |offs|
    ensures !more ==> s' == s
    ensures more ==> i' == Reached(m.mergeUnit, offs, k + 1) <= |frames|
    ensures more ==> s' == Units(vid, slice, frames, m.mergeUnit, offs, k + 1) && i < i'
    ensures Framed(w, base, shape, n', s', cnt') && cnt' < MAX_WORDS && |s'| % 8 == 0
    ensures m.bitfeatureCount == (shape.start + n' + 1) % 256
    ensures OwnSlot(w, w.slot)
  {
    cnt', n', s' := cnt, n, s;
    var skip;
    skip, i' := NextUnit(i, |frames|, m.mergeUnit);
    more := !skip;
    if more {
      cnt', n', s' := SendAt(w, m, nwords, vid, slice, frames, i', cnt, base, shape, n, s);
      i' := i' + m.mergeUnit;
    }
  }

  /** The unit at `at`. */
  method SendAt(w: OutWindow, m: Matcher, nwords: nat, vid: u16, slice: nat, frames: seq<Feature>, at: nat, cnt: nat,
                ghost base: seq<PacketValue>, ghost shape: Shape, ghost n: nat, ghost s: seq<word>)
    returns (cnt': nat, ghost n': nat, ghost s': seq<word>)
    requires ValidWidth(nwords) && Uniform(nwords, frames)
    requires ValidUnit(m.mergeUnit) && at + m.mergeUnit <= |frames|
    requires Framed(w, base, shape, n, s, cnt) && cnt < MAX_WORDS && |s| % 8 == 0
    requires shape.rest == BITFEATURE_TYPE && m.bitfeatureCount == (shape.start + n + 1) % 256
    modifies w, w.slot, w.slot.data, m`bitfeatureCount
    ensures s' == s + Unit(vid, slice, at, frames[at..at + m.mergeUnit], m.mergeUnit)
    ensures Framed(w, base, shape, n', s', cnt') && cnt' < MAX_WORDS && |s'| % 8 == 0
    ensures m.bitfeatureCount == (shape.start + n' + 1) % 256
    ensures OwnSlot(w, w.slot)
  {
    var points := frames[at..at + m.mergeUnit];
    UniformPart(nwords, frames, at, at + m.mergeUnit);
    cnt', n' := SendUnit(w, m, nwords, vid, slice, at, points, cnt, base, shape, n, s);
    s' := s + Unit(vid, slice, at, points, m.mergeUnit);
  }

  lemma UniformPart(nwords: nat, frames: seq<Feature>, lo: nat, hi: nat)
    requires Uniform(nwords, frames) && lo <= hi <= |frames|
    ensures Uniform(nwords, frames[lo..hi]) && |frames[lo..hi]| == hi - lo
  {
  }

  /** The loop over the merge units. It moves `i` back at most once, and then
      stops. */
  method SendUnits(w: OutWindow, m: Matcher, nwords: nat, vid: u16, slice: nat, frames: seq<Feature>, ghost offs: seq<nat>,
                   ghost base: seq<PacketValue>, ghost shape: Shape)
    returns (cnt: nat, ghost n: nat, ghost s: seq<word>)
    requires ValidWidth(nwords) && Uniform(nwords, frames)
    requires ValidUnit(m.mergeUnit) && 0 < |frames| < 0xFFFF_FF00
    requires |frames| >= m.mergeUnit || |frames| <= Threshold(m.mergeUnit)
    requires InSlice(|frames|, m.mergeUnit, offs)
    requires forall k :: 0 <= k <= |offs| ==> Next(|frames|, m.mergeUnit, offs, k)
    requires Framed(w, base, shape, 0, [], 0)
    requires shape.rest == BITFEATURE_TYPE && m.bitfeatureCount == (shape.start + 1) % 256
    modifies w, w.slot, w.slot.data, m`bitfeatureCount
    ensures Framed(w, base, shape, n, s, cnt) && cnt < MAX_WORDS && |s| % 8 == 0
    ensures s == Units(vid, slice, frames, m.mergeUnit, offs, |offs|)
    ensures m.bitfeatureCount == (shape.start + n + 1) % 256
    ensures OwnSlot(w, w.slot)
  {
    cnt, n, s := 0, 0, [];
    var i: nat := 0;
    ghost var k: nat := 0;
    while i < |frames|
      invariant k <= |offs| && i == Reached(m.mergeUnit, offs, k) <= |frames|
      invariant s == Units(vid, slice, frames, m.mergeUnit, offs, k)
      invariant Framed(w, base, shape, n, s, cnt) && cnt < MAX_WORDS && |s| % 8 == 0
      invariant m.bitfeatureCount == (shape.start + n + 1) % 256
      invariant OwnSlot(w, w.slot)
      decreases |frames| - i
    {
      assert Next(|frames|, m.mergeUnit, offs, k);
      var more, i';
      more, i', cnt, n, s := SendNext(w, m, nwords, vid, slice, frames, i, cnt, offs, k, base, shape, n, s);
      if !more {
        break;
      }
      k := k + 1;
      i := i';
    }
    assert Next(|frames|, m.mergeUnit, offs, k);
  }

  /** How a call of `load_section` ends. */
  datatype Outcome = Sent | NothingToSend | AssertionFailed | ReadOutOfRange

  /** `load_section`. Not ready, or an unknown merge unit, is an assertion failure before
      anything changes; an empty slice sends nothing. On a slice between the threshold and
      one unit the code goes wrong (`FirstAccess`): it numbers a packet, writes the header
      of a unit into it and then reads past the slice, with nothing put. */
  method LoadSection(w: OutWindow, m: Matcher, vid: u16, slice: nat, frames: seq<Feature>)
    returns (r: Outcome)
    requires w.Valid()
    requires m.nbits == 32 || m.nbits == 64 || m.nbits == 128
    requires Uniform(m.nbits / 32, frames) && |frames| < 0xFFFF_FF00
    modifies w, w.slot, w.slot.data, m`bitfeatureCount, m`firstFlag
    ensures w.Valid()
    ensures r.AssertionFailed? <==> !(m.state == READY && ValidUnit(m.mergeUnit))
    ensures r.NothingToSend? <==> !r.AssertionFailed? && frames == []
    ensures r.ReadOutOfRange? <==> !r.AssertionFailed? && Threshold(m.mergeUnit) < |frames| < m.mergeUnit
    ensures r.AssertionFailed? || r.NothingToSend? ==>
              w.sent == old(w.sent) && m.bitfeatureCount == old(m.bitfeatureCount) && m.firstFlag == old(m.firstFlag)
    ensures r.ReadOutOfRange? ==>
              w.sent == old(w.sent) && m.bitfeatureCount == (old(m.bitfeatureCount) + 1) % 256 && !m.firstFlag
    ensures r.Sent? ==>
              && frames != [] && (|frames| >= m.mergeUnit || |frames| <= Threshold(m.mergeUnit))
              && var s := SectionStream(vid, slice, frames, m.mergeUnit, m.nbits / 32);
              && w.sent == old(w.sent) + Packets(SectionShape(old(m.firstFlag), old(m.bitfeatureCount)), s)
              && m.bitfeatureCount == (old(m.bitfeatureCount) + |s| / 360 + 1) % 256
              && !m.firstFlag
    ensures OwnSlot(w, w.slot)
  {
    if !m.ReadyReceive() || !(m.mergeUnit == 8 || m.mergeUnit == 16 || m.mergeUnit == 32) {
      return AssertionFailed;
    }
    if |frames| == 0 {
      return NothingToSend;
    }
    if Threshold(m.mergeUnit) < |frames| < m.mergeUnit {
      BreakOff(w, m, vid, slice, |frames|);
      return ReadOutOfRange;
    }
    SendSection(w, m, vid, slice, frames);
    return Sent;
  }

  /** The start of a section of which the first unit does not lie in the slice. */
  method BreakOff(w: OutWindow, m: Matcher, vid: u16, slice: nat, size: nat)
    requires w.Valid() && ValidUnit(m.mergeUnit)
    requires Threshold(m.mergeUnit) < size < m.mergeUnit
    modifies w, w.slot, w.slot.data, m`bitfeatureCount, m`firstFlag
    ensures w.Valid() && w.sent == old(w.sent) && !m.firstFlag
    ensures m.bitfeatureCount == (old(m.bitfeatureCount) + 1) % 256
    ensures OwnSlot(w, w.slot)
  {
    ghost var base, shape := w.sent, SectionShape(m.firstFlag, m.bitfeatureCount);
    StartSection(w, m);
    var skip, i := NextUnit(0, size, m.mergeUnit);
    StartIsPast(size, m.mergeUnit);
    ghost var n;
    var cnt;
    cnt, n := SendHeader(w, m, Label(vid, slice, i), 0, base, shape, 0, []);
    assert FirstPackets(shape, [] + UnitHeader(Label(vid, slice, i), m.mergeUnit), 0) == [];
    assert !skip && i > size;
  }

  /** The sending part of `load_section`. */
  method SendSection(w: OutWindow, m: Matcher, vid: u16, slice: nat, frames: seq<Feature>)
    requires w.Valid() && ValidUnit(m.mergeUnit)
    requires m.nbits == 32 || m.nbits == 64 || m.nbits == 128
    requires Uniform(m.nbits / 32, frames) && 0 < |frames| < 0xFFFF_FF00
    requires |frames| >= m.mergeUnit || |frames| <= Threshold(m.mergeUnit)
    modifies w, w.slot, w.slot.data, m`bitfeatureCount, m`firstFlag
    ensures w.Valid() && !m.firstFlag
    ensures var s := SectionStream(vid, slice, frames, m.mergeUnit, m.nbits / 32);
            && w.sent == old(w.sent) + Packets(SectionShape(old(m.firstFlag), old(m.bitfeatureCount)), s)
            && m.bitfeatureCount == (old(m.bitfeatureCount) + |s| / 360 + 1) % 256
    ensures OwnSlot(w, w.slot)
  {
    ghost var base, shape := w.sent, SectionShape(m.firstFlag, m.bitfeatureCount);
    StartSection(w, m);
    var nwords := m.nbits / 32;
    var cnt: nat;
    ghost var n, s;
    ghost var offs := UnitOffsets(|frames|, m.mergeUnit);
    OffsetsFollowAll(|frames|, m.mergeUnit);
    cnt, n, s := SendUnits(w, m, nwords, vid, slice, frames, offs, base, shape);
    SendTerminator(w, m, nwords, vid, slice, cnt, base, shape, n, s);
  }

  lemma OffsetsFollowAll(size: nat, mu: nat)
    requires ValidUnit(mu) && (size >= mu || size <= Threshold(mu))
    ensures InSlice(size, mu, UnitOffsets(size, mu))
    ensures forall k :: 0 <= k <= |UnitOffsets(size, mu)| ==> Next(size, mu, UnitOffsets(size, mu), k)
  {
    OffsetsInSlice(size, mu);
    forall k | 0 <= k <= |UnitOffsets(size, mu)| {
      OffsetsFollow(size, mu, k);
    }
  }

  /** The first packet of a section carries the matcher's first flag. */
  method StartSection(w: OutWindow, m: Matcher)
    requires w.Valid()
    modifies w.slot, m`bitfeatureCount, m`firstFlag
    ensures Framed(w, w.sent, SectionShape(old(m.firstFlag), old(m.bitfeatureCount)), 0, [], 0)
    ensures m.bitfeatureCount == (old(m.bitfeatureCount) + 1) % 256 && !m.firstFlag
  {
    var pkt := w.Acquire();
    pkt.SetInfo(if m.firstFlag then FIRST_TYPE else BITFEATURE_TYPE, m.bitfeatureCount, MAX_DATA_LEN);
    m.IncreaseBitfeatureCount();
    m.firstFlag := false;
  }

  /** The merge unit of zeros that closes a section, and the last packet. */
  method SendTerminator(w: OutWindow, m: Matcher, nwords: nat, vid: u16, slice: nat, cnt: nat,
                        ghost base: seq<PacketValue>, ghost shape: Shape, ghost n: nat, ghost s: seq<word>)
    requires ValidWidth(nwords) && ValidUnit(m.mergeUnit) && |s| % 8 == 0
    requires Framed(w, base, shape, n, s, cnt) && cnt < MAX_WORDS
    requires shape.rest == BITFEATURE_TYPE && m.bitfeatureCount == (shape.start + n + 1) % 256
    modifies w, w.slot, w.slot.data, m`bitfeatureCount
    ensures var t := s + Unit(vid, slice, 0, ZeroFrames(m.mergeUnit, nwords), m.mergeUnit);
            && w.Valid() && w.sent == base + Packets(shape, t)
            && m.bitfeatureCount == (shape.start + |t| / 360 + 1) % 256
    ensures OwnSlot(w, w.slot)
  {
    var zeros := ZeroFrames(m.mergeUnit, nwords);
    var cnt';
    ghost var n';
    cnt', n' := SendUnit(w, m, nwords, vid, slice, 0, zeros, cnt, base, shape, n, s);
    FinishSection(w, cnt', base, shape, n', s + Unit(vid, slice, 0, zeros, m.mergeUnit));
  }

  /** The last packet, put only when it holds something. */
  method FinishSection(w: OutWindow, cnt: nat,
                       ghost base: seq<PacketValue>, ghost shape: Shape, ghost n: nat, ghost s: seq<word>)
    requires Framed(w, base, shape, n, s, cnt) && cnt < MAX_WORDS
    modifies w, w.slot
    ensures w.Valid() && w.sent == base + Packets(shape, s)
    ensures n == |s| / 360
    ensures OwnSlot(w, w.slot)
  {
    if cnt > 0 {
      w.slot.dataLen := cnt * 4;
      PieceLast(s, n);
      assert w.slot.Value() == PacketAt(shape, s, n);
      w.Put();
      assert FirstPackets(shape, s, n + 1) == FirstPackets(shape, s, n) + [PacketAt(shape, s, n)];
    }
  }
}
