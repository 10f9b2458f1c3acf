/** `NewLibLoader::load_lib`: a feature library flattened into packets, and its
    round trip through the decoder. */
module LibLoader {
  import opened Words
  import opened PacketStream
  import opened NewLib

  const LIB_START: u8 := 0x12
  const LIB_SENDING: u8 := 0x02
  const LIB_END: u8 := 0x22
  const ALIGN_WORDS := 8

  const LIB_SHAPE := Shape(LIB_START, LIB_SENDING, 0)

  // -------------------------------------------------------------------------
  // The specification: the stream before it is cut into packets.

  function NetHeader(rec: VideoLibRec): word {
    Swap16(FromShort(rec.videoNum)) + Swap16(|rec.points| % 0x1_0000) * 0x1_0000
  }

  function Pad(n: nat): nat {
    if n % 8 == 0 then 0 else 8 - n % 8
  }

  lemma PadAligns(a: nat, n: nat)
    requires a % 8 == 0
    ensures (a + ALIGN_WORDS + n + Pad(n)) % 8 == 0
    ensures (a + ALIGN_WORDS + n) % 8 == n % 8
  {
    assert a == a / 8 * 8;
    assert n == n / 8 * 8 + n % 8;
  }

  function RecordHead(rec: VideoLibRec): seq<word> {
    Fill(6) + [SYNCWORD, NetHeader(rec)]
  }

  function RecordWords(rec: VideoLibRec): seq<word> {
    RecordHead(rec) + Flatten(rec.points) + Fill(Pad(|Flatten(rec.points)|))
  }

  function LibBody(lib: seq<VideoLibRec>): seq<word> {
    if lib == [] then [] else LibBody(lib[..|lib| - 1]) + RecordWords(lib[|lib| - 1])
  }

  const END_LINE: seq<word> := Fill(6) + [SYNCWORD_END, FILLWORD]

  function LibStream(lib: seq<VideoLibRec>): seq<word> {
    LibBody(lib) + END_LINE + Fill(8)
  }

  /** The packets of the whole stream; the last one is marked as the end. */
  function LibPackets(lib: seq<VideoLibRec>): seq<PacketValue> {
    var ps := Packets(LIB_SHAPE, LibStream(lib));
    if ps == [] then [] else ps[..|ps| - 1] + [ps[|ps| - 1].(ptype := LIB_END)]
  }

  lemma {:induction false} LibBodyAligned(lib: seq<VideoLibRec>)
    ensures |LibBody(lib)| % 8 == 0
  {
    if lib != [] {
      var front, last := lib[..|lib| - 1], lib[|lib| - 1];
      LibBodyAligned(front);
      PadAligns(|LibBody(front)|, |Flatten(last.points)|);
    }
  }

  /** The length is a whole number of features. */
  predicate WholeFeatures(nwords: nat, len: nat) {
    && (nwords == 2 ==> len % 2 == 0)
    && (nwords == 4 ==> len % 4 == 0)
  }

  /** Features never straddle packets: 360 is a multiple of every width. */
  lemma FitsOne(nwords: nat, len: nat, n: nat, count: nat)
    requires ValidWidth(nwords) && WholeFeatures(nwords, len)
    requires len == 360 * n + count && count < MAX_WORDS
    ensures count + nwords <= MAX_WORDS
    ensures WholeFeatures(nwords, len + nwords)
  {
    if nwords == 2 {
      var q := len / 2;
      assert len == 2 * q && count == 2 * (q - 180 * n);
    } else if nwords == 4 {
      var q := len / 4;
      assert len == 4 * q && count == 4 * (q - 90 * n);
    }
  }

  lemma WholeLines(nwords: nat, start: nat, len: nat)
    requires start % 8 == 0 && len == start + ALIGN_WORDS
    ensures WholeFeatures(nwords, len)
  {
    var q := start / 8;
    assert len == 8 * (q + 1) == 2 * (4 * (q + 1)) == 4 * (2 * (q + 1));
  }

  /** Lines never straddle packets either. */
  lemma LineFits(len: nat, n: nat, count: nat)
    requires len % 8 == 0
    requires len == 360 * n + count && count < MAX_WORDS
    ensures count % 8 == 0 && count + ALIGN_WORDS <= MAX_WORDS
  {
    var q := len / 8;
    assert len == 8 * q && count == 8 * (q - 45 * n);
  }

  /** The fill words the code counts in the packet are those of the stream. */
  lemma FillNum(start: nat, flat: nat, n: nat, count: nat)
    requires start % 8 == 0
    requires start + ALIGN_WORDS + flat == 360 * n + count && count < MAX_WORDS
    ensures Pad(flat) == if count % 8 == 0 then 0 else ALIGN_WORDS - count % 8
    ensures count + Pad(flat) <= MAX_WORDS
  {
    PadAligns(start, flat);
    AlignedCount(start + ALIGN_WORDS + flat, n, count);
    var r := count / 8;
    assert count == 8 * r + count % 8;
  }

  lemma AlignedCount(len: nat, n: nat, count: nat)
    requires len == 360 * n + count
    ensures count % 8 == len % 8
  {
    assert 360 * n == 8 * (45 * n);
  }

  lemma NextIndex(start: nat, n: nat)
    ensures ((start + n + 1) % 256 + 1) % 256 == (start + n + 2) % 256
  {
  }

  // -------------------------------------------------------------------------
  // The code.

  /** The macro `check_and_put`. */
  method CheckAndPut(w: OutWindow, count: nat, ptype: u8, index: u8,
                     ghost base: seq<PacketValue>, ghost shape: Shape, ghost n: nat, ghost s: seq<word>)
    returns (count': nat, index': u8, ghost n': nat)
    requires Framed(w, base, shape, n, s, count)
    requires ptype == shape.rest && index == (shape.start + n + 1) % 256
    modifies w, w.slot
    ensures Framed(w, base, shape, n', s, count') && count' < MAX_WORDS
    ensures index' == (shape.start + n' + 1) % 256
    ensures w.slot == old(w.slot) || (fresh(w.slot) && fresh(w.slot.data))
    ensures count < MAX_WORDS ==> count' == count
  {
    count', index', n' := count, index, n;
    if count == MAX_DATA_LEN / 4 {
      PutFull(w, base, shape, n, s);
      n' := n + 1;
      var pkt := w.Acquire();
      pkt.dataLen := MAX_DATA_LEN;
      pkt.index := index;
      NextIndex(shape.start, n);
      index' := (index + 1) % 256;
      pkt.ptype := ptype;
      count' := 0;
    }
  }

  /** One feature; it fits in what is left of its packet. */
  method LoadPoint(w: OutWindow, nwords: nat, b: Feature, count: nat, index: u8,
                   ghost base: seq<PacketValue>, ghost n: nat, ghost s: seq<word>)
    returns (count': nat, index': u8, ghost n': nat)
    requires ValidWidth(nwords) && |b| == nwords
    requires Framed(w, base, LIB_SHAPE, n, s, count) && count < MAX_WORDS
    requires WholeFeatures(nwords, |s|)
    requires index == (n + 1) % 256
    modifies w, w.slot, w.slot.data
    ensures Framed(w, base, LIB_SHAPE, n', s + b, count') && count' < MAX_WORDS
    ensures WholeFeatures(nwords, |s + b|)
    ensures index' == (n' + 1) % 256
    ensures w.slot == old(w.slot) || (fresh(w.slot) && fresh(w.slot.data))
  {
    FitsOne(nwords, |s|, n, count);
    assert MAX_WORDS - count >= |b| && |b| <= ALIGN_WORDS;
    count' := CopyWords(w, count, b, base, LIB_SHAPE, n, s);
    count', index', n' := CheckAndPut(w, count', LIB_SENDING, index, base, LIB_SHAPE, n, s + b);
  }

  /** The features of one record. */
  method LoadPoints(w: OutWindow, nwords: nat, points: seq<Feature>, count: nat, index: u8,
                    ghost base: seq<PacketValue>, ghost n: nat, ghost s: seq<word>)
    returns (count': nat, index': u8, ghost n': nat)
    requires ValidWidth(nwords) && Uniform(nwords, points)
    requires Framed(w, base, LIB_SHAPE, n, s, count) && count < MAX_WORDS
    requires WholeFeatures(nwords, |s|)
    requires index == (n + 1) % 256
    modifies w, w.slot, w.slot.data
    ensures Framed(w, base, LIB_SHAPE, n', s + Flatten(points), count') && count' < MAX_WORDS
    ensures index' == (n' + 1) % 256
    ensures w.slot == old(w.slot) || (fresh(w.slot) && fresh(w.slot.data))
  {
    count', index', n' := count, index, n;
    ghost var t := s;
    assert points[..0] == [] && t == s + Flatten(points[..0]);
    for i := 0 to |points|
      invariant Framed(w, base, LIB_SHAPE, n', t, count') && count' < MAX_WORDS
      invariant t == s + Flatten(points[..i])
      invariant WholeFeatures(nwords, |t|)
      invariant index' == (n' + 1) % 256
      invariant w.slot == old(w.slot) || (fresh(w.slot) && fresh(w.slot.data))
    {
      count', index', n' := LoadPoint(w, nwords, points[i], count', index', base, n', t);
      FlattenNext(s, t, points, i);
      t := t + points[i];
    }
    assert points[..|points|] == points;
  }

  /** The header line of a record. */
  method LoadHead(w: OutWindow, rec: VideoLibRec, count: nat, index: u8,
                  ghost base: seq<PacketValue>, ghost n: nat, ghost s: seq<word>)
    returns (count': nat, index': u8, ghost n': nat)
    requires Framed(w, base, LIB_SHAPE, n, s, count) && count < MAX_WORDS
    requires |s| % 8 == 0
    requires index == (n + 1) % 256
    modifies w, w.slot, w.slot.data
    ensures Framed(w, base, LIB_SHAPE, n', s + RecordHead(rec), count') && count' < MAX_WORDS
    ensures index' == (n' + 1) % 256
    ensures w.slot == old(w.slot) || (fresh(w.slot) && fresh(w.slot.data))
  {
    LineFits(|s|, n, count);
    var leftWords := MAX_WORDS - count;
    assert count % 8 == 0 && leftWords >= ALIGN_WORDS;
    count' := FillWords(w, count, 6, base, LIB_SHAPE, n, s);
    count' := PutWord(w, count', SYNCWORD, base, LIB_SHAPE, n, s + Fill(6));
    count' := PutWord(w, count', NetHeader(rec), base, LIB_SHAPE, n, s + Fill(6) + [SYNCWORD]);
    assert s + Fill(6) + [SYNCWORD] + [NetHeader(rec)] == s + RecordHead(rec);
    count', index', n' := CheckAndPut(w, count', LIB_SENDING, index, base, LIB_SHAPE, n, s + RecordHead(rec));
  }

  /** Fill words up to the next line. */
  method LoadFill(w: OutWindow, count: nat, index: u8, ghost start: nat, ghost flat: nat,
                  ghost base: seq<PacketValue>, ghost n: nat, ghost s: seq<word>)
    returns (count': nat, index': u8, ghost n': nat)
    requires Framed(w, base, LIB_SHAPE, n, s, count) && count < MAX_WORDS
    requires start % 8 == 0 && |s| == start + ALIGN_WORDS + flat
    requires index == (n + 1) % 256
    modifies w, w.slot, w.slot.data
    ensures Framed(w, base, LIB_SHAPE, n', s + Fill(Pad(flat)), count') && count' < MAX_WORDS
    ensures index' == (n' + 1) % 256
    ensures w.slot == old(w.slot) || (fresh(w.slot) && fresh(w.slot.data))
  {
    FillNum(start, flat, n, count);
    count' := count;
    assert s + Fill(0) == s;
    if count' % 8 != 0 {
      var fillNum := ALIGN_WORDS - count' % 8;
      count' := FillWords(w, count', fillNum, base, LIB_SHAPE, n, s);
    }
    count', index', n' := CheckAndPut(w, count', LIB_SENDING, index, base, LIB_SHAPE, n, s + Fill(Pad(flat)));
  }

  /** One record: header line, features, and fill words up to the next line. */
  method LoadRecord(w: OutWindow, nwords: nat, rec: VideoLibRec, count: nat, index: u8,
                    ghost base: seq<PacketValue>, ghost n: nat, ghost s: seq<word>)
    returns (count': nat, index': u8, ghost n': nat)
    requires ValidWidth(nwords) && Uniform(nwords, rec.points)
    requires Framed(w, base, LIB_SHAPE, n, s, count) && count < MAX_WORDS
    requires |s| % 8 == 0
    requires index == (n + 1) % 256
    modifies w, w.slot, w.slot.data
    ensures Framed(w, base, LIB_SHAPE, n', s + RecordWords(rec), count') && count' < MAX_WORDS
    ensures index' == (n' + 1) % 256
    ensures w.slot == old(w.slot) || (fresh(w.slot) && fresh(w.slot.data))
  {
    count', index', n' := LoadHead(w, rec, count, index, base, n, s);
    ghost var t := s + RecordHead(rec);
    WholeLines(nwords, |s|, |t|);
    count', index', n' := LoadPoints(w, nwords, rec.points, count', index', base, n', t);
    ghost var flat := Flatten(rec.points);
    assert |t + flat| == |s| + ALIGN_WORDS + |flat|;
    count', index', n' := LoadFill(w, count', index', |s|, |flat|, base, n', t + flat);
    Regroup(s, RecordHead(rec), flat, Fill(Pad(|flat|)));
  }

  lemma Regroup(s: seq<word>, a: seq<word>, b: seq<word>, c: seq<word>)
    ensures s + a + b + c == s + (a + b + c)
  {
  }

  /** `load_lib`: the window ends up holding exactly the packets of the stream. */
  method LoadLib(w: OutWindow, nwords: nat, lib: seq<VideoLibRec>)
    requires w.Valid() && ValidWidth(nwords) && UniformLib(nwords, lib)
    modifies w, w.slot, w.slot.data
    ensures w.Valid() && w.sent == LibPackets(lib)
  {
    w.Reset();
    var pkt := w.Acquire();
    var count: nat := 0;
    var index: u8 := 0;
    pkt.SetInfo(LIB_START, index, MAX_DATA_LEN);
    index := index + 1;
    ghost var n := 0;
    assert lib[..0] == [];
    for i := 0 to |lib|
      invariant Framed(w, [], LIB_SHAPE, n, LibBody(lib[..i]), count) && count < MAX_WORDS
      invariant index == (n + 1) % 256
      invariant w.slot == old(w.slot) || (fresh(w.slot) && fresh(w.slot.data))
    {
      LibBodyAligned(lib[..i]);
      count, index, n := LoadRecord(w, nwords, lib[i], count, index, [], n, LibBody(lib[..i]));
      assert lib[..i + 1][..i] == lib[..i];
    }
    assert lib[..|lib|] == lib;
    LibBodyAligned(lib);
    count, n := LoadEnd(w, count, index, n, LibBody(lib));
    PutLast(w, lib, n, count);
  }

  /** The sync-end line. */
  method LoadEndLine(w: OutWindow, count: nat, ghost n: nat, ghost s: seq<word>) returns (count': nat)
    requires Framed(w, [], LIB_SHAPE, n, s, count) && count < MAX_WORDS && |s| % 8 == 0
    modifies w.slot.data
    ensures Framed(w, [], LIB_SHAPE, n, s + END_LINE, count')
  {
    LineFits(|s|, n, count);
    assert MAX_WORDS - count >= ALIGN_WORDS && count % 8 == 0;
    count' := FillWords(w, count, 6, [], LIB_SHAPE, n, s);
    count' := PutWord(w, count', SYNCWORD_END, [], LIB_SHAPE, n, s + Fill(6));
    count' := PutWord(w, count', FILLWORD, [], LIB_SHAPE, n, s + Fill(6) + [SYNCWORD_END]);
    assert s + Fill(6) + [SYNCWORD_END] + [FILLWORD] == s + END_LINE;
  }

  /** The sync-end line; a packet it fills is put, so the empty line fits. */
  method LoadEnd(w: OutWindow, count: nat, index: u8, ghost n: nat, ghost s: seq<word>)
    returns (count': nat, ghost n': nat)
    requires Framed(w, [], LIB_SHAPE, n, s, count) && count < MAX_WORDS && |s| % 8 == 0
    requires index == (n + 1) % 256
    modifies w, w.slot, w.slot.data
    ensures Framed(w, [], LIB_SHAPE, n', s + END_LINE, count') && count' + ALIGN_WORDS <= MAX_WORDS
    ensures w.slot == old(w.slot) || (fresh(w.slot) && fresh(w.slot.data))
  {
    count' := LoadEndLine(w, count, n, s);
    n' := n;
    if count' == MAX_WORDS {
      var index';
      count', index', n' := CheckAndPut(w, count', LIB_SENDING, index, [], LIB_SHAPE, n, s + END_LINE);
    }
    assert |s + END_LINE| == |s| + ALIGN_WORDS;
    EndCount(|s|, n', count');
  }

  lemma EndCount(body: nat, n: nat, count: nat)
    requires body % 8 == 0
    requires body + ALIGN_WORDS == 360 * n + count && count < MAX_WORDS
    ensures count + ALIGN_WORDS <= MAX_WORDS
  {
    LineFits(body + ALIGN_WORDS, n, count);
  }

  /** The empty line, the end mark and the last put. */
  method PutLast(w: OutWindow, ghost lib: seq<VideoLibRec>, ghost n: nat, count: nat)
    requires Framed(w, [], LIB_SHAPE, n, LibBody(lib) + END_LINE, count)
    requires count + ALIGN_WORDS <= MAX_WORDS
    modifies w, w.slot, w.slot.data
    ensures w.Valid() && w.sent == LibPackets(lib)
  {
    ghost var s := LibStream(lib);
    var last := FillWords(w, count, 8, [], LIB_SHAPE, n, LibBody(lib) + END_LINE);
    w.slot.ptype := LIB_END;
    w.slot.dataLen := last * 4;
    assert w.slot.Value().words == w.slot.data[..last] == Piece(s, n);
    w.Put();
    var ps := Packets(LIB_SHAPE, s);
    assert |ps| == n + 1;
    assert ps[..n] == FirstPackets(LIB_SHAPE, s, n);
    assert ps[n] == PacketAt(LIB_SHAPE, s, n);
  }

  // -------------------------------------------------------------------------
  // What the packets promise.

  lemma Layout(lib: seq<VideoLibRec>) returns (n: nat)
    ensures var ps, s := LibPackets(lib), LibStream(lib);
            && |ps| == n + 1
            && ps[..n] == FirstPackets(LIB_SHAPE, s, n)
            && ps[n] == PacketValue(LIB_END, n % 256, Piece(s, n))
            && 360 * n < |s| <= 360 * n + MAX_WORDS
            && (|s| - 360 * n) % 8 == 0
  {
    var s := LibStream(lib);
    LibBodyAligned(lib);
    LastLength(|LibBody(lib)|, |s|);
    n := (|s| + MAX_WORDS - 1) / 360 - 1;
    var qs := FirstPackets(LIB_SHAPE, s, n + 1);
    assert qs[..n] == FirstPackets(LIB_SHAPE, s, n);
    assert qs[n] == PacketAt(LIB_SHAPE, s, n);
  }

  lemma PieceLast(s: seq<word>, n: nat)
    requires 360 * n < |s| <= 360 * n + MAX_WORDS
    ensures Piece(s, n) == s[360 * n..]
    ensures |Piece(s, n)| == |s| - 360 * n
  {
  }

  /** The packets are numbered from 0 modulo 256, all but the last are full, the last and
      only the last is a LIB_END of at most 360 words in whole lines of 8, and only the
      first is a LIB_START, unless it is last. */
  ghost predicate WellFramed(ps: seq<PacketValue>) {
    && ps != []
    && (forall k :: 0 <= k < |ps| ==> ps[k].index == k % 256)
    && (forall k :: 0 <= k < |ps| ==> (ps[k].ptype == 0x22 <==> k == |ps| - 1))
    && (forall k :: 0 <= k < |ps| - 1 ==> |ps[k].words| == 360)
    && (forall k :: 0 <= k < |ps| - 1 ==> ps[k].ptype == if k == 0 then 0x12 else 0x02)
    && 0 < |ps[|ps| - 1].words| <= 360
    && |ps[|ps| - 1].words| % 8 == 0
  }

  /** Framing, for every library. */
  lemma Framing(lib: seq<VideoLibRec>)
    ensures WellFramed(LibPackets(lib))
  {
    var n := Layout(lib);
    FramedParts(LibPackets(lib), LibStream(lib), n);
  }

  lemma FramedParts(ps: seq<PacketValue>, s: seq<word>, n: nat)
    requires |ps| == n + 1 && ps[..n] == FirstPackets(LIB_SHAPE, s, n)
    requires ps[n] == PacketValue(LIB_END, n % 256, Piece(s, n))
    requires 360 * n < |s| <= 360 * n + MAX_WORDS && (|s| - 360 * n) % 8 == 0
    ensures WellFramed(ps)
  {
    forall k | 0 <= k < n
      ensures ps[k] == PacketAt(LIB_SHAPE, s, k) && |ps[k].words| == MAX_WORDS
    {
      assert ps[k] == ps[..n][k];
      FullPiece(s, n, k);
    }
    PieceLast(s, n);
  }

  lemma FullPiece(s: seq<word>, n: nat, k: nat)
    requires 360 * n < |s| && k < n
    ensures |Piece(s, k)| == MAX_WORDS
  {
    assert 360 * k + MAX_WORDS <= 360 * n;
  }

  /** The payloads of the packets concatenate to the unpacketised stream. */
  lemma PayloadIsStream(lib: seq<VideoLibRec>)
    ensures Payload(LibPackets(lib)) == LibStream(lib)
  {
    var ps, s := LibPackets(lib), LibStream(lib);
    var n := Layout(lib);
    PieceLast(s, n);
    PayloadOfParts(ps, s, n);
  }

  lemma PayloadOfParts(ps: seq<PacketValue>, s: seq<word>, n: nat)
    requires |ps| == n + 1 && 360 * n <= |s| && ps[..n] == FirstPackets(LIB_SHAPE, s, n) && ps[n].words == s[360 * n..]
    ensures Payload(ps) == s
  {
    PayloadOfFirstPackets(LIB_SHAPE, s, n);
    PayloadSnoc(ps[..n], ps[n]);
    assert ps == ps[..n] + [ps[n]];
  }

  lemma LastLength(body: nat, len: nat)
    requires body % 8 == 0 && len == body + 16
    ensures var n := (len + MAX_WORDS - 1) / 360 - 1;
            0 <= n && 0 < len - 360 * n <= MAX_WORDS && (len - 360 * n) % 8 == 0
  {
    var n := (len + MAX_WORDS - 1) / 360 - 1;
    var q := body / 8;
    assert len - 360 * n == 8 * (q + 2 - 45 * n);
  }

  // -------------------------------------------------------------------------
  // Nothing that belongs together is in two packets.

  /** These words lie in packet `k`, from `off` on. */
  predicate InOne(ps: seq<PacketValue>, k: nat, off: nat, f: seq<word>) {
    k < |ps| && off + |f| <= |ps[k].words| && ps[k].words[off..off + |f|] == f
  }

  /** What lies in the stream from `pos` on, and in one packet's share of it, lies in the packet. */
  lemma InPacket(lib: seq<VideoLibRec>, pos: nat, k: nat, off: nat, f: seq<word>)
    requires pos == 360 * k + off && 0 < |f| && off + |f| <= MAX_WORDS && pos + |f| <= |LibStream(lib)|
    requires LibStream(lib)[pos..pos + |f|] == f
    ensures InOne(LibPackets(lib), k, off, f)
  {
    var ps, s := LibPackets(lib), LibStream(lib);
    var n := Layout(lib);
    if k < n {
      assert ps[k] == ps[..n][k];
    }
    assert ps[k].words == Piece(s, k);
    PieceHolds(s, pos, k, off, |f|);
  }

  lemma PieceHolds(s: seq<word>, pos: nat, k: nat, off: nat, len: nat)
    requires pos == 360 * k + off && 0 < len && off + len <= MAX_WORDS && pos + len <= |s|
    ensures off + len <= |Piece(s, k)| && Piece(s, k)[off..off + len] == s[pos..pos + len]
  {
    var end := if 360 * k + MAX_WORDS <= |s| then 360 * k + MAX_WORDS else |s|;
    assert Piece(s, k) == s[360 * k..end];
    SubSlice(s, 360 * k, end, off, len);
  }

  lemma SubSlice(s: seq<word>, a: nat, b: nat, off: nat, len: nat)
    requires a + off + len <= b <= |s|
    ensures s[a..b][off..off + len] == s[a + off..a + off + len]
  {
    var x, y := s[a..b][off..off + len], s[a + off..a + off + len];
    assert |x| == |y| && forall i :: 0 <= i < len ==> x[i] == y[i];
  }

  lemma AfterSlice(a: seq<word>, b: seq<word>, o: nat, len: nat)
    requires o + len <= |b|
    ensures (a + b)[|a| + o..|a| + o + len] == b[o..o + len]
  {
    var x, y := (a + b)[|a| + o..|a| + o + len], b[o..o + len];
    assert |x| == |y| && forall i :: 0 <= i < len ==> x[i] == y[i];
  }

  lemma {:induction false} BodyPrefix(lib: seq<VideoLibRec>, i: nat) returns (tail: seq<word>)
    requires i <= |lib|
    ensures LibBody(lib) == LibBody(lib[..i]) + tail
  {
    if i == |lib| {
      tail := [];
      assert lib[..i] == lib;
    } else {
      var front, last := lib[..|lib| - 1], lib[|lib| - 1];
      tail := BodyPrefix(front, i);
      assert front[..i] == lib[..i];
      assert LibBody(lib[..i]) + tail + RecordWords(last) == LibBody(lib[..i]) + (tail + RecordWords(last));
      tail := tail + RecordWords(last);
    }
  }

  /** Record `i` starts where the records before it end. */
  lemma RecordPlaced(lib: seq<VideoLibRec>, i: nat)
    requires i < |lib|
    ensures var b := |LibBody(lib[..i])|;
            && b % 8 == 0 && b + |RecordWords(lib[i])| <= |LibBody(lib)| <= |LibStream(lib)|
            && LibStream(lib)[b..b + |RecordWords(lib[i])|] == RecordWords(lib[i])
  {
    LibBodyAligned(lib[..i]);
    var tail := BodyPrefix(lib, i + 1);
    var b, r := LibBody(lib[..i]), RecordWords(lib[i]);
    assert lib[..i + 1][..i] == lib[..i];
    assert LibStream(lib) == b + r + tail + END_LINE + Fill(8);
    assert (b + r + tail + END_LINE + Fill(8))[|b|..|b| + |r|] == r;
  }

  lemma {:induction false} FeaturePlaced(nwords: nat, points: seq<Feature>, j: nat)
    requires ValidWidth(nwords) && Uniform(nwords, points) && j < |points|
    ensures var o := |Flatten(points[..j])|;
            && WholeFeatures(nwords, o) && o + nwords <= |Flatten(points)|
            && Flatten(points)[o..o + nwords] == points[j]
  {
    if j == 0 {
      assert Flatten(points[..0]) == [];
    } else {
      FeaturePlaced(nwords, points[1..], j - 1);
      assert points[..j][1..] == points[1..][..j - 1] && points[..j][0] == points[0];
      var o := |Flatten(points[1..][..j - 1])|;
      assert |Flatten(points[..j])| == nwords + o;
      AfterSlice(points[0], Flatten(points[1..]), o, nwords);
      SumIsWhole(nwords, nwords, o);
    }
  }

  lemma SumIsWhole(nwords: nat, a: nat, b: nat)
    requires ValidWidth(nwords) && WholeFeatures(nwords, a) && WholeFeatures(nwords, b)
    ensures WholeFeatures(nwords, a + b)
  {
    if nwords == 2 {
      TwoDivides(a, b);
    } else if nwords == 4 {
      FourDivides(a, b);
    }
  }

  lemma TwoDivides(a: nat, b: nat)
    requires a % 2 == 0 && b % 2 == 0
    ensures (a + b) % 2 == 0
  {
  }

  lemma FourDivides(a: nat, b: nat)
    requires a % 4 == 0 && b % 4 == 0
    ensures (a + b) % 4 == 0
  {
  }

  /** The header line of a record is whole in one packet. */
  lemma HeadInOnePacket(lib: seq<VideoLibRec>, i: nat) returns (k: nat, off: nat)
    requires i < |lib|
    ensures 360 * k + off == |LibBody(lib[..i])| && off % 8 == 0
    ensures InOne(LibPackets(lib), k, off, RecordHead(lib[i]))
  {
    var b := |LibBody(lib[..i])|;
    LibBodyAligned(lib[..i]);
    HeadInStream(lib, i);
    k, off := LineOf(b);
    InPacket(lib, b, k, off, RecordHead(lib[i]));
  }

  lemma HeadInStream(lib: seq<VideoLibRec>, i: nat)
    requires i < |lib|
    ensures var b := |LibBody(lib[..i])|;
            b + 8 <= |LibStream(lib)| && LibStream(lib)[b..b + 8] == RecordHead(lib[i])
  {
    var b := |LibBody(lib[..i])|;
    RecordPlaced(lib, i);
    SubSlice(LibStream(lib), b, b + |RecordWords(lib[i])|, 0, 8);
    assert RecordWords(lib[i])[0..8] == RecordHead(lib[i]);
  }

  /** Which packet a line is in, and where. */
  lemma LineOf(b: nat) returns (k: nat, off: nat)
    requires b % 8 == 0
    ensures 360 * k + off == b && off % 8 == 0 && off + 8 <= MAX_WORDS
  {
    k, off := b / 360, b % 360;
    LineFits(b, k, off);
  }

  /** Every feature is whole in one packet. */
  lemma FeatureInOnePacket(nwords: nat, lib: seq<VideoLibRec>, i: nat, j: nat) returns (k: nat, off: nat)
    requires ValidWidth(nwords) && UniformLib(nwords, lib) && i < |lib| && j < |lib[i].points|
    ensures 360 * k + off == |LibBody(lib[..i])| + 8 + |Flatten(lib[i].points[..j])|
    ensures InOne(LibPackets(lib), k, off, lib[i].points[j])
  {
    var b, o := |LibBody(lib[..i])|, |Flatten(lib[i].points[..j])|;
    FeaturePlaced(nwords, lib[i].points, j);
    LibBodyAligned(lib[..i]);
    FeatureInStream(lib, i, o, nwords);
    k, off := FeatureOf(nwords, b, o);
    InPacket(lib, b + 8 + o, k, off, lib[i].points[j]);
  }

  /** Which packet a feature is in, and where. */
  lemma FeatureOf(nwords: nat, b: nat, o: nat) returns (k: nat, off: nat)
    requires ValidWidth(nwords) && b % 8 == 0 && WholeFeatures(nwords, o)
    ensures 360 * k + off == b + 8 + o && off + nwords <= MAX_WORDS
  {
    var pos := b + 8 + o;
    k, off := pos / 360, pos % 360;
    WholeLines(nwords, b, b + 8);
    SumIsWhole(nwords, b + 8, o);
    FitsOne(nwords, pos, k, off);
  }

  lemma FeatureInStream(lib: seq<VideoLibRec>, i: nat, o: nat, len: nat)
    requires i < |lib| && o + len <= |Flatten(lib[i].points)|
    ensures var pos := |LibBody(lib[..i])| + 8 + o;
            && pos + len <= |LibStream(lib)|
            && LibStream(lib)[pos..pos + len] == Flatten(lib[i].points)[o..o + len]
  {
    var b := |LibBody(lib[..i])|;
    RecordPlaced(lib, i);
    InRecord(lib[i], o, len);
    SubSlice(LibStream(lib), b, b + |RecordWords(lib[i])|, 8 + o, len);
  }

  lemma InRecord(rec: VideoLibRec, o: nat, len: nat)
    requires o + len <= |Flatten(rec.points)|
    ensures 8 + o + len <= |RecordWords(rec)|
    ensures RecordWords(rec)[8 + o..8 + o + len] == Flatten(rec.points)[o..o + len]
  {
    var head, flat, pad := RecordHead(rec), Flatten(rec.points), Fill(Pad(|Flatten(rec.points)|));
    assert (head + flat + pad)[8 + o..8 + o + len] == flat[o..o + len];
  }

  /** The video number and the features of a record: what the stream carries. */
  datatype Content = Content(videoNum: short, points: seq<Feature>)

  function Contents(recs: seq<VideoLibRec>): seq<Content> {
    seq(|recs|, i requires 0 <= i < |recs| => Content(recs[i].videoNum, recs[i].points))
  }

  function NonEmpty(recs: seq<VideoLibRec>): seq<VideoLibRec> {
    if recs == [] then []
    else
      var front := NonEmpty(recs[..|recs| - 1]);
      if recs[|recs| - 1].points == [] then front else front + [recs[|recs| - 1]]
  }

  /** The records whose size a `short` can hold. */
  ghost predicate Fits(recs: seq<VideoLibRec>) {
    forall i :: 0 <= i < |recs| ==> |recs[i].points| < 0x8000
  }

  function Receive(nwords: nat, lib: seq<VideoLibRec>): Decoder {
    Run(nwords, START, Payload(LibPackets(lib)), true)
  }

  lemma NetHeaderReads(rec: VideoLibRec)
    requires |rec.points| < 0x8000
    ensures NetHeader(rec) != SYNCWORD
    ensures HeaderVideo(NetHeader(rec), true) == rec.videoNum
    ensures HeaderFrames(NetHeader(rec), true) == |rec.points|
  {
    var vid, size := FromShort(rec.videoNum), |rec.points|;
    assert size % 0x1_0000 == size;
    Halves(Swap16(vid), Swap16(size));
    SwapTwice(vid);
    SwapTwice(size);
    ShortTwice(rec.videoNum);
    assert Swap16(SYNCWORD / 0x1_0000) == 0xDCFA;
  }

  /** One record of the stream, read from between two records. */
  lemma RunRecordWords(nwords: nat, d: Decoder, rec: VideoLibRec)
    requires d.phase == Sync && ValidWidth(nwords) && Uniform(nwords, rec.points)
    requires |rec.points| < 0x8000
    ensures Run(nwords, d, RecordWords(rec), true) ==
            if rec.points == [] then d
            else Decoder(Sync, d.done + [rec.(numFrames := |rec.points|)], d.total + |rec.points|)
  {
    var marks := [SYNCWORD, NetHeader(rec)];
    var body := Flatten(rec.points);
    var pad := Fill(Pad(|body|));
    NetHeaderReads(rec);
    assert RecordWords(rec) == Fill(6) + (marks + body + pad);
    RunConcat(nwords, d, Fill(6), marks + body + pad, true);
    SyncSkips(nwords, d, Fill(6), true);
    RunConcat(nwords, d, marks + body, pad, true);
    if rec.points == [] {
      assert marks + body == [SYNCWORD] + [NetHeader(rec)];
      RunConcat(nwords, d, [SYNCWORD], [NetHeader(rec)], true);
      RunOne(nwords, d, SYNCWORD, true);
      RunOne(nwords, Step(nwords, d, SYNCWORD, true), NetHeader(rec), true);
    } else {
      RunRecord(nwords, d, NetHeader(rec), rec.points, true);
    }
    SyncSkips(nwords, Run(nwords, d, marks + body, true), pad, true);
  }

  lemma {:induction false} RunLibBody(nwords: nat, lib: seq<VideoLibRec>)
    requires ValidWidth(nwords) && UniformLib(nwords, lib) && Fits(lib)
    ensures var d := Run(nwords, START, LibBody(lib), true);
            d.phase == Sync && Contents(d.done) == Contents(NonEmpty(lib))
  {
    if lib != [] {
      var front, last := lib[..|lib| - 1], lib[|lib| - 1];
      RunLibBody(nwords, front);
      var d := Run(nwords, START, LibBody(front), true);
      RunConcat(nwords, START, LibBody(front), RecordWords(last), true);
      RunRecordWords(nwords, d, last);
      if last.points != [] {
        assert Contents(d.done + [last.(numFrames := |last.points|)])
            == Contents(d.done) + [Content(last.videoNum, last.points)];
        assert Contents(NonEmpty(front) + [last]) == Contents(NonEmpty(front)) + [Content(last.videoNum, last.points)];
      }
    }
  }

  lemma {:induction false} NonEmptyKeeps(recs: seq<VideoLibRec>, i: nat) returns (j: nat)
    requires i < |recs| && recs[i].points != []
    ensures j < |NonEmpty(recs)| && NonEmpty(recs)[j] == recs[i]
  {
    if i == |recs| - 1 {
      j := |NonEmpty(recs)| - 1;
    } else {
      j := NonEmptyKeeps(recs[..|recs| - 1], i);
    }
  }

  /** The library round trip. A receiver that feeds the payloads to the decoder
      gets exactly the non-empty records, in order, and ends between records,
      precisely when every record's size fits the `short` it is announced in. */
  lemma LibRoundTrip(nwords: nat, lib: seq<VideoLibRec>)
    requires ValidWidth(nwords) && UniformLib(nwords, lib)
    ensures (var d := Receive(nwords, lib); d.phase == Sync && Contents(d.done) == Contents(NonEmpty(lib)))
       <==> Fits(lib)
    ensures var d := Receive(nwords, lib); d.phase == Sync ==> AllComplete(d.done)
  {
    PayloadIsStream(lib);
    RunKeepsInv(nwords, START, LibStream(lib), true);
    if Fits(lib) {
      RunLibStream(nwords, lib);
    }
    var d := Receive(nwords, lib);
    if d.phase == Sync && Contents(d.done) == Contents(NonEmpty(lib)) {
      SameContentsFit(lib, d.done);
    }
  }

  lemma RunLibStream(nwords: nat, lib: seq<VideoLibRec>)
    requires ValidWidth(nwords) && UniformLib(nwords, lib) && Fits(lib)
    ensures Run(nwords, START, LibStream(lib), true) == Run(nwords, START, LibBody(lib), true)
    ensures var d := Run(nwords, START, LibBody(lib), true);
            d.phase == Sync && Contents(d.done) == Contents(NonEmpty(lib))
  {
    RunLibBody(nwords, lib);
    var tail := END_LINE + Fill(8);
    assert LibStream(lib) == LibBody(lib) + tail;
    RunConcat(nwords, START, LibBody(lib), tail, true);
    SyncSkips(nwords, Run(nwords, START, LibBody(lib), true), tail, true);
  }

  /** A complete record never has more features than a `short` can count. */
  lemma SameContentsFit(lib: seq<VideoLibRec>, recs: seq<VideoLibRec>)
    requires AllComplete(recs) && Contents(recs) == Contents(NonEmpty(lib))
    ensures Fits(lib)
  {
    forall i | 0 <= i < |lib|
      ensures |lib[i].points| < 0x8000
    {
      if lib[i].points != [] {
        var j := NonEmptyKeeps(lib, i);
        assert |recs| == |Contents(recs)| == |NonEmpty(lib)|;
        assert Contents(recs)[j] == Contents(NonEmpty(lib))[j];
        assert Complete(recs[j]);
      }
    }
  }

  /** The record `load_lib_to_mem` adds to every library. */
  function Dummy(nwords: nat): VideoLibRec {
    VideoLibRec(0, 32, seq(32, _ => seq(nwords, _ => 0)))
  }

  /** A library as it is kept in memory: a matcher that gets it ends with the dummy
      record, after the records of the library itself. */
  lemma DummyArrivesLast(nwords: nat, lib: seq<VideoLibRec>)
    requires ValidWidth(nwords) && UniformLib(nwords, lib) && Fits(lib)
    ensures var d := Receive(nwords, lib + [Dummy(nwords)]);
            && d.phase == Sync && |d.done| == |NonEmpty(lib)| + 1
            && Contents(d.done[..|d.done| - 1]) == Contents(NonEmpty(lib))
            && d.done[|d.done| - 1] == VideoLibRec(0, 32, seq(32, _ => seq(nwords, _ => 0)))
  {
    WithDummy(nwords, lib);
    var all := lib + [Dummy(nwords)];
    Received(nwords, all);
    LastContent(Receive(nwords, all).done, NonEmpty(lib), Dummy(nwords));
  }

  lemma WithDummy(nwords: nat, lib: seq<VideoLibRec>)
    requires ValidWidth(nwords) && UniformLib(nwords, lib) && Fits(lib)
    ensures var all := lib + [Dummy(nwords)];
            UniformLib(nwords, all) && Fits(all) && NonEmpty(all) == NonEmpty(lib) + [Dummy(nwords)]
    ensures Complete(Dummy(nwords))
  {
    assert (lib + [Dummy(nwords)])[..|lib|] == lib;
  }

  lemma Received(nwords: nat, lib: seq<VideoLibRec>)
    requires ValidWidth(nwords) && UniformLib(nwords, lib) && Fits(lib)
    ensures var d := Receive(nwords, lib);
            d.phase == Sync && Contents(d.done) == Contents(NonEmpty(lib)) && AllComplete(d.done)
  {
    LibRoundTrip(nwords, lib);
  }

  lemma LastContent(recs: seq<VideoLibRec>, front: seq<VideoLibRec>, last: VideoLibRec)
    requires AllComplete(recs) && Complete(last) && Contents(recs) == Contents(front + [last])
    ensures |recs| == |front| + 1 && Contents(recs[..|front|]) == Contents(front) && recs[|front|] == last
  {
    var n := |front|;
    assert |Contents(recs)| == |recs| && |Contents(front + [last])| == n + 1;
    assert Contents(recs)[n] == Content(last.videoNum, last.points);
    assert Complete(recs[n]);
    forall i | 0 <= i < n
      ensures Contents(recs[..n])[i] == Contents(front)[i]
    {
      assert Contents(recs)[i] == Contents(front + [last])[i];
    }
  }
}
