/** What a matcher answers: result packets filtered by their number, the sections
    they carry counted by diagonal, and a test's results sent out in batches. */
module Results {

  import opened Words
  import opened Matchers

  // -------------------------------------------------------------------------
  // Sections and their diagonals (`MatchSection`).

  datatype Section = Section(testBegin: word, libBegin: word)
  {
    function TestId(): (id: nat) ensures id < 0x10_0000 { testBegin / 0x1000 }
    function TestPos(): (pos: nat) ensures pos < 0x1000 { testBegin % 0x1000 }
    function LibId(): u16 { libBegin / 0x1_0000 }
    function LibPos(): u16 { libBegin % 0x1_0000 }
    function Diagonal(): u16 { (LibPos() - TestPos()) % 0x1_0000 }
    /** `offset_id`. */
    function OffsetId(): nat { TestId() * 0x1_0000_0000 + LibId() * 0x1_0000 + Diagonal() }
  }

  /** One key for one test, one library video and one diagonal. */
  lemma SameSequence(a: Section, b: Section)
    ensures a.OffsetId() == b.OffsetId() <==>
            && a.TestId() == b.TestId() && a.LibId() == b.LibId()
            && (a.LibPos() - a.TestPos() - (b.LibPos() - b.TestPos())) % 0x1_0000 == 0
  {
    SameDiagonal(a.LibPos() - a.TestPos(), b.LibPos() - b.TestPos());
    SameDigits(a.TestId(), a.LibId(), a.Diagonal(), b.TestId(), b.LibId(), b.Diagonal());
  }

  lemma SameDigits(t: nat, l: u16, d: u16, t': nat, l': u16, d': u16)
    ensures t * 0x1_0000_0000 + l * 0x1_0000 + d == t' * 0x1_0000_0000 + l' * 0x1_0000 + d' <==>
            t == t' && l == l' && d == d'
  {
  }

  lemma SameDiagonal(x: int, y: int)
    ensures x % 0x1_0000 == y % 0x1_0000 <==> (x - y) % 0x1_0000 == 0
  {
  }

  predicate OfTest(key: nat, testId: nat) {
    testId * 0x1_0000_0000 <= key < (testId + 1) * 0x1_0000_0000
  }

  /** The range scanned for a test holds the keys of its sections and no other. */
  lemma RangeIsTest(s: Section, testId: nat)
    ensures OfTest(s.OffsetId(), testId) <==> s.TestId() == testId
  {
    var low := s.LibId() * 0x1_0000 + s.Diagonal();
    assert 0 <= low < 0x1_0000_0000;
  }

  /** The section `xml_results` rebuilds from a key: one position further on. */
  function Reported(testId: nat, key: nat): Section
    requires testId < 0x10_0000
  {
    Section(testId * 0x1000, (key + 1) % 0x1_0000_0000)
  }

  /**
   * The report names the test, and the diagonal plus one. It names the library video
   * only if adding one does not leave the 16 bits of the diagonal: the sections that
   * start just before their own library video are reported under the next one.
   */
  lemma ReportNames(s: Section)
    ensures Reported(s.TestId(), s.OffsetId()).TestId() == s.TestId()
    ensures Reported(s.TestId(), s.OffsetId()).LibPos() == (s.LibPos() - s.TestPos() + 1) % 0x1_0000
    ensures Reported(s.TestId(), s.OffsetId()).LibId() == s.LibId() <==>
            (s.LibPos() + 1 - s.TestPos()) % 0x1_0000 != 0
  {
    var low := s.LibId() * 0x1_0000 + s.Diagonal();
    assert (s.OffsetId() + 1) % 0x1_0000_0000 == (low + 1) % 0x1_0000_0000;
    if s.Diagonal() == 0xFFFF {
      assert low + 1 == (s.LibId() + 1) * 0x1_0000;
    } else {
      assert (low + 1) % 0x1_0000_0000 == s.LibId() * 0x1_0000 + (s.Diagonal() + 1);
    }
  }

  // -------------------------------------------------------------------------
  // The lines of a report.

  function Dec(n: nat): (s: string)
    ensures |s| > 0
  {
    if n < 10 then ['0' + n as char] else Dec(n / 10) + ['0' + (n % 10) as char]
  }

  function Pow10(d: nat): (p: nat)
    ensures p > 0
  {
    if d == 0 then 1 else 10 * Pow10(d - 1)
  }

  lemma {:induction false} DecLength(n: nat, d: nat)
    requires d > 0 && n < Pow10(d)
    ensures |Dec(n)| <= d
  {
    if n >= 10 {
      assert d > 1;
      DecLength(n / 10, d - 1);
    }
  }

  const OPEN := "<result test_video=\""
  const POS := "\" test_pos=\""
  const LENGTH := "\" length=\""
  const LIB := "\" lib_video=\""
  const LIBPOS := "\" lib_pos=\""
  const CLOSE := "\"/>\n"

  function Line(testId: nat, key: nat, sliceLen: u8): string
    requires testId < 0x10_0000
  {
    var sec := Reported(testId, key);
    OPEN + Dec(testId / 1024) + POS + Dec(testId % 1024 * sliceLen) + LENGTH + Dec(sliceLen)
    + LIB + Dec(sec.LibId()) + LIBPOS + Dec(sec.LibPos() / 60) + CLOSE
  }

  /** No line is longer than 92 bytes, so that twelve of them never fill a packet. */
  lemma LineFits(testId: nat, key: nat, sliceLen: u8)
    requires testId < 0x10_0000
    ensures 0 < |Line(testId, key, sliceLen)| <= 92
  {
    var sec := Reported(testId, key);
    assert testId % 1024 * sliceLen <= 1023 * 255;
    assert Pow10(3) == 1000 && Pow10(4) == 10000 && Pow10(5) == 100000 && Pow10(6) == 1000000;
    DecLength(testId / 1024, 4);
    DecLength(testId % 1024 * sliceLen, 6);
    DecLength(sliceLen, 3);
    DecLength(sec.LibId(), 5);
    DecLength(sec.LibPos() / 60, 4);
    assert |OPEN| == 20 && |POS| == 12 && |LENGTH| == 10 && |LIB| == 13 && |LIBPOS| == 11 && |CLOSE| == 4;
  }

  // -------------------------------------------------------------------------
  // What a payload asks for: sections to count, and tests to report.

  datatype Event = AddSection(section: Section) | Output(testId: nat)

  /** `ntohl` on a little-endian host. */
  function Swap32(x: word): word {
    Swap16(x / 0x1_0000) + Swap16(x % 0x1_0000) * 0x1_0000
  }

  /** It turns the four bytes round. */
  lemma SwapsBytes(a: u8, b: u8, c: u8, d: u8)
    ensures Swap32(FromBytes(a, b, c, d)) == FromBytes(d, c, b, a)
  {
    var lo, hi := a + b * 0x100, c + d * 0x100;
    Halves(lo, hi);
    assert FromBytes(a, b, c, d) == lo + hi * 0x1_0000;
    SwapsTwo(a, b);
    SwapsTwo(c, d);
  }

  /** So the first two bytes are the video, and the others the position. */
  lemma BigEndian(a: u8, b: u8, c: u8, d: u8)
    ensures FromBytes(d, c, b, a) == (a * 0x100 + b) * 0x1_0000 + (c * 0x100 + d)
  {
  }

  function EventOf(lb: word, tb: word): seq<Event> {
    if lb != 0 then [AddSection(Section(tb, lb))]
    else if tb != 0 then [Output(tb / 0x1000)]
    else []
  }

  /** The pairs of a payload in order; an odd last word is paired with the word `beyond` it. */
  function EventsOf(words: seq<word>, beyond: word): seq<Event> {
    if words == [] then []
    else if |words| == 1 then EventOf(Swap32(words[0]), beyond)
    else EventOf(Swap32(words[0]), words[1]) + EventsOf(words[2..], beyond)
  }

  /**
   * What a pair says, among whole pairs: with a library word in network order that is not
   * zero, one section of that library video and position, and of that test number and
   * position; else, with a test word that is not zero, that the test is to be reported.
   */
  lemma PairSays(before: seq<word>, a: u8, b: u8, c: u8, d: u8, tb: word, after: seq<word>, beyond: word)
    requires |before| % 2 == 0
    ensures EventsOf(before + [FromBytes(a, b, c, d), tb] + after, beyond) ==
            EventsOf(before, beyond) + Said(a * 0x100 + b, c * 0x100 + d, tb) + EventsOf(after, beyond)
  {
    var video, pos: u16 := a * 0x100 + b, c * 0x100 + d;
    SwapsBytes(a, b, c, d);
    BigEndian(a, b, c, d);
    SaidIs(video, pos, tb);
    PairAmong(before, FromBytes(a, b, c, d), tb, after, beyond);
  }

  lemma PairAmong(before: seq<word>, lb: word, tb: word, after: seq<word>, beyond: word)
    requires |before| % 2 == 0
    ensures EventsOf(before + [lb, tb] + after, beyond) ==
            EventsOf(before, beyond) + EventOf(Swap32(lb), tb) + EventsOf(after, beyond)
  {
    var n, pair := |before| / 2, [lb, tb];
    EventsConcatenate(before + pair, after, beyond, n + 1);
    EventsConcatenate(before, pair, beyond, n);
    OnePair(lb, tb, beyond);
  }

  lemma OnePair(lb: word, tb: word, beyond: word)
    ensures EventsOf([lb, tb], beyond) == EventOf(Swap32(lb), tb)
  {
    assert [lb, tb][2..] == [];
    assert EventsOf([], beyond) == [];
  }

  /** The event for a library video and position, and a test word. */
  ghost function Said(video: u16, pos: u16, tb: word): (es: seq<Event>)
    ensures es == [] <==> video == 0 && pos == 0 && tb == 0
  {
    if video == 0 && pos == 0 then
      if tb == 0 then [] else [Output(tb / 0x1000)]
    else [AddSection(Section(tb, video * 0x1_0000 + pos))]
  }

  lemma SaidIs(video: u16, pos: u16, tb: word)
    ensures Said(video, pos, tb) == EventOf(video * 0x1_0000 + pos, tb)
    ensures var s := Section(tb, video * 0x1_0000 + pos);
            s.LibId() == video && s.LibPos() == pos && s.TestId() == tb / 0x1000 && s.TestPos() == tb % 0x1000
  {
    Halves(pos, video);
  }

  /** Only a payload of whole pairs is read within its bounds. */
  lemma PairsInRange(words: seq<word>)
    ensures (forall b, c :: EventsOf(words, b) == EventsOf(words, c)) <==> |words| % 2 == 0
  {
    if |words| % 2 == 0 {
      forall b, c
        ensures EventsOf(words, b) == EventsOf(words, c)
      {
        EvenPairs(words, b, c);
      }
    } else {
      OddPair(words);
    }
  }

  lemma {:induction false} EvenPairs(words: seq<word>, b: word, c: word)
    requires |words| % 2 == 0
    ensures EventsOf(words, b) == EventsOf(words, c)
  {
    if words != [] {
      EvenPairs(words[2..], b, c);
    }
  }

  lemma {:induction false} OddPair(words: seq<word>)
    requires |words| % 2 == 1
    ensures EventsOf(words, 0x1000) != EventsOf(words, 0x2000)
  {
    if |words| == 1 {
      assert EventsOf(words, 0x1000) == EventOf(Swap32(words[0]), 0x1000);
      assert EventsOf(words, 0x2000) == EventOf(Swap32(words[0]), 0x2000);
      assert EventOf(Swap32(words[0]), 0x1000)[0] != EventOf(Swap32(words[0]), 0x2000)[0];
    } else {
      OddPair(words[2..]);
      SamePrefix(EventOf(Swap32(words[0]), words[1]), EventsOf(words[2..], 0x1000), EventsOf(words[2..], 0x2000));
    }
  }

  lemma SamePrefix(first: seq<Event>, p: seq<Event>, q: seq<Event>)
    requires p != q
    ensures first + p != first + q
  {
    assert (first + p)[|first|..] == p && (first + q)[|first|..] == q;
  }

  /** Payloads of whole pairs may be cut anywhere between pairs. */
  lemma {:induction false} EventsConcatenate(a: seq<word>, b: seq<word>, beyond: word, pairs: nat)
    requires |a| == 2 * pairs
    ensures EventsOf(a + b, beyond) == EventsOf(a, beyond) + EventsOf(b, beyond)
  {
    var all := a + b;
    if pairs == 0 {
      assert all == b;
    } else {
      EventsConcatenate(a[2..], b, beyond, pairs - 1);
      assert all[2..] == a[2..] + b && all[0] == a[0] && all[1] == a[1];
    }
  }

  // -------------------------------------------------------------------------
  // The filter: packets are numbered from 0, and their index is the number mod 256.

  /** The numbers of the packets that pass, of those delivered. */
  function Accepted(ds: seq<nat>): seq<nat> {
    if ds == [] then []
    else
      var before, d := Accepted(ds[..|ds| - 1]), ds[|ds| - 1];
      if SameIndex(d, |before|) then before + [d] else before
  }

  predicate InOrder(accepted: seq<nat>) {
    forall k :: 0 <= k < |accepted| ==> accepted[k] == k
  }

  /** A receiver that compares whole numbers: the first packet it does not have yet. */
  function Next(ds: seq<nat>): nat {
    if ds == [] then 0
    else
      var n := Next(ds[..|ds| - 1]);
      if ds[|ds| - 1] == n then n + 1 else n
  }

  /** Each delivery is the packet such a receiver waits for, or has another index. */
  predicate NeverLaps(ds: seq<nat>) {
    forall i :: 0 <= i < |ds| ==> ds[i] == Next(ds[..i]) || !SameIndex(ds[i], Next(ds[..i]))
  }

  lemma NeverLapsSnoc(ds: seq<nat>, d: nat)
    ensures NeverLaps(ds + [d]) <==> NeverLaps(ds) && (d == Next(ds) || !SameIndex(d, Next(ds)))
  {
    var all := ds + [d];
    assert all[..|ds|] == ds && all[|ds|] == d;
    assert forall i :: 0 <= i < |ds| ==> all[i] == ds[i] && all[..i] == ds[..i];
  }

  /** Whatever is lost, repeated or reordered: what passes is the packets 0, 1, 2, ... in
      order and once each exactly when no delivery is whole laps of the index away from the
      packet waited for; and then the filter accepts what the ideal receiver does. */
  lemma {:induction false} FilterKeepsOrder(ds: seq<nat>)
    ensures InOrder(Accepted(ds)) <==> NeverLaps(ds)
    ensures NeverLaps(ds) ==> |Accepted(ds)| == Next(ds)
  {
    if ds != [] {
      var n := |ds| - 1;
      FilterKeepsOrder(ds[..n]);
      FilterNext(ds[..n], ds[n]);
      assert ds[..n] + [ds[n]] == ds;
    }
  }

  lemma FilterNext(ds: seq<nat>, d: nat)
    requires InOrder(Accepted(ds)) <==> NeverLaps(ds)
    requires NeverLaps(ds) ==> |Accepted(ds)| == Next(ds)
    ensures InOrder(Accepted(ds + [d])) <==> NeverLaps(ds + [d])
    ensures NeverLaps(ds + [d]) ==> |Accepted(ds + [d])| == Next(ds + [d])
  {
    NeverLapsSnoc(ds, d);
    InOrderSnoc(Accepted(ds), d);
    assert (ds + [d])[..|ds|] == ds;
  }

  lemma InOrderSnoc(a: seq<nat>, d: nat)
    ensures InOrder(a + [d]) <==> InOrder(a) && d == |a|
  {
    var b := a + [d];
    assert b[|a|] == d && forall k :: 0 <= k < |a| ==> b[k] == a[k];
  }

  /** Deliveries within 255 of the packet waited for never lap. */
  lemma NearNeverLaps(ds: seq<nat>)
    requires forall i :: 0 <= i < |ds| ==> -256 < ds[i] - Next(ds[..i]) < 256
    ensures NeverLaps(ds) && InOrder(Accepted(ds))
  {
    forall i | 0 <= i < |ds|
      ensures ds[i] == Next(ds[..i]) || !SameIndex(ds[i], Next(ds[..i]))
    {
      NearAreSame(ds[i], Next(ds[..i]));
    }
    FilterKeepsOrder(ds);
  }

  /** The packet waited for follows one that was delivered. */
  lemma {:induction false} NextFollows(ds: seq<nat>) returns (j: nat)
    requires Next(ds) > 0
    ensures j < |ds| && Next(ds) == ds[j] + 1
  {
    var n := |ds| - 1;
    if ds[n] == Next(ds[..n]) {
      j := n;
    } else {
      j := NextFollows(ds[..n]);
    }
  }

  /** So it is enough that the sender is never 256 packets ahead of what has arrived, and
      that no packet arrives 255 packets behind one that came before it. */
  lemma BoundedDelayKeepsOrder(ds: seq<nat>)
    requires forall i :: 0 <= i < |ds| ==> ds[i] < Next(ds[..i]) + 256
    requires forall i, j :: 0 <= j < i < |ds| ==> ds[j] < ds[i] + 255
    ensures NeverLaps(ds) && InOrder(Accepted(ds)) && |Accepted(ds)| == Next(ds)
  {
    forall i | 0 <= i < |ds|
      ensures -256 < ds[i] - Next(ds[..i]) < 256
    {
      if Next(ds[..i]) > 0 {
        var j := NextFollows(ds[..i]);
        assert ds[..i][j] == ds[j];
      }
    }
    NearNeverLaps(ds);
    FilterKeepsOrder(ds);
  }

  lemma {:induction false} CountUp(n: nat)
    ensures Accepted(seq(n, i => i)) == seq(n, i => i)
  {
    var ds := seq(n, i => i);
    if n > 0 {
      CountUp(n - 1);
      assert ds[..n - 1] == seq(n - 1, i => i);
    }
  }

  lemma {:induction false} NextUp(n: nat)
    ensures Next(seq(n, i => i)) == n
  {
    var ds := seq(n, i => i);
    if n > 0 {
      NextUp(n - 1);
      assert ds[..n - 1] == seq(n - 1, i => i);
    }
  }

  /** 255 is the widest margin: the first packet delivered again after 256 is taken for the 257th. */
  lemma OldDuplicatePasses()
    ensures var ds := seq(256, i => i) + [0];
            ds[256] - Next(ds[..256]) == -256 && |Accepted(ds)| == 257 && Accepted(ds)[256] == 0 && !InOrder(Accepted(ds))
  {
    var up: seq<nat> := seq(256, i => i);
    var ds := up + [0];
    CountUp(256);
    NextUp(256);
    assert ds[..256] == up;
  }

  /** The events of the packets that pass; packet `n` carries `payload(n)`. */
  function Delivered(accepted: seq<nat>, payload: nat -> seq<word>, beyond: nat -> word): seq<Event> {
    if accepted == [] then []
    else
      var d := accepted[|accepted| - 1];
      Delivered(accepted[..|accepted| - 1], payload, beyond) + EventsOf(payload(d), beyond(d))
  }

  function Stream(n: nat, payload: nat -> seq<word>): seq<word> {
    if n == 0 then [] else Stream(n - 1, payload) + payload(n - 1)
  }

  lemma {:induction false} StreamIsEven(n: nat, payload: nat -> seq<word>)
    requires forall k :: |payload(k)| % 2 == 0
    ensures |Stream(n, payload)| % 2 == 0
  {
    if n > 0 {
      StreamIsEven(n - 1, payload);
    }
  }

  /** With whole pairs and no lap, what the matcher wrote is handled as one stream. */
  lemma {:induction false} StreamIsDelivered(accepted: seq<nat>, payload: nat -> seq<word>, beyond: nat -> word, b: word)
    requires InOrder(accepted) && forall k :: |payload(k)| % 2 == 0
    ensures Delivered(accepted, payload, beyond) == EventsOf(Stream(|accepted|, payload), b)
  {
    if accepted != [] {
      var n := |accepted| - 1;
      StreamIsDelivered(accepted[..n], payload, beyond, b);
      StreamIsEven(n, payload);
      EvenPairs(payload(n), beyond(n), b);
      EventsConcatenate(Stream(n, payload), payload(n), b, |Stream(n, payload)| / 2);
    }
  }

  /** A run of deliveries without laps, of packets of whole pairs, is handled as the stream
      the matcher wrote, up to the packets that passed. */
  lemma RunIsStream(ds: seq<nat>, payload: nat -> seq<word>, beyond: nat -> word, b: word)
    requires NeverLaps(ds) && forall k :: |payload(k)| % 2 == 0
    ensures Delivered(Accepted(ds), payload, beyond) == EventsOf(Stream(Next(ds), payload), b)
  {
    FilterKeepsOrder(ds);
    StreamIsDelivered(Accepted(ds), payload, beyond, b);
  }

  // -------------------------------------------------------------------------
  // Several matchers, whose packets arrive in any order.

  datatype Delivery = Delivery(sender: nat, number: nat)

  /** The packets of one matcher among these deliveries. */
  function Numbers(dels: seq<Delivery>, m: nat): seq<nat> {
    if dels == [] then []
    else
      var before, d := Numbers(dels[..|dels| - 1], m), dels[|dels| - 1];
      if d.sender == m then before + [d.number] else before
  }

  /** This delivery, after those, is of a known matcher and has the index wanted from it. */
  predicate Passes(before: seq<Delivery>, d: Delivery, known: nat) {
    d.sender < known && SameIndex(d.number, |Accepted(Numbers(before, d.sender))|)
  }

  /** The deliveries that pass. */
  function Passed(dels: seq<Delivery>, known: nat): seq<Delivery> {
    if dels == [] then []
    else
      var front, d := dels[..|dels| - 1], dels[|dels| - 1];
      if Passes(front, d, known) then Passed(front, known) + [d] else Passed(front, known)
  }

  /** Of each known matcher there pass the packets that its own filter accepts. */
  lemma {:induction false} PassedOfEach(dels: seq<Delivery>, known: nat, m: nat)
    requires m < known
    ensures Numbers(Passed(dels, known), m) == Accepted(Numbers(dels, m))
  {
    if dels != [] {
      var front, d := dels[..|dels| - 1], dels[|dels| - 1];
      PassedOfEach(front, known, m);
      NumbersSnoc(Passed(front, known), d, m);
      if d.sender == m {
        var ns := Numbers(front, m);
        assert Numbers(dels, m) == ns + [d.number] && (ns + [d.number])[..|ns|] == ns;
      }
    }
  }

  lemma NumbersSnoc(dels: seq<Delivery>, d: Delivery, m: nat)
    ensures Numbers(dels + [d], m) == if d.sender == m then Numbers(dels, m) + [d.number] else Numbers(dels, m)
  {
    assert (dels + [d])[..|dels|] == dels;
  }

  /** How many packets of each matcher have passed. */
  function Counts(dels: seq<Delivery>, known: nat): (counts: seq<nat>)
    ensures |counts| == known
  {
    seq(known, m requires 0 <= m < known => |Accepted(Numbers(dels, m))|)
  }

  predicate IsWanted(counts: seq<nat>, d: Delivery) {
    d.sender < |counts| && SameIndex(d.number, counts[d.sender])
  }

  function NextCounts(counts: seq<nat>, d: Delivery): seq<nat> {
    if IsWanted(counts, d) then counts[d.sender := counts[d.sender] + 1] else counts
  }

  lemma AcceptedSnoc(ds: seq<nat>, d: nat)
    ensures Accepted(ds + [d]) == if SameIndex(d, |Accepted(ds)|) then Accepted(ds) + [d] else Accepted(ds)
  {
    assert (ds + [d])[..|ds|] == ds;
  }

  lemma CountsNext(dels: seq<Delivery>, d: Delivery, known: nat)
    ensures Counts(dels + [d], known) == NextCounts(Counts(dels, known), d)
  {
    forall m: nat | m < known
      ensures Counts(dels + [d], known)[m] == NextCounts(Counts(dels, known), d)[m]
    {
      NumbersSnoc(dels, d, m);
      AcceptedSnoc(Numbers(dels, m), d.number);
    }
  }

  /** The events of deliveries, in their order. */
  function EventsFrom(dels: seq<Delivery>, payload: Delivery -> seq<word>, beyond: Delivery -> word): seq<Event> {
    if dels == [] then []
    else
      var d := dels[|dels| - 1];
      EventsFrom(dels[..|dels| - 1], payload, beyond) + EventsOf(payload(d), beyond(d))
  }

  /** The deliveries of one matcher. */
  function Only(dels: seq<Delivery>, m: nat): seq<Delivery> {
    if dels == [] then []
    else
      var before, d := Only(dels[..|dels| - 1], m), dels[|dels| - 1];
      if d.sender == m then before + [d] else before
  }

  lemma EventsSnoc(dels: seq<Delivery>, d: Delivery, payload: Delivery -> seq<word>, beyond: Delivery -> word)
    ensures EventsFrom(dels + [d], payload, beyond) == EventsFrom(dels, payload, beyond) + EventsOf(payload(d), beyond(d))
  {
    assert (dels + [d])[..|dels|] == dels;
  }

  /** A log after these deliveries. */
  function RunLog(start: seq<Event>, dels: seq<Delivery>, known: nat, payload: Delivery -> seq<word>,
                  beyond: Delivery -> word): seq<Event> {
    if dels == [] then start
    else
      var front, d := dels[..|dels| - 1], dels[|dels| - 1];
      RunLog(start, front, known, payload, beyond)
      + if IsWanted(Counts(front, known), d) then EventsOf(payload(d), beyond(d)) else []
  }

  lemma RunLogSnoc(start: seq<Event>, dels: seq<Delivery>, d: Delivery, known: nat, payload: Delivery -> seq<word>,
                   beyond: Delivery -> word)
    ensures RunLog(start, dels + [d], known, payload, beyond) ==
            RunLog(start, dels, known, payload, beyond)
            + if IsWanted(Counts(dels, known), d) then EventsOf(payload(d), beyond(d)) else []
  {
    assert (dels + [d])[..|dels|] == dels;
  }

  /** It has grown by the events of the deliveries that pass. */
  lemma {:induction false} RunLogIs(start: seq<Event>, dels: seq<Delivery>, known: nat, payload: Delivery -> seq<word>,
                                    beyond: Delivery -> word)
    ensures RunLog(start, dels, known, payload, beyond) == start + EventsFrom(Passed(dels, known), payload, beyond)
  {
    if dels != [] {
      var front, d := dels[..|dels| - 1], dels[|dels| - 1];
      RunLogIs(start, front, known, payload, beyond);
      EventsSnoc(Passed(front, known), d, payload, beyond);
    }
  }

  /** One matcher's share of the events is what its packets deliver. */
  lemma {:induction false} ShareIsDelivered(dels: seq<Delivery>, m: nat, payload: Delivery -> seq<word>, beyond: Delivery -> word)
    ensures EventsFrom(Only(dels, m), payload, beyond) ==
            Delivered(Numbers(dels, m), k => payload(Delivery(m, k)), k => beyond(Delivery(m, k)))
  {
    if dels != [] {
      var front, d := dels[..|dels| - 1], dels[|dels| - 1];
      ShareIsDelivered(front, m, payload, beyond);
      if d.sender == m {
        var os, ns := Only(front, m), Numbers(front, m);
        assert (os + [d])[..|os|] == os && (ns + [d.number])[..|ns|] == ns;
      }
    }
  }

  /** So each matcher whose deliveries never lap has its own stream handled, whatever comes
      from the others in between. */
  lemma ShareIsStream(dels: seq<Delivery>, known: nat, m: nat, payload: Delivery -> seq<word>, beyond: Delivery -> word, b: word)
    requires m < known && NeverLaps(Numbers(dels, m)) && forall d :: |payload(d)| % 2 == 0
    ensures EventsFrom(Only(Passed(dels, known), m), payload, beyond) ==
            EventsOf(Stream(Next(Numbers(dels, m)), k => payload(Delivery(m, k))), b)
  {
    ShareIsDelivered(Passed(dels, known), m, payload, beyond);
    PassedOfEach(dels, known, m);
    RunIsStream(Numbers(dels, m), k => payload(Delivery(m, k)), k => beyond(Delivery(m, k)), b);
  }

  // -------------------------------------------------------------------------
  // Counting sections (`SectionManagerSimp`).

  /** The sections on one diagonal since its test was last reported. */
  function CountOf(log: seq<Event>, key: nat): nat {
    if log == [] then 0
    else
      var before := CountOf(log[..|log| - 1], key);
      match log[|log| - 1]
      case AddSection(s) => before + if s.OffsetId() == key then 1 else 0
      case Output(testId) => if OfTest(key, testId % 0x10_0000) then 0 else before
  }

  /** Reporting one test leaves the counts of every other test, and starts its own again. */
  lemma {:induction false} CountSinceReport(before: seq<Event>, testId: nat, after: seq<Event>, key: nat)
    ensures CountOf(before + [Output(testId)] + after, key) ==
            if OfTest(key, testId % 0x10_0000) then CountOf(after, key) else CountOf(before + after, key)
  {
    var all := before + [Output(testId)] + after;
    if after == [] {
      assert all[..|all| - 1] == before && before + after == before;
    } else {
      var n := |after| - 1;
      CountSinceReport(before, testId, after[..n], key);
      assert all[..|all| - 1] == before + [Output(testId)] + after[..n];
      assert (before + after)[..|before| + n] == before + after[..n];
    }
  }

  /** Since the last report of its test, the count is the number of sections on the diagonal. */
  lemma {:induction false} CountIsNumber(before: seq<Event>, testId: nat, after: seq<Event>, key: nat)
    requires OfTest(key, testId % 0x10_0000) && NotReported(after, key)
    ensures CountOf(before + [Output(testId)] + after, key) == |SectionsOn(after, key)|
    ensures CountOf(after, key) == |SectionsOn(after, key)|
  {
    CountSinceReport(before, testId, after, key);
    CountsSections(after, key);
  }

  lemma {:induction false} CountsSections(log: seq<Event>, key: nat)
    requires NotReported(log, key)
    ensures CountOf(log, key) == |SectionsOn(log, key)|
  {
    if log != [] {
      var n := |log| - 1;
      CountsSections(log[..n], key);
      OneMoreSection(log, key);
    }
  }

  lemma OneMoreSection(log: seq<Event>, key: nat)
    requires log != []
    ensures |SectionsOn(log, key)| ==
            |SectionsOn(log[..|log| - 1], key)| + if OnDiagonal(log[|log| - 1], key) then 1 else 0
  {
    var n := |log| - 1;
    var on := SectionsOn(log[..n], key);
    if OnDiagonal(log[n], key) {
      assert SectionsOn(log, key) == on + {n};
    } else {
      assert SectionsOn(log, key) == on;
    }
  }

  predicate OnDiagonal(e: Event, key: nat) { e.AddSection? && e.section.OffsetId() == key }

  /** The sections on a diagonal. */
  function SectionsOn(log: seq<Event>, key: nat): set<nat> {
    set i: nat | i < |log| && OnDiagonal(log[i], key)
  }

  predicate NotReported(log: seq<Event>, key: nat) {
    forall i :: 0 <= i < |log| && log[i].Output? ==> !OfTest(key, log[i].testId % 0x10_0000)
  }

  predicate Ascending(keys: seq<nat>) {
    forall i, j :: 0 <= i < j < |keys| ==> keys[i] < keys[j]
  }

  /** The diagonals of a test with enough sections, in the order of their keys. */
  ghost predicate ReportedKeys(log: seq<Event>, testId: nat, thres: nat, keys: seq<nat>) {
    && Ascending(keys)
    && forall key :: key in keys <==> OfTest(key, testId % 0x10_0000) && CountOf(log, key) > 0 && CountOf(log, key) >= thres
  }

  /** All the counts above zero, as the manager keeps them. */
  function CountMap(log: seq<Event>): map<nat, nat> {
    if log == [] then map[]
    else CountStep(CountMap(log[..|log| - 1]), log[|log| - 1])
  }

  /** A section is counted, a report forgets its test. */
  function CountStep(counts: map<nat, nat>, e: Event): map<nat, nat> {
    match e
    case AddSection(s) => Plus(counts, s.OffsetId())
    case Output(testId) => Without(counts, testId % 0x10_0000)
  }

  function Plus(counts: map<nat, nat>, key: nat): map<nat, nat> {
    counts[key := if key in counts then counts[key] + 1 else 1]
  }

  function Without(counts: map<nat, nat>, testId: nat): map<nat, nat> {
    map k | k in counts && !OfTest(k, testId) :: counts[k]
  }

  /** Named, so that only the proofs that need the counts unfold them. */
  ghost predicate Tally(log: seq<Event>, counts: map<nat, nat>) { counts == CountMap(log) }

  lemma {:induction false} CountMapIs(log: seq<Event>, key: nat)
    ensures key in CountMap(log) <==> CountOf(log, key) > 0
    ensures key in CountMap(log) ==> CountMap(log)[key] == CountOf(log, key)
  {
    if log != [] {
      CountMapIs(log[..|log| - 1], key);
    }
  }

  lemma CountMapSnoc(log: seq<Event>, e: Event)
    ensures CountMap(log + [e]) == CountStep(CountMap(log), e)
  {
    assert (log + [e])[..|log|] == log;
  }

  /** The keys of a test with enough sections. */
  function Enough(counts: map<nat, nat>, testId: nat, thres: nat): set<nat> {
    set k | k in counts && OfTest(k, testId % 0x10_0000) && counts[k] >= thres
  }

  lemma Least(s: set<nat>) returns (m: nat)
    requires s != {}
    ensures m in s && forall x :: x in s ==> m <= x
  {
    var x :| x in s;
    if s == {x} {
      m := x;
    } else {
      var rest := s - {x};
      assert rest != {} && s == rest + {x};
      m := Least(rest);
      if x < m {
        m := x;
      }
    }
  }

  lemma HasLeast(s: set<nat>)
    requires s != {}
    ensures exists m :: m in s && forall x :: x in s ==> m <= x
  {
    var m := Least(s);
  }

  ghost function LeastOf(s: set<nat>): (m: nat)
    requires s != {}
    ensures m in s && forall x :: x in s ==> m <= x
  {
    HasLeast(s);
    var m :| m in s && forall x :: x in s ==> m <= x;
    m
  }

  /** A set in ascending order. */
  ghost function Ascend(s: set<nat>): seq<nat> {
    if s == {} then [] else [LeastOf(s)] + Ascend(s - {LeastOf(s)})
  }

  lemma AscendingCons(m: nat, t: seq<nat>)
    requires Ascending(t) && forall k :: k in t ==> m < k
    ensures Ascending([m] + t)
  {
    assert forall i :: 0 <= i < |t| ==> t[i] in t;
  }

  lemma {:induction false} AscendIs(s: set<nat>)
    ensures Ascending(Ascend(s))
    ensures forall k :: k in Ascend(s) <==> k in s
  {
    if s != {} {
      var m := LeastOf(s);
      AscendIs(s - {m});
      AscendingCons(m, Ascend(s - {m}));
    }
  }

  lemma {:induction false} AscendingIsUnique(a: seq<nat>, b: seq<nat>)
    requires Ascending(a) && Ascending(b) && forall k :: k in a <==> k in b
    ensures a == b
  {
    assert |a| > 0 ==> a[0] in b;
    assert |b| > 0 ==> b[0] in a;
    if |a| > 0 {
      LastIsGreatest(a);
      LastIsGreatest(b);
      assert a[|a| - 1] in b && b[|b| - 1] in a;
      assert a[|a| - 1] == b[|b| - 1];
      var a', b' := a[..|a| - 1], b[..|b| - 1];
      forall k: nat
        ensures k in a' <==> k in b'
      {
        assert k in a' <==> k in a && k != a[|a| - 1];
        assert k in b' <==> k in b && k != b[|b| - 1];
      }
      AscendingIsUnique(a', b');
      assert a == a' + [a[|a| - 1]] && b == b' + [b[|b| - 1]];
    }
  }

  lemma LastIsGreatest(a: seq<nat>)
    requires Ascending(a) && |a| > 0
    ensures a[|a| - 1] in a && forall k :: k in a ==> k <= a[|a| - 1]
    ensures forall k :: k in a[..|a| - 1] <==> k in a && k != a[|a| - 1]
  {
  }

  /** The keys reported, as one list. */
  ghost function KeysToReport(counts: map<nat, nat>, testId: nat, thres: nat): seq<nat> {
    Ascend(Enough(counts, testId, thres))
  }

  /** They are the diagonals of the test with enough sections, in order. */
  lemma ReportedAre(log: seq<Event>, testId: nat, thres: nat)
    ensures ReportedKeys(log, testId, thres, KeysToReport(CountMap(log), testId, thres))
  {
    var keys := KeysToReport(CountMap(log), testId, thres);
    AscendIs(Enough(CountMap(log), testId, thres));
    forall key: nat
      ensures key in keys <==>
        OfTest(key, testId % 0x10_0000) && CountOf(log, key) > 0 && CountOf(log, key) >= thres
    {
      CountMapIs(log, key);
    }
  }

  function Lines(keys: seq<nat>, testId: nat, sliceLen: u8): (lines: seq<string>)
    ensures |lines| == |keys|
  {
    seq(|keys|, i requires 0 <= i < |keys| => Line(testId % 0x10_0000, keys[i], sliceLen))
  }

  class SectionManager {
    const thres: u8
    var results: map<nat, nat>
    ghost var log: seq<Event>

    constructor (thres: u8)
      ensures Valid() && this.thres == thres && log == []
    {
      this.thres, results, log := thres, map[], [];
    }

    ghost predicate Valid()
      reads this
    {
      forall counts :: Tally(log, counts) ==> results == counts
    }

    /** `add_section`. */
    method AddSection(s: Section)
      requires Valid()
      modifies this
      ensures Valid() && log == old(log) + [Event.AddSection(s)]
    {
      assert Tally(log, CountMap(log));
      var key := s.OffsetId();
      results := results[key := if key in results then results[key] + 1 else 1];
      CountMapSnoc(log, Event.AddSection(s));
      log := log + [Event.AddSection(s)];
    }

    /** `std::map::lower_bound`. */
    method LowerBound(from: nat) returns (found: bool, key: nat)
      ensures found ==> key in results && from <= key && forall k :: k in results && from <= k ==> key <= k
      ensures !found ==> forall k :: k in results ==> k < from
    {
      found, key := false, 0;
      var keys := results.Keys;
      while keys != {}
        invariant keys <= results.Keys
        invariant found ==> key in results && from <= key
        invariant forall k :: k in results && from <= k ==> k in keys || (found && key <= k)
        decreases keys
      {
        var k :| k in keys;
        if from <= k && (!found || k < key) {
          found, key := true, k;
        }
        keys := keys - {k};
      }
    }

    /** `xml_results`. */
    method XmlResults(testId: nat, sliceLen: u8) returns (lines: seq<string>)
      requires Valid()
      ensures lines == Lines(KeysToReport(CountMap(log), testId, thres), testId, sliceLen)
    {
      assert Tally(log, CountMap(log));
      var id := testId % 0x10_0000;
      var first, end := id * 0x1_0000_0000, (id + 1) * 0x1_0000_0000;
      lines := [];
      ghost var keys: seq<nat> := [];
      var found, p := LowerBound(first);
      while found && p < end
        invariant found ==> p in results
        invariant Ascending(keys) && lines == Lines(keys, testId, sliceLen)
        invariant forall k: nat :: k in keys <==>
          OfTest(k, id) && k in results && results[k] >= thres && (found ==> k < p)
        decreases if found && p < end then end - p else 0
      {
        assert forall i :: 0 <= i < |keys| ==> keys[i] in keys;
        if results[p] >= thres {
          lines, keys := lines + [Line(id, p, sliceLen)], keys + [p];
        }
        found, p := LowerBound(p + 1);
      }
      AscendIs(Enough(results, testId, thres));
      AscendingIsUnique(keys, KeysToReport(results, testId, thres));
    }

    /** `delete_results`. */
    method DeleteResults(testId: nat)
      requires Valid()
      modifies this
      ensures Valid() && log == old(log) + [Output(testId)]
    {
      assert Tally(log, CountMap(log));
      var id := testId % 0x10_0000;
      results := map k | k in results && !OfTest(k, id) :: results[k];
      CountMapSnoc(log, Output(testId));
      log := log + [Output(testId)];
    }
  }

  // -------------------------------------------------------------------------
  // Sending the lines of a report (`ResultPacket`).

  const MAX_LEN := 1380
  const MAX_LINES := 12

  /** A packet as sent: its length and number (both sent in network byte order), and its text. */
  datatype Report = Report(msgLen: u16, reportId: u16, text: string)

  function Joined(lines: seq<string>): string {
    if lines == [] then "" else Joined(lines[..|lines| - 1]) + lines[|lines| - 1]
  }

  lemma JoinedSnoc(lines: seq<string>, line: string)
    ensures Joined(lines + [line]) == Joined(lines) + line
  {
    assert (lines + [line])[..|lines|] == lines;
  }

  lemma FrontThenLast<T>(a: seq<T>, b: seq<T>)
    requires b != []
    ensures a + b[..|b| - 1] + [b[|b| - 1]] == a + b
  {
  }

  lemma StringsAssociate(a: string, b: string, c: string)
    ensures a + b + c == a + (b + c)
  {
  }

  lemma {:induction false} JoinedConcatenate(a: seq<string>, b: seq<string>)
    ensures Joined(a + b) == Joined(a) + Joined(b)
  {
    if b == [] {
      assert a + b == a;
    } else {
      var n := |b| - 1;
      JoinedConcatenate(a, b[..n]);
      FrontThenLast(a, b);
      JoinedSnoc(a + b[..n], b[n]);
      StringsAssociate(Joined(a), Joined(b[..n]), b[n]);
    }
  }

  predicate ShortLines(lines: seq<string>) {
    forall line :: line in lines ==> |line| <= 92
  }

  lemma {:induction false} JoinedLength(lines: seq<string>)
    requires ShortLines(lines)
    ensures |Joined(lines)| <= 92 * |lines|
  {
    if lines != [] {
      JoinedLength(lines[..|lines| - 1]);
    }
  }

  /** Where batch `j` begins. */
  function Cut(n: nat, j: nat): (c: nat)
    ensures c <= n
  {
    if j * 12 <= n then j * 12 else n
  }

  /** The lines of batch `j`. */
  function Batch(lines: seq<string>, j: nat): seq<string> {
    lines[Cut(|lines|, j)..Cut(|lines|, j + 1)]
  }

  /** `htons(ntohs(id) + 1)`, on the number itself. */
  function NextId(id: u16): u16 { if id == 0xFFFF then 0 else id + 1 }

  /** The number of the packet sent after `n` others. */
  function ReportId(n: nat): u16 {
    if n == 0 then 0 else NextId(ReportId(n - 1))
  }

  /** Packets are numbered from 0 modulo 65536. */
  lemma {:induction false} ReportIdsCount(n: nat)
    ensures ReportId(n) == n % 0x1_0000
  {
    if n > 0 {
      ReportIdsCount(n - 1);
      ModNext(n - 1);
    }
  }

  lemma ModNext(n: nat)
    ensures (n % 0x1_0000 + 1) % 0x1_0000 == (n + 1) % 0x1_0000
  {
  }

  /** The packet sent after `n` others, with this text. */
  function ReportOf(text: string, n: nat): Report
    requires |text| <= MAX_LEN
  {
    Report(20 + |text|, ReportId(n), text)
  }

  /** `reports` are the lines in twelves, numbered on from `id`. */
  predicate Batches(lines: seq<string>, reports: seq<Report>, id: nat) {
    && |reports| * 12 <= |lines| + 11
    && forall j :: 0 <= j < |reports| ==>
         |Joined(Batch(lines, j))| <= MAX_LEN && reports[j] == ReportOf(Joined(Batch(lines, j)), id + j)
  }

  lemma BatchesSnoc(lines: seq<string>, reports: seq<Report>, id: nat, r: Report)
    requires Batches(lines, reports, id) && |reports| * 12 < |lines|
    requires |Joined(Batch(lines, |reports|))| <= MAX_LEN
    requires r == ReportOf(Joined(Batch(lines, |reports|)), id + |reports|)
    ensures Batches(lines, reports + [r], id)
  {
  }

  function Texts(reports: seq<Report>): string {
    if reports == [] then "" else Texts(reports[..|reports| - 1]) + reports[|reports| - 1].text
  }

  lemma TextsSnoc(reports: seq<Report>, r: Report)
    ensures Texts(reports + [r]) == Texts(reports) + r.text
  {
    assert (reports + [r])[..|reports|] == reports;
  }

  lemma {:induction false} TextsConcatenate(a: seq<Report>, b: seq<Report>)
    ensures Texts(a + b) == Texts(a) + Texts(b)
  {
    if b == [] {
      assert a + b == a;
    } else {
      var n := |b| - 1;
      TextsConcatenate(a, b[..n]);
      FrontThenLast(a, b);
      TextsSnoc(a + b[..n], b[n]);
      StringsAssociate(Texts(a), Texts(b[..n]), b[n].text);
    }
  }

  lemma JoinedNext(file: string, lines: seq<string>, i: nat)
    requires i < |lines|
    ensures file + Joined(lines[..i]) + lines[i] == file + Joined(lines[..i + 1])
  {
    assert lines[..i + 1][..i] == lines[..i];
  }

  lemma NextBatch(lines: seq<string>, j: nat)
    ensures Joined(lines[..Cut(|lines|, j + 1)]) == Joined(lines[..Cut(|lines|, j)]) + Joined(Batch(lines, j))
  {
    JoinedConcatenate(lines[..Cut(|lines|, j)], Batch(lines, j));
    assert lines[..Cut(|lines|, j)] + Batch(lines, j) == lines[..Cut(|lines|, j + 1)];
  }

  lemma {:induction false} BatchTexts(lines: seq<string>, reports: seq<Report>)
    requires forall j :: 0 <= j < |reports| ==> reports[j].text == Joined(Batch(lines, j))
    ensures Texts(reports) == Joined(lines[..Cut(|lines|, |reports|)])
  {
    if reports != [] {
      var n := |reports| - 1;
      BatchTexts(lines, reports[..n]);
      NextBatch(lines, n);
    }
  }

  /** The batches carry every line, in order, and nothing else. */
  lemma BatchesCarryLines(before: seq<Report>, reports: seq<Report>, lines: seq<string>)
    requires Batches(lines, reports, |before|) && |reports| == (|lines| + 11) / 12
    ensures Texts(before + reports) == Texts(before) + Joined(lines)
  {
    BatchTexts(lines, reports);
    TextsConcatenate(before, reports);
    assert lines[..|lines|] == lines;
  }

  class ResultPacket {
    var reportId: u16
    var msgLen: u16
    var result: string
    var lines: nat
    /** The packets handed on, oldest first. */
    var sent: seq<Report>
    ghost var pending: seq<string>

    constructor ()
      ensures Valid() && pending == [] && sent == []
    {
      reportId, msgLen, result, lines := 0, 0, "", 0;
      sent, pending := [], [];
    }

    /** The packets sent so far are numbered on from 0, and the text held is that of its lines. */
    ghost predicate Valid()
      reads this
    {
      && reportId == ReportId(|sent|)
      && result == Joined(pending) && lines == |pending| <= MAX_LINES && ShortLines(pending)
    }

    /** `put_line`: an over-long text would only be logged, so callers must keep it short. */
    method PutLine(line: string)
      requires Valid() && lines < MAX_LINES && |line| <= 92
      requires |result| + |line| <= MAX_LEN
      modifies this`result, this`lines, this`pending
      ensures Valid() && pending == old(pending) + [line]
    {
      result, lines := result + line, lines + 1;
      pending := pending + [line];
      assert pending[..|pending| - 1] == old(pending);
    }

    /** `send`. */
    method Send()
      requires Valid() && |result| <= MAX_LEN
      modifies this
      ensures Valid() && pending == []
      ensures sent == old(sent) + [ReportOf(Joined(old(pending)), |old(sent)|)]
      ensures var r := sent[|old(sent)|]; r.msgLen == 20 + |r.text| && r.text == old(result)
    {
      msgLen := 20 + |result|;
      sent := sent + [Report(msgLen, reportId, result)];
      result, lines, pending := "", 0, [];
      reportId := NextId(reportId);
    }
  }

  // -------------------------------------------------------------------------
  // All that is written for a whole stream of events.

  /** The text of every report the events ask for, each of what was counted by then. */
  ghost function FileOf(log: seq<Event>, thres: nat, sliceLen: u8): string {
    if log == [] then ""
    else
      var before := log[..|log| - 1];
      FileOf(before, thres, sliceLen) + LinesFor(CountMap(before), log[|log| - 1], thres, sliceLen)
  }

  /** What one event has written. */
  ghost function LinesFor(counts: map<nat, nat>, e: Event, thres: nat, sliceLen: u8): string {
    match e
    case AddSection(_) => ""
    case Output(testId) => Joined(Lines(KeysToReport(counts, testId, thres), testId, sliceLen))
  }

  lemma FileSnoc(log: seq<Event>, e: Event, thres: nat, sliceLen: u8)
    ensures FileOf(log + [e], thres, sliceLen) == FileOf(log, thres, sliceLen) + LinesFor(CountMap(log), e, thres, sliceLen)
  {
    assert (log + [e])[..|log|] == log;
  }

  // -------------------------------------------------------------------------
  // One application: its counts, its packet and its file (`AppDomain`).

  /** What was sent is what was written, and that is what the events ask for. */
  ghost predicate Consistent(log: seq<Event>, thres: nat, sliceLen: u8, sent: seq<Report>, file: string) {
    forall text :: Asked(log, thres, sliceLen, text) ==> Texts(sent) == file == text
  }

  /** Named, so that only the proofs that need the text unfold it. */
  ghost predicate Asked(log: seq<Event>, thres: nat, sliceLen: u8, text: string) {
    text == FileOf(log, thres, sliceLen)
  }

  lemma OutputIsConsistent(log: seq<Event>, testId: nat, thres: nat, sliceLen: u8, sent: seq<Report>, file: string,
                           reports: seq<Report>)
    requires Consistent(log, thres, sliceLen, sent, file)
    requires var lines := Lines(KeysToReport(CountMap(log), testId, thres), testId, sliceLen);
             Batches(lines, reports, |sent|) && |reports| == (|lines| + 11) / 12
    ensures Consistent(log + [Output(testId)], thres, sliceLen, sent + reports,
                       file + Joined(Lines(KeysToReport(CountMap(log), testId, thres), testId, sliceLen)))
  {
    assert Asked(log, thres, sliceLen, FileOf(log, thres, sliceLen));
    FileSnoc(log, Output(testId), thres, sliceLen);
    BatchesCarryLines(sent, reports, Lines(KeysToReport(CountMap(log), testId, thres), testId, sliceLen));
  }

  lemma SectionIsConsistent(log: seq<Event>, s: Section, thres: nat, sliceLen: u8, sent: seq<Report>, file: string)
    requires Consistent(log, thres, sliceLen, sent, file)
    ensures Consistent(log + [AddSection(s)], thres, sliceLen, sent, file)
  {
    assert Asked(log, thres, sliceLen, FileOf(log, thres, sliceLen));
    FileSnoc(log, AddSection(s), thres, sliceLen);
  }

  class AppDomain {
    const secMan: SectionManager
    const resultPkt: ResultPacket
    const sliceLen: u8
    var outFile: string

    constructor (thres: u8, sliceLen: u8)
      ensures Valid() && secMan.log == [] && secMan.thres == thres && this.sliceLen == sliceLen
      ensures fresh(secMan) && fresh(resultPkt)
    {
      secMan := new SectionManager(thres);
      resultPkt := new ResultPacket();
      this.sliceLen := sliceLen;
      outFile := "";
    }

    /** Between reports nothing waits to be sent; what was sent is what was written, and that
        is what the events ask for. */
    ghost predicate Valid()
      reads this, secMan, resultPkt
    {
      && secMan.Valid() && resultPkt.Valid() && resultPkt.pending == []
      && Consistent(secMan.log, secMan.thres, sliceLen, resultPkt.sent, outFile)
    }

    /** `add_section`. */
    method AddSection(s: Section)
      requires Valid()
      modifies secMan
      ensures Valid() && secMan.log == old(secMan.log) + [Event.AddSection(s)]
    {
      SectionIsConsistent(secMan.log, s, secMan.thres, sliceLen, resultPkt.sent, outFile);
      secMan.AddSection(s);
    }

    /** `output_result`. */
    method OutputResult(testId: nat) returns (ghost reports: seq<Report>)
      requires Valid()
      modifies this, secMan, resultPkt
      ensures Valid() && secMan.log == old(secMan.log) + [Output(testId)]
      ensures var lines := Lines(KeysToReport(CountMap(old(secMan.log)), testId, secMan.thres), testId, sliceLen);
              && outFile == old(outFile) + Joined(lines)
              && |reports| == (|lines| + 11) / 12 && resultPkt.sent == old(resultPkt.sent) + reports
              && Batches(lines, reports, |old(resultPkt.sent)|)
    {
      var results := secMan.XmlResults(testId, sliceLen);
      LinesAreShort(KeysToReport(CountMap(secMan.log), testId, secMan.thres), testId, sliceLen);
      reports := SendLines(results);
      OutputIsConsistent(secMan.log, testId, secMan.thres, sliceLen, old(resultPkt.sent), old(outFile), reports);
      secMan.DeleteResults(testId);
    }

    lemma LinesAreShort(keys: seq<nat>, testId: nat, sliceLen: u8)
      ensures ShortLines(Lines(keys, testId, sliceLen))
    {
      forall i | 0 <= i < |keys|
        ensures |Lines(keys, testId, sliceLen)[i]| <= 92
      {
        LineFits(testId % 0x10_0000, keys[i], sliceLen);
      }
    }

    /** The loop of `output_result`, and the send after it. */
    method SendLines(results: seq<string>) returns (ghost reports: seq<Report>)
      requires resultPkt.Valid() && resultPkt.pending == [] && ShortLines(results)
      modifies this, resultPkt
      ensures resultPkt.Valid() && resultPkt.pending == []
      ensures outFile == old(outFile) + Joined(results)
      ensures |reports| == (|results| + 11) / 12 && resultPkt.sent == old(resultPkt.sent) + reports
      ensures Batches(results, reports, |old(resultPkt.sent)|)
    {
      ghost var before := resultPkt.sent;
      reports := PutLines(results);
      reports := SendRest(results, before, reports);
    }

    method PutLines(results: seq<string>) returns (ghost reports: seq<Report>)
      requires resultPkt.Valid() && resultPkt.pending == [] && ShortLines(results)
      modifies this, resultPkt
      ensures Progress(results, |results|, old(resultPkt.sent), reports)
      ensures outFile == old(outFile) + Joined(results)
    {
      ghost var before := resultPkt.sent;
      reports := [];
      for i := 0 to |results|
        invariant Progress(results, i, before, reports)
        invariant outFile == old(outFile) + Joined(results[..i])
      {
        JoinedNext(old(outFile), results, i);
        reports := NextLine(results[i], results, i, before, reports);
      }
      assert results[..|results|] == results;
    }

    method SendRest(ghost lines: seq<string>, ghost before: seq<Report>, ghost reports: seq<Report>)
      returns (ghost reports': seq<Report>)
      requires Progress(lines, |lines|, before, reports) && ShortLines(lines)
      modifies resultPkt
      ensures resultPkt.Valid() && resultPkt.pending == []
      ensures |reports'| == (|lines| + 11) / 12
      ensures resultPkt.sent == before + reports' && Batches(lines, reports', |before|)
    {
      reports' := reports;
      if resultPkt.lines > 0 {
        JoinedLength(resultPkt.pending);
        reports' := SendBatch(lines, reports, |before|);
      }
    }

    /** After `i` lines: the full batches are sent, the rest is held. */
    ghost predicate Progress(lines: seq<string>, i: nat, before: seq<Report>, reports: seq<Report>)
      reads resultPkt
    {
      && resultPkt.Valid() && resultPkt.sent == before + reports
      && |reports| * 12 <= i < |reports| * 12 + 12 && i <= |lines|
      && resultPkt.pending == lines[|reports| * 12..i]
      && Batches(lines, reports, |before|)
    }

    /** The body of that loop: the line goes to the file and to the packet. */
    method NextLine(line: string, ghost lines: seq<string>, ghost i: nat, ghost before: seq<Report>,
                    ghost reports: seq<Report>)
      returns (ghost reports': seq<Report>)
      requires Progress(lines, i, before, reports) && i < |lines| && line == lines[i] && ShortLines(lines)
      modifies this, resultPkt
      ensures Progress(lines, i + 1, before, reports') && outFile == old(outFile) + line
    {
      outFile := outFile + line;
      reports' := PutNext(line, lines, i, before, reports);
    }

    method PutNext(line: string, ghost lines: seq<string>, ghost i: nat, ghost before: seq<Report>,
                   ghost reports: seq<Report>)
      returns (ghost reports': seq<Report>)
      requires Progress(lines, i, before, reports) && i < |lines| && line == lines[i] && ShortLines(lines)
      modifies resultPkt
      ensures Progress(lines, i + 1, before, reports')
    {
      PutOne(line, lines, i, before, reports);
      reports' := reports;
      if resultPkt.lines >= MAX_LINES {
        JoinedLength(resultPkt.pending);
        reports' := SendBatch(lines, reports, |before|);
      }
    }

    method PutOne(line: string, ghost lines: seq<string>, ghost i: nat, ghost before: seq<Report>,
                  ghost reports: seq<Report>)
      requires Progress(lines, i, before, reports) && i < |lines| && line == lines[i] && ShortLines(lines)
      modifies resultPkt
      ensures resultPkt.Valid() && resultPkt.sent == before + reports
      ensures resultPkt.pending == lines[|reports| * 12..i + 1]
    {
      JoinedLength(resultPkt.pending);
      assert lines[|reports| * 12..i] + [line] == lines[|reports| * 12..i + 1];
      resultPkt.PutLine(line);
    }

    /** A send in that loop is of the next batch. */
    method SendBatch(ghost results: seq<string>, ghost reports: seq<Report>, ghost from: nat)
      returns (ghost reports': seq<Report>)
      requires resultPkt.Valid() && ShortLines(results) && |reports| * 12 < |results|
      requires resultPkt.pending == Batch(results, |reports|) && |resultPkt.sent| == from + |reports|
      requires Batches(results, reports, from) && |resultPkt.result| <= MAX_LEN
      modifies resultPkt
      ensures resultPkt.Valid() && resultPkt.pending == []
      ensures resultPkt.sent == old(resultPkt.sent) + [ReportOf(old(resultPkt.result), from + |reports|)]
      ensures reports' == reports + [ReportOf(old(resultPkt.result), from + |reports|)]
      ensures Batches(results, reports', from)
    {
      JoinedLength(resultPkt.pending);
      ghost var r := ReportOf(resultPkt.result, from + |reports|);
      BatchesSnoc(results, reports, from, r);
      resultPkt.Send();
      reports' := reports + [r];
    }
  }

  // -------------------------------------------------------------------------
  // Handling one packet (`MatchAnalyser::handle_packet`).

  class MatchAnalyser {

    /** The pairs of a payload, each counted or reported as it is read. */
    method HandlePairs(app: AppDomain, words: seq<word>, beyond: word)
      requires app.Valid()
      modifies app, app.secMan, app.resultPkt
      ensures app.Valid() && app.secMan.log == old(app.secMan.log) + EventsOf(words, beyond)
    {
      var cnt := 0;
      while cnt < |words|
        invariant 0 <= cnt <= |words| + 1 && app.Valid()
        invariant app.secMan.log + EventsOf(From(words, cnt), beyond) == old(app.secMan.log) + EventsOf(words, beyond)
      {
        var lb := Swap32(words[cnt]);
        var tb := if cnt + 1 < |words| then words[cnt + 1] else beyond;
        ghost var log0 := app.secMan.log;
        HandlePair(app, lb, tb);
        NextPair(words, cnt, beyond, log0);
        cnt := cnt + 2;
      }
    }

    ghost function From(words: seq<word>, cnt: nat): seq<word> {
      if cnt <= |words| then words[cnt..] else []
    }

    lemma NextPair(words: seq<word>, cnt: nat, beyond: word, log: seq<Event>)
      requires cnt < |words|
      ensures var tb := if cnt + 1 < |words| then words[cnt + 1] else beyond;
              log + EventsOf(From(words, cnt), beyond)
              == log + EventOf(Swap32(words[cnt]), tb) + EventsOf(From(words, cnt + 2), beyond)
    {
      var rest := words[cnt..];
      if |rest| > 1 {
        assert rest[2..] == words[cnt + 2..];
      }
    }

    method HandlePair(app: AppDomain, lb: word, tb: word)
      requires app.Valid()
      modifies app, app.secMan, app.resultPkt
      ensures app.Valid() && app.secMan.log == old(app.secMan.log) + EventOf(lb, tb)
    {
      if lb != 0 {
        app.AddSection(Section(tb, lb));
      } else if tb != 0 {
        ghost var reports := app.OutputResult(tb / 0x1000);
      }
    }

    /**
     * `handle_packet`: only the packet wanted from a known matcher is taken, and it is
     * then no longer wanted, even if its application is not known and its pairs are lost.
     */
    method HandlePacket(pm: Matcher?, app: AppDomain?, index: u8, words: seq<word>, beyond: word)
      returns (ghost events: seq<Event>)
      requires app != null ==> app.Valid()
      modifies pm, app, if app == null then {} else {app.secMan, app.resultPkt}
      ensures events == if pm != null && index == old(pm.resultCount) then EventsOf(words, beyond) else []
      ensures app != null ==> app.Valid() && app.secMan.log == old(app.secMan.log) + events
      ensures pm != null ==>
                pm.resultCount == if index == old(pm.resultCount) then (index + 1) % 256 else old(pm.resultCount)
      ensures pm != null ==>
                && pm.state == old(pm.state) && pm.numLoad == old(pm.numLoad)
                && pm.firstFlag == old(pm.firstFlag) && pm.bitfeatureCount == old(pm.bitfeatureCount)
      ensures app != null && (pm == null || index != old(pm.resultCount)) ==>
                unchanged(app) && unchanged(app.secMan) && unchanged(app.resultPkt)
    {
      events := [];
      if pm == null { return; }
      var wantedIdx := pm.resultCount;
      if index != wantedIdx { return; }
      pm.IncreaseResultCount();
      events := EventsOf(words, beyond);
      if app == null { return; }
      HandlePairs(app, words, beyond);
    }

    /** Packets of several matchers of one application, as they are delivered from the first
        on: those handled are the ones that pass, in the order they come. */
    method HandleRun(pms: seq<Matcher>, app: AppDomain, dels: seq<Delivery>,
                     payload: Delivery -> seq<word>, beyond: Delivery -> word)
      requires app.Valid() && AllDifferent(pms)
      requires forall i :: 0 <= i < |pms| ==> pms[i].resultCount == 0
      modifies pms, app, app.secMan, app.resultPkt
      ensures app.Valid() && Counted(pms, Counts(dels, |pms|))
      ensures app.secMan.log == old(app.secMan.log) + EventsFrom(Passed(dels, |pms|), payload, beyond)
    {
      ghost var start := app.secMan.log;
      HandleEach(pms, app, start, dels, payload, beyond);
      RunLogIs(start, dels, |pms|, payload, beyond);
    }

    method HandleEach(pms: seq<Matcher>, app: AppDomain, ghost start: seq<Event>, dels: seq<Delivery>,
                      payload: Delivery -> seq<word>, beyond: Delivery -> word)
      requires app.Valid() && AllDifferent(pms) && start == app.secMan.log
      requires Counted(pms, Counts([], |pms|))
      modifies pms, app, app.secMan, app.resultPkt
      ensures app.Valid() && Counted(pms, Counts(dels, |pms|))
      ensures app.secMan.log == RunLog(start, dels, |pms|, payload, beyond)
      decreases |dels|
    {
      if dels != [] {
        var front, d := dels[..|dels| - 1], dels[|dels| - 1];
        assert front + [d] == dels;
        HandleEach(pms, app, start, front, payload, beyond);
        HandleNext(pms, app, start, front, d, payload, beyond);
      }
    }

    /** The next delivery after others. */
    method HandleNext(pms: seq<Matcher>, app: AppDomain, ghost start: seq<Event>, ghost before: seq<Delivery>,
                      d: Delivery, payload: Delivery -> seq<word>, beyond: Delivery -> word)
      requires app.Valid() && AllDifferent(pms) && Counted(pms, Counts(before, |pms|))
      requires app.secMan.log == RunLog(start, before, |pms|, payload, beyond)
      modifies pms, app, app.secMan, app.resultPkt
      ensures app.Valid() && Counted(pms, Counts(before + [d], |pms|))
      ensures app.secMan.log == RunLog(start, before + [d], |pms|, payload, beyond)
    {
      ghost var counts := Counts(before, |pms|);
      CountsNext(before, d, |pms|);
      RunLogSnoc(start, before, d, |pms|, payload, beyond);
      HandleDelivery(pms, app, counts, d, payload(d), beyond(d));
    }

    ghost predicate AllDifferent(pms: seq<Matcher>) {
      forall i, j :: 0 <= i < j < |pms| ==> pms[i] != pms[j]
    }

    /** Every matcher's count is that of its packets that have passed. */
    ghost predicate Counted(pms: seq<Matcher>, counts: seq<nat>)
      reads pms
    {
      |counts| == |pms| && forall m :: 0 <= m < |pms| ==> pms[m].resultCount == counts[m] % 256
    }

    /** One delivery, when so many packets of each matcher have passed. */
    method HandleDelivery(pms: seq<Matcher>, app: AppDomain, ghost counts: seq<nat>, d: Delivery,
                          words: seq<word>, beyond: word)
      requires app.Valid() && AllDifferent(pms) && Counted(pms, counts)
      modifies pms, app, app.secMan, app.resultPkt
      ensures app.Valid() && Counted(pms, NextCounts(counts, d))
      ensures app.secMan.log == old(app.secMan.log) + if IsWanted(counts, d) then EventsOf(words, beyond) else []
    {
      ghost var codes := Codes(counts);
      NextWanted(codes, counts, d);
      HandleOne(pms, app, codes, d, words, beyond);
    }

    /** The matcher is found, if there is one, and its packet handled. */
    method HandleOne(pms: seq<Matcher>, app: AppDomain, ghost codes: seq<nat>, d: Delivery,
                     words: seq<word>, beyond: word)
      requires app.Valid() && AllDifferent(pms) && Keep(pms, codes)
      modifies pms, app, app.secMan, app.resultPkt
      ensures app.Valid() && Keep(pms, AfterOne(codes, d))
      ensures app.secMan.log == old(app.secMan.log) + if IsNext(codes, d) then EventsOf(words, beyond) else []
    {
      if d.sender < |pms| {
        HandleAt(pms, app, codes, d, words, beyond);
        KeepAfter(pms, codes, d);
      } else {
        ghost var more := HandlePacket(null, app, d.number % 256, words, beyond);
      }
    }

    lemma KeepAfter(pms: seq<Matcher>, codes: seq<nat>, d: Delivery)
      requires |codes| == |pms| && d.sender < |pms|
      requires pms[d.sender].resultCount ==
               if d.number % 256 == codes[d.sender] then (codes[d.sender] + 1) % 256 else codes[d.sender]
      requires forall i :: 0 <= i < |pms| && i != d.sender ==> pms[i].resultCount == codes[i]
      ensures Keep(pms, AfterOne(codes, d))
    {
    }

    /** The matcher found is the only one whose count may change. */
    method HandleAt(pms: seq<Matcher>, app: AppDomain, ghost codes: seq<nat>, d: Delivery,
                    words: seq<word>, beyond: word)
      requires app.Valid() && AllDifferent(pms) && Keep(pms, codes) && d.sender < |pms|
      modifies pms, app, app.secMan, app.resultPkt
      ensures app.Valid()
      ensures pms[d.sender].resultCount ==
              if d.number % 256 == codes[d.sender] then (codes[d.sender] + 1) % 256 else codes[d.sender]
      ensures forall i :: 0 <= i < |pms| && i != d.sender ==> pms[i].resultCount == codes[i]
      ensures app.secMan.log == old(app.secMan.log) + if IsNext(codes, d) then EventsOf(words, beyond) else []
    {
      var pm := pms[d.sender];
      assert forall i :: 0 <= i < |pms| && i != d.sender ==> pms[i] != pm;
      HandleKnown(pm, app, codes[d.sender], d, words, beyond);
    }

    method HandleKnown(pm: Matcher, app: AppDomain, ghost code: nat, d: Delivery, words: seq<word>, beyond: word)
      requires app.Valid() && pm.resultCount == code
      modifies pm, app, app.secMan, app.resultPkt
      ensures app.Valid() && pm.resultCount == if d.number % 256 == code then (code + 1) % 256 else code
      ensures app.secMan.log == old(app.secMan.log) + if d.number % 256 == code then EventsOf(words, beyond) else []
    {
      ghost var more := HandlePacket(pm, app, d.number % 256, words, beyond);
    }

    /** These are the counts kept. */
    ghost predicate Keep(pms: seq<Matcher>, codes: seq<nat>)
      reads pms
    {
      |codes| == |pms| && forall m :: 0 <= m < |pms| ==> pms[m].resultCount == codes[m]
    }

    function Codes(counts: seq<nat>): (codes: seq<nat>)
      ensures |codes| == |counts| && forall m :: 0 <= m < |counts| ==> codes[m] == counts[m] % 256
    {
      seq(|counts|, m requires 0 <= m < |counts| => counts[m] % 256)
    }

    predicate IsNext(codes: seq<nat>, d: Delivery) {
      d.sender < |codes| && d.number % 256 == codes[d.sender]
    }

    /** The counts kept after a delivery. */
    ghost function AfterOne(codes: seq<nat>, d: Delivery): (r: seq<nat>)
      ensures |r| == |codes|
    {
      if IsNext(codes, d)
      then codes[d.sender := (d.number % 256 + 1) % 256]
      else codes
    }

    /** They stay those of the packets that have passed. */
    lemma NextWanted(codes: seq<nat>, counts: seq<nat>, d: Delivery)
      requires |codes| == |counts| && forall m :: 0 <= m < |codes| ==> codes[m] == counts[m] % 256
      ensures IsWanted(counts, d) <==> IsNext(codes, d)
      ensures forall m :: 0 <= m < |codes| ==> AfterOne(codes, d)[m] == NextCounts(counts, d)[m] % 256
    {
      if d.sender < |codes| {
        NextCode(d.number, counts[d.sender]);
      }
    }

    lemma NextCode(d: nat, wanted: nat)
      ensures d % 256 == wanted % 256 <==> SameIndex(d, wanted)
      ensures (wanted % 256 + 1) % 256 == (wanted + 1) % 256
    {
    }
  }
}
