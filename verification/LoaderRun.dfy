/** The slicing loop at work: for each of its calls a matcher is chosen, the section is sent
    to it, and the load is added. */
module LoaderRuns {
  import opened Words
  import opened PacketStream
  import opened NewLib
  import opened Matchers
  import opened SectionLoader
  import opened SectionFacts
  import opened Slicing
  import opened Balance
  import opened MatcherManagers

  // -------------------------------------------------------------------------
  // One turn of the loop, and what the turns come to.

  /** The matcher chosen, the stream of the section, and the packets put for it. */
  datatype Turn = Turn(c: Matcher, stream: seq<word>, packets: seq<PacketValue>)

  /** All the packets, as the window gets them. */
  function AllPackets(turns: seq<Turn>): seq<PacketValue> {
    if turns == [] then [] else turns[0].packets + AllPackets(turns[1..])
  }

  /** Those put while the window was directed at `m`. */
  function Share(turns: seq<Turn>, m: Matcher): seq<PacketValue> {
    if turns == [] then []
    else (if turns[0].c == m then turns[0].packets else []) + Share(turns[1..], m)
  }

  /** A call that can be made to a matcher of these parameters. */
  ghost predicate Fit(call: Call, mu: nat, nwords: nat, g: nat) {
    InRange(call) && call.size == g && mu <= g < 0x1_0000 && Uniform(nwords, call.points)
  }

  function FramesOf(call: Call): seq<Feature>
    requires InRange(call)
  {
    call.points[call.pos..call.pos + call.size]
  }

  function CallStream(call: Call, mu: nat, nwords: nat): seq<word>
    requires InRange(call) && ValidUnit(mu) && mu <= call.size
  {
    SectionStream(call.vid, call.slice, FramesOf(call), mu, nwords)
  }

  ghost predicate AllFit(calls: seq<Call>, mu: nat, nwords: nat, g: nat) {
    forall i :: 0 <= i < |calls| ==> Fit(calls[i], mu, nwords, g)
  }

  /** The sections for which `m` was chosen. */
  function StreamsTo(turns: seq<Turn>, m: Matcher): seq<seq<word>> {
    if turns == [] then []
    else (if turns[0].c == m then [turns[0].stream] else []) + StreamsTo(turns[1..], m)
  }

  /** The steps of the balance machine that the turns are. */
  function StepsOf(turns: seq<Turn>): seq<Step<Matcher>> {
    if turns == [] then [] else [Choose(turns[0].c), ReadLoad, WriteLoad] + StepsOf(turns[1..])
  }

  /** The turns send the sections of the calls. */
  ghost predicate SendsCalls(turns: seq<Turn>, calls: seq<Call>, mu: nat, nwords: nat, g: nat) {
    && |turns| == |calls| && ValidUnit(mu)
    && forall i :: 0 <= i < |turns| ==>
         Fit(calls[i], mu, nwords, g) && turns[i].stream == CallStream(calls[i], mu, nwords)
  }

  /** Where a matcher is in its life: whether its first packet is still to come, and the
      number of the next. */
  datatype Mark = Mark(first: bool, count: u8)

  /** Each matcher gets the `Life` of its own sections. */
  ghost predicate LivesGoOn(turns: seq<Turn>, marks: map<Matcher, Mark>) {
    forall m :: m in marks ==> Share(turns, m) == Life(marks[m].first, marks[m].count, StreamsTo(turns, m))
  }

  function PacketsFor(mark: Mark, s: seq<word>): seq<PacketValue> {
    Packets(SectionShape(mark.first, mark.count), s)
  }

  function NextMark(mark: Mark, s: seq<word>): Mark {
    Mark(false, (mark.count + |s| / 360 + 1) % 256)
  }

  /** No load is lost: each matcher's has grown by a slice for each section sent to it. */
  lemma {:induction false} LoadsAddUp(turns: seq<Turn>, start: map<Matcher, nat>, end: map<Matcher, nat>,
                                      thres: nat, g: nat, m: Matcher)
    requires IsRun(Loads(start, Idle), StepsOf(turns), Loads(end, Idle), thres, g) && m in start
    ensures m in end && end[m] == start[m] + |StreamsTo(turns, m)| * g
  {
    if turns != [] {
      var t, rest := turns[0], turns[1..];
      assert [t] + rest == turns;
      var next := TurnEnds(t, rest, start, end, thres, g);
      LoadsAddUp(rest, next, end, thres, g, m);
      MoreTimes(|StreamsTo(rest, m)|, g);
    }
  }

  lemma MoreTimes(n: nat, g: nat)
    ensures (n + 1) * g == n * g + g
  {
  }

  /** The first turn ends with the load added, and the others go on from there. */
  lemma TurnEnds(t: Turn, rest: seq<Turn>, start: map<Matcher, nat>, end: map<Matcher, nat>, thres: nat, g: nat)
    returns (next: map<Matcher, nat>)
    requires IsRun(Loads(start, Idle), StepsOf([t] + rest), Loads(end, Idle), thres, g)
    ensures t.c in start && next == start[t.c := start[t.c] + g]
    ensures IsRun(Loads(next, Idle), StepsOf(rest), Loads(end, Idle), thres, g)
  {
    var steps := StepsOf([t] + rest);
    assert ([t] + rest)[1..] == rest;
    assert steps == [Choose(t.c), ReadLoad, WriteLoad] + StepsOf(rest);
    assert steps[1..] == [ReadLoad, WriteLoad] + StepsOf(rest);
    assert steps[1..][1..] == [WriteLoad] + StepsOf(rest);
    assert steps[1..][1..][1..] == StepsOf(rest);
    next := start[t.c := start[t.c] + g];
    var s1 := Apply(Loads(start, Idle), Choose(t.c), g);
    var s2 := Apply(s1, ReadLoad, g);
    assert s2 == Loads(start, Read(t.c, start[t.c]));
    assert IsRun(s1, steps[1..], Loads(end, Idle), thres, g);
    assert IsRun(s2, steps[1..][1..], Loads(end, Idle), thres, g);
    assert Apply(s2, WriteLoad, g) == Loads(next, Idle);
  }

  /** So from idle matchers the loads end balanced. */
  lemma WorkIsBalanced(turns: seq<Turn>, start: map<Matcher, nat>, end: map<Matcher, nat>, thres: nat, g: nat)
    requires IsRun(Loads(start, Idle), StepsOf(turns), Loads(end, Idle), thres, g)
    requires forall m :: m in start ==> start[m] == 0
    ensures Balanced(end, thres, g)
  {
    RunStaysBalanced(Loads(start, Idle), StepsOf(turns), Loads(end, Idle), thres, g);
  }

  // -------------------------------------------------------------------------
  // A turn, and then the others.

  lemma TurnIsRun(ready: map<Matcher, nat>, t: Turn, rest: seq<Turn>, end: Loads<Matcher>, thres: nat, g: nat)
    requires IsChoice(ready, t.c, thres)
    requires IsRun(Loads(Committed(ready, t.c, g), Idle), StepsOf(rest), end, thres, g)
    ensures IsRun(Loads(ready, Idle), StepsOf([t] + rest), end, thres, g)
  {
    var steps := StepsOf([t] + rest);
    assert ([t] + rest)[1..] == rest;
    assert steps[1..][1..][1..] == StepsOf(rest);
    var chosen := Apply(Loads(ready, Idle), Choose(t.c), g);
    var read := Apply(chosen, ReadLoad, g);
    assert Apply(read, WriteLoad, g) == Loads(Committed(ready, t.c, g), Idle);
    assert IsRun(read, steps[1..][1..], end, thres, g);
    assert IsRun(chosen, steps[1..], end, thres, g);
  }

  /** A turn for a matcher, and then the rest of its life. */
  lemma OwnTurn(t: Turn, rest: seq<Turn>, mark: Mark)
    requires t.packets == PacketsFor(mark, t.stream)
    requires var next := NextMark(mark, t.stream);
             Share(rest, t.c) == Life(next.first, next.count, StreamsTo(rest, t.c))
    ensures Share([t] + rest, t.c) == Life(mark.first, mark.count, StreamsTo([t] + rest, t.c))
  {
    assert ([t] + rest)[1..] == rest;
    var streams := StreamsTo(rest, t.c);
    LifeNext(mark.first, mark.count, NextMark(mark, t.stream).count, t.stream, streams);
    assert StreamsTo([t] + rest, t.c) == [t.stream] + streams;
  }

  lemma LifeNext(first: bool, start: u8, next: u8, s: seq<word>, streams: seq<seq<word>>)
    requires next == (start + |s| / 360 + 1) % 256
    ensures Life(first, start, [s] + streams) == Packets(SectionShape(first, start), s) + Life(false, next, streams)
  {
    assert ([s] + streams)[1..] == streams;
  }

  /** A turn for another. */
  lemma OthersTurn(t: Turn, rest: seq<Turn>, m: Matcher)
    requires t.c != m
    ensures Share([t] + rest, m) == Share(rest, m)
    ensures StreamsTo([t] + rest, m) == StreamsTo(rest, m)
  {
    assert ([t] + rest)[1..] == rest;
  }

  lemma LivesNext(t: Turn, rest: seq<Turn>, marks: map<Matcher, Mark>)
    requires t.c in marks
    requires t.packets == PacketsFor(marks[t.c], t.stream)
    requires LivesGoOn(rest, marks[t.c := NextMark(marks[t.c], t.stream)])
    ensures LivesGoOn([t] + rest, marks)
  {
    var marks' := marks[t.c := NextMark(marks[t.c], t.stream)];
    forall m | m in marks
      ensures Share([t] + rest, m) == Life(marks[m].first, marks[m].count, StreamsTo([t] + rest, m))
    {
      assert m in marks';
      if m == t.c {
        OwnTurn(t, rest, marks[m]);
      } else {
        OthersTurn(t, rest, m);
      }
    }
  }

  lemma SendsNext(t: Turn, rest: seq<Turn>, calls: seq<Call>, mu: nat, nwords: nat, g: nat)
    requires calls != [] && Fit(calls[0], mu, nwords, g) && SendsCalls(rest, calls[1..], mu, nwords, g)
    requires t.stream == CallStream(calls[0], mu, nwords)
    ensures SendsCalls([t] + rest, calls, mu, nwords, g)
  {
    forall i | 0 <= i < |calls|
      ensures Fit(calls[i], mu, nwords, g) && ([t] + rest)[i].stream == CallStream(calls[i], mu, nwords)
    {
      assert i > 0 ==> calls[i] == calls[1..][i - 1] && ([t] + rest)[i] == rest[i - 1];
    }
  }

  lemma PacketsNext(before: seq<PacketValue>, t: Turn, rest: seq<Turn>)
    ensures before + t.packets + AllPackets(rest) == before + AllPackets([t] + rest)
  {
    assert ([t] + rest)[1..] == rest;
  }

  // -------------------------------------------------------------------------
  // The calls of the slicing loop are such calls.

  lemma {:induction false} VideoCallsFit(rec: VideoLibRec, g: nat, k: nat, j: nat)
    requires 0 < g && k * g < 0x1_0000 && j < k
    ensures VideoCalls(rec, g, k)[j].size == g && VideoCalls(rec, g, k)[j].points == rec.points
  {
    NextMultiple(g, k - 1);
    if j < k - 1 {
      VideoCallsFit(rec, g, k - 1, j);
    }
  }

  ghost predicate SameShape(cs: seq<Call>, nwords: nat, g: nat) {
    forall i :: 0 <= i < |cs| ==> cs[i].size == g && Uniform(nwords, cs[i].points)
  }

  lemma AllCallsFit(rec: VideoLibRec, nwords: nat, g: nat)
    requires 0 < g && rec.numFrames > 0 && Uniform(nwords, rec.points)
    ensures SameShape(AllCalls(rec, g), nwords, g)
  {
    var q := Slices(rec.numFrames, g);
    SlicesBound(rec.numFrames, g, q);
    forall j | 0 <= j < q
      ensures AllCalls(rec, g)[j].size == g && Uniform(nwords, AllCalls(rec, g)[j].points)
    {
      VideoCallsFit(rec, g, q, j);
    }
  }

  lemma {:induction false} ConcatFits(css: seq<seq<Call>>, k: nat, nwords: nat, g: nat)
    requires k <= |css| && forall i :: 0 <= i < k ==> SameShape(css[i], nwords, g)
    ensures SameShape(Concat(css, k), nwords, g)
  {
    if k > 0 {
      ConcatFits(css, k - 1, nwords, g);
    }
  }

  lemma {:induction false} TimesFit(cs: seq<Call>, r: nat, nwords: nat, g: nat)
    requires SameShape(cs, nwords, g)
    ensures SameShape(Times(cs, r), nwords, g)
  {
    if r > 0 {
      TimesFit(cs, r - 1, nwords, g);
    }
  }

  /** All the calls of the loop can be made if each video has features for its slices, of the
      width of the domain, and a slice is no shorter than a merge unit. */
  lemma LoopCallsFit(videos: seq<VideoLibRec>, g: nat, r: nat, mu: nat, nwords: nat)
    requires 0 < g < 0x1_0000 && mu <= g && Announced(videos)
    requires forall i :: 0 <= i < |videos| ==> HasSlices(videos[i], g) && Uniform(nwords, videos[i].points)
    ensures AllFit(Times(LibCalls(videos, g), r), mu, nwords, g)
  {
    var css := CallsOfEach(videos, g);
    forall i | 0 <= i < |videos|
      ensures SameShape(css[i], nwords, g)
    {
      AllCallsFit(videos[i], nwords, g);
    }
    ConcatFits(css, |videos|, nwords, g);
    TimesFit(LibCalls(videos, g), r, nwords, g);
    LibCallsInRangeIff(videos, g);
    TimesInRangeIff(LibCalls(videos, g), r);
  }

  // -------------------------------------------------------------------------
  // The code.

  /** The matchers of one domain have the parameters of the domain. */
  ghost predicate Alike(mgr: MatcherManager, domain: nat, mu: nat, nwords: nat)
    reads mgr, mgr.matchers
  {
    && ValidUnit(mu) && ValidWidth(nwords)
    && forall m :: m in mgr.matchers && m.domain == domain ==> m.mergeUnit == mu && m.nbits == 32 * nwords
  }

  ghost function Marks(mgr: MatcherManager): map<Matcher, Mark>
    reads mgr, mgr.matchers
  {
    map m | m in mgr.matchers :: Mark(m.firstFlag, m.bitfeatureCount)
  }

  /** One turn: choose, send, add the load. */
  method SendCall(mgr: MatcherManager, w: OutWindow, domain: nat, thres: nat, call: Call, g: nat,
                  ghost mu: nat, ghost nwords: nat)
    returns (c: Matcher, ghost s: seq<word>)
    requires w.Valid() && Alike(mgr, domain, mu, nwords) && mgr.ReadyLoads(domain) != map[]
    requires Fit(call, mu, nwords, g)
    modifies w, w.slot, w.slot.data
    modifies (set m | m in mgr.matchers)`numLoad
    modifies (set m | m in mgr.matchers)`bitfeatureCount, (set m | m in mgr.matchers)`firstFlag
    ensures w.Valid() && OwnSlot(w, w.slot)
    ensures c in mgr.matchers && IsChoice(old(mgr.ReadyLoads(domain)), c, thres)
    ensures mgr.ReadyLoads(domain) == Committed(old(mgr.ReadyLoads(domain)), c, g)
    ensures s == CallStream(call, mu, nwords)
    ensures w.sent == old(w.sent) + PacketsFor(old(Marks(mgr)[c]), s)
    ensures Marks(mgr) == old(Marks(mgr))[c := NextMark(old(Marks(mgr)[c]), s)]
  {
    c := mgr.ChooseNextMatcherForDomain(domain, thres);
    assert c in mgr.ReadyLoads(domain);
    s := SendTo(mgr, w, c, domain, call, g, mu, nwords);
  }

  /** The section goes to the matcher, and the load is added. */
  method SendTo(mgr: MatcherManager, w: OutWindow, c: Matcher, ghost domain: nat, call: Call, g: nat,
                ghost mu: nat, ghost nwords: nat)
    returns (ghost s: seq<word>)
    requires w.Valid() && ValidUnit(mu) && ValidWidth(nwords) && Fit(call, mu, nwords, g)
    requires c in mgr.matchers && c.state == READY && c.mergeUnit == mu && c.nbits == 32 * nwords
    modifies w, w.slot, w.slot.data, c`bitfeatureCount, c`firstFlag, c`numLoad
    ensures w.Valid() && OwnSlot(w, w.slot)
    ensures mgr.ReadyLoads(domain) == Committed(old(mgr.ReadyLoads(domain)), c, g)
    ensures s == CallStream(call, mu, nwords)
    ensures w.sent == old(w.sent) + PacketsFor(old(Marks(mgr)[c]), s)
    ensures Marks(mgr) == old(Marks(mgr))[c := NextMark(old(Marks(mgr)[c]), s)]
  {
    s := SendSlice(mgr, w, c, domain, call, g, mu, nwords);
    AddLoad(mgr, c, domain, g);
  }

  /** The section goes to the matcher; no load changes yet. */
  method SendSlice(mgr: MatcherManager, w: OutWindow, c: Matcher, ghost domain: nat, call: Call, ghost g: nat,
                   ghost mu: nat, ghost nwords: nat)
    returns (ghost s: seq<word>)
    requires w.Valid() && ValidUnit(mu) && ValidWidth(nwords) && Fit(call, mu, nwords, g)
    requires c in mgr.matchers && c.state == READY && c.mergeUnit == mu && c.nbits == 32 * nwords
    modifies w, w.slot, w.slot.data, c`bitfeatureCount, c`firstFlag
    ensures w.Valid() && OwnSlot(w, w.slot)
    ensures mgr.ReadyLoads(domain) == old(mgr.ReadyLoads(domain))
    ensures s == CallStream(call, mu, nwords)
    ensures w.sent == old(w.sent) + PacketsFor(old(Marks(mgr)[c]), s)
    ensures Marks(mgr) == old(Marks(mgr))[c := NextMark(old(Marks(mgr)[c]), s)]
  {
    var slice := Slice(call.vid, call.slice, FramesOf(call));
    assert CanSend(slice, mu, nwords) && slice.frames != [];
    s := LoadOne(w, c, slice, mu, nwords);
    assert NextMark(old(Marks(mgr)[c]), s) == Mark(c.firstFlag, c.bitfeatureCount);
  }

  method AddLoad(mgr: MatcherManager, c: Matcher, ghost domain: nat, g: nat)
    requires c in mgr.matchers
    modifies c`numLoad
    ensures mgr.ReadyLoads(domain) == Committed(old(mgr.ReadyLoads(domain)), c, g)
    ensures Marks(mgr) == old(Marks(mgr))
  {
    mgr.CommitLoad(c, g);
  }

  /** All turns, while no matcher enters or leaves and the timer does not reduce a load: they
      are a run of the balance machine, and each matcher gets the `Life` of its own calls. */
  method SendCalls(mgr: MatcherManager, w: OutWindow, domain: nat, thres: nat, calls: seq<Call>, g: nat,
                   ghost mu: nat, ghost nwords: nat)
    returns (ghost turns: seq<Turn>)
    requires w.Valid() && Alike(mgr, domain, mu, nwords) && mgr.ReadyLoads(domain) != map[]
    requires AllFit(calls, mu, nwords, g)
    modifies w, w.slot, w.slot.data
    modifies (set m | m in mgr.matchers)`numLoad
    modifies (set m | m in mgr.matchers)`bitfeatureCount, (set m | m in mgr.matchers)`firstFlag
    ensures w.Valid() && w.sent == old(w.sent) + AllPackets(turns)
    ensures IsRun(Loads(old(mgr.ReadyLoads(domain)), Idle), StepsOf(turns), Loads(mgr.ReadyLoads(domain), Idle), thres, g)
    ensures SendsCalls(turns, calls, mu, nwords, g)
    ensures LivesGoOn(turns, old(Marks(mgr)))
    decreases |calls|
  {
    if calls == [] {
      turns := [];
    } else {
      assert Fit(calls[0], mu, nwords, g);
      ghost var marks, ready := Marks(mgr), mgr.ReadyLoads(domain);
      var c, s := SendCall(mgr, w, domain, thres, calls[0], g, mu, nwords);
      ghost var t := Turn(c, s, PacketsFor(marks[c], s));
      ghost var rest := SendCalls(mgr, w, domain, thres, calls[1..], g, mu, nwords);
      turns := [t] + rest;
      PacketsNext(old(w.sent), t, rest);
      TurnIsRun(ready, t, rest, Loads(mgr.ReadyLoads(domain), Idle), thres, g);
      LivesNext(t, rest, marks);
      SendsNext(t, rest, calls, mu, nwords, g);
    }
  }
}
