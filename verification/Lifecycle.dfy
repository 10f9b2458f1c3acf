/** The life of matcher objects under the command thread, the connection service,
    the library service and the packet thread, interleaved step by step. A read and
    the write that follows it are separate steps wherever another thread can come
    between them. */
module Lifecycle {
  import opened Wrappers
  import opened Matchers

  /** What befalls a matcher object: it is given a state, or a connection to it is built. */
  datatype Event = Given(state: MatcherState) | Built

  /** A matcher object, with everything that ever befell it. */
  datatype Node = Node(addr: nat, state: MatcherState, hist: seq<Event>)

  /** The command thread is idle, or has found an object it will mark. */
  datatype CommandThread = CmdIdle | Marks(target: nat)

  /** The connection service is idle; tries one matcher (and has an answer); or has found
      the object it will write this state to, for WAIT_LIB_LOAD under the manager's lock. */
  datatype ConnService = ConnIdle | Connecting(id: nat, built: bool) | ConnWrites(target: nat, st: MatcherState)

  /** The library service is idle; has picked a matcher; has found the object it will write
      LIB_LOADING to; or is sending. */
  datatype LibService = LibIdle | Picked(id: nat) | LibWrites(target: nat) | Sending

  /** The packet thread is idle; has seen LIB_LOADING and will write READY; has seen
      TO_BE_COLLECTED and will write COLLECTED; or has written it and will remove. */
  datatype PacketThread = PktIdle | SawLoading(addr: nat) | SawLeaving(target: nat) | Removes(target: nat)

  /** All objects ever made (an object is its index), the list, the threads, and
      the addresses a connection was built to. */
  datatype System = System(
    nodes: seq<Node>, list: set<nat>,
    cmd: CommandThread, conn: ConnService, lib: LibService, pkt: PacketThread,
    builtTo: set<nat>)

  datatype Step =
    | AddNode(addr: nat)
    | RemoveNode(addr: nat)
    | MarkWrite
    | ConnPick(id: nat)
    | ConnReply(addr: nat)
    | ConnFinish
    | ConnWrite
    | LibPick(id: nat)
    | LibStart
    | LibWrite
    | LibDone
    | WannaQuit(addr: nat)
    | Quited(addr: nat)
    | CollectWrite
    | CollectRemove
    | LibEndCheck(addr: nat)
    | LibEndWrite

  const EMPTY := System([], {}, CmdIdle, ConnIdle, LibIdle, PktIdle, {})

  /** Object `id` is in the list at this address. */
  predicate FoundAt(s: System, id: nat, addr: nat) {
    id < |s.nodes| && id in s.list && s.nodes[id].addr == addr
  }

  ghost predicate Present(s: System, addr: nat) {
    exists id: nat :: FoundAt(s, id, addr)
  }

  /** `find`: by address. */
  ghost function Find(s: System, addr: nat): (r: Option<nat>)
    ensures r.Some? ==> FoundAt(s, r.value, addr)
    ensures r == None <==> !Present(s, addr)
  {
    if Present(s, addr) then
      var id: nat :| FoundAt(s, id, addr);
      Some(id)
    else None
  }

  function Give(n: Node, st: MatcherState): Node {
    n.(state := st, hist := n.hist + [Given(st)])
  }

  function Answer(n: Node): Node {
    n.(hist := n.hist + [Built])
  }

  /** `set_state` of one object, in the list or not. */
  function Write(s: System, id: nat, st: MatcherState): System {
    if id < |s.nodes| then s.(nodes := s.nodes[id := Give(s.nodes[id], st)]) else s
  }

  /** Find and write in one step, for the thread that alone removes matchers: what it finds
      stays there until it writes. */
  ghost function WriteAt(s: System, addr: nat, st: MatcherState): System {
    match Find(s, addr)
    case Some(id) => Write(s, id, st)
    case None => s
  }

  /** `connect_matcher` is between its test and its write, and holds the manager's lock. */
  predicate Locked(s: System) {
    s.conn.ConnWrites? && s.conn.st == WAIT_LIB_LOAD
  }

  ghost predicate Enabled(s: System, step: Step) {
    match step
    case AddNode(_) => s.cmd == CmdIdle && !Locked(s)
    case RemoveNode(_) => s.cmd == CmdIdle
    case MarkWrite => s.cmd.Marks?
    case ConnPick(id) => s.conn == ConnIdle && id < |s.nodes| && id in s.list && s.nodes[id].state == UNCONNECTED
    case ConnReply(_) => s.pkt == PktIdle
    case ConnFinish => s.conn.Connecting? && s.conn.id < |s.nodes|
    case ConnWrite => s.conn.ConnWrites?
    case LibPick(id) => s.lib == LibIdle && id < |s.nodes| && id in s.list && s.nodes[id].state == WAIT_LIB_LOAD
    case LibStart => s.lib.Picked? && s.lib.id < |s.nodes|
    case LibWrite => s.lib.LibWrites?
    case LibDone => s.lib.Sending?
    case WannaQuit(_) => s.pkt == PktIdle
    case Quited(_) => s.pkt == PktIdle
    case CollectWrite => s.pkt.SawLeaving?
    case CollectRemove => s.pkt.Removes? && !Locked(s)
    case LibEndCheck(_) => s.pkt == PktIdle
    case LibEndWrite => s.pkt.SawLoading?
  }

  /** What `do_build_connection` does at its end, up to its write: with an answer, only an
      unconnected matcher goes on; without one, whatever stands at the address has failed. */
  ghost function Finished(s: System): ConnService
    requires s.conn.Connecting? && s.conn.id < |s.nodes|
  {
    match Find(s, s.nodes[s.conn.id].addr)
    case None => ConnIdle
    case Some(x) =>
      if !s.conn.built then ConnWrites(x, FAIL_CONNECT)
      else if s.nodes[x].state == UNCONNECTED then ConnWrites(x, WAIT_LIB_LOAD)
      else ConnIdle
  }

  /** `find` and the test of the state found. */
  ghost predicate StateAt(s: System, addr: nat, st: MatcherState) {
    Present(s, addr) && s.nodes[Find(s, addr).value].state == st
  }

  ghost function Apply(s: System, step: Step): System
    requires Enabled(s, step)
  {
    match step
    case AddNode(addr) =>
      if Present(s, addr) then s
      else s.(nodes := s.nodes + [Node(addr, UNCONNECTED, [Given(UNCONNECTED)])], list := s.list + {|s.nodes|})
    case RemoveNode(addr) => if Present(s, addr) then s.(cmd := Marks(Find(s, addr).value)) else s
    case MarkWrite => Write(s, s.cmd.target, TO_BE_COLLECTED).(cmd := CmdIdle)
    case ConnPick(id) => s.(conn := Connecting(id, false))
    case ConnReply(addr) =>
      if s.conn.Connecting? && s.conn.id < |s.nodes| && s.nodes[s.conn.id].addr == addr then
        s.(nodes := s.nodes[s.conn.id := Answer(s.nodes[s.conn.id])],
           conn := Connecting(s.conn.id, true), builtTo := s.builtTo + {addr})
      else s
    case ConnFinish => s.(conn := Finished(s))
    case ConnWrite => Write(s, s.conn.target, s.conn.st).(conn := ConnIdle)
    case LibPick(id) => s.(lib := Picked(id))
    case LibStart =>
      var addr := s.nodes[s.lib.id].addr;
      s.(lib := if Present(s, addr) then LibWrites(Find(s, addr).value) else Sending)
    case LibWrite => Write(s, s.lib.target, LIB_LOADING).(lib := Sending)
    case LibDone => s.(lib := LibIdle)
    case WannaQuit(addr) => WriteAt(s, addr, TO_BE_COLLECTED)
    case Quited(addr) => if StateAt(s, addr, TO_BE_COLLECTED) then s.(pkt := SawLeaving(Find(s, addr).value)) else s
    case CollectWrite => Write(s, s.pkt.target, COLLECTED).(pkt := Removes(s.pkt.target))
    case CollectRemove => s.(list := s.list - {s.pkt.target}, pkt := PktIdle)
    case LibEndCheck(addr) => if StateAt(s, addr, LIB_LOADING) then s.(pkt := SawLoading(addr)) else s
    case LibEndWrite => WriteAt(s, s.pkt.addr, READY).(pkt := PktIdle)
  }

  // -------------------------------------------------------------------------
  // What every interleaving keeps.

  /** Before every `later` there is a `first`. */
  ghost predicate Preceded(hist: seq<Event>, first: Event, later: Event) {
    forall j :: 0 <= j < |hist| && hist[j] == later ==> first in hist[..j]
  }

  /** The last state given. */
  predicate InState(hist: seq<Event>, st: MatcherState) {
    && hist != []
    && var n := |hist| - 1;
       hist[n] == Given(st) || (hist[n] == Built && InState(hist[..n], st))
  }

  lemma {:induction false} InStateGiven(hist: seq<Event>, st: MatcherState)
    requires InState(hist, st)
    ensures Given(st) in hist
  {
    var n := |hist| - 1;
    if hist[n] == Built {
      InStateGiven(hist[..n], st);
    }
  }

  ghost predicate NodeInv(n: Node, builtTo: set<nat>) {
    && InState(n.hist, n.state)
    && n.hist[0] == Given(UNCONNECTED)
    && (forall j :: 0 < j < |n.hist| ==> n.hist[j] != Given(UNCONNECTED))
    && Preceded(n.hist, Given(LIB_LOADING), Given(READY))
    && (Given(WAIT_LIB_LOAD) in n.hist || Built in n.hist ==> n.addr in builtTo)
  }

  ghost predicate ListInv(s: System) {
    && (forall x :: x in s.list ==> x < |s.nodes|)
    && (forall x, y :: x in s.list && y in s.list && x != y ==> s.nodes[x].addr != s.nodes[y].addr)
  }

  /** Some object of this address in the list was sent its library. */
  ghost predicate LoadedAt(s: System, addr: nat) {
    exists id: nat :: FoundAt(s, id, addr) && Given(LIB_LOADING) in s.nodes[id].hist
  }

  ghost predicate ThreadInv(s: System) {
    && (s.cmd.Marks? ==> s.cmd.target < |s.nodes|)
    && (s.conn.Connecting? ==>
          s.conn.id < |s.nodes| && (s.conn.built ==> s.nodes[s.conn.id].addr in s.builtTo))
    && (s.conn.ConnWrites? ==>
          && s.conn.target < |s.nodes| && (s.conn.st == FAIL_CONNECT || s.conn.st == WAIT_LIB_LOAD)
          && (Locked(s) ==> s.conn.target in s.list && s.nodes[s.conn.target].addr in s.builtTo))
    && (s.lib.Picked? ==> s.lib.id < |s.nodes|)
    && (s.lib.LibWrites? ==> s.lib.target < |s.nodes|)
    && (s.pkt.SawLoading? ==> LoadedAt(s, s.pkt.addr))
    && (s.pkt.SawLeaving? || s.pkt.Removes? ==> s.pkt.target in s.list)
  }

  ghost predicate Inv(s: System) {
    && ListInv(s)
    && (forall id :: 0 <= id < |s.nodes| ==> NodeInv(s.nodes[id], s.builtTo))
    && ThreadInv(s)
  }

  /** At most one object is found at an address. */
  lemma FindIs(s: System, id: nat, addr: nat)
    requires ListInv(s) && FoundAt(s, id, addr)
    ensures Find(s, addr) == Some(id)
  {
  }

  lemma PrecededSnoc(hist: seq<Event>, e: Event, first: Event, later: Event)
    requires Preceded(hist, first, later)
    ensures Preceded(hist + [e], first, later) <==> (e == later ==> first in hist)
  {
    var h := hist + [e];
    assert h[..|hist|] == hist && h[|hist|] == e;
    forall j | 0 <= j < |hist|
      ensures h[..j] == hist[..j] && h[j] == hist[j]
    {
    }
  }

  lemma GiveKeeps(n: Node, st: MatcherState, builtTo: set<nat>)
    requires NodeInv(n, builtTo) && st != UNCONNECTED
    requires st == READY ==> Given(LIB_LOADING) in n.hist
    requires st == WAIT_LIB_LOAD ==> n.addr in builtTo
    ensures NodeInv(Give(n, st), builtTo)
  {
    PrecededSnoc(n.hist, Given(st), Given(LIB_LOADING), Given(READY));
  }

  lemma AnswerKeeps(n: Node, builtTo: set<nat>)
    requires NodeInv(n, builtTo)
    ensures NodeInv(Answer(n), builtTo + {n.addr})
  {
    PrecededSnoc(n.hist, Built, Given(LIB_LOADING), Given(READY));
    assert Answer(n).hist[..|n.hist|] == n.hist;
  }

  /** A write keeps everything if the object may be given the state. */
  lemma WriteKeeps(s: System, id: nat, st: MatcherState)
    requires Inv(s) && id < |s.nodes| && st != UNCONNECTED
    requires st == READY ==> Given(LIB_LOADING) in s.nodes[id].hist
    requires st == WAIT_LIB_LOAD ==> s.nodes[id].addr in s.builtTo
    ensures Inv(Write(s, id, st))
  {
    var r := Write(s, id, st);
    GiveKeeps(s.nodes[id], st, s.builtTo);
    if s.pkt.SawLoading? {
      var x: nat :| FoundAt(s, x, s.pkt.addr) && Given(LIB_LOADING) in s.nodes[x].hist;
      assert FoundAt(r, x, s.pkt.addr) && Given(LIB_LOADING) in r.nodes[x].hist;
    }
  }

  lemma AddKeeps(s: System, addr: nat)
    requires Inv(s) && !Present(s, addr) && Enabled(s, AddNode(addr))
    ensures Inv(Apply(s, AddNode(addr)))
  {
    var r := Apply(s, AddNode(addr));
    forall x | x in s.list
      ensures s.nodes[x].addr != addr
    {
      assert FoundAt(s, x, s.nodes[x].addr);
    }
    if s.pkt.SawLoading? {
      var x: nat :| FoundAt(s, x, s.pkt.addr) && Given(LIB_LOADING) in s.nodes[x].hist;
      assert FoundAt(r, x, s.pkt.addr) && Given(LIB_LOADING) in r.nodes[x].hist;
    }
  }

  lemma ReplyKeeps(s: System, addr: nat)
    requires Inv(s) && s.pkt == PktIdle
    ensures Inv(Apply(s, ConnReply(addr)))
  {
    var r := Apply(s, ConnReply(addr));
    forall id | 0 <= id < |r.nodes|
      ensures NodeInv(r.nodes[id], r.builtTo)
    {
      if r.nodes[id] != s.nodes[id] {
        AnswerKeeps(s.nodes[id], s.builtTo);
      }
    }
  }

  lemma EndKeeps(s: System)
    requires Inv(s) && s.pkt.SawLoading?
    ensures Inv(Apply(s, LibEndWrite))
  {
    var x := LoadedIs(s);
    WriteKeeps(s, x, READY);
    IdleKeeps(Write(s, x, READY));
    assert Apply(s, LibEndWrite) == Write(s, x, READY).(pkt := PktIdle);
  }

  lemma LoadedIs(s: System) returns (x: nat)
    requires Inv(s) && s.pkt.SawLoading?
    ensures Find(s, s.pkt.addr) == Some(x) && x < |s.nodes| && Given(LIB_LOADING) in s.nodes[x].hist
  {
    x :| FoundAt(s, x, s.pkt.addr) && Given(LIB_LOADING) in s.nodes[x].hist;
    FindIs(s, x, s.pkt.addr);
  }

  lemma IdleKeeps(s: System)
    requires Inv(s)
    ensures Inv(s.(pkt := PktIdle))
  {
  }

  lemma CheckKeeps(s: System, addr: nat)
    requires Inv(s) && s.pkt == PktIdle && StateAt(s, addr, LIB_LOADING)
    ensures LoadedAt(s, addr)
  {
    var x := Find(s, addr).value;
    InStateGiven(s.nodes[x].hist, LIB_LOADING);
    assert FoundAt(s, x, addr);
  }

  /** The steps that write a state. */
  predicate Writes(step: Step) {
    step.MarkWrite? || step.ConnWrite? || step.LibWrite? || step.WannaQuit? || step.CollectWrite? || step.LibEndWrite?
  }

  lemma WritingKeepsInv(s: System, step: Step)
    requires Inv(s) && Enabled(s, step) && Writes(step)
    ensures Inv(Apply(s, step))
  {
    match step
    case MarkWrite => WriteKeeps(s, s.cmd.target, TO_BE_COLLECTED);
    case ConnWrite => WriteKeeps(s, s.conn.target, s.conn.st);
    case LibWrite => WriteKeeps(s, s.lib.target, LIB_LOADING);
    case WannaQuit(addr) =>
      if Present(s, addr) {
        WriteKeeps(s, Find(s, addr).value, TO_BE_COLLECTED);
      }
    case CollectWrite => WriteKeeps(s, s.pkt.target, COLLECTED);
    case LibEndWrite => EndKeeps(s);
  }

  /** The steps in which a thread only looks, or takes a matcher off the list. */
  lemma LookingKeepsInv(s: System, step: Step)
    requires Inv(s) && Enabled(s, step) && !Writes(step) && !step.AddNode? && !step.ConnReply?
    ensures Inv(Apply(s, step))
  {
    if step.LibEndCheck? && StateAt(s, step.addr, LIB_LOADING) {
      CheckKeeps(s, step.addr);
    }
  }

  lemma StepKeepsInv(s: System, step: Step)
    requires Inv(s) && Enabled(s, step)
    ensures Inv(Apply(s, step))
  {
    if Writes(step) {
      WritingKeepsInv(s, step);
    } else if step.AddNode? {
      if !Present(s, step.addr) {
        AddKeeps(s, step.addr);
      }
    } else if step.ConnReply? {
      ReplyKeeps(s, step.addr);
    } else {
      LookingKeepsInv(s, step);
    }
  }

  ghost predicate IsRun(s: System, steps: seq<Step>, end: System)
    decreases |steps|
  {
    if steps == [] then s == end
    else Enabled(s, steps[0]) && IsRun(Apply(s, steps[0]), steps[1..], end)
  }

  /** In every interleaving addresses in the list stay unique, no object becomes
      UNCONNECTED again, an object given READY was given LIB_LOADING before, and a
      connection was built to the address of any object that ever waited. */
  lemma {:induction false} RunKeepsInv(s: System, steps: seq<Step>, end: System)
    requires Inv(s) && IsRun(s, steps, end)
    ensures Inv(end)
    decreases |steps|
  {
    if steps != [] {
      StepKeepsInv(s, steps[0]);
      RunKeepsInv(Apply(s, steps[0]), steps[1..], end);
    }
  }

  lemma {:induction false} RunSnoc(s: System, steps: seq<Step>, m: System, step: Step)
    requires IsRun(s, steps, m) && Enabled(m, step)
    ensures IsRun(s, steps + [step], Apply(m, step))
    decreases |steps|
  {
    if steps == [] {
      assert [step][1..] == [];
    } else {
      RunSnoc(Apply(s, steps[0]), steps[1..], m, step);
      assert (steps + [step])[1..] == steps[1..] + [step];
    }
  }

  // -------------------------------------------------------------------------
  // The path to READY: connection built, waiting, loading.

  /** Every object sent its library waited for it before. */
  ghost predicate Waited(s: System) {
    forall id :: 0 <= id < |s.nodes| ==> Preceded(s.nodes[id].hist, Given(WAIT_LIB_LOAD), Given(LIB_LOADING))
  }

  /** Every object that waited had a connection to itself built before. */
  ghost predicate Connected(s: System) {
    forall id :: 0 <= id < |s.nodes| ==> Preceded(s.nodes[id].hist, Built, Given(WAIT_LIB_LOAD))
  }

  /** The library service has picked a matcher of this address that has left the list. */
  ghost predicate LibHolds(s: System, addr: nat) {
    s.lib.Picked? && s.lib.id < |s.nodes| && s.nodes[s.lib.id].addr == addr && !Present(s, addr)
  }

  /** The connection service is at a matcher of this address that has left the list. */
  ghost predicate ConnHolds(s: System, addr: nat) {
    s.conn.Connecting? && s.conn.id < |s.nodes| && s.nodes[s.conn.id].addr == addr && !Present(s, addr)
  }

  /** Which of the two services' addresses a caller keeps off when it adds nodes. */
  datatype Guard = Guard(lib: bool, conn: bool)

  const NO_GUARD := Guard(false, false)
  const LIB_GUARD := Guard(true, false)
  const CONN_GUARD := Guard(false, true)
  const BOTH_GUARDS := Guard(true, true)

  ghost predicate Guarded(s: System, step: Step, guard: Guard) {
    step.AddNode? ==>
      && (guard.lib ==> !LibHolds(s, step.addr))
      && (guard.conn ==> !ConnHolds(s, step.addr))
  }

  ghost predicate IsGuardedRun(s: System, steps: seq<Step>, end: System, guard: Guard)
    decreases |steps|
  {
    if steps == [] then s == end
    else
      && Enabled(s, steps[0]) && Guarded(s, steps[0], guard)
      && IsGuardedRun(Apply(s, steps[0]), steps[1..], end, guard)
  }

  /** What the library service picked is still what stands at its address, and what it is
      about to write to has waited. */
  ghost predicate PickStands(s: System) {
    && (s.lib.Picked? ==>
          && s.lib.id < |s.nodes|
          && Given(WAIT_LIB_LOAD) in s.nodes[s.lib.id].hist
          && (forall x: nat :: FoundAt(s, x, s.nodes[s.lib.id].addr) ==> x == s.lib.id))
    && (s.lib.LibWrites? ==> s.lib.target < |s.nodes| && Given(WAIT_LIB_LOAD) in s.nodes[s.lib.target].hist)
  }

  /** The object the connection service works for, likewise. */
  ghost predicate BuilderStands(s: System) {
    && (s.conn.Connecting? ==>
          && s.conn.id < |s.nodes|
          && (s.conn.built ==> Built in s.nodes[s.conn.id].hist)
          && (forall x: nat :: FoundAt(s, x, s.nodes[s.conn.id].addr) ==> x == s.conn.id))
    && (Locked(s) ==> s.conn.target < |s.nodes| && Built in s.nodes[s.conn.target].hist)
  }

  /** What is in the list after a step was there before, or was added at an address nobody had. */
  lemma ListedAfter(s: System, step: Step, x: nat)
    requires Inv(s) && Enabled(s, step) && x in Apply(s, step).list
    ensures var r := Apply(s, step);
            if x < |s.nodes| then x in s.list && r.nodes[x].addr == s.nodes[x].addr
            else x < |r.nodes| && step.AddNode? && r.nodes[x].addr == step.addr && !Present(s, step.addr)
  {
  }

  lemma SameAddresses(s: System, step: Step)
    requires Inv(s) && Enabled(s, step)
    ensures |s.nodes| <= |Apply(s, step).nodes|
    ensures forall id :: 0 <= id < |s.nodes| ==> Apply(s, step).nodes[id].addr == s.nodes[id].addr
  {
  }

  /** If one object stands at its address, so it does after a step that adds none there. */
  lemma StillStands(s: System, step: Step, id: nat)
    requires Inv(s) && Enabled(s, step) && id < |s.nodes|
    requires forall x: nat :: FoundAt(s, x, s.nodes[id].addr) ==> x == id
    requires step.AddNode? && !Present(s, step.addr) ==> step.addr != s.nodes[id].addr
    ensures forall x: nat :: FoundAt(Apply(s, step), x, s.nodes[id].addr) ==> x == id
  {
    forall x: nat | FoundAt(Apply(s, step), x, s.nodes[id].addr)
      ensures x == id
    {
      ListedAfter(s, step, x);
      if x < |s.nodes| {
        assert FoundAt(s, x, s.nodes[id].addr);
      }
    }
  }

  lemma PicksStand(s: System, step: Step, guard: Guard)
    requires Inv(s) && PickStands(s) && Enabled(s, step) && Guarded(s, step, guard) && guard.lib
    ensures PickStands(Apply(s, step))
  {
    match step
    case LibPick(id) => InStateGiven(s.nodes[id].hist, WAIT_LIB_LOAD);
    case LibStart => StartStands(s);
    case LibWrite =>
    case LibDone =>
    case _ =>
      EventsStay(s, step, Given(WAIT_LIB_LOAD));
      if s.lib.Picked? {
        StillStands(s, step, s.lib.id);
      }
  }

  lemma StartStands(s: System)
    requires Inv(s) && PickStands(s) && Enabled(s, LibStart)
    ensures PickStands(Apply(s, LibStart))
  {
    var addr := s.nodes[s.lib.id].addr;
    if Present(s, addr) {
      assert FoundAt(s, Find(s, addr).value, addr);
    }
  }

  /** What befell an object has befallen it for good. */
  lemma EventsStay(s: System, step: Step, e: Event)
    requires Inv(s) && Enabled(s, step)
    ensures |s.nodes| <= |Apply(s, step).nodes|
    ensures forall id :: 0 <= id < |s.nodes| ==>
              && Apply(s, step).nodes[id].addr == s.nodes[id].addr
              && (e in s.nodes[id].hist ==> e in Apply(s, step).nodes[id].hist)
  {
  }

  lemma BuildersStand(s: System, step: Step, guard: Guard)
    requires Inv(s) && BuilderStands(s) && Enabled(s, step) && Guarded(s, step, guard) && guard.conn
    ensures BuilderStands(Apply(s, step))
  {
    match step
    case ConnPick(id) =>
    case ConnFinish => FinishStands(s);
    case ConnWrite =>
    case ConnReply(addr) => ReplyStands(s, addr);
    case _ => BuilderUnmoved(s, step);
  }

  lemma ReplyStands(s: System, addr: nat)
    requires Inv(s) && BuilderStands(s) && Enabled(s, ConnReply(addr))
    ensures BuilderStands(Apply(s, ConnReply(addr)))
  {
    if s.conn.Connecting? {
      StillStands(s, ConnReply(addr), s.conn.id);
    }
  }

  lemma BuilderUnmoved(s: System, step: Step)
    requires Inv(s) && BuilderStands(s) && Enabled(s, step)
    requires !step.ConnPick? && !step.ConnReply? && step != ConnFinish && step != ConnWrite
    requires step.AddNode? && !Present(s, step.addr) ==> !ConnHolds(s, step.addr)
    ensures BuilderStands(Apply(s, step))
  {
    EventsStay(s, step, Built);
    if s.conn.Connecting? {
      StillStands(s, step, s.conn.id);
    }
  }

  lemma FinishStands(s: System)
    requires Inv(s) && BuilderStands(s) && Enabled(s, ConnFinish)
    ensures BuilderStands(Apply(s, ConnFinish))
  {
    var addr := s.nodes[s.conn.id].addr;
    if Present(s, addr) {
      assert FoundAt(s, Find(s, addr).value, addr);
    }
  }

  /** Every step adds at most one event to an object. */
  lemma OneEvent(s: System, step: Step, id: nat) returns (e: Event)
    requires Inv(s) && Enabled(s, step) && id < |s.nodes|
    ensures var r := Apply(s, step);
            && |s.nodes| <= |r.nodes|
            && (r.nodes[id].hist == s.nodes[id].hist || r.nodes[id].hist == s.nodes[id].hist + [e])
    ensures e == Given(LIB_LOADING) ==> step.LibWrite? && s.lib.target == id
    ensures e == Given(WAIT_LIB_LOAD) ==> step.ConnWrite? && Locked(s) && s.conn.target == id
  {
    e := match step
      case MarkWrite => Given(TO_BE_COLLECTED)
      case ConnWrite => if s.conn.target == id then Given(s.conn.st) else Built
      case LibWrite => if s.lib.target == id then Given(LIB_LOADING) else Built
      case WannaQuit(_) => Given(TO_BE_COLLECTED)
      case CollectWrite => Given(COLLECTED)
      case LibEndWrite => Given(READY)
      case _ => Built;
  }

  lemma StepKeepsWaited(s: System, step: Step)
    requires Inv(s) && PickStands(s) && Waited(s) && Enabled(s, step)
    ensures Waited(Apply(s, step))
  {
    var r := Apply(s, step);
    forall id | 0 <= id < |r.nodes|
      ensures Preceded(r.nodes[id].hist, Given(WAIT_LIB_LOAD), Given(LIB_LOADING))
    {
      if id < |s.nodes| {
        var e := OneEvent(s, step, id);
        PrecededSnoc(s.nodes[id].hist, e, Given(WAIT_LIB_LOAD), Given(LIB_LOADING));
      }
    }
  }

  lemma StepKeepsConnected(s: System, step: Step)
    requires Inv(s) && BuilderStands(s) && Connected(s) && Enabled(s, step)
    ensures Connected(Apply(s, step))
  {
    var r := Apply(s, step);
    forall id | 0 <= id < |r.nodes|
      ensures Preceded(r.nodes[id].hist, Built, Given(WAIT_LIB_LOAD))
    {
      if id < |s.nodes| {
        var e := OneEvent(s, step, id);
        PrecededSnoc(s.nodes[id].hist, e, Built, Given(WAIT_LIB_LOAD));
      }
    }
  }

  lemma {:induction false} GuardedRunWaits(s: System, steps: seq<Step>, end: System, guard: Guard)
    requires Inv(s) && PickStands(s) && Waited(s) && IsGuardedRun(s, steps, end, guard) && guard.lib
    ensures Inv(end) && PickStands(end) && Waited(end)
    decreases |steps|
  {
    if steps != [] {
      StepKeepsInv(s, steps[0]);
      PicksStand(s, steps[0], guard);
      StepKeepsWaited(s, steps[0]);
      GuardedRunWaits(Apply(s, steps[0]), steps[1..], end, guard);
    }
  }

  lemma {:induction false} GuardedRunConnects(s: System, steps: seq<Step>, end: System, guard: Guard)
    requires Inv(s) && BuilderStands(s) && Connected(s) && IsGuardedRun(s, steps, end, guard) && guard.conn
    ensures Inv(end) && BuilderStands(end) && Connected(end)
    decreases |steps|
  {
    if steps != [] {
      StepKeepsInv(s, steps[0]);
      BuildersStand(s, steps[0], guard);
      StepKeepsConnected(s, steps[0]);
      GuardedRunConnects(Apply(s, steps[0]), steps[1..], end, guard);
    }
  }

  ghost predicate StaysWaited(s: System) {
    forall steps, end :: IsGuardedRun(s, steps, end, LIB_GUARD) ==> Waited(end)
  }

  ghost predicate StaysConnected(s: System) {
    forall steps, end :: IsGuardedRun(s, steps, end, CONN_GUARD) ==> Connected(end)
  }

  /** A node may be added, and no object is ever sent its library without having waited,
      exactly when the library service has not picked a matcher of that address that has
      left the list. Every later addition is held to the same guard. */
  lemma AddKeepsWaitedIff(s: System, addr: nat)
    requires Inv(s) && PickStands(s) && Waited(s) && Enabled(s, AddNode(addr))
    ensures StaysWaited(Apply(s, AddNode(addr))) <==> !LibHolds(s, addr)
  {
    var step := AddNode(addr);
    var r := Apply(s, step);
    StepKeepsInv(s, step);
    if LibHolds(s, addr) {
      var steps, end := NewcomerIsLoaded(s, addr);
      assert !Waited(end);
    } else {
      PicksStand(s, step, LIB_GUARD);
      StepKeepsWaited(s, step);
      forall steps, end | IsGuardedRun(r, steps, end, LIB_GUARD)
        ensures Waited(end)
      {
        GuardedRunWaits(r, steps, end, LIB_GUARD);
      }
    }
  }

  /** A node may be added, and no object ever waits without a connection built to itself,
      exactly when the connection service is not at a matcher of that address that has
      left the list: its builder would connect the newcomer. */
  lemma AddKeepsConnectedIff(s: System, addr: nat)
    requires Inv(s) && BuilderStands(s) && Connected(s) && Enabled(s, AddNode(addr))
    ensures StaysConnected(Apply(s, AddNode(addr))) <==> !ConnHolds(s, addr)
  {
    var step := AddNode(addr);
    var r := Apply(s, step);
    StepKeepsInv(s, step);
    if ConnHolds(s, addr) {
      var steps, end := BuilderConnectsNewcomer(s, addr);
      assert !Connected(end);
    } else {
      BuildersStand(s, step, CONN_GUARD);
      StepKeepsConnected(s, step);
      forall steps, end | IsGuardedRun(r, steps, end, CONN_GUARD)
        ensures Connected(end)
      {
        GuardedRunConnects(r, steps, end, CONN_GUARD);
      }
    }
  }

  lemma {:induction false} GuardedSnoc(s: System, steps: seq<Step>, m: System, step: Step, guard: Guard)
    requires IsGuardedRun(s, steps, m, guard) && Enabled(m, step) && Guarded(m, step, guard)
    ensures IsGuardedRun(s, steps + [step], Apply(m, step), guard)
    decreases |steps|
  {
    if steps == [] {
      assert [step][1..] == [];
    } else {
      GuardedSnoc(Apply(s, steps[0]), steps[1..], m, step, guard);
      assert (steps + [step])[1..] == steps[1..] + [step];
    }
  }

  /** One more guarded step at the end of a run. */
  lemma ThenGuarded(s: System, steps: seq<Step>, m: System, step: Step, end: System, guard: Guard)
    returns (steps': seq<Step>)
    requires IsGuardedRun(s, steps, m, guard) && Enabled(m, step) && Guarded(m, step, guard) && end == Apply(m, step)
    ensures IsGuardedRun(s, steps', end, guard)
  {
    GuardedSnoc(s, steps, m, step, guard);
    steps' := steps + [step];
  }

  /** The object a departed matcher's address gets next is new and found there. */
  lemma NewcomerStands(s: System, addr: nat)
    requires Inv(s) && Enabled(s, AddNode(addr)) && !Present(s, addr)
    ensures var r := Apply(s, AddNode(addr));
            && Inv(r) && FoundAt(r, |s.nodes|, addr) && Find(r, addr) == Some(|s.nodes|)
            && r.nodes[|s.nodes|] == Node(addr, UNCONNECTED, [Given(UNCONNECTED)])
  {
    StepKeepsInv(s, AddNode(addr));
    FindIs(Apply(s, AddNode(addr)), |s.nodes|, addr);
  }

  /** The library service looks the address up again, and finds the newcomer. */
  lemma NewcomerIsLoaded(s: System, addr: nat) returns (steps: seq<Step>, end: System)
    requires Inv(s) && LibHolds(s, addr) && Enabled(s, AddNode(addr))
    ensures IsGuardedRun(Apply(s, AddNode(addr)), steps, end, LIB_GUARD) && !Waited(end)
    ensures end.nodes == Apply(s, AddNode(addr)).nodes[|s.nodes| :=
              Node(addr, LIB_LOADING, [Given(UNCONNECTED), Given(LIB_LOADING)])]
    ensures end.list == Apply(s, AddNode(addr)).list && end.pkt == s.pkt
  {
    var id := |s.nodes|;
    var r := Apply(s, AddNode(addr));
    NewcomerStands(s, addr);
    var r1 := Apply(r, LibStart);
    end := Apply(r1, LibWrite);
    var h := end.nodes[id].hist;
    assert h == [Given(UNCONNECTED), Given(LIB_LOADING)] && h[..1] == [Given(UNCONNECTED)];
    assert h[1] == Given(LIB_LOADING);
    steps := ThenGuarded(r, [], r, LibStart, r1, LIB_GUARD);
    steps := ThenGuarded(r, steps, r1, LibWrite, end, LIB_GUARD);
  }

  /** The packet thread ends what it is at; object `id` is not what it is at. */
  lemma Settle(s: System, id: nat) returns (steps: seq<Step>, end: System)
    requires Inv(s) && id in s.list && !Locked(s)
    requires s.pkt.SawLoading? ==> s.nodes[id].addr != s.pkt.addr
    requires s.pkt.SawLeaving? || s.pkt.Removes? ==> s.pkt.target != id
    ensures IsGuardedRun(s, steps, end, CONN_GUARD) && Inv(end)
    ensures end.pkt == PktIdle && end.conn == s.conn && |end.nodes| == |s.nodes|
    ensures id in end.list && end.nodes[id] == s.nodes[id]
    ensures forall x :: 0 <= x < |s.nodes| ==> end.nodes[x].addr == s.nodes[x].addr
  {
    steps, end := [], s;
    if s.pkt.SawLoading? {
      end := Apply(s, LibEndWrite);
      StepKeepsInv(s, LibEndWrite);
      steps := ThenGuarded(s, [], s, LibEndWrite, end, CONN_GUARD);
    } else if s.pkt.SawLeaving? || s.pkt.Removes? {
      var m := s;
      if s.pkt.SawLeaving? {
        m := Apply(s, CollectWrite);
        StepKeepsInv(s, CollectWrite);
        steps := ThenGuarded(s, [], s, CollectWrite, m, CONN_GUARD);
      }
      end := Apply(m, CollectRemove);
      StepKeepsInv(m, CollectRemove);
      steps := ThenGuarded(s, steps, m, CollectRemove, end, CONN_GUARD);
    }
  }

  /** The builder gets its answer, and connects by address the object added since. */
  lemma BuilderConnectsNewcomer(s: System, addr: nat) returns (steps: seq<Step>, end: System)
    requires Inv(s) && ConnHolds(s, addr) && Enabled(s, AddNode(addr))
    ensures IsGuardedRun(Apply(s, AddNode(addr)), steps, end, CONN_GUARD) && !Connected(end)
  {
    var id := |s.nodes|;
    var r := Apply(s, AddNode(addr));
    NewcomerStands(s, addr);
    if s.pkt.SawLoading? {
      assert Present(s, s.pkt.addr);
    }
    var r1;
    steps, r1 := Settle(r, id);
    var r2 := Apply(r1, ConnReply(addr));
    StepKeepsInv(r1, ConnReply(addr));
    assert r2.conn == Connecting(s.conn.id, true) && r2.nodes[id] == r.nodes[id];
    FindIs(r2, id, addr);
    var r3 := Apply(r2, ConnFinish);
    assert r3.conn == ConnWrites(id, WAIT_LIB_LOAD);
    end := Apply(r3, ConnWrite);
    var h := end.nodes[id].hist;
    assert h == [Given(UNCONNECTED), Given(WAIT_LIB_LOAD)] && h[..1] == [Given(UNCONNECTED)];
    assert h[1] == Given(WAIT_LIB_LOAD);
    steps := ThenGuarded(r, steps, r1, ConnReply(addr), r2, CONN_GUARD);
    steps := ThenGuarded(r, steps, r2, ConnFinish, r3, CONN_GUARD);
    steps := ThenGuarded(r, steps, r3, ConnWrite, end, CONN_GUARD);
  }

  /** Under both guards a READY object has, in its own history and in this order, a
      connection built, WAIT_LIB_LOAD, LIB_LOADING and READY. */
  lemma ReadyHasFullPath(steps: seq<Step>, end: System, id: nat)
    returns (built: nat, waited: nat, loaded: nat, ready: nat)
    requires IsGuardedRun(EMPTY, steps, end, BOTH_GUARDS)
    requires id < |end.nodes| && end.nodes[id].state == READY
    ensures var h := end.nodes[id].hist;
            && built < waited < loaded < ready < |h|
            && h[built] == Built && h[waited] == Given(WAIT_LIB_LOAD)
            && h[loaded] == Given(LIB_LOADING) && h[ready] == Given(READY)
  {
    GuardedRunWaits(EMPTY, steps, end, BOTH_GUARDS);
    GuardedRunConnects(EMPTY, steps, end, BOTH_GUARDS);
    var h := end.nodes[id].hist;
    InStateGiven(h, READY);
    var r :| 0 <= r < |h| && h[r] == Given(READY);
    ready := r;
    loaded := Before(h, Given(LIB_LOADING), Given(READY), ready);
    waited := Before(h, Given(WAIT_LIB_LOAD), Given(LIB_LOADING), loaded);
    built := Before(h, Built, Given(WAIT_LIB_LOAD), waited);
  }

  lemma Before(h: seq<Event>, first: Event, later: Event, j: nat) returns (i: nat)
    requires Preceded(h, first, later) && j < |h| && h[j] == later
    ensures i < j && h[i] == first
  {
    assert first in h[..j];
    var k :| 0 <= k < j && h[..j][k] == first;
    i := k;
  }

  // -------------------------------------------------------------------------
  // Does a request to quit stick?

  predicate Leaving(st: MatcherState) {
    st == TO_BE_COLLECTED || st == COLLECTED
  }

  /** Some service is about to write to this object. */
  predicate Targeted(s: System, id: nat) {
    (s.conn.ConnWrites? && s.conn.target == id) || (s.lib.LibWrites? && s.lib.target == id)
  }

  /** Some thread will look this address up and write to what it finds. */
  predicate LookedUp(s: System, addr: nat) {
    || (s.conn.Connecting? && s.conn.id < |s.nodes| && s.nodes[s.conn.id].addr == addr && !s.conn.built)
    || (s.lib.Picked? && s.lib.id < |s.nodes| && s.nodes[s.lib.id].addr == addr)
    || s.pkt == SawLoading(addr)
  }

  predicate Held(s: System, id: nat)
    requires id < |s.nodes|
  {
    Targeted(s, id) || LookedUp(s, s.nodes[id].addr)
  }

  /** The step that makes the object leave: a quit, or the end of a command. */
  ghost predicate Quits(s: System, step: Step, id: nat) {
    || (step == MarkWrite && s.cmd == Marks(id))
    || (step.WannaQuit? && FoundAt(s, id, step.addr))
  }

  /** The object is leaving, and nobody is about to overwrite that. */
  ghost predicate QuitInv(s: System, id: nat) {
    && id < |s.nodes| && Leaving(s.nodes[id].state) && !Targeted(s, id)
    && (id in s.list ==> !LookedUp(s, s.nodes[id].addr))
  }

  /** The state that a step gives to an object. */
  ghost function Written(s: System, step: Step, id: nat): Option<MatcherState>
    requires id < |s.nodes|
  {
    if step == ConnWrite && s.conn.ConnWrites? && s.conn.target == id then Some(s.conn.st)
    else if step == LibWrite && s.lib == LibWrites(id) then Some(LIB_LOADING)
    else if step == LibEndWrite && s.pkt.SawLoading? && FoundAt(s, id, s.pkt.addr) then Some(READY)
    else if Quits(s, step, id) then Some(TO_BE_COLLECTED)
    else if step == CollectWrite && s.pkt == SawLeaving(id) then Some(COLLECTED)
    else None
  }

  /** The step gives that state to the object, and no other. */
  ghost predicate GivesJust(s: System, step: Step, id: nat)
    requires Enabled(s, step) && id < |s.nodes|
  {
    var r, w := Apply(s, step), Written(s, step, id);
    && id < |r.nodes| && r.nodes[id].addr == s.nodes[id].addr
    && r.nodes[id].state == (if w.Some? then w.value else s.nodes[id].state)
    && (step != ConnReply(s.nodes[id].addr) ==>
          r.nodes[id].hist == s.nodes[id].hist + (if w.Some? then [Given(w.value)] else []))
  }

  /** The whole of the transitions, of every object under every step. */
  lemma StatesChange(s: System, step: Step, id: nat)
    requires Inv(s) && Enabled(s, step) && id < |s.nodes|
    ensures GivesJust(s, step, id)
  {
    match step
    case WannaQuit(addr) => AtAddress(s, id, addr);
    case LibEndWrite => AtAddress(s, id, s.pkt.addr);
    case ConnWrite => ThreadWrites(s, step, id);
    case LibWrite => ThreadWrites(s, step, id);
    case MarkWrite => ThreadWrites(s, step, id);
    case CollectWrite => ThreadWrites(s, step, id);
    case _ => NothingWritten(s, step, id);
  }

  lemma AtAddress(s: System, id: nat, addr: nat)
    requires Inv(s)
    ensures FoundAt(s, id, addr) <==> Find(s, addr) == Some(id)
  {
    if FoundAt(s, id, addr) {
      FindIs(s, id, addr);
    }
  }

  lemma ThreadWrites(s: System, step: Step, id: nat)
    requires Enabled(s, step) && id < |s.nodes|
    requires step == ConnWrite || step == LibWrite || step == MarkWrite || step == CollectWrite
    ensures GivesJust(s, step, id)
  {
  }

  lemma NothingWritten(s: System, step: Step, id: nat)
    requires Enabled(s, step) && id < |s.nodes|
    requires step != ConnWrite && step != LibWrite && step != MarkWrite && step != CollectWrite
    requires step != LibEndWrite && !step.WannaQuit?
    ensures GivesJust(s, step, id)
  {
  }

  /** A node that has asked to leave, and says that it has, leaves the list, and alone. */
  lemma QuitedLeaves(s: System, id: nat) returns (end: System)
    requires Inv(s) && s.pkt == PktIdle && !Locked(s)
    requires id in s.list && s.nodes[id].state == TO_BE_COLLECTED
    ensures IsRun(s, [Quited(s.nodes[id].addr), CollectWrite, CollectRemove], end)
    ensures end.list == s.list - {id} && end.nodes == s.nodes[id := Give(s.nodes[id], COLLECTED)]
  {
    var addr := s.nodes[id].addr;
    FindIs(s, id, addr);
    var s1 := Apply(s, Quited(addr));
    var s2 := Apply(s1, CollectWrite);
    end := Apply(s2, CollectRemove);
    var steps := [Quited(addr), CollectWrite, CollectRemove];
    assert steps[1..] == [CollectWrite, CollectRemove] && steps[1..][1..] == [CollectRemove];
    assert IsRun(end, steps[1..][1..][1..], end);
    assert IsRun(s2, steps[1..][1..], end);
    assert IsRun(s1, steps[1..], end);
  }

  lemma StaysUntargeted(s: System, step: Step, id: nat)
    requires Inv(s) && QuitInv(s, id) && Enabled(s, step)
    ensures id < |Apply(s, step).nodes| && !Targeted(Apply(s, step), id)
  {
    if id in s.list {
      FindIs(s, id, s.nodes[id].addr);
    }
  }

  /** Nobody comes to look the address up: only a state that is not there would make them. */
  lemma StaysUnseen(s: System, step: Step, id: nat)
    requires Inv(s) && QuitInv(s, id) && Enabled(s, step) && id in s.list
    ensures !LookedUp(Apply(s, step), s.nodes[id].addr)
  {
    var addr := s.nodes[id].addr;
    FindIs(s, id, addr);
    if step.ConnPick? {
      NotPicked(s, id, step.id);
    } else if step.LibPick? {
      NotPicked(s, id, step.id);
    } else {
      SameAddresses(s, step);
    }
  }

  lemma NotPicked(s: System, id: nat, x: nat)
    requires Inv(s) && id in s.list && x in s.list && s.nodes[id].state != s.nodes[x].state
    ensures s.nodes[x].addr != s.nodes[id].addr
  {
  }

  /** Only a thread that found the object in the list comes to write to it. */
  lemma StepKeepsQuit(s: System, step: Step, id: nat)
    requires Inv(s) && QuitInv(s, id) && Enabled(s, step)
    ensures QuitInv(Apply(s, step), id)
  {
    StaysUntargeted(s, step, id);
    SameAddresses(s, step);
    if id in s.list {
      StaysUnseen(s, step, id);
    }
  }

  lemma {:induction false} RunKeepsQuit(s: System, steps: seq<Step>, end: System, id: nat)
    requires Inv(s) && QuitInv(s, id) && IsRun(s, steps, end)
    ensures QuitInv(end, id)
    decreases |steps|
  {
    if steps != [] {
      StepKeepsInv(s, steps[0]);
      StepKeepsQuit(s, steps[0], id);
      RunKeepsQuit(Apply(s, steps[0]), steps[1..], end, id);
    }
  }

  /** In every continuation the object goes on leaving. */
  ghost predicate StaysLeaving(s: System, id: nat) {
    forall steps, end :: IsRun(s, steps, end) ==> id < |end.nodes| && Leaving(end.nodes[id].state)
  }

  /** The write that is coming puts the object back to work. */
  lemma HeldUndoesQuit(s: System, id: nat) returns (steps: seq<Step>, end: System)
    requires Inv(s) && id in s.list && Held(s, id)
    ensures IsRun(s, steps, end) && id < |end.nodes| && !Leaving(end.nodes[id].state)
  {
    FindIs(s, id, s.nodes[id].addr);
    var m := s;
    steps := [];
    if s.conn.Connecting? && s.nodes[s.conn.id].addr == s.nodes[id].addr && !s.conn.built {
      m := Apply(s, ConnFinish);
      steps := Then(s, [], s, ConnFinish, m);
    } else if s.lib.Picked? && s.nodes[s.lib.id].addr == s.nodes[id].addr {
      m := Apply(s, LibStart);
      steps := Then(s, [], s, LibStart, m);
    }
    var last := if m.conn.ConnWrites? && m.conn.target == id then ConnWrite
                else if m.lib.LibWrites? && m.lib.target == id then LibWrite
                else LibEndWrite;
    end := Apply(m, last);
    steps := Then(s, steps, m, last, end);
  }

  /** A request to quit, or to remove a node, sticks whatever happens next exactly when
      no thread is between looking at the object and writing to it. */
  lemma QuitSticksIff(s: System, step: Step, id: nat)
    requires Inv(s) && id in s.list && Enabled(s, step) && Quits(s, step, id)
    ensures StaysLeaving(Apply(s, step), id) <==> !Held(s, id)
  {
    var r := Apply(s, step);
    FindIs(s, id, s.nodes[id].addr);
    StepKeepsInv(s, step);
    if Held(s, id) {
      var steps, end := HeldUndoesQuit(r, id);
    } else {
      forall steps, end | IsRun(r, steps, end)
        ensures id < |end.nodes| && Leaving(end.nodes[id].state)
      {
        RunKeepsQuit(r, steps, end, id);
      }
    }
  }

  /** One more step at the end of a run. */
  lemma Then(s: System, steps: seq<Step>, m: System, step: Step, end: System) returns (steps': seq<Step>)
    requires IsRun(s, steps, m) && Enabled(m, step) && end == Apply(m, step)
    ensures IsRun(s, steps', end)
  {
    RunSnoc(s, steps, m, step);
    steps' := steps + [step];
  }

  // -------------------------------------------------------------------------
  // Runs in which the path or the quit fails.

  /** Without the first guard the path fails: from any state in which the library
      service has picked a matcher that has since left the list, a new object at its
      address can be made READY without ever waiting or being connected. */
  lemma NewcomerBypasses(s: System) returns (steps: seq<Step>, end: System, id: nat)
    requires Inv(s) && s.lib.Picked? && s.pkt == PktIdle && s.cmd == CmdIdle && !Locked(s)
    requires !Present(s, s.nodes[s.lib.id].addr)
    ensures IsRun(s, steps, end)
    ensures id < |end.nodes| && id in end.list
    ensures end.nodes[id].hist == [Given(UNCONNECTED), Given(LIB_LOADING), Given(READY)]
  {
    var addr := s.nodes[s.lib.id].addr;
    id := |s.nodes|;
    NewcomerStands(s, addr);
    var s1 := Apply(s, AddNode(addr));
    steps := ThenGuarded(s, [], s, AddNode(addr), s1, NO_GUARD);
    steps, end := LoadsOn(s, steps, s1, id, addr, NO_GUARD);
    GuardedIsRun(s, steps, end, NO_GUARD);
  }

  /** A matcher that the connection service has an answer from. */
  function AnsweredAt(addr: nat): System {
    EMPTY.(nodes := [Node(addr, UNCONNECTED, [Given(UNCONNECTED), Built])], list := {0},
           conn := Connecting(0, true), builtTo := {addr})
  }

  lemma AnswerTo(addr: nat)
    ensures var s2 := Apply(Apply(EMPTY, AddNode(addr)), ConnPick(0));
            Enabled(s2, ConnReply(addr)) && Apply(s2, ConnReply(addr)) == AnsweredAt(addr)
  {
    var s3 := Apply(Apply(Apply(EMPTY, AddNode(addr)), ConnPick(0)), ConnReply(addr));
    assert s3.nodes[0] == AnsweredAt(addr).nodes[0];
    assert s3.nodes == AnsweredAt(addr).nodes;
  }

  lemma ReachAnswered(addr: nat, guard: Guard) returns (steps: seq<Step>)
    ensures IsGuardedRun(EMPTY, steps, AnsweredAt(addr), guard)
    ensures Inv(AnsweredAt(addr)) && Find(AnsweredAt(addr), addr) == Some(0)
  {
    var s1 := Apply(EMPTY, AddNode(addr));
    var s2 := Apply(s1, ConnPick(0));
    AnswerTo(addr);
    steps := ThenGuarded(EMPTY, [], EMPTY, AddNode(addr), s1, guard);
    steps := ThenGuarded(EMPTY, steps, s1, ConnPick(0), s2, guard);
    steps := ThenGuarded(EMPTY, steps, s2, ConnReply(addr), AnsweredAt(addr), guard);
    GuardedIsRun(EMPTY, steps, AnsweredAt(addr), guard);
    RunKeepsInv(EMPTY, steps, AnsweredAt(addr));
    FindIs(AnsweredAt(addr), 0, addr);
  }

  lemma {:induction false} GuardedIsRun(s: System, steps: seq<Step>, end: System, guard: Guard)
    requires IsGuardedRun(s, steps, end, guard)
    ensures IsRun(s, steps, end)
    decreases |steps|
  {
    if steps != [] {
      GuardedIsRun(Apply(s, steps[0]), steps[1..], end, guard);
    }
  }

  /** A quit can be lost to the connection service: it comes after the test that found the
      matcher unconnected and before the write. */
  lemma QuitLostInConnect(addr: nat) returns (steps: seq<Step>, end: System)
    ensures IsRun(EMPTY, steps, end)
    ensures |end.nodes| == 1 && 0 in end.list && end.nodes[0].hist ==
            [Given(UNCONNECTED), Built, Given(TO_BE_COLLECTED), Given(WAIT_LIB_LOAD)]
  {
    steps := ReachAnswered(addr, BOTH_GUARDS);
    var s := AnsweredAt(addr);
    var s1 := Apply(s, ConnFinish);
    StepKeepsInv(s, ConnFinish);
    FindIs(s1, 0, addr);
    var s2 := Apply(s1, WannaQuit(addr));
    end := Apply(s2, ConnWrite);
    steps := ThenGuarded(EMPTY, steps, s, ConnFinish, s1, BOTH_GUARDS);
    steps := ThenGuarded(EMPTY, steps, s1, WannaQuit(addr), s2, BOTH_GUARDS);
    steps := ThenGuarded(EMPTY, steps, s2, ConnWrite, end, BOTH_GUARDS);
    GuardedIsRun(EMPTY, steps, end, BOTH_GUARDS);
  }

  /** A matcher connected, waiting, and picked by the library service. */
  function PickedAt(addr: nat): System {
    EMPTY.(nodes := [Node(addr, WAIT_LIB_LOAD, [Given(UNCONNECTED), Built, Given(WAIT_LIB_LOAD)])], list := {0},
           lib := Picked(0), builtTo := {addr})
  }

  lemma ReachPicked(addr: nat, guard: Guard) returns (steps: seq<Step>)
    ensures IsGuardedRun(EMPTY, steps, PickedAt(addr), guard)
    ensures Inv(PickedAt(addr)) && Find(PickedAt(addr), addr) == Some(0)
  {
    steps := ReachAnswered(addr, guard);
    var s := AnsweredAt(addr);
    var s1 := Apply(s, ConnFinish);
    var s2 := Apply(s1, ConnWrite);
    assert s2.nodes[0] == PickedAt(addr).nodes[0];
    assert s2.nodes == PickedAt(addr).nodes;
    steps := ThenGuarded(EMPTY, steps, s, ConnFinish, s1, guard);
    steps := ThenGuarded(EMPTY, steps, s1, ConnWrite, s2, guard);
    steps := ThenGuarded(EMPTY, steps, s2, LibPick(0), PickedAt(addr), guard);
    GuardedIsRun(EMPTY, steps, PickedAt(addr), guard);
    RunKeepsInv(EMPTY, steps, PickedAt(addr));
    FindIs(PickedAt(addr), 0, addr);
  }

  /** A quit can be lost to the library service: this run ends with an object made READY
      after it. */
  lemma LostQuit(addr: nat) returns (steps: seq<Step>, end: System)
    ensures IsRun(EMPTY, steps, end)
    ensures |end.nodes| == 1 && end.nodes[0].hist ==
            [Given(UNCONNECTED), Built, Given(WAIT_LIB_LOAD), Given(TO_BE_COLLECTED), Given(LIB_LOADING), Given(READY)]
  {
    steps := ReachPicked(addr, NO_GUARD);
    var s := PickedAt(addr);
    var s1 := Apply(s, WannaQuit(addr));
    StepKeepsInv(s, WannaQuit(addr));
    FindIs(s1, 0, addr);
    steps := ThenGuarded(EMPTY, steps, s, WannaQuit(addr), s1, NO_GUARD);
    steps, end := LoadsOn(EMPTY, steps, s1, 0, addr, NO_GUARD);
    GuardedIsRun(EMPTY, steps, end, NO_GUARD);
  }

  /** From a pick on: what stands at the address is sent the library, and made READY. */
  lemma LoadsOn(s: System, steps: seq<Step>, m: System, id: nat, addr: nat, guard: Guard)
    returns (steps': seq<Step>, end: System)
    requires IsGuardedRun(s, steps, m, guard) && Inv(m) && Find(m, addr) == Some(id)
    requires m.lib.Picked? && m.nodes[m.lib.id].addr == addr && m.pkt == PktIdle
    ensures IsGuardedRun(s, steps', end, guard) && |end.nodes| == |m.nodes| && end.list == m.list
    ensures end.nodes[id] == Give(Give(m.nodes[id], LIB_LOADING), READY)
  {
    var m1 := Apply(m, LibStart);
    var m2 := Apply(m1, LibWrite);
    StepKeepsInv(m, LibStart);
    StepKeepsInv(m1, LibWrite);
    FindIs(m2, id, addr);
    var m3 := Apply(m2, LibEndCheck(addr));
    end := Apply(m3, LibEndWrite);
    FindIs(m3, id, addr);
    steps' := ThenGuarded(s, steps, m, LibStart, m1, guard);
    steps' := ThenGuarded(s, steps', m1, LibWrite, m2, guard);
    steps' := ThenGuarded(s, steps', m2, LibEndCheck(addr), m3, guard);
    steps' := ThenGuarded(s, steps', m3, LibEndWrite, end, guard);
  }

  /** The only matcher quits, is collected and is removed. */
  function Gone(s: System): System
    requires |s.nodes| == 1
  {
    s.(nodes := [Give(Give(s.nodes[0], TO_BE_COLLECTED), COLLECTED)], list := {})
  }

  lemma Goes(s: System, steps: seq<Step>, m: System, addr: nat, guard: Guard) returns (steps': seq<Step>)
    requires IsGuardedRun(s, steps, m, guard) && Inv(m) && |m.nodes| == 1 && m.list == {0} && Find(m, addr) == Some(0)
    requires m.pkt == PktIdle && !Locked(m)
    ensures IsGuardedRun(s, steps', Gone(m), guard) && Inv(Gone(m)) && !Present(Gone(m), addr)
  {
    var m1 := Apply(m, WannaQuit(addr));
    StepKeepsInv(m, WannaQuit(addr));
    FindIs(m1, 0, addr);
    var m2 := Apply(m1, Quited(addr));
    var m3 := Apply(m2, CollectWrite);
    var m4 := Apply(m3, CollectRemove);
    StepKeepsInv(m1, Quited(addr));
    StepKeepsInv(m2, CollectWrite);
    StepKeepsInv(m3, CollectRemove);
    assert m4.nodes == Gone(m).nodes && m4.list == {};
    steps' := ThenGuarded(s, steps, m, WannaQuit(addr), m1, guard);
    steps' := ThenGuarded(s, steps', m1, Quited(addr), m2, guard);
    steps' := ThenGuarded(s, steps', m2, CollectWrite, m3, guard);
    steps' := ThenGuarded(s, steps', m3, CollectRemove, m4, guard);
  }

  /** A matcher can quit, be removed and come back while the library service has it
      picked: the state `NewcomerBypasses` starts from is reachable. */
  lemma HeldAndGone(addr: nat) returns (steps: seq<Step>, s: System)
    ensures IsRun(EMPTY, steps, s) && Inv(s)
    ensures s.lib == Picked(0) && s.pkt == PktIdle && s.cmd == CmdIdle && !Locked(s)
    ensures |s.nodes| == 1 && s.nodes[0].addr == addr && !Present(s, addr)
  {
    steps := ReachPicked(addr, NO_GUARD);
    steps := Goes(EMPTY, steps, PickedAt(addr), addr, NO_GUARD);
    s := Gone(PickedAt(addr));
    GuardedIsRun(EMPTY, steps, s, NO_GUARD);
  }

  /** The first guard alone is not enough: a builder can outlive its object and connect
      the one that came after it, which is then READY with no connection of its own. */
  lemma StaleBuilder(addr: nat) returns (steps: seq<Step>, end: System)
    ensures IsGuardedRun(EMPTY, steps, end, LIB_GUARD)
    ensures |end.nodes| == 2 && 1 in end.list
    ensures end.nodes[1].hist == [Given(UNCONNECTED), Given(WAIT_LIB_LOAD), Given(LIB_LOADING), Given(READY)]
  {
    var s1;
    steps, s1 := ReachStale(addr);
    GuardedIsRun(EMPTY, steps, s1, LIB_GUARD);
    RunKeepsInv(EMPTY, steps, s1);
    steps, end := LoadsOn(EMPTY, steps, s1, 1, addr, LIB_GUARD);
  }

  /** The old object has left, and a new one has come while the builder is still there. */
  lemma ReachComeBack(addr: nat) returns (steps: seq<Step>, end: System)
    ensures IsGuardedRun(EMPTY, steps, end, LIB_GUARD) && Inv(end) && Find(end, addr) == Some(1)
    ensures |end.nodes| == 2 && end.list == {1} && end.nodes[1] == Node(addr, UNCONNECTED, [Given(UNCONNECTED)])
    ensures end.nodes[0].addr == addr && end.conn == Connecting(0, true) && end.lib == LibIdle && end.pkt == PktIdle
  {
    steps := ReachAnswered(addr, LIB_GUARD);
    steps := Goes(EMPTY, steps, AnsweredAt(addr), addr, LIB_GUARD);
    var s := Gone(AnsweredAt(addr));
    NewcomerStands(s, addr);
    end := Apply(s, AddNode(addr));
    steps := ThenGuarded(EMPTY, steps, s, AddNode(addr), end, LIB_GUARD);
  }

  lemma ReachStale(addr: nat) returns (steps: seq<Step>, end: System)
    ensures IsGuardedRun(EMPTY, steps, end, LIB_GUARD) && Find(end, addr) == Some(1)
    ensures |end.nodes| == 2 && end.list == {1} && end.lib == Picked(1) && end.pkt == PktIdle
    ensures end.nodes[1].hist == [Given(UNCONNECTED), Given(WAIT_LIB_LOAD)]
  {
    var s1;
    steps, s1 := ReachComeBack(addr);
    var s2 := Apply(s1, ConnFinish);
    var s3 := Apply(s2, ConnWrite);
    end := Apply(s3, LibPick(1));
    steps := ThenGuarded(EMPTY, steps, s1, ConnFinish, s2, LIB_GUARD);
    steps := ThenGuarded(EMPTY, steps, s2, ConnWrite, s3, LIB_GUARD);
    steps := ThenGuarded(EMPTY, steps, s3, LibPick(1), end, LIB_GUARD);
    StepKeepsInv(s1, ConnFinish);
    StepKeepsInv(s2, ConnWrite);
    FindIs(end, 1, addr);
  }
}
