/** The code that moves matchers through their life: the manager's list, the command
    thread, the two services, and the branches of `handle_packet`. Each method is one
    step of the state machine in `Lifecycle`, taken on the matcher objects themselves. */
module NodeManagers {
  import opened Wrappers
  import opened Matchers
  import L = Lifecycle

  /** The packets that change a matcher's life. */
  datatype Kind = ConnBuildReply | WannaQuitRequest | QuitedNotice | LibEndReply

  class NodeManager {
    var matchers: seq<Matcher>

    /** The command thread's matcher, found and to be marked. */
    var marking: Matcher?

    /** The connection service's builder: whom it connects, and whether it has an answer;
        then the matcher found, and the state to be written to it. */
    var building: Matcher?
    var built: bool
    var connTarget: Matcher?
    var connState: MatcherState

    /** The library service's matcher; then the matcher found, to be written LIB_LOADING;
        then whether it is sending. */
    var loading: Matcher?
    var libTarget: Matcher?
    var sending: bool

    /** `handle_packet` between a test and the writes after it. */
    var sawLoading: Option<nat>
    var sawLeaving: Matcher?
    var removing: Matcher?

    /** Every matcher object ever made, and the machine this object follows. */
    ghost var objects: seq<Matcher>
    ghost var sys: L.System

    constructor ()
      ensures Valid() && sys == L.EMPTY
    {
      matchers, objects, sys := [], [], L.EMPTY;
      marking, building, built, connTarget, connState := null, null, false, null, UNCONNECTED;
      loading, libTarget, sending := null, null, false;
      sawLoading, sawLeaving, removing := None, null, null;
    }

    ghost predicate Objects()
      reads this, objects
    {
      && |objects| == |sys.nodes|
      && (forall i, j :: 0 <= i < j < |objects| ==> objects[i] != objects[j])
      && (forall i :: 0 <= i < |objects| ==>
            objects[i].address == sys.nodes[i].addr && objects[i].state == sys.nodes[i].state)
    }

    ghost predicate Listed()
      reads this
    {
      && |objects| == |sys.nodes|
      && (forall i :: 0 <= i < |objects| ==> (objects[i] in matchers <==> i in sys.list))
      && (forall m :: m in matchers ==> m in objects)
      && (forall i, j :: 0 <= i < j < |matchers| ==> matchers[i] != matchers[j])
    }

    ghost predicate Is(m: Matcher?, id: nat)
      reads this
    {
      id < |objects| && m == objects[id]
    }

    ghost predicate Command()
      reads this
    {
      match sys.cmd
      case CmdIdle => marking == null
      case Marks(id) => Is(marking, id)
    }

    ghost predicate Connection()
      reads this
    {
      match sys.conn
      case ConnIdle => building == null && connTarget == null
      case Connecting(id, b) => Is(building, id) && b == built && connTarget == null
      case ConnWrites(id, st) => building == null && Is(connTarget, id) && connState == st
    }

    ghost predicate Library()
      reads this
    {
      match sys.lib
      case LibIdle => loading == null && libTarget == null && !sending
      case Picked(id) => Is(loading, id) && libTarget == null && !sending
      case LibWrites(id) => loading == null && Is(libTarget, id) && !sending
      case Sending => loading == null && libTarget == null && sending
    }

    ghost predicate Packets()
      reads this
    {
      match sys.pkt
      case PktIdle => sawLoading == None && sawLeaving == null && removing == null
      case SawLoading(addr) => sawLoading == Some(addr) && sawLeaving == null && removing == null
      case SawLeaving(id) => sawLoading == None && Is(sawLeaving, id) && removing == null
      case Removes(id) => sawLoading == None && sawLeaving == null && Is(removing, id)
    }

    /** The objects, the list and the threads are those of the machine. */
    ghost predicate Follows()
      reads this, objects
    {
      Objects() && Listed() && Command() && Connection() && Library() && Packets()
    }

    ghost predicate Valid()
      reads this, objects
    {
      Follows() && L.Inv(sys)
    }

    /** `find`: by address. */
    method Find(address: nat) returns (m: Matcher?)
      requires Objects() && Listed() && L.Inv(sys)
      ensures m == null <==> !L.Present(sys, address)
      ensures m != null ==> m in matchers && m.address == address && Is(m, L.Find(sys, address).value)
    {
      m := null;
      var i := 0;
      while i < |matchers| && m == null
        invariant 0 <= i <= |matchers|
        invariant m != null ==> m in matchers && m.address == address
        invariant m == null ==> forall j :: 0 <= j < i ==> matchers[j].address != address
      {
        if matchers[i].address == address {
          m := matchers[i];
        }
        i := i + 1;
      }
      if m == null {
        NotPresent(address);
      } else {
        ghost var id: nat :| id < |objects| && objects[id] == m;
        L.FindIs(sys, id, address);
      }
    }

    lemma NotPresent(address: nat)
      requires Objects() && Listed()
      requires forall n :: n in matchers ==> n.address != address
      ensures !L.Present(sys, address)
    {
      forall id: nat | id < |objects| && id in sys.list
        ensures sys.nodes[id].addr != address
      {
        assert objects[id] in matchers;
      }
    }

    /** `set_state` of one object. */
    method SetState(m: Matcher, ghost id: nat, st: MatcherState)
      requires Follows() && Is(m, id)
      modifies m`state, this`sys
      ensures Follows() && sys == L.Write(old(sys), id, st)
    {
      sys := L.Write(sys, id, st);
      m.state := st;
    }

    /** `add_matcher` of a new matcher object. */
    method AddMatcher(address: nat, domain: nat, nbits: nat, mergeUnit: nat)
      requires Valid() && marking == null && !L.Locked(sys)
      modifies this`matchers, this`objects, this`sys
      ensures Valid()
      ensures L.Enabled(old(sys), L.AddNode(address)) && sys == L.Apply(old(sys), L.AddNode(address))
      ensures if L.Present(old(sys), address) then matchers == old(matchers)
              else Joined(old(matchers), address, domain, nbits, mergeUnit)
    {
      L.StepKeepsInv(sys, L.AddNode(address));
      var found := Find(address);
      if found == null {
        NewMatcher(address, domain, nbits, mergeUnit);
      }
    }

    /** One matcher more, the last, with these parameters, and nothing sent to it yet. */
    ghost predicate Joined(before: seq<Matcher>, address: nat, domain: nat, nbits: nat, mergeUnit: nat)
      reads this, matchers
    {
      && |matchers| == |before| + 1 && matchers[..|before|] == before
      && var m := matchers[|before|];
      && m.address == address && m.domain == domain && m.nbits == nbits && m.mergeUnit == mergeUnit
      && m.state == UNCONNECTED && m.numLoad == 0 && m.firstFlag && m.resultCount == 0 && m.bitfeatureCount == 0
    }

    method NewMatcher(address: nat, domain: nat, nbits: nat, mergeUnit: nat)
      requires Follows() && L.Enabled(sys, L.AddNode(address)) && !L.Present(sys, address)
      requires forall x :: x in sys.list ==> x < |sys.nodes|
      modifies this`matchers, this`objects, this`sys
      ensures Follows()
      ensures sys == L.Apply(old(sys), L.AddNode(address))
      ensures Joined(old(matchers), address, domain, nbits, mergeUnit)
    {
      var m := new Matcher(address, domain, nbits, mergeUnit);
      sys := L.Apply(sys, L.AddNode(address));
      matchers, objects := matchers + [m], objects + [m];
    }

    // -----------------------------------------------------------------------
    // The command that removes a node: it is found, and then marked.

    method RemoveNode(address: nat)
      requires Valid() && marking == null
      modifies this`marking, this`sys
      ensures Valid()
      ensures L.Enabled(old(sys), L.RemoveNode(address)) && sys == L.Apply(old(sys), L.RemoveNode(address))
    {
      L.StepKeepsInv(sys, L.RemoveNode(address));
      var m := Find(address);
      if m != null {
        CommandFound(m, L.Find(sys, address).value);
      }
    }

    method CommandFound(m: Matcher, ghost id: nat)
      requires Follows() && Is(m, id)
      modifies this`marking, this`sys
      ensures Follows() && sys == old(sys).(cmd := L.Marks(id))
    {
      sys := sys.(cmd := L.Marks(id));
      marking := m;
    }

    method MarkRemoved()
      requires Valid() && marking != null
      modifies marking`state, this`marking, this`sys
      ensures Valid() && marking == null
      ensures L.Enabled(old(sys), L.MarkWrite) && sys == L.Apply(old(sys), L.MarkWrite)
    {
      L.StepKeepsInv(sys, L.MarkWrite);
      SetState(marking, sys.cmd.target, TO_BE_COLLECTED);
      CommandDone();
    }

    method CommandDone()
      requires Follows()
      modifies this`marking, this`sys
      ensures Follows() && marking == null && sys == old(sys).(cmd := L.CmdIdle)
    {
      sys := sys.(cmd := L.CmdIdle);
      marking := null;
    }

    // -----------------------------------------------------------------------
    // The connection service.

    /** `find_one_matcher_at_state`. */
    method FindOneAtState(st: MatcherState) returns (m: Matcher?, ghost id: nat)
      requires Objects() && Listed()
      ensures m != null ==> Is(m, id) && id in sys.list && sys.nodes[id].state == st
      ensures m == null ==> forall n :: n in matchers ==> n.state != st
      ensures m != null ==> FirstWith(m, st)
    {
      m, id := null, 0;
      for i := 0 to |matchers|
        invariant forall j :: 0 <= j < i ==> matchers[j].state != st
      {
        if matchers[i].state == st {
          assert matchers[i] in matchers && matchers[i] in objects;
          id :| id < |objects| && objects[id] == matchers[i];
          return matchers[i], id;
        }
      }
    }

    /** The first in the list with this state. */
    ghost predicate FirstWith(m: Matcher, st: MatcherState)
      reads this`matchers, matchers
    {
      exists i :: 0 <= i < |matchers| && matchers[i] == m && m.state == st &&
                  forall j :: 0 <= j < i ==> matchers[j].state != st
    }

    /** An unconnected matcher is taken up, if there is one. */
    method PickUnconnected() returns (ok: bool, ghost id: nat)
      requires Valid() && building == null && connTarget == null
      modifies this`building, this`built, this`sys
      ensures Valid() && ok == (building != null)
      ensures ok ==> FirstWith(building, UNCONNECTED)
      ensures ok ==> L.Enabled(old(sys), L.ConnPick(id)) && sys == L.Apply(old(sys), L.ConnPick(id))
      ensures !ok ==> sys == old(sys) && forall n :: n in matchers ==> n.state != UNCONNECTED
    {
      var m;
      m, id := FindOneAtState(UNCONNECTED);
      ok := m != null;
      if ok {
        L.StepKeepsInv(sys, L.ConnPick(id));
        TakeUp(m, id);
      }
    }

    method TakeUp(m: Matcher, ghost id: nat)
      requires Follows() && Is(m, id) && building == null && connTarget == null
      modifies this`building, this`built, this`sys
      ensures Follows() && building == m && sys == old(sys).(conn := L.Connecting(id, false))
    {
      sys := sys.(conn := L.Connecting(id, false));
      building, built := m, false;
    }

    /** The end of `do_build_connection`, up to its write: the matcher is looked up by
        address, by `connect_matcher` under its lock if there was an answer, and else by
        `set_matcher_state`. */
    method FinishConnection()
      requires Valid() && building != null
      modifies this`building, this`connTarget, this`connState, this`sys
      ensures Valid() && building == null
      ensures L.Enabled(old(sys), L.ConnFinish) && sys == L.Apply(old(sys), L.ConnFinish)
    {
      L.StepKeepsInv(sys, L.ConnFinish);
      var m := Find(building.address);
      ghost var id := if m == null then 0 else L.Find(sys, building.address).value;
      if m != null && built && m.state != UNCONNECTED {
        m := null;
      }
      ConnectionFound(m, id, if built then WAIT_LIB_LOAD else FAIL_CONNECT);
    }

    method ConnectionFound(m: Matcher?, ghost id: nat, st: MatcherState)
      requires Follows() && building != null && (m != null ==> Is(m, id))
      modifies this`building, this`connTarget, this`connState, this`sys
      ensures Follows() && building == null
      ensures sys == old(sys).(conn := if m == null then L.ConnIdle else L.ConnWrites(id, st))
    {
      sys := sys.(conn := if m == null then L.ConnIdle else L.ConnWrites(id, st));
      building, connTarget, connState := null, m, st;
    }

    method WriteConnection()
      requires Valid() && connTarget != null
      modifies connTarget`state, this`connTarget, this`sys
      ensures Valid() && connTarget == null
      ensures L.Enabled(old(sys), L.ConnWrite) && sys == L.Apply(old(sys), L.ConnWrite)
    {
      L.StepKeepsInv(sys, L.ConnWrite);
      SetState(connTarget, sys.conn.target, connState);
      ConnectionDone();
    }

    method ConnectionDone()
      requires Follows() && building == null
      modifies this`connTarget, this`sys
      ensures Follows() && connTarget == null && sys == old(sys).(conn := L.ConnIdle)
    {
      sys := sys.(conn := L.ConnIdle);
      connTarget := null;
    }

    // -----------------------------------------------------------------------
    // The library service.

    /** A waiting matcher is taken up, if there is one. */
    method PickWaiting() returns (ok: bool, ghost id: nat)
      requires Valid() && loading == null && libTarget == null && !sending
      modifies this`loading, this`sys
      ensures Valid() && ok == (loading != null)
      ensures ok ==> FirstWith(loading, WAIT_LIB_LOAD)
      ensures ok ==> L.Enabled(old(sys), L.LibPick(id)) && sys == L.Apply(old(sys), L.LibPick(id))
      ensures !ok ==> sys == old(sys) && forall n :: n in matchers ==> n.state != WAIT_LIB_LOAD
    {
      var m;
      m, id := FindOneAtState(WAIT_LIB_LOAD);
      ok := m != null;
      if ok {
        L.StepKeepsInv(sys, L.LibPick(id));
        TakeToLoad(m, id);
      }
    }

    method TakeToLoad(m: Matcher, ghost id: nat)
      requires Follows() && Is(m, id) && loading == null && libTarget == null && !sending
      modifies this`loading, this`sys
      ensures Follows() && loading == m && sys == old(sys).(lib := L.Picked(id))
    {
      sys := sys.(lib := L.Picked(id));
      loading := m;
    }

    /** `load_lib_to_matcher` begins: whatever stands at the address will be LIB_LOADING. */
    method StartLoading()
      requires Valid() && loading != null
      modifies this`loading, this`libTarget, this`sending, this`sys
      ensures Valid() && loading == null
      ensures L.Enabled(old(sys), L.LibStart) && sys == L.Apply(old(sys), L.LibStart)
    {
      L.StepKeepsInv(sys, L.LibStart);
      var m := Find(loading.address);
      LibraryFound(m, if m == null then 0 else L.Find(sys, loading.address).value);
    }

    method LibraryFound(m: Matcher?, ghost id: nat)
      requires Follows() && loading != null && (m != null ==> Is(m, id))
      modifies this`loading, this`libTarget, this`sending, this`sys
      ensures Follows() && loading == null
      ensures sys == old(sys).(lib := if m == null then L.Sending else L.LibWrites(id))
    {
      sys := sys.(lib := if m == null then L.Sending else L.LibWrites(id));
      loading, libTarget, sending := null, m, m == null;
    }

    method WriteLoading()
      requires Valid() && libTarget != null
      modifies libTarget`state, this`libTarget, this`sending, this`sys
      ensures Valid() && sending
      ensures L.Enabled(old(sys), L.LibWrite) && sys == L.Apply(old(sys), L.LibWrite)
    {
      L.StepKeepsInv(sys, L.LibWrite);
      SetState(libTarget, sys.lib.target, LIB_LOADING);
      LibrarySends();
    }

    method LibrarySends()
      requires Follows() && loading == null
      modifies this`libTarget, this`sending, this`sys
      ensures Follows() && sending && sys == old(sys).(lib := L.Sending)
    {
      sys := sys.(lib := L.Sending);
      libTarget, sending := null, true;
    }

    /** The library has been sent. */
    method FinishLoading()
      requires Valid() && sending
      modifies this`sending, this`sys
      ensures Valid() && !sending
      ensures L.Enabled(old(sys), L.LibDone) && sys == L.Apply(old(sys), L.LibDone)
    {
      L.StepKeepsInv(sys, L.LibDone);
      sys := sys.(lib := L.LibIdle);
      sending := false;
    }

    // -----------------------------------------------------------------------
    // The packet thread.

    /** It has handled its last packet to the end. */
    predicate Idle()
      reads this
    {
      sawLoading == None && sawLeaving == null && removing == null
    }

    /** `handle_packet`, by kind of packet, up to its first write after a test;
        `windowEnded` is whether the library window has ended once the reply is confirmed. */
    method HandlePacket(kind: Kind, address: nat, windowEnded: bool)
      requires Valid() && Idle()
      modifies matchers, this`built, this`sawLoading, this`sawLeaving, this`sys
      ensures Valid()
      ensures sys ==
        match kind
        case ConnBuildReply => L.Apply(old(sys), L.ConnReply(address))
        case WannaQuitRequest => L.Apply(old(sys), L.WannaQuit(address))
        case QuitedNotice => L.Apply(old(sys), L.Quited(address))
        case LibEndReply => if windowEnded then L.Apply(old(sys), L.LibEndCheck(address)) else old(sys)
    {
      match kind
      case ConnBuildReply => ConnectionBuilt(address);
      case WannaQuitRequest => NodeQuits(address);
      case QuitedNotice => NodeQuited(address);
      case LibEndReply => if windowEnded { LibraryEnded(address); }
    }

    /** A connection reply reaches the builder of that address, if there is one. */
    method ConnectionBuilt(address: nat)
      requires Valid() && Idle()
      modifies this`built, this`sys
      ensures Valid() && sys == L.Apply(old(sys), L.ConnReply(address))
    {
      L.StepKeepsInv(sys, L.ConnReply(address));
      if building != null && building.address == address {
        Answered(address);
      }
    }

    /** `set_built(true)` of the builder at work. */
    method Answered(address: nat)
      requires Follows() && Idle() && building != null && building.address == address
      modifies this`built, this`sys
      ensures Follows() && sys == L.Apply(old(sys), L.ConnReply(address))
    {
      sys := L.Apply(sys, L.ConnReply(address));
      built := true;
    }

    method NodeQuits(address: nat)
      requires Valid() && Idle()
      modifies matchers, this`sys
      ensures Valid() && sys == L.Apply(old(sys), L.WannaQuit(address))
    {
      L.StepKeepsInv(sys, L.WannaQuit(address));
      var m := Find(address);
      if m != null {
        SetState(m, L.Find(sys, address).value, TO_BE_COLLECTED);
      }
    }

    /** QUITED: only a matcher to be collected goes on to `CollectMatcher`. */
    method NodeQuited(address: nat)
      requires Valid() && Idle()
      modifies this`sawLeaving, this`sys
      ensures Valid() && sys == L.Apply(old(sys), L.Quited(address))
    {
      L.StepKeepsInv(sys, L.Quited(address));
      var m := Find(address);
      if m != null && m.state == TO_BE_COLLECTED {
        PacketsLeaving(m, L.Find(sys, address).value);
      }
    }

    method PacketsLeaving(m: Matcher, ghost id: nat)
      requires Follows() && Idle() && Is(m, id)
      modifies this`sawLeaving, this`sys
      ensures Follows() && sys == old(sys).(pkt := L.SawLeaving(id))
    {
      sys := sys.(pkt := L.SawLeaving(id));
      sawLeaving := m;
    }

    method CollectMatcher()
      requires Valid() && sawLeaving != null
      modifies sawLeaving`state, this`sawLeaving, this`removing, this`sys
      ensures Valid() && removing == old(sawLeaving)
      ensures L.Enabled(old(sys), L.CollectWrite) && sys == L.Apply(old(sys), L.CollectWrite)
    {
      L.StepKeepsInv(sys, L.CollectWrite);
      ghost var id := sys.pkt.target;
      SetState(sawLeaving, id, COLLECTED);
      PacketsRemove(sawLeaving, id);
    }

    method PacketsRemove(m: Matcher, ghost id: nat)
      requires Follows() && Is(m, id) && sawLoading == None
      modifies this`sawLeaving, this`removing, this`sys
      ensures Follows() && removing == m && sys == old(sys).(pkt := L.Removes(id))
    {
      sys := sys.(pkt := L.Removes(id));
      sawLeaving, removing := null, m;
    }

    method PacketsDone()
      requires Follows() && sawLeaving == null && removing == null
      modifies this`sawLoading, this`sys
      ensures Follows() && sawLoading == None && sys == old(sys).(pkt := L.PktIdle)
    {
      sys := sys.(pkt := L.PktIdle);
      sawLoading := None;
    }

    method RemoveCollected()
      requires Valid() && removing != null && !L.Locked(sys)
      modifies this`matchers, this`removing, this`sys
      ensures Valid() && removing == null
      ensures L.Enabled(old(sys), L.CollectRemove) && sys == L.Apply(old(sys), L.CollectRemove)
    {
      L.StepKeepsInv(sys, L.CollectRemove);
      AloneAt(removing, sys.pkt.target);
      DropCollected(sys.pkt.target);
    }

    method DropCollected(ghost id: nat)
      requires Follows() && removing != null && sys.pkt == L.Removes(id) && id in sys.list
      requires removing in matchers && OnlyOneAt(removing)
      modifies this`matchers, this`removing, this`sys
      ensures Follows() && removing == null
      ensures sys == old(sys).(list := old(sys).list - {id}, pkt := L.PktIdle)
    {
      RemoveMatcher(removing);
      sys := sys.(list := sys.list - {id}, pkt := L.PktIdle);
      removing := null;
    }

    ghost predicate OnlyOneAt(m: Matcher)
      reads this
    {
      forall n :: n in matchers && n.address == m.address ==> n == m
    }

    lemma AloneAt(m: Matcher, id: nat)
      requires Objects() && Listed() && L.Inv(sys) && Is(m, id) && id in sys.list
      ensures m in matchers && OnlyOneAt(m)
    {
      forall n | n in matchers && n.address == m.address
        ensures n == m
      {
        var x: nat :| x < |objects| && objects[x] == n;
      }
    }

    /** `remove_matcher`, by address: the list without the matcher, in the same order. */
    method RemoveMatcher(m: Matcher)
      requires m in matchers && OnlyOneAt(m)
      requires forall i, j :: 0 <= i < j < |matchers| ==> matchers[i] != matchers[j]
      modifies this`matchers
      ensures forall n :: n in matchers <==> n in old(matchers) && n != m
      ensures forall i, j :: 0 <= i < j < |matchers| ==> matchers[i] != matchers[j]
      ensures exists i :: 0 <= i < |old(matchers)| && old(matchers)[i] == m
                           && matchers == old(matchers)[..i] + old(matchers)[i + 1..]
    {
      var i := 0;
      while matchers[i].address != m.address
        invariant 0 <= i < |matchers| && m in matchers[i..]
        decreases |matchers| - i
      {
        i := i + 1;
      }
      assert matchers[i] in matchers && matchers[i] == m;
      ghost var before := matchers;
      matchers := matchers[..i] + matchers[i + 1..];
      forall n | n in before && n != m
        ensures n in matchers
      {
        var j :| 0 <= j < |before| && before[j] == n;
        assert n == if j < i then matchers[j] else matchers[j - 1];
      }
    }

    /** LIB_END: the state is read here and written in `LibraryReady`. */
    method LibraryEnded(address: nat)
      requires Valid() && Idle()
      modifies this`sawLoading, this`sys
      ensures Valid() && sys == L.Apply(old(sys), L.LibEndCheck(address))
    {
      L.StepKeepsInv(sys, L.LibEndCheck(address));
      var m := Find(address);
      if m != null && m.state == LIB_LOADING {
        PacketsLoading(address);
      }
    }

    method PacketsLoading(address: nat)
      requires Follows() && Idle()
      modifies this`sawLoading, this`sys
      ensures Follows() && sys == old(sys).(pkt := L.SawLoading(address))
    {
      sys := sys.(pkt := L.SawLoading(address));
      sawLoading := Some(address);
    }

    method LibraryReady()
      requires Valid() && sawLoading.Some?
      modifies matchers, this`sawLoading, this`sys
      ensures Valid() && sawLoading == None
      ensures L.Enabled(old(sys), L.LibEndWrite) && sys == L.Apply(old(sys), L.LibEndWrite)
    {
      L.StepKeepsInv(sys, L.LibEndWrite);
      var m := Find(sawLoading.value);
      if m != null {
        SetState(m, L.Find(sys, sawLoading.value).value, READY);
      }
      PacketsDone();
    }
  }
}
