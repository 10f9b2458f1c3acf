/** `PacketWindow`: the circular window between a loader, a sender that may
    resend, and the confirmations. Each method is one critical section, except
    `Write`, which fills the acquired slot outside the lock. */
module PacketWindows {
  import opened Wrappers
  import opened Words

  /** While `n` packets from `c` on are in flight, the index of a response finds one of
      them exactly when the response is to one of them, and then that one: repeated and
      late responses, up to `256 - n` packets old, find nothing. */
  lemma ResponseFindsItsPacket(c: nat, n: nat, j: nat)
    requires n <= 256 && c + n - 256 <= j < c + 256
    ensures AnswersOne(c, n, j) <==> c <= j < c + n
    ensures forall i: nat :: c <= i < c + n && SameIndex(i, j) ==> i == j
  {
    forall i: nat | c <= i < c + n
      ensures SameIndex(i, j) <==> i == j
    {
      NearAreSame(i, j);
    }
    if c <= j < c + n {
      AnswersItself(c, n, j, j);
    }
  }

  lemma AnswersItself(c: nat, n: nat, i: nat, j: nat)
    requires c <= i < c + n && i == j
    ensures AnswersOne(c, n, j)
  {
    assert SameIndex(i, j);
  }

  /** The index of packet `j` is that of one of the `n` packets from `c` on. */
  ghost predicate AnswersOne(c: nat, n: nat, j: nat) {
    exists i: nat :: c <= i < c + n && SameIndex(i, j)
  }

  class PacketWindow<T> {
    const N: nat
    const circularBuf: array<T>
    var head: nat
    var curr: nat
    var tail: nat
    var considerTimeout: bool
    var allPut: bool
    ghost var put: seq<T>
    ghost var confirmed: nat

    constructor (N: nat, init: T)
      requires N > 0
      ensures Valid() && fresh(circularBuf) && this.N == N
      ensures put == [] && confirmed == 0 && !allPut
    {
      this.N := N;
      circularBuf := new T[N + 1](_ => init);
      head, curr, tail := 0, 0, 0;
      considerTimeout, allPut := false, false;
      put, confirmed := [], 0;
    }

    /** `next`: the following slot of the ring. */
    function Next(p: nat): (q: nat)
      requires p <= N
      ensures q <= N && q == (p + 1) % (N + 1)
    {
      if p == N then
        assert (N + 1) % (N + 1) == 0;
        0
      else
        assert (p + 1) % (N + 1) == p + 1;
        p + 1
    }

    /** How many slots on from `p` the slot `q` is. */
    function Ahead(p: nat, q: nat): (d: nat)
      requires p <= N && q <= N
      ensures d <= N && (d == 0 <==> p == q)
    {
      if q < p then q + N + 1 - p else q - p
    }

    /** The slot `k` places on from `p`. */
    function Slot(p: nat, k: nat): (q: nat)
      requires p <= N && k <= N
      ensures q <= N && Ahead(p, q) == k
    {
      if p + k <= N then p + k else p + k - (N + 1)
    }

    /** Packets put and not yet confirmed. */
    function NumElements(): nat
      requires head <= N && tail <= N
      reads this`head, this`tail
    {
      Ahead(head, tail)
    }

    /** Packets of those that the sender has been given since it last started
        over. */
    function NumSent(): nat
      requires head <= N && curr <= N
      reads this`head, this`curr
    {
      Ahead(head, curr)
    }

    /** The ring holds, from `head`, the packets put and not confirmed; the
        sender is somewhere among them; the timeout is armed exactly while some
        packet is unconfirmed. */
    ghost predicate Valid()
      reads this, circularBuf
    {
      && circularBuf.Length == N + 1 && N > 0
      && head <= N && curr <= N && tail <= N
      && NumSent() <= NumElements()
      && confirmed + NumElements() == |put|
      && (forall k :: 0 <= k < NumElements() ==> circularBuf[Slot(head, k)] == put[confirmed + k])
      && (considerTimeout <==> head != tail)
    }

    method Reset()
      requires Valid()
      modifies this
      ensures Valid() && put == [] && confirmed == 0 && !allPut
    {
      allPut := false;
      considerTimeout := false;
      head, curr, tail := 0, 0, 0;
      put, confirmed := [], 0;
    }

    /** `*acquire() = v`, outside the lock: never a packet in flight. */
    method Write(v: T)
      requires Valid()
      modifies circularBuf
      ensures Valid() && circularBuf[tail] == v
    {
      circularBuf[tail] := v;
    }

    /** `put`; a full window makes the producer wait. */
    method Put()
      requires Valid() && NumElements() < N
      modifies this`tail, this`considerTimeout, this`put
      ensures Valid() && put == old(put) + [circularBuf[old(tail)]]
      ensures NumElements() == old(NumElements()) + 1 && NumSent() == old(NumSent())
    {
      put := put + [circularBuf[tail]];
      considerTimeout := true;
      assert tail == Slot(head, NumElements());
      tail := Next(tail);
    }

    method NotifyAllPut()
      requires Valid()
      modifies this`allPut
      ensures Valid() && allPut
    {
      allPut := true;
    }

    /** One pass of `get`. When everything sent waits for confirmation, a timeout
        starts over from the first unconfirmed packet; the end is reported only
        when all packets have been put and confirmed; otherwise the call goes on
        waiting (`None` and not `ended`). */
    method Get(timedOut: bool) returns (p: Option<T>, ended: bool)
      requires Valid()
      modifies this`curr
      ensures Valid()
      ensures var sent := if old(NumSent()) < NumElements() then old(NumSent()) else 0;
              p.Some? ==> sent < NumElements() && p.value == put[confirmed + sent] && NumSent() == sent + 1
      ensures p.Some? <==> NumElements() > 0 && (old(NumSent()) < NumElements() || timedOut)
      ensures p == None ==> curr == old(curr)
      ensures ended <==> allPut && confirmed == |put|
    {
      ended := false;
      if curr == tail {
        if allPut && head == tail {
          return None, true;
        }
        if timedOut && considerTimeout {
          curr := head;
        }
      }
      if curr == tail {
        return None, false;
      }
      p := Some(circularBuf[curr]);
      assert curr == Slot(head, NumSent());
      curr := Next(curr);
    }

    /** `confirm`: the first sent packet with this index, and all before it. */
    method Confirm(index: nat, indexOf: T -> nat) returns (found: bool)
      requires Valid()
      modifies this`head, this`considerTimeout, this`confirmed
      ensures Valid()
      ensures found <==> exists i :: old(confirmed) <= i < old(confirmed + NumSent()) && indexOf(put[i]) == index
      ensures !found ==> confirmed == old(confirmed) && head == old(head)
      ensures found ==>
                && old(confirmed) < confirmed <= old(confirmed + NumSent())
                && indexOf(put[confirmed - 1]) == index
                && (forall k :: old(confirmed) <= k < confirmed - 1 ==> indexOf(put[k]) != index)
                && NumSent() == old(NumSent()) - (confirmed - old(confirmed))
    {
      var nh := head;
      ghost var k := 0;
      while nh != curr
        invariant 0 <= k <= NumSent() && nh == Slot(head, k)
        invariant head == old(head) && considerTimeout == old(considerTimeout) && confirmed == old(confirmed)
        invariant forall i :: confirmed <= i < confirmed + k ==> indexOf(put[i]) != index
        decreases NumSent() - k
      {
        assert circularBuf[nh] == put[confirmed + k];
        if index == indexOf(circularBuf[nh]) {
          Advance(nh, k);
          if head == tail {
            considerTimeout := false;
          }
          return true;
        }
        nh := Next(nh);
        k := k + 1;
      }
      return false;
    }

    /** `head = next(nh)`, where `nh` is `k` slots after the head. */
    method Advance(nh: nat, ghost k: nat)
      requires Valid() && k < NumSent() && nh == Slot(head, k)
      modifies this`head, this`confirmed
      ensures head <= N && confirmed == old(confirmed) + k + 1
      ensures NumSent() == old(NumSent()) - (k + 1) && NumElements() == old(NumElements()) - (k + 1)
      ensures forall j :: 0 <= j < NumElements() ==> circularBuf[Slot(head, j)] == put[confirmed + j]
    {
      ghost var h, c := head, confirmed;
      head := Next(nh);
      confirmed := confirmed + k + 1;
      assert forall j :: 0 <= j < NumElements() ==> Slot(head, j) == Slot(h, k + 1 + j);
    }
  }
}
