/** Packets, the window seen from its producer, and the cutting of a word
    stream into 360-word packets that both loaders share. */
module PacketStream {
  import opened Words

  const MAX_DATA_LEN := 1440
  /** Products and remainders below spell the constant out, to stay linear. */
  const MAX_WORDS := 360
  const BUFFER_WORDS := 366

  /** What a packet carries once it has been put. */
  datatype PacketValue = PacketValue(ptype: u8, index: u8, words: seq<word>)

  /** Types of the first and of the other packets, and the first index. */
  datatype Shape = Shape(first: u8, rest: u8, start: nat)

  // -------------------------------------------------------------------------
  // The specification: a stream cut into packets.

  function Piece(s: seq<word>, k: nat): seq<word> {
    if 360 * k + MAX_WORDS <= |s| then s[360 * k..360 * k + MAX_WORDS]
    else if 360 * k <= |s| then s[360 * k..]
    else []
  }

  function PacketAt(shape: Shape, s: seq<word>, k: nat): PacketValue {
    PacketValue(if k == 0 then shape.first else shape.rest, (shape.start + k) % 256, Piece(s, k))
  }

  function FirstPackets(shape: Shape, s: seq<word>, n: nat): (ps: seq<PacketValue>)
    ensures |ps| == n
  {
    seq(n, k requires 0 <= k => PacketAt(shape, s, k))
  }

  /** All packets of the stream: as many as are needed, none empty. */
  function Packets(shape: Shape, s: seq<word>): seq<PacketValue> {
    FirstPackets(shape, s, (|s| + MAX_WORDS - 1) / 360)
  }

  /** The payload a receiver sees when it reads the packets in order. */
  function Payload(ps: seq<PacketValue>): seq<word> {
    if ps == [] then [] else Payload(ps[..|ps| - 1]) + ps[|ps| - 1].words
  }

  lemma PayloadSnoc(ps: seq<PacketValue>, p: PacketValue)
    ensures Payload(ps + [p]) == Payload(ps) + p.words
  {
    assert (ps + [p])[..|ps|] == ps;
  }

  lemma FirstPacketsExtend(shape: Shape, s: seq<word>, t: seq<word>, n: nat)
    requires 360 * n <= |s|
    ensures FirstPackets(shape, s + t, n) == FirstPackets(shape, s, n)
  {
    forall k | 0 <= k < n
      ensures PacketAt(shape, s + t, k) == PacketAt(shape, s, k)
    {
      assert 360 * k + MAX_WORDS <= 360 * n;
      assert Piece(s + t, k) == Piece(s, k);
    }
  }

  lemma {:induction false} PayloadOfFirstPackets(shape: Shape, s: seq<word>, n: nat)
    requires 360 * n <= |s|
    ensures Payload(FirstPackets(shape, s, n)) == s[..360 * n]
  {
    if n > 0 {
      PayloadOfFirstPackets(shape, s, n - 1);
      var ps := FirstPackets(shape, s, n);
      assert ps[..n - 1] == FirstPackets(shape, s, n - 1);
      assert ps[n - 1].words == s[360 * (n - 1)..360 * n];
    }
  }

  /** Cutting loses nothing: the payloads concatenate to the stream, every
      packet but the last is full, and no packet is empty. */
  lemma PacketsCarryStream(shape: Shape, s: seq<word>)
    ensures Payload(Packets(shape, s)) == s
    ensures forall k :: 0 <= k < |Packets(shape, s)| - 1 ==> |Packets(shape, s)[k].words| == MAX_WORDS
    ensures forall k :: 0 <= k < |Packets(shape, s)| ==> 0 < |Packets(shape, s)[k].words| <= MAX_WORDS
  {
    var n := |s| / 360;
    PayloadOfFirstPackets(shape, s, n);
    var ps := Packets(shape, s);
    if |s| % 360 != 0 {
      assert |ps| == n + 1;
      assert ps[..n] == FirstPackets(shape, s, n);
      assert ps[n].words == s[360 * n..];
    } else {
      assert |ps| == n;
      assert s[..360 * n] == s;
    }
  }

  // -------------------------------------------------------------------------
  // The packet buffer and the window.

  /** A packet in the window's buffer; its payload is written in place. */
  class Packet {
    var ptype: u8
    var index: u8
    var dataLen: nat
    const data: array<word>

    constructor ()
      ensures fresh(data) && data.Length == BUFFER_WORDS
    {
      ptype := *;
      index := *;
      dataLen := *;
      data := new word[BUFFER_WORDS];
    }

    ghost predicate Valid()
      reads this
    {
      data.Length == BUFFER_WORDS
    }

    function Value(): PacketValue
      requires Valid() && dataLen / 4 <= BUFFER_WORDS
      reads this, data
    {
      PacketValue(ptype, index, data[..dataLen / 4])
    }

    method SetInfo(t: u8, idx: u8, len: nat)
      modifies this
      ensures ptype == t && index == idx && dataLen == len
    {
      ptype := t;
      index := idx;
      dataLen := len;
    }
  }

  /** The window as its producer sees it: `slot` is the packet to write, `put`
      publishes it, and the next slot holds stale words. */
  class OutWindow {
    var slot: Packet
    var sent: seq<PacketValue>

    constructor ()
      ensures Valid() && sent == []
    {
      sent := [];
      slot := new Packet();
    }

    ghost predicate Valid()
      reads this, slot
    {
      slot.Valid()
    }

    method Reset()
      modifies this`sent
      ensures sent == []
    {
      sent := [];
    }

    method Acquire() returns (p: Packet)
      ensures p == slot
    {
      p := slot;
    }

    method Put()
      requires Valid() && slot.dataLen / 4 <= BUFFER_WORDS
      modifies this
      ensures Valid() && fresh(slot) && fresh(slot.data)
      ensures sent == old(sent) + [old(slot.Value())]
    {
      sent := sent + [slot.Value()];
      slot := new Packet();
    }
  }

  /** The window holds the full packets of the stream `s` put so far, after
      whatever it held before, and the slot holds the last `count` words. */
  ghost predicate Framed(w: OutWindow, base: seq<PacketValue>, shape: Shape, n: nat, s: seq<word>, count: nat)
    reads w, w.slot, w.slot.data
  {
    && w.Valid()
    && count <= MAX_WORDS
    && |s| == 360 * n + count
    && w.sent == base + FirstPackets(shape, s, n)
    && w.slot.data[..count] == s[360 * n..]
    && w.slot.ptype == (if n == 0 then shape.first else shape.rest)
    && w.slot.index == (shape.start + n) % 256
    && w.slot.dataLen == MAX_DATA_LEN
  }

  /** `pdata[count++] = x`. */
  method PutWord(w: OutWindow, count: nat, x: word,
                 ghost base: seq<PacketValue>, ghost shape: Shape, ghost n: nat, ghost s: seq<word>)
    returns (count': nat)
    requires Framed(w, base, shape, n, s, count) && count < MAX_WORDS
    modifies w.slot.data
    ensures count' == count + 1
    ensures Framed(w, base, shape, n, s + [x], count')
  {
    var pdata := w.slot.data;
    pdata[count] := x;
    count' := count + 1;
    FirstPacketsExtend(shape, s, [x], n);
    assert pdata[..count'] == old(pdata[..count]) + [x];
    assert (s + [x])[360 * n..] == s[360 * n..] + [x];
  }

  /** `memset(pdata + count, 0xFF, 4 * k); count += k`. */
  method FillWords(w: OutWindow, count: nat, k: nat,
                   ghost base: seq<PacketValue>, ghost shape: Shape, ghost n: nat, ghost s: seq<word>)
    returns (count': nat)
    requires Framed(w, base, shape, n, s, count) && count + k <= MAX_WORDS
    modifies w.slot.data
    ensures count' == count + k
    ensures Framed(w, base, shape, n, s + Fill(k), count')
  {
    count' := count;
    assert s + Fill(0) == s;
    for i := 0 to k
      invariant count' == count + i
      invariant Framed(w, base, shape, n, s + Fill(i), count')
    {
      count' := PutWord(w, count', FILLWORD, base, shape, n, s + Fill(i));
      assert s + Fill(i) + [FILLWORD] == s + Fill(i + 1);
    }
  }

  /** A run of words copied one by one: `for (i..) pdata[count++] = b.words[i]`. */
  method CopyWords(w: OutWindow, count: nat, words: seq<word>,
                   ghost base: seq<PacketValue>, ghost shape: Shape, ghost n: nat, ghost s: seq<word>)
    returns (count': nat)
    requires Framed(w, base, shape, n, s, count) && count + |words| <= MAX_WORDS
    modifies w.slot.data
    ensures count' == count + |words|
    ensures Framed(w, base, shape, n, s + words, count')
  {
    count' := count;
    assert s + words[..0] == s;
    for i := 0 to |words|
      invariant count' == count + i
      invariant Framed(w, base, shape, n, s + words[..i], count')
    {
      count' := PutWord(w, count', words[i], base, shape, n, s + words[..i]);
      assert s + words[..i] + [words[i]] == s + words[..i + 1];
    }
    assert words[..|words|] == words;
  }

  /** `window->put()` on a full slot publishes the next packet of the stream. */
  method PutFull(w: OutWindow, ghost base: seq<PacketValue>, ghost shape: Shape, ghost n: nat, ghost s: seq<word>)
    requires Framed(w, base, shape, n, s, MAX_WORDS)
    modifies w
    ensures w.Valid() && fresh(w.slot) && fresh(w.slot.data)
    ensures w.sent == base + FirstPackets(shape, s, n + 1)
  {
    assert w.slot.Value() == PacketAt(shape, s, n);
    w.Put();
    assert FirstPackets(shape, s, n + 1) == FirstPackets(shape, s, n) + [PacketAt(shape, s, n)];
  }
}
