/** `BitFeature`: what its bits say about the picture, and what the table-driven
    distance measures. */
module BitFeatures {

  import opened Words
  import opened Integrals

  // -------------------------------------------------------------------------
  // Bits of a byte, and the table of their counts.

  /** A byte is its eight bits, the lowest first. */
  type Byte = b: seq<bool> | |b| == 8 witness [false, false, false, false, false, false, false, false]

  const ZERO: Byte := [false, false, false, false, false, false, false, false]

  function One(b: bool): nat { if b then 1 else 0 }

  /** The number of bits set among the lowest `n`. */
  function Pop(x: Byte, n: nat): nat
    requires n <= 8
  {
    if n == 0 then 0 else Pop(x, n - 1) + One(x[n - 1])
  }

  /** Four bits as a number. */
  function Four(a: bool, b: bool, c: bool, d: bool): (n: nat)
    ensures n < 16
  {
    One(a) + 2 * One(b) + 4 * One(c) + 8 * One(d)
  }

  /** The number a byte is. */
  function Value(x: Byte): (n: nat)
    ensures n < 256
  {
    Four(x[4], x[5], x[6], x[7]) * 16 + Four(x[0], x[1], x[2], x[3])
  }

  /** A row of sixteen entries of `dist_table`, the first of them `n`. */
  function Row(n: nat): seq<nat> {
    [n, n + 1, n + 1, n + 2, n + 1, n + 2, n + 2, n + 3, n + 1, n + 2, n + 2, n + 3, n + 2, n + 3, n + 3, n + 4]
  }

  /** `dist_table[n]`: its sixteen rows begin with the entries of the first. */
  function DistTable(n: nat): nat
    requires n < 256
  {
    Row(Row(0)[n / 16])[n % 16]
  }

  /** The number of bits set in a number below sixteen. */
  function Pop4(n: nat): nat
    requires n < 16
  {
    n % 2 + n / 2 % 2 + n / 4 % 2 + n / 8
  }

  lemma RowAt(n: nat, c: nat)
    requires c < 16
    ensures |Row(n)| == 16 && Row(n)[c] == n + Pop4(c)
  {
    if c < 4 {} else if c < 8 {} else if c < 12 {} else {}
  }

  lemma DistTableAt(hi: nat, lo: nat)
    requires hi < 16 && lo < 16
    ensures DistTable(hi * 16 + lo) == Pop4(hi) + Pop4(lo)
  {
    RowAt(0, hi);
    RowAt(Pop4(hi), lo);
    Nibble(hi, lo);
  }

  lemma Nibble(hi: nat, lo: nat)
    requires lo < 16
    ensures (hi * 16 + lo) / 16 == hi && (hi * 16 + lo) % 16 == lo
  {
  }

  lemma FourPop(a: bool, b: bool, c: bool, d: bool)
    ensures Pop4(Four(a, b, c, d)) == One(a) + One(b) + One(c) + One(d)
  {
  }

  lemma PopFour(x: Byte, n: nat)
    requires n <= 4
    ensures Pop(x, n + 4) == Pop(x, n) + One(x[n]) + One(x[n + 1]) + One(x[n + 2]) + One(x[n + 3])
  {
    var a, b, c := Pop(x, n + 1), Pop(x, n + 2), Pop(x, n + 3);
  }

  lemma HalfPop(x: Byte, n: nat)
    requires n <= 4
    ensures Pop(x, n + 4) == Pop(x, n) + Pop4(Four(x[n], x[n + 1], x[n + 2], x[n + 3]))
  {
    FourPop(x[n], x[n + 1], x[n + 2], x[n + 3]);
    PopFour(x, n);
  }

  lemma HalvesPop(x: Byte, hi: nat, lo: nat)
    requires hi == Four(x[4], x[5], x[6], x[7]) && lo == Four(x[0], x[1], x[2], x[3])
    ensures Pop(x, 8) == Pop4(hi) + Pop4(lo)
  {
    HalfPop(x, 0);
    HalfPop(x, 4);
  }

  lemma ValueAt(x: Byte, hi: nat, lo: nat)
    requires hi == Four(x[4], x[5], x[6], x[7]) && lo == Four(x[0], x[1], x[2], x[3])
    ensures DistTable(Value(x)) == Pop4(hi) + Pop4(lo)
  {
    ValueHalves(x);
    DistTableAt(hi, lo);
  }

  lemma ValueHalves(x: Byte)
    ensures Value(x) == Four(x[4], x[5], x[6], x[7]) * 16 + Four(x[0], x[1], x[2], x[3])
  {
  }

  /** The table counts bits. */
  lemma TableCounts(x: Byte)
    ensures DistTable(Value(x)) == Pop(x, 8)
  {
    var hi, lo := Four(x[4], x[5], x[6], x[7]), Four(x[0], x[1], x[2], x[3]);
    HalvesPop(x, hi, lo);
    ValueAt(x, hi, lo);
  }

  method Lookup(x: Byte) returns (d: nat)
    ensures d == Pop(x, 8)
  {
    TableCounts(x);
    d := DistTable(Value(x));
  }

  // -------------------------------------------------------------------------
  // Features and their distance.

  /** A feature of `nwords` 32-bit words, with room for four. */
  datatype BitFeature = BitFeature(nwords: nat, bytes: seq<Byte>)
  {
    predicate Valid() { nwords in {1, 2, 4} && |bytes| == 16 }
    function NBytes(): nat { nwords * 4 }
    function NBits(): nat { nwords * 32 }

    predicate Bit(k: nat)
      requires Valid() && k < 128
    {
      bytes[k / 8][k % 8]
    }
  }

  /** The number of the first `n` bits in which `f` and `g` differ. */
  function Differences(f: BitFeature, g: BitFeature, n: nat): nat
    requires f.Valid() && g.Valid() && n <= 128
  {
    if n == 0 then 0 else Differences(f, g, n - 1) + One(f.Bit(n - 1) != g.Bit(n - 1))
  }

  function XorByte(x: Byte, y: Byte): Byte {
    seq(8, j requires 0 <= j < 8 => x[j] != y[j])
  }

  lemma BitAt(f: BitFeature, i: nat, j: nat)
    requires f.Valid() && i < 16 && j < 8
    ensures f.Bit(i * 8 + j) == f.bytes[i][j]
  {
    assert (i * 8 + j) / 8 == i && (i * 8 + j) % 8 == j;
  }

  lemma {:induction false} PartOfByte(f: BitFeature, g: BitFeature, i: nat, n: nat)
    requires f.Valid() && g.Valid() && i < 16 && n <= 8
    ensures Differences(f, g, i * 8 + n) == Differences(f, g, i * 8) + Pop(XorByte(f.bytes[i], g.bytes[i]), n)
  {
    if n > 0 {
      PartOfByte(f, g, i, n - 1);
      BitAt(f, i, n - 1);
      BitAt(g, i, n - 1);
    }
  }

  /** `operator^`. */
  method Xor(f: BitFeature, g: BitFeature) returns (r: BitFeature)
    requires f.Valid() && g.Valid() && f.nwords == g.nwords
    ensures r.Valid() && r.nwords == f.nwords
    ensures forall i :: 0 <= i < 16 ==> r.bytes[i] == XorByte(f.bytes[i], g.bytes[i])
  {
    r := BitFeature(f.nwords, seq(16, i requires 0 <= i < 16 => XorByte(f.bytes[i], g.bytes[i])));
  }

  /** `hamming_distance`: the number of bits that differ. */
  method HammingDistance(f1: BitFeature, f2: BitFeature) returns (dist: nat)
    requires f1.Valid() && f2.Valid() && f1.nwords == f2.nwords
    ensures dist == Differences(f1, f2, f1.NBits())
  {
    var f := Xor(f1, f2);
    dist := 0;
    for i := 0 to f.NBytes()
      invariant dist == Differences(f1, f2, i * 8)
    {
      PartOfByte(f1, f2, i, 8);
      var d := Lookup(f.bytes[i]);
      dist := dist + d;
    }
  }

  /** The distance is a metric: zero for the same bits only, the same both ways, and no
      longer than any way round. */
  lemma {:induction false} DistanceIsMetric(f: BitFeature, g: BitFeature, h: BitFeature, n: nat)
    requires f.Valid() && g.Valid() && h.Valid() && n <= 128
    ensures Differences(f, g, n) == 0 <==> forall k :: 0 <= k < n ==> f.Bit(k) == g.Bit(k)
    ensures Differences(f, g, n) == Differences(g, f, n)
    ensures Differences(f, h, n) <= Differences(f, g, n) + Differences(g, h, n)
  {
    if n > 0 {
      DistanceIsMetric(f, g, h, n - 1);
    }
  }

  // -------------------------------------------------------------------------
  // The feature of a picture: which of two blocks is the brighter.

  type block = b: int | 0 <= b < 36

  /** `order_pairs32`, by bytes of the feature. */
  function Pairs32(i: nat): (row: seq<(block, block)>)
    requires i < 4
    ensures |row| == 8
  {
    match i
    case 0 => [(0, 35), (35, 30), (30, 29), (29, 24), (24, 23), (23, 18), (18, 17), (17, 12)]
    case 1 => [(12, 11), (11, 6), (6, 5), (5, 34), (34, 4), (4, 33), (33, 3), (3, 32)]
    case 2 => [(32, 2), (2, 31), (31, 1), (1, 28), (28, 25), (25, 22), (22, 19), (19, 16)]
    case _ => [(16, 13), (13, 10), (10, 27), (27, 9), (9, 26), (8, 21), (7, 20), (15, 14)]
  }

  /** `order_pairs128`, by bytes of the feature. */
  function Pairs128(i: nat): (row: seq<(block, block)>)
    requires i < 16
    ensures |row| == 8
  {
    match i
    case 0 => [(12, 1), (1, 9), (9, 24), (24, 0), (0, 27), (27, 25), (25, 31), (31, 29)]
    case 1 => [(29, 15), (15, 18), (18, 28), (28, 32), (32, 13), (13, 23), (23, 33), (33, 26)]
    case 2 => [(26, 3), (3, 20), (20, 17), (17, 8), (8, 19), (19, 22), (22, 34), (34, 30)]
    case 3 => [(30, 7), (7, 6), (6, 11), (11, 5), (5, 4), (4, 2), (2, 21), (21, 14)]
    case 4 => [(14, 35), (35, 10), (10, 16), (16, 12), (12, 9), (1, 24), (9, 0), (24, 27)]
    case 5 => [(0, 25), (27, 31), (25, 29), (31, 15), (29, 18), (15, 28), (18, 32), (28, 13)]
    case 6 => [(32, 23), (13, 33), (23, 26), (33, 3), (26, 20), (3, 17), (20, 8), (17, 19)]
    case 7 => [(8, 22), (19, 34), (22, 30), (34, 7), (30, 6), (7, 11), (6, 5), (11, 4)]
    case 8 => [(5, 2), (4, 21), (2, 14), (21, 35), (14, 10), (35, 16), (10, 12), (16, 1)]
    case 9 => [(12, 24), (1, 0), (9, 27), (24, 25), (0, 31), (27, 29), (25, 15), (31, 18)]
    case 10 => [(29, 28), (15, 32), (18, 13), (28, 23), (32, 33), (13, 26), (23, 3), (33, 20)]
    case 11 => [(26, 17), (3, 8), (20, 19), (17, 22), (8, 34), (19, 30), (22, 7), (34, 6)]
    case 12 => [(30, 11), (7, 5), (6, 4), (11, 2), (5, 21), (4, 14), (2, 35), (21, 10)]
    case 13 => [(14, 16), (35, 12), (10, 1), (16, 9), (12, 0), (1, 27), (9, 25), (24, 31)]
    case 14 => [(0, 29), (27, 15), (25, 18), (31, 28), (29, 32), (15, 13), (18, 23), (28, 33)]
    case _ => [(32, 26), (13, 3), (23, 20), (33, 17), (26, 8), (3, 19), (20, 22), (17, 34)]
  }


  /** The blocks that bit `k` compares. */
  function Pair(nbits: nat, k: nat): (block, block)
    requires nbits in {32, 64, 128} && k < nbits
  {
    if nbits == 32 then Pairs32(k / 8)[k % 8] else Pairs128(k / 8)[k % 8]
  }

  /** The table used for features of `nbits` bits. */
  function PairTable(nbits: nat): (p: seq<(block, block)>)
    requires nbits in {32, 64, 128}
    ensures |p| == nbits
  {
    seq(nbits, k requires 0 <= k < nbits => Pair(nbits, k))
  }

  predicate Brighter(gray: seq<int>, p: (block, block))
    requires |gray| == 36
  {
    gray[p.0] > gray[p.1]
  }

  /** `v` has a bit for each pair of blocks, and zeros beyond. */
  predicate IsOrderFeature(v: BitFeature, pairs: seq<(block, block)>, gray: seq<int>)
    requires |pairs| in {32, 64, 128} && |gray| == 36
  {
    && v.Valid() && v.NBits() == |pairs|
    && (forall k: nat :: k < |pairs| ==> (v.Bit(k) <==> Brighter(gray, pairs[k])))
    && (forall i :: v.NBytes() <= i < 16 ==> v.bytes[i] == ZERO)
  }

  /** The lowest `n` bits of byte `i` are those of the feature, and the others are not set. */
  predicate ByteSays(x: Byte, pairs: seq<(block, block)>, gray: seq<int>, i: nat, n: nat)
    requires |pairs| in {32, 64, 128} && |gray| == 36 && i * 8 < |pairs|
  {
    forall t: nat :: t < 8 ==> (x[t] <==> t < n && Brighter(gray, pairs[i * 8 + t]))
  }

  /** One byte of the feature: the loop over its bits; `|= bit` with `bit` at `1 << j`. */
  method OrderByte(pairs: seq<(block, block)>, gray: seq<int>, i: nat) returns (x: Byte)
    requires |pairs| in {32, 64, 128} && |gray| == 36 && i * 8 < |pairs|
    ensures ByteSays(x, pairs, gray, i, 8)
  {
    x := ZERO;
    var k := i * 8;
    for j := 0 to 8
      invariant k == i * 8 + j
      invariant ByteSays(x, pairs, gray, i, j)
    {
      var p := pairs[k];
      if gray[p.0] > gray[p.1] {
        x := x[j := true];
      }
      k := k + 1;
    }
  }

  lemma NextByte(v: BitFeature, x: Byte, pairs: seq<(block, block)>, gray: seq<int>, i: nat)
    requires |pairs| in {32, 64, 128} && |gray| == 36 && i * 8 < |pairs| && v.Valid()
    requires forall k: nat :: k < i * 8 && k < |pairs| ==> (v.Bit(k) <==> Brighter(gray, pairs[k]))
    requires ByteSays(x, pairs, gray, i, 8)
    ensures var w := v.(bytes := v.bytes[i := x]);
            forall k: nat :: k < i * 8 + 8 && k < |pairs| ==> (w.Bit(k) <==> Brighter(gray, pairs[k]))
  {
    var w := v.(bytes := v.bytes[i := x]);
    forall k: nat | k < i * 8 + 8 && k < |pairs|
      ensures w.Bit(k) <==> Brighter(gray, pairs[k])
    {
      if k < i * 8 {
        assert w.Bit(k) == v.Bit(k);
      } else {
        BitAt(w, i, k - i * 8);
      }
    }
  }

  method OrderBits(pairs: seq<(block, block)>, gray: seq<int>) returns (v: BitFeature)
    requires |pairs| in {32, 64, 128} && |gray| == 36
    ensures IsOrderFeature(v, pairs, gray)
  {
    v := BitFeature(|pairs| / 32, seq(16, i requires 0 <= i < 16 => ZERO));
    for i := 0 to v.NBytes()
      invariant v.Valid() && v.NBits() == |pairs|
      invariant forall k: nat :: k < i * 8 && k < |pairs| ==> (v.Bit(k) <==> Brighter(gray, pairs[k]))
      invariant forall b :: i <= b < 16 ==> v.bytes[b] == ZERO
    {
      var x := OrderByte(pairs, gray, i);
      NextByte(v, x, pairs, gray, i);
      v := v.(bytes := v.bytes[i := x]);
    }
  }

  // -------------------------------------------------------------------------
  // From the picture to the feature (`order_feature`).

  const NG := 6

  /** The pixels of block `k` of the 6 x 6 blocks a picture is divided into. */
  function BlockSum(img: Gray, k: nat): nat
    requires img.Valid() && k < 36
  {
    var bh, bw := img.Height() / 6, img.width / 6;
    BlockInside(bh, img.Height(), k / 6);
    BlockInside(bw, img.width, k % 6);
    BoxSum(img, k / 6 * bh, k / 6 * bh + bh, k % 6 * bw, k % 6 * bw + bw)
  }

  lemma BlockInside(b: nat, n: nat, i: nat)
    requires b == n / 6 && i < 6
    ensures 0 <= i * b && i * b + b <= n
  {
    if i == 0 {} else if i == 1 {} else if i == 2 {} else if i == 3 {} else if i == 4 {} else {}
  }

  /** The picture with another value for one pixel. */
  function SetPixel(img: Gray, r: nat, c: nat, v: u8): (w: Gray)
    requires img.Valid() && r < img.Height() && c < img.width
    ensures w.Valid() && w.Height() == img.Height() && w.width == img.width
  {
    var row: seq<u8> := img.rows[r][..c] + [v] + img.rows[r][c + 1..];
    img.(rows := img.rows[r := row])
  }

  lemma {:induction false} RowPixel(img: Gray, r: nat, c: nat, v: u8, row: nat, c0: nat, c1: nat)
    requires img.Valid() && r < img.Height() && c < img.width && row < img.Height() && c1 <= img.width
    ensures RowPart(SetPixel(img, r, c, v), row, c0, c1) ==
            RowPart(img, row, c0, c1) + if row == r && c0 <= c < c1 then v - img.rows[r][c] else 0
    decreases c1
  {
    if c0 < c1 {
      RowPixel(img, r, c, v, row, c0, c1 - 1);
    }
  }

  lemma {:induction false} BoxPixel(img: Gray, r: nat, c: nat, v: u8, r0: nat, r1: nat, c0: nat, c1: nat)
    requires img.Valid() && r < img.Height() && c < img.width && r1 <= img.Height() && c1 <= img.width
    ensures BoxSum(SetPixel(img, r, c, v), r0, r1, c0, c1) ==
            BoxSum(img, r0, r1, c0, c1) + if r0 <= r < r1 && c0 <= c < c1 then v - img.rows[r][c] else 0
    decreases r1
  {
    if r0 < r1 {
      BoxPixel(img, r, c, v, r0, r1 - 1, c0, c1);
      RowPixel(img, r, c, v, r1 - 1, c0, c1);
    }
  }

  /** Each pixel counts for the block of its own row and column of blocks, once, and for no
      other block. */
  lemma PixelOfBlock(img: Gray, r: nat, c: nat, v: u8, i: nat, j: nat)
    requires img.Valid() && r < img.Height() && c < img.width && i < 6 && j < 6
    requires img.Height() / 6 > 0 && img.width / 6 > 0
    ensures BlockSum(SetPixel(img, r, c, v), 6 * i + j) == BlockSum(img, 6 * i + j) +
            if r / (img.Height() / 6) == i && c / (img.width / 6) == j then v - img.rows[r][c] else 0
  {
    var bh, bw := img.Height() / 6, img.width / 6;
    BlockInside(bh, img.Height(), i);
    BlockInside(bw, img.width, j);
    BlockAt(img, i, j);
    BlockAt(SetPixel(img, r, c, v), i, j);
    BoxPixel(img, r, c, v, i * bh, i * bh + bh, j * bw, j * bw + bw);
    InBlock(r, bh, i);
    InBlock(c, bw, j);
  }

  lemma BlockAt(img: Gray, i: nat, j: nat)
    requires img.Valid() && i < 6 && j < 6
    ensures var bh, bw := img.Height() / 6, img.width / 6;
            && 0 <= i * bh && i * bh + bh <= img.Height() && 0 <= j * bw && j * bw + bw <= img.width
            && BlockSum(img, 6 * i + j) == BoxSum(img, i * bh, i * bh + bh, j * bw, j * bw + bw)
  {
    BlockInside(img.Height() / 6, img.Height(), i);
    BlockInside(img.width / 6, img.width, j);
    assert (6 * i + j) / 6 == i && (6 * i + j) % 6 == j;
  }

  lemma InBlock(x: nat, b: nat, i: nat)
    requires b > 0
    ensures i * b <= x < i * b + b <==> x / b == i
  {
    var q, r := x / b, x % b;
    assert x == q * b + r;
    if i < q {
      assert i * b + b == (i + 1) * b <= q * b;
    } else if i > q {
      assert q * b + b == (q + 1) * b <= i * b;
    }
  }

  /** The box sum of block `k` in the integral image. */
  function BlockBox(iimg: IntImage, k: nat): int
    requires k < 36
    reads iimg, iimg.data
  {
    var bh, bw := iimg.Height() / 6, iimg.Width() / 6;
    BlockInside(bh, iimg.Height(), k / 6);
    BlockInside(bw, iimg.Width(), k % 6);
    iimg.BoxIntegral(k / 6 * bh, k % 6 * bw, bh, bw)
  }

  lemma {:induction false} NoWidth(img: Gray, r0: nat, r1: nat, c0: nat)
    requires img.Valid() && r1 <= img.Height() && c0 <= img.width
    ensures BoxSum(img, r0, r1, c0, c0) == 0
    decreases r1
  {
    if r0 < r1 {
      NoWidth(img, r0, r1 - 1, c0);
    }
  }

  /** A box that is empty, or lies in the picture, has the sum of its pixels. */
  lemma BoxInside(iimg: IntImage, img: Gray, row: nat, col: nat, rows: nat, cols: nat)
    requires iimg.Of(img, 1) && row + rows <= img.Height() && col + cols <= img.width
    requires rows == 0 ==> row == 0
    requires cols == 0 ==> col == 0
    ensures rows > 0 && cols > 0 ==> iimg.Height() > 0 && iimg.Width() > 0
    ensures iimg.BoxIntegral(row, col, rows, cols) == BoxSum(img, row, row + rows, col, col + cols)
  {
    iimg.EdgesOne(img.Height());
    iimg.EdgesOne(img.width);
    if rows > 0 && cols > 0 {
      iimg.BoxIsExact(img, row, col, rows, cols);
    } else if rows > 0 {
      NoWidth(img, row, row + rows, col);
    }
  }

  /** In a picture that is not scaled, a block's box sum is the sum of its pixels. */
  lemma BlockIsExact(iimg: IntImage, img: Gray, k: nat)
    requires iimg.Of(img, 1) && k < 36
    ensures BlockBox(iimg, k) == BlockSum(img, k)
  {
    iimg.EdgesOne(img.Height());
    iimg.EdgesOne(img.width);
    var bh, bw := img.Height() / 6, img.width / 6;
    BlockInside(bh, img.Height(), k / 6);
    BlockInside(bw, img.width, k % 6);
    var row, col := k / 6 * bh, k % 6 * bw;
    BoxInside(iimg, img, row, col, bh, bw);
  }

  /** The loops over the 6 x 6 blocks. */
  method BlockGrays(iimg: IntImage) returns (gray: seq<int>)
    ensures |gray| == 36 && forall b :: 0 <= b < 36 ==> gray[b] == BlockBox(iimg, b)
  {
    var bw, bh := iimg.Width() / NG, iimg.Height() / NG;
    gray := [];
    for i := 0 to NG
      invariant |gray| == i * 6
      invariant forall b :: 0 <= b < |gray| ==> gray[b] == BlockBox(iimg, b)
    {
      for j := 0 to NG
        invariant |gray| == i * 6 + j
        invariant forall b :: 0 <= b < |gray| ==> gray[b] == BlockBox(iimg, b)
      {
        assert (i * 6 + j) / 6 == i && (i * 6 + j) % 6 == j;
        BlockInside(bh, iimg.Height(), i);
        BlockInside(bw, iimg.Width(), j);
        gray := gray + [iimg.BoxIntegral(i * bh, j * bw, bh, bw)];
      }
    }
  }

  /**
   * `order_feature`: bit `k` says which block of the `k`-th pair is the brighter, by box
   * sums of the integral image; in a picture up to 960 wide, by the sums of its own pixels.
   */
  method OrderFeature(nbits: nat, img: Gray)
    returns (v: BitFeature, ghost gray: seq<int>, ghost iimg: IntImage, ghost scale: nat)
    requires nbits in {32, 64, 128} && img.Valid()
    ensures fresh(iimg) && fresh(iimg.data) && iimg.Of(img, scale) && IsScale(img.width, scale)
    ensures |gray| == 36 && IsOrderFeature(v, PairTable(nbits), gray)
    ensures forall k :: 0 <= k < 36 ==> gray[k] == BlockBox(iimg, k)
    ensures img.width <= 960 ==> forall k :: 0 <= k < 36 ==> gray[k] == BlockSum(img, k)
  {
    var image := new IntImage();
    scale := image.Init(img);
    iimg := image;
    var bgray := BlockGrays(image);
    gray := bgray;
    v := OrderBits(PairTable(nbits), bgray);
    if img.width <= 960 {
      forall k | 0 <= k < 36
        ensures gray[k] == BlockSum(img, k)
      {
        BlockIsExact(image, img, k);
      }
    }
  }

  // -------------------------------------------------------------------------
  // What the distance of two such features measures.

  /** The number of the first `n` pairs whose comparison differs. */
  function PairsThatDiffer(pairs: seq<(block, block)>, a: seq<int>, b: seq<int>, n: nat): nat
    requires |a| == |b| == 36 && n <= |pairs|
  {
    if n == 0 then 0
    else PairsThatDiffer(pairs, a, b, n - 1) + One(Brighter(a, pairs[n - 1]) != Brighter(b, pairs[n - 1]))
  }

  /** The distance of two pictures' features is the number of pairs of blocks they order differently. */
  lemma {:induction false} DistanceIsPairs(v: BitFeature, w: BitFeature, pairs: seq<(block, block)>,
                                           a: seq<int>, b: seq<int>, n: nat)
    requires |pairs| in {32, 64, 128} && |a| == |b| == 36 && n <= |pairs|
    requires IsOrderFeature(v, pairs, a) && IsOrderFeature(w, pairs, b)
    ensures Differences(v, w, n) == PairsThatDiffer(pairs, a, b, n)
  {
    if n > 0 {
      DistanceIsPairs(v, w, pairs, a, b, n - 1);
    }
  }

  /** Of one picture, the feature of 64 bits is the first half of the feature of 128. */
  lemma ShortIsPrefix(v: BitFeature, w: BitFeature, gray: seq<int>)
    requires |gray| == 36
    requires IsOrderFeature(v, PairTable(64), gray) && IsOrderFeature(w, PairTable(128), gray)
    ensures v.bytes[..8] == w.bytes[..8]
  {
    forall i | 0 <= i < 8
      ensures v.bytes[i] == w.bytes[i]
    {
      forall t: nat | t < 8
        ensures v.bytes[i][t] == w.bytes[i][t]
      {
        BitAt(v, i, t);
        BitAt(w, i, t);
        assert PairTable(64)[i * 8 + t] == PairTable(128)[i * 8 + t];
      }
    }
  }
}
