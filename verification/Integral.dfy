/** `IntImage`: the integral image of a grey picture, scaled down to at most 960 columns. */
module Integrals {

  import opened Words

  /** A `GrayImage`: rows of one width. */
  datatype Gray = Gray(width: nat, rows: seq<seq<u8>>)
  {
    ghost predicate Valid() { forall r :: 0 <= r < |rows| ==> |rows[r]| == width }
    function Height(): nat { |rows| }
  }

  // -------------------------------------------------------------------------
  // Sums of the picture's own pixels.

  /** The first `c` pixels of row `r`. */
  function RowSum(img: Gray, r: nat, c: nat): nat
    requires img.Valid() && r < img.Height() && c <= img.width
  {
    if c == 0 then 0 else RowSum(img, r, c - 1) + img.rows[r][c - 1]
  }

  /** The first `c` pixels of the rows from `r0` up to, not including, `r1`. */
  function Area(img: Gray, r0: nat, r1: nat, c: nat): nat
    requires img.Valid() && r1 <= img.Height() && c <= img.width
    decreases r1
  {
    if r1 <= r0 then 0 else Area(img, r0, r1 - 1, c) + RowSum(img, r1 - 1, c)
  }

  lemma {:induction false} AreaSplit(img: Gray, r0: nat, r1: nat, r2: nat, c: nat)
    requires img.Valid() && r0 <= r1 <= r2 <= img.Height() && c <= img.width
    ensures Area(img, r0, r2, c) == Area(img, r0, r1, c) + Area(img, r1, r2, c)
  {
    if r1 < r2 {
      AreaSplit(img, r0, r1, r2 - 1, c);
    }
  }

  // -------------------------------------------------------------------------
  // The scale.

  function Pow2(n: nat): (p: nat)
    ensures p > 0
  {
    if n == 0 then 1 else 2 * Pow2(n - 1)
  }

  lemma {:induction false} Pow2Grows(m: nat, n: nat)
    requires m < n
    ensures 2 * Pow2(m) <= Pow2(n)
  {
    if m + 1 < n {
      Pow2Grows(m, n - 1);
    }
  }

  /** The least power of two that brings the width down to 960. */
  ghost predicate IsScale(width: nat, scale: nat) {
    && width <= 960 * scale
    && exists n: nat :: scale == Pow2(n) && forall m: nat :: width <= 960 * Pow2(m) ==> n <= m
  }

  method ScaleFor(width: nat) returns (scale: nat)
    ensures IsScale(width, scale) && scale > 0
    ensures scale == 1 <==> width <= 960
  {
    scale := 1;
    ghost var n: nat := 0;
    while 960 * scale < width
      invariant scale == Pow2(n) && n <= scale
      invariant forall m: nat :: m < n ==> 960 * Pow2(m) < width
      invariant scale > 1 ==> width > 960
      decreases width - scale
    {
      forall m: nat | m <= n
        ensures 960 * Pow2(m) < width
      {
        if m < n { Pow2Grows(m, n); }
      }
      scale, n := scale * 2, n + 1;
    }
  }

  // -------------------------------------------------------------------------
  // What one entry holds.

  /** The first source row, or column, of block `i`. */
  function Edge(s: nat, i: nat): nat {
    if i == 0 then 0 else Edge(s, i - 1) + s
  }

  lemma {:induction false} EdgeIs(s: nat, i: nat)
    ensures Edge(s, i) == i * s
  {
    if i > 0 {
      EdgeIs(s, i - 1);
    }
  }

  /** The first `n / s` blocks lie below `n`. */
  lemma InBounds(s: nat, n: nat)
    requires s > 0
    ensures Edge(s, n / s) <= n
  {
    EdgeIs(s, n / s);
    assert n == n / s * s + n % s;
  }

  lemma {:induction false} EdgesGrow(s: nat, i: nat, j: nat)
    requires i <= j
    ensures Edge(s, i) <= Edge(s, j)
  {
    if i < j {
      EdgesGrow(s, i, j - 1);
    }
  }

  /** The block `(i, j)` is within the picture. */
  predicate Fits(img: Gray, s: nat, i: nat, j: nat) {
    Edge(s, i + 1) <= img.Height() && Edge(s, j + 1) <= img.width
  }

  function Mean(x: nat, s: nat): nat
    requires s > 0
  {
    assert s * s > 0;
    x / (s * s)
  }

  /** Row `i`, column `j`: the means of the bands down to row `i`, each rounded down. */
  function Entry(img: Gray, s: nat, i: nat, j: nat): nat
    requires img.Valid() && s > 0 && Fits(img, s, i, j)
  {
    Mean(Area(img, Edge(s, i), Edge(s, i + 1), Edge(s, j + 1)), s) + if i == 0 then 0 else Entry(img, s, i - 1, j)
  }

  lemma Rounded(x: nat, d: nat)
    requires d > 0
    ensures 0 <= x - d * (x / d) <= d - 1
  {
  }

  lemma NextBound(i: nat, d: int)
    ensures (i + 1) * d == i * d + d
  {
  }

  lemma Distribute(d: int, x: int, y: int)
    ensures d * (x + y) == d * x + d * y
  {
  }

  /** Scaled back up, an entry is below the exact prefix sum by less than one unit for each
      source block of its column. */
  lemma {:induction false} RoundingError(img: Gray, s: nat, i: nat, j: nat)
    requires img.Valid() && s > 0 && Fits(img, s, i, j)
    ensures 0 <= Area(img, 0, Edge(s, i + 1), Edge(s, j + 1)) - s * s * Entry(img, s, i, j) <= (i + 1) * (s * s - 1)
  {
    var d := s * s;
    assert d > 0;
    var band := Area(img, Edge(s, i), Edge(s, i + 1), Edge(s, j + 1));
    Rounded(band, d);
    if i > 0 {
      RoundingError(img, s, i - 1, j);
      AreaSplit(img, 0, Edge(s, i), Edge(s, i + 1), Edge(s, j + 1));
      NextBound(i, d - 1);
      Distribute(d, Mean(band, s), Entry(img, s, i - 1, j));
    }
  }

  /** Without scaling the entries are the exact prefix sums. */
  lemma ExactAtScaleOne(img: Gray, i: nat, j: nat)
    requires img.Valid() && i < img.Height() && j < img.width
    ensures Fits(img, 1, i, j) && Entry(img, 1, i, j) == Area(img, 0, i + 1, j + 1)
  {
    EdgeIs(1, i + 1);
    EdgeIs(1, j + 1);
    RoundingError(img, 1, i, j);
  }

  // -------------------------------------------------------------------------
  // The image.

  class IntImage {
    var data: array2<nat>

    constructor ()
      ensures Width() == 0 && Height() == 0
    {
      data := new nat[0, 0];
    }

    function Width(): nat reads this { data.Length1 }
    function Height(): nat reads this { data.Length0 }

    /** The image is that of `img`, `scale` source pixels to one. */
    ghost predicate Of(img: Gray, scale: nat)
      reads this, data
    {
      && img.Valid() && scale > 0
      && data.Length0 == img.Height() / scale && data.Length1 == img.width / scale
      && forall i: nat, j: nat :: i < data.Length0 && j < data.Length1 ==>
           Fits(img, scale, i, j) && data[i, j] == Entry(img, scale, i, j)
    }

    /** `init`. */
    method Init(img: Gray) returns (ghost scale: nat)
      requires img.Valid()
      modifies this
      ensures fresh(data) && Of(img, scale)
      ensures IsScale(img.width, scale)
      ensures scale == 1 <==> img.width <= 960
    {
      var s := ScaleFor(img.width);
      scale := s;
      InBounds(s, img.Height());
      InBounds(s, img.width);
      FillAll(img, s, img.Height() / s, img.width / s);
    }

    /** `reset`, and the outer loop. */
    method FillAll(img: Gray, s: nat, rows: nat, cols: nat)
      requires img.Valid() && s > 0
      requires Edge(s, rows) <= img.Height() && Edge(s, cols) <= img.width
      modifies this
      ensures fresh(data) && data.Length0 == rows && data.Length1 == cols
      ensures RowsDone(img, s, rows)
    {
      data := new nat[rows, cols];
      for i := 0 to rows
        invariant fresh(data) && data.Length0 == rows && data.Length1 == cols
        invariant RowsDone(img, s, i)
      {
        FillRow(img, s, i);
      }
    }

    ghost predicate RowsDone(img: Gray, s: nat, n: nat)
      requires img.Valid() && s > 0
      reads this, data
    {
      n <= data.Length0 && forall i: nat, j: nat :: i < n && j < data.Length1 ==>
        Fits(img, s, i, j) && data[i, j] == Entry(img, s, i, j)
    }

    method FillRow(img: Gray, s: nat, i: nat)
      requires img.Valid() && s > 0 && i < data.Length0
      requires Edge(s, data.Length0) <= img.Height() && Edge(s, data.Length1) <= img.width
      requires RowsDone(img, s, i)
      modifies data
      ensures RowsDone(img, s, i + 1)
    {
      EdgesGrow(s, i + 1, data.Length0);
      Empty(img, Edge(s, i), Edge(s, i + 1));
      var rs := 0;
      for j := 0 to data.Length1
        invariant Edge(s, j) <= img.width
        invariant rs == Area(img, Edge(s, i), Edge(s, i + 1), Edge(s, j))
        invariant RowsDone(img, s, i)
        invariant forall c: nat :: c < j ==> Fits(img, s, i, c) && data[i, c] == Entry(img, s, i, c)
      {
        EdgesGrow(s, j + 1, data.Length1);
        rs := AddBlock(img, s, i, j, rs);
        data[i, j] := Mean(rs, s) + if i > 0 then data[i - 1, j] else 0;
      }
    }

    /** The two inner loops: one block is added to the sum of the band. */
    method AddBlock(img: Gray, s: nat, i: nat, j: nat, rs0: nat) returns (rs: nat)
      requires img.Valid() && Fits(img, s, i, j)
      requires rs0 == Area(img, Edge(s, i), Edge(s, i + 1), Edge(s, j))
      ensures rs == Area(img, Edge(s, i), Edge(s, i + 1), Edge(s, j + 1))
    {
      ghost var r0, c0 := Edge(s, i), Edge(s, j);
      EdgeIs(s, i);
      EdgeIs(s, j);
      rs := rs0;
      for k := 0 to s
        invariant rs == rs0 + Area(img, r0, r0 + k, c0 + s) - Area(img, r0, r0 + k, c0)
      {
        for l := 0 to s
          invariant rs == rs0 + Area(img, r0, r0 + k, c0 + s) - Area(img, r0, r0 + k, c0)
                          + RowSum(img, r0 + k, c0 + l) - RowSum(img, r0 + k, c0)
        {
          rs := rs + img.rows[i * s + k][j * s + l];
        }
      }
    }

    /** `at`: zero above and to the left of the image, the last entries beyond it. */
    function At(r: int, c: int): nat
      requires r >= 0 && c >= 0 ==> Height() > 0 && Width() > 0
      reads this, data
    {
      if r < 0 || c < 0 then 0
      else data[if r >= Height() then Height() - 1 else r, if c >= Width() then Width() - 1 else c]
    }

    function BoxIntegral(row: int, col: int, rows: int, cols: int): int
      requires rows >= 0 && cols >= 0
      requires row + rows > 0 && col + cols > 0 ==> Height() > 0 && Width() > 0
      reads this, data
    {
      var r1, c1, r2, c2 := row - 1, col - 1, row + rows - 1, col + cols - 1;
      At(r1, c1) - At(r1, c2) - At(r2, c1) + At(r2, c2)
    }

    lemma AtIsArea(img: Gray, r: int, c: int)
      requires Of(img, 1) && (r >= 0 && c >= 0 ==> Height() > 0 && Width() > 0)
      ensures At(r, c) == Area(img, 0, Clip(r + 1, img.Height()), Clip(c + 1, img.width))
    {
      EdgesOne(img.Height());
      if r < 0 {
      } else if c < 0 {
        Empty(img, 0, Clip(r + 1, img.Height()));
      } else {
        ExactAtScaleOne(img, Clip(r + 1, img.Height()) - 1, Clip(c + 1, img.width) - 1);
      }
    }

    lemma EdgesOne(n: nat)
      ensures n / 1 == n
    {
    }

    /** For a picture that is not scaled, a box sum is the sum of the picture's own pixels
        in the part of the box that is inside the picture. */
    lemma BoxIsExact(img: Gray, row: int, col: int, rows: nat, cols: nat)
      requires Of(img, 1) && Height() > 0 && Width() > 0
      ensures BoxIntegral(row, col, rows, cols) ==
              BoxSum(img, Clip(row, img.Height()), Clip(row + rows, img.Height()),
                     Clip(col, img.width), Clip(col + cols, img.width))
    {
      var r0, r1 := Clip(row, img.Height()), Clip(row + rows, img.Height());
      var c0, c1 := Clip(col, img.width), Clip(col + cols, img.width);
      AtIsArea(img, row - 1, col - 1);
      AtIsArea(img, row - 1, col + cols - 1);
      AtIsArea(img, row + rows - 1, col - 1);
      AtIsArea(img, row + rows - 1, col + cols - 1);
      BoxOfAreas(img, r0, r1, c0, c1);
    }
  }

  /** The nearest of 0, ..., n. */
  function Clip(x: int, n: nat): (y: nat)
    ensures y <= n
  {
    if x < 0 then 0 else if x > n then n else x
  }

  /** The pixels of row `r` in columns `c0` up to, not including, `c1`. */
  function RowPart(img: Gray, r: nat, c0: nat, c1: nat): nat
    requires img.Valid() && r < img.Height() && c1 <= img.width
    decreases c1
  {
    if c1 <= c0 then 0 else RowPart(img, r, c0, c1 - 1) + img.rows[r][c1 - 1]
  }

  /** The pixels of a rectangle. */
  function BoxSum(img: Gray, r0: nat, r1: nat, c0: nat, c1: nat): nat
    requires img.Valid() && r1 <= img.Height() && c1 <= img.width
    decreases r1
  {
    if r1 <= r0 then 0 else BoxSum(img, r0, r1 - 1, c0, c1) + RowPart(img, r1 - 1, c0, c1)
  }

  lemma {:induction false} RowIsDifference(img: Gray, r: nat, c0: nat, c1: nat)
    requires img.Valid() && r < img.Height() && c0 <= c1 <= img.width
    ensures RowPart(img, r, c0, c1) == RowSum(img, r, c1) - RowSum(img, r, c0)
    decreases c1
  {
    if c0 < c1 {
      RowIsDifference(img, r, c0, c1 - 1);
    }
  }

  lemma {:induction false} BoxIsDifference(img: Gray, r0: nat, r1: nat, c0: nat, c1: nat)
    requires img.Valid() && r1 <= img.Height() && c0 <= c1 <= img.width
    ensures BoxSum(img, r0, r1, c0, c1) == Area(img, r0, r1, c1) - Area(img, r0, r1, c0)
    decreases r1
  {
    if r0 < r1 {
      BoxIsDifference(img, r0, r1 - 1, c0, c1);
      RowIsDifference(img, r1 - 1, c0, c1);
    }
  }

  lemma {:induction false} Empty(img: Gray, r0: nat, r1: nat)
    requires img.Valid() && r1 <= img.Height()
    ensures Area(img, r0, r1, 0) == 0
    decreases r1
  {
    if r0 < r1 {
      Empty(img, r0, r1 - 1);
    }
  }

  /** A rectangle from the four corners. */
  lemma BoxOfAreas(img: Gray, r0: nat, r1: nat, c0: nat, c1: nat)
    requires img.Valid() && r0 <= r1 <= img.Height() && c0 <= c1 <= img.width
    ensures BoxSum(img, r0, r1, c0, c1) ==
            Area(img, 0, r0, c0) - Area(img, 0, r0, c1) - Area(img, 0, r1, c0) + Area(img, 0, r1, c1)
  {
    AreaSplit(img, 0, r0, r1, c0);
    AreaSplit(img, 0, r0, r1, c1);
    BoxIsDifference(img, r0, r1, c0, c1);
  }
}
