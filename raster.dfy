/** The strided XRGB8888 framebuffer shared by all variants: a flat buffer of
    pixels whose row r starts at r * stride, and the nearest-neighbour sampling
    rule of scale_and_blit_to_xrgb (helpers.c) written as a specification. */
module Raster {
  import opened Common

  // ---------------------------------------------------------------------
  // Integer facts the index arithmetic needs
  // ---------------------------------------------------------------------

  lemma MulMonoLeft(a: int, b: int, c: nat)
    requires a <= b
    ensures a * c <= b * c
  {
    assert b * c - a * c == (b - a) * c;
  }

  lemma MulAtLeast(x: int, d: int)
    requires d >= 0
    ensures x >= 1 ==> x * d >= d
    ensures x <= -1 ==> x * d <= -d
  {
    if x >= 1 { MulMonoLeft(1, x, d); }
    if x <= -1 { MulMonoLeft(x, -1, d); }
  }

  /** Multiplication by a natural number can be cancelled from a strict
      inequality. */
  lemma MulLessCancel(a: int, b: int, c: nat)
    requires a * c < b * c
    ensures a < b
  {
    if b <= a {
      MulMonoLeft(b, a, c);
    }
  }

  /** The row of a pixel index below row n's start is above row n; one at or
      after it is at or below row n. */
  lemma RowBounds(stride: nat, i: nat, n: int)
    requires stride > 0
    ensures i < n * stride ==> i / stride < n
    ensures n * stride <= i ==> n <= i / stride
  {
    var q := i / stride;
    assert i == q * stride + i % stride;
    if i < n * stride {
      MulLessCancel(q, n, stride);
    }
    if n * stride <= i {
      assert (q + 1) * stride == q * stride + stride;
      MulLessCancel(n, q + 1, stride);
    }
  }

  /** Euclidean division is determined by quotient and remainder. */
  lemma DivModUnique(a: int, d: int, q: int, r: int)
    requires d > 0 && 0 <= r < d && a == q * d + r
    ensures a / d == q && a % d == r
  {
    var q', r' := a / d, a % d;
    assert a == q' * d + r';
    assert (q - q') * d == r' - r;
    MulAtLeast(q - q', d);
  }

  /** The row and column of a pixel index in a buffer of the given stride. */
  lemma RowCol(stride: nat, row: int, col: int)
    requires stride > 0 && 0 <= col < stride
    ensures (row * stride + col) / stride == row
    ensures (row * stride + col) % stride == col
  {
    DivModUnique(row * stride + col, stride, row, col);
  }

  /** Nearest-neighbour scaling of a coordinate t < m into [0, n): t*n/m < n. */
  lemma ScaledBelow(t: nat, n: nat, m: nat)
    requires t < m && n >= 1
    ensures 0 <= t * n / m < n
  {
  }

  /** The byte offset of pixel (x, y) in a w*h*4 RGBA buffer stays inside it. */
  lemma SourceIndexInBounds(w: nat, h: nat, x: nat, y: nat)
    requires x < w && y < h
    ensures (y * w + x) * 4 + 3 < w * h * 4
  {
    MulMonoLeft(y, h - 1, w);
    assert (h - 1) * w == h * w - w;
  }

  // ---------------------------------------------------------------------
  // Rectangles in a strided buffer
  // ---------------------------------------------------------------------

  /** Pixel index i lies in the w x h rectangle whose top-left pixel is
      (dx, dy), in a buffer whose rows are stride pixels apart. */
  predicate InRect(i: int, stride: nat, dx: nat, dy: nat, w: nat, h: nat) {
    stride > 0 && i >= 0 &&
    dy <= i / stride < dy + h &&
    dx <= i % stride < dx + w
  }

  /** The rectangle fits into a buffer of len pixels without wrapping rows. */
  predicate Fits(len: nat, stride: nat, dx: nat, dy: nat, w: nat, h: nat) {
    w == 0 || h == 0 || (dx + w <= stride && (dy + h) * stride <= len)
  }

  /** Index of pixel (x, y) of the rectangle. */
  function RectIndex(stride: nat, dx: nat, dy: nat, x: nat, y: nat): nat {
    (dy + y) * stride + dx + x
  }

  /** Adding row y of the rectangle to its first y rows: the new row is the
      contiguous run of w pixels starting at RectIndex(.., 0, y), and inside it
      the column and row offsets are recovered exactly. */
  lemma {:induction false} RowSegment(stride: nat, dx: nat, dy: nat, w: nat, y: nat, j: int)
    requires dx + w <= stride
    ensures var base := RectIndex(stride, dx, dy, 0, y);
      (InRect(j, stride, dx, dy, w, y + 1) <==>
        InRect(j, stride, dx, dy, w, y) || base <= j < base + w)
    ensures var base := RectIndex(stride, dx, dy, 0, y);
      base <= j < base + w ==> j % stride - dx == j - base && j / stride - dy == y
  {
    var base := RectIndex(stride, dx, dy, 0, y);
    if base <= j < base + w {
      RowCol(stride, dy + y, dx + (j - base));
    }
    if stride > 0 && j >= 0 && j / stride == dy + y && dx <= j % stride < dx + w {
      assert j == (j / stride) * stride + j % stride;
    }
  }

  /** Every pixel of the rectangle has an index in it, and the index of
      rectangle pixel (x, y) recovers x and y. */
  lemma RectIndexInRect(stride: nat, dx: nat, dy: nat, w: nat, h: nat, x: nat, y: nat)
    requires dx + w <= stride && x < w && y < h
    ensures InRect(RectIndex(stride, dx, dy, x, y), stride, dx, dy, w, h)
    ensures RectIndex(stride, dx, dy, x, y) % stride - dx == x
    ensures RectIndex(stride, dx, dy, x, y) / stride - dy == y
  {
    RowCol(stride, dy + y, dx + x);
  }

  /** A rectangle that fits lies inside the buffer. */
  lemma InRectBelow(len: nat, stride: nat, dx: nat, dy: nat, w: nat, h: nat, i: int)
    requires Fits(len, stride, dx, dy, w, h) && InRect(i, stride, dx, dy, w, h)
    ensures dy * stride <= i < len
  {
    var q, r := i / stride, i % stride;
    assert i == q * stride + r;
    MulMonoLeft(q + 1, dy + h, stride);
    MulMonoLeft(dy, q, stride);
  }

  // ---------------------------------------------------------------------
  // Nearest-neighbour sampling and the blit
  // ---------------------------------------------------------------------

  /** The source byte offset of the RGBA pixel sampled for target pixel (x, y)
      of a w x h target: (y*sh/h, x*sw/w), as helpers.c computes sy and sx. */
  function SampleOffset(img: Image, w: nat, h: nat, x: nat, y: nat): (k: nat)
    requires ValidImage(img) && x < w && y < h
    ensures k + 3 < |img.pixels|
    ensures k == ((y * img.h / h) * img.w + x * img.w / w) * 4
  {
    ScaledBelow(x, img.w, w);
    ScaledBelow(y, img.h, h);
    SourceIndexInBounds(img.w, img.h, x * img.w / w, y * img.h / h);
    ((y * img.h / h) * img.w + x * img.w / w) * 4
  }

  /** Target pixel (x, y): 0x00RRGGBB of the sampled source pixel; alpha dropped. */
  function PixelFor(img: Image, w: nat, h: nat, x: nat, y: nat): bv32
    requires ValidImage(img) && x < w && y < h
  {
    var k := SampleOffset(img, w, h, x, y);
    Xrgb(img.pixels[k], img.pixels[k + 1], img.pixels[k + 2])
  }

  /** The buffer d after drawing img scaled to w x h at (dx, dy): the
      rectangle holds the samples, every other pixel keeps its value. */
  function Blitted(d: seq<bv32>, stride: nat, dx: nat, dy: nat, w: nat, h: nat, img: Image): (r: seq<bv32>)
    requires ValidImage(img)
    ensures |r| == |d|
  {
    seq(|d|, i requires 0 <= i < |d| =>
      if InRect(i, stride, dx, dy, w, h) then PixelFor(img, w, h, i % stride - dx, i / stride - dy)
      else d[i])
  }

  /** A buffer part-way through a row-by-row fill of a w-wide rectangle at
      (dx, dy) with the values f gives for rectangle coordinates: rows
      [0, rows) are done, and so are the first cols elements of row rows. */
  function Painted<T>(d: seq<T>, stride: nat, dx: nat, dy: nat, w: nat, rows: nat, cols: nat,
                      f: (nat, nat) -> T): (r: seq<T>)
    ensures |r| == |d|
  {
    seq(|d|, i requires 0 <= i < |d| =>
      if InRect(i, stride, dx, dy, w, rows) || InRect(i, stride, dx, dy + rows, cols, 1)
      then f(i % stride - dx, i / stride - dy)
      else d[i])
  }

  lemma PaintedNone<T>(d: seq<T>, stride: nat, dx: nat, dy: nat, w: nat, f: (nat, nat) -> T)
    ensures Painted(d, stride, dx, dy, w, 0, 0, f) == d
  {
  }

  /** Writing element (cols, rows) extends the partial row by one. */
  lemma PaintedStep<T>(d: seq<T>, stride: nat, dx: nat, dy: nat, w: nat, h: nat, rows: nat, cols: nat,
                       f: (nat, nat) -> T)
    requires rows < h && cols < w && Fits(|d|, stride, dx, dy, w, h)
    ensures RectIndex(stride, dx, dy, cols, rows) < |d|
    ensures Painted(d, stride, dx, dy, w, rows, cols, f)[RectIndex(stride, dx, dy, cols, rows) := f(cols, rows)]
            == Painted(d, stride, dx, dy, w, rows, cols + 1, f)
  {
    var k := RectIndex(stride, dx, dy, cols, rows);
    RectIndexInRect(stride, dx, dy, w, h, cols, rows);
    InRectBelow(|d|, stride, dx, dy, w, h, k);
    var before := Painted(d, stride, dx, dy, w, rows, cols, f);
    var after := Painted(d, stride, dx, dy, w, rows, cols + 1, f);
    forall i | 0 <= i < |d|
      ensures before[k := f(cols, rows)][i] == after[i]
    {
      if InRect(i, stride, dx, dy + rows, cols + 1, 1) && !InRect(i, stride, dx, dy + rows, cols, 1) {
        assert i == (i / stride) * stride + i % stride;
      }
    }
  }

  /** A completed row is the next row started. */
  lemma PaintedRow<T>(d: seq<T>, stride: nat, dx: nat, dy: nat, w: nat, rows: nat, f: (nat, nat) -> T)
    ensures Painted(d, stride, dx, dy, w, rows, w, f) == Painted(d, stride, dx, dy, w, rows + 1, 0, f)
  {
  }

  /** The finished fill: element (x, y) of the rectangle holds f(x, y) and
      every other element keeps its value. */
  lemma PaintedAt<T>(d: seq<T>, stride: nat, dx: nat, dy: nat, w: nat, h: nat, f: (nat, nat) -> T, i: nat)
    requires i < |d|
    ensures InRect(i, stride, dx, dy, w, h) ==>
      Painted(d, stride, dx, dy, w, h, 0, f)[i] == f(i % stride - dx, i / stride - dy)
    ensures !InRect(i, stride, dx, dy, w, h) ==> Painted(d, stride, dx, dy, w, h, 0, f)[i] == d[i]
  {
  }

  /** The blit's value for every rectangle coordinate, 0 outside it. */
  function Sample(img: Image, w: nat, h: nat): (nat, nat) -> bv32
    requires ValidImage(img)
  {
    (x: nat, y: nat) => if x < w && y < h then PixelFor(img, w, h, x, y) else 0
  }

  /** With every row filled with the samples, the fill is the blit. */
  lemma PaintedIsBlitted(d: seq<bv32>, stride: nat, dx: nat, dy: nat, w: nat, h: nat, img: Image)
    requires ValidImage(img)
    ensures Painted(d, stride, dx, dy, w, h, 0, Sample(img, w, h)) == Blitted(d, stride, dx, dy, w, h, img)
  {
  }

  /** memset of the elements [from, to) of a buffer to v. */
  function Filled<T>(d: seq<T>, from: nat, to: nat, v: T): (r: seq<T>)
    ensures |r| == |d|
  {
    seq(|d|, i requires 0 <= i < |d| => if from <= i < to then v else d[i])
  }

  /** memset(p + from, v, to - from): exactly [from, to) becomes v. */
  method Memset<T>(a: array<T>, from: nat, to: nat, v: T)
    requires from <= to <= a.Length
    modifies a
    ensures a[..] == Filled(old(a[..]), from, to, v)
  {
    var k := from;
    while k < to
      invariant from <= k <= to
      invariant a[..] == Filled(old(a[..]), from, k, v)
    {
      a[k] := v;
      k := k + 1;
    }
  }

  /** The blit writes exactly the rectangle: pixel (x, y) of it is the
      sample of source pixel (x*sw/w, y*sh/h), every other pixel is unchanged. */
  lemma BlittedAt(d: seq<bv32>, stride: nat, dx: nat, dy: nat, w: nat, h: nat, img: Image, x: nat, y: nat)
    requires ValidImage(img) && Fits(|d|, stride, dx, dy, w, h) && x < w && y < h
    ensures RectIndex(stride, dx, dy, x, y) < |d|
    ensures Blitted(d, stride, dx, dy, w, h, img)[RectIndex(stride, dx, dy, x, y)] == PixelFor(img, w, h, x, y)
  {
    RectIndexInRect(stride, dx, dy, w, h, x, y);
    InRectBelow(|d|, stride, dx, dy, w, h, RectIndex(stride, dx, dy, x, y));
  }

  /** Index i is written by the blit iff it is RectIndex(x, y) of some pixel
      of the rectangle. */
  lemma InRectIff(stride: nat, dx: nat, dy: nat, w: nat, h: nat, i: int)
    requires dx + w <= stride
    ensures InRect(i, stride, dx, dy, w, h) <==>
      exists x: nat, y: nat :: x < w && y < h && i == RectIndex(stride, dx, dy, x, y)
  {
    if InRect(i, stride, dx, dy, w, h) {
      var x: nat, y: nat := i % stride - dx, i / stride - dy;
      assert i == (i / stride) * stride + i % stride;
      assert i == RectIndex(stride, dx, dy, x, y);
    }
    if exists x: nat, y: nat :: x < w && y < h && i == RectIndex(stride, dx, dy, x, y) {
      var x: nat, y: nat :| x < w && y < h && i == RectIndex(stride, dx, dy, x, y);
      RectIndexInRect(stride, dx, dy, w, h, x, y);
    }
  }

  // ---------------------------------------------------------------------
  // Centred, bottom-aligned placement of a fixed-width marquee
  // ---------------------------------------------------------------------

  const MarqueeWidth: int := 1920
  const MaxMarqueeHeight: int := 1080

  /** C's `/` on int, which truncates toward zero. */
  function CDiv(a: int, b: int): int
    requires b > 0
  {
    if a >= 0 then a / b else -((-a) / b)
  }

  /** C division rounds toward zero: the quotient times the divisor lies
      between 0 and the dividend, less than one divisor away from it. */
  lemma CDivTruncates(a: int, b: int)
    requires b > 0
    ensures a >= 0 ==> 0 <= CDiv(a, b) * b <= a < CDiv(a, b) * b + b
    ensures a < 0 ==> CDiv(a, b) * b - b < a <= CDiv(a, b) * b <= 0
  {
    if a >= 0 {
      QuotientBounds(a, b);
    } else {
      QuotientBounds(-a, b);
      MulNeg(-a / b, b);
    }
  }

  lemma QuotientBounds(m: int, b: int)
    requires m >= 0 && b > 0
    ensures 0 <= (m / b) * b <= m < (m / b) * b + b
  {
    DivModUnique(m, b, m / b, m % b);
    MulMonoLeft(0, m / b, b);
  }

  lemma MulNeg(n: int, b: int)
    ensures (-n) * b == -(n * b)
  {
  }

  /** The marquee's size: MarqueeWidth wide with the height the aspect ratio
      gives, unless that exceeds MaxMarqueeHeight; then exactly that high,
      with the width the ratio gives.  The source computes both ratios in
      floating point; they arrive here as the truncated results. */
  function DrawSize(heightAtFullWidth: int, widthAtMaxHeight: int): (size: (int, int))
    ensures size.1 <= MaxMarqueeHeight
    ensures heightAtFullWidth <= MaxMarqueeHeight ==> size == (MarqueeWidth, heightAtFullWidth)
    ensures heightAtFullWidth > MaxMarqueeHeight ==> size == (widthAtMaxHeight, MaxMarqueeHeight)
  {
    if heightAtFullWidth > MaxMarqueeHeight then (widthAtMaxHeight, MaxMarqueeHeight)
    else (MarqueeWidth, heightAtFullWidth)
  }

  /** Top-left corner of a w x h box in an hd x vd mode: (hd - w) / 2 across
      and vd - h down, in C arithmetic. */
  function Placement(hd: int, vd: int, w: int, h: int): (int, int) {
    (CDiv(hd - w, 2), vd - h)
  }

  /** A box no larger than the mode is centred (the right margin equals the
      left one or exceeds it by one pixel) and bottom-aligned (its last row
      is the mode's last row). */
  lemma PlacementCentred(hd: int, vd: int, w: int, h: int)
    requires 0 <= w <= hd && 0 <= h <= vd
    ensures var (x, y) := Placement(hd, vd, w, h);
      0 <= x && x + w <= hd && (hd - (x + w) == x || hd - (x + w) == x + 1) &&
      0 <= y && y + h == vd
  {
    CDivTruncates(hd - w, 2);
  }

  /** A box wider or taller than the mode gets negative offsets: on a
      1280 x 720 mode the 1920 x 1080 marquee would start 320 pixels left
      of the row and 360 rows above the buffer. */
  lemma PlacementOffscreen()
    ensures Placement(1280, 720, MarqueeWidth, MaxMarqueeHeight) == (-320, -360)
  {
  }

  /** C division truncates: one pixel too wide gives offset 0, where floor
      division would give -1. */
  lemma PlacementTruncates()
    ensures Placement(1919, 1080, MarqueeWidth, MaxMarqueeHeight).0 == 0
  {
  }
}
