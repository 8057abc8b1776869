/** The black border mask drawn over a grayscale frame before two frames are
    compared (`draw_color_mask` and `preprocess_image_change_detection`).

    A frame is an `array2<int>` indexed `[row, column]`, that is `[y, x]`,
    with `Length0` rows (the image height `h`) and `Length1` columns (the
    width `w`). A filled `cv2.rectangle` between corner points `(x1, y1)` and
    `(x2, y2)` is taken to paint every pixel whose column lies between `x1`
    and `x2` and whose row lies between `y1` and `y2`, both ends included,
    clipped to the frame. */
module Mask {

  /** The four border percentages in the order the script indexes them:
      `borders[0]` left, `borders[1]` top, `borders[2]` right,
      `borders[3]` bottom. */
  datatype Borders = Borders(left: int, top: int, right: int, bottom: int)

  /** The mask every preprocessed frame receives: 5% left, 10% top, 5% right,
      nothing at the bottom. */
  const DefaultMask := Borders(5, 10, 5, 0)

  /** The default fill colour, black. */
  const Black := 0

  /** Percentages for which the central rectangle is non-empty. */
  predicate ValidBorders(b: Borders)
  {
    && 0 <= b.left < 100 && 0 <= b.top < 100 && 0 <= b.right < 100 && 0 <= b.bottom < 100
    && b.left + b.right < 100 && b.top + b.bottom < 100
  }

  /** `int(a / 100)`: the quotient truncated toward zero, which differs from
      Dafny's Euclidean division when `a` is negative. */
  function TruncDiv100(a: int): (q: int)
    ensures a >= 0 ==> 0 <= 100 * q <= a < 100 * q + 100
    ensures a < 0 ==> 100 * q - 100 < a <= 100 * q <= 0
  {
    if a >= 0 then a / 100 else -((-a) / 100)
  }

  /** The edges of the central rectangle: `x_min`, `x_max`, `y_min`, `y_max`. */
  function XMin(b: Borders, w: int): int { TruncDiv100(b.left * w) }
  function XMax(b: Borders, w: int): int { w - TruncDiv100(b.right * w) }
  function YMin(b: Borders, h: int): int { TruncDiv100(b.top * h) }
  function YMax(b: Borders, h: int): int { h - TruncDiv100(b.bottom * h) }

  /** A rectangle given by two opposite corner points `(x1, y1)`, `(x2, y2)`. */
  datatype Rect = Rect(x1: int, y1: int, x2: int, y2: int)

  function Min(a: int, b: int): int { if a <= b then a else b }
  function Max(a: int, b: int): int { if a <= b then b else a }

  /** Whether the filled rectangle paints column `x` of row `y`. */
  predicate Covers(r: Rect, y: int, x: int)
  {
    Min(r.x1, r.x2) <= x <= Max(r.x1, r.x2) && Min(r.y1, r.y2) <= y <= Max(r.y1, r.y2)
  }

  /** The four rectangles of the mask on an `h` by `w` frame, in drawing
      order: left strip, top strip, right strip, bottom strip. */
  function LeftStrip(h: int, w: int, b: Borders): Rect { Rect(0, 0, XMin(b, w), h) }
  function TopStrip(h: int, w: int, b: Borders): Rect { Rect(0, 0, w, YMin(b, h)) }
  function RightStrip(h: int, w: int, b: Borders): Rect { Rect(XMax(b, w), 0, w, h) }
  function BottomStrip(h: int, w: int, b: Borders): Rect { Rect(0, YMax(b, h), w, h) }

  predicate InStrips(h: int, w: int, b: Borders, y: int, x: int)
  {
    || Covers(LeftStrip(h, w, b), y, x)
    || Covers(TopStrip(h, w, b), y, x)
    || Covers(RightStrip(h, w, b), y, x)
    || Covers(BottomStrip(h, w, b), y, x)
  }

  /** The frame as rows of pixel values. */
  function Grid(a: array2<int>): (g: seq<seq<int>>)
    reads a
    ensures |g| == a.Length0
    ensures forall y :: 0 <= y < a.Length0 ==> |g[y]| == a.Length1
    ensures forall y, x :: 0 <= y < a.Length0 && 0 <= x < a.Length1 ==> g[y][x] == a[y, x]
  {
    seq(a.Length0, y requires 0 <= y < a.Length0 reads a =>
      seq(a.Length1, x requires 0 <= x < a.Length1 reads a => a[y, x]))
  }

  /** The grid `g`, `w` columns wide, after the mask: every pixel of the four
      strips takes `color`, every other pixel keeps its value. */
  function MaskGrid(g: seq<seq<int>>, w: int, b: Borders, color: int): seq<seq<int>>
  {
    seq(|g|, y requires 0 <= y < |g| =>
      seq(|g[y]|, x requires 0 <= x < |g[y]| =>
        if InStrips(|g|, w, b, y, x) then color else g[y][x]))
  }

  /** One filled `cv2.rectangle` call. */
  method FillRect(img: array2<int>, r: Rect, color: int)
    modifies img
    ensures forall y, x :: 0 <= y < img.Length0 && 0 <= x < img.Length1 ==>
      img[y, x] == if Covers(r, y, x) then color else old(img[y, x])
  {
    forall y, x | 0 <= y < img.Length0 && 0 <= x < img.Length1 && Covers(r, y, x) {
      img[y, x] := color;
    }
  }

  /** `draw_color_mask(img, borders, color)`: the four strips are filled in
      place, and the result is the grid `MaskGrid` describes. */
  method DrawColorMask(img: array2<int>, b: Borders, color: int)
    modifies img
    ensures Grid(img) == MaskGrid(old(Grid(img)), img.Length1, b, color)
  {
    ghost var before := Grid(img);
    var h, w := img.Length0, img.Length1;
    var xMin, xMax := XMin(b, w), XMax(b, w);
    var yMin, yMax := YMin(b, h), YMax(b, h);
    FillRect(img, Rect(0, 0, xMin, h), color);
    FillRect(img, Rect(0, 0, w, yMin), color);
    FillRect(img, Rect(xMax, 0, w, h), color);
    FillRect(img, Rect(0, yMax, w, h), color);
    assert forall y, x :: 0 <= y < h && 0 <= x < w ==>
      img[y, x] == if InStrips(h, w, b, y, x) then color else before[y][x];
    ghost var after := MaskGrid(before, w, b, color);
    assert |Grid(img)| == |after|;
    forall y | 0 <= y < h ensures Grid(img)[y] == after[y] {
    }
  }

  /** `preprocess_image_change_detection` after the grayscale conversion and
      the blur: the frame is copied and the copy is masked with the default
      borders; the frame itself is left as it was. */
  method Preprocess(frame: array2<int>) returns (gray: array2<int>)
    ensures fresh(gray)
    ensures gray.Length0 == frame.Length0 && gray.Length1 == frame.Length1
    ensures Grid(gray) == MaskGrid(Grid(frame), frame.Length1, DefaultMask, Black)
  {
    gray := new int[frame.Length0, frame.Length1]((y, x) reads frame =>
      if 0 <= y < frame.Length0 && 0 <= x < frame.Length1 then frame[y, x] else 0);
    forall y | 0 <= y < frame.Length0 ensures Grid(gray)[y] == Grid(frame)[y] {
    }
    assert Grid(gray) == Grid(frame);
    DrawColorMask(gray, DefaultMask, Black);
  }

  /** Truncating two products separately never exceeds truncating their sum. */
  lemma {:induction false} SumOfQuotients(a: nat, c: nat)
    ensures TruncDiv100(a) + TruncDiv100(c) <= TruncDiv100(a + c)
  {
  }

  lemma {:induction false} MulNonNegative(a: int, n: int)
    requires 0 <= a && 0 <= n
    ensures 0 <= a * n
  {
  }

  /** With valid percentages and a non-negative extent `n`, the left and right
      cuts together stay within `n`. */
  lemma {:induction false} CutsFit(p: int, q: int, n: int)
    requires 0 <= p && 0 <= q && p + q < 100 && 0 <= n
    ensures 0 <= TruncDiv100(p * n) && 0 <= TruncDiv100(q * n)
    ensures TruncDiv100(p * n) + TruncDiv100(q * n) <= n
  {
    MulNonNegative(p, n);
    MulNonNegative(q, n);
    MulNonNegative(100 - p - q, n);
    assert p * n + q * n + (100 - p - q) * n == 100 * n;
    SumOfQuotients(p * n, q * n);
  }

  /** The central rectangle lies inside the frame:
      `0 <= x_min <= x_max <= w` and `0 <= y_min <= y_max <= h`. */
  lemma {:induction false} MaskBounds(b: Borders, h: nat, w: nat)
    requires ValidBorders(b)
    ensures 0 <= XMin(b, w) <= XMax(b, w) <= w
    ensures 0 <= YMin(b, h) <= YMax(b, h) <= h
  {
    CutsFit(b.left, b.right, w);
    CutsFit(b.top, b.bottom, h);
  }

  /** For non-negative products the truncating quotient is Dafny's `/`. */
  lemma {:induction false} BoundsAreDivisions(b: Borders, h: nat, w: nat)
    requires ValidBorders(b)
    ensures XMin(b, w) == b.left * w / 100 && XMax(b, w) == w - b.right * w / 100
    ensures YMin(b, h) == b.top * h / 100 && YMax(b, h) == h - b.bottom * h / 100
  {
    assert 0 <= b.left * w && 0 <= b.right * w && 0 <= b.top * h && 0 <= b.bottom * h;
  }

  /** The default mask on a 640 by 480 frame keeps columns 32 to 608 and rows
      48 to 480. */
  lemma {:induction false} DefaultMaskBounds()
    ensures XMin(DefaultMask, 640) == 32 && XMax(DefaultMask, 640) == 608
    ensures YMin(DefaultMask, 480) == 48 && YMax(DefaultMask, 480) == 480
  {
  }

  /** Inside a frame, a pixel is painted exactly when it lies on or outside
      an edge of the central rectangle. */
  lemma {:induction false} StripsCharacterized(b: Borders, h: nat, w: nat, y: int, x: int)
    requires ValidBorders(b) && 0 <= y < h && 0 <= x < w
    ensures InStrips(h, w, b, y, x) <==>
      x <= XMin(b, w) || XMax(b, w) <= x || y <= YMin(b, h) || YMax(b, h) <= y
  {
    MaskBounds(b, h, w);
  }

  /** What the mask does to a frame: the dimensions stay, the strips take
      `color`, and every pixel strictly inside the central rectangle keeps its
      value. */
  lemma {:induction false} MaskEffect(g: seq<seq<int>>, w: nat, b: Borders, color: int)
    requires ValidBorders(b)
    requires forall y :: 0 <= y < |g| ==> |g[y]| == w
    ensures |MaskGrid(g, w, b, color)| == |g|
    ensures forall y :: 0 <= y < |g| ==> |MaskGrid(g, w, b, color)[y]| == w
    ensures forall y, x ::
      (0 <= y < |g| && 0 <= x < w &&
       (x <= XMin(b, w) || XMax(b, w) <= x || y <= YMin(b, |g|) || YMax(b, |g|) <= y))
      ==> MaskGrid(g, w, b, color)[y][x] == color
    ensures forall y, x ::
      (0 <= y < |g| && 0 <= x < w &&
       XMin(b, w) < x < XMax(b, w) && YMin(b, |g|) < y < YMax(b, |g|))
      ==> MaskGrid(g, w, b, color)[y][x] == g[y][x]
  {
    MaskBounds(b, |g|, w);
  }

  /** Masking twice is masking once. */
  lemma {:induction false} MaskIdempotent(g: seq<seq<int>>, w: int, b: Borders, color: int)
    ensures MaskGrid(MaskGrid(g, w, b, color), w, b, color) == MaskGrid(g, w, b, color)
  {
    var once := MaskGrid(g, w, b, color);
    var twice := MaskGrid(once, w, b, color);
    forall y | 0 <= y < |g| ensures twice[y] == once[y] {
    }
  }
}
