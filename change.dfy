/** `compare_frames_change_detection`: two preprocessed frames are
    differenced and binarised, the blobs of change are outlined, and the
    areas of the blobs that are large enough are added up into a score. */
module ChangeDetection {
  import opened Mask

  /** A pixel changes when its values differ by more than this. */
  const Cutoff := 45

  /** The value a changed pixel takes in the binary mask. */
  const MaxValue := 255

  function Abs(a: int): (r: nat)
    ensures r == a || r == -a
  {
    if a < 0 then -a else a
  }

  /** `cv2.threshold(.., 45, 255, THRESH_BINARY)` applied to `cv2.absdiff`
      of one pixel. */
  function ChangePixel(p: int, q: int): int
  {
    if Abs(p - q) > Cutoff then MaxValue else 0
  }

  /** The binary change mask of two grids of the same shape. */
  function ChangeGrid(prev: seq<seq<int>>, next: seq<seq<int>>): seq<seq<int>>
    requires |prev| == |next| && forall y :: 0 <= y < |prev| ==> |prev[y]| == |next[y]|
  {
    seq(|prev|, y requires 0 <= y < |prev| =>
      seq(|prev[y]|, x requires 0 <= x < |prev[y]| => ChangePixel(prev[y][x], next[y][x])))
  }

  /** Each pixel of the mask is 255 exactly when the frames differ there by
      more than 45, and 0 otherwise. */
  lemma {:induction false} ChangeGridPixels(prev: seq<seq<int>>, next: seq<seq<int>>)
    requires |prev| == |next| && forall y :: 0 <= y < |prev| ==> |prev[y]| == |next[y]|
    ensures |ChangeGrid(prev, next)| == |prev|
    ensures forall y, x :: 0 <= y < |prev| && 0 <= x < |prev[y]| ==>
      && |ChangeGrid(prev, next)[y]| == |prev[y]|
      && (ChangeGrid(prev, next)[y][x] == MaxValue <==> prev[y][x] - next[y][x] > Cutoff || next[y][x] - prev[y][x] > Cutoff)
      && (ChangeGrid(prev, next)[y][x] == 0 <==> -Cutoff <= prev[y][x] - next[y][x] <= Cutoff)
  {
  }

  /** The mask does not depend on which frame comes first. */
  lemma {:induction false} ChangeGridSymmetric(prev: seq<seq<int>>, next: seq<seq<int>>)
    requires |prev| == |next| && forall y :: 0 <= y < |prev| ==> |prev[y]| == |next[y]|
    ensures ChangeGrid(prev, next) == ChangeGrid(next, prev)
  {
    var a, b := ChangeGrid(prev, next), ChangeGrid(next, prev);
    forall y | 0 <= y < |prev| ensures a[y] == b[y] {
      forall x | 0 <= x < |prev[y]| ensures a[y][x] == b[y][x] {
        assert Abs(prev[y][x] - next[y][x]) == Abs(next[y][x] - prev[y][x]);
      }
    }
  }

  /** Identical frames give an all-zero mask. */
  lemma {:induction false} IdenticalFramesNoChange(g: seq<seq<int>>)
    ensures forall y, x :: 0 <= y < |g| && 0 <= x < |g[y]| ==> ChangeGrid(g, g)[y][x] == 0
  {
  }

  /** `cv2.absdiff` followed by `cv2.threshold`: a new binary mask. */
  method BinaryChangeMask(prev: array2<int>, next: array2<int>) returns (thresh: array2<int>)
    requires prev.Length0 == next.Length0 && prev.Length1 == next.Length1
    ensures fresh(thresh)
    ensures Grid(thresh) == ChangeGrid(Grid(prev), Grid(next))
  {
    thresh := new int[prev.Length0, prev.Length1]((y, x) reads prev, next =>
      if 0 <= y < prev.Length0 && 0 <= x < prev.Length1 then ChangePixel(prev[y, x], next[y, x]) else 0);
    var expected := ChangeGrid(Grid(prev), Grid(next));
    forall y | 0 <= y < prev.Length0 ensures Grid(thresh)[y] == expected[y] {
    }
  }

  /** A non-negative area, as `cv2.contourArea` returns. */
  type Area = r: real | 0.0 <= r

  /** One outline from `cv2.findContours`: its points and its area. The area
      is taken as given rather than computed from the points. */
  datatype Contour = Contour(points: seq<(int, int)>, area: Area)

  /** The contours whose area is at least `minArea`, in their order. */
  function Retained(cs: seq<Contour>, minArea: int): seq<Contour>
  {
    if cs == [] then []
    else Retained(cs[..|cs| - 1], minArea)
         + (if cs[|cs| - 1].area < minArea as real then [] else [cs[|cs| - 1]])
  }

  /** The sum of the areas of `cs`. */
  function TotalArea(cs: seq<Contour>): real
  {
    if cs == [] then 0.0 else TotalArea(cs[..|cs| - 1]) + cs[|cs| - 1].area
  }

  lemma {:induction false} RetainedSnoc(cs: seq<Contour>, c: Contour, minArea: int)
    ensures Retained(cs + [c], minArea)
      == Retained(cs, minArea) + (if c.area < minArea as real then [] else [c])
  {
    assert (cs + [c])[..|cs|] == cs;
  }

  lemma {:induction false} TotalAreaSnoc(cs: seq<Contour>, c: Contour)
    ensures TotalArea(cs + [c]) == TotalArea(cs) + c.area
  {
    assert (cs + [c])[..|cs|] == cs;
  }

  /** The filter-and-sum loop: `res_cnts` collects the contours that are not
      skipped, and `score` adds up their areas. */
  method FilterContours(cnts: seq<Contour>, minArea: int) returns (score: real, resCnts: seq<Contour>)
    ensures resCnts == Retained(cnts, minArea)
    ensures score == TotalArea(resCnts)
  {
    score := 0.0;
    resCnts := [];
    for i := 0 to |cnts|
      invariant resCnts == Retained(cnts[..i], minArea)
      invariant score == TotalArea(resCnts)
    {
      var c := cnts[i];
      RetainedSnoc(cnts[..i], c, minArea);
      assert cnts[..i + 1] == cnts[..i] + [c];
      if c.area < minArea as real {
        continue;
      }
      TotalAreaSnoc(resCnts, c);
      resCnts := resCnts + [c];
      score := score + c.area;
    }
    assert cnts[..|cnts|] == cnts;
  }

  /** `compare_frames_change_detection(prev, next, min_contour_area)`: the
      score, the retained contours and the dilated mask. Dilation and contour
      extraction are the parameters `dilate` and `findContours`. */
  method CompareFrames(prev: array2<int>, next: array2<int>, minArea: int,
                       dilate: seq<seq<int>> -> seq<seq<int>>,
                       findContours: seq<seq<int>> -> seq<Contour>)
    returns (score: real, resCnts: seq<Contour>, thresh: seq<seq<int>>)
    requires prev.Length0 == next.Length0 && prev.Length1 == next.Length1
    ensures thresh == dilate(ChangeGrid(Grid(prev), Grid(next)))
    ensures resCnts == Retained(findContours(thresh), minArea)
    ensures score == TotalArea(resCnts)
  {
    var binary := BinaryChangeMask(prev, next);
    thresh := dilate(Grid(binary));
    var cnts := findContours(thresh);
    score, resCnts := FilterContours(cnts, minArea);
  }

  /** A contour is kept exactly when its area is at least `minArea`. */
  lemma {:induction false} RetainedMembers(cs: seq<Contour>, minArea: int)
    ensures forall c :: c in Retained(cs, minArea) <==> c in cs && c.area >= minArea as real
  {
    if cs != [] {
      var front := cs[..|cs| - 1];
      RetainedMembers(front, minArea);
      assert cs == front + [cs[|cs| - 1]];
    }
  }

  /** Filtering keeps the original order: filtering a concatenation filters
      each part. */
  lemma {:induction false} RetainedConcat(a: seq<Contour>, b: seq<Contour>, minArea: int)
    ensures Retained(a + b, minArea) == Retained(a, minArea) + Retained(b, minArea)
  {
    if b != [] {
      var front, last := b[..|b| - 1], b[|b| - 1];
      assert (a + b)[..|a + b| - 1] == a + front;
      assert (a + b)[|a + b| - 1] == last;
      RetainedConcat(a, front, minArea);
    } else {
      assert a + b == a;
    }
  }

  lemma {:induction false} TotalAreaConcat(a: seq<Contour>, b: seq<Contour>)
    ensures TotalArea(a + b) == TotalArea(a) + TotalArea(b)
  {
    if b != [] {
      var front, last := b[..|b| - 1], b[|b| - 1];
      assert (a + b)[..|a + b| - 1] == a + front;
      assert (a + b)[|a + b| - 1] == last;
      TotalAreaConcat(a, front);
    } else {
      assert a + b == a;
    }
  }

  /** The score is never negative. */
  lemma {:induction false} TotalAreaNonNegative(cs: seq<Contour>)
    ensures TotalArea(cs) >= 0.0
  {
    if cs != [] {
      TotalAreaNonNegative(cs[..|cs| - 1]);
    }
  }

  /** Without contours the score is 0 and nothing is retained. */
  lemma {:induction false} NoContoursNoScore(minArea: int)
    ensures Retained([], minArea) == [] && TotalArea(Retained([], minArea)) == 0.0
  {
  }

  /** The last contour adds its area to the score when it is kept. */
  lemma {:induction false} ScoreStep(cs: seq<Contour>, minArea: int)
    requires cs != []
    ensures TotalArea(Retained(cs, minArea))
      == TotalArea(Retained(cs[..|cs| - 1], minArea))
         + (if cs[|cs| - 1].area < minArea as real then 0.0 else cs[|cs| - 1].area)
  {
    var last := cs[|cs| - 1];
    var keep := if last.area < minArea as real then [] else [last];
    TotalAreaConcat(Retained(cs[..|cs| - 1], minArea), keep);
    assert TotalArea([last]) == last.area by {
      assert [last][..0] == [];
    }
  }

  /** Raising `min_contour_area` never raises the score. */
  lemma {:induction false} ScoreMonotone(cs: seq<Contour>, low: int, high: int)
    requires low <= high
    ensures TotalArea(Retained(cs, high)) <= TotalArea(Retained(cs, low))
  {
    if cs != [] {
      ScoreMonotone(cs[..|cs| - 1], low, high);
      ScoreStep(cs, low);
      ScoreStep(cs, high);
    }
  }

  /** The score is the sum of the areas of exactly the large-enough contours:
      it is at most the total area of all contours. */
  lemma {:induction false} ScoreAtMostTotal(cs: seq<Contour>, minArea: int)
    ensures TotalArea(Retained(cs, minArea)) <= TotalArea(cs)
  {
    if cs != [] {
      ScoreAtMostTotal(cs[..|cs| - 1], minArea);
      ScoreStep(cs, minArea);
    }
  }
}
