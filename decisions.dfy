/** The keep-or-delete loop of the script's main program: each image is
    compared with the one before it, and the earlier image of every pair
    whose change score falls below the threshold is deleted.

    Reading, resizing and preprocessing the two images and scoring their
    difference are the parameter `scoreOf(base, current)`; the deletions are
    returned as indices into the sorted names rather than carried out. */
module Decisions {

  /** The indices of the images the loop deletes, in deletion order: image
      `j` goes when its successor's score against it is below the
      threshold. */
  function Deletions(names: seq<string>, scoreOf: (string, string) -> real, threshold: int): seq<nat>
  {
    if |names| <= 1 then []
    else Deletions(names[..|names| - 1], scoreOf, threshold)
         + (if scoreOf(names[|names| - 2], names[|names| - 1]) < threshold as real then [|names| - 2] else [])
  }

  /** The loop `for i in range(1, len(image_names))`: the base image
      starts as the first one and after every comparison becomes the current
      one. Returns the deleted indices and the final base index. */
  method DecisionLoop(names: seq<string>, scoreOf: (string, string) -> real, threshold: int)
    returns (deleted: seq<nat>, base: nat)
    requires names != []
    ensures deleted == Deletions(names, scoreOf, threshold)
    ensures base == |names| - 1
  {
    deleted := [];
    base := 0;
    for i := 1 to |names|
      invariant base == i - 1
      invariant deleted == Deletions(names[..i], scoreOf, threshold)
    {
      assert names[..i + 1][..i] == names[..i];
      var score := scoreOf(names[base], names[i]);
      if score < threshold as real {
        deleted := deleted + [base];
      }
      base := i;
    }
    assert names[..|names|] == names;
  }

  /** The score of image `j` against its successor is below the threshold. */
  predicate CloseToNext(names: seq<string>, scoreOf: (string, string) -> real, threshold: int, j: int)
  {
    0 <= j < |names| - 1 && scoreOf(names[j], names[j + 1]) < threshold as real
  }

  lemma {:induction false} DeletedAt(names: seq<string>, scoreOf: (string, string) -> real, threshold: int, j: int)
    ensures j in Deletions(names, scoreOf, threshold) <==> CloseToNext(names, scoreOf, threshold, j)
  {
    if |names| > 1 {
      var front := names[..|names| - 1];
      DeletedAt(front, scoreOf, threshold, j);
      if 0 <= j < |front| - 1 {
        assert front[j] == names[j] && front[j + 1] == names[j + 1];
      }
    }
  }

  /** Image `j` is deleted exactly when it has a successor and the score of
      that pair is strictly below the threshold. */
  lemma {:induction false} DeletionsIff(names: seq<string>, scoreOf: (string, string) -> real, threshold: int)
    ensures forall j: int :: j in Deletions(names, scoreOf, threshold) ==>
      0 <= j < |names| - 1 && scoreOf(names[j], names[j + 1]) < threshold as real
    ensures forall j: int :: 0 <= j < |names| - 1 && scoreOf(names[j], names[j + 1]) < threshold as real ==>
      j in Deletions(names, scoreOf, threshold)
  {
    forall j: int ensures j in Deletions(names, scoreOf, threshold) <==> CloseToNext(names, scoreOf, threshold, j) {
      DeletedAt(names, scoreOf, threshold, j);
    }
  }

  /** Deletions happen in increasing index order, so no image is deleted
      twice, and never touch the last image. */
  lemma {:induction false} DeletionsIncreasing(names: seq<string>, scoreOf: (string, string) -> real, threshold: int)
    ensures forall k :: 0 <= k < |Deletions(names, scoreOf, threshold)| ==>
      Deletions(names, scoreOf, threshold)[k] < |names| - 1
    ensures forall k, l :: 0 <= k < l < |Deletions(names, scoreOf, threshold)| ==>
      Deletions(names, scoreOf, threshold)[k] < Deletions(names, scoreOf, threshold)[l]
  {
    if |names| > 1 {
      DeletionsIncreasing(names[..|names| - 1], scoreOf, threshold);
    }
  }

  /** At most one image fewer than there are is deleted: the last always
      survives. */
  lemma {:induction false} LastNeverDeleted(names: seq<string>, scoreOf: (string, string) -> real, threshold: int)
    requires names != []
    ensures |names| - 1 !in Deletions(names, scoreOf, threshold)
    ensures |Deletions(names, scoreOf, threshold)| <= |names| - 1
  {
    DeletionsIff(names, scoreOf, threshold);
    if |names| > 1 {
      LastNeverDeleted(names[..|names| - 1], scoreOf, threshold);
    }
  }

  /** The first image is the base of the first comparison, so it is deleted
      when the second image is close to it. */
  lemma {:induction false} FirstCanBeDeleted(names: seq<string>, scoreOf: (string, string) -> real, threshold: int)
    requires |names| >= 2 && scoreOf(names[0], names[1]) < threshold as real
    ensures 0 in Deletions(names, scoreOf, threshold)
  {
    DeletionsIff(names, scoreOf, threshold);
  }

  /** A score equal to the threshold keeps the image. */
  lemma {:induction false} ThresholdKeeps(names: seq<string>, scoreOf: (string, string) -> real, threshold: int, j: nat)
    requires j + 1 < |names| && scoreOf(names[j], names[j + 1]) == threshold as real
    ensures j !in Deletions(names, scoreOf, threshold)
  {
    DeletionsIff(names, scoreOf, threshold);
  }

  /** A run of `k` consecutive near-duplicates starting at `a`, ended by the
      last image or by a large change, loses exactly its first `k - 1`
      images. */
  lemma {:induction false} RunOfDuplicates(names: seq<string>, scoreOf: (string, string) -> real, threshold: int, a: nat, k: nat)
    requires 1 <= k && a + k <= |names|
    requires forall j :: a <= j < a + k - 1 ==> scoreOf(names[j], names[j + 1]) < threshold as real
    requires a + k == |names| || scoreOf(names[a + k - 1], names[a + k]) >= threshold as real
    ensures forall j :: a <= j < a + k ==> (j in Deletions(names, scoreOf, threshold) <==> j < a + k - 1)
  {
    forall j | a <= j < a + k ensures j in Deletions(names, scoreOf, threshold) <==> j < a + k - 1 {
      DeletedAt(names, scoreOf, threshold, j);
    }
  }

  /** When every image is close to the one before it, all but the last are
      deleted, first to last. */
  lemma {:induction false} AllDuplicates(names: seq<string>, scoreOf: (string, string) -> real, threshold: int)
    requires names != []
    requires forall j :: 0 <= j < |names| - 1 ==> scoreOf(names[j], names[j + 1]) < threshold as real
    ensures Deletions(names, scoreOf, threshold) == seq(|names| - 1, j requires 0 <= j => j as nat)
  {
    if |names| > 1 {
      var front := names[..|names| - 1];
      forall j | 0 <= j < |front| - 1 ensures scoreOf(front[j], front[j + 1]) < threshold as real {
        assert front[j] == names[j] && front[j + 1] == names[j + 1];
      }
      AllDuplicates(front, scoreOf, threshold);
      var upTo := seq(|names| - 1, j requires 0 <= j => j as nat);
      assert upTo == seq(|front| - 1, j requires 0 <= j => j as nat) + [|names| - 2];
    }
  }

  /** When every image differs enough from the one before it, nothing is
      deleted. */
  lemma {:induction false} NoDuplicates(names: seq<string>, scoreOf: (string, string) -> real, threshold: int)
    requires forall j :: 0 <= j < |names| - 1 ==> scoreOf(names[j], names[j + 1]) >= threshold as real
    ensures Deletions(names, scoreOf, threshold) == []
  {
    if |names| > 1 {
      var front := names[..|names| - 1];
      forall j | 0 <= j < |front| - 1 ensures scoreOf(front[j], front[j + 1]) >= threshold as real {
        assert front[j] == names[j] && front[j + 1] == names[j + 1];
      }
      NoDuplicates(front, scoreOf, threshold);
    }
  }

  /** Three images where the second repeats the first but the third is new:
      only the first is deleted. */
  lemma {:induction false} ThreeFrames(a: string, b: string, c: string, scoreOf: (string, string) -> real)
    requires scoreOf(a, b) == 120.5 && scoreOf(b, c) == 9000.0
    ensures Deletions([a, b, c], scoreOf, 4025) == [0]
  {
    assert [a, b, c][..2] == [a, b];
    assert [a, b][..1] == [a];
    assert Deletions([a], scoreOf, 4025) == [];
    assert Deletions([a, b], scoreOf, 4025) == [0];
    assert Deletions([a, b, c], scoreOf, 4025) == Deletions([a, b], scoreOf, 4025);
  }
}
