/** The script's main program from the folder listing on: the `.png` names
    are collected and sorted by their timestamps, and the decision loop
    picks the files to delete.

    The sort key is the parameter `keyOf`: with `GetTimestamp` this is the
    program as written, with `IntendedTimestamp` the program with the
    date-time key the script's comment describes. The two fail on different
    names (see `OneImageListing`). */
module Script {
  import opened Errors
  import opened Ordering
  import opened Timestamp
  import opened Decisions
  import opened PyStr

  /** The names at the given indices. */
  function NamesAt(names: seq<string>, idx: seq<nat>): (out: seq<string>)
    requires forall k :: 0 <= k < |idx| ==> idx[k] < |names|
    ensures |out| == |idx| && forall k :: 0 <= k < |idx| ==> out[k] == names[idx[k]]
  {
    seq(|idx|, k requires 0 <= k < |idx| => names[idx[k]])
  }

  /** What the script does with a folder listing: the names of the deleted
      files, or the exception that stops it. */
  function Outcome(listing: seq<string>, scoreOf: (string, string) -> real, threshold: int,
                   keyOf: string -> Result<int>): Result<seq<string>>
  {
    match SortImageNames(PngNames(listing), keyOf)
    case Err(e) => Err(e)
    case Ok(sorted) =>
      if sorted == [] then Err(IndexError)
      else
        DeletionsIncreasing(sorted, scoreOf, threshold);
        Ok(NamesAt(sorted, Deletions(sorted, scoreOf, threshold)))
  }

  /** The script from the folder listing on: collect the `.png` names, sort
      them by timestamp, take the first as the base (an empty folder raises
      `IndexError`) and run the decision loop. */
  method Run(listing: seq<string>, scoreOf: (string, string) -> real, threshold: int,
             keyOf: string -> Result<int>)
    returns (r: Result<seq<string>>)
    ensures r == Outcome(listing, scoreOf, threshold, keyOf)
  {
    var names := CollectPngNames(listing);
    var sorted := SortImageNames(names, keyOf);
    if sorted.Err? {
      return Err(sorted.error);
    }
    var imageNames := sorted.value;
    if |imageNames| == 0 {
      return Err(IndexError);
    }
    var deleted, _ := DecisionLoop(imageNames, scoreOf, threshold);
    DeletionsIncreasing(imageNames, scoreOf, threshold);
    return Ok(NamesAt(imageNames, deleted));
  }

  /** The script fails exactly when the folder holds no `.png` file or one of
      their timestamps cannot be read; otherwise it deletes only `.png` files
      of the folder, and always keeps at least one. */
  lemma {:induction false} OutcomeSpec(listing: seq<string>, scoreOf: (string, string) -> real, threshold: int,
                                       keyOf: string -> Result<int>)
    ensures Outcome(listing, scoreOf, threshold, keyOf).Err? <==>
      PngNames(listing) == [] || exists n :: n in PngNames(listing) && keyOf(n).Err?
    ensures Outcome(listing, scoreOf, threshold, keyOf).Ok? ==>
      && (forall n :: n in Outcome(listing, scoreOf, threshold, keyOf).value ==> n in listing && IsPng(n))
      && |Outcome(listing, scoreOf, threshold, keyOf).value| < |PngNames(listing)|
  {
    var png := PngNames(listing);
    PngNamesMembers(listing);
    SortImageNamesSpec(png, keyOf);
    var s := SortImageNames(png, keyOf);
    if s.Ok? {
      var sorted := s.value;
      assert |sorted| == |png| by {
        assert |multiset(sorted)| == |multiset(png)|;
      }
      if sorted != [] {
        var d := Deletions(sorted, scoreOf, threshold);
        DeletionsIncreasing(sorted, scoreOf, threshold);
        LastNeverDeleted(sorted, scoreOf, threshold);
        forall n | n in NamesAt(sorted, d) ensures n in listing && IsPng(n) {
          var k :| 0 <= k < |d| && NamesAt(sorted, d)[k] == n;
          assert n in multiset(sorted);
        }
      }
    } else {
      var i :| 0 <= i < |png| && keyOf(png[i]).Err?;
      assert png[i] in png;
    }
  }

  /** The sort of a single name fails or succeeds with its key. */
  lemma {:induction false} SortOne(name: string, keyOf: string -> Result<int>)
    ensures keyOf(name).Err? ==> SortImageNames([name], keyOf) == Err(keyOf(name).error)
    ensures keyOf(name).Ok? ==> SortImageNames([name], keyOf) == Ok([name])
  {
    if keyOf(name).Ok? {
      var e := Entry(keyOf(name).value, name);
      var r := KeyAll([name], keyOf);
      assert r.Ok? && |r.value| == 1 && r.value[0] == e;
      assert r.value == [e];
      assert StableSort([e]) == [e] by {
        assert [e][..0] == [];
      }
      assert NamesOf([e]) == [name];
    }
  }

  /** A folder holding one image: the script stops with that image's key
      error, or runs and deletes nothing. */
  lemma {:induction false} OutcomeOne(name: string, scoreOf: (string, string) -> real, threshold: int,
                                      keyOf: string -> Result<int>)
    requires IsPng(name)
    ensures keyOf(name).Err? ==> Outcome([name], scoreOf, threshold, keyOf) == Err(keyOf(name).error)
    ensures keyOf(name).Ok? ==> Outcome([name], scoreOf, threshold, keyOf) == Ok([])
  {
    assert PngNames([name]) == [name] by {
      assert [name][..0] == [];
    }
    SortOne(name, keyOf);
  }

  lemma {:induction false} PngSuffix(id: string, d: string)
    ensures IsPng(id + "_" + d + ".png")
  {
    var name := id + "_" + d + ".png";
    assert name[|name| - 4..] == ".png";
  }

  /** A folder holding the one image `img_001.png` (any id free of `_` and
      `-`, any digits): the program as written stops with `ValueError`, the
      corrected one runs and deletes nothing. */
  lemma {:induction false} OneImageListing(id: string, d: string, scoreOf: (string, string) -> real, threshold: int)
    requires '_' !in id && '-' !in id && d != [] && AllDigits(d)
    ensures Outcome([id + "_" + d + ".png"], scoreOf, threshold, GetTimestamp) == Err(ValueError)
    ensures Outcome([id + "_" + d + ".png"], scoreOf, threshold, IntendedTimestamp) == Ok([])
  {
    var name := id + "_" + d + ".png";
    assert name == id + "_" + d + "." + "png";
    PngSuffix(id, d);
    OneFieldAsWritten(id, d, "png");
    OneFieldIntended(id, d, "png");
    OutcomeOne(name, scoreOf, threshold, GetTimestamp);
    OutcomeOne(name, scoreOf, threshold, IntendedTimestamp);
  }
}
