/** Building the image list: the `.png` names of the folder listing, in
    listing order, then `sorted(image_names, key=get_timestamp)`, which is a
    stable sort on a key computed once per name. */
module Ordering {
  import opened Errors

  /** Python `name.endswith(".png")`. */
  predicate IsPng(name: string)
  {
    |name| >= 4 && name[|name| - 4..] == ".png"
  }

  /** The `.png` names of a listing, in listing order. */
  function PngNames(listing: seq<string>): seq<string>
  {
    if listing == [] then []
    else
      var last := listing[|listing| - 1];
      PngNames(listing[..|listing| - 1]) + (if IsPng(last) then [last] else [])
  }

  /** The loop over `os.listdir` appending every `.png` name. */
  method CollectPngNames(listing: seq<string>) returns (names: seq<string>)
    ensures names == PngNames(listing)
  {
    names := [];
    for i := 0 to |listing|
      invariant names == PngNames(listing[..i])
    {
      assert listing[..i + 1][..i] == listing[..i];
      if IsPng(listing[i]) {
        names := names + [listing[i]];
      }
    }
    assert listing[..|listing|] == listing;
  }

  /** The image list holds exactly the `.png` names of the listing. */
  lemma {:induction false} PngNamesMembers(listing: seq<string>)
    ensures forall x :: x in PngNames(listing) <==> x in listing && IsPng(x)
  {
    if listing != [] {
      var front := listing[..|listing| - 1];
      PngNamesMembers(front);
      assert listing == front + [listing[|listing| - 1]];
    }
  }

  /** The image list keeps listing order: the names from two parts of a
      listing come out as those of the first part followed by those of the
      second. */
  lemma {:induction false} PngNamesConcat(a: seq<string>, b: seq<string>)
    ensures PngNames(a + b) == PngNames(a) + PngNames(b)
    decreases |b|
  {
    if b == [] {
      assert a + b == a;
    } else {
      var front, last := b[..|b| - 1], b[|b| - 1];
      var ab := a + b;
      assert ab == (a + front) + [last];
      assert ab[..|ab| - 1] == a + front;
      PngNamesConcat(a, front);
      assert PngNames(ab) == PngNames(a + front) + (if IsPng(last) then [last] else []);
      assert PngNames(b) == PngNames(front) + (if IsPng(last) then [last] else []);
    }
  }

  /** A name together with its sort key. */
  datatype Entry = Entry(key: int, name: string)

  predicate SortedByKey(s: seq<Entry>)
  {
    forall i, j :: 0 <= i < j < |s| ==> s[i].key <= s[j].key
  }

  /** The entries of `s` whose key is `k`, in their order in `s`. */
  function WithKey(s: seq<Entry>, k: int): seq<Entry>
  {
    if s == [] then [] else (if s[0].key == k then [s[0]] else []) + WithKey(s[1..], k)
  }

  lemma {:induction false} WithKeyMembers(s: seq<Entry>, k: int)
    ensures forall x :: x in WithKey(s, k) <==> x in s && x.key == k
  {
    if s != [] {
      WithKeyMembers(s[1..], k);
      assert s == [s[0]] + s[1..];
    }
  }

  lemma {:induction false} WithKeyConcat(a: seq<Entry>, b: seq<Entry>, k: int)
    ensures WithKey(a + b, k) == WithKey(a, k) + WithKey(b, k)
  {
    if a == [] {
      assert a + b == b;
    } else {
      var ab := a + b;
      assert ab[0] == a[0];
      assert ab[1..] == a[1..] + b;
      WithKeyConcat(a[1..], b, k);
      var head := if a[0].key == k then [a[0]] else [];
      assert WithKey(ab, k) == head + WithKey(a[1..] + b, k);
      assert WithKey(a, k) == head + WithKey(a[1..], k);
    }
  }

  /** No entry of a sorted sequence has a key below its first key. */
  lemma {:induction false} WithKeyBelowFirst(s: seq<Entry>, k: int)
    requires SortedByKey(s) && s != [] && k < s[0].key
    ensures WithKey(s, k) == []
  {
    if |s| > 1 {
      WithKeyBelowFirst(s[1..], k);
    }
  }

  /** Place `e` after every leading entry whose key is at most its own. */
  function Insert(e: Entry, s: seq<Entry>): seq<Entry>
  {
    if s == [] || e.key < s[0].key then [e] + s else [s[0]] + Insert(e, s[1..])
  }

  /** Insertion adds exactly `e`. */
  lemma {:induction false} InsertMultiset(e: Entry, s: seq<Entry>)
    ensures multiset(Insert(e, s)) == multiset(s) + multiset{e}
  {
    if s != [] && s[0].key <= e.key {
      InsertMultiset(e, s[1..]);
      assert s == [s[0]] + s[1..];
    }
  }

  /** A lower bound on the keys of `s` and on `e` bounds the keys after
      insertion. */
  lemma {:induction false} InsertLowerBound(e: Entry, s: seq<Entry>, low: int)
    requires low <= e.key && forall i :: 0 <= i < |s| ==> low <= s[i].key
    ensures forall i :: 0 <= i < |Insert(e, s)| ==> low <= Insert(e, s)[i].key
  {
    if s != [] && s[0].key <= e.key {
      InsertLowerBound(e, s[1..], low);
    }
  }

  /** An entry with the least key in front of a sorted sequence keeps it
      sorted. */
  lemma {:induction false} ConsSorted(x: Entry, rest: seq<Entry>)
    requires SortedByKey(rest) && forall i :: 0 <= i < |rest| ==> x.key <= rest[i].key
    ensures SortedByKey([x] + rest)
  {
    var t := [x] + rest;
    forall i, j | 0 <= i < j < |t| ensures t[i].key <= t[j].key {
      assert t[j] == rest[j - 1];
      if i > 0 {
        assert t[i] == rest[i - 1];
      }
    }
  }

  /** Inserting into a sorted sequence keeps it sorted and adds exactly `e`. */
  lemma {:induction false} InsertSorted(e: Entry, s: seq<Entry>)
    requires SortedByKey(s)
    ensures SortedByKey(Insert(e, s))
    ensures multiset(Insert(e, s)) == multiset(s) + multiset{e}
  {
    InsertMultiset(e, s);
    if s == [] || e.key < s[0].key {
      ConsSorted(e, s);
    } else {
      var rest := Insert(e, s[1..]);
      InsertSorted(e, s[1..]);
      InsertLowerBound(e, s[1..], s[0].key);
      ConsSorted(s[0], rest);
    }
  }

  /** Insertion sort, inserting each entry after the sorted entries before it. */
  function StableSort(s: seq<Entry>): seq<Entry>
  {
    if s == [] then [] else Insert(s[|s| - 1], StableSort(s[..|s| - 1]))
  }

  /** The sort returns its input rearranged into non-decreasing key order. */
  lemma {:induction false} StableSortSorted(s: seq<Entry>)
    ensures SortedByKey(StableSort(s))
    ensures multiset(StableSort(s)) == multiset(s)
  {
    if s != [] {
      var front, last := s[..|s| - 1], s[|s| - 1];
      StableSortSorted(front);
      InsertSorted(last, StableSort(front));
      assert s == front + [last];
    }
  }

  /** Inserting `e` into a sorted sequence appends it to the entries of its
      key. */
  lemma {:induction false} WithKeyInsert(e: Entry, s: seq<Entry>, k: int)
    requires SortedByKey(s)
    ensures WithKey(Insert(e, s), k) == WithKey(s, k) + (if e.key == k then [e] else [])
  {
    if s == [] {
    } else if e.key < s[0].key {
      assert ([e] + s)[1..] == s;
      if e.key == k {
        WithKeyBelowFirst(s, k);
      }
    } else {
      var r := [s[0]] + Insert(e, s[1..]);
      assert r[1..] == Insert(e, s[1..]);
      WithKeyInsert(e, s[1..], k);
    }
  }

  /** The entries of `s + [e]` with key `k`. */
  lemma {:induction false} WithKeySnoc(s: seq<Entry>, e: Entry, k: int)
    ensures WithKey(s + [e], k) == WithKey(s, k) + (if e.key == k then [e] else [])
  {
    WithKeyConcat(s, [e], k);
    WithKeySingle(e, k);
  }

  /** One insertion step of the sort keeps each key's entries in input order. */
  lemma {:induction false} InsertKeepsTies(e: Entry, sorted: seq<Entry>, front: seq<Entry>, k: int)
    requires SortedByKey(sorted) && WithKey(sorted, k) == WithKey(front, k)
    ensures WithKey(Insert(e, sorted), k) == WithKey(front + [e], k)
  {
    WithKeyInsert(e, sorted, k);
    WithKeySnoc(front, e, k);
  }

  /** The sort is stable: for every key, the entries with that key come out
      in the order they went in. */
  lemma {:induction false} StableSortKeepsTies(s: seq<Entry>, k: int)
    ensures WithKey(StableSort(s), k) == WithKey(s, k)
  {
    if s != [] {
      var front, last := s[..|s| - 1], s[|s| - 1];
      StableSortSorted(front);
      StableSortKeepsTies(front, k);
      InsertKeepsTies(last, StableSort(front), front, k);
      assert s == front + [last];
    }
  }

  lemma {:induction false} WithKeySingle(e: Entry, k: int)
    ensures WithKey([e], k) == if e.key == k then [e] else []
  {
    assert [e][1..] == [];
  }

  lemma {:induction false} FirstKeyPresent(s: seq<Entry>)
    ensures s != [] ==> WithKey(s, s[0].key) != []
  {
  }

  /** Two sorted sequences with the same entries per key start with the same
      entry. */
  lemma {:induction false} SameFirst(t: seq<Entry>, u: seq<Entry>)
    requires SortedByKey(t) && SortedByKey(u) && t != [] && u != []
    requires forall k :: WithKey(t, k) == WithKey(u, k)
    ensures t[0] == u[0]
  {
    var a, b := t[0], u[0];
    FirstKeyPresent(t);
    FirstKeyPresent(u);
    WithKeyMembers(t, b.key);
    WithKeyMembers(u, a.key);
    assert a in WithKey(u, a.key);
    assert b in WithKey(t, b.key);
    assert a.key == b.key;
    assert WithKey(t, a.key)[0] == a && WithKey(u, a.key)[0] == b;
  }

  /** Dropping a common first entry keeps the per-key sequences equal. */
  lemma {:induction false} SameTails(t: seq<Entry>, u: seq<Entry>)
    requires t != [] && u != [] && t[0] == u[0]
    requires forall k :: WithKey(t, k) == WithKey(u, k)
    ensures forall k :: WithKey(t[1..], k) == WithKey(u[1..], k)
  {
    var a := t[0];
    forall k ensures WithKey(t[1..], k) == WithKey(u[1..], k) {
      var head := if a.key == k then [a] else [];
      assert WithKey(t, k) == head + WithKey(t[1..], k);
      assert WithKey(u, k) == head + WithKey(u[1..], k);
      assert WithKey(t[1..], k) == WithKey(t, k)[|head|..];
      assert WithKey(u[1..], k) == WithKey(u, k)[|head|..];
    }
  }

  lemma {:induction false} SortedTail(t: seq<Entry>)
    requires SortedByKey(t) && t != []
    ensures SortedByKey(t[1..])
  {
  }

  /** Sorted order and the order within each key fix a sequence completely:
      any sorted arrangement that keeps every key's entries in their original
      order is the one `StableSort` returns. */
  lemma {:induction false} TiesDetermineOrder(t: seq<Entry>, u: seq<Entry>)
    requires SortedByKey(t) && SortedByKey(u)
    requires forall k :: WithKey(t, k) == WithKey(u, k)
    ensures t == u
    decreases |t|
  {
    FirstKeyPresent(t);
    FirstKeyPresent(u);
    if t != [] && u != [] {
      SameFirst(t, u);
      SameTails(t, u);
      SortedTail(t);
      SortedTail(u);
      TiesDetermineOrder(t[1..], u[1..]);
      assert t == [t[0]] + t[1..] && u == [u[0]] + u[1..];
    }
  }

  /** `StableSort` is the one stable sort: it is characterised by being
      sorted and keeping each key's entries in input order. */
  lemma {:induction false} StableSortUnique(s: seq<Entry>, t: seq<Entry>)
    requires SortedByKey(t)
    requires forall k :: WithKey(t, k) == WithKey(s, k)
    ensures t == StableSort(s)
  {
    forall k ensures WithKey(t, k) == WithKey(StableSort(s), k) {
      StableSortKeepsTies(s, k);
    }
    StableSortSorted(s);
    TiesDetermineOrder(t, StableSort(s));
  }

  /** The keys of all names, computed left to right before any comparison;
      the first key call that raises decides the exception. */
  function KeyAll(names: seq<string>, keyOf: string -> Result<int>): (r: Result<seq<Entry>>)
    ensures r.Ok? <==> forall i :: 0 <= i < |names| ==> keyOf(names[i]).Ok?
    ensures r.Ok? ==> |r.value| == |names|
    ensures r.Ok? ==> forall i :: 0 <= i < |names| ==> r.value[i] == Entry(keyOf(names[i]).value, names[i])
    ensures r.Err? ==> exists i :: 0 <= i < |names| && keyOf(names[i]) == Err(r.error)
                                   && forall j :: 0 <= j < i ==> keyOf(names[j]).Ok?
  {
    if names == [] then Ok([])
    else
      match keyOf(names[0])
      case Err(e) => Err(e)
      case Ok(k) =>
        match KeyAll(names[1..], keyOf)
        case Err(e) =>
          ghost var i :| 0 <= i < |names[1..]| && keyOf(names[1..][i]) == Err(e)
                         && forall j :: 0 <= j < i ==> keyOf(names[1..][j]).Ok?;
          assert keyOf(names[i + 1]) == Err(e);
          Err(e)
        case Ok(rest) => Ok([Entry(k, names[0])] + rest)
  }

  function NamesOf(s: seq<Entry>): (ns: seq<string>)
    ensures |ns| == |s| && forall i :: 0 <= i < |s| ==> ns[i] == s[i].name
  {
    seq(|s|, i requires 0 <= i < |s| => s[i].name)
  }

  /** `sorted(names, key=keyOf)`. */
  function SortImageNames(names: seq<string>, keyOf: string -> Result<int>): Result<seq<string>>
  {
    match KeyAll(names, keyOf)
    case Err(e) => Err(e)
    case Ok(entries) => Ok(NamesOf(StableSort(entries)))
  }

  /** The names whose key is `k`, in their order in `ns`. */
  function NamesWithKey(ns: seq<string>, keyOf: string -> Result<int>, k: int): seq<string>
  {
    if ns == [] then [] else (if keyOf(ns[0]) == Ok(k) then [ns[0]] else []) + NamesWithKey(ns[1..], keyOf, k)
  }

  /** Every entry carries the key `keyOf` gives its name. */
  predicate KeysOf(s: seq<Entry>, keyOf: string -> Result<int>)
  {
    forall e :: e in s ==> keyOf(e.name) == Ok(e.key)
  }

  lemma {:induction false} NamesOfConcat(a: seq<Entry>, b: seq<Entry>)
    ensures NamesOf(a + b) == NamesOf(a) + NamesOf(b)
  {
  }

  lemma {:induction false} NamesWithKeyOf(s: seq<Entry>, keyOf: string -> Result<int>, k: int)
    requires KeysOf(s, keyOf)
    ensures NamesWithKey(NamesOf(s), keyOf, k) == NamesOf(WithKey(s, k))
  {
    if s != [] {
      var ns := NamesOf(s);
      var x := s[0];
      assert x in s;
      assert keyOf(ns[0]) == Ok(x.key);
      assert ns[1..] == NamesOf(s[1..]);
      assert KeysOf(s[1..], keyOf) by {
        forall e | e in s[1..] ensures keyOf(e.name) == Ok(e.key) {
          assert e in s;
        }
      }
      NamesWithKeyOf(s[1..], keyOf, k);
      var head := if x.key == k then [x] else [];
      assert NamesWithKey(ns, keyOf, k) == NamesOf(head) + NamesWithKey(ns[1..], keyOf, k);
      NamesOfConcat(head, WithKey(s[1..], k));
    }
  }

  lemma {:induction false} NamesOfInsert(e: Entry, s: seq<Entry>)
    ensures multiset(NamesOf(Insert(e, s))) == multiset(NamesOf(s)) + multiset{e.name}
  {
    if s == [] || e.key < s[0].key {
      NamesOfConcat([e], s);
    } else {
      NamesOfInsert(e, s[1..]);
      NamesOfConcat([s[0]], Insert(e, s[1..]));
      NamesOfConcat([s[0]], s[1..]);
      assert [s[0]] + s[1..] == s;
    }
  }

  lemma {:induction false} NamesOfStableSort(s: seq<Entry>)
    ensures multiset(NamesOf(StableSort(s))) == multiset(NamesOf(s))
  {
    if s != [] {
      var front, last := s[..|s| - 1], s[|s| - 1];
      var sortedFront := StableSort(front);
      NamesOfStableSort(front);
      NamesOfInsert(last, sortedFront);
      assert NamesOf(s) == NamesOf(front) + [last.name];
    }
  }

  /** The entries `KeyAll` builds carry the names in order, each with the
      key `keyOf` gives it. */
  lemma {:induction false} KeyAllEntries(names: seq<string>, keyOf: string -> Result<int>)
    requires KeyAll(names, keyOf).Ok?
    ensures NamesOf(KeyAll(names, keyOf).value) == names
    ensures KeysOf(KeyAll(names, keyOf).value, keyOf)
  {
    var entries := KeyAll(names, keyOf).value;
    forall e | e in entries ensures keyOf(e.name) == Ok(e.key) {
      var i :| 0 <= i < |entries| && entries[i] == e;
    }
  }

  /** Rearranging entries keeps every entry's key right. */
  lemma {:induction false} KeysOfPermutation(s: seq<Entry>, t: seq<Entry>, keyOf: string -> Result<int>)
    requires KeysOf(s, keyOf) && multiset(t) == multiset(s)
    ensures KeysOf(t, keyOf)
  {
    forall e | e in t ensures keyOf(e.name) == Ok(e.key) {
      assert e in multiset(t);
      assert e in s;
    }
  }

  /** The names of sorted, correctly keyed entries have non-decreasing keys. */
  lemma {:induction false} SortedNames(s: seq<Entry>, keyOf: string -> Result<int>)
    requires SortedByKey(s) && KeysOf(s, keyOf)
    ensures forall i :: 0 <= i < |NamesOf(s)| ==> keyOf(NamesOf(s)[i]) == Ok(s[i].key)
    ensures forall i, j :: 0 <= i < j < |NamesOf(s)| ==> keyOf(NamesOf(s)[i]).value <= keyOf(NamesOf(s)[j]).value
  {
    forall i | 0 <= i < |s| ensures keyOf(NamesOf(s)[i]) == Ok(s[i].key) {
      assert s[i] in s;
    }
  }

  /** What `sorted(names, key=keyOf)` returns, when every key call succeeds:
      a permutation of the names, in non-decreasing key order, where names
      with equal keys keep their listing order; when a key call raises, the
      sort raises the first such exception. */
  lemma {:induction false} SortImageNamesSpec(names: seq<string>, keyOf: string -> Result<int>)
    ensures SortImageNames(names, keyOf).Err? <==> exists i :: 0 <= i < |names| && keyOf(names[i]).Err?
    ensures SortImageNames(names, keyOf).Ok? ==>
      var sorted := SortImageNames(names, keyOf).value;
      && multiset(sorted) == multiset(names)
      && (forall i :: 0 <= i < |sorted| ==> keyOf(sorted[i]).Ok?)
      && (forall i, j :: 0 <= i < j < |sorted| ==> keyOf(sorted[i]).value <= keyOf(sorted[j]).value)
      && (forall k :: NamesWithKey(sorted, keyOf, k) == NamesWithKey(names, keyOf, k))
  {
    var r := KeyAll(names, keyOf);
    if r.Ok? {
      var entries := r.value;
      var out := StableSort(entries);
      KeyAllEntries(names, keyOf);
      StableSortSorted(entries);
      KeysOfPermutation(entries, out, keyOf);
      NamesOfStableSort(entries);
      SortedNames(out, keyOf);
      forall k ensures NamesWithKey(NamesOf(out), keyOf, k) == NamesWithKey(names, keyOf, k) {
        NamesWithKeyOf(out, keyOf, k);
        NamesWithKeyOf(entries, keyOf, k);
        StableSortKeepsTies(entries, k);
      }
    }
  }
}
