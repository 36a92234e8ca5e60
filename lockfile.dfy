/** The entry-filtering loop of `filterLockfile` in index.js: the loaded
    yarn.lock document is an ordered map from resolution keys to records the
    filter never looks into, and the loop deletes, in place, every entry whose
    key names an excluded package. */
module LockfileFilter {
  import opened Strings
  import opened PackageSpec

  /** No key occurs twice, as in a JavaScript object. */
  ghost predicate DistinctKeys<V>(entries: seq<(string, V)>) {
    forall i, j :: 0 <= i < j < |entries| ==> entries[i].0 != entries[j].0
  }

  /** Some entry has this key. */
  ghost predicate HasKey<V>(entries: seq<(string, V)>, key: string) {
    exists i :: 0 <= i < |entries| && entries[i].0 == key
  }

  /** `key.startsWith("__")`: a reserved key such as `__metadata`. */
  predicate IsMetadataKey(key: string) {
    |key| >= 2 && key[0] == '_' && key[1] == '_'
  }

  /** Whether any name of a key is in the exclusion list (exact, case-sensitive equality). */
  predicate NamesExcluded(names: seq<string>, exclude: seq<string>) {
    exists name :: name in names && name in exclude
  }

  /** Whether the filter deletes the entry with this key. */
  predicate Excluded(key: string, exclude: seq<string>) {
    !IsMetadataKey(key) && NamesExcluded(PackageNames(key), exclude)
  }

  /** `Excluded` for one exclusion list, as a test on keys. */
  function ExcludedBy(exclude: seq<string>): string -> bool {
    key => Excluded(key, exclude)
  }

  /** The entries the filter keeps, in their order: those whose key the test
      `excluded` does not hold of. */
  function Filtered<V>(entries: seq<(string, V)>, excluded: string -> bool): seq<(string, V)> {
    if entries == [] then []
    else if excluded(entries[0].0) then Filtered(entries[1..], excluded)
    else [entries[0]] + Filtered(entries[1..], excluded)
  }

  /** The entries without the one that has `key`: what `delete` leaves. */
  function WithoutKey<V>(entries: seq<(string, V)>, key: string): (r: seq<(string, V)>)
    ensures forall i :: 0 <= i < |r| ==> r[i] in entries && r[i].0 != key
    ensures forall i :: 0 <= i < |entries| && entries[i].0 != key ==> entries[i] in r
  {
    if entries == [] then []
    else if entries[0].0 == key then WithoutKey(entries[1..], key)
    else [entries[0]] + WithoutKey(entries[1..], key)
  }

  /** `a` keeps its elements in the order they have in `b`, skipping some. */
  ghost predicate Subsequence<T>(a: seq<T>, b: seq<T>) {
    a == [] || (b != [] && ((a[0] == b[0] && Subsequence(a[1..], b[1..])) || Subsequence(a, b[1..])))
  }

  /** The parsed lockfile: its top-level entries in document order. */
  class Lockfile<V> {
    var entries: seq<(string, V)>

    ghost predicate Valid()
      reads this
    {
      DistinctKeys(entries)
    }

    /** A document as the loader produced it. */
    constructor (loaded: seq<(string, V)>)
      requires DistinctKeys(loaded)
      ensures Valid() && entries == loaded
    {
      entries := loaded;
    }

    /** `delete lockfile[key]`: removes the entry with `key`, if there is one. */
    method Delete(key: string)
      requires Valid()
      modifies this
      ensures Valid()
      ensures entries == WithoutKey(old(entries), key)
    {
      WithoutKeyDistinct(entries, key);
      entries := WithoutKey(entries, key);
    }
  }

  /** The loop of `filterLockfile` over a snapshot of the entries: skip reserved
      keys, parse every other key and delete its entry when one of its names is
      excluded. */
  method FilterEntries<V>(lockfile: Lockfile<V>, exclude: seq<string>)
    requires lockfile.Valid()
    modifies lockfile
    ensures lockfile.Valid()
    ensures lockfile.entries == Filtered(old(lockfile.entries), ExcludedBy(exclude))
  {
    var snapshot := lockfile.entries;
    ghost var excluded := ExcludedBy(exclude);
    for i := 0 to |snapshot|
      invariant lockfile.Valid() && DistinctKeys(snapshot)
      invariant lockfile.entries == Filtered(snapshot[..i], excluded) + snapshot[i..]
    {
      var key := snapshot[i].0;
      if IsMetadataKey(key) {
        assert !excluded(key);
        KeepStep(snapshot, i, excluded);
        continue;
      }
      var packageNames := PackageNames(key);
      if NamesExcluded(packageNames, exclude) {
        assert excluded(key);
        DeleteStep(snapshot, i, excluded);
        lockfile.Delete(key);
      } else {
        assert !excluded(key);
        KeepStep(snapshot, i, excluded);
      }
    }
    assert snapshot[..|snapshot|] == snapshot;
  }

  /** The loop passes over an entry it does not delete. */
  lemma KeepStep<V>(snapshot: seq<(string, V)>, i: nat, excluded: string -> bool)
    requires i < |snapshot| && !excluded(snapshot[i].0)
    ensures Filtered(snapshot[..i], excluded) + snapshot[i..] == Filtered(snapshot[..i + 1], excluded) + snapshot[i + 1..]
  {
    var kept, rest := Filtered(snapshot[..i], excluded), snapshot[i + 1..];
    FilteredStep(snapshot, i, excluded);
    assert snapshot[i..] == [snapshot[i]] + rest;
    assert kept + ([snapshot[i]] + rest) == (kept + [snapshot[i]]) + rest;
  }

  /** The loop deletes the entry it is at. */
  lemma DeleteStep<V>(snapshot: seq<(string, V)>, i: nat, excluded: string -> bool)
    requires i < |snapshot| && DistinctKeys(snapshot) && excluded(snapshot[i].0)
    ensures WithoutKey(Filtered(snapshot[..i], excluded) + snapshot[i..], snapshot[i].0) ==
      Filtered(snapshot[..i + 1], excluded) + snapshot[i + 1..]
  {
    var kept := Filtered(snapshot[..i], excluded);
    FilteredStep(snapshot, i, excluded);
    assert Filtered(snapshot[..i + 1], excluded) == kept;
    DeleteCurrent(snapshot, i, kept, excluded);
  }

  /** Removing a key from a list with distinct keys keeps the keys distinct. */
  lemma {:induction false} WithoutKeyDistinct<V>(entries: seq<(string, V)>, key: string)
    requires DistinctKeys(entries)
    ensures DistinctKeys(WithoutKey(entries, key))
  {
    if entries != [] {
      WithoutKeyDistinct(entries[1..], key);
      var rest := WithoutKey(entries[1..], key);
      forall e | e in rest ensures e.0 != entries[0].0 {
        var j :| 0 <= j < |entries[1..]| && entries[1..][j] == e;
        assert entries[j + 1] == e;
      }
    }
  }

  /** Deleting the key of an entry that sits between two lists not holding that key. */
  lemma {:induction false} WithoutKeyMiddle<V>(a: seq<(string, V)>, e: (string, V), b: seq<(string, V)>)
    requires !HasKey(a, e.0) && !HasKey(b, e.0)
    ensures WithoutKey(a + [e] + b, e.0) == a + b
  {
    if a == [] {
      assert [e] + b == a + [e] + b;
      WithoutKeyNone(b, e.0);
    } else {
      assert (a + [e] + b)[1..] == a[1..] + [e] + b;
      assert !HasKey(a[1..], e.0);
      assert a[0].0 != e.0;
      WithoutKeyMiddle(a[1..], e, b);
      assert a + b == [a[0]] + (a[1..] + b);
    }
  }

  /** Deleting a key no entry has changes nothing. */
  lemma {:induction false} WithoutKeyNone<V>(entries: seq<(string, V)>, key: string)
    requires !HasKey(entries, key)
    ensures WithoutKey(entries, key) == entries
  {
    if entries != [] {
      assert entries[0].0 != key;
      assert !HasKey(entries[1..], key);
      WithoutKeyNone(entries[1..], key);
      assert entries == [entries[0]] + entries[1..];
    }
  }

  /** Filtering a concatenation filters each part. */
  lemma {:induction false} FilteredAppend<V>(a: seq<(string, V)>, b: seq<(string, V)>, excluded: string -> bool)
    ensures Filtered(a + b, excluded) == Filtered(a, excluded) + Filtered(b, excluded)
  {
    if a == [] {
      assert a + b == b;
    } else {
      assert (a + b)[1..] == a[1..] + b;
      FilteredAppend(a[1..], b, excluded);
    }
  }

  /** One more entry of the snapshot: excluded ones are dropped, the others kept. */
  lemma FilteredStep<V>(snapshot: seq<(string, V)>, i: nat, excluded: string -> bool)
    requires i < |snapshot|
    ensures Filtered(snapshot[..i + 1], excluded) ==
      Filtered(snapshot[..i], excluded) + (if excluded(snapshot[i].0) then [] else [snapshot[i]])
  {
    assert snapshot[..i + 1] == snapshot[..i] + [snapshot[i]];
    FilteredAppend(snapshot[..i], [snapshot[i]], excluded);
  }

  /** The entry the loop is at is the only one with its key in the current document. */
  lemma DeleteCurrent<V>(snapshot: seq<(string, V)>, i: nat, kept: seq<(string, V)>, excluded: string -> bool)
    requires i < |snapshot| && DistinctKeys(snapshot)
    requires kept == Filtered(snapshot[..i], excluded)
    ensures WithoutKey(kept + snapshot[i..], snapshot[i].0) == kept + snapshot[i + 1..]
  {
    var e := snapshot[i];
    FilteredKeeps(snapshot[..i], excluded);
    forall j | 0 <= j < |kept| ensures kept[j].0 != e.0 {
      assert kept[j] in snapshot[..i];
      var m :| 0 <= m < i && snapshot[..i][m] == kept[j];
      assert snapshot[m] == kept[j];
    }
    var rest := snapshot[i + 1..];
    forall j | 0 <= j < |rest| ensures rest[j].0 != e.0 {
      assert rest[j] == snapshot[i + 1 + j];
    }
    assert snapshot[i..] == [e] + snapshot[i + 1..];
    assert kept + snapshot[i..] == kept + [e] + snapshot[i + 1..];
    WithoutKeyMiddle(kept, e, snapshot[i + 1..]);
  }

  /** Every surviving entry was there and has a key that is not excluded. */
  lemma {:induction false} FilteredKeeps<V>(entries: seq<(string, V)>, excluded: string -> bool)
    ensures forall e :: e in Filtered(entries, excluded) ==> e in entries && !excluded(e.0)
  {
    if entries != [] {
      FilteredKeeps(entries[1..], excluded);
    }
  }

  /** Every entry whose key is not excluded survives. */
  lemma {:induction false} FilteredRetains<V>(entries: seq<(string, V)>, excluded: string -> bool)
    ensures forall e :: e in entries && !excluded(e.0) ==> e in Filtered(entries, excluded)
  {
    if entries != [] {
      FilteredRetains(entries[1..], excluded);
      assert entries == [entries[0]] + entries[1..];
    }
  }

  /** An entry survives exactly when it was there and its key is not excluded. */
  lemma FilteredMembers<V>(entries: seq<(string, V)>, excluded: string -> bool, e: (string, V))
    ensures e in Filtered(entries, excluded) <==> e in entries && !excluded(e.0)
  {
    FilteredKeeps(entries, excluded);
    FilteredRetains(entries, excluded);
  }

  /** A key is still there exactly when it was there and is not excluded. */
  lemma FilteredKeys<V>(entries: seq<(string, V)>, excluded: string -> bool, key: string)
    ensures HasKey(Filtered(entries, excluded), key) <==> HasKey(entries, key) && !excluded(key)
  {
    var r := Filtered(entries, excluded);
    FilteredKeeps(entries, excluded);
    FilteredRetains(entries, excluded);
    if HasKey(r, key) {
      var j :| 0 <= j < |r| && r[j].0 == key;
      assert r[j] in entries;
    }
    if HasKey(entries, key) && !excluded(key) {
      var j :| 0 <= j < |entries| && entries[j].0 == key;
      assert entries[j] in r;
    }
  }

  /** Reserved keys are never deleted: `__metadata` is there after filtering
      exactly when it was there before. */
  lemma MetadataKept<V>(entries: seq<(string, V)>, exclude: seq<string>, key: string)
    requires IsMetadataKey(key)
    ensures HasKey(Filtered(entries, ExcludedBy(exclude)), key) <==> HasKey(entries, key)
  {
    FilteredKeys(entries, ExcludedBy(exclude), key);
  }

  /** What `Excluded` says about the names of a package key. */
  lemma ExcludedNames(key: string, exclude: seq<string>)
    requires !IsMetadataKey(key)
    ensures Excluded(key, exclude) <==> exists name :: name in PackageNames(key) && name in exclude
  {
  }

  /** No remaining package entry names an excluded package. */
  lemma RemainingDisjoint<V>(entries: seq<(string, V)>, exclude: seq<string>)
    ensures forall e :: e in Filtered(entries, ExcludedBy(exclude)) && !IsMetadataKey(e.0) ==>
      forall name :: name in PackageNames(e.0) ==> name !in exclude
  {
    FilteredKeeps(entries, ExcludedBy(exclude));
    forall e | e in Filtered(entries, ExcludedBy(exclude)) && !IsMetadataKey(e.0)
      ensures forall name :: name in PackageNames(e.0) ==> name !in exclude
    {
      assert !ExcludedBy(exclude)(e.0);
      ExcludedNames(e.0, exclude);
    }
  }

  /** Every removed entry has a package key, one of whose names is excluded:
      one excluded name is enough. */
  lemma RemovedIntersect<V>(entries: seq<(string, V)>, exclude: seq<string>)
    ensures forall e :: e in entries && e !in Filtered(entries, ExcludedBy(exclude)) ==>
      !IsMetadataKey(e.0) && exists name :: name in PackageNames(e.0) && name in exclude
  {
    FilteredRetains(entries, ExcludedBy(exclude));
    forall e | e in entries && e !in Filtered(entries, ExcludedBy(exclude))
      ensures !IsMetadataKey(e.0) && exists name :: name in PackageNames(e.0) && name in exclude
    {
      assert ExcludedBy(exclude)(e.0);
      ExcludedNames(e.0, exclude);
    }
  }

  /** Filtering only deletes: the survivors keep their values and their order. */
  lemma {:induction false} FilteredSubsequence<V>(entries: seq<(string, V)>, excluded: string -> bool)
    ensures Subsequence(Filtered(entries, excluded), entries)
  {
    if entries != [] {
      FilteredSubsequence(entries[1..], excluded);
      var r := Filtered(entries, excluded);
      if !excluded(entries[0].0) {
        assert r[0] == entries[0] && r[1..] == Filtered(entries[1..], excluded);
      } else if r != [] {
        assert Subsequence(r, entries[1..]);
      }
    }
  }

  /** Filtering keeps keys distinct. */
  lemma FilteredDistinct<V>(entries: seq<(string, V)>, excluded: string -> bool)
    requires DistinctKeys(entries)
    ensures DistinctKeys(Filtered(entries, excluded))
  {
    var lockfile := Filtered(entries, excluded);
    FilteredSubsequence(entries, excluded);
    SubsequenceDistinct(lockfile, entries);
  }

  /** A subsequence of a list with distinct keys has distinct keys. */
  lemma {:induction false} SubsequenceDistinct<V>(a: seq<(string, V)>, b: seq<(string, V)>)
    requires Subsequence(a, b) && DistinctKeys(b)
    ensures DistinctKeys(a)
  {
    if a != [] {
      if a[0] == b[0] && Subsequence(a[1..], b[1..]) {
        SubsequenceDistinct(a[1..], b[1..]);
        SubsequenceMembers(a[1..], b[1..]);
        forall j | 1 <= j < |a| ensures a[0].0 != a[j].0 {
          assert a[j] == a[1..][j - 1];
          assert a[j] in a[1..];
          var m :| 0 <= m < |b[1..]| && b[1..][m] == a[j];
          assert b[m + 1] == a[j];
        }
      } else {
        SubsequenceDistinct(a, b[1..]);
      }
    }
  }

  /** Every element of a subsequence is an element of the sequence. */
  lemma {:induction false} SubsequenceMembers<T>(a: seq<T>, b: seq<T>)
    requires Subsequence(a, b)
    ensures forall x :: x in a ==> x in b
  {
    if a != [] {
      if a[0] == b[0] && Subsequence(a[1..], b[1..]) {
        SubsequenceMembers(a[1..], b[1..]);
        assert a == [a[0]] + a[1..] && b == [b[0]] + b[1..];
      } else {
        SubsequenceMembers(a, b[1..]);
        assert b == [b[0]] + b[1..];
      }
    }
  }

  /** Filtering an already filtered document with the same list removes nothing. */
  lemma {:induction false} FilteredIdempotent<V>(entries: seq<(string, V)>, excluded: string -> bool)
    ensures Filtered(Filtered(entries, excluded), excluded) == Filtered(entries, excluded)
  {
    if entries != [] {
      FilteredIdempotent(entries[1..], excluded);
      var rest := Filtered(entries[1..], excluded);
      if !excluded(entries[0].0) {
        assert ([entries[0]] + rest)[1..] == rest;
      }
    }
  }

  /** When no entry names an excluded package, the document is left as it was. */
  lemma {:induction false} FilteredNothingExcluded<V>(entries: seq<(string, V)>, excluded: string -> bool)
    requires forall e :: e in entries ==> !excluded(e.0)
    ensures Filtered(entries, excluded) == entries
  {
    if entries != [] {
      assert entries[0] in entries;
      assert forall e :: e in entries[1..] ==> e in entries;
      FilteredNothingExcluded(entries[1..], excluded);
      assert entries == [entries[0]] + entries[1..];
    }
  }

  /** The doc comment's key is a package key, not a reserved one. */
  lemma StringWidthNotMetadata(key: string)
    requires key == "string-width@npm:^5.0.1, string-width@npm:^5.1.2"
    ensures !IsMetadataKey(key)
  {
    StringWidthEntries(key);
    var entries := SplitOn(key, ',');
    JoinFirst(entries, ',');
    var first := "string-width@npm:^5.0.1";
    assert first[0] == 's';
    assert key[0] == key[..|first|][0] == first[0];
  }

  /** The two-range `string-width` key is deleted when `string-width` is excluded. */
  lemma StringWidthRemoved(key: string, exclude: seq<string>)
    requires key == "string-width@npm:^5.0.1, string-width@npm:^5.1.2"
    requires exclude == ["string-width"]
    ensures Excluded(key, exclude)
  {
    StringWidthExample(key);
    StringWidthNotMetadata(key);
    assert "string-width" in PackageNames(key);
  }

  /** Excluding `babel` leaves `@babel/core` alone: names match exactly. */
  lemma ScopedKept(key: string, exclude: seq<string>)
    requires key == "@babel/core@npm:^7.1.0"
    requires exclude == ["babel"]
    ensures !Excluded(key, exclude)
  {
    ScopedExample(key);
  }
}
