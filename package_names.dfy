/** `packageNamesFromSpec` of index.js: the package names a yarn.lock
    resolution key such as `string-width@npm:^5.0.1, string-width@npm:^5.1.2`
    refers to, sorted and without repeats. */
module PackageSpec {
  import opened Strings
  import opened Sorting

  /** The package name of one comma-separated specifier: its text before the
      first `:`, trimmed, up to the first `@` that is not at index 0, so that
      the leading `@` of a scoped name such as `@babel/core` stays. */
  function NameOf(entry: string): string {
    var nameRegistry := Trim(SplitOn(entry, ':')[0]);
    SplitAtNonInitial(nameRegistry, '@')[0]
  }

  /** The name of every specifier of `spec`, in the order they appear. */
  function EntryNames(spec: string): (names: seq<string>)
    ensures |names| == |SplitOn(spec, ',')|
    ensures forall i :: 0 <= i < |names| ==> names[i] == NameOf(SplitOn(spec, ',')[i])
  {
    var entries := SplitOn(spec, ',');
    seq(|entries|, i requires 0 <= i < |entries| => NameOf(entries[i]))
  }

  /** The names of all specifiers of `spec`, sorted, each kept once. */
  function PackageNames(spec: string): seq<string> {
    Dedupe(Sort(EntryNames(spec)))
  }

  /** `name` is the name of some specifier of `spec`. */
  ghost predicate NameOfSomeEntry(spec: string, name: string) {
    exists i :: 0 <= i < |SplitOn(spec, ',')| && NameOf(SplitOn(spec, ',')[i]) == name
  }

  /** A name has no `:` and no `@` other than a leading one, and each of its
      characters comes from the specifier. */
  lemma NameOfCharacters(entry: string)
    ensures var name := NameOf(entry);
      && ':' !in name
      && (forall k :: 0 < k < |name| ==> name[k] != '@')
      && (forall k :: 0 <= k < |name| ==> name[k] in entry)
  {
    var pieces := SplitOn(entry, ':');
    var nameRegistry := Trim(pieces[0]);
    var name := NameOf(entry);
    FirstPieceAtNonInitial(nameRegistry, '@');
    forall k | 0 <= k < |name| ensures name[k] in pieces[0] && name[k] in entry {
      assert name[k] == nameRegistry[k];
      TrimContains(pieces[0], k);
      var j :| 0 <= j < |pieces[0]| && pieces[0][j] == name[k];
      JoinContains(pieces, ':', 0, j);
    }
  }

  /** A specifier `<name>@<registry>:<range>`, possibly after white space,
      has the package name `name`, also when `name` itself starts with `@`. */
  lemma NameOfWithRegistry(pad: string, name: string, tail: string)
    requires forall k :: 0 <= k < |pad| ==> IsWhiteSpace(pad[k])
    requires name != [] && !IsWhiteSpace(name[0])
    requires ':' !in name && '@' !in name[1..]
    ensures NameOf(pad + name + "@" + tail) == name
  {
    var head := pad + name + "@";
    assert ':' !in head by {
      forall k | 0 <= k < |head| ensures head[k] != ':' {
        if k < |pad| { assert head[k] == pad[k]; }
        else if k < |pad| + |name| { assert head[k] == name[k - |pad|]; }
      }
    }
    SplitOnFirstAppend(head, tail, ':');
    var t0 := SplitOn(tail, ':')[0];
    assert head + t0 == pad + (name + "@") + t0;
    TrimAround(pad, name + "@", t0);
    SplitAtNonInitialFirst(name, TrimEnd(t0), '@');
  }

  /** A specifier `<name>:<range>` without a registry, possibly after white
      space, has the package name `name`. */
  lemma NameOfWithoutRegistry(pad: string, name: string, tail: string)
    requires forall k :: 0 <= k < |pad| ==> IsWhiteSpace(pad[k])
    requires name != [] && !IsWhiteSpace(name[0]) && !IsWhiteSpace(name[|name| - 1])
    requires ':' !in name && '@' !in name[1..]
    ensures NameOf(pad + name + ":" + tail) == name
  {
    var head := pad + name;
    assert ':' !in head by {
      forall k | 0 <= k < |head| ensures head[k] != ':' {
        if k < |pad| { assert head[k] == pad[k]; } else { assert head[k] == name[k - |pad|]; }
      }
    }
    SplitOnAppend(head, tail, ':');
    assert SplitOn(head + [':'] + tail, ':')[0] == head;
    assert pad + name + ":" + tail == head + [':'] + tail;
    assert Trim(head) == name by {
      assert head == pad + name + [];
      TrimAround(pad, name, []);
    }
    FirstPieceAtNonInitial(name, '@');
  }

  /** There is one name per comma-separated specifier, and no name holds `,`,
      `:`, or an `@` past index 0. */
  lemma EntryNamesCharacters(spec: string)
    ensures |EntryNames(spec)| == Count(spec, ',') + 1
    ensures forall i :: 0 <= i < |EntryNames(spec)| ==>
      && ',' !in EntryNames(spec)[i] && ':' !in EntryNames(spec)[i]
      && forall k :: 0 < k < |EntryNames(spec)[i]| ==> EntryNames(spec)[i][k] != '@'
  {
    var entries := SplitOn(spec, ',');
    forall i | 0 <= i < |entries|
      ensures ',' !in NameOf(entries[i]) && ':' !in NameOf(entries[i])
      ensures forall k :: 0 < k < |NameOf(entries[i])| ==> NameOf(entries[i])[k] != '@'
    {
      NameOfCharacters(entries[i]);
    }
  }

  /** The result is in ascending order and holds no name twice. */
  lemma PackageNamesSorted(spec: string)
    ensures StrictlySorted(PackageNames(spec))
  {
    DedupeSorted(Sort(EntryNames(spec)));
  }

  /** The result holds exactly the names of the specifiers of `spec`. */
  lemma PackageNamesMembers(spec: string)
    ensures forall name :: name in PackageNames(spec) <==> NameOfSomeEntry(spec, name)
  {
    var names := EntryNames(spec);
    forall name ensures name in PackageNames(spec) <==> NameOfSomeEntry(spec, name) {
      calc {
        name in PackageNames(spec);
        name in Sort(names);
        { assert name in Sort(names) <==> name in multiset(Sort(names)); }
        name in multiset(names);
        name in names;
      }
      if name in names {
        var i :| 0 <= i < |names| && names[i] == name;
        assert NameOf(SplitOn(spec, ',')[i]) == name;
      }
      if NameOfSomeEntry(spec, name) {
        var i :| 0 <= i < |SplitOn(spec, ',')| && NameOf(SplitOn(spec, ',')[i]) == name;
        assert names[i] == name;
      }
    }
  }

  /** There is at least one name, and no more names than specifiers. */
  lemma PackageNamesSize(spec: string)
    ensures 1 <= |PackageNames(spec)| <= |SplitOn(spec, ',')| == Count(spec, ',') + 1
  {
    var names := EntryNames(spec);
    assert |Sort(names)| == |multiset(Sort(names))| == |multiset(names)| == |names|;
  }

  /** No name contains `,` or `:`, and none contains `@` anywhere but at index 0. */
  lemma PackageNamesCharacters(spec: string)
    ensures forall name :: name in PackageNames(spec) ==>
      && ',' !in name && ':' !in name
      && forall k :: 0 < k < |name| ==> name[k] != '@'
  {
    PackageNamesMembers(spec);
    var entries := SplitOn(spec, ',');
    forall name | name in PackageNames(spec)
      ensures ',' !in name && ':' !in name && forall k :: 0 < k < |name| ==> name[k] != '@'
    {
      var i :| 0 <= i < |entries| && NameOf(entries[i]) == name;
      NameOfCharacters(entries[i]);
      assert ',' !in entries[i];
    }
  }

  /** Being strictly sorted and holding exactly the specifiers' names
      determines the result: no other sequence has both. */
  lemma PackageNamesUnique(spec: string, names: seq<string>)
    requires StrictlySorted(names)
    requires forall name :: name in names <==> NameOfSomeEntry(spec, name)
    ensures names == PackageNames(spec)
  {
    PackageNamesSorted(spec);
    PackageNamesMembers(spec);
    StrictlySortedUnique(names, PackageNames(spec));
  }

  /** A key whose specifiers all name the same package gives just that name. */
  lemma PackageNamesSameName(spec: string, p: string)
    requires forall i :: 0 <= i < |SplitOn(spec, ',')| ==> NameOf(SplitOn(spec, ',')[i]) == p
    ensures PackageNames(spec) == [p]
  {
    PackageNamesSize(spec);
    PackageNamesMembers(spec);
    assert NameOfSomeEntry(spec, p) by {
      assert NameOf(SplitOn(spec, ',')[0]) == p;
    }
    PackageNamesUnique(spec, [p]);
  }

  /** A key with one specifier gives that specifier's name. */
  lemma PackageNamesOfOne(spec: string, p: string)
    requires SplitOn(spec, ',') == [spec] && NameOf(spec) == p
    ensures PackageNames(spec) == [p]
  {
    PackageNamesSameName(spec, p);
  }

  /** A key with two specifiers of one name gives that name. */
  lemma PackageNamesOfTwo(spec: string, e1: string, e2: string, p: string)
    requires SplitOn(spec, ',') == [e1, e2] && NameOf(e1) == p && NameOf(e2) == p
    ensures PackageNames(spec) == [p]
  {
    PackageNamesSameName(spec, p);
  }

  /** The doc comment's key consists of two specifiers. */
  lemma StringWidthEntries(spec: string)
    requires spec == "string-width@npm:^5.0.1, string-width@npm:^5.1.2"
    ensures SplitOn(spec, ',') == ["string-width@npm:^5.0.1", " string-width@npm:^5.1.2"]
  {
    var e1, e2 := "string-width@npm:^5.0.1", " string-width@npm:^5.1.2";
    assert spec == Join([e1, e2], ',');
    assert ',' !in e1;
    assert ',' !in e2;
    SplitOnJoin([e1, e2], ',');
  }

  /** The first specifier of the doc comment's key names `string-width`. */
  lemma StringWidthFirstName(entry: string)
    requires entry == "string-width@npm:^5.0.1"
    ensures NameOf(entry) == "string-width"
  {
    var name := "string-width";
    assert ':' !in name && '@' !in name[1..];
    assert entry == "" + name + "@" + "npm:^5.0.1";
    NameOfWithRegistry("", name, "npm:^5.0.1");
  }

  /** The second specifier names `string-width` too, once the space that
      follows the comma is trimmed. */
  lemma StringWidthSecondName(entry: string)
    requires entry == " string-width@npm:^5.1.2"
    ensures NameOf(entry) == "string-width"
  {
    var name := "string-width";
    assert ':' !in name && '@' !in name[1..];
    assert entry == " " + name + "@" + "npm:^5.1.2";
    NameOfWithRegistry(" ", name, "npm:^5.1.2");
  }

  /** The example of the doc comment: two ranges of one package give one name. */
  lemma StringWidthExample(spec: string)
    requires spec == "string-width@npm:^5.0.1, string-width@npm:^5.1.2"
    ensures PackageNames(spec) == ["string-width"]
  {
    StringWidthEntries(spec);
    StringWidthFirstName("string-width@npm:^5.0.1");
    StringWidthSecondName(" string-width@npm:^5.1.2");
    PackageNamesOfTwo(spec, "string-width@npm:^5.0.1", " string-width@npm:^5.1.2", "string-width");
  }

  /** A scoped package keeps its leading `@`: the registry `@` is the second one. */
  lemma ScopedName(entry: string)
    requires entry == "@babel/core@npm:^7.1.0"
    ensures NameOf(entry) == "@babel/core"
  {
    var name := "@babel/core";
    assert ':' !in name && '@' !in name[1..];
    assert entry == "" + name + "@" + "npm:^7.1.0";
    NameOfWithRegistry("", name, "npm:^7.1.0");
  }

  /** The key of a scoped package names that package, with its leading `@`. */
  lemma ScopedExample(spec: string)
    requires spec == "@babel/core@npm:^7.1.0"
    ensures PackageNames(spec) == ["@babel/core"]
  {
    SplitOnNone(spec, ',');
    ScopedName(spec);
    PackageNamesOfOne(spec, "@babel/core");
  }
}
