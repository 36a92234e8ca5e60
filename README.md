# yarn-update-indirect: the lockfile filter, modelled in Dafny

`yarn-update-indirect` makes Yarn re-resolve indirect dependencies. It works in four steps:

1. It loads `yarn.lock`.
2. It deletes every resolution entry whose key names one of the packages given on the command line.
3. It writes the file back.
4. It runs `yarn install`, which re-creates the deleted resolutions.

This project models the two pieces of `index.js` that decide what gets deleted:

- **`packageNamesFromSpec`** turns a resolution key such as `string-width@npm:^5.0.1, string-width@npm:^5.1.2` into the sorted list of distinct package names it refers to. It is pure string processing, modelled as functions:
  - module `Strings` models `split`, `trim` and the regular-expression split at a non-initial `@`;
  - module `Sorting` models the default array sort and the `Set`-based dedupe;
  - module `PackageSpec` models the parser itself.
- **The loop of `filterLockfile`** walks a snapshot of the document's entries. It skips reserved `__` keys and deletes, in place, each entry one of whose names is excluded. It is modelled in module `LockfileFilter` as:
  - the class `Lockfile`, whose `entries` field the method `Delete` updates;
  - the method `FilterEntries`, whose loop is proved against the specification function `Filtered`.

The proved properties:

- **About the parser:**
  - the name list is strictly sorted;
  - it holds exactly the names of the comma-separated specifiers;
  - it has at least one name and no more names than specifiers;
  - no name contains `,` or `:`, or an `@` past index 0;
  - a scoped name keeps its leading `@`;
  - the doc comment's example gives `["string-width"]`.
- **About the filter:**
  - reserved keys survive;
  - every surviving package key is disjoint from the exclusion list;
  - every deleted key has at least one excluded name;
  - filtering only deletes, and the survivors keep their values and their order;
  - filtering is idempotent and keeps keys distinct.

Entry values are an unconstrained type parameter `V`, because the filter never looks inside them.

## Model

| member | source | states |
|---|---|---|
| Strings.SplitOn | index.js:22 | `split` on a one-character separator gives one more piece than there are separators; no piece holds the separator; joining the pieces with it gives back the input |
| Strings.SplitOnJoin | index.js:22 | round trip: splitting the join of separator-free parts gives back exactly those parts |
| Strings.CountZero | index.js:22 | a string splits into a single piece exactly when it has no separator |
| Strings.Trim | index.js:24-26 | `trim` gives a slice of its input; everything outside the slice is white space; the slice neither starts nor ends with white space |
| Strings.TrimUnique | index.js:24-26 | that characterisation fixes the result: any two strings trimmed from one input in that sense are equal |
| Strings.TrimNone | index.js:24-26 | trimming a string without white space at either end changes nothing |
| Strings.TrimContains | index.js:24-26 | trimming introduces no character |
| Strings.TrimAround | index.js:24-26 | leading white space is dropped, and trailing trimming stops at the last non-white-space character of the kept text |
| Strings.SplitAtNonInitial | index.js:27 | the split at `@` with index above 0: the pieces join back to the input; the first piece may hold a leading `@` but no other; later pieces hold none; the empty string gives one empty piece |
| Strings.FirstPieceAtNonInitial | index.js:27-28 | the name is the longest prefix with no `@` after its first character; when shorter than the input, it is followed by `@` |
| Strings.SplitAtNonInitialFirst | index.js:27-28 | the name taken from `u@w` is `u` when `u` has no `@` after its first character |
| Sorting.Le | index.js:30 | the order the default `sort` puts strings in: lexicographic by character code. Its properties are the contracts of LeReflexive, LeTotal, LeTransitive and LeAntisymmetric |
| Sorting.LeTotal | index.js:30 | the string order is total |
| Sorting.LeTransitive | index.js:30 | the string order is transitive |
| Sorting.LeAntisymmetric | index.js:30 | two strings ordered both ways are equal |
| Sorting.Insert | index.js:30 | inserting into a sorted list keeps it sorted and adds exactly that element |
| Sorting.Sort | index.js:30 | `sort` without a comparator gives a sorted permutation of its input |
| Sorting.SortedUnique | index.js:30 | there is only one sorted permutation, so any correct sort agrees with `Sort` |
| Sorting.Dedupe | index.js:32 | `[...new Set(xs)]` has exactly the elements of `xs`, none twice, is no longer than `xs`, and is non-empty when `xs` is |
| Sorting.DedupeSorted | index.js:30-32 | deduplicating a sorted list gives a strictly sorted list |
| Sorting.StrictlySortedUnique | index.js:30-32 | two strictly sorted lists with the same elements are equal |
| PackageSpec.NameOf | index.js:23-28 | the name of one specifier: the trimmed text before its first `:`, up to its first `@` past index 0. Its properties are the contracts of NameOfCharacters, NameOfWithRegistry and NameOfWithoutRegistry |
| PackageSpec.EntryNamesCharacters | index.js:22-29 | there is one name per comma-separated specifier (separator count plus one), and no name holds `,`, `:`, or an `@` past index 0 |
| PackageSpec.NameOfCharacters | index.js:23-28 | a name has no `:`, no `@` past index 0, and uses only characters of its specifier |
| PackageSpec.NameOfWithRegistry | index.js:23-28 | a specifier `<name>@<registry>:<range>`, possibly after white space, names `name`, also when `name` starts with `@` |
| PackageSpec.NameOfWithoutRegistry | index.js:23-28 | a specifier `<name>:<range>` with no registry names `name` |
| PackageSpec.PackageNames | index.js:21-34 | `packageNamesFromSpec`. Its properties are the contracts of PackageNamesSorted, PackageNamesMembers, PackageNamesSize, PackageNamesCharacters and PackageNamesUnique |
| PackageSpec.PackageNamesSorted | index.js:30-33 | the result is strictly sorted: ascending, no name twice |
| PackageSpec.PackageNamesMembers | index.js:21-34 | a name is in the result exactly when it is the name of some specifier of the key |
| PackageSpec.PackageNamesSize | index.js:21-34 | the result has at least one name and at most one per comma-separated specifier |
| PackageSpec.PackageNamesCharacters | index.js:21-34 | no name holds `,` or `:`, and none holds `@` past index 0 |
| PackageSpec.PackageNamesUnique | index.js:30-33 | any strictly sorted list holding exactly the specifiers' names is the result |
| PackageSpec.PackageNamesSameName | index.js:21-34 | a key whose specifiers all name one package gives just that name |
| PackageSpec.PackageNamesOfOne | index.js:21-34 | a key with a single specifier gives that specifier's name |
| PackageSpec.PackageNamesOfTwo | index.js:21-34 | a key with two specifiers of one package gives that one name |
| PackageSpec.StringWidthEntries | index.js:15 | the doc comment's key splits into its two specifiers |
| PackageSpec.StringWidthFirstName | index.js:15 | the first specifier of the doc comment's key names `string-width` |
| PackageSpec.StringWidthSecondName | index.js:15 | the second one names `string-width` after its leading space is trimmed |
| PackageSpec.StringWidthExample | index.js:12-19 | the doc comment's key gives `["string-width"]` |
| PackageSpec.ScopedName | index.js:27 | `@babel/core@npm:^7.1.0` names `@babel/core`: the `@` at index 0 does not split |
| PackageSpec.ScopedExample | index.js:27-33 | the key `@babel/core@npm:^7.1.0` gives `["@babel/core"]` |
| LockfileFilter.IsMetadataKey | index.js:52 | `key.startsWith("__")`. What it means for the filter is the contract of MetadataKept |
| LockfileFilter.NamesExcluded | index.js:57 | `names.some((name) => exclude.includes(name))`: some name is in the exclusion list |
| LockfileFilter.Excluded | index.js:51-59 | the loop deletes the entry with this key: it is not a reserved key and one of its parsed names is excluded. Its properties are the contracts of RemainingDisjoint and RemovedIntersect |
| LockfileFilter.WithoutKey | index.js:58 | what `delete` leaves: every remaining entry was present and has another key; every entry with another key remains |
| LockfileFilter.WithoutKeyDistinct | index.js:58 | deleting a key keeps the keys distinct |
| LockfileFilter.WithoutKeyNone | index.js:58 | deleting a key that no entry has changes nothing |
| LockfileFilter.Lockfile.constructor | index.js:48 | the loaded document, whose keys are distinct as in any object |
| LockfileFilter.Lockfile.Delete | index.js:58 | `delete lockfile[key]` leaves exactly the entries without `key` and keeps the keys distinct |
| LockfileFilter.FilterEntries | index.js:50-60 | the loop over a snapshot of the entries leaves exactly the entries `Filtered` keeps, in their order, and keeps the keys distinct |
| LockfileFilter.DeleteStep | index.js:56-59 | deleting the current key of the snapshot removes exactly the current entry |
| LockfileFilter.FilteredKeeps | index.js:50-60 | every surviving entry was in the document and its key is not excluded |
| LockfileFilter.FilteredRetains | index.js:50-60 | every entry whose key is not excluded survives |
| LockfileFilter.FilteredMembers | index.js:50-60 | an entry survives exactly when it was there and its key is not excluded |
| LockfileFilter.FilteredKeys | index.js:50-60 | a key is present after filtering exactly when it was present and is not excluded |
| LockfileFilter.MetadataKept | index.js:51-54 | a reserved `__` key, such as `__metadata`, is present after filtering exactly when it was present before |
| LockfileFilter.RemainingDisjoint | index.js:56-59 | no surviving package key has a name in the exclusion list |
| LockfileFilter.RemovedIntersect | index.js:56-59 | every deleted entry had a package key with at least one excluded name; one is enough |
| LockfileFilter.FilteredSubsequence | index.js:50-60 | filtering only deletes: the survivors, with their values, are a subsequence of the document |
| LockfileFilter.FilteredDistinct | index.js:50-60 | filtering keeps the keys distinct |
| LockfileFilter.SubsequenceMembers | index.js:50-60 | every element of a subsequence is an element of the sequence |
| LockfileFilter.FilteredIdempotent | index.js:50-60 | filtering twice with the same list is filtering once |
| LockfileFilter.FilteredNothingExcluded | index.js:50-60 | when no key is excluded, the document is unchanged |
| LockfileFilter.StringWidthNotMetadata | index.js:52 | the doc comment's key is not a reserved key |
| LockfileFilter.StringWidthRemoved | index.js:56-58 | excluding `string-width` deletes the doc comment's two-range key |
| LockfileFilter.ScopedKept | index.js:56-57 | excluding `babel` keeps `@babel/core@npm:^7.1.0`: names must match exactly |

## Left out

- Reading and writing `yarn.lock` (index.js:47 and index.js:66) is file I/O. The model starts from a loaded document and ends with the changed one.
- YAML loading and dumping with `js-yaml` (index.js:48 and index.js:62-65) is a library outside the core. The document is modelled as the ordered list of its top-level entries with distinct keys, and the values are an opaque type parameter.
- The command-line parsing with `commander` (index.js:69-76) is left out. The exclusion list is a parameter of `FilterEntries`.
- The `yarn install` subprocess (index.js:79-81) is an external process. The driver call at index.js:78 is modelled by `FilterEntries`, with the exclusion list as a parameter.
- Sort order: the default `sort` compares UTF-16 code units, while `Sorting.Le` compares Dafny characters, which are Unicode scalar values. The two orders differ only when a character above U+FFFF is compared with one in U+E000..U+FFFF.
- Regular expressions: the `/(?<!^)@/` split is written out directly as `SplitAtNonInitial`. No regular-expression engine is modelled.
- Object key order: `Object.entries` lists integer-like keys first. The model keeps document order, because resolution keys are never integer-like.
- In-place deletion: `Lockfile.Delete` reassigns the `entries` sequence instead of mutating a hash table. The loop iterates over a snapshot, as `Object.entries` does, so deleting while iterating is captured.
- Duplicate keys: js-yaml's `load` rejects a document with a duplicate mapping key, and a JavaScript object cannot hold two equal keys. The loop therefore only ever sees distinct keys, and `Lockfile.constructor` requires them.
- The version specifier and registry parts of a specifier (`versionSpec` and `registry` at index.js:24 and index.js:27) are computed and never used. The model does not compute them.
