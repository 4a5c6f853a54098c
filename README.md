# rusty-id in Dafny

A model of the two components of the `rusty-id` crate: qualified names and the registry.

- **Qualified names** (`Names`, names.dfy). A name is a string `scope:identifier`.
  - It stores the full text and the index of its separator.
  - `NewName` finds the first `:` and accepts the string only if the text on each side is a valid segment.
  - A valid segment is non-empty. Its first character is an ASCII lowercase letter. Every later character is an ASCII letter, an ASCII digit or `_`.
  - Names are pure values. `ValidName` is the subset of names that `NewName` can build. The Rust fields are private, so no other name exists.
  - The accessors `Scope`, `Unqualified` and `Qualified` slice the text around the separator. `Unqualified` keeps the `:`, as the source does.
  - The source compares names by their full text. The model proves that, for valid names, this coincides with plain equality. So Dafny's own equality on names can key the name index.
- **Registry** (`Registries`, registry.rs). `Registry<V>` is a class with two fields:
  - `entries`, a sequence of (optional name, value) pairs;
  - `nameToId`, a map from names to handles.

  Every name reaching the registry comes in as a `ValidName`; the fields hold plain `Name` values, and `Valid()` records that each is valid.

  A handle is the index of its entry, as a `nat`: the handle trait's `from_index` and `to_index` are the identity. Inserts append to `entries`. Named inserts also extend `nameToId`, and a name already indexed is refused. `Valid()` is the representation invariant `IndexConsistent`:
  - every indexed name leads to an in-range entry that carries it;
  - every named entry is indexed under its name at its own position.

  Two entries with one name are then impossible (`ConsistentNamesUnique`). `new` establishes the invariant and the public `AddNamed*` and `AddAnonymous*` methods preserve it. The private helper `AddWith` does not: it appends without indexing, and its callers index a named entry afterwards. `FromEntries` rebuilds the index with a loop, mapping each name to its last position. Its result is valid exactly when the input repeats no name.

Initialisers (`FnOnce(K) -> V`) are total functions `Handle -> V`, applied to the new handle.

## Model

| member | source | states |
|---|---|---|
| `Names.AllTailChars` | src/name.rs:52 | true exactly when every character is an ASCII alphanumeric or `_` |
| `Names.IsValidNameSegment` | src/name.rs:39-53 | true exactly when the segment is non-empty, starts with an ASCII lowercase letter and continues with alphanumerics or `_`; a valid segment contains no `:` |
| `Names.FindFirst` | src/name.rs:11 | absent exactly when the character does not occur; otherwise the index of its first occurrence |
| `Names.NewName` | src/name.rs:9-21 | a string with no `:` is rejected; an accepted name holds the string itself, with the separator at its first `:` |
| `Names.FromLiteral` | src/name.rs:55-59 | for a string `new` accepts, the name whose qualified text is that string |
| `Names.Scope` | src/name.rs:23-26 | the scope is a valid segment and has no `:` |
| `Names.Unqualified` | src/name.rs:28-31 | the unqualified part starts with the `:` and continues with a valid segment |
| `Names.Qualified` | src/name.rs:33-36 | the qualified text is the scope followed by the unqualified part, with the `:` right after the scope |
| `Names.NameEq` | src/name.rs:85-89 | equality by qualified text holds exactly when the two names are the same name |
| `Names.FindFirstAfterPrefix` | src/name.rs:11 | in a string that starts with a prefix free of `:` and then a `:`, the first `:` sits right after the prefix |
| `Names.SeparatorIsFirstColon` | src/name.rs:11-20 | the stored separator of a valid name is the first `:` of its text and the only one |
| `Names.NewNameAccepts` | src/name.rs:9-21 | two valid segments joined by `:` are accepted, with the separator at the length of the scope |
| `Names.NewNameRejectsAt` | src/name.rs:11-18 | a string whose first `:` has an invalid segment on either side is rejected |
| `Names.NewNameCharacterisation` | src/name.rs:9-21 | `new` succeeds exactly when some `:` splits the string into two valid segments; the accepted string is scope, `:`, identifier |
| `Names.RoundTrip` | src/name.rs:34-36 | parsing a name's qualified text gives back the same name, separator included |
| `Names.NameEqIsEquality` | src/name.rs:85-89 | names with equal qualified text are the same name and so have equal scope and unqualified part, and conversely |
| `Names.SegmentExamples` | src/lib.rs:14-20 | `valid_name` is a valid segment; the empty string, `Invalid`, `invalid-name` and `foo:bar` are not |
| `Names.AcceptsScopeName` | src/lib.rs:24 | `scope:name` is accepted |
| `Names.AcceptsUnderscore` | src/lib.rs:25 | `scope:name_bar` is accepted |
| `Names.RejectsHyphen` | src/lib.rs:26 | `scope:name-bar` is rejected |
| `Names.RejectsEmptyIdentifier` | src/lib.rs:27 | `scope:` is rejected |
| `Names.RejectsEmptyScope` | src/lib.rs:28 | `:name` is rejected |
| `Names.RejectsSecondColon` | src/lib.rs:29 | `scope:name:extra` is rejected |
| `Names.RejectsPunctuation` | src/lib.rs:30 | `scope:name!` is rejected |
| `Names.RejectsUppercaseScope` | src/name.rs:48-50 | `Scope:name` is rejected, since its scope does not start with a lowercase letter |
| `Registries.NameIndex` | src/registry.rs:27-32 | each named entry indexed at its position, a later position overwriting an earlier one; every indexed position is in range |
| `Registries.NameIndexSound` | src/registry.rs:27-32 | every name the `from_entries` loop indexes leads to an in-range entry carrying that name |
| `Registries.NameIndexLast` | src/registry.rs:27-32 | the position the loop indexes a name at is the last one carrying it: a later `insert` overwrites an earlier one |
| `Registries.NameIndexComplete` | src/registry.rs:27-32 | every name present in the entries is indexed, at or after each position carrying it |
| `Registries.Enumerate` | src/registry.rs:86-91 | one item per entry, in order, the i-th being (first + i, its name, its value) |
| `Registries.ConsistentNamesUnique` | src/registry.rs:14-15 | under the representation invariant no two entries carry the same name |
| `Registries.NameIndexConsistentIff` | src/registry.rs:26-38 | the index `from_entries` builds satisfies the invariant exactly when no name repeats in the input |
| `Registries.AppendNamedConsistent` | src/registry.rs:48-56 | appending an entry under an unindexed name, and indexing it at the old length, keeps the invariant |
| `Registries.AppendAnonymousConsistent` | src/registry.rs:62-70 | appending an unnamed entry keeps the invariant with the index unchanged |
| `Registries.Registry.constructor` | src/registry.rs:19-24 | a new registry is empty and satisfies the invariant |
| `Registries.Registry.FromEntries` | src/registry.rs:26-38 | the entries are kept as given, the index is `NameIndex` of them, and the result is valid exactly when no name repeats |
| `Registries.Registry.Contains` | src/registry.rs:40-42 | in a valid registry, true exactly when some entry carries the name |
| `Registries.Registry.Find` | src/registry.rs:72-74 | present exactly when `Contains` holds; in a valid registry, the handle of the entry carrying the name, and absent only when no entry carries it |
| `Registries.Registry.Get` | src/registry.rs:76-78 | defined only for in-range handles; the entry at the handle is its name as `GetName` reports it paired with this value |
| `Registries.Registry.GetName` | src/registry.rs:80-84 | absent exactly when the handle is out of range or its entry is anonymous, else that entry's name; in a valid registry `Find` of that name gives the handle back |
| `Registries.Registry.Iter` | src/registry.rs:86-91 | one item per entry, the i-th being (i, `GetName(i)`, `Get(i)`) |
| `Registries.Registry.Entries` | src/registry.rs:93-95 | the entry list, agreeing item by item with `Iter` |
| `Registries.Registry.AddWith` | src/registry.rs:66-70 | returns the old length, appends (name, initialiser applied to that handle), leaves the index alone |
| `Registries.Registry.AddNamedWith` | src/registry.rs:48-56 | an indexed name is handed back with nothing changed; otherwise the handle is the old length, the entry is appended and indexed, `Contains`, `Find`, `GetName` and `Get` see it, other names' lookups are unchanged, and the invariant is kept |
| `Registries.Registry.AddNamed` | src/registry.rs:44-46 | as `AddNamedWith`, with `Get` of the new handle being the given value |
| `Registries.Registry.AddAnonymousWith` | src/registry.rs:62-64 | the handle is the old length, the unnamed entry is appended, the index and every `Contains`/`Find` result are unchanged, `GetName` of the handle is absent, and the invariant is kept |
| `Registries.Registry.AddAnonymous` | src/registry.rs:58-60 | as `AddAnonymousWith`, with `Get` of the new handle being the given value |
| `Registries.RegistryScenario` | src/lib.rs:48-57 | on a new registry: an anonymous `true` gets handle 0 and `get(0)` is `true`, `false` named `test:name` gets handle 1, `find` gives 1, `test:other` is absent, `get(1)` is `false`, and re-adding `test:name` fails with two entries left |
| `Registries.AcceptsTestName` | src/lib.rs:52 | `test:name` is accepted |
| `Registries.AcceptsTestOther` | src/lib.rs:54 | `test:other` is accepted |

## Left out

- Serialisation and reflection derives (src/registry.rs:3-12): framework glue with no behaviour.
- `Hash`, `Display`, `Debug` and `AsRef` on `Name` (src/name.rs:61-83): formatting and hashing. The name index is a Dafny `map` keyed by `Name`. `Valid()` limits its keys to valid names, and on those `NameEq` and `NameEqIsEquality` make Dafny's equality agree with the source's.
- `Clone` and `Default` (src/registry.rs:98-111, src/name.rs:93-100): structural copies. `Default` is `new`.
- The handle trait of src/id.rs: handles are `nat` and `from_index`/`to_index` are the identity. The `MyId(u8)` test handle of src/lib.rs truncates indices above 255; that belongs to the test type, not to the registry.
- Rust's byte-offset string slicing: strings are `seq<char>`. The `:` is one byte and accepted segments are ASCII, so character and byte offsets agree on every accepted name.
- Initialisers are pure total functions. A Rust `FnOnce` may have side effects, and the model does not capture them.
- Registries.Registry.Get: an out-of-range handle makes the source panic; the model makes it a precondition instead of modelling the panic.
- `iter` returns a lazy iterator; `Iter` returns the whole sequence it would yield.
- The display adapter that renders a handle as its name or as `unknown(<index>)` is not part of this model.
