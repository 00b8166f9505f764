# Hjson property source loader, modelled in Dafny

`HjsonPropertySourceLoader` is a Spring Boot `PropertySourceLoader` for Hjson
files. It reads a resource, parses it into an Hjson value tree, and flattens
that tree into a `LinkedHashMap` from property paths to strings. It wraps a
non-empty map in a `MapPropertySource`. The flattening is done by
`buildFlattenedMap`, a recursive depth-first walk:

- an object member `name` is walked under the path `name` when the root is
  null, and under `root.name` otherwise;
- an array element is walked under `root[i]`, with `i` counting 0, 1, 2, …;
- a string leaf puts its raw text, a null leaf puts `""`, and any other
  scalar puts its `toString()` text;
- objects and arrays put nothing themselves.

This project models that walk, the map it fills and the guards of `load`:

- `wrappers.dfy` holds `Option`. `None` stands for Java's `null`.
- `ordered_map.dfy` (`OrderedMaps`) gives insertion-ordered maps as values,
  with `LinkedHashMap.put` semantics. A new key goes to the end. An existing
  key keeps its place and gets the new value. It also proves lemmas about
  putting a sequence of entries (`PutAll`).
- `linked_hash_map.dfy` (`LinkedHashMaps`) holds the mutable `LinkedHashMap`
  class. Its `Put` and `IsEmpty` are specified by their abstract
  `OrderedMap`.
- `decimal.dfy` (`Decimals`) gives the decimal text of an array index, as
  string concatenation produces it, and reads it back.
- `hjson_value.dfy` (`HjsonValues`) holds the value tree. Numbers, booleans
  and other scalars carry their rendered text. It also defines the
  depth-first list of leaves and the `WellNamed` condition.
- `flattener.dfy` (`Flattener`) holds two things. `Leaves` is the
  specification: the sequence of puts the walk makes. `BuildFlattenedMap` is
  the walk itself, written as loops over members and elements with a
  running `index`, and proved to leave the map equal to `PutAll(old map,
  Leaves(...))`.
- `flattener_properties.dfy` (`FlattenerProperties`) proves what the walk
  guarantees: puts per leaf, their texts and order, the path scheme, and the
  keys, order and values of the resulting map.
- `unique_paths.dfy` (`UniquePaths`) proves when no two leaf paths collide.
- `loader.dfy` (`Loader`) holds `load` and `getFileExtensions`.
- `documents.dfy` (`Documents`) works through small documents and their
  flattened maps.

Three behaviours follow the code exactly. They are easy to misread.

1. A top-level array gets keys `null[0]`, `null[1]`, and so on. The null
   root is concatenated into the path, and Java renders it as `null`
   (`Documents.RootArray`, `FlattenerProperties.RootArrayPathsStartWithNull`).
   It does not get `[0]`. Object members at the root are special-cased and
   get the bare name.
2. A top-level scalar is put under the `null` key (`FlattenerProperties.RootLeaf`).
3. Nothing prevents two leaves from sharing a path. A member named `a.b`
   collides with `b` inside member `a`. A repeated member name repeats every
   path below it. The later put then overwrites the earlier value, and the
   key keeps its first position (`Documents.DottedNameCollides`,
   `Documents.RepeatedNameOverwrites`). So the map has at most one entry per
   leaf. It has exactly one when the leaf paths are distinct
   (`FlattenerProperties.FlattenKeys`). That is guaranteed when member names
   are unique within each object and contain neither `.` nor `[`
   (`UniquePaths.WellNamedFlatten`).

## Model

| member | source | states |
|---|---|---|
| `LinkedHashMaps.LinkedHashMap.constructor` | src/main/java/com/github/ladutsko/springframework/boot/env/HjsonPropertySourceLoader.java:79 | a new result map is valid and empty |
| `LinkedHashMaps.LinkedHashMap.Put` | src/main/java/com/github/ladutsko/springframework/boot/env/HjsonPropertySourceLoader.java:107-115 | `result.put` changes the map's abstract value exactly as `OrderedMaps.Put` says and keeps the map valid |
| `LinkedHashMaps.LinkedHashMap.IsEmpty` | src/main/java/com/github/ladutsko/springframework/boot/env/HjsonPropertySourceLoader.java:81 | `isEmpty()` is true exactly when the table has no key, which is when the key order is empty |
| `OrderedMaps.Put` | src/main/java/com/github/ladutsko/springframework/boot/env/HjsonPropertySourceLoader.java:107-115 | after `put(k, v)`, `k` maps to `v` and every other key keeps its presence and value; old keys keep their order as a prefix; the order grows by at most one and stays the same exactly when `k` was present; validity is preserved |
| `OrderedMaps.PutAllValid` | src/main/java/com/github/ladutsko/springframework/boot/env/HjsonPropertySourceLoader.java:79 | any run of puts keeps the key order a duplicate-free listing of the table's keys |
| `OrderedMaps.PutAllKeys` | src/main/java/com/github/ladutsko/springframework/boot/env/HjsonPropertySourceLoader.java:79 | after a run of puts, the old keys come first in their old order; then come the new keys, each at its first occurrence among the puts |
| `OrderedMaps.PutAllDomain` | src/main/java/com/github/ladutsko/springframework/boot/env/HjsonPropertySourceLoader.java:79 | a key is present after a run of puts exactly when it was present before or one of the puts has it |
| `OrderedMaps.PutAllLastWins` | src/main/java/com/github/ladutsko/springframework/boot/env/HjsonPropertySourceLoader.java:79 | a key's value is the one given by the last put of that key |
| `OrderedMaps.PutAllUntouched` | src/main/java/com/github/ladutsko/springframework/boot/env/HjsonPropertySourceLoader.java:79 | a key that no put has keeps its presence and its value |
| `OrderedMaps.FirstOccurrencesLength` | src/main/java/com/github/ladutsko/springframework/boot/env/HjsonPropertySourceLoader.java:79 | no key is lost to a repeat exactly when the put keys are distinct and new; otherwise fewer keys result |
| `Decimals.Decimal` | src/main/java/com/github/ladutsko/springframework/boot/env/HjsonPropertySourceLoader.java:102 | the text of an index is a non-empty run of decimal digits without a leading zero |
| `Decimals.DecimalRoundTrip` | src/main/java/com/github/ladutsko/springframework/boot/env/HjsonPropertySourceLoader.java:102 | reading an index's text back as a decimal number gives the index, so different indices get different texts |
| `Flattener.Leaves` | src/main/java/com/github/ladutsko/springframework/boot/env/HjsonPropertySourceLoader.java:90-117 | the walk makes exactly one put per leaf of the tree; objects and arrays make none of their own |
| `Flattener.BuildFlattenedMap` | src/main/java/com/github/ladutsko/springframework/boot/env/HjsonPropertySourceLoader.java:90-117 | walking a tree changes `result` exactly as putting the tree's leaf entries, in order, into the old map does, and keeps it valid |
| `FlattenerProperties.LeavesAreLeafTexts` | src/main/java/com/github/ladutsko/springframework/boot/env/HjsonPropertySourceLoader.java:106-115 | the i-th put stores the text of the i-th leaf in depth-first order: a string's raw content, `""` for null, the rendered text of any other scalar |
| `FlattenerProperties.MemberBlock` | src/main/java/com/github/ladutsko/springframework/boot/env/HjsonPropertySourceLoader.java:93-96 | member i is walked under `name` (null root) or `root.name`; its puts come right after those of the leaves of members 0..i-1, in declared order |
| `FlattenerProperties.ElementBlock` | src/main/java/com/github/ladutsko/springframework/boot/env/HjsonPropertySourceLoader.java:100-103 | element i is walked under `root[i]`; its puts come right after those of the leaves of elements 0..i-1 |
| `FlattenerProperties.RootIsPrefix` | src/main/java/com/github/ladutsko/springframework/boot/env/HjsonPropertySourceLoader.java:95-102 | every path under a present root is that root followed by the path the same subtree gets under the empty root |
| `FlattenerProperties.RootArrayPathsStartWithNull` | src/main/java/com/github/ladutsko/springframework/boot/env/HjsonPropertySourceLoader.java:102 | a top-level array is walked exactly as if its root were the text `null`, so its keys are `null[i]…` |
| `FlattenerProperties.NullPathOnlyForRootLeaf` | src/main/java/com/github/ladutsko/springframework/boot/env/HjsonPropertySourceLoader.java:90-115 | a put has the null key exactly when the walk starts from the null root at a leaf |
| `FlattenerProperties.WalkOnlyAddsOrOverwrites` | src/main/java/com/github/ladutsko/springframework/boot/env/HjsonPropertySourceLoader.java:90-116 | a walk keeps the keys already in the map, in order, at the front; a key that no leaf reaches keeps its presence and value |
| `FlattenerProperties.FlattenKeys` | src/main/java/com/github/ladutsko/springframework/boot/env/HjsonPropertySourceLoader.java:79-80 | the flattened map is valid; its keys are the leaf paths in depth-first order of first occurrence; it has at most one key per leaf, and exactly one when no two leaves share a path |
| `FlattenerProperties.FlattenValue` | src/main/java/com/github/ladutsko/springframework/boot/env/HjsonPropertySourceLoader.java:79-80 | the leaf that is last to reach a path decides the text stored under it |
| `FlattenerProperties.FlattenDomain` | src/main/java/com/github/ladutsko/springframework/boot/env/HjsonPropertySourceLoader.java:79-80 | a path is a key of the flattened map exactly when some leaf reaches it |
| `FlattenerProperties.FlattenEmpty` | src/main/java/com/github/ladutsko/springframework/boot/env/HjsonPropertySourceLoader.java:79-81 | the flattened map is empty exactly when the document has no leaf |
| `FlattenerProperties.RootLeaf` | src/main/java/com/github/ladutsko/springframework/boot/env/HjsonPropertySourceLoader.java:106-115 | a document that is a single scalar flattens to one property, under the null key, holding the scalar's text |
| `UniquePaths.LeafPathsDistinct` | src/main/java/com/github/ladutsko/springframework/boot/env/HjsonPropertySourceLoader.java:93-103 | when member names are unique within each object and contain neither `.` nor `[`, no two leaves get the same path, whatever the root |
| `UniquePaths.WellNamedFlatten` | src/main/java/com/github/ladutsko/springframework/boot/env/HjsonPropertySourceLoader.java:79-116 | such a document flattens to exactly one property per leaf; the keys are the leaf paths in document order and each holds its own leaf's text |
| `Loader.Load` | src/main/java/com/github/ladutsko/springframework/boot/env/HjsonPropertySourceLoader.java:76-88 | no source when a profile is given; otherwise a source exactly when the document has a leaf, named `name` and holding exactly the flattened document |
| `Documents.RootArray` | src/main/java/com/github/ladutsko/springframework/boot/env/HjsonPropertySourceLoader.java:102 | `["a", "b"]` flattens to `null[0]=a`, `null[1]=b` |
| `Documents.DottedNameCollides` | src/main/java/com/github/ladutsko/springframework/boot/env/HjsonPropertySourceLoader.java:95 | `{"a.b": 1, a: {b: 2}}` has two leaves but flattens to the single property `a.b=2` |
| `Documents.RepeatedNameOverwrites` | src/main/java/com/github/ladutsko/springframework/boot/env/HjsonPropertySourceLoader.java:93-96 | `{a: x, a: y}` flattens to the single property `a=y` |
| `Documents.NestedObject` | src/main/java/com/github/ladutsko/springframework/boot/env/HjsonPropertySourceLoader.java:93-96 | `{a: x, b: {c: y}}` flattens to `a=x`, `b.c=y`, in that order |
| `Documents.NestedArray` | src/main/java/com/github/ladutsko/springframework/boot/env/HjsonPropertySourceLoader.java:93-103 | `{deep: {x: {y: [1, 2]}}}` flattens to `deep.x.y[0]=1`, `deep.x.y[1]=2` |
| `Documents.NullMember` | src/main/java/com/github/ladutsko/springframework/boot/env/HjsonPropertySourceLoader.java:110-111 | `{n: null}` flattens to `n=""` |

`getFileExtensions` (lines 60-62) is the constant `Loader.FileExtensions`,
which is `["hjson"]`. A constant has no contract, so it has no row.

## Left out

- Opening the resource's input stream, decoding it as UTF-8 and closing the
  reader (line 78) are I/O. `Loader.Load` receives the parsed document
  instead.
- Parsing with `JsonValue.readHjson` (line 80) is a call into the Hjson
  library. Its parse errors and the `IOException` from reading propagate out
  of `load` in Java. The model has no parse step and no error path for them.
- `MapPropertySource` and the `PropertySourceLoader` interface are Spring
  types. The source is modelled as a name paired with the map's value. The
  Java source holds a reference to the same `LinkedHashMap` object; the
  model does not capture that aliasing.
- How `JsonValue.toString()` renders numbers, booleans and other scalars is
  the Hjson library's business. The rendered text is carried on the `Other`
  leaf as opaque data.
- The member names and the order of members and elements are taken as the
  parser delivers them. Duplicate names are allowed, as a JSON object may
  contain them.
- The array counter `index` is a Java `int`. An array cannot hold more than
  `Integer.MAX_VALUE` elements, so the counter never wraps. The model uses
  an unbounded `nat`.
- The map's values are declared `Object` in Java, but every value put is a
  `String`. The model types them as strings.
