# getTree: grouping records into a hierarchy

This project models `getTree` from `src/utils/getTree.js`. The treemap view of the
application draws the hierarchy that `getTree` builds. `getTree(data, attrs)`
takes a flat list of records and an attribute path. The path may contain
`"_placeholder"` entries. It builds the hierarchy in two stages:

1. **Levels.** It builds one level per path entry. A placeholder is replaced by a
   fallback attribute chosen by its position. A level holds the distinct values
   of its attribute in `data`, sorted by the default `Array.prototype.sort()`,
   each paired with the attribute. A path with no real attribute is replaced by
   a single level over the `stroke` field. That level is not sorted.
2. **Tree.** `getJsonTree(data, levels)` walks the first level in order. For each
   entry it keeps the records whose field is `===` the entry's value and skips
   empty groups. It emits a node `{name, attr, value, points}` for each
   non-empty group. The node gets `children` when the recursive call over the
   remaining levels returns an array. With no levels left, the call returns
   `null`.

Modules, one per stage, plus one for the values they handle:

- `JsValues` (`js_values.dfy`) covers field values. A value is a string or
  `undefined` (`Missing`), and a record is a map from field name to string.
  `Distinct` models `[...new Set(xs)]`: it keeps first-occurrence order.
  `SortValues` models the default sort: strings in character (Unicode scalar
  value) order, `undefined` last.
- `Levels` (`levels.dfy`) covers `realAttrs`, the fallback at line 23,
  `getLevels`, the `stroke` level and the resulting `levels`. These are pure
  functions, as in the source.
- `Grouping` (`grouping.dfy`) covers `getJsonTree`. `JsonTree` and `GroupNodes`
  are its recursive specification. `BuildJsonTree` is the source's loop:
  - it pushes nodes onto `groupedNodes`;
  - it skips empty groups with `continue`;
  - it sets `node.children` only when the recursive call gives an array.
  Its loop invariant ties `groupedNodes` to `GroupNodes` over the prefix of the
  level visited so far.
- `TreeBuilder` (`tree_builder.dfy`) covers `getTree` itself and the facts that
  hold of the whole tree. Partition and depth hold at every level of the tree.
  The top-level result is never `null`.

Where the code and a plain reading of its intent differ, the model follows the
code:

- **Placeholder fallback.** A placeholder at position `idx > 0` takes
  `realAttrs[idx - 1] || realAttrs[0]`. It does not take "the nearest real
  attribute before it". In `["a", "_placeholder", "b", "_placeholder"]` the last
  entry resolves to `"a"` (`Levels.PlaceholderIsPositional`). The `||` also
  falls back to `realAttrs[0]` when `realAttrs[idx - 1]` is the empty string,
  and the model keeps that.
- **Sort order.** The values are ordered by the default sort, not a "natural"
  one. The default sort compares string forms and puts `undefined` last.
- **Single-level paths.** With a one-entry path, the nodes have no `children`
  field at all. They do not get an empty list (`TreeBuilder.GroupBySexExample`).

## Model

| member | source | states |
|---|---|---|
| `JsValues.Distinct` | src/utils/getTree.js:5 | `[...new Set(xs)]` holds every value of `xs` and nothing else, with no value twice |
| `JsValues.DistinctFirstOccurrenceOrder` | src/utils/getTree.js:16 | the Set keeps insertion order: a value listed earlier was first seen earlier in the input |
| `JsValues.SortValues` | src/utils/getTree.js:5 | the default sort returns a permutation (same multiset) of its input, in non-descending order (string order, `undefined` last) |
| `JsValues.ValueLessStrictTotalOrder` | src/utils/getTree.js:5 | the default sort's comparison is irreflexive, transitive and total on distinct values |
| `JsValues.SortDistinctValues` | src/utils/getTree.js:5 | sorting distinct values gives each of them exactly once, in strictly ascending order |
| `Levels.RealAttrs` | src/utils/getTree.js:9 | `realAttrs` holds exactly the path entries that are not `"_placeholder"`, in path order and with their repeats: it is a subsequence of `attrs`, one entry shorter for each placeholder |
| `Levels.Fallback` | src/utils/getTree.js:23 | the fallback handed to any position is one of the real attributes |
| `Levels.PlaceholderResolution` | src/utils/getTree.js:3-23 | a real entry is used unchanged; a placeholder resolves to `realAttrs[0]` at position 0, to `realAttrs[idx-1]` when that exists and is non-empty, and to `realAttrs[0]` when that entry is the empty string or past the end; the result is never `"_placeholder"` and is always an entry of the path |
| `Levels.PlaceholderIsPositional` | src/utils/getTree.js:23 | `a, _, b, _` resolves its last entry to `a`; `_, gender` and `gender, _` both resolve the placeholder to `gender` |
| `Levels.LevelCount` | src/utils/getTree.js:9-25 | a path with a real attribute gives one level per entry; a path of placeholders only (or empty) gives exactly the one `stroke` level, all keyed by `stroke`; there is always at least one level |
| `Levels.SortedLevelContents` | src/utils/getTree.js:2-7 | a level built from a path entry pairs every value with the resolved attribute, lists exactly the values that attribute takes in `data`, each once, strictly ascending |
| `Levels.DiseaseLevelContents` | src/utils/getTree.js:12-20 | the fallback level pairs every value with `stroke`, lists exactly the `stroke` values of `data`, each once, in order of first occurrence (unsorted) |
| `Levels.BuildLevelsGroupAndCover` | src/utils/getTree.js:9-25 | every level reads one attribute, repeats no value, and matches every record of `data` |
| `Grouping.Filter` | src/utils/getTree.js:35 | the filtered list holds exactly the records of `data` whose field is `===` the value |
| `Grouping.FilterKeepsOrder` | src/utils/getTree.js:35 | the filtered records keep their relative order from `data` (a subsequence) |
| `Grouping.BuildJsonTree` | src/utils/getTree.js:28-52 | the loop with its pushes, `continue` and conditional `children` yields exactly the recursive specification `JsonTree` |
| `Grouping.NodeConsistency` | src/utils/getTree.js:35-46 | every node has `value == \|points\| > 0`; its points are exactly the records with `p[attr] === name`, in input order; its children are the tree of its points over the remaining levels; its `{name, attr}` comes from the level |
| `Grouping.SiblingOrder` | src/utils/getTree.js:34-48 | the siblings' `{name, attr}` pairs are the level with some entries left out, in the level's order |
| `Grouping.EmptyGroupsOmitted` | src/utils/getTree.js:35-36 | an entry of the level gets a node exactly when some record matches it |
| `Grouping.SiblingsDisjoint` | src/utils/getTree.js:34-48 | siblings built from a level with one attribute and distinct values have distinct names and share no record |
| `Grouping.GroupNodesPartition` | src/utils/getTree.js:34-51 | the siblings' points together are exactly the records matched by the level (as a multiset), and their values sum to that count; for a level covering `data` that is all of `data` |
| `Grouping.CoveringLevelPartitions` | src/utils/getTree.js:34-51 | over a level with one attribute, distinct values and full coverage, the siblings partition `data` |
| `Grouping.JsonTreeDepth` | src/utils/getTree.js:28-46 | the result is `null` exactly when no levels are left; otherwise every root-to-leaf path has one node per level, nodes of the last level have no `children`, all others have a `children` array |
| `Grouping.EmptyData` | src/utils/getTree.js:29-51 | empty `data` with at least one level gives `[]`, not `null` |
| `TreeBuilder.GetTree` | src/utils/getTree.js:1-55 | `getTree` returns the tree of `data` over the levels built from `attrs`, and never `null` |
| `TreeBuilder.GroupedAtEveryDepth` | src/utils/getTree.js:28-52 | over levels that each read one attribute and cover `data`, the nodes partition `data` and every node's children partition its points, down to the last level |
| `TreeBuilder.TreePartitionsData` | src/utils/getTree.js:1-55 | getTree's result partitions `data`: top-level values sum to `\|data\|`, each node's children sum to its value, siblings share no record, and the depth is the number of levels |
| `TreeBuilder.EmptyInput` | src/utils/getTree.js:12-54 | empty `data` gives `[]` whatever the path |
| `TreeBuilder.GroupBySexExample` | src/utils/getTree.js:1-55 | three records grouped by `sex` give node `F` (2 records, in input order) before node `M` (1 record), neither with `children` |

## Left out

- Values are strings or `undefined`. Numbers and booleans are modelled by their
  string form, so a number and the string of its digits are the same value
  here, although `===` tells them apart in JavaScript.
- `NaN` is left out. A `Set` keeps it, but `===` never matches it, so it would
  break the partition property.
- Strings are compared by Dafny character, that is by Unicode scalar value. The
  default sort compares UTF-16 code units. The two orders differ only between
  characters above U+FFFF and characters from U+E000 to U+FFFF.
- `attrs` entries are modelled as strings. Non-string entries and their
  truthiness at line 23 are not modelled.
- Records are values, not objects. "Siblings share no record" is stated on
  record values, and object identity is not modelled. Equal records always
  fall into the same group, so the statement still rules out overlap.
- The in-place `node.children = children` assignment is a datatype update on a
  fresh node. No other code can see the node before it is pushed, so aliasing
  does not arise.
- `Array.prototype.sort()` is a library call. It is modelled as an insertion
  sort on values. On the distinct values it receives, every correct sort gives
  the same result.
- `src/components/treemap.js` and `src/components/graph.js` are not part of this
  model. They do rendering, d3 layout, force simulation and floating-point
  geometry through an external library.
