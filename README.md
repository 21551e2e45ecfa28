# BK-tree in Dafny

This project models the BK-tree of `bkTreeScript.js`, a fuzzy string index.
Each node holds one word, a `deleted` tombstone flag and a sparse map from
integer distance to child node. A child under key `k` holds words at
Levenshtein distance exactly `k` from the node's word. The model covers:

- the edit distance, computed with a dynamic-programming table
  (`_levenshteinDistance`);
- node insert, search and remove (`BKNode`);
- the tree wrapper that owns an optional root (`BKTree`);
- the export of the tree as nested records handed to the renderer
  (`_buildTreeData`).

There are three modules:

- `Levenshtein` (`levenshtein.dfy`) defines the edit distance `Lev` by its
  recurrence over prefixes. It proves the metric laws that search pruning
  relies on: zero exactly on equal words, symmetry, and the triangle
  inequality. It also proves that the table-filling method over an `array2`
  computes `Lev`.
- `BKTreeSpec` (`bktree_spec.dfy`) is the tree as a value. It has a
  `datatype Tree` and the functions `Insert`, `Search`, `Remove` and `Export`
  that say what each operation does to it. It also holds the lemmas that
  state what the operations promise:
  - search reports exactly the active words within the tolerance, each once,
    with its distance;
  - insert and remove preserve the child-key invariant;
  - insert activates the word and changes nothing else;
  - remove only tombstones and changes nothing else;
  - the export rebuilds to the same tree.
- `BKTrees` (`bktree.dfy`) holds the classes `BKNode` and `BKTree`. Their
  fields are updated in place. Ghost `Repr`/`Model` state ties each object
  to its value. Every method is proved to change that value exactly as the
  matching `BKTreeSpec` function does.

The child-key invariant `Keyed` is kept in its subtree form. Under key `k`,
every word of the whole subtree lies at distance `k` from the parent's word,
not only the child's own word. The code maintains that stronger form, since
insert always follows the exact-distance path, and search completeness
needs it. `KeyedImpliesChildKeyed` derives the immediate-child form from
it.

## Model

| member | source | states |
|---|---|---|
| Levenshtein.LevenshteinDistance | bkTreeScript.js:182-204 | the bottom-right cell of the filled table is the edit distance `Lev(a, b)` of the two words |
| Levenshtein.FillRow | bkTreeScript.js:190-202 | filling one row from the row above (copy the diagonal on equal characters, else 1 + the least of diagonal, left and up) makes every cell of that row the edit distance of the corresponding prefixes; rows below keep their first column |
| Levenshtein.PrefixLevZeroIff | bkTreeScript.js:182-204 | a table cell is 0 exactly when the two prefixes are equal |
| Levenshtein.PrefixLevLowerBound | bkTreeScript.js:182-204 | a cell is at least the difference of the prefix lengths |
| Levenshtein.PrefixLevUpperBound | bkTreeScript.js:182-204 | a cell is at most the longer prefix length |
| Levenshtein.PrefixLevSymmetric | bkTreeScript.js:182-204 | swapping the two words transposes the table |
| Levenshtein.PrefixLevNeighbours | bkTreeScript.js:182-204 | adjacent cells differ by at most 1 |
| Levenshtein.PrefixLevTriangle | bkTreeScript.js:182-204 | the prefix distances satisfy the triangle inequality |
| Levenshtein.LevZeroIff | bkTreeScript.js:182-204 | the distance is 0 exactly when the words are equal |
| Levenshtein.LevSymmetric | bkTreeScript.js:182-204 | the distance is symmetric |
| Levenshtein.LevTriangle | bkTreeScript.js:182-204 | the distance satisfies the triangle inequality, so it is a metric |
| BKTreeSpec.KeyedImpliesChildKeyed | bkTreeScript.js:145-157 | under the subtree invariant each child's own word lies at its key's distance from its parent |
| BKTreeSpec.StoredOnlyUnderItsKey | bkTreeScript.js:145-157 | under the invariant a word can be stored only under the child key equal to its distance from the node |
| BKTreeSpec.PruningKeepsCandidate | bkTreeScript.js:164 | a word within `maxDistance` of the query at distance k >= 1 from a node has k in `[max(1, d - maxDistance), d + maxDistance]` |
| BKTreeSpec.SearchSound | bkTreeScript.js:159-169 | every hit is an active stored word, reported with its true distance, no farther than `maxDistance` |
| BKTreeSpec.SearchComplete | bkTreeScript.js:159-169 | under the invariant the pruned walk reports every active word within `maxDistance` |
| BKTreeSpec.SearchDistinct | bkTreeScript.js:159-169 | under the invariant no word is reported twice |
| BKTreeSpec.SearchHits | bkTreeScript.js:159-169 | under the invariant a match is reported exactly when its word is active, its distance is the word's distance to the query, and that distance is at most `maxDistance`; each word at most once |
| BKTreeSpec.SearchIsScan | bkTreeScript.js:159-169 | under the invariant the pruned search finds the same set of hits as a linear scan of all active words |
| BKTreeSpec.SearchMonotone | bkTreeScript.js:159-169 | a larger tolerance keeps every hit of a smaller one |
| BKTreeSpec.SearchExact | bkTreeScript.js:159-169 | with tolerance 0 the search reports the query word once exactly when the exact-distance walk ends on an active node, and nothing otherwise |
| BKTreeSpec.InsertWords | bkTreeScript.js:145-157 | insert stores the word and no other word |
| BKTreeSpec.InsertActiveWords | bkTreeScript.js:145-157 | after insert the active words are the old ones plus the inserted word |
| BKTreeSpec.InsertKeyed | bkTreeScript.js:145-157 | insert preserves the child-key invariant |
| BKTreeSpec.InsertActivates | bkTreeScript.js:145-157 | after insert the exact-distance walk for the word ends on an active node |
| BKTreeSpec.InsertPaths | bkTreeScript.js:145-157 | insert adds exactly one node path, the end of the exact-distance walk |
| BKTreeSpec.InsertNodeCount | bkTreeScript.js:145-157 | insert adds one node, or none when the walk already reaches the word (a tombstoned node is reactivated, not duplicated) |
| BKTreeSpec.InsertFlags | bkTreeScript.js:145-157 | insert keeps every node's word and child keys and changes one flag only: the node at the end of the walk becomes active |
| BKTreeSpec.FoundIffStored | bkTreeScript.js:145-157 | under the invariant the exact-distance walk finds a word exactly when the word is stored somewhere in the tree |
| BKTreeSpec.InsertThenSearch | bkTreeScript.js:145-169 | after inserting a word, an exact search reports it once with distance 0 |
| BKTreeSpec.RemoveFlags | bkTreeScript.js:171-180 | remove keeps every node, word and child key; only the node at the end of a successful walk is tombstoned |
| BKTreeSpec.RemoveAbsent | bkTreeScript.js:171-180 | removing a word the walk does not reach leaves the tree unchanged |
| BKTreeSpec.RemoveIdempotent | bkTreeScript.js:171-180 | removing twice is the same as removing once |
| BKTreeSpec.RemoveWords | bkTreeScript.js:171-180 | remove keeps every stored word |
| BKTreeSpec.RemoveKeyed | bkTreeScript.js:171-180 | remove preserves the child-key invariant |
| BKTreeSpec.RemoveActiveWords | bkTreeScript.js:171-180 | under the invariant remove deactivates the removed word and no other |
| BKTreeSpec.RemoveDeactivates | bkTreeScript.js:171-180 | after remove the exact-distance walk for the word ends on no active node |
| BKTreeSpec.InsertIdempotent | bkTreeScript.js:145-157 | inserting a word twice gives the same tree as inserting it once |
| BKTreeSpec.InsertActiveNoop | bkTreeScript.js:145-157 | inserting a word whose walk already ends on an active node leaves the tree unchanged |
| BKTreeSpec.RemoveThenInsert | bkTreeScript.js:145-180 | removing a word whose walk ends on an active node, then inserting it again, gives back the same tree |
| BKTreeSpec.ReinsertNoNewNode | bkTreeScript.js:145-180 | insert, remove, insert again is the same tree as one insert, with the same node count: re-inserting a removed word reactivates its node and creates no duplicate |
| BKTreeSpec.RemoveThenSearch | bkTreeScript.js:159-180 | after removing a word, an exact search for it reports nothing |
| BKTreeSpec.SortedKeys | bkTreeScript.js:131 | the child keys as visited by `for ... in`: the same keys, in strictly ascending order |
| BKTreeSpec.ExportRoundTrip | bkTreeScript.js:129-135 | rebuilding the exported records gives back the tree, and the root record carries the given distance |
| BKTreeSpec.ExportChildrenKeys | bkTreeScript.js:130-133 | the exported children carry the visited keys, in that order, each being that child's export |
| BKTreeSpec.ExportOrdered | bkTreeScript.js:129-135 | every level of the export lists its children by ascending distance |
| BKTrees.BKNode.constructor | bkTreeScript.js:138-143 | a new node holds the word, is active and has no children |
| BKTrees.BKNode.Insert | bkTreeScript.js:145-157 | the node's value becomes `BKTreeSpec.Insert` of the old value; the node stays valid and only fresh objects are added |
| BKTrees.BKNode.InsertBelow | bkTreeScript.js:152-153 | inserting through the existing child replaces just that child's value |
| BKTrees.BKNode.AddLeaf | bkTreeScript.js:154-155 | a new leaf goes under the free key; all other children are kept |
| BKTrees.BKNode.Search | bkTreeScript.js:159-169 | the results are the incoming results followed by `BKTreeSpec.Search` of the node's value |
| BKTrees.BKNode.Remove | bkTreeScript.js:171-180 | the node's value becomes `BKTreeSpec.Remove` of the old value; no object is added |
| BKTrees.BKNode.RemoveBelow | bkTreeScript.js:177-178 | removing through the existing child replaces just that child's value |
| BKTrees.BKNode.SetDeleted | bkTreeScript.js:148-149 | setting the tombstone flag changes only that flag |
| BKTrees.BKTree.constructor | bkTreeScript.js:2-4 | a new tree is empty |
| BKTrees.BKTree.Insert | bkTreeScript.js:6-12 | the first word becomes the root, later words go through the root; the child-key invariant is kept |
| BKTrees.BKTree.Search | bkTreeScript.js:14-20 | an empty tree gives no hits; otherwise the hits are exactly the active words within `maxDistance`, with their distances, each once |
| BKTrees.BKTree.Remove | bkTreeScript.js:22-26 | remove on an empty tree does nothing; otherwise the root's value becomes `BKTreeSpec.Remove` of it; the invariant is kept |
| BKTrees.BKTree.BuildTreeData | bkTreeScript.js:129-135 | the record built for a node is `BKTreeSpec.Export` of its value, and rebuilding the record gives back that value |
| BKTrees.BKTree.BuildChildren | bkTreeScript.js:130-133 | the records of the children under the visited keys, in that order |

## Left out

- `draw` (bkTreeScript.js:28-127) and the page's event handlers and DOM
  wiring (bkTreeScript.js:207-243) are rendering and I/O. Only the
  `_buildTreeData` export the renderer consumes is modelled.
- `maxDistance` is a `nat`. The page's `parseInt` can produce `NaN` or a
  negative number, and JavaScript's comparisons with those are not modelled.
- Child keys are `nat` map keys. The source's object keys are strings that
  `for ... in` lists in ascending numeric order. The model takes that order
  as `SortedKeys` and drops the `parseInt` on the way back.
- `this.children[d]` is tested for truthiness in the source. A child is
  always a node object, so the model tests map membership instead.
- Words are `seq<char>`. The UTF-16 code units that `charAt` returns are
  taken to map one-to-one onto chars; a Dafny `char` cannot hold a lone
  surrogate, so this is an abstraction. The distance only compares
  characters for equality, so any such one-to-one mapping gives the same
  distances.
- BKNode.Search returns a new sequence (the incoming results followed by
  the new hits) instead of pushing onto a shared array. Aliasing of that
  array by other holders is not modelled.
- The distance table is an `array2` of size (|b|+1) x (|a|+1), not an
  array of row arrays grown on demand.
