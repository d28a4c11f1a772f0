# krac autocomplete index: a Dafny model of the bounded-depth trie

This project models the core of the krac autocomplete index:

- the trie of bounded depth (`TrieIndex`);
- the tokenizer and the substring predicate it is built with;
- the two set folds it uses to combine answers.

`add(value)` cuts the value into words, which are maximal runs of `'a'..'z'`. It files the value in a leaf of the trie under each word. The leaf is chosen by the child-slot offsets of the word's first `depth + 1` characters. A position past the end of the word gets the padding offset `ALPHABET_SIZE` = 25, which is the slot of `'z'`.

`search(query)` cuts the query into words and walks each word down the trie. The walk stops as follows:

- An empty slot yields nothing.
- A leaf yields the values in it that contain the word.
- A word that ends on a branch node yields every value below that node.

The per-word answers are then intersected.

The generic element type is fixed to `string`, with the tokenizer as `words` and the substring predicate as `match`, as the library's factory does.

Files:

- `wrappers.dfy`: `Option`, used for the results that may be absent.
- `text_utils.dfy` (module `TextUtils`) covers the alphabet constants, `substringMatch` and `defaultSplitWords`:
  - `Words` is a reference definition: repeatedly skip separators and take the maximal run of letters.
  - `SplitWords` is the one-pass buffered loop of the source, proved equal to `Words`.
- `set_utils.dfy` (module `SetUtils`) covers `intersectAll` as a fold and `mergeAll` as a loop over a mutable accumulator. Both are proved against the plain n-ary intersection and union.
- `trie_spec.dfy` (module `TrieSpec`) holds the reference semantics of the trie, stated over values rather than nodes:
  - `OffsetAt` and `PaddedPath` give the path that a word is filed under.
  - `Expected(A, d)` gives the buckets that a trie of depth `d` holds once the values in `A` are added.
  - `Matches` gives what `getWordMatches` returns for a word.
  - `SearchSpec` gives what `search` returns.
  - The lemmas relate these definitions to one another and to the behaviour a user sees.
- `trie_index.dfy` (module `TrieIndex`) is the trie on the heap:
  - `TrieElem` holds an array of 26 optional children, and `getOrCreate` writes a slot in place.
  - `TrieLeaf` holds a mutable bucket.
  - The class `TrieIndex` carries ghost maps from paths to nodes, leaves and buckets. Its invariant `Valid()` says two things: the arrays and leaves form exactly the trie those maps describe, and the buckets are `Expected(Added, depth)`.
  - `Add` is proved to keep `Valid()` and to add the value to `Added`.
  - `Search` is proved to return `SearchSpec(Added, depth, query)`.

## Model

| member | source | states |
|---|---|---|
| TextUtils.SubstringMatch | src/TextUtils.kt:6-10 | true exactly when `sub` occurs as a contiguous piece of `str` at some position |
| TextUtils.Words | src/TextUtils.kt:12-29 | reference tokenizer; every word it yields is non-empty and made of `'a'..'z'` only |
| TextUtils.SplitWords | src/TextUtils.kt:12-29 | the buffered loop that flushes at each separator yields exactly `Words(text)`; every word is non-empty and all letters; the words concatenate to the text with every character outside `'a'..'z'` deleted |
| TextUtils.WordOfWord | src/TextUtils.kt:15-27 | a non-empty run of letters is tokenized to itself |
| TextUtils.FlushAtSeparator | src/TextUtils.kt:17-22 | one separator step: a non-empty buffer is emitted as a word, and the separator itself is dropped |
| TextUtils.WordsAroundSeparator | src/TextUtils.kt:17-22 | a separator character splits the tokenization: `Words(a + [c] + b) == Words(a) + Words(b)` |
| TextUtils.FirstRunAppend | src/TextUtils.kt:15-22 | the first word of a text that starts with a letter ends at the first separator, whatever follows it |
| TextUtils.WordsConcat | src/TextUtils.kt:15-27 | the words concatenate to exactly the letters of the text |
| TextUtils.WordsCut | src/TextUtils.kt:15-27 | the text is its separator stretches interleaved with its words; separators hold no letter, and every separator between two words is non-empty, so the words are maximal runs |
| TextUtils.WordsUnique | src/TextUtils.kt:15-27 | any cut of the text into maximal runs of letters has exactly the words of `Words` |
| TextUtils.NoWordsIffNoLetters | src/TextUtils.kt:17 | no word is yielded exactly when no character lies in `'a'..'z'`; upper case, digits and punctuation are separators |
| TextUtils.WordOccurs | src/TextUtils.kt:15-27 | every word the tokenizer yields occurs as a contiguous piece of the text |
| SetUtils.FoldIntersect | src/SetUtils.kt:2-3 | the fold of `intersect` holds x exactly when x is in the start set and in every set |
| SetUtils.IntersectAll | src/SetUtils.kt:1-4 | an empty sequence gives the empty set; otherwise x is in the result exactly when it is in every set; the result is within every set |
| SetUtils.Union | src/SetUtils.kt:6-9 | reference n-ary union: x is in it exactly when x is in some set |
| SetUtils.MergeAll | src/SetUtils.kt:6-9 | the accumulator loop returns the union: every set is within the result, and every element comes from some set |
| SetUtils.UnionReorder | src/SetUtils.kt:6-9 | the union does not depend on the order of the sets |
| SetUtils.IntersectAllReorder | src/SetUtils.kt:1-4 | the intersection does not depend on the order of the sets |
| SetUtils.IntersectAllAppend | src/SetUtils.kt:1-4 | intersecting two non-empty runs of sets in turn is the intersection of their two results |
| SetUtils.IntersectAllMonotone | src/SetUtils.kt:1-4 | growing every set position by position grows the intersection |
| TrieSpec.OffsetAt | src/TrieIndex.kt:108-116 | whenever defined, the offset is a slot index 0..25 of the children array; it is undefined (the range check fails) exactly on a character inside the word outside `'a'..'z'` |
| TrieSpec.PaddingIsZSlot | src/TrieIndex.kt:109-110 | past the end of a word the offset is the offset of `'z'` |
| TrieSpec.PaddedPath | src/TrieIndex.kt:24-29 | the path has depth + 1 offsets, and each of them is the `offsetAt` of its position wherever that is defined |
| TrieSpec.Put | src/TrieIndex.kt:103-104 | after filing v at q, the bucket at q is the old one plus v; the set of paths gains only q, and every other bucket is unchanged |
| TrieSpec.Expected | src/TrieIndex.kt:19-29 | every bucket sits at depth + 1, is non-empty and holds only added values; every added value is in the bucket at the padded path of each of its words |
| TrieSpec.ExpectedAt | src/TrieIndex.kt:19-29 | a bucket exists at q exactly when some added value has a word filed under q, and it holds exactly those values |
| TrieSpec.InsertedAt | src/TrieIndex.kt:20-21 | filing v under each word of a list in turn creates or grows exactly the buckets at those words' padded paths, by v |
| TrieSpec.AddValue | src/TrieIndex.kt:19-22 | filing v under each of its words takes the buckets of A to the buckets of A + {v}; if v was already added, nothing changes |
| TrieSpec.BelowExpected | src/TrieIndex.kt:68-72 | the values below the node at p are the added values with a word whose padded path passes through p |
| TrieSpec.Matches | src/TrieIndex.kt:36-48 | a word's matches are added values only, and for a word longer than the depth they all contain the word |
| TrieSpec.PaddedAgreement | src/TrieIndex.kt:36-48 | as written: a query word of at most depth letters agrees with the padded path of a word x exactly when it begins x, or x begins it and the rest of the query is all `'z'` |
| TrieSpec.ShortWordMatches | src/TrieIndex.kt:36-48 | a query word of at most depth letters matches the added values with a word that it begins, together with the values whose word begins it when the rest of the query is all `'z'` |
| TrieSpec.DepthBoundary | src/TrieIndex.kt:24-48 | when the only added value is a single word of letters longer than the depth, it is found by its first depth letters and by itself, and not by a depth-letter query that is not a prefix of it |
| TrieSpec.ShortMatchesBelow | src/TrieIndex.kt:36-48 | a word that runs out at a branch node matches every value below that node, unfiltered |
| TrieSpec.LongMatchesLeaf | src/TrieIndex.kt:36-42 | a word longer than the depth matches the values of the leaf at its padded path that contain it |
| TrieSpec.LeafAnswer | src/TrieIndex.kt:42 | the filtered bucket of a leaf reached by a longer word is exactly the word's matches |
| TrieSpec.MissingAnswer | src/TrieIndex.kt:43 | a word whose walk meets an empty slot has no match |
| TrieSpec.MatchesWithin | src/TrieIndex.kt:36-48 | whatever a word matches lies below every node on its path |
| TrieSpec.SearchEmptyQuery | src/TrieIndex.kt:31-34 | a query with no `'a'..'z'` character finds nothing |
| TrieSpec.SearchWithinAdded | src/TrieIndex.kt:31-34 | search returns only added values |
| TrieSpec.SearchMonotone | src/TrieIndex.kt:31-34 | adding values never shrinks a search result |
| TrieSpec.SearchConjunction | src/TrieIndex.kt:31-34 | two queries that each contain a letter, joined by a separator, find exactly what both of them find |
| TrieSpec.LongPrefixFound | src/TrieIndex.kt:36-42 | a query word longer than the depth that begins a word of an added value finds that value |
| TrieSpec.PaddingCollision | src/TrieIndex.kt:108-110 | as written: with depth at least 2, the query c + "z" finds the value c, although c neither contains nor begins with it |
| TrieSpec.FixedPath | src/TrieIndex.kt:108-110 | corrected path: depth + 1 offsets, each within a 27-slot array whose last slot is a terminator of its own |
| TrieSpec.FixedAgreement | src/TrieIndex.kt:108-110 | with the corrected path, a short query word agrees with the path of x exactly when it begins x |
| TrieIndex.TrieLeaf.constructor | src/TrieIndex.kt:97-98 | a new leaf has an empty bucket |
| TrieIndex.TrieLeaf.Add | src/TrieIndex.kt:103-104 | the bucket gains v and nothing else, and the result is true exactly when v was not in it |
| TrieIndex.TrieElem.constructor | src/TrieIndex.kt:54-55 | a new branch node has a fresh array of 26 empty slots |
| TrieIndex.TrieElem.GetOrCreate | src/TrieIndex.kt:57-63 | an occupied slot yields its child and nothing changes; an empty slot alone receives a fresh node of the requested kind (empty leaf, or branch node with 26 empty slots), which is returned |
| TrieIndex.NothingBelowMissing | src/TrieIndex.kt:43 | in a well-formed trie no bucket lies below a path that leads to an empty slot |
| TrieIndex.DescendElem | src/TrieIndex.kt:26-27 | a step of the descent keeps the trie well formed and mirrored in the heap; afterwards the branch node at p + [o] is the one returned, and only new objects join the footprint |
| TrieIndex.DescendLeaf | src/TrieIndex.kt:28 | the last step keeps the trie well formed and mirrored; the leaf at p + [o] is the one returned |
| TrieIndex.AddToLeaf | src/TrieIndex.kt:28 | after adding to the bucket of the leaf at q, the heap mirrors the index `Put(index, q, value)`; the result tells whether the value was new there |
| TrieIndex.TrieIndex.constructor | src/TrieIndex.kt:13-17 | a positive depth gives a valid, empty trie: the root is its only node, it has no leaves and no buckets, and no values are added |
| TrieIndex.TrieIndex.Slot | src/TrieIndex.kt:65-66 | slot i of the branch node at path p holds what the trie places one step below p: only a branch node or nothing above the leaf level, only a leaf or nothing at it |
| TrieIndex.TrieIndex.StepElem | src/TrieIndex.kt:27 | the branch node at p + [o] exists afterwards; leaves, buckets and added values are unchanged |
| TrieIndex.TrieIndex.StepLeaf | src/TrieIndex.kt:28 | the leaf at p + [o] exists afterwards; nodes, buckets and added values are unchanged |
| TrieIndex.TrieIndex.FileValue | src/TrieIndex.kt:28 | the index becomes `Put(old index, q, value)`; the result tells whether the value was new to that bucket |
| TrieIndex.TrieIndex.FileUnder | src/TrieIndex.kt:28 | the leaf under slot o is found or created, and the value is filed in it |
| TrieIndex.TrieIndex.Descend | src/TrieIndex.kt:25-27 | reaches the branch node at the first depth offsets of the word, creating missing nodes; it fails exactly when one of the first depth characters is not a letter |
| TrieIndex.TrieIndex.PutWordMatch | src/TrieIndex.kt:24-29 | files the value at the word's padded path, and returns true exactly when it was new there; fails exactly when a character that offsetAt reads is not a letter, and then leaves the buckets unchanged |
| TrieIndex.TrieIndex.PutWords | src/TrieIndex.kt:20-21 | filing under each word in turn gives `Inserted(old index, value, words)` |
| TrieIndex.TrieIndex.Add | src/TrieIndex.kt:19-22 | keeps `Valid()` (the buckets are those prescribed for the added values) and adds the value; adding a value twice leaves every bucket unchanged |
| TrieIndex.TrieIndex.ElemValues | src/TrieIndex.kt:68-72 | `values()` of the branch node at p is the union of every bucket below p |
| TrieIndex.TrieIndex.SlotValues | src/TrieIndex.kt:68-72 | the merge of the values of slots i.. of a node is every bucket below those slots |
| TrieIndex.TrieIndex.ChildValues | src/TrieIndex.kt:68-72 | a child's values are the buckets below its path: none for an empty slot, the bucket of a leaf, everything below a branch node |
| TrieIndex.TrieIndex.GetWordMatches | src/TrieIndex.kt:36-48 | for a word of letters, returns exactly `Matches(added, depth, word)`; it fails only when a character that offsetAt would read is not a letter |
| TrieIndex.TrieIndex.WordMatches | src/TrieIndex.kt:32-33 | the answers for a list of words, each the word's matches, in order |
| TrieIndex.TrieIndex.Search | src/TrieIndex.kt:31-34 | returns exactly `SearchSpec(added, depth, query)`: the intersection of the matches of the query's words |
| TrieIndex.NewTrieIndex | src/TrieIndex.kt:13-15 | the depth check fails exactly when the depth is not positive; otherwise the result is a fresh, valid, empty trie of that depth, whose nodes and leaves are all fresh, so a caller may add to it |

## Left out

- Debug rendering: `TrieElem.toString` and `TrieIndex.toString` (src/TrieIndex.kt:74-93, 118-119) only format the tree. They are not modelled.
- Generic values: `E` is fixed to `string`. The `words` and `match` closures are fixed to the tokenizer and the substring predicate, as the factory in src/AutoCompleteIndex.kt does. Arbitrary closures are not modelled.
- Laziness and order: lazy `Sequence`s are finite `seq`s. Insertion-ordered `MutableSet`s are unordered `set`s. `intersectAll`'s double pass (`firstOrNull`, then `fold`) is one fold started from the first set, which gives the same set.
- Exceptions: the failed range check of `offsetAt` is `None` in `TrieSpec.OffsetAt`, `PutWordMatch`, `Descend` and `GetWordMatches`. The failed constructor check is `None` in `NewTrieIndex`. The `else -> error(...)` branches and the reified cast in `getOrCreate` cannot fail: slots hold a closed datatype, and the trie's invariant fixes which kind of node sits at each depth.
- TrieIndex.TrieIndex.PutWordMatch: after a failed `offsetAt`, the model only says that the buckets are unchanged. The branch nodes created before the failure stay in the trie, and the model does not say which ones they are. `add` never reaches this case, because every word of a value is made of letters.
- TrieIndex.TrieIndex.GetWordMatches: for a word that is not all letters, the contract only says that a failure means a non-letter among the characters `offsetAt` reads. It does not say what is returned when the walk stops before reaching such a character. `search` never passes such a word.
- Concurrency: the source has none. Integer widths are not modelled either, because paths are at most depth + 1 offsets of 0..25 and nothing overflows.
- The test example of the tokenizer on the 54-character artifact coordinate string is not proved as a literal. The verifier unfolds the tokenizer character by character over a literal and exceeds its resource bound. The example is an instance of `WordOfWord`, `WordsAroundSeparator` and `NoWordsIffNoLetters`.
- Constructor check: the code checks `depth > 0`, while its message says "greater than 1". The model follows the code and accepts depth 1.
- Slot count: `TrieElem.toString` labels slot `ALPHABET_SIZE` as `'_'` (src/TrieIndex.kt:84), so that slot was meant as a terminator of its own. The code has 26 slots (`ALPHABET_SIZE + 1` with `ALPHABET_SIZE = 'z' - 'a'`), and its padding offset is the slot of `'z'`. The model follows the code. The consequence is the finding below.

## Findings

| source | as written | input that shows it | evidently intended | confidence | as-written member | corrected member |
|---|---|---|---|---|---|---|
| src/TrieIndex.kt:108-110 | past the end of a word, `offsetAt` returns `ALPHABET_SIZE` (25), the same slot as `'z'`, in a 26-slot array | depth 2; add "c"; search "cz" returns "c", which neither contains nor begins with "cz" | a terminator offset of its own (26, in 27 slots), so that a short query matches only values with a word it begins | not executed | TrieSpec.PaddingCollision | TrieSpec.FixedAgreement |
