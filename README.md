# Wordificator-9000 matching engine in Dafny

This project models the matching engine of the Wordificator-9000 word-game helper (`default.js`). The engine has three parts:

- **`loadTries`** builds the dictionary index: one prefix tree per word length, each holding only the words of that length. No end-of-word marker is stored. A path is a word when it reaches the depth of its tree's length.
- **`nextNodes`** is the letter-pool matcher. From a tree node and a pool of letters, it enumerates every ordered choice of exactly `remaining` pool letters that stays on tree edges. It skips a pool position that repeats the letter just before it. It consumes letters by position and yields `(word, node)` pairs.
- **`words`** is the segment composer. It chains the matcher across the segments of a pattern, left to right, from the root of the tree for the pattern's total length.

The top-level query at default.js:95-99 sums the segment lengths, looks up the tree for that total and enumerates only when the tree exists.

Modules, one file each:

- `trie.dfy` (`Trie`): the tree as `datatype Node(children: map<char, Node>)`, walking a path and inserting a word.
- `dictionary.dfy` (`Dictionary`): `loadTries` as a method with a loop over the word list. The loop is proved against the fold `Loaded`, and the lemmas about `Loaded` state what the index holds.
- `letters.dfy` (`Letters`): letter pools, removal by position, and the strict lexicographic order in which results come out.
- `matcher.dfy` (`Matcher`): `nextNodes` as the mutually recursive functions `NextNodes` (the generator), `Branches` (its `for` loop over pool positions) and `Branch` (one round of that loop).
- `composer.dfy` (`Composer`): `words` as `Words`, `Extend` (the loop over the matcher's pairs) and `ExtendOne` (lines 47-53), plus the query. It proves the end-to-end theorem: over the index built from a word list, the query yields exactly the listed words of two letters or more that fit the pattern segment by segment.
- `scenarios.dfy` (`Scenarios`): worked queries on small dictionaries, derived from the general theorems.

The generators are modelled as finite sequences in yield order. Each segment is a `Segment(length: nat, letters: seq<char>)`. A string *fits* a pattern (`Composer.Fits`) when it splits into consecutive chunks, one per segment, each of that segment's length and forming a sub-multiset of that segment's pool.

Three behaviours of the code worth stating:

- The code accepts segments of length 0. Such a segment contributes the empty chunk.
- The code does not reject an empty pattern. It yields nothing for one, and the model does the same.
- The matcher does not need a sorted pool for soundness or completeness. A skipped position repeats its predecessor, and removing either of the two leaves the same pool. Sortedness is what makes results unique. The model proves that on sorted pools the results are in strictly ascending order of the whole word. The order holds for the whole word, not only for the letter chosen at each position.

## Model

| member | source | states |
|---|---|---|
| `Trie.WalkAppend` | default.js:25-28 | following `s + t` from a node is following `s`, then `t` from the node `s` reached; fails when either part leaves the tree |
| `Trie.InsertPaths` | default.js:12-15 | inserting a word adds exactly the prefixes of that word to the node's paths, and removes none |
| `Dictionary.LoadTries` | default.js:6-18 | the loop over the word list builds exactly `Loaded(wordList)`, and every length it keys is at least 2 |
| `Dictionary.LoadedPaths` | default.js:9-15 | `tries[L]` exists and has path `s` iff `L >= 2` and some listed word of length `L` begins with `s`; words of length 0 or 1 create no entry and no path |
| `Dictionary.LoadedWords` | default.js:9-15 | a string is a full-depth path of the tree for its length iff it is a listed word of at least two letters |
| `Dictionary.LoadedDepth` | default.js:11-15 | no tree exists for a length below 2, and no node of `tries[L]` lies deeper than `L` |
| `Letters.RemoveAt` | default.js:29 | removing position `i` drops exactly one occurrence of that letter (multiset difference) and keeps every other letter in its order |
| `Letters.RemoveAtSorted` | default.js:29 | removing one position from a sorted pool leaves it sorted |
| `Letters.AscendingDistinct` | default.js:22-24 | a strictly ascending list of strings holds no string twice |
| `Matcher.NextNodesSound` | default.js:20-39 | every yielded pair is `word + s` with `|s| = remaining`, `s` a sub-multiset of the pool, and its node the one `s` leads to from `node` |
| `Matcher.BranchSound` | default.js:23-34 | the pairs of loop round `i` extend `word` by the letter at position `i` first, and exist only when `i` does not repeat its predecessor |
| `Matcher.BranchesSound` | default.js:22-35 | every pair of the loop from position `i` on is a sound extension of `word` |
| `Matcher.ExtendsByLetter` | default.js:26-30 | a sound extension of `word + [c]` from the child for `c`, drawn from the pool short of that `c`, is a sound extension of `word` from the node with the whole pool |
| `Matcher.BranchInBranches` | default.js:22-35 | whatever round `i` of the loop yields, the loop started at any earlier position yields too |
| `Matcher.NextNodesComplete` | default.js:20-39 | completeness: every sub-multiset ordering `s` of the pool that is a path from `node` is yielded as `(word + s, node reached)`, whether or not the pool is sorted |
| `Matcher.NextNodesShortPool` | default.js:22-30 | asking for more letters than the pool holds yields nothing |
| `Matcher.NextNodesDone` | default.js:21-37 | the result is the single unchanged pair `(word, node)` iff `remaining = 0` |
| `Matcher.BranchesAbove` | default.js:22-24 | on a sorted pool, what the loop yields from position `i > 0` on starts with a letter strictly above the one at `i - 1` |
| `Matcher.NextNodesAscending` | default.js:22-32 | on a sorted pool the yielded words are strictly ascending, so no word is yielded twice even when the pool repeats a letter |
| `Matcher.BranchesAscending` | default.js:22-35 | on a sorted pool the loop from position `i` on yields strictly ascending words |
| `Composer.FitsLength` | default.js:95 | a string that fits the segments from `i` on is as long as the sum of their lengths |
| `Composer.WordsSound` | default.js:41-55 | every word yielded is `word + s`, where `s` fits the remaining segments chunk by chunk and is a path from the start node; nothing is yielded past the last segment or for an empty pattern |
| `Composer.ExtendSound` | default.js:46-54 | every word the loop over the matcher's pairs yields completes `word` soundly |
| `Composer.ExtendOneSound` | default.js:47-53 | a sound pair leads to sound words only: its own word after the last segment, or the next segment's words from its node |
| `Composer.ExtendOneInExtend` | default.js:46-54 | every word a pair leads to is yielded by the loop over any list holding that pair |
| `Composer.WordsComplete` | default.js:41-55 | completeness: every path from the start node that fits the remaining segments is yielded after `word` |
| `Composer.ExtendOnePrefix` | default.js:47-53 | every word a pair leads to begins with the pair's word |
| `Composer.ExtendPrefix` | default.js:46-54 | every word of the loop begins with the word of one of its pairs |
| `Composer.WordsAscending` | default.js:41-55 | with sorted pools the composed words are strictly ascending, so none is yielded twice |
| `Composer.ExtendAscending` | default.js:46-54 | strictly ascending pairs of equal length lead to strictly ascending words |
| `Composer.Query` | default.js:95-99 | every word the query yields has the total segment length, fits the pattern, and is a full path of the tree for that length; nothing is yielded when that tree is absent |
| `Composer.QueryFindsListedWords` | default.js:95-99 | over the index built from a word list, a word is yielded iff the pattern is non-empty, the word fits it, has at least two letters and is listed |
| `Composer.QueryAscending` | default.js:95-99 | with sorted pools the query yields each word once, in strictly ascending order |
| `Scenarios.OneMatch` | default.js:95-99 | with sorted pools, when exactly one listed word fits the pattern, the query yields exactly that word |
| `Scenarios.TwoMatches` | default.js:95-99 | with sorted pools, when exactly two listed words fit, the query yields both, the smaller first |
| `Scenarios.NoMatch` | default.js:95-99 | when no listed word fits, the query yields nothing |
| `Scenarios.CatAct` | default.js:95-99 | dictionary cat, act, car with the pattern `act`: yields act then cat |
| `Scenarios.Bee` | default.js:95-99 | dictionary bee with the pattern `bee`: yields bee once, not once per `e` |
| `Scenarios.TwoSegmentsHalves` | default.js:41-55 | the segments `ab` and `cd` over the dictionary ab, cd yield nothing: each half being a word does not make the whole one |
| `Scenarios.TwoSegmentsWhole` | default.js:41-55 | the same segments yield abcd once abcd is listed |

## Left out

- The page wiring is not modelled: button and spinner state, history and `onpopstate`, focus, and building the `<li>` result elements (default.js:57-127). It is presentation only.
- Fetching the word list with `XMLHttpRequest` and lower-casing it (default.js:59-65) is I/O. `LoadTries` takes the list already split into words.
- The split on `/\W/` (default.js:8) and the parsing of pattern text with `parseInt` and `sort` (default.js:76-93) depend on JavaScript regular-expression and Unicode semantics. The model takes the words and the parsed segments as input. Pools are not required to be sorted, except by the ordering lemmas, which state sortedness as their precondition.
- Laziness, suspension and cancellation of the generators (`function*`, `yield`) are not modelled. Each generator is a finite sequence in the same order. Re-running a query gives the same sequence because the model's functions are deterministic.
- `LoadTries`: the inner loop of `loadTries` walks down the tree and creates missing children in place (`node[char] = {}`). The model instead uses the value-level `Trie.Insert`, which rebuilds the path. Trees are never shared, so the resulting index is the same. Object identity and in-place update are not captured.
- `Matcher.NextNodes`: `remaining` is a `nat`. JavaScript tests it for truthiness, and that input is not modelled. A negative count is truthy, so the code keeps consuming pool letters until the pool is empty and yields nothing. `NaN`, which `parseInt` gives for a malformed length, is falsy, so the code yields `(word, node)` at once, as it does for a count of 0.
- Characters are Dafny `char`s. Strings are not modelled as UTF-16 code units, so the difference between `charAt` in `loadTries` and the code-point spread `[...]` used when pools are built does not appear.
