# T9 predictive text: a verified model

This project models the core of a T9 predictive-text suggester in Dafny. The
suggester reads a dictionary text. It files every word under the digit string
a user would type for it on a telephone keypad ("cat" is 2-2-8). It keeps a
count of how often each word was seen. For a digit query it prints two lists:

- the exact matches, most frequent first;
- the longer words whose digit strings start with the query, leaving out
  the words already printed as exact matches.

The modules follow the three source classes:

- `FrequencyTable` models `Value.java`, the word table of one trie node:
  - `addWord` and the ranking `getSortedSetOfWords`;
  - the ranking pipeline `sortMap`, `copyIntoAux`, the value array and its
    descending sort, and `generateArrayList`;
  - the comparator `DecreasingOrderComparator`.
  `addWord` is proved against the function `Bump` (one more count for the
  word). `getSortedSetOfWords` and `sortMap`, which have no loop of their
  own, are proved against the predicate `IsRanking`: the output lists every
  word of the table once and nothing else, and never puts a less frequent
  word before a more frequent one. The loops `copyIntoAux` (group the words
  by count), the value array (one entry per word) and the descending sort
  (ordered and a permutation) are proved against their own `ensures`.
  `generateArrayList` is proved to emit each word once, only the words whose
  count is in the array, in non-increasing count order. The comparator is a
  function whose `ensures` give the sign of its answer.
- `DigitTrie` models `RWayTrie.java`:
  - a heap model with `Node` objects, their `Value` tables and their link
    arrays;
  - the recursive `insert`, the recursive lookup `retrieve(Node,…)`, and the
    pre-order `traverse`.
  The abstract state is a map from node paths (digit strings) to word tables.
  The function `Grow` is the abstract effect of one insert. `Listing` is the
  specification of the prefix walk.
- `Suggest` models `Suggest.java`:
  - query validation and `KEYPAD_MAP`;
  - `convert`, proved against the per-letter key `KeyOf`, and `toNumeric`,
    proved against the pure encoding `Encode`;
  - the word-loading loops, proved against the pure functions `LoadWord` and
    `LoadAll`;
  - the two printing routines and their shared `alreadyPrinted` set.
  The static fields `trie` and `alreadyPrinted` are the fields of a
  `Suggester` object.
- `JavaStrings` models the two `java.lang.String` operations the loader needs:
  `trim()` and `split` with a literal separator.
- `Wrappers` holds `Option`. `None` stands for Java's `null` and for the
  exceptions the source catches.

### Behaviour of the code worth knowing

- **Prefix listing.** `traverse` (RWayTrie.java:58-66) does not merge the
  tables of the subtree and rank all words together. It appends each node's
  own ranking in pre-order, children by ascending digit. So inserting "cat"
  twice (228) and "cap" once (227) lists "cap" before "cat" for the prefix
  "22" (`DigitTrie.CatCapPrefixListing`).
- **Invalid insert keys.** The trie does not check key characters on insert:
  a character outside '2'..'9' indexes the link array directly. `Insert`
  therefore requires a digit key, as all its callers guarantee.
- **Empty queries and keys.** The empty query is accepted, and a word that
  purges to "" is stored at the root.
- **Ties.** There is no fixed tie-break among equal counts: each group is
  taken from a `HashSet`, so the model leaves the order inside a group open.

## Model

| member | source | states |
|---|---|---|
| `FrequencyTable.Value.constructor` | Suggest/src/com/climate/predictivetext/Value.java:14-16 | a new table is empty |
| `FrequencyTable.Value.AddWord` | Suggest/src/com/climate/predictivetext/Value.java:22-28 | the word's count goes up by one (from 0 to 1 when absent), no other entry changes, and all counts stay at least one |
| `FrequencyTable.Bump` | Suggest/src/com/climate/predictivetext/Value.java:22-28 | the abstract addWord: the key set gains the word, its count rises by one, every other count is unchanged |
| `FrequencyTable.AddAllCounts` | Suggest/src/com/climate/predictivetext/Value.java:22-28 | after a sequence of addWord calls, a word's count is its old count plus the number of times it was added, and it is present iff it was present or added |
| `FrequencyTable.AddAllPositive` | Suggest/src/com/climate/predictivetext/Value.java:22-28 | addWord never produces a count below one |
| `FrequencyTable.CountIsNumberOfAdds` | Suggest/src/com/climate/predictivetext/Value.java:22-28 | from an empty table, a word is stored iff it was added, and its count is the number of adds |
| `FrequencyTable.OccurrencesPositive` | Suggest/src/com/climate/predictivetext/Value.java:22-28 | a word occurs at least once in a list iff it is in it |
| `FrequencyTable.AddTwiceAddsTwo` | Suggest/src/com/climate/predictivetext/Value.java:22-28 | adding one word twice raises its count by exactly two |
| `FrequencyTable.Value.GetSortedSetOfWords` | Suggest/src/com/climate/predictivetext/Value.java:18-20 | null iff the table is empty, otherwise a ranking of the table; the table itself is not changed |
| `FrequencyTable.SortMap` | Suggest/src/com/climate/predictivetext/Value.java:31-45 | null iff the map is empty, otherwise every word exactly once, most frequent first |
| `FrequencyTable.CopyIntoAux` | Suggest/src/com/climate/predictivetext/Value.java:47-61 | every count of the map is a key of the result, each group is non-empty, and a group holds exactly the words with that count |
| `FrequencyTable.ValuesToArray` | Suggest/src/com/climate/predictivetext/Value.java:38 | a new array with one entry per key of the map, each the count of that key, in some key order |
| `FrequencyTable.SortDescending` | Suggest/src/com/climate/predictivetext/Value.java:39-40 | sorting leaves the array in non-increasing order and a permutation of its old contents |
| `FrequencyTable.SinkInto` | Suggest/src/com/climate/predictivetext/Value.java:39-40 | one insertion step grows the sorted prefix by one element and permutes the array |
| `FrequencyTable.SwapAdjacent` | Suggest/src/com/climate/predictivetext/Value.java:39-40 | an exchange of two neighbours changes nothing else and permutes the array |
| `FrequencyTable.GenerateArrayList` | Suggest/src/com/climate/predictivetext/Value.java:63-76 | each group is emitted only at the first occurrence of its count, so no word repeats; the words emitted are exactly those whose count is in the array; counts never increase along the list |
| `FrequencyTable.Compare` | Suggest/src/com/climate/predictivetext/Value.java:78-89 | positive iff the first count is smaller, zero iff they are equal: a descending order |
| `FrequencyTable.RankingLength` | Suggest/src/com/climate/predictivetext/Value.java:63-76 | a ranking has as many entries as the table has words |
| `FrequencyTable.RankingPutsFrequentFirst` | Suggest/src/com/climate/predictivetext/Value.java:39-43 | a strictly more frequent word is always listed earlier |
| `FrequencyTable.RankingGroupsAreContiguous` | Suggest/src/com/climate/predictivetext/Value.java:66-74 | words of equal count sit together: anything between two of them has the same count |
| `FrequencyTable.RankingsAgree` | Suggest/src/com/climate/predictivetext/Value.java:69-71 | two rankings of one table differ only inside groups of equal count: same length, same count at every position, same words |
| `DigitTrie.ComputeActualIndex` | Suggest/src/com/climate/predictivetext/RWayTrie.java:108-112 | -1 iff the character is below '2'; a keypad digit maps to its slot 0..7 and back |
| `DigitTrie.Node.constructor` | Suggest/src/com/climate/predictivetext/RWayTrie.java:21-24 | a new node has a new empty table and eight null links |
| `DigitTrie.RWayTrie.constructor` | Suggest/src/com/climate/predictivetext/RWayTrie.java:14-16 | a new trie has no root and so no nodes |
| `DigitTrie.RWayTrie.Insert` | Suggest/src/com/climate/predictivetext/RWayTrie.java:89-91 | the trie stays well formed, only new objects join it, and its tables become `Grow(old tables, key, 0, word)` |
| `DigitTrie.RWayTrie.InsertAt` | Suggest/src/com/climate/predictivetext/RWayTrie.java:96-106 | the recursive insert returns the node at key[..idx], keeps every old node, adds only new ones, and its effect on the tables is `Grow` from depth idx |
| `DigitTrie.RWayTrie.Materialize` | Suggest/src/com/climate/predictivetext/RWayTrie.java:97-98 | a missing node is created with an empty table; an existing one is returned unchanged |
| `DigitTrie.RWayTrie.Descend` | Suggest/src/com/climate/predictivetext/RWayTrie.java:103-105 | inserting below the key character's link and storing the result there completes the insert from depth idx + 1 |
| `DigitTrie.RWayTrie.SetLink` | Suggest/src/com/climate/predictivetext/RWayTrie.java:104 | after the link store, every link but those still pending above leads to the node of the longer path |
| `DigitTrie.RWayTrie.CountAt` | Suggest/src/com/climate/predictivetext/RWayTrie.java:99-101 | at the end of the key the word is counted once more in that node's table; no node is added |
| `DigitTrie.AddNode` | Suggest/src/com/climate/predictivetext/RWayTrie.java:97-98 | adding a fresh node with no links keeps the node paths prefix-closed and the links consistent |
| `DigitTrie.RWayTrie.FindNode` | Suggest/src/com/climate/predictivetext/RWayTrie.java:71-81 | the lookup returns the node whose path is the key, null when there is none |
| `DigitTrie.RWayTrie.Retrieve` | Suggest/src/com/climate/predictivetext/RWayTrie.java:33-38 | null iff there is no node at the key or its table is empty; otherwise a ranking of that node's table |
| `DigitTrie.RWayTrie.RetrievePrefixMatches` | Suggest/src/com/climate/predictivetext/RWayTrie.java:47-56 | never null; the concatenation of the rankings of the listed nodes under the key, an empty list when the key has no node; as a set, exactly the words stored at every path that starts with the key |
| `DigitTrie.RWayTrie.Traverse` | Suggest/src/com/climate/predictivetext/RWayTrie.java:58-66 | appends to the accumulator the node's own ranking, then its children's listings for the digits '2' to '9' in order |
| `DigitTrie.Lookup` | Suggest/src/com/climate/predictivetext/RWayTrie.java:33-38 | definition: the abstract result of retrieve: None exactly when the key has no node or its table is empty (both null in the source), otherwise that node's table |
| `DigitTrie.GrowSpec` | Suggest/src/com/climate/predictivetext/RWayTrie.java:96-106 | insert adds exactly the missing prefixes of the key as nodes, counts the word once more at the key, and changes no other table |
| `DigitTrie.Grow` | Suggest/src/com/climate/predictivetext/RWayTrie.java:96-106 | definition: the abstract insert creates the node at each prefix of the key that is missing, with an empty table, and counts the word once more at the full key; `DigitTrie.GrowSpec` gives its closed form |
| `DigitTrie.GrowPreservesShape` | Suggest/src/com/climate/predictivetext/RWayTrie.java:96-106 | after an insert the node paths are still prefix-closed digit strings and all counts are positive |
| `DigitTrie.InsertThenRetrieve` | Suggest/src/com/climate/predictivetext/RWayTrie.java:89-106 | after insert(key, word), retrieve(key) finds a table that holds the word, counted once more than before |
| `DigitTrie.InsertKeepsOtherKeys` | Suggest/src/com/climate/predictivetext/RWayTrie.java:96-106 | insert(key, word) does not change what retrieve finds at any other key |
| `DigitTrie.GrowTableAt` | Suggest/src/com/climate/predictivetext/RWayTrie.java:96-106 | the table at every path after an insert: one more count at the key, the old table elsewhere |
| `DigitTrie.IntermediateNodeFindsNothing` | Suggest/src/com/climate/predictivetext/RWayTrie.java:33-37 | after insert("228", "cat") the node "22" exists, yet retrieve("22") is null |
| `DigitTrie.NothingBelow` | Suggest/src/com/climate/predictivetext/RWayTrie.java:59-60 | with no node at the prefix, nothing is listed under it |
| `DigitTrie.OwnListing` | Suggest/src/com/climate/predictivetext/RWayTrie.java:61-62 | the node's own ranking, when its table is not empty, starts the listing |
| `DigitTrie.ListingStep` | Suggest/src/com/climate/predictivetext/RWayTrie.java:63-65 | appending the listing of child c extends the listing of the node and its children before c |
| `DigitTrie.ListsAll` | Suggest/src/com/climate/predictivetext/RWayTrie.java:63-65 | once all eight children are walked, the result lists every non-empty node under the prefix |
| `DigitTrie.Flatten` | Suggest/src/com/climate/predictivetext/RWayTrie.java:62 | definition: the parts concatenated in order, as repeated `addAll` builds the list; no parts give the empty list |
| `DigitTrie.FlattenAppend` | Suggest/src/com/climate/predictivetext/RWayTrie.java:62 | appending part after part is appending their concatenation |
| `DigitTrie.ListingStartsWithRetrieve` | Suggest/src/com/climate/predictivetext/RWayTrie.java:58-66 | when retrieve(k) is not null, the prefix listing of k starts with a ranking of k's table |
| `DigitTrie.ListingWords` | Suggest/src/com/climate/predictivetext/RWayTrie.java:58-66 | as a set, the prefix listing of k is the union of the tables at all paths that start with k |
| `DigitTrie.FlattenMember` | Suggest/src/com/climate/predictivetext/RWayTrie.java:62 | a word is in the concatenation iff it is in one of the parts |
| `DigitTrie.AscendingUnique` | Suggest/src/com/climate/predictivetext/RWayTrie.java:63-65 | the walk order of a set of node paths is unique |
| `DigitTrie.ListingsAgree` | Suggest/src/com/climate/predictivetext/RWayTrie.java:58-66 | two prefix listings of one key visit the same nodes in the same order and differ only inside each node's groups of equal count |
| `DigitTrie.LexLessAsymmetric` | Suggest/src/com/climate/predictivetext/RWayTrie.java:63-65 | no two paths are each visited before the other |
| `DigitTrie.AscendingDistinct` | Suggest/src/com/climate/predictivetext/RWayTrie.java:63-65 | the walk visits no node twice |
| `DigitTrie.CatCapInserts` | Suggest/src/com/climate/predictivetext/RWayTrie.java:89-106 | inserting "cat" twice under 228 and "cap" once under 227 gives nodes "", 2, 22, 227, 228 with counts cap 1, cat 2 |
| `DigitTrie.CatCapPaths` | Suggest/src/com/climate/predictivetext/RWayTrie.java:63-64 | in that trie the walk under "22" visits 227, then 228 |
| `DigitTrie.CatCapPrefixListing` | Suggest/src/com/climate/predictivetext/RWayTrie.java:63-64 | in that trie the prefix listing of "22" is exactly ["cap", "cat"] |
| `DigitTrie.SingleRanking` | Suggest/src/com/climate/predictivetext/Value.java:63-76 | a table of one word has exactly one ranking |
| `JavaStrings.Trim` | Suggest/src/com/climate/predictivetext/Suggest.java:137 | the result has no blank at either end and sits in the input with only blanks around it |
| `JavaStrings.TrimIdempotent` | Suggest/src/com/climate/predictivetext/Suggest.java:137 | trimming twice is trimming once |
| `JavaStrings.FirstMatch` | Suggest/src/com/climate/predictivetext/Suggest.java:139 | the leftmost occurrence of the separator at or after a position, None iff there is none |
| `JavaStrings.Pieces` | Suggest/src/com/climate/predictivetext/Suggest.java:137-139 | definition: the pieces between successive leftmost, non-overlapping occurrences of the separator, trailing empty pieces included; always at least one piece |
| `JavaStrings.Split` | Suggest/src/com/climate/predictivetext/Suggest.java:137-139 | definition: `split` with a literal separator and limit 0: the input alone when the separator does not occur, otherwise the pieces with trailing empty ones removed |
| `JavaStrings.JoinPieces` | Suggest/src/com/climate/predictivetext/Suggest.java:137-139 | joining the pieces with the separator gives back the input |
| `JavaStrings.PiecesAreFree` | Suggest/src/com/climate/predictivetext/Suggest.java:137-139 | no piece contains the separator |
| `JavaStrings.DropTrailingEmpty` | Suggest/src/com/climate/predictivetext/Suggest.java:137-139 | a prefix of the list that ends in a non-empty string, with only empty strings removed after it |
| `JavaStrings.SplitSpec` | Suggest/src/com/climate/predictivetext/Suggest.java:137-139 | split yields the input alone when the separator does not occur, otherwise the pieces without the trailing empty ones |
| `JavaStrings.SplitEmpty` | Suggest/src/com/climate/predictivetext/Suggest.java:137 | splitting "" gives [""], not [] |
| `JavaStrings.SplitOnlySeparator` | Suggest/src/com/climate/predictivetext/Suggest.java:139 | a string that is only the separator splits into nothing |
| `Suggest.ValidateInput` | Suggest/src/com/climate/predictivetext/Suggest.java:50-56 | accepts iff every character is in '2'..'9'; the empty query is accepted |
| `Suggest.KeyOf` | Suggest/src/com/climate/predictivetext/Suggest.java:178-194 | a key exists iff the character is in 'a'..'z', and it is a keypad digit |
| `Suggest.KeypadMap` | Suggest/src/com/climate/predictivetext/Suggest.java:178-194 | definition: `KEYPAD_MAP`, the letter groups "abc" to "wxyz" and the digits '2' to '9' they sit on |
| `Suggest.KeypadMapAgrees` | Suggest/src/com/climate/predictivetext/Suggest.java:184-193 | every letter of a KEYPAD_MAP group is on that group's key |
| `Suggest.KeypadMapCovers` | Suggest/src/com/climate/predictivetext/Suggest.java:184-193 | every letter 'a'..'z' is in some KEYPAD_MAP group |
| `Suggest.Convert` | Suggest/src/com/climate/predictivetext/Suggest.java:196-203 | each of 'a'..'z' maps to its keypad digit whatever the group order; anything else, digits included, fails |
| `Suggest.Encode` | Suggest/src/com/climate/predictivetext/Suggest.java:169-176 | the encoding exists iff every character is in 'a'..'z'; it then has the word's length and is a valid trie key |
| `Suggest.EncodeDigits` | Suggest/src/com/climate/predictivetext/Suggest.java:169-176 | the i-th digit of an encoding is the key of the i-th letter |
| `Suggest.EncodeAppend` | Suggest/src/com/climate/predictivetext/Suggest.java:169-176 | the encoding of a concatenation is the concatenation of the encodings |
| `Suggest.EncodeCat` | Suggest/src/com/climate/predictivetext/Suggest.java:165-168 | "cat" encodes to "228" |
| `Suggest.ToNumeric` | Suggest/src/com/climate/predictivetext/Suggest.java:169-176 | the array filled character by character is the encoding, and fails exactly when the encoding does |
| `Suggest.Keep` | Suggest/src/com/climate/predictivetext/Suggest.java:161 | removal of the unwanted characters keeps exactly the wanted ones and never lengthens the word |
| `Suggest.KeepIdempotent` | Suggest/src/com/climate/predictivetext/Suggest.java:161 | purging an already purged word removes nothing more |
| `Suggest.KeepAll` | Suggest/src/com/climate/predictivetext/Suggest.java:161 | the removal keeps a word whose characters are all wanted unchanged |
| `Suggest.Purge` | Suggest/src/com/climate/predictivetext/Suggest.java:160-162 | definition: purgeWord removes every character outside the classes \p{L} and \p{N}, then lower-cases the rest |
| `Suggest.PurgeCleanWord` | Suggest/src/com/climate/predictivetext/Suggest.java:160-162 | a word of letters and numbers only is just lower-cased |
| `Suggest.Tokens` | Suggest/src/com/climate/predictivetext/Suggest.java:137-140 | definition: the words of a line are the trimmed line split at " ", each piece then split at "--", in order |
| `Suggest.DashWords` | Suggest/src/com/climate/predictivetext/Suggest.java:139-140 | definition: the "--" pieces of each space-separated token, token after token |
| `JavaStrings.SplitIsFree` | Suggest/src/com/climate/predictivetext/Suggest.java:137-139 | no string that split returns contains the separator |
| `Suggest.DashWordsAreFree` | Suggest/src/com/climate/predictivetext/Suggest.java:139-140 | no word cut from the tokens contains "--" |
| `Suggest.TokensAreFree` | Suggest/src/com/climate/predictivetext/Suggest.java:137-140 | no word of a line contains "--" |
| `Suggest.LoadWord` | Suggest/src/com/climate/predictivetext/Suggest.java:141-148 | definition: one word is purged, its lower-cased form encoded, and the purged word inserted under that encoding; a word that does not encode leaves the tables as they were |
| `Suggest.LoadWordEffect` | Suggest/src/com/climate/predictivetext/Suggest.java:141-148 | loading one word leaves the tables unchanged when its purged form does not encode; otherwise the purged word is counted once more at its encoding and every other table is unchanged |
| `Suggest.BlankLineTokens` | Suggest/src/com/climate/predictivetext/Suggest.java:137-140 | a blank line yields one empty word |
| `Suggest.BlankLineLoadsEmptyWord` | Suggest/src/com/climate/predictivetext/Suggest.java:136-149 | a blank line stores the empty word at the root |
| `Suggest.LinesTokens` | Suggest/src/com/climate/predictivetext/Suggest.java:108-112 | definition: the words of every line read, line after line, each line split as `insertWordsIntoTrie` splits it |
| `Suggest.LoadAll` | Suggest/src/com/climate/predictivetext/Suggest.java:136-151 | definition: the tables after loading the words one at a time, in order, each as `LoadWord` loads it |
| `Suggest.LoadAllAppend` | Suggest/src/com/climate/predictivetext/Suggest.java:110-113 | loading lines one after another is loading all their words in order |
| `Suggest.LoadWordAtEncodings` | Suggest/src/com/climate/predictivetext/Suggest.java:141-148 | loading one word keeps every stored word at the key of its lower-cased encoding |
| `Suggest.LoadAllAtEncodings` | Suggest/src/com/climate/predictivetext/Suggest.java:136-151 | loading keeps every word at its encoding, so each word is stored under one key only |
| `Suggest.LoadCounts` | Suggest/src/com/climate/predictivetext/Suggest.java:136-151 | a word's count at its key grows by the number of loaded words that purge to it |
| `Suggest.OccurrencesSnoc` | Suggest/src/com/climate/predictivetext/Suggest.java:136-151 | counting occurrences from the back agrees with counting from the front |
| `Suggest.PurgeAll` | Suggest/src/com/climate/predictivetext/Suggest.java:142 | one purged word per loaded word |
| `Suggest.Unprinted` | Suggest/src/com/climate/predictivetext/Suggest.java:91-94 | keeps exactly the words not yet printed, and never lengthens the list |
| `Suggest.Suggester.constructor` | Suggest/src/com/climate/predictivetext/Suggest.java:20-21 | an empty trie and nothing printed |
| `Suggest.Suggester.InsertWord` | Suggest/src/com/climate/predictivetext/Suggest.java:141-148 | purge, encode and insert one word, or skip it when it does not encode; the encoding invariant holds afterwards |
| `Suggest.Suggester.InsertPieces` | Suggest/src/com/climate/predictivetext/Suggest.java:139-150 | loads every "--" piece of one token in order |
| `Suggest.Suggester.InsertWordsIntoTrie` | Suggest/src/com/climate/predictivetext/Suggest.java:136-151 | loads every word of the line, skipping those that do not encode; the rest of the line is still loaded |
| `Suggest.Suggester.PopulateTrie` | Suggest/src/com/climate/predictivetext/Suggest.java:103-125 | loads every line in order |
| `Suggest.Suggester.RetrieveSequencesFromTrie` | Suggest/src/com/climate/predictivetext/Suggest.java:65-76 | prints "No sequences found!" when retrieve is null; otherwise prints a ranking of the query's table and adds exactly its words to the printed set; the trie is unchanged |
| `Suggest.Suggester.LogAndRecord` | Suggest/src/com/climate/predictivetext/Suggest.java:71-74 | prints the words in retrieve order and adds each of them to the printed set |
| `Suggest.Suggester.RetrievePrefixMatchesFromTrie` | Suggest/src/com/climate/predictivetext/Suggest.java:84-95 | prints "No matches found for the given prefix!" when no word is stored under the query, otherwise the listing without the already printed words, in order: exactly the stored words under the query not yet printed |
| `Suggest.Suggester.LogUnprinted` | Suggest/src/com/climate/predictivetext/Suggest.java:91-94 | prints, in order, exactly the words not in the printed set |
| `Suggest.Suggester.PrintSuggestions` | Suggest/src/com/climate/predictivetext/Suggest.java:26-41 | stops before loading iff the query is invalid; otherwise loads the text, prints the exact ranking (or the not-found line), then exactly the words stored under the query outside the exact matches (or the no-match line) |

## Left out

- File reading, `BufferedReader`, `closeFile`, `log` and `main`'s argument
  and file checks are I/O. The text is given as its lines, and every printed
  line is returned as a list instead. The status lines ("Parsing file …",
  "Exact matches for …") are not part of the returned lists.
- `System.exit(1)` on an invalid query is modelled as `PrintSuggestions`
  returning `None`. The exits on I/O errors are not modelled.
- The Unicode classes `\p{L}` and `\p{N}` and `String.toLowerCase` are
  parameters (the `Unicode` value of a `Suggester`). They depend on the
  Unicode character database. Only 'a'..'z' can encode, whatever they are.
- `String.split` is modelled for a literal separator only, which is all the
  source passes (" " and "--"). `trim()` removes every character up to
  U+0020, as Java's does.
- HashMap and HashSet iteration order is left open. The loops pick their next
  element by choice. The order inside a group of equal counts is unspecified.
- `FrequencyTable.Value.AddWord`: counts are unbounded integers. Java's
  `Integer` count wraps to a negative value after 2^31-1 adds of one word, so
  more than 2^31-1 occurrences of one word are out of scope.
- `FrequencyTable.SortDescending`: `Arrays.sort` with the comparator is an insertion sort
  here. Only its result (sorted and a permutation) is stated.
- `FrequencyTable.Compare`: the comparator's `==` on boxed `Integer`s compares references.
  For equal counts above 127 it can answer -1 instead of 0. The model
  compares the counts as integers.
- `DigitTrie.RWayTrie.Traverse`: the path argument `key + c` of the source is never read. The
  model carries the path as a ghost parameter instead. The shared `ArrayList`
  is threaded through as a sequence.
- `DigitTrie.RWayTrie.Traverse` calls `getSortedSetOfWords` once per node,
  where the source calls it twice (once to test for null). Both calls rank
  the same unchanged table.
- `DigitTrie.RWayTrie.Insert` requires a key over '2'..'9'. The source throws
  an array index exception for any other character; its only caller passes
  encodings.
- `DigitTrie.RWayTrie.Retrieve`, `DigitTrie.RWayTrie.RetrievePrefixMatches`
  and `DigitTrie.RWayTrie.FindNode` require that no character above '9' is
  reached at an existing node, where the source would index past the link
  array. A character below '2' is handled: it yields null, as in the source.
- `Suggest.Suggester.RetrieveSequencesFromTrie`: its loop adds each printed
  word to a local copy of the printed set, which is stored back after the
  loop. No other code runs in between.
- `Suggest.ValidateInput` returns false where the source throws; the
  exception message is not modelled.
- `Suggest.Suggester.PrintSuggestions` requires that nothing was printed
  before. The source's static set starts empty and the method runs once.
  Its contract states the set of prefix words printed; their order is given
  by `Suggest.Suggester.RetrievePrefixMatchesFromTrie`.
- `Trie.java`, the interface of the trie, has no logic.
