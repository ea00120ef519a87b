# Word-occurrence engine of the wordcount server, in Dafny

This project models the word-occurrence engine of `src/wordcount-server.c`,
which is the algorithm behind the server's `count_occurrences` RPC. It takes
the bytes of a file and returns each distinct word with its number of
occurrences, most frequent first. The engine has three parts:

- **Tokenizer and aggregator** (`wordcount_split_words`). The loop repeats
  three steps. It takes the run of word-part bytes at the cursor
  (`ps_get_span`). It skips the run of non-word bytes after it
  (`ps_skip_cspan`). If the word is not empty, it puts the word into a map
  whose keys compare and hash ignoring ASCII case. A new key is stored with
  count 1; a key already present has its count incremented.
- **Ranker** (`t_wordcount_sort_word_occurrences`). It copies every map entry
  into a vector sized to the map, lower-casing the word. It then sorts the
  vector by occurrences in decreasing order.
- **Pipeline** (`t_wordcount_split_and_sort_word_occurrences`). It builds a
  fresh map, fills it, ranks it and discards it.

The modules follow that structure:

| module | file | contents |
|---|---|---|
| `Ascii` | `ascii.dfy` | bytes, the word-part class, ASCII lower-casing, case-insensitive equality |
| `Tokenizer` | `tokenizer.dfy` | `Split`, the scan as a recursive function, and its characterisations |
| `Occurrences` | `occurrences.dfy` | the case-insensitive map as a table of entries, `Put`, `Aggregate`, reference counts |
| `Ranker` | `ranker.dfy` | the copy into a vector, the sort and the ranking's contract |
| `WordCount` | `wordcount.dfy` | the pipeline, the counting loop as a method, and end-to-end properties |
| `Scenario`, `ScenarioRanking` | `scenario.dfy` | the input "The cat sat on the mat. THE CAT ran." worked through the model |

Modelling choices:

- Bytes are `newtype byte = 0..255`. The file content is a `seq<byte>`.
- A byte is a word part when it is an ASCII letter, an ASCII digit or `_`.
  That class comes from lib-common's `ctype_iswordpart`, which is not part
  of this model; this is the usual word-part class.
- The map is a sequence of entries in insertion order. Lookup compares keys
  ignoring ASCII case. The stored key is the first spelling put, and later
  spellings that are equal up to case only bump its count. The key
  invariant `Distinct` says that no two keys are equal up to case.
- Each partner of an operation is a definition written independently of
  it:
  - the number of words is proved equal to a byte-at-a-time run counter
    (`RunStarts`);
  - the bytes of the words are proved equal to the word-part bytes of the
    input (`Keep`);
  - the counts are proved equal to a count over the lower-cased words
    (`Occ`);
  - the ranking is proved equal, as a multiset, to the copied entries.

## Model

| member | source | states |
|---|---|---|
| `Ascii.ToLower` | src/wordcount-server.c:139 | lower-casing leaves no upper-case letter, changes a byte only when it is 'A'..'Z' (by adding 0x20), and keeps word-part bytes word parts |
| `Ascii.LowerWord` | src/wordcount-server.c:139 | the lower-cased copy of a word holds no upper-case letter, has the word's length, and is the same word under the map's case-insensitive key comparison |
| `Ascii.SameIgnoringCaseIffLowerEqual` | src/wordcount-server.c:59-62 | the map's key equality (same length, bytes equal ignoring case) holds exactly when the two lower-cased spellings are equal |
| `Tokenizer.SpanLen` | src/wordcount-server.c:90 | the word taken at the cursor is the longest prefix of word-part bytes: all its bytes are word parts and the next byte, if any, is not |
| `Tokenizer.CSpanLen` | src/wordcount-server.c:93 | the skipped run is the longest prefix of non-word bytes: none of its bytes is a word part and the next byte, if any, is one |
| `Tokenizer.Split` | src/wordcount-server.c:84-98 | every word produced is non-empty and made only of word-part bytes |
| `Tokenizer.SplitRun` | src/wordcount-server.c:90 | an input that is one run of word-part bytes is exactly one word |
| `Tokenizer.SplitSeparator` | src/wordcount-server.c:90-93 | a non-word byte cuts the input: the words of `a + [c] + b` are the words of `a` followed by the words of `b` |
| `Tokenizer.SplitSkipSeparators` | src/wordcount-server.c:93 | skipping the leading non-word run does not change the words |
| `Tokenizer.SplitDropGap` | src/wordcount-server.c:93 | any prefix of non-word bytes contributes no word |
| `Tokenizer.SplitJoin` | src/wordcount-server.c:84-98 | round trip: words, each followed by a run of separator bytes that is non-empty except possibly after the last word, split back into exactly those words |
| `Tokenizer.SplitConcat` | src/wordcount-server.c:90-98 | the words, concatenated, are exactly the word-part bytes of the input in order: none is lost, no separator enters a word |
| `Tokenizer.SplitCount` | src/wordcount-server.c:84-110 | the number of words equals the number of bytes that open a run of word-part bytes, counted byte by byte |
| `Tokenizer.SplitIsEmptyIff` | src/wordcount-server.c:84-98 | there are no words exactly when the input holds no word-part byte (so the empty input has none) |
| `Tokenizer.SplitLength` | src/wordcount-server.c:84-98 | there are never more words than input bytes |
| `Tokenizer.SplitLower` | src/wordcount-server.c:90 | lower-casing the input lower-cases each word and changes nothing else about the split |
| `Occurrences.Find` | src/wordcount-server.c:59-62 | the lookup finds a position whose key equals the word ignoring case, and finds none exactly when no key does |
| `Occurrences.Put` | src/wordcount-server.c:100-109 | one put keeps the key invariant. It adds an entry exactly when no key equals the word up to case, and that new entry is the word itself with count 1. Otherwise it adds 1 to the matching entry only and keeps every stored spelling |
| `Occurrences.PutAll` | src/wordcount-server.c:84-110 | putting a sequence of words keeps the key invariant, never removes an entry and never changes a stored spelling |
| `Occurrences.Aggregate` | src/wordcount-server.c:165-171 | the map filled from an empty one satisfies the key invariant |
| `Occurrences.PutExisting` | src/wordcount-server.c:103-108 | putting a spelling of the key stored at position i adds 1 to that entry's count and changes nothing else, keeping the stored spelling |
| `Occurrences.PutNew` | src/wordcount-server.c:102-103 | putting a word no key equals up to case appends it, spelled as given, with count 1 |
| `Occurrences.PutCounts` | src/wordcount-server.c:100-109 | one put adds exactly 1 to the put word's count, changes no other word's count, and adds 1 to the total |
| `Occurrences.PutAllCounts` | src/wordcount-server.c:84-110 | putting words adds to each word's count its number of occurrences ignoring case, and adds the number of words to the total |
| `Occurrences.PutAllKeysFrom` | src/wordcount-server.c:102-104 | every stored key is a spelling that was actually put |
| `Occurrences.PutAllCovers` | src/wordcount-server.c:103-104 | every word put has an entry equal to it up to case |
| `Occurrences.PutIgnoresCase` | src/wordcount-server.c:59-62 | putting spellings equal up to case into maps equal up to case gives maps equal up to case |
| `Occurrences.PutSameEntry` | src/wordcount-server.c:103-108 | two spellings equal ignoring case go to the same entry: once the key exists, putting either gives the same map |
| `Occurrences.PutAllIgnoresCase` | src/wordcount-server.c:59-62 | putting word sequences that agree up to case gives maps that agree up to case |
| `Occurrences.CountOfEntry` | src/wordcount-server.c:59-62 | under the key invariant, the count held for a key's lower-case form is that entry's own count |
| `Occurrences.AggregateSpec` | src/wordcount-server.c:75-111 | the filled map has one entry per distinct word up to case, stored under one of its spellings, with count equal to that word's number of occurrences (at least 1); the counts add up to the number of words |
| `Occurrences.AggregateAbsent` | src/wordcount-server.c:75-111 | a word that never occurs has no entry |
| `Ranker.ToVector` | src/wordcount-server.c:130-144 | the copy has exactly the map's size, and row i is entry i with its word lower-cased and its count kept |
| `Ranker.Insert` | src/wordcount-server.c:149-151 | inserting into a vector sorted by decreasing occurrences keeps it sorted and adds exactly that row |
| `Ranker.Sort` | src/wordcount-server.c:149-151 | the result is sorted by decreasing occurrences and is a permutation of the input |
| `Ranker.Rank` | src/wordcount-server.c:124-152 | the ranking is a permutation of the lower-cased entries, sorted by non-increasing occurrences, as long as the map, with lower-case words, and with pairwise different words when the keys are distinct up to case |
| `Ranker.RankRows` | src/wordcount-server.c:133-144 | each row is a lower-cased map entry with its count, and each entry appears as a row |
| `Ranker.RowOfRank` | src/wordcount-server.c:133-144 | a row of the ranking is some map entry, lower-cased |
| `Ranker.EntryInRank` | src/wordcount-server.c:133-144 | a map entry, lower-cased, is a row of the ranking |
| `Ranker.TotalOccurrencesPermutation` | src/wordcount-server.c:149-151 | reordering rows does not change the sum of their occurrences |
| `Ranker.TotalOfVector` | src/wordcount-server.c:133-144 | copying the map keeps the sum of its counts |
| `Ranker.PermutationKeepsDistinctWords` | src/wordcount-server.c:149-151 | reordering rows with pairwise different words keeps them pairwise different |
| `WordCount.SplitAndSort` | src/wordcount-server.c:162-179 | the pipeline's result is sorted by non-increasing occurrences, has pairwise different words, and every word is lower-case |
| `WordCount.SplitWords` | src/wordcount-server.c:75-111 | the byte-position loop builds exactly the map that putting the words of `Split` gives, keeps the key invariant, and counts as many occurrences as there are words |
| `WordCount.SkipSpan` | src/wordcount-server.c:90 | the cursor advances over the whole run of word-part bytes and stops at a non-word byte or the end |
| `WordCount.SkipCSpan` | src/wordcount-server.c:93 | the cursor advances over the whole run of non-word bytes and stops at a word-part byte or the end |
| `WordCount.SplitStepAt` | src/wordcount-server.c:89-98 | one turn of the loop makes progress and yields the span as the next word, or no word when the span is empty |
| `WordCount.RowsAreCountedWords` | src/wordcount-server.c:162-179 | every row holds a word of the input, lower-cased, with its number of occurrences in the input ignoring case, which is at least 1 |
| `WordCount.EveryWordRanked` | src/wordcount-server.c:162-179 | every word of the input appears, lower-cased, as the word of some row |
| `WordCount.OccurrencesAddUp` | src/wordcount-server.c:84-110 | the occurrences of all rows add up to the number of words, which is the number of maximal word-part runs of the input |
| `WordCount.EmptyRanking` | src/wordcount-server.c:165-178 | the ranking is empty exactly when the input has no word-part byte; the empty input gives the empty ranking |
| `WordCount.CaseInsensitive` | src/wordcount-server.c:59-62 | two inputs that differ only in ASCII case give the same ranking |
| `WordCount.CountsFitInInputLength` | src/wordcount-server.c:108 | no count exceeds the input length, so a 32-bit count cannot wrap for inputs shorter than 2^32 bytes |
| `Scenario.SplitExample` | src/wordcount-server.c:84-98 | the ASCII bytes of "The cat sat on the mat. THE CAT ran." (proved equal to the nine words joined by their separators) split into exactly those nine words, in order |
| `Scenario.AggregateExample` | src/wordcount-server.c:100-109 | those words give the map The=3, cat=2, sat=1, on=1, mat=1, ran=1, keyed by the first spelling of each word |
| `ScenarioRanking.RankExample` | src/wordcount-server.c:162-179 | the ranking of "The cat sat on the mat. THE CAT ran." holds exactly the rows ("the", 3), ("cat", 2), ("sat", 1), ("on", 1), ("mat", 1), ("ran", 1): "the" first, "cat" second, the four rows with count 1 after them in an order the sort leaves open |

## Left out

- The RPC handler, connection events, accept, module init and shutdown, signal handling and `main` (src/wordcount-server.c:181-332). These are event-loop and channel plumbing over library APIs that are not part of this model.
- The clients (src/wordcount-client.c, src/wordcount-client.py) and the configuration and event-loop code (src/wordcount-base.c). They do only I/O.
- src/wordcount.c parses arguments and logs a TODO; it does no counting, so there is no case-sensitive counting mode to model. Only the case-insensitive server engine is modelled.
- Hash-table internals: the hashing, and the way `qm_put` encodes a collision in the returned position. The model is a table looked up by case-insensitive comparison. Its insertion order stands in for the hash iteration order, which only affects how equal counts are ordered.
- Ranker.Sort: an insertion sort stands in for `iop_sort`, whose stability and field introspection are not part of this model. `Rank` promises only a permutation sorted by non-increasing occurrences, so it says nothing about the order of equal counts.
- WordCount.CountsFitInInputLength: counts are unbounded `nat`, not 32-bit `unsigned`. This lemma bounds each count by the input length instead of modelling wrap-around.
- Memory management (`t_scope`, `t_qv_init`'s single allocation, `qm_wipe`). The vector's size being exactly the map's size is kept as `|Rank(t)| == |t|`.
