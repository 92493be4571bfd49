# bamMergeByScore: the read-name trie of `SampleDataBamTrie`

`SampleDataBamTrie` holds the alignment scores of the reads of one BAM file,
keyed by read name. A read name such as `K00252:335:HWMMGBBXX:2:1101:3204:2545`
is cut on `:` into segments. The trie is a tree of nodes. Each node holds a
score, -1 until a read is stored there, and a map from the next segment to
the child node. The map is created the first time a child is added. Loading
a file stores, for each record, a score under the record's segments:

- the record's `AS` tag when it has one;
- otherwise the sum of the decimal runs of its `MD` tag;
- otherwise -1.

Loading also counts the records. A lookup follows the segments of a name
and reads -1 as soon as a segment has no child. `hasRead` is "the lookup is
not -1".

The project is written in Dafny, in seven modules:

- `Optional`: a value that may be missing, such as an optional tag.
- `JavaInt`: Java's 32-bit `int`, its wrap-around on `+` (`Wrap`), and
  `++` (`Inc`, `IncBy`).
- `JavaSplit`: what the two uses of `String.split` share, namely the
  longest prefix in a character class and the removal of trailing empty
  fields.
- `ReadName`: `name.split(":")`, modelled exactly, with the join that
  undoes it.
- `MdTag`: the grammar of the `MD` tag from the SAMtags document, and
  `md.split("[a-zA-Z^]+")`, proved to yield the grammar's decimal runs. It
  also holds `calcScoreFromMD`, a loop that sums the runs into an `int`.
- `TrieSpec`: the meaning of a trie as a value `Tree`: a score and a map of
  subtrees. It defines `Lookup`, `Insert` (store at a path, creating
  unscored nodes on the way) and `InsertAll` (a sequence of stores), with
  their laws.
- `BamTrie`:
  - `Node` is a class with the fields `score` and `subtree`. `subtree` is
    `None` until the first child is added. The class has a ghost footprint
    `Repr` and a ghost `Model: Tree`.
  - `addRec` is an in-place method proved to turn `Model` into
    `Insert(old(Model), …)`.
  - `getRec` is a recursive function proved to compute `Lookup(Model, …)`.
  - The class `SampleDataBamTrie` holds the root node and `entryCount`, with
    `getScore`, `hasRead`, `getScore(SAMRecord)` and the record loop of
    `load`.

Where the code and its documentation disagree, the model follows the code.
The doc comments of `getScore(SAMRecord)` and `getScore(String)` say "0"
when there is no score, but the code returns -1 in both places.

## Model

| member | source | states |
|---|---|---|
| JavaInt.Wrap | src/main/java/org/cruk/bioinformatics/bamMergeByScore/SampleDataBamTrie.java:84-86 | the `int` an exact sum becomes is congruent to it modulo 2^32, and equals it when it is in range |
| JavaInt.WrapAdd | src/main/java/org/cruk/bioinformatics/bamMergeByScore/SampleDataBamTrie.java:85-87 | adding to an already wrapped total is wrapping the exact sum once: a `+=` loop over `int` computes the wrapped exact sum |
| JavaInt.Inc | src/main/java/org/cruk/bioinformatics/bamMergeByScore/SampleDataBamTrie.java:135 | `entryCount++` adds one below the largest `int`, and makes the value smaller exactly when it steps from the largest `int` |
| JavaInt.IncWrap | src/main/java/org/cruk/bioinformatics/bamMergeByScore/SampleDataBamTrie.java:135 | `entryCount++` on a wrapped value is the wrapped successor |
| JavaInt.IncByWrap | src/main/java/org/cruk/bioinformatics/bamMergeByScore/SampleDataBamTrie.java:129-136 | `IncBy(c, k)`, that is `k` executions of `entryCount++`, leave the starting value plus `k`, wrapped to an `int` |
| JavaInt.IncByExact | src/main/java/org/cruk/bioinformatics/bamMergeByScore/SampleData.java:47-49 | without overflow, `IncBy(c, k)` (`k` increments) adds exactly `k`, so `size()` counts every loaded record |
| JavaSplit.DropTrailingEmpty | src/main/java/org/cruk/bioinformatics/bamMergeByScore/SampleDataBamTrie.java:44-46 | `split` with the default limit keeps a prefix of the fields, does not end in an empty field, and drops only empty ones |
| ReadName.Split | src/main/java/org/cruk/bioinformatics/bamMergeByScore/SampleDataBamTrie.java:44-46 | no segment contains ':'; a name without ':' is its own single segment; otherwise the list is empty or ends in a non-empty segment |
| ReadName.JoinSplit | src/main/java/org/cruk/bioinformatics/bamMergeByScore/SampleDataBamTrie.java:44-46 | the segments joined back with ':' give the name less its trailing colons: splitting loses exactly the trailing colons |
| ReadName.SplitJoin | src/main/java/org/cruk/bioinformatics/bamMergeByScore/SampleDataBamTrie.java:44-46 | colon-free segments whose last one is non-empty come back unchanged from joining and splitting |
| ReadName.JoinFields | src/main/java/org/cruk/bioinformatics/bamMergeByScore/SampleDataBamTrie.java:45 | the fields between colons, empty ones included, join back to the name |
| ReadName.FieldsJoin | src/main/java/org/cruk/bioinformatics/bamMergeByScore/SampleDataBamTrie.java:45 | joining colon-free segments and cutting at every colon gives the segments back |
| ReadName.SplitExamples | src/main/java/org/cruk/bioinformatics/bamMergeByScore/SampleDataBamTrie.java:44-46 | "a:b:" splits into ["a", "b"], ":" into no segment (it reaches the root), "" into [""] |
| MdTag.DigitRuns | src/main/java/org/cruk/bioinformatics/bamMergeByScore/SampleDataBamTrie.java:82-83 | a well-formed MD string has at least one decimal run, and every run is a non-empty string of digits |
| MdTag.SplitOnOps | src/main/java/org/cruk/bioinformatics/bamMergeByScore/SampleDataBamTrie.java:83 | `md.split("[a-zA-Z^]+")`: a string without a separator character is its own single field; otherwise the list is empty or ends in a non-empty field |
| MdTag.SplitOnOpsOpFree | src/main/java/org/cruk/bioinformatics/bamMergeByScore/SampleDataBamTrie.java:83 | no field of the split contains a letter or '^' |
| MdTag.PiecesAreDigitRuns | src/main/java/org/cruk/bioinformatics/bamMergeByScore/SampleDataBamTrie.java:83 | on a well-formed MD string, cutting at maximal runs of `[a-zA-Z^]` gives exactly the grammar's decimal runs |
| MdTag.SplitOnOpsAreDigitRuns | src/main/java/org/cruk/bioinformatics/bamMergeByScore/SampleDataBamTrie.java:83 | `md.split("[a-zA-Z^]+")` on a well-formed MD string is its list of decimal runs |
| MdTag.WrappedSumStep | src/main/java/org/cruk/bioinformatics/bamMergeByScore/SampleDataBamTrie.java:85-87 | one more `total += Integer.parseInt(num)` keeps `total` equal to the wrapped sum of the runs read so far |
| MdTag.CalcScoreFromMD | src/main/java/org/cruk/bioinformatics/bamMergeByScore/SampleDataBamTrie.java:82-89 | the result is the number of matched bases the MD string reports, wrapped to an `int`; when that number fits, the result is exactly it and non-negative |
| TrieSpec.LeafIsEmpty | src/main/java/org/cruk/bioinformatics/bamMergeByScore/SampleDataBamTrie.java:28-31 | a new node holds nothing: every path reads -1 and only the root is a node |
| TrieSpec.LookupChildOr | src/main/java/org/cruk/bioinformatics/bamMergeByScore/SampleDataBamTrie.java:74-78 | following a segment reads the child, and a missing child reads like a new node (-1) |
| TrieSpec.InsertLookup | src/main/java/org/cruk/bioinformatics/bamMergeByScore/SampleDataBamTrie.java:48-80 | after storing `s` at a path, that path reads `s` and every other path reads as before |
| TrieSpec.InsertNodes | src/main/java/org/cruk/bioinformatics/bamMergeByScore/SampleDataBamTrie.java:51-64 | a store adds exactly the prefixes of its path as nodes |
| TrieSpec.StoredUnscoredIsAbsent | src/main/java/org/cruk/bioinformatics/bamMergeByScore/SampleDataBamTrie.java:146-148 | a read stored with score -1 reads -1, so `hasRead` reports it absent |
| TrieSpec.InsertOverwrites | src/main/java/org/cruk/bioinformatics/bamMergeByScore/SampleDataBamTrie.java:65-67 | storing twice at one path keeps the second score (the last write wins, not the larger score) |
| TrieSpec.LastStore | src/main/java/org/cruk/bioinformatics/bamMergeByScore/SampleDataBamTrie.java:129-136 | it finds the position of the last store to a path, and finds none exactly when no store has that path |
| TrieSpec.InsertAllLookup | src/main/java/org/cruk/bioinformatics/bamMergeByScore/SampleDataBamTrie.java:129-136 | after a sequence of stores, a path reads the score of the last store to it, or as before when there was none |
| TrieSpec.InsertAllNodes | src/main/java/org/cruk/bioinformatics/bamMergeByScore/SampleDataBamTrie.java:129-136 | after a sequence of stores, the nodes are the old ones and every prefix of a stored path |
| TrieSpec.NeverStoredIsAbsent | src/test/java/org/cruk/bioinformatics/bamMergeByScore/SampleDataBamTrieTest.java:102-104 | loaded into an empty trie, a path that no record stores at reads -1: one that leaves every stored path, runs past one, or stops short of one |
| TrieSpec.PrefixNodeIsAbsent | src/main/java/org/cruk/bioinformatics/bamMergeByScore/SampleDataBamTrie.java:51-64 | a proper prefix of a stored path that was never stored itself is a node of the trie, yet reads -1 |
| BamTrie.RecordScore | src/main/java/org/cruk/bioinformatics/bamMergeByScore/SampleDataBamTrie.java:98-113 | the value of `getScore(rec)`: the `AS` value verbatim when present (possibly negative); with no `AS` and no `MD` tag, -1; with an `MD` tag, its matched bases wrapped to an `int` as `total +=` wraps them, which is exactly that non-negative count when it fits |
| BamTrie.Entries | src/main/java/org/cruk/bioinformatics/bamMergeByScore/SampleDataBamTrie.java:129-134 | one store per record, in order: the record's split name and its score |
| BamTrie.LoadedScore | src/main/java/org/cruk/bioinformatics/bamMergeByScore/SampleDataBamTrie.java:129-136 | after loading, a name reads the score of the last record whose name splits the same way, and reads as before when no record's name does |
| BamTrie.Node.constructor | src/main/java/org/cruk/bioinformatics/bamMergeByScore/SampleDataBamTrie.java:28-31 | a new node is unscored (-1), has no subtree map, and models the empty tree |
| BamTrie.Node.GetOrAddChild | src/main/java/org/cruk/bioinformatics/bamMergeByScore/SampleDataBamTrie.java:52-63 | returns the existing child for the key, or a new unscored one after creating the map when it is missing; no other child changes |
| BamTrie.Node.PutNewChild | src/main/java/org/cruk/bioinformatics/bamMergeByScore/SampleDataBamTrie.java:54-59 | a fresh unscored child is put under a key the map lacks, and the map is otherwise unchanged |
| BamTrie.Node.AddRec | src/main/java/org/cruk/bioinformatics/bamMergeByScore/SampleDataBamTrie.java:48-68 | the node stays a tree and its model becomes the old model with the score stored at the remaining segments; only new objects join the footprint |
| BamTrie.Node.AddBelow | src/main/java/org/cruk/bioinformatics/bamMergeByScore/SampleDataBamTrie.java:64 | the recursive call changes only the subtree under its key, which takes the store |
| BamTrie.Node.GetRec | src/main/java/org/cruk/bioinformatics/bamMergeByScore/SampleDataBamTrie.java:70-80 | the result is the lookup of the remaining segments in the node's model |
| BamTrie.SampleDataBamTrie.constructor | src/main/java/org/cruk/bioinformatics/bamMergeByScore/SampleDataBamTrie.java:33-42 | a new trie is an empty root node and `entryCount` 0 |
| BamTrie.SampleDataBamTrie.Size | src/main/java/org/cruk/bioinformatics/bamMergeByScore/SampleData.java:47-49 | `size()` is the count `entryCount`; `Load`'s contract, with `IncByWrap`, gives its value after loading |
| BamTrie.SampleDataBamTrie.AddRec | src/main/java/org/cruk/bioinformatics/bamMergeByScore/SampleDataBamTrie.java:48-68 | `addRec` called on the root node: the trie's model takes the store at `names[index..]`, and the count does not change |
| BamTrie.SampleDataBamTrie.GetScore | src/main/java/org/cruk/bioinformatics/bamMergeByScore/SampleDataBamTrie.java:155-157 | the score the trie's model holds at the name's segments, -1 when there is none |
| BamTrie.SampleDataBamTrie.HasRead | src/main/java/org/cruk/bioinformatics/bamMergeByScore/SampleDataBamTrie.java:146-148 | true exactly when the name's segments read a score other than -1 |
| BamTrie.SampleDataBamTrie.GetRecordScore | src/main/java/org/cruk/bioinformatics/bamMergeByScore/SampleDataBamTrie.java:98-113 | the score computed by the fallback chain is `RecordScore(rec)`, whose contract states the chain |
| BamTrie.SampleDataBamTrie.Load | src/main/java/org/cruk/bioinformatics/bamMergeByScore/SampleDataBamTrie.java:129-138 | the trie becomes the old one with every record's store applied in order; `entryCount` is incremented once per record, duplicates included; the result is `size()` |
| BamTrie.SampleDataBamTrie.LoadNext | src/main/java/org/cruk/bioinformatics/bamMergeByScore/SampleDataBamTrie.java:129-136 | one more pass of the loop extends the stores and the count by one record |
| BamTrie.SampleDataBamTrie.LoadRecord | src/main/java/org/cruk/bioinformatics/bamMergeByScore/SampleDataBamTrie.java:130-135 | one record's score is stored under its split name, and the count is incremented as a Java `int` |
| BamTrie.SanityScenario | src/test/java/org/cruk/bioinformatics/bamMergeByScore/SampleDataBamTrieTest.java:22-25 | a new trie does not hold "Zork" |
| BamTrie.AddRecBasicScenario | src/test/java/org/cruk/bioinformatics/bamMergeByScore/SampleDataBamTrieTest.java:28-34 | after storing 99 under ["alpha"], "alpha" is present with score 99 |

## Left out

- The merge itself is not modelled. `BamMergeByScore.run` is an empty stub,
  and the command-line handling is a layer over Apache Commons CLI.
- `SampleDataTrie`, the other implementation, is not modelled. It wraps a
  library Patricia trie whose code is not part of this model.
- The I/O of `load` is not modelled: the file-existence check and its
  `FileNotFoundException`, opening the htsjdk reader, reading the header,
  `SAMFormatException`, and closing the reader. The records are given as a
  sequence of `SamRecord` values, each carrying only its read name and its
  optional `AS` and `MD` tags.
- The file name kept by the constructors is not modelled.
- The memory-measurement tests, and the test assertions that depend on the
  contents of a BAM file, are not modelled.
- Java's `HashMap` is modelled as a Dafny `map` value held in the node's
  `subtree` field. A `null` map is `None`. Hashing, iteration order and
  capacity are not modelled.
- BamTrie.SampleDataBamTrie.GetRecordScore: requires `ScoreDefined`, a
  sufficient condition for a normal return: an `AS` tag, no `MD` tag, or a
  well-formed `MD` tag whose runs fit in an `int`. It therefore leaves out
  two kinds of record. Some records are outside the grammar but still
  scored normally by Java, such as those with the `MD` tag "10A", "10a5" or
  "5AB5". Others make `Integer.parseInt` throw `NumberFormatException`:
  an `MD` tag with an empty field, such as "A10", or with a run above
  2147483647. Java propagates that exception out of `load`.
- BamTrie.RecordScore: requires `ScoreDefined`, so it shares the
  restriction of `GetRecordScore`. It is not defined for records Java scores
  normally ("10A", "10a5", "5AB5"), nor for those on which Java throws.
- BamTrie.Entries: requires `ScoreDefined` of every record, with the same
  restriction. It does not give the stores of records with such `MD` tags,
  although Java's loop stores them.
- BamTrie.LoadedScore: requires `ScoreDefined` of every record, with the
  same restriction. It says nothing about loads that contain such records.
- BamTrie.SampleDataBamTrie.Load: requires `ScoreDefined` of every record,
  so it also leaves out records that Java scores normally ("10A", "10a5",
  "5AB5"). It does not describe the partly loaded trie that a
  `NumberFormatException` leaves behind.
- MdTag.CalcScoreFromMD: requires a well-formed `MD` string, as the
  SAMtags grammar defines it, whose runs each fit in an `int`. Some
  malformed strings that Java still sums without an exception (such as
  "10a5" or "10A") are outside the model.
- The `AS` tag is taken to be an `int` when present. htsjdk's conversion
  of other tag types is not modelled.
