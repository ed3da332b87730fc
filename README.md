# lsh — a verified model of near-duplicate search by MinHash and banded LSH

This project models the Go library `lsh`, which finds near-duplicate documents in the following steps.

1. **Shingling.** Each document is cut into shingles. `Shingle` makes stop-word shingles: a stop word and the two words after it. `KShingle` makes runs of `k` characters with punctuation skipped.
2. **Sets matrix.** The shingles of all documents become a sets matrix: one presence vector per shingle, with one slot per document.
3. **Compute matrix.** The sets matrix is compacted into a compute matrix whose rows are in lexicographic order of the shingles.
4. **MinHash.** A family of integer hash functions (`GenerateHashers`) is minimised over each column, giving a MinHash signature matrix.
5. **Banded LSH.** The signature is cut into bands. Each document's vector in a band is hashed into one of the band's buckets (`LSH`, `hashToBucket`).
6. **Candidates.** Documents sharing a bucket are collected pair by pair into two candidate stores (`FindCandidates`, `FindCandidatePairs`).
7. **Search.** `Search` stores an index (a sets matrix) with a configuration. `Find` appends the shingles of a query to a copy of the index as one more document and runs the pipeline above over that copy.

`Jaccard` gives the exact set similarity of two shingle lists.

## Modules

- `Common`: element sets of sequences, first-occurrence deduplication (`Dedup`) and the keys of a map in an unspecified order. It also has the pair counter used by the candidate stores.
- `Windows`: the open-window discipline shared by both shinglers. Every window starts at an opening element and is emitted once it holds `k` elements. Windows still open at the end are dropped.
- `Ordering`: lexicographic order on strings. `sort.Strings` and the sorted keys of a map.
- `Shingles` models shingles.go. The `shingler` struct is a class. `Shingle` and `KShingle` are methods proved equal to declarative reference definitions.
- `Hash` models hash.go. A hasher is a datatype: family and parameters, which are also the text the source keys them by. It has Go's truncating remainder. `GenerateHashers` fills an array in three stride-3 passes.
- `Matrices` and `MinHash` model minhash.go: `ToSetsMatrix`, `ToSetsComputeMatrix`, `SetsComputeMatrix.String`, `Minhash` and `MinhashWithHashers`. A NaN cell is `None`.
- `Stores` models the two candidate stores of lsh.go as classes. Each store's state is a fold of its `Put` steps over the list of puts made so far. `Pairs` enumerates the puts of one bucket.
- `Lsh` models lsh.go. It has the 64-bit hash of a band vector, the `BandBuckets` class, `LSH` and the two candidate searches. Everything is also proved about a generic bucket table: which sets end up together, and how often.
- `LshExamples` restates the two lsh_test.go tests whose documents are raw sentences. They are proved for any two different sentences and any random draws.
- `Similarity` models similarity.go. The ratio is returned as a numerator and a denominator.
- `Search` models search.go: the options, `NewSearch`, `reIndex` and `Find`.

## Model

| member | source | states |
|---|---|---|
| Shingles.PunctuationExamples | shingles.go:147-149 | `isPunctuationMark` matches the class `[.,:;?!]`: it holds the six marks and not a letter, a digit, a space, `#`, a dash or a quote |
| Shingles.RemovePunctuationMarksProperties | shingles.go:151-153 | no punctuation mark is left; every other character keeps its count; the string does not grow |
| Shingles.RemovePunctuationMarksAppend | shingles.go:151-153 | removal distributes over concatenation, so it works character by character |
| Shingles.RemovePunctuationMarksKeeps | shingles.go:151-153 | a string without punctuation is returned unchanged |
| Shingles.RemovePunctuationMarksIdempotent | shingles.go:151-153 | removing twice is removing once |
| Shingles.RemovePunctuationMarksAll | shingles.go:151-153 | a string made only of punctuation marks becomes empty |
| Shingles.RemovePunctuationFraming | shingles.go:151-153 | punctuation before and after a string without punctuation is stripped, the string kept whole |
| Shingles.RemovePunctuationExample | shingles_test.go:31 | "Hello, world!" becomes "Hello world" |
| Shingles.RemovePunctuationFullStopExample | shingles_test.go:28 | a final full stop is removed |
| Shingles.RemovePunctuationSpacedEllipsisExample | shingles_test.go:29 | a leading "..." is removed and the space after it kept |
| Shingles.RemovePunctuationEllipsisExample | shingles_test.go:30 | a leading "..." glued to the first word is removed |
| Shingles.FieldsFromShape | shingles.go:80 | every field `strings.Fields` yields is non-empty and holds no white space |
| Shingles.Shingler.constructor | shingles.go:24-30 | a new shingler has no shingles, no open windows and an empty seen set |
| Shingles.Shingler.AppendCandidate | shingles.go:32-34 | one empty window is opened at the end; result and seen set unchanged |
| Shingles.Shingler.AppendWord | shingles.go:36-71 | the word is added to every open window; windows reaching 3 words are closed, the rest keep their order; closed windows are emitted joined by spaces, each only if not seen before |
| Shingles.ReadWords | shingles.go:80-87 | after the words of a line the shingler is in the state of the whole word stream read so far |
| Shingles.ReadWord | shingles.go:82-86 | a stop word opens a window before the punctuation-stripped word is appended |
| Shingles.ShingleStep | shingles.go:81-87 | one word moves the windows and the result from the reference state of a prefix to that of the prefix plus the word |
| Shingles.Shingle | shingles.go:75-91 | the result equals the reference: three-word runs starting at a stop word, in completion order, deduplicated |
| Shingles.JoinThree | shingles.go:53 | a completed window is emitted as its three words joined by single spaces |
| Shingles.ShingleMembers | shingles.go:73-91 | a string is emitted iff it is three consecutive words of the stream starting with a stop word |
| Shingles.ShingleSound | shingles.go:73-91 | every emitted shingle is a stop word followed by the next two words |
| Shingles.ShingleComplete | shingles.go:73-91 | every stop word followed by two more words yields an emitted shingle |
| Shingles.ShingleFound | shingles.go:73-91 | an emitted shingle has a position in the word stream where it starts |
| Shingles.ShingleEmitted | shingles.go:73-91 | a stop-word run at any position is emitted |
| Shingles.ShingleDistinct | shingles.go:55-58 | the result has no duplicates |
| Shingles.ShingleOrder | shingles.go:55-58 | the result lists the completed windows in order of first completion |
| Shingles.ShingleWithoutStopWords | shingles.go:83-86 | text without stop words yields no shingles |
| Shingles.KShingle | shingles.go:94-145 | the result equals the reference: every run of `k` characters of the punctuation-free stream, in completion order, deduplicated |
| Shingles.WriteChar | shingles.go:105-140 | one character opens a window, extends every window, emits the completed ones once and drops them |
| Shingles.CharsNoPunctuation | shingles.go:102-104 | punctuation never enters the character stream that windows read |
| Shingles.KShingleMembers | shingles.go:94-145 | a string is emitted iff it is a run of `k` consecutive stream characters |
| Shingles.KShingleSound | shingles.go:121-128 | every emitted shingle is a run of `k` consecutive stream characters |
| Shingles.KShingleComplete | shingles.go:121-128 | every run of `k` characters, across line ends, is emitted |
| Shingles.KShingleShape | shingles.go:121-128 | every shingle has exactly `k` characters, none of them punctuation, and there are no duplicates |
| Hash.GoRem | hash.go:110-111 | Go's `%`: magnitude below the divisor's, sign of the dividend |
| Hash.GoDivision | hash.go:110-111 | Go's quotient and remainder recompose the dividend |
| Hash.GoRemNatural | hash.go:110-111 | for natural operands Go's remainder is the mathematical one |
| Hash.ToOdd | hash.go:146-148 | `toOdd` is always odd |
| Hash.RandSign | hash.go:150-156 | the result is `k` or `-k`, `k` exactly when the draw was 0 |
| Hash.SlotPatternX | hash.go:44-61 | slot 3n+1 holds PatternX(1, 0) for n = 0, else PatternX(toOdd(i), ±i/2) |
| Hash.SlotMaxInt | hash.go:64-81 | slot i ≡ 2 (mod 3) holds MaxInt(1) for i = 2, else MaxInt(toOdd(i-1)) |
| Hash.SlotBitShift | hash.go:84-103 | slot i ≡ 0 (mod 3), i ≥ 3, holds BitShift(1 or toOdd(i-2), (i-2)/2) |
| Hash.SlotHasher | hash.go:37-103 | slot 0 alone is Modulus; every later multiplier is odd; families by position mod 3; PatternX coefficient ±i/2; BitShift ander (i-2)/2 |
| Hash.PlaceStep | hash.go:56-60 | the next slot's hasher is not yet seen, so it is placed and added to the seen set |
| Hash.SlotHashersDistinct | hash.go:56-60 | the hashers of two different slots differ, so the duplicate check never fires |
| Hash.PatternXPass | hash.go:44-61 | the PatternX pass fills slots 1, 4, 7, … and records them as seen |
| Hash.MaxIntPass | hash.go:64-81 | the MaxInt pass fills slots 2, 5, 8, … and records them as seen |
| Hash.BitShiftPass | hash.go:84-103 | the BitShift pass fills slots 3, 6, 9, … and records them as seen |
| Hash.GenerateHashers | hash.go:32-106 | `amount` slots, every one filled, slot `j` with the hasher its position prescribes |
| Hash.PatternXExamplesOne | hash.go:117-124 | PatternX(1,1) maps 0..4 to 1,2,3,4,0 with 5 buckets |
| Hash.PatternXExamplesThree | hash.go:117-124 | PatternX(3,1) maps 0..4 to 1,4,2,0,3 with 5 buckets |
| Hash.Eval | hash.go:109-144 | every hasher's value is smaller in magnitude than `numBuckets`: Go's `%` keeps the sign of the dividend |
| Hash.ModulusBucket | hash.go:109-114 | Modulus of a natural row is `x % numBuckets`, in [0, numBuckets) |
| Hash.MaxInt32Mask | hash.go:130 | `x & math.MaxInt32` is `x` modulo 2^31, in [0, MaxInt32] |
| Hash.MaxIntBucket | hash.go:127-134 | a MaxInt hasher with a natural multiplier maps a natural row into [0, numBuckets) |
| Hash.BitShiftBound | hash.go:137-144 | a BitShift hasher's value lies in [0, ander] |
| Hash.NegativeHashExample | hash.go:117-124 | when the first draw is not 0, slot 4 is PatternX(9, -2), which sends row 0 to -2 |
| Matrices.Falses | minhash.go:78 | `make([]bool, n)`: `n` false slots |
| Matrices.ToSetsMatrix | minhash.go:66-91 | setsNum is the number of sets; rowsNum the number of distinct shingles; keys are all shingles; slot c of a vector is true iff the shingle is in set c |
| Matrices.MarkStep | minhash.go:76-82 | marking one more shingle extends the keys and the presence facts by that shingle |
| Common.CollectKeys | minhash.go:99-104 | the keys of the map, each once, in some order |
| Ordering.SortStrings | minhash.go:105 | the keys sorted lexicographically, a permutation of the input |
| Ordering.SortedKeysProperties | minhash.go:99-105 | the sorted keys are strictly increasing and are exactly the key set |
| Ordering.SortedIsSortedKeys | minhash.go:99-105 | sorting the collected keys gives the same sequence whatever order the map yielded |
| Matrices.CopyRow | minhash.go:110-113 | a row is the vector copied into `setsNum` false slots |
| Matrices.WidenRows | minhash.go:108-114 | row i is the widened vector of the i-th key |
| Matrices.Compact | minhash.go:99-119 | dimensions kept; row i is the vector of the i-th key in sorted order |
| Matrices.ToSetsComputeMatrix | minhash.go:95-120 | rowsNum rows of setsNum cells; cell (i, c) is true iff the i-th shingle in sorted order is in set c |
| Matrices.RowsPresence | minhash.go:107-114 | rows built from presence vectors are presence rows of the sorted keys |
| Matrices.RenderRow | minhash.go:29-38 | a row renders as its cells as "1"/"0" joined by "," |
| Matrices.Render | minhash.go:26-44 | the matrix renders as its rows joined by newlines, with no trailing separator |
| Matrices.RowTextAt | minhash.go:29-38 | the text of a row has 2n-1 characters: cell k at position 2k, commas between |
| Matrices.RenderExample | minhash.go:26-44 | the first two rows of the test matrix render as "1,0,0,1\n0,0,1,0" |
| MinHash.Undefined | minhash.go:137-140 | a fresh signature row of `setsNum` undefined cells |
| MinHash.LowerColumn | minhash.go:144-152 | for one present cell, every hasher's running minimum of that column is lowered to the row's hash; other cells unchanged |
| MinHash.LowerRow | minhash.go:143-153 | after a row, every cell is the minimum over the rows seen so far |
| MinHash.MinhashCompute | minhash.go:135-154 | cell (i, c) is the least hash of hasher i over the rows present in column c, undefined if none |
| MinHash.ColumnIsOccurs | minhash.go:129 | a column of the compute matrix marks the sorted shingles that the set holds |
| MinHash.MinhashWithHashers | minhash.go:128-157 | one row per hasher, one cell per set; cell (i, c) is the least hash of the sorted rows of set c's shingles |
| MinHash.Minhash | minhash.go:123-125 | the same signature with the generated hashers |
| MinHash.MinOverNone | minhash.go:139-150 | a cell stays undefined iff its column has no present row |
| MinHash.MinOverLeast | minhash.go:145-150 | a cell is at most the hash of every present row |
| MinHash.MinOverAttained | minhash.go:145-150 | a defined cell equals the hash of some present row |
| MinHash.UndefinedIffEmpty | minhash.go:139-153 | a signature cell is undefined iff the set has no shingles |
| MinHash.SimpleAllShingles | lsh_test.go:14-19 | the shingles of the four example sets are exactly a, b, c, d, e |
| MinHash.SimpleSortedKeys | lsh_test.go:14-19 | the shingles of the four example sets are a, b, c, d, e, and that is their sorted order |
| MinHash.SimpleColumns | minhash_test.go:70-85 | each example set, read against the sorted shingles, gives the column the test expects |
| MinHash.ExampleColumns | minhash_test.go:70-85 | the columns of the 5×4 example matrix |
| MinHash.SimpleRows | minhash_test.go:70-101 | any rows that mark the sorted shingles per example set are exactly the expected matrix |
| MinHash.SimpleComputeMatrix | minhash_test.go:68-102 | `ToSetsComputeMatrix` of the example sets is the expected 5×4 matrix, rowsNum 5, setsNum 4 |
| MinHash.ExampleSignatureOne | minhash_test.go:114-125 | PatternX(1,1) gives the signature row 1,3,0,1 on the example |
| MinHash.ExampleSignatureThree | minhash_test.go:114-131 | PatternX(3,1) gives the signature row 0,2,0,0 on the example |
| MinHash.SimpleSignature | minhash_test.go:114-131 | least hashes of the example columns under PatternX(1,1) and PatternX(3,1) form the signature 1,3,0,1 / 0,2,0,0 |
| MinHash.SimpleMinhash | minhash_test.go:104-131 | `MinhashWithHashers` of the example sets with PatternX(1,1) and PatternX(3,1) is the signature 1,3,0,1 / 0,2,0,0 |
| Stores.NewCandidatePair | lsh.go:17-32 | A ≤ B, {A, B} = {a, b}, Elections 1, key of (A, B) |
| Stores.NewCandidatePairSymmetric | lsh.go:17-32 | the pair does not depend on argument order |
| Stores.PairsAfterPut | lsh.go:40-47 | the normalised key is created with 1 or incremented by 1; no other entry changes; entries stay well keyed |
| Stores.CandidatePairs.constructor | lsh.go:231 | an empty index |
| Stores.CandidatePairs.Put | lsh.go:40-47 | the index is that after the put: the normalised key gains one election, nothing else changes |
| Stores.CandidatePairs.Keys | lsh.go:50-56 | every key once, in some order |
| Stores.PairsIndexCount | lsh.go:40-47 | after any list of puts, each key's elections count the puts of either order of that pair |
| Stores.KeyCount | lsh.go:40-47 | the count of key (a, b) is the count of (a, b) plus that of (b, a) |
| Stores.AdjacencyAfterPut | lsh.go:111-122 | only `Index[a][b]` changes: created with Elections 1 or incremented; store stays well filed |
| Stores.Candidates.constructor | lsh.go:207 | an empty index |
| Stores.Candidates.Put | lsh.go:111-122 | the index is that after the put: `Index[a][b]` gains one election, nothing else changes |
| Stores.AdjacencyIndexCount | lsh.go:111-122 | after any list of puts, `Index[a][b]` exists iff (a, b) was put, and its Elections count those puts |
| Stores.Candidates.GetByKey | lsh.go:125-136 | empty for an absent key; otherwise exactly the inner map's values, each once |
| Stores.ListedValues | lsh.go:129-132 | listing the inner map along its keys lists each value |
| Stores.InsertByElectionsSorted | lsh.go:142-144 | inserting keeps non-increasing Elections and adds the element to the multiset |
| Stores.SortByElections | lsh.go:142-144 | the result is ordered by non-increasing Elections and is a permutation of the input |
| Stores.Candidates.GetByKeySorted | lsh.go:140-146 | the values of `GetByKey`, each once, in non-increasing Elections |
| Lsh.Wrap64 | lsh.go:176 | 64-bit wrap-around: a value in [-2^63, 2^63) |
| Lsh.HashCongruence | lsh.go:176 | wrapping the running hash before a step does not change the wrapped result |
| Lsh.Masked | lsh.go:176 | `int(v) & math.MaxInt32` is in [0, MaxInt32], the cell modulo 2^31 |
| Lsh.VectorHash | lsh.go:174-177 | the looped hash is always a signed 64-bit value |
| Lsh.VectorHashIsPoly | lsh.go:174-177 | the looped 64-bit hash is the polynomial hash in base 31 wrapped once |
| Lsh.PolyHashNatural | lsh.go:174-177 | the polynomial hash of masked cells is never negative |
| Lsh.BucketOf | lsh.go:184 | the bucket is in [0, numBuckets) |
| Lsh.BucketOfMagnitude | lsh.go:184 | the bucket is the magnitude of the hash modulo numBuckets, equal for `h` and `-h` |
| Lsh.BandBuckets.constructor | lsh.go:161-169 | `bands` bands of `buckets` empty buckets each |
| Lsh.BandBuckets.HashToBucket | lsh.go:172-202 | returns the vector's hash and its bucket; appends exactly one address to that bucket; every other bucket unchanged |
| Lsh.BandBuckets.FindCandidates | lsh.go:206-226 | the store is the fold of all in-bucket puts, both orders; it counts them per ordered pair |
| Lsh.BandBuckets.FindCandidatePairs | lsh.go:230-250 | the store is the fold of all in-bucket puts; it counts them per unordered key |
| Lsh.PutBucket | lsh.go:211-221 | one bucket puts every pair i < j in both orders; buckets under two sets put nothing |
| Lsh.PutBand | lsh.go:210-222 | one band puts the pairs of all its buckets in order |
| Lsh.PutBucketPairs | lsh.go:235-245 | the same for the pair store |
| Lsh.PutBandPairs | lsh.go:234-246 | the same for the pair store |
| Pairs.BucketPutsCount | lsh.go:216-221 | in a bucket of distinct sets, each ordered pair of its sets is put once |
| Pairs.PairPutsNoSelf | lsh.go:216-221 | no set is paired with itself when the bucket has no repeats |
| Lsh.AllPutsCount | lsh.go:210-223 | with distinct sets per bucket, (a, b) is put once per bucket holding both |
| Lsh.AllPutsNoSelf | lsh.go:210-223 | no set is ever put with itself |
| Lsh.AllPutsMirrored | lsh.go:216-221 | (a, b) is put exactly as often as (b, a) |
| Lsh.Rows | lsh.go:258 | the rows per band times the bands fit in the signature |
| Lsh.Offset | lsh.go:268-269 | band b reads rows [b·R, (b+1)·R), inside the first bands·R rows |
| Lsh.BandVector | lsh.go:267-279 | a set's band vector is its column over the band's rows |
| Lsh.BucketOfSet | lsh.go:284-285 | a set's bucket in a band is in [0, numHashes) |
| Lsh.BucketTable | lsh.go:254-290 | one row per band, one bucket per set, each the bucket of the set's band vector |
| Lsh.BandVectors | lsh.go:267-279 | every set's band vector is built from the band's rows only |
| Lsh.AppendRow | lsh.go:276-278 | one row is appended to every set's vector |
| Lsh.HashStep | lsh.go:284-285 | hashing set i puts its address at the end of the bucket the table names |
| Lsh.HashBand | lsh.go:284-286 | a band ends up with each set in the bucket of its band vector, in set order; other bands unchanged |
| Lsh.LSH | lsh.go:254-290 | `bands` bands of numHashes buckets; each band holds every set once, in its table bucket |
| Lsh.LayoutPlacement | lsh.go:254-290 | set s is in bucket k of band b iff the table puts it there; addresses carry their band |
| Lsh.LayoutDistinct | lsh.go:254-290 | no bucket holds a set twice |
| Lsh.Agreements | lsh.go:254-290 | the number of bands where two sets share a bucket is at most the number of bands |
| Lsh.AgreementsSymmetric | lsh.go:254-290 | that number is symmetric in the two sets |
| Lsh.LayoutShared | lsh.go:254-290 | the buckets two sets share are the bands where their buckets agree |
| Lsh.LayoutPuts | lsh.go:206-226 | (x, y) is put once per agreeing band for two distinct sets, never otherwise |
| Lsh.CandidatesOfLayout | lsh.go:206-226 | `Index[x][y]` exists iff x ≠ y agree in some band; its Elections are the agreeing bands; the store is symmetric |
| Lsh.PairsOfLayout | lsh.go:230-250 | key "x_y" exists iff x < y agree in some band; Elections are twice the agreeing bands; no "x_x" key |
| Lsh.SameBucket | lsh.go:172-184 | equal band vectors hash to the same bucket |
| Lsh.IdenticalColumnsAgree | lsh.go:172-184 | identical signature columns share a bucket in every band |
| Lsh.IdenticalCandidates | lsh.go:206-226 | two sets with identical signature columns are each other's candidate with Elections equal to the number of bands |
| Stores.AdjacencyIndexFilled | lsh.go:111-122 | a set number is filed only together with a candidate: `Put` creates the adjacency map of `a` and fills it in the same call |
| LshExamples.TwoKeys | lsh_test.go:23-27 | two different sentences, each a single shingle, give exactly two shingles; their sorted order is one of the two orders |
| LshExamples.DocumentColumns | lsh_test.go:23-27 | over the two sorted shingles, documents 0 and 2 mark the same row and document 1 marks the other row |
| LshExamples.TwoRowHashes | hash.go:37-103 | with two buckets, the first five generated hashers send row 0 to 0 and row 1 to 1, 1, 0, 0, 1, whatever the random draw |
| LshExamples.EqualDocumentsColumns | minhash.go:128-157 | in `Minhash(docs, 5)`, documents 0 and 2 have the same column, the band vector of their row; document 1 has the other band vector |
| LshExamples.RowVectorBuckets | lsh.go:172-202 | of five buckets, the all-zero band vector hashes to bucket 0 and 1, 1, 0, 0, 1 (hash 953313) to bucket 3 |
| LshExamples.ColumnBuckets | lsh.go:254-290 | with one band, those columns put documents 0 and 2 in one bucket and document 1 in another |
| LshExamples.EqualDocumentsTable | lsh_test.go:29 | the signature of the tests is a valid `LSH` input with one band, and its bucket table separates document 1 from 0 and 2 |
| LshExamples.OneBandCandidate | lsh.go:206-226 | with one band, y is a candidate of x, with one election, exactly when x ≠ y share the bucket |
| LshExamples.OneBandPair | lsh.go:230-250 | with one band, key "x_y" is present, with two elections, exactly when x < y share the bucket; no "x_x" key |
| LshExamples.FiledSets | lsh_test.go:30-35 | sets 0 and 2 are filed in the store, and set 1 is not |
| LshExamples.OnlyCandidate | lsh_test.go:35-41 | a set whose bucket holds exactly one other set has that set as its only candidate, with one election |
| LshExamples.EqualDocumentsCandidates | lsh_test.go:30-41 | `Index` has keys 0 and 2 only; `Index[0]` is {2: one election} and `Index[2]` is {0: one election} |
| LshExamples.EqualDocumentsPairs | lsh_test.go:52-59 | the pair store holds exactly key "0_2", with A 0, B 2 and two elections |
| LshExamples.EqualDocumentsBuckets | lsh_test.go:29 | `LSH(Minhash(docs, 5), 1)` is one band laid out by a table that separates document 1 from 0 and 2 |
| LshExamples.EqualCandidates | lsh_test.go:22-42 | `GetByKey(0)` is [Candidate 2, one election], `GetByKey(2)` is [Candidate 0, one election], and `GetByKey(1)` is empty |
| LshExamples.EqualCandidatePairs | lsh_test.go:44-60 | `FindCandidatePairs` gives a store whose only entry is "0_2", with A 0 and B 2 |
| Similarity.Intersection | similarity.go:24-41 | the intersection of the two sets, whichever set is looped over |
| Similarity.Jaccard | similarity.go:4-22 | the ratio (size of the intersection, size of the union) of the element sets |
| Similarity.JaccardRatio | similarity.go:4-22 | the numerator never exceeds the denominator; the denominator is 0 iff both inputs are empty |
| Similarity.JaccardSymmetric | similarity.go:4-22 | the ratio is symmetric |
| Similarity.JaccardOfElements | similarity.go:10-19 | only the element sets matter |
| Similarity.JaccardRepeats | similarity.go:10-19 | repeating an input does not change the ratio |
| Similarity.JaccardIdentical | similarity_test.go:10 | identical non-empty inputs give a ratio of 1 |
| Similarity.JaccardExamples | similarity_test.go:10-11 | ["a","b"] vs itself is 2/2; vs ["a"] is 1/2 |
| Search.WithDefaults | search.go:50-59 | at least one hasher, a non-zero band count and an index; set fields are kept, unset ones take 100 generated hashers, 20 bands and the empty matrix |
| Search.LastBandsNumWins | search.go:46-48 | the last `BandsNum` option decides the band count |
| Search.LastIndexWins | search.go:46-48 | the last `Index` option decides the index |
| Search.LastHashersWins | search.go:46-48 | the last `Hashers` option decides the hashers when no later option sets them |
| Search.NoBandsNum | search.go:54-56 | without a `BandsNum` option the count is 0 and becomes 20 |
| Search.ConfiguredPresent | search.go:5-17 | options giving only filled hasher slots leave only filled slots |
| Search.NoOptions | search.go:42-62 | no options: 100 generated hashers, 20 bands, the matrix of no documents |
| Search.Search.ApplyOption | search.go:5-31 | each option sets its one field; `HashersNum` generates hashers from the next random draws |
| Search.Search.NewSearch | search.go:42-62 | the fields are those of the options applied in order, then the defaults |
| Search.Clone | search.go:81 | the copy has the same shingles, the same row count and the same set count |
| Search.CloneVectors | search.go:81 | every vector of the copy keeps the original cells and gains one false slot at the end |
| Search.CloneIsEmptyExtension | search.go:81-83 | the copy's vectors are those of the matrix extended by a query without shingles |
| Search.Extended | search.go:80-96 | the result has one more set, the same row count, and the shingles of the index and of the query as keys |
| Search.ExtendedColumns | search.go:80-96 | the copy has setsNum + 1 sets and the same rowsNum; the query's column holds exactly its shingles; earlier columns keep their cells, false for new shingles |
| Search.ExtendedIsAppended | search.go:80-96 | re-indexing the matrix of `docs` with `q` gives the matrix of `docs + [q]` |
| Search.ExtendedMapSnoc | search.go:84-94 | one more query shingle sets its query slot and changes no other vector |
| Search.ReIndexStep | search.go:86-93 | a shingle new to the copy gets setsNum + 1 false slots before its query slot is set |
| Search.Search.ReIndex | search.go:80-96 | the result is the index with the query as set number `setsNum`; the stored index is untouched |
| Search.SignatureRow | search.go:68 | one cell per set |
| Search.SignatureOf | search.go:68 | one row per hasher, one cell per set |
| Search.MinhashSetsMatrix | search.go:68 | the signature of the sets matrix, compacted in sorted-key order |
| Search.SameColumnsSameSignature | search.go:68 | two sets with the same shingles have the same signature column |
| Search.SignatureTable | search.go:68-69 | the bucket table of `LSH` over the signature: one row per band, one bucket per set |
| Search.QueryDuplicateAgrees | search.go:65-70 | a stored set holding exactly the query's shingles shares the query's bucket in every band |
| Search.FoundIndexCount | search.go:70 | the store `Find` returns counts, for each ordered pair, the buckets the two share |
| Search.CandidatesOf | search.go:68-70 | `FindCandidates` over `LSH` of the signature of the re-indexed matrix |
| Search.Search.FindShingles | search.go:67-70 | the candidates of the index extended by the shingles, over its bucket table |
| Search.Search.Find | search.go:65-77 | the candidates of the index extended by the query's shingles, over its bucket table |

## Left out

- Stop words come from an external library. `isStop` is a parameter, standing for `stopwords.IsStopWord(strings.ToLower(w))`.
- The `Shingle` tests of shingles_test.go and the `Test_LSH_similar*` tests of lsh_test.go are not restated. Their expected outputs depend on the stop-word list of the external library. The two `Test_LSH_equal*` tests use each sentence as a single shingle, so `LshExamples` restates them. The sentences are arbitrary distinct strings rather than the test's literals, whose length alone would exhaust a proof's resource budget.
- The `KShingle` tests of shingles_test.go are not restated: 115 nine-character shingles of a 124-character sentence, and 41 of a sentence said twice. The solver cannot afford them. Even the length of one such string literal uses most of the resource budget of a proof, and the counts need every pair of windows shown distinct. `KShingleMembers` and `KShingleShape` state in general what those tests check: which runs are shingles, that each holds k characters, and that none repeats.
- Shingles.KShingle: window length is counted in characters (runes). The source compares `strings.Builder.Len()`, a byte count, so the two agree only on ASCII text.
- The regular expression engine is not modelled. `[.,:;?!]+` is the character predicate `IsPunctuationMark`, and replacing its runs by "" is removing each such character.
- `math/rand` is an oracle: `randZero(d)` says whether the d-th draw of `rand.Intn(2)` was 0. Search passes `rand(k)` for its k-th `GenerateHashers` call.
- Hash.Eval: hasher arithmetic is unbounded. The 64-bit wrap-around of `multiplier*x` and of `multiplier*x + coefficient` is not modelled. For generated hashers it never occurs: row numbers times the generated multipliers stay far below 2^63. Hashers passed in through the `Hashers` option (search.go:6-10), for example built by `NewPatternX` with arbitrary parameters, can overflow in Go. They are evaluated without wrap-around as well.
- A hasher's text (`fmt.Sprintf`) is the hasher datatype itself, which is injective on family and parameters, as the text is. Likewise a pair key is the pair (A, B), not "A_B".
- Floating point is replaced by integers:
  - a NaN signature cell is `None`;
  - `int(NaN)` in the bucket hash is platform-defined and is the parameter `nanValue`;
  - `math.Abs` over a float of an int is an integer magnitude;
  - Jaccard's final division is left to the caller as a numerator and a denominator;
  - `SignatureMatrix.String` (`%.0f` formatting) is not modelled.
- Similarity.Jaccard: two empty inputs give the ratio 0/0 (denominator 0), where Go returns NaN.
- Go map iteration order is not modelled. Keys are collected in an unspecified order. Results that depend on that order (`Keys`, `GetByKey`) are specified as sets without repeats.
- `sort.Sort` and `sort.Strings` are modelled by insertion sort. Only the sortedness and permutation of the result are claimed. Ties in `GetByKeySorted` are in no particular order.
- `SetsMatrix.Clone` and `minhashSetsMatrix` are defined in a file of the package that this model does not cover:
  - `Clone` is taken to copy the matrix deeply with one more, false, slot on every vector;
  - `minhashSetsMatrix` is taken to compact the matrix in sorted-key order with the row count taken from the map, and to run the MinHash loops over it.
- Search.Search.ReIndex: rowsNum is left unchanged, as in the source, even when the query adds shingles. The row count used for hashing comes from the map, as assumed for `minhashSetsMatrix`.
- Search.Search.Find: the candidates are specified by their store, via `FoundIndex`. Their meaning follows from the lemmas `FoundIndexCount`, `Lsh.CandidatesOfLayout` and `Search.QueryDuplicateAgrees`. These are stated separately, not as one lemma about the query table.
- Pointers and aliasing of `*Candidate` and `*CandidatePair` are not modelled: stores hold values.
- The CLI and the example programs (stdin, printing) are I/O and are not part of this model.
