# protovoc in Dafny

A model of protovoc's word vocabulary and its two frozen indices, with proofs of
their properties.

- `Vocab` (protovoc/vocab/basic.py) counts words. It gives specials and unk an
  infinite count and prunes with `strip`.
- The numpy `Numericalization` (protovoc/numericalization/numpy.py) sorts a
  vocabulary by count into ranks:
  - `i2s`: rank to word;
  - `s2i`: word to rank;
  - `cts`: the count at each rank.

  `integer` and `string` look words and ranks up. `sentence` decodes an
  n-dimensional array of ranks along one axis into strings: each lane stops at
  its first terminator, and its words are joined by single spaces. `strip` cuts
  the index to a prefix of the ranks.
- The numba `Numericalization` (protovoc/numericalization/numba.py) builds the
  same index but moves unk to the last rank of the reserved block. A rank is a
  terminator when it lies below the threshold `_cutoff`. The running "seen a
  terminator" mask comes from an explicit loop over blocks of the flattened
  array (`_isin_cumsum_ge0_stepped`), which `le_or_after` reaches for any axis.

Modules, one per file:

- `Counts`: counts as Python numbers, finite or infinite, and limits that
  default to infinity.
- `Wrappers`: Option, Result and the exceptions that escape.
- `Seqs`: inverse index of a sequence, joining, the running flag.
- `Ranking`: the order `Counter.most_common` produces.
- `BasicVocab`: `Counter` as a value, `Vocab` as a class that replaces it.
- `Frozen`: the frozen index and the arithmetic of `strip`.
- `Interfaces`: the `integer`/`string` lookup objects.
- `NdArrays`: row-major arrays and their lanes along an axis.
- `Decoding`: the rendering both `sentence` methods share.
- `NumpyNumericalization` and `NumbaNumericalization`: the two classes.

Arrays are sequences in row-major order. Where the source changes state, the
model is imperative: classes with fields that methods reassign, and loops over
an `array` for the writes into `strs` and into the numba mask. Lookups and
queries are functions.

## Model

| member | source | states |
|---|---|---|
| `BasicVocab.Without` | protovoc/vocab/basic.py:43 | deleting a key removes exactly that word from the key order and keeps the others distinct and in order; deleting an absent word changes nothing |
| `BasicVocab.Frequent` | protovoc/vocab/basic.py:56-58 | the filtered words are exactly those whose count reaches min_freq, distinct, in their original order; when every word qualifies the list is unchanged |
| `BasicVocab.Counter.Add` | protovoc/vocab/basic.py:30-34 | add keeps the counter well formed (its effect is stated by AddCounts) |
| `BasicVocab.Counter.Uncount` | protovoc/vocab/basic.py:40-43 | uncount keeps the counter well formed (its effect is stated by UncountCounts) |
| `BasicVocab.Counter.AddAll` | protovoc/vocab/basic.py:36-38 | adding a sequence of words one after another keeps the counter well formed |
| `BasicVocab.Counter.UncountAll` | protovoc/vocab/basic.py:45-47 | uncounting a sequence of words one after another keeps the counter well formed |
| `BasicVocab.Counter.TopWords` | protovoc/vocab/basic.py:50-54 | the words strip starts from (most_common when the bound is below the size, all items otherwise) are distinct counted keys |
| `BasicVocab.Counter.Stripped` | protovoc/vocab/basic.py:49-58 | the counter strip builds is well formed |
| `BasicVocab.AddCounts` | protovoc/vocab/basic.py:30-34 | add sets an absent word to 1 and raises a present one by exactly 1; every other word keeps its count; only a new word is appended to the order |
| `BasicVocab.UncountCounts` | protovoc/vocab/basic.py:40-43 | uncount lowers the word by 1 and deletes it exactly when its count was 1, taking it out of the key order; an absent word is appended with count -1; other words are untouched |
| `BasicVocab.AddThenUncount` | protovoc/vocab/basic.py:30-43 | uncount undoes add, except on a word stored at count 0 |
| `BasicVocab.AddRepeated` | protovoc/vocab/basic.py:30-38 | k adds of an absent word put it last in the order with count k |
| `BasicVocab.UncountRepeated` | protovoc/vocab/basic.py:40-47 | j uncounts of a word at count k > j leave it at k - j |
| `BasicVocab.UncountLastOne` | protovoc/vocab/basic.py:40-43 | uncounting a last-added word at count 1 gives back the counter it was added to |
| `BasicVocab.RemovalToZero` | protovoc/vocab/basic.py:30-47 | k adds of a new word followed by k uncounts give back the original counter, without the word |
| `BasicVocab.StripKept` | protovoc/vocab/basic.py:49-58 | strip keeps a word exactly when it reaches min_freq and is among the first n_to_keep of most_common (or the bound is not below the size); kept counts are unchanged |
| `BasicVocab.StripByFrequency` | protovoc/vocab/basic.py:54-58 | with no size bound strip keeps exactly the words reaching min_freq, in insertion order |
| `BasicVocab.StripRankClosed` | protovoc/vocab/basic.py:50-58 | a word with a higher count than a kept word, or the same count and earlier insertion, is kept too: ties at the cut go by insertion order |
| `BasicVocab.RankedTopClosed` | protovoc/vocab/basic.py:52 | the first n of most_common are closed under "listed before" |
| `BasicVocab.StripSize` | protovoc/vocab/basic.py:50-58 | when every count reaches min_freq, strip keeps min(bound, size) words |
| `BasicVocab.StripKeepsInfinite` | protovoc/vocab/basic.py:50-58 | when the bound leaves room for every infinite-count word, each one survives strip with count inf, whatever min_freq is |
| `BasicVocab.InfRankedTop` | protovoc/vocab/basic.py:52 | an infinite-count word lies within the first n of most_common when n is at least the number of infinite-count words |
| `BasicVocab.StripNoop` | protovoc/vocab/basic.py:50-58 | a bound not below the size and a min_freq every count reaches leave the counter unchanged |
| `BasicVocab.StripIdempotent` | protovoc/vocab/basic.py:49-58 | stripping twice with the same arguments equals stripping once |
| `BasicVocab.Vocab.constructor` | protovoc/vocab/basic.py:14-25 | the specials and a truthy unk are exactly the keys, each with count inf |
| `BasicVocab.Vocab.Len` | protovoc/vocab/basic.py:27-28 | len is the number of counted words |
| `BasicVocab.Vocab.Contains` | protovoc/vocab/basic.py:9-10 | `w in vocab.string` holds exactly for counted words |
| `BasicVocab.Vocab.Add` | protovoc/vocab/basic.py:30-34 | the counter becomes Counter.Add of the old one, and specials stay the only infinite counts |
| `BasicVocab.Vocab.Uncount` | protovoc/vocab/basic.py:40-43 | the counter becomes Counter.Uncount of the old one; specials stay at inf |
| `BasicVocab.Vocab.AddIterable` | protovoc/vocab/basic.py:36-38 | the loop leaves the counter at AddAll of the words |
| `BasicVocab.Vocab.UncountIterable` | protovoc/vocab/basic.py:45-47 | the loop leaves the counter at UncountAll of the words |
| `BasicVocab.Vocab.Strip` | protovoc/vocab/basic.py:49-63 | with minimal the counter becomes Stripped with the bound raised by the reserved words, which all survive; without minimal NameError is raised and nothing changes |
| `Ranking.Insert` | protovoc/vocab/basic.py:52 | inserting after every word of at least the same count adds exactly that word |
| `Ranking.SortDesc` | protovoc/vocab/basic.py:52 | most_common's sort is a permutation of the keys |
| `Ranking.SortDescRanked` | protovoc/vocab/basic.py:52 | the sort lists words by count descending, equal counts in insertion order |
| `Ranking.InsertRanked` | protovoc/vocab/basic.py:52 | inserting the last-inserted word into a ranked list keeps it ranked |
| `Ranking.RankedExtend` | protovoc/vocab/basic.py:52 | a ranking of all keys but the last stays a ranking over all keys |
| `Ranking.InsertedBeforeLast` | protovoc/vocab/basic.py:52 | every word of a ranking of the earlier keys was inserted before the last key |
| `Ranking.RankedDistinct` | protovoc/vocab/basic.py:52 | a ranked list has no repetitions |
| `Ranking.RankedInfPrefix` | protovoc/vocab/basic.py:52 | every word ranked before an infinite-count word has infinite count |
| `Ranking.RankedPrefixClosed` | protovoc/vocab/basic.py:52 | a word ranked before one of the first n is among the first n |
| `Ranking.RankedInfWithin` | protovoc/vocab/basic.py:52 | when only reserved words have infinite count, each sits within the first \|reserved\| places |
| `Seqs.IndexMap` | protovoc/numericalization/numpy.py:54 | `{s: i for i, s in enumerate(i2s)}` has exactly the words as keys and inverts indexing in both directions |
| `Seqs.IndexMapPrefix` | protovoc/numericalization/numpy.py:96 | the inverse of a prefix agrees with the inverse of the whole and holds exactly the words ranked below the cut |
| `Seqs.IndexMapSwap` | protovoc/numericalization/numba.py:94-97 | exchanging two words exchanges their ranks in the inverse and leaves the others |
| `Seqs.IndexMapUnique` | protovoc/numericalization/numba.py:94-97 | a map that sends each word to its position and has no other keys is the inverse |
| `Seqs.SwapMultiset` | protovoc/numericalization/numba.py:97 | the exchange is a permutation |
| `Seqs.ReversedPerm` | protovoc/numericalization/numpy.py:50 | `[::-1]` is a permutation and keeps a sequence free of repetitions |
| `Seqs.CumAnyFirstTrue` | protovoc/numericalization/numpy.py:63 | `cumsum() != 0` is set exactly from the first flagged position on |
| `Seqs.CumAnySeen` | protovoc/numericalization/numpy.py:63 | the running flag at i holds iff a flag at or before i is set |
| `Frozen.FreezeRanking` | protovoc/numericalization/numpy.py:49-54 | sorting by count gives a permutation of distinct words, counts non-increasing, the reserved words exactly on ranks 0 to \|reserved\|-1 |
| `Frozen.FreezeOrder` | protovoc/numericalization/numpy.py:49-53 | ordering by count descending, ties in reverse insertion order, permutes the vocabulary's words, keeps them distinct and counted |
| `Frozen.FreezeOrderRanked` | protovoc/numericalization/numba.py:78-82 | that order lists words by count descending and, among equal counts, the later-inserted word first |
| `Frozen.Freeze` | protovoc/numericalization/numpy.py:49-54 | `i2s` is the freeze order, and `cts`, `i2s`, `s2i` form an index of the vocabulary's words with each rank's count its word's count |
| `Frozen.RankedNonIncreasing` | protovoc/numericalization/numpy.py:50-52 | counts read along the ranking never increase |
| `Frozen.InfBlock` | protovoc/numericalization/numpy.py:50-52 | the infinite counts of a ranking form a prefix |
| `Frozen.InfBlockWords` | protovoc/numericalization/numpy.py:49-54 | that prefix is the reserved block, so the ranking is an index |
| `Frozen.InfPrefixReserved` | protovoc/numericalization/numpy.py:49-54 | the infinite prefix holds each reserved word once and has \|reserved\| entries |
| `Frozen.BisectLeft` | protovoc/numericalization/numpy.py:82 | bisect_left returns the number of entries below x in an ascending sequence |
| `Frozen.CountAtLeast` | protovoc/numericalization/numpy.py:82 | the number of counts at least m is at most the length |
| `Frozen.FreqEnough` | protovoc/numericalization/numpy.py:81-84 | n_freq_enough never exceeds the number of ranks |
| `Frozen.AtLeastPrefix` | protovoc/numericalization/numpy.py:82 | on falling counts the counts reaching m are exactly the first CountAtLeast |
| `Frozen.CountPrefix` | protovoc/numericalization/numpy.py:82 | a property that holds exactly on the first t counts is counted t |
| `Frozen.CountFreqEnough` | protovoc/numericalization/numpy.py:81-84 | bisecting the reversed counts yields n_freq_enough |
| `Frozen.KeptLength` | protovoc/numericalization/numpy.py:86-93 | strip never keeps more ranks than there are |
| `Frozen.KeptLengthMeaning` | protovoc/numericalization/numpy.py:81-93 | a rank is kept iff frequent enough and within n_to_keep + reserved (minimal) or either (not minimal) |
| `Frozen.KeptReserved` | protovoc/numericalization/numpy.py:86-93 | the reserved block is always kept |
| `Frozen.KeptIdempotent` | protovoc/numericalization/numpy.py:80-96 | stripping the kept prefix again keeps all of it |
| `Frozen.IndexedPrefix` | protovoc/numericalization/numpy.py:94-96 | cutting the index to a prefix covering the reserved block leaves an index in which every kept word keeps its rank |
| `Frozen.KeepCount` | protovoc/numericalization/numpy.py:81-93 | strip's arithmetic computes KeptLength |
| `Frozen.ReservedRanks` | protovoc/numericalization/numpy.py:57-58 | the ranks of reserved words are the ranks holding them; the whole reserved set has ranks 0 to \|reserved\|-1 |
| `Interfaces.IntOf` | protovoc/numericalization/numpy.py:28-36 | `integer[w]` is w's rank when w is indexed, else the unk rank; it raises KeyError exactly when w is unknown and there is no unk rank |
| `Interfaces.HasInt` | protovoc/numericalization/numba.py:39-40 | every negative rank is reported as contained |
| `Interfaces.StrOf` | protovoc/numericalization/numpy.py:12-16 | `string[r]` succeeds exactly for r in range, and returns i2s[r], or i2s[len + r] for negative r; out of range, the retry iterates over the integer and raises TypeError |
| `Interfaces.StrsOf` | protovoc/numericalization/numba.py:11-15 | `string[rs]` succeeds iff every rank is in range, element by element, and raises IndexError otherwise |
| `Interfaces.ContainsLookup` | protovoc/numericalization/numpy.py:12-41 | `w in string` iff w is a key of `s2i`; then `integer[w]` is a rank reported as contained whose `string` lookup is w |
| `Interfaces.IntsOf` | protovoc/numericalization/numpy.py:37-38 | `integer[ws]` succeeds iff every word does, element by element, and raises KeyError otherwise |
| `Interfaces.LookupRoundTrip` | protovoc/numericalization/numpy.py:12-38 | looking known words up and then their ranks gives the words back |
| `Interfaces.HasIntBelow` | protovoc/numericalization/numpy.py:40-41 | `r in integer` iff r < number of words, negative r included |
| `NdArrays.LayoutOf` | protovoc/numericalization/numpy.py:63-68 | the layout along an axis has that axis's length, the array's size, and as many lanes as the reduced shape has elements |
| `NdArrays.Layout.PosCoords` | protovoc/numericalization/numpy.py:65 | element j of lane b lies on lane b at index j along the axis |
| `NdArrays.Layout.CoordsPos` | protovoc/numericalization/numpy.py:65 | every position is element AxisCoord of lane LaneOf |
| `NdArrays.LanesDetermine` | protovoc/numericalization/numpy.py:68 | arrays of one layout with equal lanes are equal |
| `NdArrays.CumAnyAlongLanes` | protovoc/numericalization/numpy.py:63 | each lane of `cumsum(axis) != 0` is the running flag of that lane |
| `NdArrays.MovedRavelBlock` | protovoc/numericalization/numba.py:63-64 | after moving the axis last and flattening, block b is lane b |
| `NdArrays.RestoreLane` | protovoc/numericalization/numba.py:64-65 | reshaping and moving the axis back makes block b lane b |
| `Decoding.PiecesJoin` | protovoc/numericalization/numpy.py:63-68 | blanking from the first terminator on and concatenating the space-prefixed words is joining the words before the first terminator |
| `Decoding.DecodeSliceEnds` | protovoc/numericalization/numpy.py:63-68 | a slice starting with a terminator decodes to ""; one without any decodes to all its words joined |
| `Decoding.WriteWords` | protovoc/numericalization/numpy.py:64-67 | after the writes into `strs` each position holds its word, space-prefixed past index 0 along the axis, or "" where masked |
| `Decoding.PrefixSpaces` | protovoc/numericalization/numpy.py:65-66 | a space is put before exactly the elements at axis index 1 or more |
| `Decoding.BlankMasked` | protovoc/numericalization/numpy.py:67 | exactly the masked elements become "" |
| `Decoding.SumAlong` | protovoc/numericalization/numpy.py:68 | each output is its lane's strings concatenated in order |
| `Decoding.RenderAlong` | protovoc/numericalization/numpy.py:64-68 | each output is its lane's text under the mask |
| `Decoding.WrittenLane` | protovoc/numericalization/numpy.py:64-67 | lane b of the written array is the pieces of lane b |
| `Decoding.MaskedLaneText` | protovoc/numericalization/numpy.py:63-68 | under the running terminator mask a lane's text is the lane decoded up to its first terminator |
| `NumpyNumericalization.InSet` | protovoc/numericalization/numpy.py:63 | `np.isin` flags exactly the ranks in the set |
| `NumpyNumericalization.Numericalization.constructor` | protovoc/numericalization/numpy.py:45-60 | the index holds exactly the vocabulary's words with their counts, is coherent with the unk rank and special ranks, and sentences stop at specials and unk |
| `NumpyNumericalization.Numericalization.PermitUnk` | protovoc/numericalization/numpy.py:71-75 | the stop ranks become the specials' ranks (val) or the specials-with-unk ranks; nothing else changes |
| `NumpyNumericalization.Numericalization.Len` | protovoc/numericalization/numpy.py:77-78 | len is the number of ranks and of distinct words |
| `NumpyNumericalization.Numericalization.Sentence` | protovoc/numericalization/numpy.py:62-69 | an axis out of range raises AxisError, then a rank out of range IndexError; otherwise the result drops the axis and each entry is its lane decoded up to the first rank in spec_ints |
| `NumpyNumericalization.Numericalization.Strip` | protovoc/numericalization/numpy.py:80-102 | the index becomes its first KeptLength ranks, stays coherent, and unk and special ranks are unchanged |
| `NumpyNumericalization.Numericalization.Replace` | protovoc/numericalization/numpy.py:94-102 | installs the new index and unk rank and nothing else |
| `NumpyNumericalization.StripIndex` | protovoc/numericalization/numpy.py:94-101 | the cut index, rebuilt inverse and re-read unk rank are coherent and the unk rank is unchanged |
| `NumpyNumericalization.FreezeIndex` | protovoc/numericalization/numpy.py:49-58 | the built index, unk rank and special ranks are coherent and hold the vocabulary's words with their counts |
| `NumpyNumericalization.StripCoherent` | protovoc/numericalization/numpy.py:94-101 | a coherent index cut to a prefix covering the reserved block stays coherent with the same unk rank and special ranks |
| `NumpyNumericalization.StopRanks` | protovoc/numericalization/numpy.py:57-75 | the specials-with-unk ranks are exactly 0 to \|specials_w_unk\|-1; the specials' ranks are exactly the ranks holding specials |
| `NumpyNumericalization.KnownWordRoundTrip` | protovoc/numericalization/numpy.py:12-31 | a known word maps to its rank and the rank back to the word |
| `NumpyNumericalization.UnknownWord` | protovoc/numericalization/numpy.py:12-36 | an unknown word maps to the unk rank, which reads back as unk, or raises KeyError when unk is falsy |
| `NumbaNumericalization.BelowFlags` | protovoc/numericalization/numba.py:49 | flags exactly the ranks below the threshold |
| `NumbaNumericalization.IsinCumsumGe0Stepped` | protovoc/numericalization/numba.py:43-53 | each position is flagged iff an element of its own block at or before it is below thresh; a zero step raises ZeroDivisionError |
| `NumbaNumericalization.FillGroup` | protovoc/numericalization/numba.py:48-52 | the inner loop flags exactly the positions of the block at or after its first element below thresh and touches nothing outside the block |
| `NumbaNumericalization.LeOrAfter` | protovoc/numericalization/numba.py:56-68 | for any axis the mask is the running "rank below thresh seen" flag along that axis; a missing axis raises IndexError, a zero-length one ZeroDivisionError |
| `NumbaNumericalization.LastAxisRavel` | protovoc/numericalization/numba.py:66-68 | on the last axis the ravel is already in lane order |
| `NumbaNumericalization.LastAxisRestore` | protovoc/numericalization/numba.py:66-68 | on the last axis the reshape puts every flag back where it was |
| `NumbaNumericalization.SteppedAlong` | protovoc/numericalization/numba.py:63-65 | the stepped flags over the moved ravel, put back, are the running flag along the axis |
| `NumbaNumericalization.SeenBelowLane` | protovoc/numericalization/numba.py:48-51 | within block b, "some rank below thresh so far" is the running flag of lane b |
| `NumbaNumericalization.BlockRank` | protovoc/numericalization/numba.py:91 | a reserved word's rank lies in the reserved block and has count inf |
| `NumbaNumericalization.MoveUnkLast` | protovoc/numericalization/numba.py:89-98 | the swap keeps an index of the same words and counts, puts a truthy unk on rank n_spec-1, and the word it displaced on unk's old rank; it leaves every other rank and word where it was, and without a truthy unk it changes nothing |
| `NumbaNumericalization.SwapFrame` | protovoc/numericalization/numba.py:94-97 | exchanging the words on two ranks, and their entries in the inverse map, leaves every other rank and every other word where it was |
| `NumbaNumericalization.UnkSwapped` | protovoc/numericalization/numba.py:92-98 | exchanging unk with the last reserved word keeps the index and counts and sets both ranks as intended |
| `NumbaNumericalization.SwapCounts` | protovoc/numericalization/numba.py:98 | writing one infinite count into both slots still gives each rank its word's count |
| `NumbaNumericalization.MovedIndexed` | protovoc/numericalization/numba.py:94-98 | exchanging two reserved ranks keeps `cts` as is and the index an index |
| `NumbaNumericalization.FreezeMoved` | protovoc/numericalization/numba.py:78-98 | the frozen index with unk moved last, and the `integer` unk rank read after the move, which is n_spec-1 |
| `NumbaNumericalization.FreezeMovedAsWritten` | protovoc/numericalization/numba.py:78-98 | the index with unk moved to n_spec-1, and the `integer` unk rank captured before the move: unk's rank in the freeze order, now holding the word that order put on n_spec-1, so it reads back as unk exactly when it is n_spec-1 |
| `NumbaNumericalization.StaleCaptured` | protovoc/numericalization/numba.py:84-98 | the rank captured before the move lies in the reserved block and, after it, holds the word displaced from n_spec-1 |
| `NumbaNumericalization.StaleUnkRankExample` | protovoc/numericalization/numba.py:78-98 | with "<pad>" inserted before "UNK", both inf, the freeze order ranks UNK 0 and <pad> 1, so the captured rank 0 is not n_spec-1 = 1 and will read back as <pad> |
| `NumbaNumericalization.TiedFreezeOrder` | protovoc/numericalization/numba.py:78-82 | the freeze order of "<pad>" then "UNK", both inf, is UNK, <pad> |
| `NumbaNumericalization.Numericalization.constructor` | protovoc/numericalization/numba.py:72-98 | the index holds exactly the vocabulary's words with their counts, unk sits on rank n_spec-1, the `integer` unk rank is unk's rank in the freeze order, before the move, and the cutoff is n_spec |
| `NumbaNumericalization.Numericalization.PermitUnk` | protovoc/numericalization/numba.py:108-112 | the cutoff becomes n_spec-1 with val and a truthy unk, n_spec otherwise; the index is unchanged |
| `NumbaNumericalization.Numericalization.PermitUnkAsWritten` | protovoc/numericalization/numba.py:108-112 | the cutoff becomes n_spec-1 with val, n_spec otherwise, with or without unk; the object stays usable by len, sentence and strip |
| `NumbaNumericalization.Numericalization.Len` | protovoc/numericalization/numba.py:114-115 | len is the number of ranks and of distinct words |
| `NumbaNumericalization.Numericalization.Sentence` | protovoc/numericalization/numba.py:100-106 | a rank out of range raises IndexError, then a missing axis IndexError, then a zero-length axis ZeroDivisionError; otherwise each entry is its lane decoded up to the first rank below the cutoff |
| `NumbaNumericalization.Numericalization.Strip` | protovoc/numericalization/numba.py:117-139 | the index becomes its first KeptLength ranks and stays an index with unk on n_spec-1; when ranks are cut the `integer` unk rank is read again and becomes n_spec-1, otherwise it is kept; the cutoff is unchanged |
| `NumbaNumericalization.Numericalization.Replace` | protovoc/numericalization/numba.py:131-139 | installs the new index and unk rank and leaves the cutoff |
| `NumbaNumericalization.StripTo` | protovoc/numericalization/numba.py:117-139 | the values strip leaves are the first KeptLength ranks, still an index, with the unk rank re-read as n_spec-1 when ranks are cut and kept when none are |
| `NumbaNumericalization.StripIndex` | protovoc/numericalization/numba.py:131-138 | the cut index and rebuilt inverse form an index, and the re-read unk rank is unk's rank after the move, n_spec-1 |
| `NumbaNumericalization.Terminators` | protovoc/numericalization/numba.py:104-112 | with cutoff n_spec a rank ends a sentence iff its word is reserved; with cutoff n_spec-1 iff its word is reserved and it is not rank n_spec-1, which with a truthy unk means reserved and not unk |
| `NumbaNumericalization.ReservedBlock` | protovoc/numericalization/numba.py:81-83 | a rank holds a reserved word iff it is below \|specials_w_unk\| |
| `NumbaNumericalization.PermitWithoutUnk` | protovoc/numericalization/numba.py:108-112 | without a truthy unk, permit_unk(True) as written stops rank n_spec-1, which holds a special, from ending sentences: a sentence of that rank alone decodes to the special instead of "" |
| `NumbaNumericalization.SingleRankText` | protovoc/numericalization/numba.py:100-106 | a sentence of one rank at or above the cutoff decodes to that rank's word |
| `NumbaNumericalization.KnownWordRoundTrip` | protovoc/numericalization/numba.py:7-30 | a known word maps to its rank and the rank back to the word |
| `NumbaNumericalization.UnknownWord` | protovoc/numericalization/numba.py:27-35 | on the class an unknown word maps to the `integer` unk rank, a rank of the reserved block holding a reserved word, which reads back as unk exactly when it is n_spec-1; KeyError when unk is falsy |
| `NumbaNumericalization.UnknownWordMoved` | protovoc/numericalization/numba.py:27-35 | with the unk rank read after the move, an unknown word maps to n_spec-1, which reads back as unk; KeyError when unk is falsy |

## Left out

- Benchmarks, setup.py, the Cython variants and the test-binding files: timing, packaging, and code not shown.
- numpy and numba internals (fancy indexing, `np.isin`, `cumsum`, `swapaxes`, `ravel`, `reshape`, string `+` and `sum`, JIT compilation): each is stated by what it computes on a row-major sequence.
- `swapaxes(-1, axis)`: modelled as moving the axis last. The two orders differ, but each element lands on the same lane at the same index along the axis, and that is all the stepped scan and its reversal depend on.
- Float counts: counts are Python numbers, finite (an integer) or inf. `min_freq` is an integer, `n_to_keep` is a natural number or inf. A negative or fractional `n_to_keep` is not modelled.
- Negative axes and zero-dimensional arrays: axis is a natural number and arrays have at least one dimension.
- `unk=False` and `unk=None` are both `None`. The numba `has_unk` test (`is not False and is not None`) differs from truthiness only for the empty string.
- NumbaNumericalization.Numericalization.constructor: requires a present unk to be non-empty. With unk "" the source looks "" up in `s2i` (numba.py:91), where it is absent unless added as a word.
- NumbaNumericalization.MoveUnkLast: requires a present unk to be non-empty, for the same reason as the constructor.
- NumbaNumericalization.FreezeMoved: requires a present unk to be non-empty, for the same reason as the constructor.
- NumbaNumericalization.FreezeMovedAsWritten: requires a present unk to be non-empty, for the same reason as the constructor.
- NumbaNumericalization.IsinCumsumGe0Stepped: requires the length to be a multiple of the step. Every call from `le_or_after` passes a ravel whose size is a multiple of the axis length it uses as the step.
- Frozen.Freeze: fixes one order among equal counts, reverse insertion order, which is what a stable ascending `argsort` followed by `[::-1]` gives. numpy's default `argsort` is not stable (numpy.py:50, numba.py:79), and the reserved words enter the counter in set iteration order (basic.py:23), so the source promises no order among the infinite counts. `Frozen.Freeze` (`i2s` is `FreezeOrder`), `NumbaNumericalization.FreezeMovedAsWritten` and the numba constructor (the captured unk rank and the word it reads back) state their results in this order, and StaleUnkRankExample and TiedFreezeOrder compute with it. Every other contract on the frozen index holds for any tie order that keeps counts non-increasing.
- Frozen.FreezeOrderRanked: states the reverse-insertion tie rule itself. The source leaves that rule to numpy's sort and promises only counts in non-increasing order, which FreezeRanking states.
- NumpyNumericalization.Numericalization.Sentence: a zero-length axis decodes every lane to "". numpy's `sum` over an empty object axis returns the integer 0 instead.
- NumbaNumericalization.Numericalization.Strip: when nothing is cut, the model reinstalls the unchanged index instead of returning early. The state afterwards is the same.
- `Vocab.strip(minimal=False)`: the source reads an undefined name first. The model raises NameError and leaves the vocabulary unchanged; the `Counter.update` that would follow is not modelled.
- Each `integer`/`string` lookup takes either a word or a flat sequence, as separate functions. Nested sequences are not modelled.

## Findings

| source | as written | input that shows it | evidently intended | confidence | as-written member | corrected member |
|---|---|---|---|---|---|---|
| protovoc/numericalization/numba.py:84-98 | the `integer` interface takes unk's rank before the swap moves unk to rank n_spec-1 | specials {"<pad>"}, unk "UNK", with "<pad>" inserted into the counter before "UNK" (both inf): the reversed argsort ranks UNK 0 and <pad> 1, the swap moves UNK to 1, but an unknown word still maps to 0, which reads back as "<pad>" | unknown words map to unk's rank after the move, n_spec-1 | not executed | NumbaNumericalization.FreezeMovedAsWritten, NumbaNumericalization.StaleUnkRankExample | NumbaNumericalization.FreezeMoved, NumbaNumericalization.UnknownWordMoved |
| protovoc/numericalization/numba.py:108-112 | permit_unk(True) lowers the cutoff to n_spec-1 even when there is no unk | specials {"<pad>"}, unk False: n_spec is 1, permit_unk(True) sets the cutoff to 0, so "<pad>" on rank 0 no longer ends a sentence | without unk the cutoff stays n_spec, as the numpy variant's stop ranks stay the specials' ranks | not executed | NumbaNumericalization.Numericalization.PermitUnkAsWritten, NumbaNumericalization.PermitWithoutUnk | NumbaNumericalization.Numericalization.PermitUnk, NumbaNumericalization.Terminators |
