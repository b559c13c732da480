# seq_entropies preprocessing, modelled in Dafny

`seq_entropies` estimates the complexity and entropy of discrete symbol
sequences. This project models the discrete preprocessing of
`seq_entropies/utils.py`, on which the block entropies rest:

- `int_encode` (module `Encoding`, `encoding.dfy`): each item is replaced by
  its index in `sorted(set(items))`; the function returns the encoded
  sequence and the item-to-code dictionary. Items are integers.
- `embed_seq` (module `Embedding`, `embedding.dfy`): the encoded sequence cut
  into all `N - window + 1` windows `sint[i:i+window]`, with Python's slicing
  rules written out (negative bounds count from the end, bounds are clamped).
- `collections.Counter` and `list(counter.values())` (module `Counting`,
  `counting.dfy`): one pass over the items incrementing a count per key,
  keys held in insertion order as a Python dict holds them.
- `block_entropy` and `block_cond_entropy` (module `BlockEntropy`,
  `block_entropy.dfy`): which branch each takes for a given `window`, and the
  exact lists of counts each hands to the floating-point estimator.

What is proved: the code of an item is the number of distinct items below it;
the codes are exactly `0 .. k-1`; the encoding preserves and reflects order
and equality; inverting the dictionary decodes the sequence back; `embed_seq`
yields `max(0, N - window + 1)` windows, each the encoded slice of the input
(and decoding to the input's slice), consecutive ones overlapping by
`window - 1`; a counter's counts are positive, equal the multiplicities, sum to
the number of items, come in order of first occurrence, and depend only on
which items are equal. From these, the histograms given to the estimator have
positive counts summing to the number of blocks; for window 1 counting raw
symbols gives the same list as counting 1-grams; and the two histograms of
`block_cond_entropy(s, w)` are those of `block_entropy(s, w)` and
`block_entropy(s, w - 1)` when `w >= 2`.

Two behaviours of the code are modelled as written. `block_cond_entropy(s, 1)`
counts the `N + 1` empty tuples of `embed_seq(s, 0)`, a single count, while
`block_entropy(s, 0)` returns the logarithm of the alphabet size instead
(`CondEntropyWindowOne`). `block_entropy` with a negative window falls into
the symbol-counting branch, and `embed_seq` with a negative window produces
the odd slices Python's negative stop bounds give (`EmbedNegativeWindow`).

## Model

| member | source | states |
|---|---|---|
| Encoding.Distinct | seq_entropies/utils.py:20 | `set(items)` holds exactly the items and has no more elements than the input has positions |
| Encoding.Insert | seq_entropies/utils.py:20 | inserting into a sorted repeat-free list keeps it sorted and repeat-free, adds exactly the new item and grows it by at most one |
| Encoding.SortedDistinct | seq_entropies/utils.py:20 | `sorted(set(items))` is strictly increasing, holds exactly the items and is no longer than the input |
| Encoding.StrictlyIncreasingUnique | seq_entropies/utils.py:20 | two strictly increasing lists with the same elements are equal |
| Encoding.SortedDistinctIsSortedSet | seq_entropies/utils.py:20 | any strictly increasing list of exactly the items is the list the encoder enumerates |
| Sequences.IndexOf | seq_entropies/utils.py:20 | the index given by `enumerate` holds the item and is its first position; the counter uses the same function for a key's position |
| Encoding.IntEncode | seq_entropies/utils.py:20-22 | the encoded list has the input's length, the dictionary's keys are exactly the input items, and entry i is the code of item i |
| Encoding.RankOfIndex | seq_entropies/utils.py:20 | in a sorted repeat-free list exactly i elements lie below the i-th |
| Encoding.DistinctCount | seq_entropies/utils.py:20 | a sorted repeat-free list is as long as its set of elements |
| Encoding.CodeIsRank | seq_entropies/utils.py:20 | the code of x is the number of distinct items strictly less than x |
| Encoding.CodeIsIndex | seq_entropies/utils.py:20 | the code of an item is its index in `sorted(set(items))` |
| Encoding.DistinctIsSortedSet | seq_entropies/utils.py:20 | `set(items)` is the set of the sorted distinct items |
| Encoding.TableSize | seq_entropies/utils.py:20 | the dictionary has as many keys as there are distinct items |
| Encoding.CodeBelow | seq_entropies/utils.py:20 | every code in the dictionary is an index into `sorted(set(items))` |
| Encoding.CodeTaken | seq_entropies/utils.py:20 | every index into `sorted(set(items))` is the code of some item |
| Encoding.CodesDense | seq_entropies/utils.py:20 | the dictionary has one key per distinct item and its values are exactly 0 .. k-1 |
| Encoding.CodesOrderPreserving | seq_entropies/utils.py:20 | x < y iff code(x) < code(y), and x == y iff code(x) == code(y) |
| Encoding.EncodedComparesLikeItems | seq_entropies/utils.py:21 | two encoded entries are equal (ordered) exactly when the items are equal (ordered) |
| Encoding.Invert | seq_entropies/utils.py:17-18 | the reversed dictionary sends each code back to its item and has exactly the codes as keys |
| Encoding.Decode | seq_entropies/utils.py:21 | decoding keeps the length and looks up each code |
| Encoding.TableInjective | seq_entropies/utils.py:20 | no two items share a code |
| Encoding.DecodeEncode | seq_entropies/utils.py:20-21 | decoding the encoded list with the reversed dictionary gives back the input |
| Embedding.SliceBound | seq_entropies/utils.py:42 | a slice bound is clamped into [0, n], with negative bounds counted from the end |
| Embedding.PySlice | seq_entropies/utils.py:42 | a slice with in-range bounds is the ordinary subsequence |
| Embedding.WindowCount | seq_entropies/utils.py:42 | `range(N - window + 1)` is empty exactly when the window is longer than the sequence; otherwise its last start position `r - 1` puts the window's end exactly at N |
| Embedding.Windows | seq_entropies/utils.py:41-42 | there are max(0, N - window + 1) windows and, for window >= 0, window i is `s[i..i+window]` with `i + window <= N` |
| Embedding.EmbedSeq | seq_entropies/utils.py:24-43 | `embed_seq` returns max(0, N - window + 1) tuples, each of length exactly window when window >= 0 |
| Embedding.EmbedWindowContents | seq_entropies/utils.py:40-42 | tuple i is the encoded slice `sint[i:i+window]`, its k-th entry the rank of item i+k |
| Embedding.EmbedWindowDecodes | seq_entropies/utils.py:40-42 | decoding tuple i gives back `sequence[i:i+window]` |
| Embedding.EmbedOverlap | seq_entropies/utils.py:42 | `output[i][1:] == output[i+1][:-1]` for consecutive tuples |
| Embedding.EmbedNegativeWindow | seq_entropies/utils.py:41-42 | for window < 0 there are N - window + 1 tuples, the first -window of them wrapped slices and the rest empty |
| Counting.Values | seq_entropies/utils.py:68 | `list(counter.values())` has one count per key |
| Counting.Add | seq_entropies/utils.py:68 | one counting step adds x to the keys, raises its count by one (from 0 when absent), leaves every other count alone, appends a new key at the end of the insertion order and keeps the counter valid |
| Counting.AddCounts | seq_entropies/utils.py:68 | counting one more item x turns the counter of xs (valid, keys exactly the items, counts the multiplicities) into the counter of xs + [x] |
| Counting.Tally | seq_entropies/utils.py:70 | `Counter(xs)` has exactly the items of xs as keys, each listed once, with its multiplicity in xs as a positive count |
| Counting.IndexOfAppend | seq_entropies/utils.py:70 | appending an item moves no first occurrence and puts a new item's first occurrence at the end |
| Counting.OrderAppend | seq_entropies/utils.py:70 | appending an item keeps keys already seen in first-occurrence order and a new key goes last |
| Counting.TallyInsertionOrder | seq_entropies/utils.py:70 | the counter's keys, and so its values, come in order of first occurrence |
| Counting.SumIncrement | seq_entropies/utils.py:68 | raising one count by one raises the sum by one |
| Counting.AddValues | seq_entropies/utils.py:68 | counting a seen key raises its value in place; counting a new key appends the value 1 |
| Counting.TallyValuesPositive | seq_entropies/utils.py:70 | every count in `Counter(xs).values()` is positive |
| Counting.TallySum | seq_entropies/utils.py:70 | the counts sum to the number of items counted |
| Counting.StepSeen | seq_entropies/utils.py:70 | counting an already seen item on two equally patterned inputs keeps their counters corresponding |
| Counting.StepNew | seq_entropies/utils.py:70 | counting a new item on two equally patterned inputs keeps their counters corresponding |
| Counting.TallyCorresponds | seq_entropies/utils.py:70 | counting two inputs with the same equality pattern gives corresponding keys and equal count lists |
| Counting.TallyRelabel | seq_entropies/utils.py:70 | the count list depends only on which items are equal, not on their identity |
| BlockEntropy.BlockCounts | seq_entropies/utils.py:68 | `list(Counter(embed_seq(sequence, window)).values())` holds positive counts that sum to the number of windows, `max(0, N - window + 1)`; `block_cond_entropy` uses the same list at lines 95-96 |
| BlockEntropy.SymbolCounts | seq_entropies/utils.py:70 | `list(Counter(sequence).values())` holds positive counts that sum to `len(sequence)` |
| BlockEntropy.BlockEntropyInput | seq_entropies/utils.py:65-71 | `block_entropy` takes the alphabet-size branch exactly when window == 0 |
| BlockEntropy.BlockCondEntropyInput | seq_entropies/utils.py:93-98 | `block_cond_entropy` returns 0.0 without counting exactly when window < 1 |
| BlockEntropy.BlockEntropyCounts | seq_entropies/utils.py:67-70 | the counts passed to `Entropy` are positive and sum to the number of n-grams (window > 1) or to `len(sequence)` |
| BlockEntropy.BlockCondEntropyCounts | seq_entropies/utils.py:95-96 | both count lists are positive and sum to the number of windows of length window and window - 1 |
| BlockEntropy.UnigramsSamePattern | seq_entropies/utils.py:70 | the 1-grams of the encoded sequence are equal exactly where the symbols are |
| BlockEntropy.SymbolCountsAreUnigramCounts | seq_entropies/utils.py:68-70 | counting raw symbols gives the same count list as counting `embed_seq(sequence, 1)` |
| BlockEntropy.CondEntropyIsBlockDifference | seq_entropies/utils.py:95-96 | for window >= 2 the two count lists are those of `block_entropy` at window and window - 1 |
| BlockEntropy.CondEntropyWindowOne | seq_entropies/utils.py:96 | for window 1 the lower count list is `[N + 1]`; the upper is the symbol counts |
| Counting.TallyConstant | seq_entropies/utils.py:96 | counting n > 0 copies of one item gives the single count n |

## Left out

- The LZ76 and LZ77 estimators: they live in `seq_entropies/lz.pyx`, which is not part of this model.
- `Entropy(counts, method, base)`: `utils.py` calls it without defining or importing it, and its values are floating point; the model stops at its arguments, and `method` and `base` are only passed through, so they are not parameters here.
- `np.log(len(set(sequence))) / np.log(base)` for window 0: floating point; the model keeps the alphabet size it is taken of.
- IntEncode: the `np.int32` dtype is not modelled. Codes are unbounded integers below the number of distinct items (`CodesDense`). The model is exact while there are at most 2^31 distinct items. Beyond that NumPy raises or wraps, which the model does not capture.
- Items of arbitrary hashable type and Python's ordering of them in `sorted`: items are integers under their usual order.
- IntEncode: the dictionary's key order is ascending, which is `SortedDistinct(items)`; the map does not record it.
- Tuples: an n-gram is modelled as a `seq<int>`, which compares by content as a tuple does.
- `collections.Counter` is library code; it is modelled by its documented one-pass counting with insertion-ordered keys.
- `setup.py` (packaging) and `seq_entropies/__init__.py` (re-exports) model no behaviour.
