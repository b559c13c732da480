/**
 * The integer side of `block_entropy` and `block_cond_entropy`: which branch
 * is taken and the histogram of blocks that is handed to the floating-point
 * entropy estimator. The estimator itself is not modelled; its inputs are.
 */
module BlockEntropy {
  import Encoding
  import Embedding
  import Counting

  /** What `block_entropy` passes on to its floating-point step. */
  datatype BlockInput =
    /** window == 0: the result is log(k) / log(base) for the k distinct symbols. */
    | AlphabetSize(k: nat)
    /** Otherwise: `Entropy(counts, method, base)` on these counts. */
    | Counts(counts: seq<nat>)

  /** What `block_cond_entropy` passes on to its floating-point step. */
  datatype CondInput =
    /** window < 1: the result is 0.0 and nothing is counted. */
    | Zero
    /** Otherwise: `Entropy(counts1, ...) - Entropy(counts0, ...)`. */
    | Difference(counts1: seq<nat>, counts0: seq<nat>)

  /** Counts of the window-grams of a sequence: `Counter(embed_seq(sequence, window)).values()`. */
  function BlockCounts(sequence: seq<int>, window: int): (r: seq<nat>)
    ensures forall c :: c in r ==> c > 0
    ensures Counting.Sum(r) == Embedding.WindowCount(|sequence|, window)
  {
    var grams := Embedding.EmbedSeq(sequence, window);
    Counting.TallyValuesPositive(grams);
    Counting.TallySum(grams);
    Counting.Values(Counting.Tally(grams))
  }

  /** Counts of the raw symbols: `Counter(sequence).values()`. */
  function SymbolCounts(sequence: seq<int>): (r: seq<nat>)
    ensures forall c :: c in r ==> c > 0
    ensures Counting.Sum(r) == |sequence|
  {
    Counting.TallyValuesPositive(sequence);
    Counting.TallySum(sequence);
    Counting.Values(Counting.Tally(sequence))
  }

  /** `block_entropy(sequence, window)` up to the floating-point step. */
  function BlockEntropyInput(sequence: seq<int>, window: int := 2): (r: BlockInput)
    ensures r.AlphabetSize? <==> window == 0
  {
    if window == 0 then AlphabetSize(|Encoding.Distinct(sequence)|)
    else if window > 1 then Counts(BlockCounts(sequence, window))
    else Counts(SymbolCounts(sequence))
  }

  /** `block_cond_entropy(sequence, window)` up to the floating-point step. */
  function BlockCondEntropyInput(sequence: seq<int>, window: int := 2): (r: CondInput)
    ensures r.Zero? <==> window < 1
  {
    if window < 1 then Zero
    else Difference(BlockCounts(sequence, window), BlockCounts(sequence, window - 1))
  }

  /** Every count handed to the estimator by `block_entropy` is positive, and they add up to the number of blocks. */
  lemma BlockEntropyCounts(sequence: seq<int>, window: int)
    requires window != 0
    ensures forall c :: c in BlockEntropyInput(sequence, window).counts ==> c > 0
    ensures Counting.Sum(BlockEntropyInput(sequence, window).counts) ==
      if window > 1 then |Embedding.EmbedSeq(sequence, window)| else |sequence|
    ensures window > 1 ==>
      Counting.Sum(BlockEntropyInput(sequence, window).counts) == Embedding.WindowCount(|sequence|, window)
  {
    if window > 1 {
      Counting.TallyValuesPositive(Embedding.EmbedSeq(sequence, window));
      Counting.TallySum(Embedding.EmbedSeq(sequence, window));
    } else {
      Counting.TallyValuesPositive(sequence);
      Counting.TallySum(sequence);
    }
  }

  /** Both histograms of `block_cond_entropy` have positive counts summing to the number of windows of each length. */
  lemma BlockCondEntropyCounts(sequence: seq<int>, window: int)
    requires window >= 1
    ensures forall c :: c in BlockCondEntropyInput(sequence, window).counts1 ==> c > 0
    ensures forall c :: c in BlockCondEntropyInput(sequence, window).counts0 ==> c > 0
    ensures Counting.Sum(BlockCondEntropyInput(sequence, window).counts1) == Embedding.WindowCount(|sequence|, window)
    ensures Counting.Sum(BlockCondEntropyInput(sequence, window).counts0) == Embedding.WindowCount(|sequence|, window - 1)
  {
    Counting.TallyValuesPositive(Embedding.EmbedSeq(sequence, window));
    Counting.TallySum(Embedding.EmbedSeq(sequence, window));
    Counting.TallyValuesPositive(Embedding.EmbedSeq(sequence, window - 1));
    Counting.TallySum(Embedding.EmbedSeq(sequence, window - 1));
  }

  /** The 1-grams of the encoded sequence repeat exactly where the symbols do. */
  lemma UnigramsSamePattern(sequence: seq<int>)
    ensures Counting.SamePattern(sequence, Embedding.EmbedSeq(sequence, 1))
  {
    var grams := Embedding.EmbedSeq(sequence, 1);
    var sint := Encoding.IntEncode(sequence).0;
    forall i, j | 0 <= i < |sequence| && 0 <= j < |sequence|
      ensures sequence[i] == sequence[j] <==> grams[i] == grams[j]
    {
      Embedding.EmbedWindowContents(sequence, 1, i);
      Embedding.EmbedWindowContents(sequence, 1, j);
      assert grams[i] == [sint[i]] && grams[j] == [sint[j]];
      Encoding.EncodedComparesLikeItems(sequence, i, j);
    }
  }

  /**
   * Counting raw symbols, as `block_entropy` does for window 1, gives the same
   * list of counts as counting the 1-grams of `embed_seq`.
   */
  lemma SymbolCountsAreUnigramCounts(sequence: seq<int>)
    ensures SymbolCounts(sequence) == BlockCounts(sequence, 1)
  {
    UnigramsSamePattern(sequence);
    Counting.TallyRelabel(sequence, Embedding.EmbedSeq(sequence, 1));
  }

  /**
   * For a window of 2 or more, the two histograms of `block_cond_entropy` are
   * the ones `block_entropy` uses for `window` and `window - 1`.
   */
  lemma CondEntropyIsBlockDifference(sequence: seq<int>, window: int)
    requires window >= 2
    ensures BlockCondEntropyInput(sequence, window).counts1 == BlockEntropyInput(sequence, window).counts
    ensures BlockCondEntropyInput(sequence, window).counts0 == BlockEntropyInput(sequence, window - 1).counts
  {
    if window == 2 {
      SymbolCountsAreUnigramCounts(sequence);
    }
  }

  /**
   * For window 1 the lower histogram counts the `len(sequence) + 1` empty
   * tuples that `embed_seq(sequence, 0)` yields, so it is a single count,
   * whereas `block_entropy(sequence, 0)` uses the alphabet size instead.
   */
  lemma CondEntropyWindowOne(sequence: seq<int>)
    ensures BlockCondEntropyInput(sequence, 1).counts0 == [|sequence| + 1]
    ensures BlockCondEntropyInput(sequence, 1).counts1 == BlockEntropyInput(sequence, 1).counts
  {
    var empties := Embedding.EmbedSeq(sequence, 0);
    assert forall i :: 0 <= i < |empties| ==> empties[i] == [];
    Counting.TallyConstant(empties, []);
    SymbolCountsAreUnigramCounts(sequence);
  }
}
