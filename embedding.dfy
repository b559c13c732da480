/**
 * `embed_seq`: the integer-encoded sequence cut into every contiguous window
 * of a given length (its n-grams), in order of starting position.
 */
module Embedding {
  import Encoding

  /** How Python reads a slice bound j on a sequence of length n: a negative bound counts from the end, then the bound is clamped into [0, n]. */
  function SliceBound(n: nat, j: int): (b: nat)
    ensures b <= n
    ensures 0 <= j <= n ==> b == j
    ensures j < 0 ==> b == if j + n < 0 then 0 else j + n
    ensures n < j ==> b == n
  {
    if j < 0 then (if j + n < 0 then 0 else j + n)
    else if j > n then n
    else j
  }

  /** `s[lo:hi]` under Python's slicing rules. */
  function PySlice(s: seq<int>, lo: int, hi: int): (r: seq<int>)
    ensures 0 <= lo <= hi <= |s| ==> r == s[lo..hi]
  {
    var a, b := SliceBound(|s|, lo), SliceBound(|s|, hi);
    if a < b then s[a..b] else []
  }

  /** The length of `range(n - window + 1)`: how many windows fit, the last one ending at n. */
  function WindowCount(n: nat, window: int): (r: nat)
    ensures r == 0 <==> n < window
    ensures r > 0 ==> (r - 1) + window == n
  {
    if n - window + 1 > 0 then n - window + 1 else 0
  }

  /** Every `s[i:i+window]` for i in `range(len(s) - window + 1)`. */
  function Windows(s: seq<int>, window: int): (out: seq<seq<int>>)
    ensures |out| == WindowCount(|s|, window)
    ensures 0 <= window ==> forall i :: 0 <= i < |out| ==>
      i + window <= |s| && out[i] == s[i..i + window]
  {
    var out := seq(WindowCount(|s|, window), i requires 0 <= i < WindowCount(|s|, window) => PySlice(s, i, i + window));
    assert 0 <= window ==> forall i :: 0 <= i < |out| ==> i + window <= |s| && out[i] == PySlice(s, i, i + window);
    out
  }

  /** `embed_seq(sequence, window)`: the windows of the encoded sequence. */
  function EmbedSeq(sequence: seq<int>, window: int := 2): (out: seq<seq<int>>)
    ensures |out| == WindowCount(|sequence|, window)
    ensures 0 <= window ==> forall i :: 0 <= i < |out| ==>
      i + window <= |sequence| && |out[i]| == window
  {
    Windows(Encoding.IntEncode(sequence).0, window)
  }

  /** For a non-negative window, tuple i holds the codes of the items at positions i .. i+window-1. */
  lemma EmbedWindowContents(sequence: seq<int>, window: int, i: nat)
    requires 0 <= window && i < |EmbedSeq(sequence, window)|
    ensures EmbedSeq(sequence, window)[i] == Encoding.IntEncode(sequence).0[i..i + window]
    ensures forall k :: 0 <= k < window ==>
      EmbedSeq(sequence, window)[i][k] == Encoding.Rank(sequence, sequence[i + k])
  {
    var sint := Encoding.IntEncode(sequence).0;
    forall k | 0 <= k < window
      ensures EmbedSeq(sequence, window)[i][k] == Encoding.Rank(sequence, sequence[i + k])
    {
      Encoding.CodeIsRank(sequence, sequence[i + k]);
    }
  }

  /** Decoding tuple i gives back the items `sequence[i:i+window]`. */
  lemma EmbedWindowDecodes(sequence: seq<int>, window: int, i: nat)
    requires 0 <= window && i < |EmbedSeq(sequence, window)|
    ensures Encoding.Injective(Encoding.IntEncode(sequence).1)
    ensures Encoding.Decode(Encoding.Invert(Encoding.IntEncode(sequence).1), EmbedSeq(sequence, window)[i])
      == sequence[i..i + window]
  {
    Encoding.DecodeEncode(sequence);
    EmbedWindowContents(sequence, window, i);
  }

  /** Consecutive tuples overlap in all but one item: `out[i][1:] == out[i+1][:-1]`. */
  lemma EmbedOverlap(sequence: seq<int>, window: int, i: nat)
    requires 1 <= window && i + 1 < |EmbedSeq(sequence, window)|
    ensures EmbedSeq(sequence, window)[i][1..] == EmbedSeq(sequence, window)[i + 1][..window - 1]
  {
    EmbedWindowContents(sequence, window, i);
    EmbedWindowContents(sequence, window, i + 1);
  }

  /**
   * A negative window makes the stop bound of the first -window slices
   * negative, which Python reads from the end of the sequence; every other
   * slice is empty.
   */
  lemma EmbedNegativeWindow(sequence: seq<int>, window: int, i: nat)
    requires window < 0 && i < |EmbedSeq(sequence, window)|
    ensures |EmbedSeq(sequence, window)| == |sequence| - window + 1
    ensures EmbedSeq(sequence, window)[i] ==
      if i < -window && 0 < |sequence| + window
      then Encoding.IntEncode(sequence).0[i..i + |sequence| + window]
      else []
  {
    var sint := Encoding.IntEncode(sequence).0;
    var n := |sint|;
    var lo, hi := SliceBound(n, i), SliceBound(n, i + window);
    assert EmbedSeq(sequence, window)[i] == PySlice(sint, i, i + window);
    if i < -window && 0 < n + window {
      assert lo == i && hi == i + n + window;
    } else if i < -window {
      assert hi <= i && hi <= n && (lo == i || lo == n);
    } else {
      assert hi <= lo;
    }
  }
}
