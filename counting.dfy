/**
 * `collections.Counter` as the block entropies use it: one pass over the
 * items, incrementing the count of each, with keys kept in the order they
 * were first seen (a dict's insertion order), and `list(counter.values())`
 * read in that order.
 */
module Counting {
  import Sequences

  /** A counter: its keys in insertion order and the count of each. */
  datatype Counter<T> = Counter(keys: seq<T>, counts: map<T, nat>)

  /** Keys are listed once each, exactly the keys of the count map, and every count is positive. */
  predicate Valid<T>(c: Counter<T>) {
    && (forall i, j :: 0 <= i < j < |c.keys| ==> c.keys[i] != c.keys[j])
    && (forall i :: 0 <= i < |c.keys| ==> c.keys[i] in c.counts)
    && (forall k :: k in c.counts ==> k in c.keys)
    && (forall k :: k in c.counts ==> c.counts[k] > 0)
  }

  /** `list(counter.values())`: the counts in key insertion order. */
  function Values<T>(c: Counter<T>): (vs: seq<nat>)
    ensures |vs| == |c.keys|
  {
    seq(|c.keys|, i requires 0 <= i < |c.keys| =>
      if c.keys[i] in c.counts then c.counts[c.keys[i]] else 0)
  }

  /** One step of counting: `counter[x] = counter.get(x, 0) + 1`. */
  function Add<T>(c: Counter<T>, x: T): (r: Counter<T>)
    ensures Valid(c) ==> Valid(r)
    ensures r.counts.Keys == c.counts.Keys + {x}
    ensures r.counts[x] == if x in c.counts then c.counts[x] + 1 else 1
    ensures forall k :: k in c.counts && k != x ==> r.counts[k] == c.counts[k]
    ensures x in c.counts ==> r.keys == c.keys
    ensures x !in c.counts ==> r.keys == c.keys + [x]
  {
    if x in c.counts then Counter(c.keys, c.counts[x := c.counts[x] + 1])
    else Counter(c.keys + [x], c.counts[x := 1])
  }

  /** The counter holds exactly the items of xs as keys. */
  ghost predicate KeysOf<T>(c: Counter<T>, xs: seq<T>) {
    && Valid(c)
    && (forall k :: k in c.counts ==> k in xs)
    && (forall i :: 0 <= i < |xs| ==> xs[i] in c.counts)
  }

  /** c is `Counter(xs)`: keys exactly the items of xs, each counted with its multiplicity. */
  ghost predicate Counts<T>(c: Counter<T>, xs: seq<T>) {
    && KeysOf(c, xs)
    && (forall k :: k in c.counts ==> c.counts[k] == multiset(xs)[k])
  }

  /** Counting one more item x turns the counter of xs into the counter of xs + [x]. */
  lemma AddCounts<T>(c: Counter<T>, xs: seq<T>, x: T)
    requires Counts(c, xs)
    ensures Counts(Add(c, x), xs + [x])
  {
    var c', xs' := Add(c, x), xs + [x];
    assert Valid(c');
    forall k | k in c'.counts
      ensures k in xs' && c'.counts[k] == multiset(xs')[k]
    {
      assert multiset(xs') == multiset(xs) + multiset{x};
      if k != x {
        assert k in c.counts;
      }
    }
    forall i | 0 <= i < |xs'|
      ensures xs'[i] in c'.counts
    {
      if i < |xs| {
        assert xs'[i] == xs[i];
      }
    }
  }

  /** `Counter(xs)`: every item of xs counted, in order. */
  function Tally<T>(xs: seq<T>): (c: Counter<T>)
    ensures Counts(c, xs)
  {
    if xs == [] then Counter([], map[])
    else
      var init, x := xs[..|xs| - 1], xs[|xs| - 1];
      assert xs == init + [x];
      var c := Tally(init);
      AddCounts(c, init, x);
      Add(c, x)
  }

  /** The first position of k in xs + [x] is its first position in xs, or |xs| if k is only the new item. */
  lemma IndexOfAppend<T>(xs: seq<T>, x: T, k: T)
    requires k in xs + [x]
    ensures k in xs ==> Sequences.IndexOf(xs + [x], k) == Sequences.IndexOf(xs, k)
    ensures k !in xs ==> Sequences.IndexOf(xs + [x], k) == |xs|
  {
    var i := Sequences.IndexOf(xs + [x], k);
    if k in xs {
      var j := Sequences.IndexOf(xs, k);
      assert (xs + [x])[j] == k;
      assert i <= j;
      assert i < |xs| && xs[i] == k;
    }
  }

  /** Each key of the list occurs in xs, and earlier keys occur first earlier. */
  ghost predicate FirstOccurrenceOrder<T>(keys: seq<T>, xs: seq<T>) {
    && (forall i :: 0 <= i < |keys| ==> keys[i] in xs)
    && (forall i, j :: 0 <= i < j < |keys| ==> Sequences.IndexOf(xs, keys[i]) < Sequences.IndexOf(xs, keys[j]))
  }

  /** Appending an item to xs keeps the order of keys already seen, and a new key goes last. */
  lemma OrderAppend<T>(keys: seq<T>, xs: seq<T>, x: T)
    requires FirstOccurrenceOrder(keys, xs)
    ensures FirstOccurrenceOrder(keys, xs + [x])
    ensures x !in xs ==> FirstOccurrenceOrder(keys + [x], xs + [x])
  {
    forall i | 0 <= i < |keys|
      ensures Sequences.IndexOf(xs + [x], keys[i]) == Sequences.IndexOf(xs, keys[i])
    {
      IndexOfAppend(xs, x, keys[i]);
    }
    if x !in xs {
      IndexOfAppend(xs, x, x);
      var keys' := keys + [x];
      assert forall i :: 0 <= i < |keys| ==> keys'[i] == keys[i];
    }
  }

  /** The keys of `Counter(xs)` are listed in the order of their first occurrence in xs. */
  lemma {:induction false} TallyInsertionOrder<T>(xs: seq<T>)
    ensures FirstOccurrenceOrder(Tally(xs).keys, xs)
  {
    if xs != [] {
      var init, x := xs[..|xs| - 1], xs[|xs| - 1];
      assert xs == init + [x];
      TallyInsertionOrder(init);
      var c := Tally(init);
      OrderAppend(c.keys, init, x);
    }
  }

  /** Counting n > 0 copies of one item gives the single count n. */
  lemma {:induction false} TallyConstant<T>(xs: seq<T>, v: T)
    requires |xs| > 0 && forall i :: 0 <= i < |xs| ==> xs[i] == v
    ensures Values(Tally(xs)) == [|xs|]
  {
    var n := |xs| - 1;
    var init := xs[..n];
    assert xs[n] == v;
    if n > 0 {
      TallyConstant(init, v);
      var c := Tally(init);
      assert Values(c) == [n];
      assert |c.keys| == 1 && c.keys[0] in c.counts;
      assert c.keys[0] in init;
      assert c.keys[0] == v;
      assert Sequences.IndexOf(c.keys, v) == 0;
      AddSeenValues(c, v);
      assert Values(Add(c, v)) == [n + 1];
    }
  }

  /** The sum of a list of counts. */
  function Sum(s: seq<nat>): nat {
    if s == [] then 0 else Sum(s[..|s| - 1]) + s[|s| - 1]
  }

  /** Raising one count by one raises the sum by one. */
  lemma {:induction false} SumIncrement(s: seq<nat>, i: nat)
    requires i < |s|
    ensures Sum(s[i := s[i] + 1]) == Sum(s) + 1
  {
    var t := s[i := s[i] + 1];
    assert t[..|t| - 1] == if i == |s| - 1 then s[..|s| - 1] else s[..|s| - 1][i := s[i] + 1];
    if i < |s| - 1 {
      SumIncrement(s[..|s| - 1], i);
    }
  }

  /** Counting one more item: an existing key's count goes up by one in place, a new key is appended with count one. */
  lemma AddValues<T>(c: Counter<T>, x: T)
    requires Valid(c)
    ensures Valid(Add(c, x))
    ensures x in c.counts ==>
      Values(Add(c, x)) == Values(c)[Sequences.IndexOf(c.keys, x) := Values(c)[Sequences.IndexOf(c.keys, x)] + 1]
    ensures x !in c.counts ==> Values(Add(c, x)) == Values(c) + [1]
  {
    if x in c.counts {
      AddSeenValues(c, x);
    } else {
      AddNewValues(c, x);
    }
  }

  /** Counting a key already present raises its count in place. */
  lemma AddSeenValues<T>(c: Counter<T>, x: T)
    requires Valid(c) && x in c.counts
    ensures Values(Add(c, x)) == Values(c)[Sequences.IndexOf(c.keys, x) := Values(c)[Sequences.IndexOf(c.keys, x)] + 1]
  {
    var c' := Add(c, x);
    var i := Sequences.IndexOf(c.keys, x);
    var vs, vs' := Values(c), Values(c');
    assert c'.keys == c.keys;
    forall j | 0 <= j < |c.keys|
      ensures vs'[j] == vs[i := vs[i] + 1][j]
    {
      var k := c.keys[j];
      assert k in c.counts;
      if j != i {
        assert k != c.keys[i];
        assert vs'[j] == c.counts[k] == vs[j];
      } else {
        assert vs'[j] == c.counts[k] + 1;
      }
    }
  }

  /** Counting a new key appends the count one. */
  lemma AddNewValues<T>(c: Counter<T>, x: T)
    requires Valid(c) && x !in c.counts
    ensures Values(Add(c, x)) == Values(c) + [1]
  {
    var c' := Add(c, x);
    var vs, vs' := Values(c), Values(c');
    assert c'.keys == c.keys + [x];
    forall j | 0 <= j < |c.keys|
      ensures vs'[j] == vs[j]
    {
      var k := c.keys[j];
      assert c'.keys[j] == k && k in c.counts && k != x;
    }
    assert vs'[|c.keys|] == 1;
  }

  /** The counts of `Counter(xs)` are all positive. */
  lemma TallyValuesPositive<T>(xs: seq<T>)
    ensures forall v :: v in Values(Tally(xs)) ==> v > 0
  {
    var c := Tally(xs);
    forall v | v in Values(c)
      ensures v > 0
    {
      var i :| 0 <= i < |Values(c)| && Values(c)[i] == v;
      assert c.keys[i] in c.counts;
    }
  }

  /** The counts of `Counter(xs)` add up to the number of items counted. */
  lemma {:induction false} TallySum<T>(xs: seq<T>)
    ensures Sum(Values(Tally(xs))) == |xs|
  {
    if xs != [] {
      var init, x := xs[..|xs| - 1], xs[|xs| - 1];
      assert xs == init + [x];
      TallySum(init);
      var c := Tally(init);
      AddValues(c, x);
      if x in c.counts {
        SumIncrement(Values(c), Sequences.IndexOf(c.keys, x));
      } else {
        assert (Values(c) + [1])[..|Values(c)|] == Values(c);
      }
    }
  }

  /** xs and ys have the same pattern of equal items. */
  ghost predicate SamePattern<T, U>(xs: seq<T>, ys: seq<U>) {
    && |xs| == |ys|
    && forall i, j :: 0 <= i < |xs| && 0 <= j < |xs| ==> (xs[i] == xs[j] <==> ys[i] == ys[j])
  }

  /** Key i of cx sits where key i of cy sits, and the two lists of counts agree. */
  ghost predicate Corresponds<T, U>(cx: Counter<T>, xs: seq<T>, cy: Counter<U>, ys: seq<U>)
    requires |xs| == |ys|
  {
    && |cx.keys| == |cy.keys|
    && Values(cx) == Values(cy)
    && KeysCorrespond(cx.keys, xs, cy.keys, ys)
  }

  /** Key i of kx equals item k of xs exactly when key i of ky equals item k of ys. */
  ghost predicate KeysCorrespond<T, U>(kx: seq<T>, xs: seq<T>, ky: seq<U>, ys: seq<U>)
    requires |kx| == |ky| && |xs| == |ys|
  {
    forall i, k :: 0 <= i < |kx| && 0 <= k < |xs| ==> (kx[i] == xs[k] <==> ky[i] == ys[k])
  }

  /** Appending to xs and ys the items found at the same key position i keeps the keys corresponding. */
  lemma KeysCorrespondSeen<T, U>(kx: seq<T>, xs: seq<T>, ky: seq<U>, ys: seq<U>, i: nat)
    requires |kx| == |ky| && |xs| == |ys| && i < |kx|
    requires forall a, b :: 0 <= a < b < |kx| ==> kx[a] != kx[b]
    requires forall a, b :: 0 <= a < b < |ky| ==> ky[a] != ky[b]
    requires KeysCorrespond(kx, xs, ky, ys)
    ensures KeysCorrespond(kx, xs + [kx[i]], ky, ys + [ky[i]])
  {
    var xs', ys' := xs + [kx[i]], ys + [ky[i]];
    forall i', k' | 0 <= i' < |kx| && 0 <= k' < |xs'|
      ensures kx[i'] == xs'[k'] <==> ky[i'] == ys'[k']
    {
      if k' == |xs| {
        assert kx[i'] == kx[i] <==> i' == i;
        assert ky[i'] == ky[i] <==> i' == i;
      } else {
        assert xs'[k'] == xs[k'] && ys'[k'] == ys[k'];
      }
    }
  }

  /** Counting an item already seen, on both sides. */
  lemma StepSeen<T, U>(cx: Counter<T>, xs: seq<T>, x: T, cy: Counter<U>, ys: seq<U>, y: U)
    requires KeysOf(cx, xs) && KeysOf(cy, ys) && |xs| == |ys|
    requires forall k :: 0 <= k < |xs| ==> (xs[k] == x <==> ys[k] == y)
    requires Corresponds(cx, xs, cy, ys)
    requires x in cx.counts
    ensures Corresponds(Add(cx, x), xs + [x], Add(cy, y), ys + [y])
  {
    var n := |xs|;
    var xs', ys' := xs + [x], ys + [y];
    var k :| 0 <= k < n && xs[k] == x;
    var i := Sequences.IndexOf(cx.keys, x);
    assert cy.keys[i] == ys[k] == y;
    assert y in cy.counts;
    assert Sequences.IndexOf(cy.keys, y) == i;
    AddValues(cx, x);
    AddValues(cy, y);
    KeysCorrespondSeen(cx.keys, xs, cy.keys, ys, i);
  }

  /** Counting an item not seen before, on both sides. */
  lemma StepNew<T, U>(cx: Counter<T>, xs: seq<T>, x: T, cy: Counter<U>, ys: seq<U>, y: U)
    requires KeysOf(cx, xs) && KeysOf(cy, ys) && |xs| == |ys|
    requires forall k :: 0 <= k < |xs| ==> (xs[k] == x <==> ys[k] == y)
    requires Corresponds(cx, xs, cy, ys)
    requires x !in cx.counts
    ensures Corresponds(Add(cx, x), xs + [x], Add(cy, y), ys + [y])
  {
    var n := |xs|;
    var xs', ys' := xs + [x], ys + [y];
    forall k | 0 <= k < n
      ensures ys[k] != y
    {
      assert xs[k] in cx.counts;
    }
    assert y !in ys;
    AddValues(cx, x);
    AddValues(cy, y);
    forall i', k' | 0 <= i' < |cx.keys| + 1 && 0 <= k' < n + 1
      ensures Add(cx, x).keys[i'] == xs'[k'] <==> Add(cy, y).keys[i'] == ys'[k']
    {
      if i' == |cx.keys| {
        assert xs'[n] == x && ys'[n] == y;
        if k' < n {
          assert xs'[k'] == xs[k'] && ys'[k'] == ys[k'];
        }
      } else if k' == n {
        assert cx.keys[i'] in cx.counts && cy.keys[i'] in cy.counts;
      } else {
        assert xs'[k'] == xs[k'] && ys'[k'] == ys[k'];
      }
    }
  }

  /** A prefix of equally patterned sequences is equally patterned, and the next items match the same earlier positions. */
  lemma SamePatternPrefix<T, U>(xs: seq<T>, ys: seq<U>, n: nat)
    requires SamePattern(xs, ys) && n < |xs|
    ensures SamePattern(xs[..n], ys[..n])
    ensures forall k :: 0 <= k < n ==> (xs[..n][k] == xs[n] <==> ys[..n][k] == ys[n])
  {
    assert forall k :: 0 <= k < n ==> xs[..n][k] == xs[k] && ys[..n][k] == ys[k];
  }

  /**
   * Counting two sequences with the same pattern of equal items yields
   * corresponding keys and identical lists of counts.
   */
  lemma {:induction false} TallyCorresponds<T, U>(xs: seq<T>, ys: seq<U>)
    requires SamePattern(xs, ys)
    ensures Corresponds(Tally(xs), xs, Tally(ys), ys)
  {
    if xs != [] {
      var n := |xs| - 1;
      var ix, x, iy, y := xs[..n], xs[n], ys[..n], ys[n];
      assert xs == ix + [x] && ys == iy + [y];
      SamePatternPrefix(xs, ys, n);
      TallyCorresponds(ix, iy);
      var cx, cy := Tally(ix), Tally(iy);
      if x in cx.counts {
        StepSeen(cx, ix, x, cy, iy, y);
      } else {
        StepNew(cx, ix, x, cy, iy, y);
      }
    }
  }

  /** The list of counts depends only on which items are equal, not on the items themselves. */
  lemma TallyRelabel<T, U>(xs: seq<T>, ys: seq<U>)
    requires SamePattern(xs, ys)
    ensures Values(Tally(xs)) == Values(Tally(ys))
  {
    TallyCorresponds(xs, ys);
  }
}
