/**
 * `int_encode`: every item is replaced by its position in the sorted list of
 * distinct items, and the item-to-code dictionary is returned beside the
 * encoded sequence. Items are modelled as integers under their usual order.
 */
module Encoding {
  import Sequences

  /** Sorted with no repeats: each element is smaller than every later one. */
  predicate StrictlyIncreasing(s: seq<int>) {
    forall i, j :: 0 <= i < j < |s| ==> s[i] < s[j]
  }

  /** `set(items)`: the distinct items. */
  function Distinct(items: seq<int>): (r: set<int>)
    ensures forall x :: x in r <==> x in items
    ensures |r| <= |items|
  {
    var r := set x | x in items;
    DistinctCount(SortedDistinct(items));
    assert r == set x | x in SortedDistinct(items);
    r
  }

  /** The number of distinct items strictly smaller than x. */
  function Rank(items: seq<int>, x: int): nat {
    |set y | y in items && y < x|
  }

  /** Putting an item in front of a sorted, repeat-free sequence of larger items keeps it so. */
  lemma ConsIncreasing(a: int, t: seq<int>)
    requires StrictlyIncreasing(t)
    requires forall j :: 0 <= j < |t| ==> a < t[j]
    ensures StrictlyIncreasing([a] + t)
  {
    var r := [a] + t;
    forall i, j | 0 <= i < j < |r|
      ensures r[i] < r[j]
    {
      assert r[j] == t[j - 1];
      if i > 0 {
        assert r[i] == t[i - 1];
      }
    }
  }

  /** Inserts x into a sorted, repeat-free sequence, unless it is there already. */
  function Insert(s: seq<int>, x: int): (r: seq<int>)
    requires StrictlyIncreasing(s)
    ensures StrictlyIncreasing(r)
    ensures forall y :: y in r <==> y in s || y == x
    ensures x in s ==> r == s
    ensures |r| <= |s| + 1
  {
    if |s| == 0 then [x]
    else if x < s[0] then
      ConsIncreasing(x, s);
      [x] + s
    else if x == s[0] then s
    else
      var rest := Insert(s[1..], x);
      assert s == [s[0]] + s[1..];
      assert forall j :: 0 <= j < |rest| ==> s[0] < rest[j] by {
        forall j | 0 <= j < |rest|
          ensures s[0] < rest[j]
        {
          assert rest[j] in rest;
          if rest[j] != x {
            var k :| 0 <= k < |s| - 1 && s[1..][k] == rest[j];
            assert s[k + 1] == rest[j];
          }
        }
      }
      ConsIncreasing(s[0], rest);
      [s[0]] + rest
  }

  /** `sorted(set(items))`: the distinct items in increasing order. */
  function SortedDistinct(items: seq<int>): (u: seq<int>)
    ensures StrictlyIncreasing(u)
    ensures forall x :: x in u <==> x in items
    ensures |u| <= |items|
  {
    if |items| == 0 then []
    else
      var init := items[..|items| - 1];
      assert items == init + [items[|items| - 1]];
      Insert(SortedDistinct(init), items[|items| - 1])
  }

  /** There is only one sorted, repeat-free arrangement of a set of items. */
  lemma {:induction false} StrictlyIncreasingUnique(a: seq<int>, b: seq<int>)
    requires StrictlyIncreasing(a) && StrictlyIncreasing(b)
    requires forall x :: x in a <==> x in b
    ensures a == b
  {
    if |a| > 0 {
      assert a[0] in a;
    }
    if |b| > 0 {
      assert b[0] in b;
    }
    if |a| > 0 && |b| > 0 {
      var k :| 0 <= k < |b| && b[k] == a[0];
      var j :| 0 <= j < |a| && a[j] == b[0];
      assert a[0] <= a[j] && b[0] <= b[k];
      assert a[0] == b[0];
      forall x
        ensures x in a[1..] <==> x in b[1..]
      {
        assert x in a[1..] <==> x in a && x != a[0];
        assert x in b[1..] <==> x in b && x != b[0];
      }
      StrictlyIncreasingUnique(a[1..], b[1..]);
      assert a == [a[0]] + a[1..] && b == [b[0]] + b[1..];
    }
  }

  /** The sorted distinct items are exactly the sorted arrangement of `set(items)`. */
  lemma SortedDistinctIsSortedSet(items: seq<int>, u: seq<int>)
    requires StrictlyIncreasing(u)
    requires forall x :: x in u <==> x in items
    ensures SortedDistinct(items) == u
  {
    StrictlyIncreasingUnique(SortedDistinct(items), u);
  }

  /**
   * `int_encode(items)`: the pair (encoded sequence, dictionary), where the
   * dictionary sends the item at index idx of `sorted(set(items))` to idx.
   */
  function IntEncode(items: seq<int>): (r: (seq<int>, map<int, int>))
    ensures |r.0| == |items|
    ensures forall x :: x in r.1 <==> x in items
    ensures forall i :: 0 <= i < |items| ==> items[i] in r.1 && r.0[i] == r.1[items[i]]
  {
    var u := SortedDistinct(items);
    var table := map x | x in u :: Sequences.IndexOf(u, x);
    (seq(|items|, i requires 0 <= i < |items| => table[items[i]]), table)
  }

  /** In a sorted, repeat-free sequence, exactly i elements lie below u[i]. */
  lemma {:induction false} RankOfIndex(u: seq<int>, i: nat)
    requires StrictlyIncreasing(u) && i < |u|
    ensures |set y | y in u && y < u[i]| == i
  {
    if i == 0 {
      assert forall y :: y in u ==> u[0] <= y;
      assert (set y | y in u && y < u[0]) == {};
    } else {
      RankOfIndex(u, i - 1);
      var below := set y | y in u && y < u[i - 1];
      assert u[i - 1] !in below;
      forall y
        ensures y in u && y < u[i] <==> y in below || y == u[i - 1]
      {
        if y in u && y < u[i] {
          var k :| 0 <= k < |u| && u[k] == y;
          assert k < i;
        }
      }
      assert (set y | y in u && y < u[i]) == below + {u[i - 1]};
    }
  }

  /** A sorted, repeat-free sequence has as many elements as distinct values. */
  lemma {:induction false} DistinctCount(u: seq<int>)
    requires StrictlyIncreasing(u)
    ensures |set x | x in u| == |u|
  {
    if |u| > 0 {
      var init, last := u[..|u| - 1], u[|u| - 1];
      assert u == init + [last];
      DistinctCount(init);
      assert forall j :: 0 <= j < |init| ==> init[j] < last;
      assert last !in init;
      assert (set x | x in u) == (set x | x in init) + {last};
    }
  }

  /** The code of an item is the number of distinct items strictly below it. */
  lemma CodeIsRank(items: seq<int>, x: int)
    requires x in items
    ensures IntEncode(items).1[x] == Rank(items, x)
  {
    var u := SortedDistinct(items);
    RankOfIndex(u, Sequences.IndexOf(u, x));
    assert (set y | y in u && y < x) == (set y | y in items && y < x);
  }

  /** The code of an item is its index in the sorted distinct items. */
  lemma CodeIsIndex(items: seq<int>, x: int)
    requires x in items
    ensures IntEncode(items).1[x] == Sequences.IndexOf(SortedDistinct(items), x)
  {
  }

  /** `set(items)` is the set of the sorted distinct items. */
  lemma DistinctIsSortedSet(items: seq<int>)
    ensures Distinct(items) == set x | x in SortedDistinct(items)
  {
  }

  /** The dictionary has one key per distinct item, and as many keys as the sorted distinct items. */
  lemma TableSize(items: seq<int>)
    ensures |IntEncode(items).1| == |Distinct(items)| == |SortedDistinct(items)|
  {
    DistinctCount(SortedDistinct(items));
    DistinctIsSortedSet(items);
    assert IntEncode(items).1.Keys == Distinct(items);
  }

  /** Every code is an index into the sorted distinct items. */
  lemma CodeBelow(items: seq<int>, c: int)
    requires c in IntEncode(items).1.Values
    ensures 0 <= c < |SortedDistinct(items)|
  {
    var table := IntEncode(items).1;
    var x :| x in table && table[x] == c;
    CodeIsIndex(items, x);
  }

  /** Every index into the sorted distinct items is some item's code. */
  lemma CodeTaken(items: seq<int>, c: int)
    requires 0 <= c < |SortedDistinct(items)|
    ensures c in IntEncode(items).1.Values
  {
    var u := SortedDistinct(items);
    assert u[c] in items;
    CodeIsIndex(items, u[c]);
    assert Sequences.IndexOf(u, u[c]) == c;
  }

  /** The codes are exactly 0 .. k-1, where k is the number of distinct items. */
  lemma CodesDense(items: seq<int>)
    ensures |IntEncode(items).1| == |Distinct(items)|
    ensures forall c :: c in IntEncode(items).1.Values <==> 0 <= c < |Distinct(items)|
  {
    TableSize(items);
    forall c
      ensures c in IntEncode(items).1.Values <==> 0 <= c < |SortedDistinct(items)|
    {
      if c in IntEncode(items).1.Values {
        CodeBelow(items, c);
      }
      if 0 <= c < |SortedDistinct(items)| {
        CodeTaken(items, c);
      }
    }
  }

  /** The encoding respects the order of items in both directions. */
  lemma CodesOrderPreserving(items: seq<int>, x: int, y: int)
    requires x in items && y in items
    ensures x < y <==> IntEncode(items).1[x] < IntEncode(items).1[y]
    ensures x == y <==> IntEncode(items).1[x] == IntEncode(items).1[y]
  {
    var u := SortedDistinct(items);
    var i, j := Sequences.IndexOf(u, x), Sequences.IndexOf(u, y);
    assert IntEncode(items).1[x] == i && IntEncode(items).1[y] == j;
    if x < y { assert !(j <= i); }
    if y < x { assert !(i <= j); }
  }

  /** Two positions get equal codes exactly when they hold equal items, and ordered codes exactly when ordered items. */
  lemma EncodedComparesLikeItems(items: seq<int>, i: nat, j: nat)
    requires i < |items| && j < |items|
    ensures IntEncode(items).0[i] == IntEncode(items).0[j] <==> items[i] == items[j]
    ensures IntEncode(items).0[i] < IntEncode(items).0[j] <==> items[i] < items[j]
  {
    CodesOrderPreserving(items, items[i], items[j]);
  }

  /** No two keys share a value. */
  predicate Injective(table: map<int, int>) {
    forall x, y :: x in table && y in table && x != y ==> table[x] != table[y]
  }

  /** The dictionary read backwards: code to item. */
  function Invert(table: map<int, int>): (inv: map<int, int>)
    requires Injective(table)
    ensures forall x :: x in table ==> table[x] in inv && inv[table[x]] == x
    ensures forall c :: c in inv <==> c in table.Values
  {
    map x | x in table :: table[x] := x
  }

  /** Replaces each code by the item the inverted dictionary gives for it. */
  function Decode(inv: map<int, int>, codes: seq<int>): (r: seq<int>)
    requires forall i :: 0 <= i < |codes| ==> codes[i] in inv
    ensures |r| == |codes|
    ensures forall i :: 0 <= i < |codes| ==> r[i] == inv[codes[i]]
  {
    seq(|codes|, i requires 0 <= i < |codes| => inv[codes[i]])
  }

  /** The dictionary of `int_encode` is injective. */
  lemma TableInjective(items: seq<int>)
    ensures Injective(IntEncode(items).1)
  {
    forall x, y | x in IntEncode(items).1 && y in IntEncode(items).1 && x != y
      ensures IntEncode(items).1[x] != IntEncode(items).1[y]
    {
      CodesOrderPreserving(items, x, y);
    }
  }

  /** Decoding the encoded sequence with the inverted dictionary gives back the items. */
  lemma DecodeEncode(items: seq<int>)
    ensures Injective(IntEncode(items).1)
    ensures Decode(Invert(IntEncode(items).1), IntEncode(items).0) == items
  {
    TableInjective(items);
  }
}
