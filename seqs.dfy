/**
 * Generic operations on sequences: the boolean-mask filter, counting, taking a prefix,
 * a stable descending sort by an integer key, and filtering by an explicit mask.
 * These stand for the tabular library's masks, `len`, `head`, `sort_values` and
 * array masking used throughout the application.
 */
module Seqs {

  /** `r` is obtained from `s` by deleting some elements, keeping the order of the rest. */
  predicate IsSubsequence<T(==)>(r: seq<T>, s: seq<T>)
    decreases |s|
  {
    if r == [] then true
    else if s == [] then false
    else if r[0] == s[0] then IsSubsequence(r[1..], s[1..])
    else IsSubsequence(r, s[1..])
  }

  /** Every sequence is a subsequence of itself: the unfiltered table. */
  lemma {:induction false} SubsequenceOfSelf<T>(s: seq<T>)
    ensures IsSubsequence(s, s)
    decreases |s|
  {
    if s != [] {
      SubsequenceOfSelf(s[1..]);
    }
  }

  /** The rows of `s` for which the mask `p` holds, in their original order. */
  function Filter<T(==)>(s: seq<T>, p: T -> bool): (r: seq<T>)
    ensures |r| <= |s|
    ensures forall x :: x in r ==> x in s && p(x)
    ensures forall x :: x in s && p(x) ==> x in r
  {
    if s == [] then []
    else if p(s[0]) then [s[0]] + Filter(s[1..], p)
    else Filter(s[1..], p)
  }

  /** The number of rows of `s` the mask `p` selects. */
  function Count<T(==)>(s: seq<T>, p: T -> bool): nat
  {
    |Filter(s, p)|
  }

  lemma {:induction false} FilterIsSubsequence<T>(s: seq<T>, p: T -> bool)
    ensures IsSubsequence(Filter(s, p), s)
  {
    if s != [] {
      FilterIsSubsequence(s[1..], p);
      if p(s[0]) {
        assert ([s[0]] + Filter(s[1..], p))[1..] == Filter(s[1..], p);
      } else {
        var r := Filter(s[1..], p);
        assert r != [] ==> r[0] in r && p(r[0]);
      }
    }
  }

  /** A filter keeps every selected row as often as it occurs in the source, and no other row. */
  lemma {:induction false} FilterMultiset<T>(s: seq<T>, p: T -> bool)
    ensures forall x :: multiset(Filter(s, p))[x] == if p(x) then multiset(s)[x] else 0
  {
    if s != [] {
      FilterMultiset(s[1..], p);
      assert s == [s[0]] + s[1..];
      assert multiset(s) == multiset{s[0]} + multiset(s[1..]);
    }
  }

  /** A mask that rejects some row of `s` keeps fewer rows than `s` has. */
  lemma {:induction false} FilterDropsRejected<T>(s: seq<T>, p: T -> bool, x: T)
    requires x in s && !p(x)
    ensures |Filter(s, p)| < |s|
  {
    if s[0] != x {
      FilterDropsRejected(s[1..], p, x);
    }
  }

  /** A mask that selects no more rows than another one counts no more rows. */
  lemma {:induction false} CountMonotone<T>(s: seq<T>, p: T -> bool, q: T -> bool)
    requires forall x :: x in s && p(x) ==> q(x)
    ensures Count(s, p) <= Count(s, q)
  {
    if s != [] {
      CountMonotone(s[1..], p, q);
    }
  }

  /** Filtering a concatenation filters each part. */
  lemma {:induction false} FilterAppend<T>(s: seq<T>, t: seq<T>, p: T -> bool)
    ensures Filter(s + t, p) == Filter(s, p) + Filter(t, p)
  {
    if s == [] {
      assert s + t == t;
    } else {
      assert (s + t)[1..] == s[1..] + t;
      FilterAppend(s[1..], t, p);
    }
  }

  /** One more row raises the count by one exactly when the mask selects it. */
  lemma CountAppend<T>(s: seq<T>, x: T, p: T -> bool)
    ensures Count(s + [x], p) == Count(s, p) + (if p(x) then 1 else 0)
  {
    FilterAppend(s, [x], p);
    assert [x][1..] == [];
  }

  /** A mask that holds nowhere selects nothing. */
  lemma {:induction false} FilterNone<T>(s: seq<T>, p: T -> bool)
    requires forall x :: x in s ==> !p(x)
    ensures Filter(s, p) == []
  {
    if s != [] {
      FilterNone(s[1..], p);
    }
  }

  /** A mask that holds everywhere selects everything. */
  lemma {:induction false} FilterAll<T>(s: seq<T>, p: T -> bool)
    requires forall x :: x in s ==> p(x)
    ensures Filter(s, p) == s
  {
    if s != [] {
      FilterAll(s[1..], p);
      assert [s[0]] + s[1..] == s;
    }
  }

  /** A mask counts nothing exactly when it holds for no row. */
  lemma CountZero<T>(s: seq<T>, p: T -> bool)
    ensures Count(s, p) == 0 <==> forall x :: x in s ==> !p(x)
  {
    var r := Filter(s, p);
    if r != [] {
      assert r[0] in r;
    }
  }

  /** A mask counts every row exactly when it holds for every row. */
  lemma CountFull<T>(s: seq<T>, p: T -> bool)
    ensures Count(s, p) == |s| <==> forall x :: x in s ==> p(x)
  {
    if forall x :: x in s ==> p(x) {
      FilterAll(s, p);
    } else {
      var x :| x in s && !p(x);
      FilterDropsRejected(s, p, x);
    }
  }

  /** The first `n` rows, or all of them when there are fewer (`head(n)`). */
  function Take<T>(s: seq<T>, n: nat): (r: seq<T>)
    ensures |r| == if |s| <= n then |s| else n
    ensures forall i :: 0 <= i < |r| ==> r[i] == s[i]
  {
    if |s| <= n then s else s[..n]
  }

  /** In a descending sequence, a row left out of the first `n` ranks no higher than any row kept. */
  lemma TakeOfSortedIsTop<T>(s: seq<T>, n: nat, key: T -> int, x: T, y: T)
    requires SortedDesc(s, key)
    requires x in Take(s, n)
    requires multiset(Take(s, n))[y] < multiset(s)[y]
    ensures key(y) <= key(x)
  {
    var t := Take(s, n);
    var k := |t|;
    assert t == s[..k];
    assert s == t + s[k..];
    assert multiset(s) == multiset(t) + multiset(s[k..]);
    assert y in multiset(s[k..]);
    var j :| k <= j < |s| && s[j] == y;
    var i :| 0 <= i < k && t[i] == x;
    assert key(s[i]) >= key(s[j]);
  }

  /** The first rows occur no more often than in the whole. */
  lemma TakeIsPart<T>(s: seq<T>, n: nat)
    ensures multiset(Take(s, n)) <= multiset(s)
  {
    var t := Take(s, n);
    assert t == s[..|t|];
    assert s == t + s[|t|..];
    assert multiset(s) == multiset(t) + multiset(s[|t|..]);
  }

  /** `s` is ordered by `key`, largest first. */
  ghost predicate SortedDesc<T>(s: seq<T>, key: T -> int)
  {
    forall i, j :: 0 <= i < j < |s| ==> key(s[i]) >= key(s[j])
  }

  /** Puts `x` in front of the first element whose key is not larger than its own. */
  function Insert<T>(x: T, s: seq<T>, key: T -> int): (r: seq<T>)
    ensures multiset(r) == multiset(s) + multiset{x}
  {
    if s == [] then [x]
    else if key(x) >= key(s[0]) then [x] + s
    else
      assert s == [s[0]] + s[1..];
      [s[0]] + Insert(x, s[1..], key)
  }

  lemma {:induction false} InsertSorted<T>(x: T, s: seq<T>, key: T -> int)
    requires SortedDesc(s, key)
    ensures SortedDesc(Insert(x, s, key), key)
  {
    if s != [] && key(x) < key(s[0]) {
      InsertSorted(x, s[1..], key);
      var rest := Insert(x, s[1..], key);
      forall k | 0 <= k < |rest| ensures key(rest[k]) <= key(s[0]) {
        assert rest[k] in multiset(rest);
        assert rest[k] == x || rest[k] in multiset(s[1..]);
      }
      assert Insert(x, s, key) == [s[0]] + rest;
    }
  }

  /** Insertion sort by `key`, largest first: the stand-in for `sort_values(..., ascending=False)`. */
  function SortDesc<T>(s: seq<T>, key: T -> int): (r: seq<T>)
    ensures multiset(r) == multiset(s)
    ensures |r| == |s|
    ensures SortedDesc(r, key)
  {
    if s == [] then []
    else
      assert s == [s[0]] + s[1..];
      InsertSorted(s[0], SortDesc(s[1..], key), key);
      Insert(s[0], SortDesc(s[1..], key), key)
  }

  /** The elements of `s` whose position is set in `mask` (NumPy's `array[mask]`). */
  function MaskFilter<T>(s: seq<T>, mask: seq<bool>): (r: seq<T>)
    requires |s| == |mask|
    ensures |r| <= |s|
  {
    if s == [] then []
    else (if mask[0] then [s[0]] else []) + MaskFilter(s[1..], mask[1..])
  }

  /** The number of set positions in a mask. */
  function TrueCount(mask: seq<bool>): nat
  {
    if mask == [] then 0 else (if mask[0] then 1 else 0) + TrueCount(mask[1..])
  }

  lemma {:induction false} MaskFilterLength<T>(s: seq<T>, mask: seq<bool>)
    requires |s| == |mask|
    ensures |MaskFilter(s, mask)| == TrueCount(mask)
  {
    if s != [] {
      MaskFilterLength(s[1..], mask[1..]);
    }
  }

  /** The set positions of `mask` from `from` on, in increasing order (NumPy's `nonzero`). */
  function IndicesFrom(mask: seq<bool>, from: nat): (ix: seq<nat>)
    requires from <= |mask|
    ensures |ix| == TrueCount(mask[from..])
    ensures forall i :: 0 <= i < |ix| ==> from <= ix[i] < |mask| && mask[ix[i]]
    ensures forall i, j :: 0 <= i < j < |ix| ==> ix[i] < ix[j]
    ensures forall k :: from <= k < |mask| && mask[k] ==> k in ix
    decreases |mask| - from
  {
    if from == |mask| then []
    else
      assert mask[from..][1..] == mask[from + 1..];
      (if mask[from] then [from] else []) + IndicesFrom(mask, from + 1)
  }

  /** All set positions of a mask. */
  function MaskIndices(mask: seq<bool>): seq<nat>
  {
    IndicesFrom(mask, 0)
  }

  /** Masking from `from` on keeps or drops the element at `from`, then masks the rest. */
  lemma MaskFilterStep<T>(s: seq<T>, mask: seq<bool>, from: nat)
    requires |s| == |mask| && from < |s|
    ensures MaskFilter(s[from..], mask[from..])
            == (if mask[from] then [s[from]] else []) + MaskFilter(s[from + 1..], mask[from + 1..])
  {
    assert s[from..][1..] == s[from + 1..];
    assert mask[from..][1..] == mask[from + 1..];
  }

  /** Masking from `from` on: the i-th survivor is the element at the i-th set position. */
  lemma {:induction false} MaskFilterFrom<T>(s: seq<T>, mask: seq<bool>, from: nat)
    requires |s| == |mask| && from <= |s|
    ensures |MaskFilter(s[from..], mask[from..])| == |IndicesFrom(mask, from)|
    ensures forall i :: 0 <= i < |IndicesFrom(mask, from)| ==>
              MaskFilter(s[from..], mask[from..])[i] == s[IndicesFrom(mask, from)[i]]
    decreases |s| - from
  {
    MaskFilterLength(s[from..], mask[from..]);
    if from < |s| {
      MaskFilterFrom(s, mask, from + 1);
      MaskFilterStep(s, mask, from);
      var r1 := MaskFilter(s[from + 1..], mask[from + 1..]);
      var ix1 := IndicesFrom(mask, from + 1);
      assert IndicesFrom(mask, from) == (if mask[from] then [from] else []) + ix1;
      if mask[from] {
        PrependAligned(s, s[from], r1, from, ix1);
      } else {
        assert IndicesFrom(mask, from) == ix1;
      }
    }
  }

  /** Putting the element at `j` in front of an aligned selection keeps it aligned. */
  lemma PrependAligned<T>(s: seq<T>, x: T, r: seq<T>, j: nat, ix: seq<nat>)
    requires j < |s| && s[j] == x && |r| == |ix|
    requires forall i :: 0 <= i < |ix| ==> ix[i] < |s| && r[i] == s[ix[i]]
    ensures forall i :: 0 <= i < |ix| + 1 ==> ([x] + r)[i] == s[([j] + ix)[i]]
  {
    forall i | 0 <= i < |ix| + 1 ensures ([x] + r)[i] == s[([j] + ix)[i]] {
      if i > 0 {
        assert ([x] + r)[i] == r[i - 1];
        assert ([j] + ix)[i] == ix[i - 1];
      }
    }
  }

  /** Masking aligned sequences keeps them aligned: the i-th survivor of each comes from the same position. */
  lemma MaskFilterAt<T>(s: seq<T>, mask: seq<bool>)
    requires |s| == |mask|
    ensures |MaskFilter(s, mask)| == |MaskIndices(mask)|
    ensures forall i :: 0 <= i < |MaskIndices(mask)| ==> MaskFilter(s, mask)[i] == s[MaskIndices(mask)[i]]
  {
    MaskFilterFrom(s, mask, 0);
    assert s[0..] == s && mask[0..] == mask;
  }

  /** A mask keeps the element at each of its set positions. */
  lemma {:induction false} MaskFilterKeeps<T>(s: seq<T>, mask: seq<bool>, k: nat)
    requires |s| == |mask| && k < |s| && mask[k]
    ensures s[k] in MaskFilter(s, mask)
  {
    if k > 0 {
      MaskFilterKeeps(s[1..], mask[1..], k - 1);
    }
  }

  /** A mask keeps nothing exactly when none of its positions is set. */
  lemma {:induction false} MaskFilterEmpty<T>(s: seq<T>, mask: seq<bool>)
    requires |s| == |mask|
    ensures MaskFilter(s, mask) == [] <==> forall k :: 0 <= k < |mask| ==> !mask[k]
  {
    if s != [] {
      MaskFilterEmpty(s[1..], mask[1..]);
      assert forall k :: 1 <= k < |mask| ==> mask[k] == mask[1..][k - 1];
    }
  }

  /** Filtering by a mask and then by a stricter one is filtering by the stricter one. */
  lemma {:induction false} FilterFilter<T>(s: seq<T>, p: T -> bool, q: T -> bool)
    requires forall x :: q(x) ==> p(x)
    ensures Filter(Filter(s, p), q) == Filter(s, q)
  {
    if s != [] {
      FilterFilter(s[1..], p, q);
      if p(s[0]) {
        assert ([s[0]] + Filter(s[1..], p))[1..] == Filter(s[1..], p);
      }
    }
  }

  /** Masks that agree on every element filter alike. */
  lemma {:induction false} FilterSameMask<T>(s: seq<T>, p: T -> bool, q: T -> bool)
    requires forall x :: x in s ==> p(x) == q(x)
    ensures Filter(s, p) == Filter(s, q)
  {
    if s != [] {
      FilterSameMask(s[1..], p, q);
    }
  }

  /** Applying the same mask twice changes nothing more. */
  lemma FilterIdempotent<T>(s: seq<T>, p: T -> bool)
    ensures Filter(Filter(s, p), p) == Filter(s, p)
  {
    FilterFilter(s, p, p);
  }

  /** No element occurs twice. */
  ghost predicate Distinct<T>(s: seq<T>)
  {
    forall i, j :: 0 <= i < j < |s| ==> s[i] != s[j]
  }

  /** Filtering never introduces a repeated element. */
  lemma {:induction false} FilterKeepsDistinct<T>(s: seq<T>, p: T -> bool)
    requires Distinct(s)
    ensures Distinct(Filter(s, p))
  {
    if s != [] {
      assert Distinct(s[1..]);
      FilterKeepsDistinct(s[1..], p);
      var rest := Filter(s[1..], p);
      if p(s[0]) {
        assert s[0] !in s[1..];
        assert s[0] !in rest;
        var r := [s[0]] + rest;
        forall i, j | 0 <= i < j < |r| ensures r[i] != r[j] {
          if i == 0 {
            assert r[j] == rest[j - 1];
            assert r[j] in rest;
          } else {
            assert r[i] == rest[i - 1] && r[j] == rest[j - 1];
          }
        }
      }
    }
  }

  /** Appending an element that is not yet present keeps the elements distinct. */
  lemma AppendKeepsDistinct<T>(s: seq<T>, x: T)
    requires Distinct(s) && x !in s
    ensures Distinct(s + [x])
  {
    var r := s + [x];
    forall i, j | 0 <= i < j < |r| ensures r[i] != r[j] {
      if j == |s| {
        assert r[i] == s[i];
      } else {
        assert r[i] == s[i] && r[j] == s[j];
      }
    }
  }
}
