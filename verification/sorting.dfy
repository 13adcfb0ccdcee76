/** Sorting by a real-valued key. The backend's `ORDER BY ... DESC`, Python's
    `list.sort(key=...)` and JavaScript's `Array.prototype.sort` with a numeric
    comparator are all modelled by one insertion sort; the contracts speak only of
    order and of the multiset of elements, so they hold for any order of ties. */
module Sorting {
  import opened Seqs

  /** Keys never increase from left to right. */
  predicate SortedDesc<T>(s: seq<T>, key: T -> real) {
    forall i, j | 0 <= i < j < |s| :: key(s[i]) >= key(s[j])
  }

  /** Keys never decrease from left to right. */
  predicate SortedAsc<T>(s: seq<T>, key: T -> real) {
    forall i, j | 0 <= i < j < |s| :: key(s[i]) <= key(s[j])
  }

  /** Inserts `x` into a descending sequence, in front of the first element whose key
      is not greater than its own. */
  function InsertDesc<T(==)>(x: T, s: seq<T>, key: T -> real): (r: seq<T>)
    requires SortedDesc(s, key)
    ensures |r| == |s| + 1
    ensures multiset(r) == multiset(s) + multiset{x}
    ensures SortedDesc(r, key)
  {
    if |s| == 0 then [x]
    else if key(x) >= key(s[0]) then
      ConsSorted(x, s, key);
      [x] + s
    else
      var t := InsertDesc(x, s[1..], key);
      assert s == [s[0]] + s[1..];
      TailBelowHead(x, s, t, key);
      ConsSorted(s[0], t, key);
      [s[0]] + t
  }

  /** Putting in front of a descending sequence an element whose key bounds all of
      its keys keeps it descending. */
  lemma ConsSorted<T>(h: T, t: seq<T>, key: T -> real)
    requires SortedDesc(t, key)
    requires forall y | y in t :: key(y) <= key(h)
    ensures SortedDesc([h] + t, key)
  {
    var r := [h] + t;
    forall i, j | 0 <= i < j < |r|
      ensures key(r[i]) >= key(r[j])
    {
      assert r[j] == t[j - 1];
      if i > 0 {
        assert r[i] == t[i - 1];
      } else {
        assert t[j - 1] in t;
      }
    }
  }

  /** Every element of the result of inserting `x`, with a smaller key than the head
      of `s`, into the tail of `s` has a key at most that of the head. */
  lemma TailBelowHead<T>(x: T, s: seq<T>, t: seq<T>, key: T -> real)
    requires SortedDesc(s, key) && |s| > 0 && key(x) < key(s[0])
    requires multiset(t) == multiset(s[1..]) + multiset{x}
    ensures forall y | y in t :: key(y) <= key(s[0])
  {
    forall y | y in t
      ensures key(y) <= key(s[0])
    {
      assert y in multiset(t);
      if y != x {
        assert y in multiset(s[1..]);
        var j :| 0 <= j < |s[1..]| && s[1..][j] == y;
        assert s[j + 1] == y;
      }
    }
  }

  /** The elements of `s` ordered by non-increasing key. */
  function SortDesc<T(==)>(s: seq<T>, key: T -> real): (r: seq<T>)
    ensures |r| == |s|
    ensures multiset(r) == multiset(s)
    ensures SortedDesc(r, key)
  {
    if |s| == 0 then []
    else
      assert s == [s[0]] + s[1..];
      InsertDesc(s[0], SortDesc(s[1..], key), key)
  }

  /** The elements of `s` ordered by non-decreasing key. */
  function SortAsc<T(==)>(s: seq<T>, key: T -> real): (r: seq<T>)
    ensures |r| == |s|
    ensures multiset(r) == multiset(s)
    ensures SortedAsc(r, key)
  {
    var neg := x => -key(x);
    var r := SortDesc(s, neg);
    assert forall i, j | 0 <= i < j < |r| :: neg(r[i]) >= neg(r[j]);
    r
  }

  /** In a descending sequence every element of a prefix has a key at least that of
      every element after it: taking a prefix keeps the largest keys. */
  lemma PrefixDominatesSuffix<T>(s: seq<T>, k: nat, key: T -> real)
    requires SortedDesc(s, key)
    requires k <= |s|
    ensures forall y, x | y in s[..k] && x in s[k..] :: key(y) >= key(x)
  {
    forall y, x | y in s[..k] && x in s[k..]
      ensures key(y) >= key(x)
    {
      var i :| 0 <= i < k && s[..k][i] == y;
      var j :| 0 <= j < |s| - k && s[k..][j] == x;
      assert s[k + j] == x;
    }
  }

  /** The first element of a descending sequence holding the elements of `s` has the
      largest key among them. */
  lemma HeadIsMax<T>(s: seq<T>, r: seq<T>, key: T -> real)
    requires SortedDesc(r, key)
    requires multiset(r) == multiset(s)
    requires |r| > 0
    ensures r[0] in s
    ensures forall x | x in s :: key(r[0]) >= key(x)
  {
    assert r[0] in multiset(r);
    forall x | x in s
      ensures key(r[0]) >= key(x)
    {
      assert x in multiset(s);
      var j :| 0 <= j < |r| && r[j] == x;
    }
  }

  /** `ORDER BY key DESC LIMIT limit`: the kept rows come from `s`, are in descending
      order, number as many as the limit allows, and no row left out has a larger key
      than a row kept. */
  function TopBy<T(==)>(s: seq<T>, key: T -> real, limit: int): (r: seq<T>)
    ensures multiset(r) <= multiset(s)
    ensures SortedDesc(r, key)
    ensures limit >= 0 ==> |r| == Min(limit, |s|)
    ensures limit < 0 ==> |r| == |s|
    ensures forall y, x | y in r && x in multiset(s) - multiset(r) :: key(y) >= key(x)
    ensures forall x | x in r :: x in s
    ensures forall x | x in s && x !in r :: |r| == limit && forall y | y in r :: key(y) >= key(x)
  {
    var sorted := SortDesc(s, key);
    var r := ApplyLimit(sorted, limit);
    PrefixKeepsLargest(s, sorted, |r|, key);
    SubMultisetMembers(r, s);
    LeftOutIsDominated(s, r, key, limit);
    r
  }

  /** Of a descending arrangement of `s`, the first `k` elements are drawn from `s`
      and none of the others has a larger key. */
  lemma PrefixKeepsLargest<T>(s: seq<T>, sorted: seq<T>, k: nat, key: T -> real)
    requires SortedDesc(sorted, key)
    requires multiset(sorted) == multiset(s)
    requires k <= |sorted|
    ensures multiset(sorted[..k]) <= multiset(s)
    ensures forall y, x | y in sorted[..k] && x in multiset(s) - multiset(sorted[..k]) :: key(y) >= key(x)
  {
    assert sorted == sorted[..k] + sorted[k..];
    assert multiset(sorted) == multiset(sorted[..k]) + multiset(sorted[k..]);
    PrefixDominatesSuffix(sorted, k, key);
    forall y, x | y in sorted[..k] && x in multiset(s) - multiset(sorted[..k])
      ensures key(y) >= key(x)
    {
      assert x in multiset(sorted[k..]);
    }
  }

  /** An element of `matching` missing from `top` can only be missing because the
      limit was reached, and then its key is no larger than any kept element's. */
  lemma LeftOutIsDominated<T>(matching: seq<T>, top: seq<T>, key: T -> real, limit: int)
    requires multiset(top) <= multiset(matching)
    requires limit >= 0 ==> |top| == Min(limit, |matching|)
    requires limit < 0 ==> |top| == |matching|
    requires forall y, x | y in top && x in multiset(matching) - multiset(top) :: key(y) >= key(x)
    ensures forall x | x in matching && x !in top :: |top| == limit && forall y | y in top :: key(y) >= key(x)
  {
    forall x | x in matching && x !in top
      ensures |top| == limit && forall y | y in top :: key(y) >= key(x)
    {
      assert x in multiset(matching) - multiset(top);
      if |top| == |matching| {
        assert multiset(top) == multiset(matching) by {
          assert |multiset(top)| == |multiset(matching)|;
          MultisetSubsetEqualSize(multiset(top), multiset(matching));
        }
        assert false;
      }
    }
  }

  /** The elements of a sequence whose multiset is contained in another's occur in it. */
  lemma SubMultisetMembers<T>(a: seq<T>, b: seq<T>)
    requires multiset(a) <= multiset(b)
    ensures forall x | x in a :: x in b
  {
    forall x | x in a ensures x in b {
      assert x in multiset(a);
    }
  }

  /** A sub-multiset as large as its super-multiset is equal to it. */
  lemma {:induction false} MultisetSubsetEqualSize<T>(a: multiset<T>, b: multiset<T>)
    requires a <= b && |a| == |b|
    ensures a == b
  {
    if |a| > 0 {
      var x :| x in a;
      MultisetSubsetEqualSize(a - multiset{x}, b - multiset{x});
    } else {
      assert |b| == 0;
    }
  }
}
