/** Sequence operations shared by the front end and the backend: filtering,
    substring search with ASCII case folding, sums and counts, SQL-style limits
    and JavaScript's `findIndex`. */
module Seqs {

  /** The elements of `s` that satisfy `p`, in their original order
      (JavaScript `Array.prototype.filter`, a SQL `WHERE`). */
  function Filter<T(==)>(s: seq<T>, p: T -> bool): (r: seq<T>)
    ensures |r| <= |s|
    ensures forall x | x in r :: x in s && p(x)
    ensures forall x | x in s && p(x) :: x in r
    ensures forall x {:trigger multiset(r)[x]} | x in s :: multiset(r)[x] == if p(x) then multiset(s)[x] else 0
  {
    if |s| == 0 then []
    else
      assert s == [s[0]] + s[1..];
      (if p(s[0]) then [s[0]] else []) + Filter(s[1..], p)
  }

  /** Filtering distributes over concatenation; together with the one-element case
      this fixes the order of the filtered elements to that of `s`. */
  lemma {:induction false} FilterConcat<T>(a: seq<T>, b: seq<T>, p: T -> bool)
    ensures Filter(a + b, p) == Filter(a, p) + Filter(b, p)
  {
    if |a| == 0 {
      assert a + b == b;
    } else {
      assert (a + b)[0] == a[0];
      assert (a + b)[1..] == a[1..] + b;
      FilterConcat(a[1..], b, p);
    }
  }

  /** A filter that keeps everything is the identity. */
  lemma {:induction false} FilterAll<T>(s: seq<T>, p: T -> bool)
    requires forall x :: x in s ==> p(x)
    ensures Filter(s, p) == s
  {
    if |s| > 0 {
      FilterAll(s[1..], p);
    }
  }

  /** A filter that keeps nothing yields the empty sequence. */
  lemma {:induction false} FilterNone<T>(s: seq<T>, p: T -> bool)
    requires forall x | x in s :: !p(x)
    ensures Filter(s, p) == []
  {
    if |s| > 0 {
      FilterNone(s[1..], p);
    }
  }

  /** Does `pattern` occur in `text` as a contiguous block? (JavaScript
      `String.prototype.includes`, SQL `LIKE '%pattern%'`.) */
  predicate Contains(text: string, pattern: string) {
    exists i | 0 <= i <= |text| - |pattern| :: OccursAt(text, pattern, i)
  }

  /** `pattern` occurs in `text` starting at index `i`. */
  predicate OccursAt(text: string, pattern: string, i: int)
    requires 0 <= i <= |text| - |pattern|
  {
    text[i..i + |pattern|] == pattern
  }

  /** ASCII upper-case letters map to lower case; every other character is kept. */
  function LowerChar(c: char): (r: char)
    ensures 'A' <= c <= 'Z' ==> r as int == c as int + 32
    ensures !('A' <= c <= 'Z') ==> r == c
  {
    if 'A' <= c <= 'Z' then (c as int + 32) as char else c
  }

  /** The string with every ASCII upper-case letter lowered. */
  function Lower(s: string): (r: string)
    ensures |r| == |s|
    ensures forall i :: 0 <= i < |s| ==> r[i] == LowerChar(s[i])
  {
    seq(|s|, i requires 0 <= i < |s| => LowerChar(s[i]))
  }

  /** Lowering twice is lowering once. */
  lemma LowerIdempotent(s: string)
    ensures Lower(Lower(s)) == Lower(s)
  {
  }

  /** Case-insensitive substring test: `text.toLowerCase().includes(pattern.toLowerCase())`,
      or `ILIKE '%pattern%'`. */
  predicate ContainsIgnoringCase(text: string, pattern: string) {
    Contains(Lower(text), Lower(pattern))
  }

  /** The sum of `f` over the elements of `s`. */
  function SumBy<T>(s: seq<T>, f: T -> real): real {
    if |s| == 0 then 0.0 else f(s[0]) + SumBy(s[1..], f)
  }

  lemma {:induction false} SumByConcat<T>(a: seq<T>, b: seq<T>, f: T -> real)
    ensures SumBy(a + b, f) == SumBy(a, f) + SumBy(b, f)
  {
    if |a| == 0 {
      assert a + b == b;
    } else {
      assert (a + b)[1..] == a[1..] + b;
      SumByConcat(a[1..], b, f);
    }
  }

  /** When `p` holds exactly where one of two exclusive predicates holds, the sum
      over the `p`-elements is the sum over the `p1`-elements plus the sum over the
      `p2`-elements. */
  lemma {:induction false} SumByDisjointSplit<T>(s: seq<T>, f: T -> real, p: T -> bool, p1: T -> bool, p2: T -> bool)
    requires forall x | x in s :: p(x) <==> p1(x) || p2(x)
    requires forall x | x in s :: !(p1(x) && p2(x))
    ensures SumBy(Filter(s, p), f) == SumBy(Filter(s, p1), f) + SumBy(Filter(s, p2), f)
  {
    if |s| > 0 {
      var x, t := s[0], s[1..];
      assert x in s;
      assert forall y | y in t :: y in s;
      SumByDisjointSplit(t, f, p, p1, p2);
      var hp := if p(x) then [x] else [];
      var h1 := if p1(x) then [x] else [];
      var h2 := if p2(x) then [x] else [];
      SumByConcat(hp, Filter(t, p), f);
      SumByConcat(h1, Filter(t, p1), f);
      SumByConcat(h2, Filter(t, p2), f);
    }
  }

  /** Two predicates that agree on `s` select the same elements. */
  lemma {:induction false} FilterExtensional<T>(s: seq<T>, p: T -> bool, q: T -> bool)
    requires forall x :: x in s ==> (p(x) <==> q(x))
    ensures Filter(s, p) == Filter(s, q)
  {
    if |s| > 0 {
      assert s[0] in s;
      FilterExtensional(s[1..], p, q);
    }
  }

  /** No element occurs twice. */
  predicate NoDuplicates<T(==)>(s: seq<T>) {
    forall x | x in s :: multiset(s)[x] == 1
  }

  function Min(a: int, b: int): int {
    if a <= b then a else b
  }

  /** SQL `LIMIT limit` as SQLite evaluates it: a non-negative limit keeps that many
      leading rows, a negative one keeps them all. */
  function ApplyLimit<T>(s: seq<T>, limit: int): (r: seq<T>)
    ensures |r| <= |s| && r == s[..|r|]
    ensures limit >= 0 ==> |r| == Min(limit, |s|)
    ensures limit < 0 ==> r == s
  {
    if limit < 0 then s else s[..Min(limit, |s|)]
  }

  /** JavaScript `Array.prototype.findIndex`: the first index whose element satisfies
      `p`, or -1 when none does. */
  function FindIndex<T>(s: seq<T>, p: T -> bool): (r: int)
    ensures -1 <= r < |s|
    ensures r >= 0 ==> p(s[r]) && forall j :: 0 <= j < r ==> !p(s[j])
    ensures r == -1 <==> forall j :: 0 <= j < |s| ==> !p(s[j])
  {
    if |s| == 0 then -1
    else if p(s[0]) then 0
    else
      var k := FindIndex(s[1..], p);
      if k == -1 then -1 else k + 1
  }
}
