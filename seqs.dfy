/**
 * The array operations the subject list is built from: `filter`, a `map`
 * that rewrites the entries whose key matches, and a filter by position.
 */
module Seqs {

  /** `xs.filter(p)`. */
  function Filter<T>(xs: seq<T>, p: T -> bool): (r: seq<T>)
    ensures |r| <= |xs|
    ensures forall i :: 0 <= i < |r| ==> r[i] in xs && p(r[i])
    ensures forall i :: 0 <= i < |xs| && p(xs[i]) ==> xs[i] in r
  {
    if xs == [] then []
    else (if p(xs[0]) then [xs[0]] else []) + Filter(xs[1..], p)
  }

  /** `xs.map(x => key(x) === k ? f(x) : x)`. */
  function MapMatching<T>(xs: seq<T>, key: T -> string, k: string, f: T -> T): (r: seq<T>)
    ensures |r| == |xs|
    ensures forall i :: 0 <= i < |xs| ==> r[i] == if key(xs[i]) == k then f(xs[i]) else xs[i]
  {
    if xs == [] then []
    else [if key(xs[0]) == k then f(xs[0]) else xs[0]] + MapMatching(xs[1..], key, k, f)
  }

  /** `xs.filter((_, i) => i !== index)`. */
  function WithoutIndex<T>(xs: seq<T>, index: int): seq<T>
  {
    if xs == [] then []
    else (if index == 0 then [] else [xs[0]]) + WithoutIndex(xs[1..], index - 1)
  }

  /** `r` is `xs` with some entries dropped and the rest kept in order. */
  predicate IsSubsequence<T(==)>(r: seq<T>, xs: seq<T>)
  {
    if r == [] then true
    else if xs == [] then false
    else (r[0] == xs[0] && IsSubsequence(r[1..], xs[1..])) || IsSubsequence(r, xs[1..])
  }

  /** No value occurs twice in `xs`. */
  predicate Distinct<T(==)>(xs: seq<T>)
  {
    forall i, j :: 0 <= i < j < |xs| ==> xs[i] != xs[j]
  }

  /** A filter keeps every entry that passes exactly as often as the input
      holds it, and no other entry. */
  lemma {:induction false} FilterCounts<T>(xs: seq<T>, p: T -> bool, x: T)
    ensures multiset(Filter(xs, p))[x] == if p(x) then multiset(xs)[x] else 0
  {
    if xs != [] {
      FilterCounts(xs[1..], p, x);
      assert xs == [xs[0]] + xs[1..];
    }
  }

  /** A filter keeps the entries it keeps in their original order. */
  lemma {:induction false} FilterIsSubsequence<T>(xs: seq<T>, p: T -> bool)
    ensures IsSubsequence(Filter(xs, p), xs)
  {
    if xs != [] {
      FilterIsSubsequence(xs[1..], p);
      var r := Filter(xs, p);
      if p(xs[0]) {
        assert r[0] == xs[0] && r[1..] == Filter(xs[1..], p);
      } else {
        assert r == Filter(xs[1..], p);
        if r != [] {
          assert IsSubsequence(r, xs[1..]);
        }
      }
    }
  }

  /** Filtering twice by the same test is filtering once. */
  lemma {:induction false} FilterIdempotent<T>(xs: seq<T>, p: T -> bool)
    ensures Filter(Filter(xs, p), p) == Filter(xs, p)
  {
    if xs != [] {
      FilterIdempotent(xs[1..], p);
      var r := Filter(xs, p);
      if p(xs[0]) {
        assert r[0] == xs[0] && r[1..] == Filter(xs[1..], p);
        assert Filter(r, p) == [r[0]] + Filter(r[1..], p);
      } else {
        assert r == Filter(xs[1..], p);
      }
    }
  }

  /** Rewriting the matching entries with a function that keeps their key
      and is idempotent is itself idempotent. */
  lemma MapMatchingIdempotent<T>(xs: seq<T>, key: T -> string, k: string, f: T -> T)
    requires forall x :: key(x) == k ==> key(f(x)) == k && f(f(x)) == f(x)
    ensures MapMatching(MapMatching(xs, key, k, f), key, k, f) == MapMatching(xs, key, k, f)
  {
  }

  /** With no matching entry, the map is the identity. */
  lemma MapMatchingNoMatch<T>(xs: seq<T>, key: T -> string, k: string, f: T -> T)
    requires forall i :: 0 <= i < |xs| ==> key(xs[i]) != k
    ensures MapMatching(xs, key, k, f) == xs
  {
  }

  /** Filtering by position removes exactly the entry at `index`, and
      nothing when `index` is out of range. */
  lemma {:induction false} WithoutIndexRemovesOne<T>(xs: seq<T>, index: int)
    ensures 0 <= index < |xs| ==> WithoutIndex(xs, index) == xs[..index] + xs[index + 1..]
    ensures !(0 <= index < |xs|) ==> WithoutIndex(xs, index) == xs
  {
    if xs != [] {
      WithoutIndexRemovesOne(xs[1..], index - 1);
      if index == 0 {
        assert xs[index + 1..] == xs[1..];
      } else if 0 < index < |xs| {
        assert xs[..index] == [xs[0]] + xs[1..][..index - 1];
        assert xs[index + 1..] == xs[1..][index..];
      }
    }
  }

  lemma DistinctConcat<T>(xs: seq<T>, ys: seq<T>)
    requires Distinct(xs) && Distinct(ys)
    requires forall x :: x in xs ==> x !in ys
    ensures Distinct(xs + ys)
  {
    var zs := xs + ys;
    forall i, j | 0 <= i < j < |zs| ensures zs[i] != zs[j] {
      if i < |xs| && |xs| <= j {
        assert zs[i] in xs && zs[j] == ys[j - |xs|];
      } else if |xs| <= i {
        assert zs[i] == ys[i - |xs|] && zs[j] == ys[j - |xs|];
      }
    }
  }

  /** The key of every entry, in order (`xs.map(key)`). */
  function Keys<T>(xs: seq<T>, key: T -> string): seq<string>
  {
    seq(|xs|, i requires 0 <= i < |xs| => key(xs[i]))
  }

  lemma KeysConcat<T>(xs: seq<T>, ys: seq<T>, key: T -> string)
    ensures Keys(xs + ys, key) == Keys(xs, key) + Keys(ys, key)
  {
  }

  /** Every key of a filtered sequence is a key of the original. */
  lemma KeysOfFilter<T>(xs: seq<T>, p: T -> bool, key: T -> string)
    ensures forall k :: k in Keys(Filter(xs, p), key) ==> k in Keys(xs, key)
  {
    var r := Filter(xs, p);
    forall k | k in Keys(r, key) ensures k in Keys(xs, key) {
      var i :| 0 <= i < |r| && Keys(r, key)[i] == k;
      var j :| 0 <= j < |xs| && xs[j] == r[i];
      assert Keys(xs, key)[j] == k;
    }
  }

  /** Filtering keeps keys distinct. */
  lemma {:induction false} FilterKeepsKeysDistinct<T>(xs: seq<T>, p: T -> bool, key: T -> string)
    requires Distinct(Keys(xs, key))
    ensures Distinct(Keys(Filter(xs, p), key))
  {
    if xs != [] {
      var rest := xs[1..];
      assert Keys(xs, key) == [key(xs[0])] + Keys(rest, key);
      assert Keys(rest, key) == Keys(xs, key)[1..];
      FilterKeepsKeysDistinct(rest, p, key);
      var head := if p(xs[0]) then [xs[0]] else [];
      assert Filter(xs, p) == head + Filter(rest, p);
      KeysConcat(head, Filter(rest, p), key);
      KeysOfFilter(rest, p, key);
      forall j | 0 <= j < |rest| ensures Keys(rest, key)[j] != key(xs[0]) {
        assert Keys(rest, key)[j] == Keys(xs, key)[j + 1];
        assert Keys(xs, key)[0] != Keys(xs, key)[j + 1];
      }
      DistinctConcat(Keys(head, key), Keys(Filter(rest, p), key));
    }
  }

  /** Rewriting matching entries with a function that keeps their key keeps
      every key in place. */
  lemma MapMatchingKeepsKeys<T>(xs: seq<T>, key: T -> string, k: string, f: T -> T)
    requires forall x :: key(x) == k ==> key(f(x)) == k
    ensures Keys(MapMatching(xs, key, k, f), key) == Keys(xs, key)
  {
  }
}
