/** Optional values, used where the store's lookups may find nothing and
    where a reader may reject malformed text. */
module Options {
  datatype Option<+T> = None | Some(value: T)
}

/** Generic sequence operations the store is built from: order-preserving
    filtering, first-match search and element-wise mapping. */
module Seqs {
  import opened Options

  /** The elements of `s` that satisfy `keep`, in their original order. */
  function Filter<T>(keep: T -> bool, s: seq<T>): (r: seq<T>)
    ensures |r| <= |s|
    ensures forall i :: 0 <= i < |r| ==> r[i] in s && keep(r[i])
    ensures forall i :: 0 <= i < |s| ==> (s[i] in r <==> keep(s[i]))
    decreases |s|
  {
    if |s| == 0 then []
    else if keep(s[0]) then [s[0]] + Filter(keep, s[1..])
    else Filter(keep, s[1..])
  }

  /** `r` can be obtained from `s` by deleting elements, so it keeps the
      relative order of what it retains. */
  ghost predicate IsSubsequence<T>(r: seq<T>, s: seq<T>)
    decreases |s|
  {
    if |r| == 0 then true
    else if |s| == 0 then false
    else (r[0] == s[0] && IsSubsequence(r[1..], s[1..])) || IsSubsequence(r, s[1..])
  }

  lemma {:induction false} SubsequenceReflexive<T>(s: seq<T>)
    ensures IsSubsequence(s, s)
    decreases |s|
  {
    if |s| > 0 {
      SubsequenceReflexive(s[1..]);
    }
  }

  lemma {:induction false} FilterIsSubsequence<T>(keep: T -> bool, s: seq<T>)
    ensures IsSubsequence(Filter(keep, s), s)
    decreases |s|
  {
    if |s| > 0 {
      FilterIsSubsequence(keep, s[1..]);
    }
  }

  /** Filtering keeps every copy of an element that passes and no copy of one
      that fails. */
  lemma {:induction false} FilterCounts<T>(keep: T -> bool, s: seq<T>)
    ensures forall x :: multiset(Filter(keep, s))[x] == if keep(x) then multiset(s)[x] else 0
    decreases |s|
  {
    if |s| > 0 {
      FilterCounts(keep, s[1..]);
      assert s == [s[0]] + s[1..];
      assert multiset(s) == multiset([s[0]]) + multiset(s[1..]);
    }
  }

  /** Filtering with a test every element passes changes nothing. */
  lemma {:induction false} FilterKeepsAll<T>(keep: T -> bool, s: seq<T>)
    requires forall i :: 0 <= i < |s| ==> keep(s[i])
    ensures Filter(keep, s) == s
    decreases |s|
  {
    if |s| > 0 {
      FilterKeepsAll(keep, s[1..]);
      assert [s[0]] + s[1..] == s;
    }
  }

  /** Appending one passing element to elements that all fail leaves exactly
      that element. */
  lemma {:induction false} FilterAppend<T>(keep: T -> bool, s: seq<T>, x: T)
    requires forall i :: 0 <= i < |s| ==> !keep(s[i])
    requires keep(x)
    ensures Filter(keep, s + [x]) == [x]
    decreases |s|
  {
    if |s| > 0 {
      assert (s + [x])[1..] == s[1..] + [x];
      FilterAppend(keep, s[1..], x);
    }
  }

  /** The elements of `s` have strictly increasing keys, from first to last. */
  ghost predicate IncreasingBy<T>(key: T -> int, s: seq<T>)
  {
    forall i, j :: 0 <= i < j < |s| ==> key(s[i]) < key(s[j])
  }

  /** Every element that survives filtering has a key above any bound that
      holds for the whole input. */
  lemma {:induction false} FilterKeepsLowerBound<T>(keep: T -> bool, key: T -> int, s: seq<T>, bound: int)
    requires forall i :: 0 <= i < |s| ==> bound < key(s[i])
    ensures forall i :: 0 <= i < |Filter(keep, s)| ==> bound < key(Filter(keep, s)[i])
    decreases |s|
  {
    if |s| > 0 {
      FilterKeepsLowerBound(keep, key, s[1..], bound);
    }
  }

  /** Every element that survives filtering has its key in any range that
      holds for the whole input. */
  lemma {:induction false} FilterKeepsRange<T>(keep: T -> bool, key: T -> int, s: seq<T>, lo: int, hi: int)
    requires forall i :: 0 <= i < |s| ==> lo <= key(s[i]) < hi
    ensures forall i :: 0 <= i < |Filter(keep, s)| ==> lo <= key(Filter(keep, s)[i]) < hi
    decreases |s|
  {
    if |s| > 0 {
      FilterKeepsRange(keep, key, s[1..], lo, hi);
    }
  }

  /** An element whose key is below every key of an increasing sequence can
      be put in front of it. */
  lemma ConsIncreasing<T>(key: T -> int, x: T, t: seq<T>)
    requires IncreasingBy(key, t)
    requires forall i :: 0 <= i < |t| ==> key(x) < key(t[i])
    ensures IncreasingBy(key, [x] + t)
  {
    var r := [x] + t;
    forall i, j | 0 <= i < j < |r| ensures key(r[i]) < key(r[j]) {
      assert r[j] == t[j - 1];
      if i > 0 {
        assert r[i] == t[i - 1];
      }
    }
  }

  lemma {:induction false} FilterKeepsIncreasing<T>(keep: T -> bool, key: T -> int, s: seq<T>)
    requires IncreasingBy(key, s)
    ensures IncreasingBy(key, Filter(keep, s))
    decreases |s|
  {
    if |s| > 0 {
      var rest := s[1..];
      assert IncreasingBy(key, rest) by {
        forall i, j | 0 <= i < j < |rest| ensures key(rest[i]) < key(rest[j]) {
          assert rest[i] == s[i + 1] && rest[j] == s[j + 1];
        }
      }
      FilterKeepsIncreasing(keep, key, rest);
      if keep(s[0]) {
        var t := Filter(keep, rest);
        assert forall k :: 0 <= k < |rest| ==> key(s[0]) < key(rest[k]) by {
          forall k | 0 <= k < |rest| ensures key(s[0]) < key(rest[k]) {
            assert rest[k] == s[k + 1];
          }
        }
        FilterKeepsLowerBound(keep, key, rest, key(s[0]));
        assert Filter(keep, s) == [s[0]] + t;
        ConsIncreasing(key, s[0], t);
      }
    }
  }

  /** The position of the first element satisfying `hit`, if any. */
  function FirstIndex<T>(hit: T -> bool, s: seq<T>): (r: Option<nat>)
    ensures r.Some? ==> r.value < |s| && hit(s[r.value])
    ensures r.Some? ==> forall j :: 0 <= j < r.value ==> !hit(s[j])
    ensures r.None? ==> forall j :: 0 <= j < |s| ==> !hit(s[j])
    decreases |s|
  {
    if |s| == 0 then None
    else if hit(s[0]) then Some(0)
    else match FirstIndex(hit, s[1..])
      case None => None
      case Some(k) => Some(k + 1)
  }

  /** `f` applied to every element, in order. */
  function Map<A, B>(f: A -> B, s: seq<A>): (r: seq<B>)
    ensures |r| == |s|
    ensures forall i :: 0 <= i < |s| ==> r[i] == f(s[i])
  {
    seq(|s|, i requires 0 <= i < |s| => f(s[i]))
  }

  /** All the values when every entry is present, otherwise nothing. */
  function Collect<T>(xs: seq<Option<T>>): (r: Option<seq<T>>)
    ensures r.Some? <==> forall i :: 0 <= i < |xs| ==> xs[i].Some?
    ensures r.Some? ==> |r.value| == |xs| && forall i :: 0 <= i < |xs| ==> r.value[i] == xs[i].value
    decreases |xs|
  {
    if |xs| == 0 then Some([])
    else match (xs[0], Collect(xs[1..]))
      case (Some(x), Some(rest)) => Some([x] + rest)
      case _ => None
  }

  /** Decoding what was encoded gives back the originals, one by one. */
  lemma CollectMapInverse<A, B>(decode: B -> Option<A>, encode: A -> B, s: seq<A>)
    requires forall i :: 0 <= i < |s| ==> decode(encode(s[i])) == Some(s[i])
    ensures Collect(Map(decode, Map(encode, s))) == Some(s)
  {
    var xs := Map(decode, Map(encode, s));
    assert forall i :: 0 <= i < |xs| ==> xs[i] == Some(s[i]);
    assert Collect(xs).value == s;
  }
}
