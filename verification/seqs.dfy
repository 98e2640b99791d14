/** Sequence vocabulary shared by the components: `Array.prototype.filter`,
    `map`, the subsequence relation used to state "keeps input order", and the
    first and last index of a key (`find` and last-write-wins maps). */
module Seqs {

  /** `a` can be obtained from `b` by deleting elements, so `a` lists some of
      `b`'s elements in `b`'s order. */
  predicate IsSubsequence<T(==)>(a: seq<T>, b: seq<T>)
    decreases |b|
  {
    |a| == 0 || (|b| > 0 && ((a[0] == b[0] && IsSubsequence(a[1..], b[1..])) || IsSubsequence(a, b[1..])))
  }

  /** `s.filter(keep)`: the elements that satisfy `keep`, in the order of `s`. */
  function Filter<T(!new)>(s: seq<T>, keep: T -> bool): (r: seq<T>)
    ensures |r| <= |s|
    ensures forall i :: 0 <= i < |r| ==> keep(r[i])
  {
    if |s| == 0 then []
    else
      var rest := Filter(s[1..], keep);
      if keep(s[0]) then [s[0]] + rest else rest
  }

  /** An element is in the filtered sequence exactly when it is in the
      original and passes. */
  lemma {:induction false} FilterMembers<T(!new)>(s: seq<T>, keep: T -> bool)
    ensures forall x :: x in Filter(s, keep) <==> x in s && keep(x)
    decreases |s|
  {
    if |s| > 0 {
      FilterMembers(s[1..], keep);
      assert s == [s[0]] + s[1..];
    }
  }

  /** The filtered sequence keeps every passing element as often as it
      occurs and drops every failing one. */
  lemma {:induction false} FilterCounts<T(!new)>(s: seq<T>, keep: T -> bool)
    ensures forall x :: multiset(Filter(s, keep))[x] == if keep(x) then multiset(s)[x] else 0
    decreases |s|
  {
    if |s| > 0 {
      FilterCounts(s[1..], keep);
      assert s == [s[0]] + s[1..];
      assert multiset(s) == multiset{s[0]} + multiset(s[1..]);
    }
  }

  /** The filtered sequence keeps the original order. */
  lemma {:induction false} FilterOrder<T(!new)>(s: seq<T>, keep: T -> bool)
    ensures IsSubsequence(Filter(s, keep), s)
    decreases |s|
  {
    if |s| > 0 {
      FilterOrder(s[1..], keep);
    }
  }

  /** Filtering distributes over appending one element at the end, which is
      how a `forEach` loop that pushes matches builds its result. */
  lemma {:induction false} FilterSnoc<T(!new)>(s: seq<T>, x: T, keep: T -> bool)
    ensures Filter(s + [x], keep) == Filter(s, keep) + (if keep(x) then [x] else [])
    decreases |s|
  {
    var tail := if keep(x) then [x] else [];
    if |s| == 0 {
      assert s + [x] == [x];
      assert [x][1..] == [];
      assert Filter([x], keep) == tail + Filter([], keep);
    } else {
      var t := s + [x];
      var head := if keep(s[0]) then [s[0]] else [];
      assert t[0] == s[0];
      assert t[1..] == s[1..] + [x];
      FilterSnoc(s[1..], x, keep);
      calc {
        Filter(t, keep);
        head + Filter(t[1..], keep);
        head + (Filter(s[1..], keep) + tail);
        (head + Filter(s[1..], keep)) + tail;
        Filter(s, keep) + tail;
      }
    }
  }

  /** Filtering the whole sequence keeps everything when every element passes. */
  lemma {:induction false} FilterAll<T(!new)>(s: seq<T>, keep: T -> bool)
    requires forall i :: 0 <= i < |s| ==> keep(s[i])
    ensures Filter(s, keep) == s
    decreases |s|
  {
    if |s| > 0 {
      FilterAll(s[1..], keep);
      assert s == [s[0]] + s[1..];
    }
  }

  /** `s.map(f)`. */
  function Map<T, U>(s: seq<T>, f: T -> U): (r: seq<U>)
    ensures |r| == |s|
    ensures forall i :: 0 <= i < |s| ==> r[i] == f(s[i])
  {
    seq(|s|, i requires 0 <= i < |s| => f(s[i]))
  }

  /** Mapping keeps the subsequence relation. */
  lemma {:induction false} MapSubsequence<T, U>(a: seq<T>, b: seq<T>, f: T -> U)
    requires IsSubsequence(a, b)
    ensures IsSubsequence(Map(a, f), Map(b, f))
    decreases |b|
  {
    if |a| > 0 {
      assert Map(a, f)[1..] == Map(a[1..], f);
      assert Map(b, f)[1..] == Map(b[1..], f);
      if a[0] == b[0] && IsSubsequence(a[1..], b[1..]) {
        MapSubsequence(a[1..], b[1..], f);
      } else {
        MapSubsequence(a, b[1..], f);
      }
    }
  }

  /** Every element of a subsequence is an element of the whole. */
  lemma {:induction false} SubsequenceMembers<T>(a: seq<T>, b: seq<T>)
    requires IsSubsequence(a, b)
    ensures forall x :: x in a ==> x in b
    decreases |b|
  {
    if |a| > 0 {
      if a[0] == b[0] && IsSubsequence(a[1..], b[1..]) {
        SubsequenceMembers(a[1..], b[1..]);
        assert a == [a[0]] + a[1..];
        assert b == [b[0]] + b[1..];
      } else {
        SubsequenceMembers(a, b[1..]);
        assert b == [b[0]] + b[1..];
      }
    }
  }

  /** The sequence with no two equal elements. */
  predicate Distinct<T(==)>(s: seq<T>) {
    forall i, j :: 0 <= i < j < |s| ==> s[i] != s[j]
  }

  lemma EmptySubsequence<T>(b: seq<T>)
    ensures IsSubsequence([], b)
  {
  }

  /** Every sequence is a subsequence of itself. */
  lemma {:induction false} SubsequenceSelf<T>(a: seq<T>)
    ensures IsSubsequence(a, a)
    decreases |a|
  {
    if |a| > 0 {
      SubsequenceSelf(a[1..]);
    }
  }

  /** A subsequence of `b` is a subsequence of `c + b`. */
  lemma {:induction false} SubsequencePrepend<T>(a: seq<T>, b: seq<T>, c: seq<T>)
    requires IsSubsequence(a, b)
    ensures IsSubsequence(a, c + b)
    decreases |c|
  {
    if |c| > 0 {
      SubsequencePrepend(a, b, c[1..]);
      assert (c + b)[1..] == c[1..] + b;
      if |a| > 0 {
        assert IsSubsequence(a, (c + b)[1..]);
      }
    } else {
      assert c + b == b;
    }
  }

  /** Subsequences of the two parts combine into a subsequence of the whole. */
  lemma {:induction false} SubsequenceConcat<T>(a1: seq<T>, b1: seq<T>, a2: seq<T>, b2: seq<T>)
    requires IsSubsequence(a1, b1) && IsSubsequence(a2, b2)
    ensures IsSubsequence(a1 + a2, b1 + b2)
    decreases |b1|
  {
    if |a1| == 0 {
      assert a1 + a2 == a2;
      SubsequencePrepend(a2, b2, b1);
    } else {
      assert (b1 + b2)[1..] == b1[1..] + b2;
      if a1[0] == b1[0] && IsSubsequence(a1[1..], b1[1..]) {
        SubsequenceConcat(a1[1..], b1[1..], a2, b2);
        assert (a1 + a2)[1..] == a1[1..] + a2;
      } else {
        SubsequenceConcat(a1, b1[1..], a2, b2);
      }
    }
  }

  /** A subsequence of a sequence without repetitions has none either. */
  lemma {:induction false} SubsequenceDistinct<T>(a: seq<T>, b: seq<T>)
    requires IsSubsequence(a, b)
    requires Distinct(b)
    ensures Distinct(a)
    decreases |b|
  {
    if |a| > 0 {
      if a[0] == b[0] && IsSubsequence(a[1..], b[1..]) {
        SubsequenceDistinct(a[1..], b[1..]);
        SubsequenceMembers(a[1..], b[1..]);
        forall j | 0 < j < |a|
          ensures a[0] != a[j]
        {
          assert a[j] == a[1..][j - 1];
          assert a[j] in b[1..];
        }
      } else {
        SubsequenceDistinct(a, b[1..]);
      }
    }
  }

  /** Index of the first element whose key is `k`, or -1 when there is none:
      what `find` looks up. */
  function FirstIndexOf<T, K(==)>(s: seq<T>, key: T -> K, k: K): (r: int)
    ensures -1 <= r < |s|
    ensures r == -1 <==> forall i :: 0 <= i < |s| ==> key(s[i]) != k
    ensures 0 <= r ==> key(s[r]) == k && forall j :: 0 <= j < r ==> key(s[j]) != k
  {
    if |s| == 0 then -1
    else if key(s[0]) == k then 0
    else
      var r := FirstIndexOf(s[1..], key, k);
      if r < 0 then -1 else r + 1
  }

  /** Index of the last element whose key is `k`, or -1 when there is none:
      the element an object keyed by `k` holds after every element was
      written into it in order. */
  function LastIndexOf<T, K(==)>(s: seq<T>, key: T -> K, k: K): (r: int)
    ensures -1 <= r < |s|
    ensures r == -1 <==> forall i :: 0 <= i < |s| ==> key(s[i]) != k
    ensures 0 <= r ==> key(s[r]) == k && forall j :: r < j < |s| ==> key(s[j]) != k
  {
    if |s| == 0 then -1
    else if key(s[|s| - 1]) == k then |s| - 1
    else LastIndexOf(s[..|s| - 1], key, k)
  }

  /** The set of keys of a sequence. */
  function KeySet<T, K(!new)>(s: seq<T>, key: T -> K): (r: set<K>)
    ensures forall k :: k in r <==> exists i :: 0 <= i < |s| && key(s[i]) == k
  {
    set i | 0 <= i < |s| :: key(s[i])
  }

  /** Appending an element leaves an existing first index alone, and makes
      the new element the first one of its key otherwise. */
  lemma FirstIndexSnoc<T, K>(s: seq<T>, x: T, key: T -> K, k: K)
    ensures FirstIndexOf(s + [x], key, k) ==
      if FirstIndexOf(s, key, k) >= 0 then FirstIndexOf(s, key, k)
      else if key(x) == k then |s| else -1
  {
    var t := s + [x];
    var a := FirstIndexOf(s, key, k);
    if a >= 0 {
      assert key(t[a]) == k;
      assert forall j :: 0 <= j < a ==> t[j] == s[j];
    } else {
      assert forall j :: 0 <= j < |s| ==> t[j] == s[j];
      assert t[|s|] == x;
    }
  }

  /** An object filled by writing every element under its key, in order: a
      key maps to the last element that has it. */
  function IndexBy<T, K(!new)>(s: seq<T>, key: T -> K): (m: map<K, T>)
    ensures m.Keys == KeySet(s, key)
    ensures forall k :: k in m ==> m[k] == s[LastIndexOf(s, key, k)]
  {
    if |s| == 0 then map[]
    else
      var init := s[..|s| - 1];
      var last := s[|s| - 1];
      assert KeySet(s, key) == KeySet(init, key) + {key(last)} by {
        forall k | k in KeySet(s, key) ensures k in KeySet(init, key) + {key(last)} {
          var i :| 0 <= i < |s| && key(s[i]) == k;
          if i < |s| - 1 { assert key(init[i]) == k; }
        }
        forall k | k in KeySet(init, key) ensures k in KeySet(s, key) {
          var i :| 0 <= i < |init| && key(init[i]) == k;
          assert key(s[i]) == k;
        }
      }
      IndexBy(init, key)[key(last) := last]
  }
}
