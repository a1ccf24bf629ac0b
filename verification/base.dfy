/** Shared vocabulary: optional values, typed results, and the order-preserving
    filter and sum folds that every query scope and statistic is built from. */
module Base {

  /** A nullable column or an absent request field. */
  datatype Option<+T> = None | Some(value: T) {
    function GetOr(default: T): T {
      match this
      case Some(v) => v
      case None => default
    }
  }

  /** The outcome of a controller action: the new state, or the error it reports. */
  datatype Result<+T, +E> = Ok(value: T) | Err(error: E)

  /** `a` can be obtained from `b` by deleting elements (order is kept). */
  predicate IsSubsequence<T(==)>(a: seq<T>, b: seq<T>)
    decreases |b|
  {
    if |a| == 0 then true
    else if |b| == 0 then false
    else (a[0] == b[0] && IsSubsequence(a[1..], b[1..])) || IsSubsequence(a, b[1..])
  }

  /** The elements of `s` that satisfy `keep`, in their original order: the
      shape of every `where` clause and collection `where` in the system. */
  function Filter<T(!new)>(s: seq<T>, keep: T -> bool): (r: seq<T>)
    ensures |r| <= |s|
    ensures forall x :: x in r <==> x in s && keep(x)
    ensures forall i :: 0 <= i < |r| ==> keep(r[i])
    decreases |s|
  {
    if |s| == 0 then []
    else if keep(s[0]) then [s[0]] + Filter(s[1..], keep)
    else Filter(s[1..], keep)
  }

  /** Sum of `value` over `s` (SQL `SUM`, collection `sum`). */
  function SumOf<T>(s: seq<T>, value: T -> int): int
    decreases |s|
  {
    if |s| == 0 then 0 else value(s[0]) + SumOf(s[1..], value)
  }

  /** A filter result is an order-preserving subsequence of its input. */
  lemma {:induction false} FilterIsSubsequence<T(!new)>(s: seq<T>, keep: T -> bool)
    ensures IsSubsequence(Filter(s, keep), s)
    decreases |s|
  {
    if |s| > 0 {
      FilterIsSubsequence(s[1..], keep);
      var rest := Filter(s[1..], keep);
      if keep(s[0]) {
        assert Filter(s, keep) == [s[0]] + rest;
        assert ([s[0]] + rest)[1..] == rest;
      } else {
        var r := Filter(s, keep);
        if |r| > 0 {
          assert r == rest;
        }
      }
    }
  }

  /** Filtering keeps every element that passes and nothing else: it is the identity
      on a sequence all of whose elements pass. */
  lemma {:induction false} FilterAllPass<T(!new)>(s: seq<T>, keep: T -> bool)
    requires forall i :: 0 <= i < |s| ==> keep(s[i])
    ensures Filter(s, keep) == s
    decreases |s|
  {
    if |s| > 0 {
      FilterAllPass(s[1..], keep);
      assert [s[0]] + s[1..] == s;
    }
  }

  /** Applying the same filter twice is the same as applying it once. */
  lemma FilterIdempotent<T(!new)>(s: seq<T>, keep: T -> bool)
    ensures Filter(Filter(s, keep), keep) == Filter(s, keep)
  {
    FilterAllPass(Filter(s, keep), keep);
  }

  /** Two filters applied one after the other select what their conjunction selects,
      in either order. */
  lemma {:induction false} FilterCommutes<T(!new)>(s: seq<T>, f: T -> bool, g: T -> bool)
    ensures Filter(Filter(s, f), g) == Filter(Filter(s, g), f)
    decreases |s|
  {
    if |s| > 0 {
      FilterCommutes(s[1..], f, g);
    }
  }

  /** Filters that agree on every element of `s` select the same elements. */
  lemma {:induction false} FilterCongruent<T(!new)>(s: seq<T>, f: T -> bool, g: T -> bool)
    requires forall i :: 0 <= i < |s| ==> f(s[i]) == g(s[i])
    ensures Filter(s, f) == Filter(s, g)
    decreases |s|
  {
    if |s| > 0 {
      assert f(s[0]) == g(s[0]);
      FilterCongruent(s[1..], f, g);
    }
  }

  /** Occurrence counts under a filter: an element keeps all its copies if it
      passes and loses them all otherwise. */
  lemma {:induction false} FilterMultiset<T(!new)>(s: seq<T>, keep: T -> bool)
    ensures forall x :: multiset(Filter(s, keep))[x] == if keep(x) then multiset(s)[x] else 0
    decreases |s|
  {
    if |s| > 0 {
      FilterMultiset(s[1..], keep);
      assert s == [s[0]] + s[1..];
      assert multiset(s) == multiset{s[0]} + multiset(s[1..]);
      if keep(s[0]) {
        assert Filter(s, keep) == [s[0]] + Filter(s[1..], keep);
        assert multiset(Filter(s, keep)) == multiset{s[0]} + multiset(Filter(s[1..], keep));
      }
    }
  }

  /** Permutations of one another have the same members. */
  lemma SameMembers<T>(a: seq<T>, b: seq<T>)
    requires multiset(a) == multiset(b)
    ensures forall x :: x in a <==> x in b
  {
    forall x
      ensures x in a <==> x in b
    {
      assert x in a <==> x in multiset(a);
      assert x in b <==> x in multiset(b);
    }
  }

  /** Filtering two permutations of one another gives permutations of one another. */
  lemma FilterPermutation<T(!new)>(a: seq<T>, b: seq<T>, keep: T -> bool)
    requires multiset(a) == multiset(b)
    ensures multiset(Filter(a, keep)) == multiset(Filter(b, keep))
    ensures |Filter(a, keep)| == |Filter(b, keep)|
  {
    FilterMultiset(a, keep);
    FilterMultiset(b, keep);
    assert multiset(Filter(a, keep)) == multiset(Filter(b, keep));
    calc {
      |Filter(a, keep)|;
      |multiset(Filter(a, keep))|;
      |multiset(Filter(b, keep))|;
      |Filter(b, keep)|;
    }
  }

  /** A predicate and its complement split a sequence: the two filters together
      hold exactly the elements of the input. */
  lemma {:induction false} FilterPartition<T(!new)>(s: seq<T>, p: T -> bool, q: T -> bool)
    requires forall i :: 0 <= i < |s| ==> (p(s[i]) <==> !q(s[i]))
    ensures multiset(Filter(s, p)) + multiset(Filter(s, q)) == multiset(s)
    ensures |Filter(s, p)| + |Filter(s, q)| == |s|
    decreases |s|
  {
    if |s| > 0 {
      var rest := s[1..];
      assert forall i :: 0 <= i < |rest| ==> rest[i] == s[i + 1];
      FilterPartition(rest, p, q);
      assert s == [s[0]] + rest;
      if p(s[0]) {
        assert Filter(s, p) == [s[0]] + Filter(rest, p);
        assert Filter(s, q) == Filter(rest, q);
      } else {
        assert Filter(s, q) == [s[0]] + Filter(rest, q);
        assert Filter(s, p) == Filter(rest, p);
      }
    }
  }

  /** Sums distribute over concatenation. */
  lemma {:induction false} SumAppend<T>(a: seq<T>, b: seq<T>, value: T -> int)
    ensures SumOf(a + b, value) == SumOf(a, value) + SumOf(b, value)
    decreases |a|
  {
    if |a| > 0 {
      assert (a + b)[1..] == a[1..] + b;
      SumAppend(a[1..], b, value);
    } else {
      assert a + b == b;
    }
  }

  /** Removing the element at `k` removes exactly one occurrence of it. */
  lemma MultisetRemoveAt<T>(b: seq<T>, k: nat)
    requires k < |b|
    ensures multiset(b[..k] + b[k+1..]) == multiset(b) - multiset{b[k]}
  {
    assert b == b[..k] + [b[k]] + b[k+1..];
    assert multiset(b) == multiset(b[..k]) + multiset{b[k]} + multiset(b[k+1..]);
  }

  /** Removing the element at `k` removes exactly its term from the sum. */
  lemma SumRemoveAt<T>(b: seq<T>, k: nat, value: T -> int)
    requires k < |b|
    ensures SumOf(b, value) == value(b[k]) + SumOf(b[..k] + b[k+1..], value)
  {
    assert b == b[..k] + ([b[k]] + b[k+1..]);
    SumAppend(b[..k], [b[k]] + b[k+1..], value);
    SumAppend(b[..k], b[k+1..], value);
  }

  /** A sum does not depend on the order of its terms. */
  lemma {:induction false} SumPermutation<T>(a: seq<T>, b: seq<T>, value: T -> int)
    requires multiset(a) == multiset(b)
    ensures SumOf(a, value) == SumOf(b, value)
    decreases |a|
  {
    if |a| == 0 {
      assert |multiset(b)| == 0;
    } else {
      var x := a[0];
      assert a == [x] + a[1..];
      assert multiset(a) == multiset{x} + multiset(a[1..]);
      assert x in multiset(b);
      var k :| 0 <= k < |b| && b[k] == x;
      MultisetRemoveAt(b, k);
      assert multiset(a[1..]) == multiset(b[..k] + b[k+1..]);
      SumPermutation(a[1..], b[..k] + b[k+1..], value);
      SumRemoveAt(b, k, value);
    }
  }

  /** Dropping only elements whose value is zero leaves a sum unchanged. */
  lemma {:induction false} SumFilterZeros<T(!new)>(s: seq<T>, keep: T -> bool, value: T -> int)
    requires forall i :: 0 <= i < |s| && !keep(s[i]) ==> value(s[i]) == 0
    ensures SumOf(Filter(s, keep), value) == SumOf(s, value)
    decreases |s|
  {
    if |s| > 0 {
      SumFilterZeros(s[1..], keep, value);
      if keep(s[0]) {
        assert Filter(s, keep) == [s[0]] + Filter(s[1..], keep);
        assert ([s[0]] + Filter(s[1..], keep))[1..] == Filter(s[1..], keep);
      }
    }
  }

  /** A sum of non-negative terms is non-negative. */
  lemma {:induction false} SumNonNegative<T>(s: seq<T>, value: T -> int)
    requires forall i :: 0 <= i < |s| ==> value(s[i]) >= 0
    ensures SumOf(s, value) >= 0
    decreases |s|
  {
    if |s| > 0 {
      SumNonNegative(s[1..], value);
    }
  }

  /** The page the paginator serves: a page number below 1 serves page 1. */
  function PageNumber(page: int): (p: nat)
    ensures p >= 1
    ensures page >= 1 ==> p == page
  {
    if page >= 1 then page else 1
  }

  /** Position of the first row of a page. */
  function PageStart(perPage: nat, page: int): nat {
    (PageNumber(page) - 1) * perPage
  }

  /** `paginate(perPage)`: the `page`-th run of `perPage` consecutive elements,
      shorter or empty at the end. */
  function Page<T>(s: seq<T>, perPage: nat, page: int): (r: seq<T>)
    requires perPage > 0
    ensures |r| <= perPage
    ensures PageStart(perPage, page) >= |s| ==> r == []
    ensures PageStart(perPage, page) < |s| ==>
              |r| == if |s| - PageStart(perPage, page) < perPage then |s| - PageStart(perPage, page) else perPage
    ensures r == [] || (PageStart(perPage, page) + |r| <= |s| && r == s[PageStart(perPage, page)..PageStart(perPage, page) + |r|])
    ensures forall i :: 0 <= i < |r| ==> r[i] == s[PageStart(perPage, page) + i]
  {
    var start := PageStart(perPage, page);
    if start >= |s| then []
    else if |s| - start < perPage then s[start..]
    else s[start..start + perPage]
  }
}
