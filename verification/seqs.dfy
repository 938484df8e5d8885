/** Sequence operations the source takes from LINQ and List<T>: first-match
    search (FirstOrDefault and the collection indexers), last-match search
    (LastIndexOf), filtering (Where), and List.Remove applied element by
    element. */
module Seqs {
  import opened Outcomes

  /** Position of the first element satisfying p, or None. */
  function FirstIndex<T>(xs: seq<T>, p: T -> bool): (r: Option<nat>)
    ensures r.Some? ==> r.value < |xs| && p(xs[r.value])
    ensures r.Some? ==> forall j :: 0 <= j < r.value ==> !p(xs[j])
    ensures r.None? <==> forall j :: 0 <= j < |xs| ==> !p(xs[j])
  {
    if |xs| == 0 then None
    else if p(xs[0]) then Some(0)
    else match FirstIndex(xs[1..], p)
      case None => None
      case Some(k) => Some(k + 1)
  }

  /** Position of the last element satisfying p, or -1. */
  function LastIndex<T>(xs: seq<T>, p: T -> bool): (r: int)
    ensures -1 <= r < |xs|
    ensures r >= 0 ==> p(xs[r])
    ensures forall j :: r < j < |xs| ==> !p(xs[j])
  {
    if |xs| == 0 then -1
    else if p(xs[|xs| - 1]) then |xs| - 1
    else LastIndex(xs[..|xs| - 1], p)
  }

  /** The elements x with p(x) == want, in their original order. */
  function Filter<T(!new)>(xs: seq<T>, p: T -> bool, want: bool): (r: seq<T>)
    ensures |r| <= |xs|
    ensures forall x :: x in r <==> x in xs && p(x) == want
  {
    if |xs| == 0 then []
    else (if p(xs[0]) == want then [xs[0]] else []) + Filter(xs[1..], p, want)
  }

  /** Enumerable.Where: the elements satisfying p. */
  function Keep<T(!new)>(xs: seq<T>, p: T -> bool): seq<T> {
    Filter(xs, p, true)
  }

  /** The elements not satisfying p. */
  function Reject<T(!new)>(xs: seq<T>, p: T -> bool): seq<T> {
    Filter(xs, p, false)
  }

  /** List<T>.Remove: drops the first element equal to x, if there is one. */
  function RemoveFirst<T(==)>(xs: seq<T>, x: T): (r: seq<T>)
    ensures x !in xs ==> r == xs
    ensures x in xs ==> |r| == |xs| - 1 && multiset(r) == multiset(xs) - multiset{x}
  {
    if |xs| == 0 then []
    else
      assert xs == [xs[0]] + xs[1..];
      if xs[0] == x then xs[1..]
      else [xs[0]] + RemoveFirst(xs[1..], x)
  }

  /** One List<T>.Remove call for each element of ys, in order: each call
      takes at most one element away. */
  function RemoveEach<T(==)>(xs: seq<T>, ys: seq<T>): (r: seq<T>)
    ensures |xs| - |ys| <= |r| <= |xs|
    decreases |ys|
  {
    if |ys| == 0 then xs else RemoveEach(RemoveFirst(xs, ys[0]), ys[1..])
  }

  /** What the Remove calls leave is xs less one copy per element of ys, as
      far as xs has copies. */
  lemma {:induction false} RemoveEachMultiset<T>(xs: seq<T>, ys: seq<T>)
    ensures multiset(RemoveEach(xs, ys)) == multiset(xs) - multiset(ys)
    decreases |ys|
  {
    if |ys| > 0 {
      var once := RemoveFirst(xs, ys[0]);
      RemoveFirstMultiset(xs, ys[0]);
      RemoveEachMultiset(once, ys[1..]);
      assert ys == [ys[0]] + ys[1..];
      MinusMinus(multiset(xs), multiset{ys[0]}, multiset(ys[1..]));
    }
  }

  /** Whether or not x occurs, List.Remove takes at most one copy of x. */
  lemma RemoveFirstMultiset<T>(xs: seq<T>, x: T)
    ensures multiset(RemoveFirst(xs, x)) == multiset(xs) - multiset{x}
  {
    if x !in xs {
      assert multiset(xs)[x] == 0;
      assert multiset(xs) - multiset{x} == multiset(xs);
    }
  }

  /** Taking away a and then b is taking away both at once. */
  lemma MinusMinus<T>(m: multiset<T>, a: multiset<T>, b: multiset<T>)
    ensures (m - a) - b == m - (a + b)
  {
    assert forall z :: ((m - a) - b)[z] == (m - (a + b))[z];
  }

  /** Removing the element at i is the same as removing its first occurrence,
      when no earlier element equals it. */
  lemma {:induction false} RemoveFirstAt<T>(xs: seq<T>, i: nat)
    requires i < |xs|
    requires xs[i] !in xs[..i]
    ensures RemoveFirst(xs, xs[i]) == xs[..i] + xs[i + 1..]
  {
    if i > 0 {
      var t := xs[1..];
      assert xs[0] in xs[..i];
      assert xs[0] != xs[i];
      assert t[i - 1] == xs[i];
      assert t[..i - 1] == xs[1..i];
      RemoveFirstAt(t, i - 1);
      assert t[i..] == xs[i + 1..];
      assert xs[..i] == [xs[0]] + xs[1..i];
    }
  }

  /** r is xs without its element at i, the first element satisfying p. */
  ghost predicate DropsFirst<T>(xs: seq<T>, p: T -> bool, r: seq<T>) {
    exists i :: 0 <= i < |xs| && p(xs[i]) && (forall j :: 0 <= j < i ==> !p(xs[j]))
                && r == xs[..i] + xs[i + 1..]
  }

  /** Removing the first element that satisfies p, found by search, drops
      exactly that position. */
  lemma RemoveFirstMatch<T>(xs: seq<T>, p: T -> bool, i: nat)
    requires i < |xs| && p(xs[i])
    requires forall j :: 0 <= j < i ==> !p(xs[j])
    ensures RemoveFirst(xs, xs[i]) == xs[..i] + xs[i + 1..]
    ensures DropsFirst(xs, p, RemoveFirst(xs, xs[i]))
  {
    assert xs[i] !in xs[..i] by {
      forall j | 0 <= j < i
        ensures xs[..i][j] != xs[i]
      {
        assert !p(xs[j]);
      }
    }
    RemoveFirstAt(xs, i);
  }

  /** No element occurs twice. */
  predicate NoDup<T(==)>(xs: seq<T>) {
    forall i, j :: 0 <= i < j < |xs| ==> xs[i] != xs[j]
  }

  /** Filtering keeps a sequence free of repeats. */
  lemma {:induction false} FilterDistinct<T(!new)>(xs: seq<T>, p: T -> bool, want: bool)
    requires NoDup(xs)
    ensures NoDup(Filter(xs, p, want))
  {
    if |xs| > 0 {
      var t := xs[1..];
      assert NoDup(t) by {
        forall i, j | 0 <= i < j < |t|
          ensures t[i] != t[j]
        {
          assert t[i] == xs[i + 1] && t[j] == xs[j + 1];
        }
      }
      assert xs[0] !in t by {
        forall k | 0 <= k < |t|
          ensures t[k] != xs[0]
        {
          assert t[k] == xs[k + 1];
        }
      }
      FilterDistinct(t, p, want);
      var rest := Filter(t, p, want);
      assert xs[0] !in rest;
      var r := Filter(xs, p, want);
      if p(xs[0]) == want {
        assert r == [xs[0]] + rest;
        forall i, j | 0 <= i < j < |r|
          ensures r[i] != r[j]
        {
          assert r[j] == rest[j - 1] && rest[j - 1] in rest;
          if i > 0 {
            assert r[i] == rest[i - 1];
          }
        }
      } else {
        assert r == rest;
      }
    }
  }

  /** Filtering distributes over concatenation. */
  lemma {:induction false} FilterConcat<T(!new)>(a: seq<T>, b: seq<T>, p: T -> bool, want: bool)
    ensures Filter(a + b, p, want) == Filter(a, p, want) + Filter(b, p, want)
  {
    if |a| > 0 {
      var head := if p(a[0]) == want then [a[0]] else [];
      assert (a + b)[0] == a[0];
      assert (a + b)[1..] == a[1..] + b;
      FilterConcat(a[1..], b, p, want);
      calc {
        Filter(a + b, p, want);
        head + Filter(a[1..] + b, p, want);
        head + (Filter(a[1..], p, want) + Filter(b, p, want));
        (head + Filter(a[1..], p, want)) + Filter(b, p, want);
        Filter(a, p, want) + Filter(b, p, want);
      }
    } else {
      assert a + b == b;
    }
  }

  /** Filtering out every element leaves nothing. */
  lemma {:induction false} FilterNone<T(!new)>(xs: seq<T>, p: T -> bool, want: bool)
    requires forall k :: 0 <= k < |xs| ==> p(xs[k]) != want
    ensures Filter(xs, p, want) == []
  {
    if |xs| > 0 {
      FilterNone(xs[1..], p, want);
    }
  }

  /** Filtering twice by the same test is filtering once. */
  lemma {:induction false} FilterIdempotent<T(!new)>(xs: seq<T>, p: T -> bool, want: bool)
    ensures Filter(Filter(xs, p, want), p, want) == Filter(xs, p, want)
  {
    if |xs| > 0 {
      FilterIdempotent(xs[1..], p, want);
      var head := if p(xs[0]) == want then [xs[0]] else [];
      FilterConcat(head, Filter(xs[1..], p, want), p, want);
    }
  }

  /** Removals that never meet the head of a list leave the head in place. */
  lemma {:induction false} RemoveEachSkip<T>(a: T, t: seq<T>, ys: seq<T>)
    requires a !in ys
    ensures RemoveEach([a] + t, ys) == [a] + RemoveEach(t, ys)
    decreases |ys|
  {
    if |ys| > 0 {
      assert ([a] + t)[1..] == t;
      assert RemoveFirst([a] + t, ys[0]) == [a] + RemoveFirst(t, ys[0]);
      RemoveEachSkip(a, RemoveFirst(t, ys[0]), ys[1..]);
    }
  }

  /** Collecting the elements that satisfy p and then removing each of them
      one at a time leaves exactly the elements that do not satisfy p, in
      order: the staged removal loop is a filter. */
  lemma {:induction false} RemoveEachKept<T(!new)>(xs: seq<T>, p: T -> bool)
    ensures RemoveEach(xs, Keep(xs, p)) == Reject(xs, p)
  {
    if |xs| > 0 {
      var a, t := xs[0], xs[1..];
      assert xs == [a] + t;
      RemoveEachKept(t, p);
      if p(a) {
        assert RemoveEach(xs, Keep(xs, p)) == RemoveEach(t, Keep(t, p)) by {
          assert Keep(xs, p) == [a] + Keep(t, p);
          assert RemoveFirst(xs, a) == t;
        }
      } else {
        assert Keep(xs, p) == Keep(t, p);
        assert a !in Keep(t, p);
        RemoveEachSkip(a, t, Keep(t, p));
      }
    }
  }
}
