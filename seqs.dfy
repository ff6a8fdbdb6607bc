/**
 * Sequence operations that stand for the .NET list members the engine calls:
 * List.IndexOf / FindIndex, List.RemoveAt, Enumerable.Min.
 */
module Seqs {

  /** List.IndexOf and List.FindIndex: the first position holding x, or -1 when there is none. */
  function IndexOf<T(==)>(s: seq<T>, x: T): (r: int)
    ensures -1 <= r < |s|
    ensures r >= 0 ==> s[r] == x && x !in s[..r]
    ensures r == -1 <==> x !in s
  {
    if |s| == 0 then -1
    else if s[0] == x then 0
    else
      var k := IndexOf(s[1..], x);
      assert k >= 0 ==> s[..k + 1] == [s[0]] + s[1..][..k];
      if k < 0 then -1 else k + 1
  }

  /** No element occurs twice. */
  ghost predicate Distinct<T>(s: seq<T>) {
    forall i, j :: 0 <= i < |s| && 0 <= j < |s| && i != j ==> s[i] != s[j]
  }

  lemma DistinctTail<T>(s: seq<T>)
    requires Distinct(s) && |s| > 0
    ensures Distinct(s[1..]) && s[0] !in s[1..]
  {
    forall i, j | 0 <= i < |s[1..]| && 0 <= j < |s[1..]| && i != j
      ensures s[1..][i] != s[1..][j]
    {
      assert s[1..][i] == s[i + 1] && s[1..][j] == s[j + 1];
    }
    forall i | 0 <= i < |s[1..]| ensures s[1..][i] != s[0] {
      assert s[1..][i] == s[i + 1];
    }
  }

  /** On a sequence without repetitions, IndexOf finds the one position holding the value. */
  lemma IndexOfDistinct<T>(s: seq<T>, i: int)
    requires Distinct(s) && 0 <= i < |s|
    ensures IndexOf(s, s[i]) == i
  {
  }

  /** IndexOf finds the one position holding a value that occurs once. */
  lemma IndexOfUnique<T>(s: seq<T>, x: T, k: int)
    requires 0 <= k < |s| && s[k] == x
    requires forall r :: 0 <= r < |s| && s[r] == x ==> r == k
    ensures IndexOf(s, x) == k
  {
  }

  /** IndexOf finds a position holding x with no x before it. */
  lemma IndexOfFirst<T>(s: seq<T>, x: T, k: int)
    requires 0 <= k < |s| && s[k] == x && x !in s[..k]
    ensures IndexOf(s, x) == k
  {
    assert x in s;
  }

  /** The FindIndex / RemoveAt pair: drop the first element equal to x, if any. */
  function RemoveFirst<T(==)>(s: seq<T>, x: T): seq<T> {
    var i := IndexOf(s, x);
    if i < 0 then s else s[..i] + s[i + 1..]
  }

  /** Apply RemoveFirst for each element of xs, in order. */
  function RemoveAll<T(==)>(s: seq<T>, xs: seq<T>): seq<T>
    decreases |xs|
  {
    if |xs| == 0 then s else RemoveFirst(RemoveAll(s, xs[..|xs| - 1]), xs[|xs| - 1])
  }

  /** A sub-multiset holds only elements of the larger one. */
  lemma SubmultisetMembers<T>(a: seq<T>, b: seq<T>)
    requires multiset(a) <= multiset(b)
    ensures forall x :: x in a ==> x in b
  {
    forall x | x in a ensures x in b {
      assert x in multiset(a);
    }
  }

  /** Removing the first k + 1 elements of xs is removing the first k, then one more. */
  lemma RemoveAllPrefix<T>(s: seq<T>, xs: seq<T>, k: nat)
    requires k < |xs|
    ensures RemoveAll(s, xs[..k + 1]) == RemoveFirst(RemoveAll(s, xs[..k]), xs[k])
  {
    assert xs[..k + 1][..k] == xs[..k];
  }

  /** Removing elements leaves only elements of the input. */
  lemma RemoveAllMembers<T>(s: seq<T>, xs: seq<T>)
    ensures forall x :: x in RemoveAll(s, xs) ==> x in s
  {
    RemoveAllSubmultiset(s, xs);
    SubmultisetMembers(RemoveAll(s, xs), s);
  }

  /** The elements of s that do not occur in xs, in their original order. */
  function FilterOut<T(==)>(s: seq<T>, xs: seq<T>): seq<T> {
    if |s| == 0 then []
    else (if s[0] in xs then [] else [s[0]]) + FilterOut(s[1..], xs)
  }

  /** Removing elements never adds any: the result is a sub-multiset of the input. */
  lemma {:induction false} RemoveAllSubmultiset<T>(s: seq<T>, xs: seq<T>)
    ensures multiset(RemoveAll(s, xs)) <= multiset(s)
    decreases |xs|
  {
    if |xs| > 0 {
      var r := RemoveAll(s, xs[..|xs| - 1]);
      RemoveAllSubmultiset(s, xs[..|xs| - 1]);
      var i := IndexOf(r, xs[|xs| - 1]);
      if i >= 0 {
        assert r == r[..i] + [r[i]] + r[i + 1..];
        assert multiset(r) == multiset(r[..i] + r[i + 1..]) + multiset{r[i]};
      }
    }
  }

  lemma {:induction false} FilterOutMembership<T>(s: seq<T>, xs: seq<T>, y: T)
    ensures y in FilterOut(s, xs) <==> y in s && y !in xs
  {
    if |s| > 0 {
      FilterOutMembership(s[1..], xs, y);
      assert s == [s[0]] + s[1..];
    }
  }

  lemma {:induction false} FilterOutDistinct<T>(s: seq<T>, xs: seq<T>)
    requires Distinct(s)
    ensures Distinct(FilterOut(s, xs))
  {
    if |s| > 0 {
      DistinctTail(s);
      FilterOutDistinct(s[1..], xs);
      FilterOutMembership(s[1..], xs, s[0]);
      assert s[0] !in s[1..] by {
        forall i | 0 <= i < |s[1..]| ensures s[1..][i] != s[0] {
          assert s[1..][i] == s[i + 1];
        }
      }
    }
  }

  lemma RemoveFirstCons<T>(h: T, t: seq<T>, y: T)
    ensures RemoveFirst([h] + t, y) == if h == y then t else [h] + RemoveFirst(t, y)
  {
    var s := [h] + t;
    assert s[1..] == t;
    if h != y {
      var i := IndexOf(t, y);
      if i >= 0 {
        assert s[..i + 1] + s[i + 2..] == [h] + (t[..i] + t[i + 1..]);
      }
    }
  }

  /** On a sequence without repetitions, removing the first occurrence of y filters y out. */
  lemma {:induction false} RemoveFirstDistinct<T>(s: seq<T>, ys: seq<T>, y: T)
    requires Distinct(s)
    ensures RemoveFirst(FilterOut(s, ys), y) == FilterOut(s, ys + [y])
  {
    if |s| > 0 {
      DistinctTail(s);
      RemoveFirstDistinct(s[1..], ys, y);
      var rest := FilterOut(s[1..], ys);
      var zs := ys + [y];
      assert FilterOut(s, zs) == (if s[0] in zs then [] else [s[0]]) + FilterOut(s[1..], zs);
      if s[0] in ys {
        assert FilterOut(s, ys) == rest;
      } else if s[0] == y {
        RemoveFirstCons(y, rest, y);
        FilterOutUnchanged(s[1..], ys, y);
      } else {
        RemoveFirstCons(s[0], rest, y);
      }
    }
  }

  /** Filtering out a value that does not occur changes nothing, and removing it finds nothing. */
  lemma {:induction false} FilterOutUnchanged<T>(s: seq<T>, ys: seq<T>, y: T)
    requires y !in s
    ensures FilterOut(s, ys + [y]) == FilterOut(s, ys)
  {
    if |s| > 0 {
      assert s[0] != y;
      assert y !in s[1..];
      FilterOutUnchanged(s[1..], ys, y);
    }
  }

  /**
   * On a sequence without repetitions, removing the first occurrence of each element of xs
   * is the same as keeping, in order, exactly the elements that are not in xs.
   */
  lemma {:induction false} RemoveAllIsFilter<T>(s: seq<T>, xs: seq<T>)
    requires Distinct(s)
    ensures RemoveAll(s, xs) == FilterOut(s, xs)
    decreases |xs|
  {
    if |xs| == 0 {
      FilterOutNothing(s);
    } else {
      var init := xs[..|xs| - 1];
      RemoveAllIsFilter(s, init);
      RemoveFirstDistinct(s, init, xs[|xs| - 1]);
      assert init + [xs[|xs| - 1]] == xs;
    }
  }

  lemma {:induction false} FilterOutNothing<T>(s: seq<T>)
    ensures FilterOut(s, []) == s
  {
    if |s| > 0 {
      FilterOutNothing(s[1..]);
      assert s == [s[0]] + s[1..];
    }
  }

  /** Enumerable.Min over a non-empty sequence of integers. */
  function SeqMin(s: seq<int>): (m: int)
    requires |s| > 0
    ensures m in s
    ensures forall i :: 0 <= i < |s| ==> m <= s[i]
  {
    if |s| == 1 then s[0]
    else
      var rest := SeqMin(s[1..]);
      assert forall i :: 1 <= i < |s| ==> s[i] == s[1..][i - 1];
      if s[0] <= rest then s[0] else rest
  }

  /**
   * values.IndexOf(values.Min()) picks the first index attaining the minimum: its value is
   * no larger than any other, and every earlier value is strictly larger.
   */
  lemma FirstMinimum(s: seq<int>)
    requires |s| > 0
    ensures 0 <= IndexOf(s, SeqMin(s)) < |s|
    ensures forall j :: 0 <= j < |s| ==> s[IndexOf(s, SeqMin(s))] <= s[j]
    ensures forall j :: 0 <= j < IndexOf(s, SeqMin(s)) ==> s[j] > s[IndexOf(s, SeqMin(s))]
  {
    var m := SeqMin(s);
    var k := IndexOf(s, m);
    assert s[k] == m;
    forall j | 0 <= j < k ensures s[j] > m {
      assert s[j] == s[..k][j];
      assert s[j] != m;
    }
  }

  /** A concatenation of two repetition-free sequences with no common element has no repetition. */
  lemma DistinctConcat<T>(a: seq<T>, b: seq<T>)
    requires Distinct(a) && Distinct(b)
    requires forall i, j :: 0 <= i < |a| && 0 <= j < |b| ==> a[i] != b[j]
    ensures Distinct(a + b)
  {
    var c := a + b;
    forall i, j | 0 <= i < |c| && 0 <= j < |c| && i != j ensures c[i] != c[j] {
      if i < |a| && j >= |a| {
        assert c[j] == b[j - |a|];
      } else if i >= |a| && j < |a| {
        assert c[i] == b[i - |a|];
      } else if i >= |a| {
        assert c[i] == b[i - |a|] && c[j] == b[j - |a|];
      }
    }
  }

  /** A sequence whose every element is x holds |s| copies of x. */
  lemma {:induction false} MultisetUniform<T>(s: seq<T>, x: T)
    requires forall i :: 0 <= i < |s| ==> s[i] == x
    ensures multiset(s)[x] == |s|
  {
    if |s| > 0 {
      assert s == [s[0]] + s[1..];
      MultisetUniform(s[1..], x);
    }
  }

  /** The elements of a sequence without repetition are as many as its positions. */
  lemma {:induction false} DistinctCard<T>(s: seq<T>)
    requires Distinct(s)
    ensures |set x | x in s| == |s|
  {
    if |s| > 0 {
      DistinctTail(s);
      DistinctCard(s[1..]);
      assert (set x | x in s) == (set x | x in s[1..]) + {s[0]};
    }
  }

  /** A sequence has at most as many elements as positions. */
  lemma {:induction false} CardAtMost<T>(s: seq<T>)
    ensures |set x | x in s| <= |s|
  {
    if |s| > 0 {
      CardAtMost(s[1..]);
      assert (set x | x in s) == (set x | x in s[1..]) + {s[0]};
    }
  }

  /** A subset is no larger than the set holding it. */
  lemma {:induction false} SubsetCard<T>(a: set<T>, b: set<T>)
    requires a <= b
    ensures |a| <= |b|
    decreases a
  {
    if a != {} {
      var x :| x in a;
      SubsetCard(a - {x}, b - {x});
    }
  }

  /** A sequence without repetition, drawn from b, is no longer than b. */
  lemma DistinctWithin<T>(a: seq<T>, b: seq<T>)
    requires Distinct(a) && forall i :: 0 <= i < |a| ==> a[i] in b
    ensures |a| <= |b|
  {
    DistinctCard(a);
    CardAtMost(b);
    SubsetCard(set x | x in a, set x | x in b);
  }
}
