/** Queryset-like operations on sequences: finding the first match,
    filtering (`.filter(...)`),
    counting (`.count()`) and summing a per-row value (`sum(...)`), with the
    facts about them that the quiz model needs. */
module Seqs {
  import opened Wrappers

  /** The index of the first row of `s` that satisfies `p` (`.first()` of
      a filter), or `None` when no row does. */
  function FindFirst<T>(s: seq<T>, p: T -> bool): (r: Option<nat>)
    ensures r.Some? ==> r.value < |s| && p(s[r.value])
    ensures r.Some? ==> forall j :: 0 <= j < r.value ==> !p(s[j])
    ensures r.None? <==> forall i :: 0 <= i < |s| ==> !p(s[i])
  {
    if s == [] then None
    else if p(s[0]) then Some(0)
    else match FindFirst(s[1..], p)
      case None => None
      case Some(i) => Some(i + 1)
  }

  /** The rows of `s` that satisfy `p`, in their original order. */
  function Filter<T>(s: seq<T>, p: T -> bool): (r: seq<T>)
    ensures |r| <= |s|
    ensures forall i :: 0 <= i < |r| ==> p(r[i])
    ensures multiset(r) <= multiset(s)
  {
    if s == [] then []
    else
      assert s == [s[0]] + s[1..];
      (if p(s[0]) then [s[0]] else []) + Filter(s[1..], p)
  }

  /** Membership in a filter: exactly the rows of `s` that satisfy `p`. */
  lemma {:induction false} FilterMembership<T>(s: seq<T>, p: T -> bool, x: T)
    ensures x in Filter(s, p) <==> x in s && p(x)
  {
    if s != [] {
      FilterMembership(s[1..], p, x);
      assert s == [s[0]] + s[1..];
    }
  }

  /** Filtering distributes over concatenation. */
  lemma {:induction false} FilterConcat<T>(a: seq<T>, b: seq<T>, p: T -> bool)
    ensures Filter(a + b, p) == Filter(a, p) + Filter(b, p)
  {
    if a == [] {
      assert a + b == b;
    } else {
      assert (a + b)[1..] == a[1..] + b;
      FilterConcat(a[1..], b, p);
    }
  }

  /** A filter that rejects every row is empty. */
  lemma {:induction false} FilterNone<T>(s: seq<T>, p: T -> bool)
    requires forall i :: 0 <= i < |s| ==> !p(s[i])
    ensures Filter(s, p) == []
  {
    if s != [] {
      FilterNone(s[1..], p);
    }
  }

  /** A filter that accepts every row is the identity. */
  lemma {:induction false} FilterAll<T>(s: seq<T>, p: T -> bool)
    requires forall i :: 0 <= i < |s| ==> p(s[i])
    ensures Filter(s, p) == s
  {
    if s != [] {
      FilterAll(s[1..], p);
    }
  }

  /** The number of rows of `s` satisfying `p` (a queryset's `.count()`). */
  function Count<T>(s: seq<T>, p: T -> bool): (n: nat)
    ensures n <= |s|
  {
    |Filter(s, p)|
  }

  /** Counting distributes over concatenation. */
  lemma CountConcat<T>(a: seq<T>, b: seq<T>, p: T -> bool)
    ensures Count(a + b, p) == Count(a, p) + Count(b, p)
  {
    FilterConcat(a, b, p);
  }

  /** The positions of `s` whose row satisfies `p`. */
  function Positions<T>(s: seq<T>, p: T -> bool): (r: set<int>)
    ensures forall k :: k in r <==> 0 <= k < |s| && p(s[k])
  {
    set k | 0 <= k < |s| && p(s[k])
  }

  /** The count is the number of positions of `s` whose row satisfies `p`. */
  lemma {:induction false} CountIndices<T>(s: seq<T>, p: T -> bool)
    ensures Count(s, p) == |Positions(s, p)|
    decreases |s|
  {
    if s != [] {
      var n := |s| - 1;
      CountIndices(s[..n], p);
      assert s == s[..n] + [s[n]];
      CountConcat(s[..n], [s[n]], p);
      CountOne(s[n], p);
      PositionsSnoc(s, p);
    }
  }

  /** A single row counts once when it satisfies `p`, and not at all
      otherwise. */
  lemma CountOne<T>(x: T, p: T -> bool)
    ensures Count([x], p) == if p(x) then 1 else 0
  {
    assert [x][1..] == [];
  }

  /** The satisfying positions of a non-empty sequence are those of all but
      its last row, plus the last position when its row satisfies `p`. */
  lemma PositionsSnoc<T>(s: seq<T>, p: T -> bool)
    requires s != []
    ensures var n := |s| - 1;
      |Positions(s, p)| == |Positions(s[..n], p)| + (if p(s[n]) then 1 else 0)
  {
    var n := |s| - 1;
    var all := Positions(s, p);
    var before := Positions(s[..n], p);
    if p(s[n]) {
      assert all == before + {n};
    } else {
      assert all == before;
    }
  }

  /** Two equally long sequences whose rows at each index agree on `p` and
      `q` have equal counts. */
  lemma {:induction false} CountCorresponding<T, U>(a: seq<T>, p: T -> bool, b: seq<U>, q: U -> bool)
    requires |a| == |b|
    requires forall k :: 0 <= k < |a| ==> (p(a[k]) <==> q(b[k]))
    ensures Count(a, p) == Count(b, q)
  {
    if a != [] {
      CountCorresponding(a[1..], p, b[1..], q);
    }
  }

  /** The sum of `f` over the rows of `s`. */
  function Sum<T>(s: seq<T>, f: T -> int): int
  {
    if s == [] then 0 else f(s[0]) + Sum(s[1..], f)
  }

  /** Summing distributes over concatenation. */
  lemma {:induction false} SumConcat<T>(a: seq<T>, b: seq<T>, f: T -> int)
    ensures Sum(a + b, f) == Sum(a, f) + Sum(b, f)
  {
    if a == [] {
      assert a + b == b;
    } else {
      assert (a + b)[1..] == a[1..] + b;
      SumConcat(a[1..], b, f);
    }
  }

  /** A sum does not depend on the order of the rows: any two sequences with
      the same multiset of rows have the same sum. */
  lemma {:induction false} SumPermutation<T>(a: seq<T>, b: seq<T>, f: T -> int)
    requires multiset(a) == multiset(b)
    ensures Sum(a, f) == Sum(b, f)
    decreases |a|
  {
    if a == [] {
      assert |b| == |multiset(b)| == 0;
    } else {
      var x := a[0];
      assert x in multiset(b);
      var k :| 0 <= k < |b| && b[k] == x;
      var rest := b[..k] + b[k+1..];
      assert b == b[..k] + [x] + b[k+1..];
      SumConcat(b[..k] + [x], b[k+1..], f);
      SumConcat(b[..k], [x], f);
      SumConcat(b[..k], b[k+1..], f);
      assert a == [x] + a[1..];
      assert multiset(b) == multiset(b[..k]) + multiset{x} + multiset(b[k+1..]);
      assert multiset(rest) == multiset(b[..k]) + multiset(b[k+1..]);
      assert multiset(a) == multiset{x} + multiset(a[1..]);
      assert multiset(a[1..]) == multiset(a) - multiset{x};
      assert multiset(rest) == multiset(b) - multiset{x};
      SumPermutation(a[1..], rest, f);
    }
  }

  /** A sum is monotone in its summand. */
  lemma {:induction false} SumMonotone<T>(s: seq<T>, f: T -> int, g: T -> int)
    requires forall i :: 0 <= i < |s| ==> f(s[i]) <= g(s[i])
    ensures Sum(s, f) <= Sum(s, g)
  {
    if s != [] {
      SumMonotone(s[1..], f, g);
    }
  }

  /** Two summands that agree on every row give equal sums. */
  lemma {:induction false} SumPointwiseEqual<T>(s: seq<T>, f: T -> int, g: T -> int)
    requires forall i :: 0 <= i < |s| ==> f(s[i]) == g(s[i])
    ensures Sum(s, f) == Sum(s, g)
  {
    if s != [] {
      SumPointwiseEqual(s[1..], f, g);
    }
  }

  /** If `f` is at most `g` everywhere and strictly less somewhere, the sum of
      `f` is strictly less. */
  lemma {:induction false} SumStrictlyLess<T>(s: seq<T>, f: T -> int, g: T -> int, k: nat)
    requires forall i :: 0 <= i < |s| ==> f(s[i]) <= g(s[i])
    requires k < |s| && f(s[k]) < g(s[k])
    ensures Sum(s, f) < Sum(s, g)
  {
    if k == 0 {
      SumMonotone(s[1..], f, g);
    } else {
      SumStrictlyLess(s[1..], f, g, k - 1);
    }
  }
}
