/** What this model uses of the sort package. */
module Sorting {

  /** sort.Search: an index where f turns true; the least one where f holds if f is monotone. */
  method Search(n: nat, f: int --> bool) returns (i: nat)
    requires forall j :: 0 <= j < n ==> f.requires(j)
    ensures i <= n
    ensures i > 0 ==> !f(i - 1)
    ensures i < n ==> f(i)
  {
    i := 0;
    var j := n;
    while i < j
      invariant 0 <= i <= j <= n
      invariant i > 0 ==> !f(i - 1)
      invariant j < n ==> f(j)
    {
      var h := (i + j) / 2;
      if f(h) {
        j := h;
      } else {
        i := h + 1;
      }
    }
  }

  /** A strict order in which being equivalent is transitive. */
  ghost predicate WeakOrder<T(!new)>(less: (T, T) -> bool) {
    && (forall x, y :: less(x, y) ==> !less(y, x))
    && (forall x, y, z :: less(x, z) ==> less(x, y) || less(y, z))
  }

  ghost predicate SortedBy<T>(s: seq<T>, less: (T, T) -> bool) {
    forall i, j | 0 <= i < j < |s| :: !less(s[j], s[i])
  }

  lemma {:induction false} InsertSorted<T(!new)>(r: seq<T>, x: T, k: nat, less: (T, T) -> bool)
    requires WeakOrder(less) && SortedBy(r, less) && k <= |r|
    requires k > 0 ==> !less(x, r[k - 1])
    requires forall j | k <= j < |r| :: less(x, r[j])
    ensures SortedBy(r[..k] + [x] + r[k..], less)
  {
    forall j | 0 <= j < k ensures !less(x, r[j]) {
      if j < k - 1 {
        assert !less(r[k - 1], r[j]);
      }
    }
  }

  /** sort.Slice */
  method Sort<T(!new)>(s: seq<T>, less: (T, T) -> bool) returns (r: seq<T>)
    requires WeakOrder(less)
    ensures multiset(r) == multiset(s) && SortedBy(r, less)
  {
    r := [];
    for i := 0 to |s|
      invariant multiset(r) == multiset(s[..i]) && SortedBy(r, less)
    {
      var k: nat := |r|;
      while k > 0 && less(s[i], r[k - 1])
        invariant k <= |r|
        invariant forall j | k <= j < |r| :: less(s[i], r[j])
      {
        k := k - 1;
      }
      InsertSorted(r, s[i], k, less);
      assert r == r[..k] + r[k..] && s[..i + 1] == s[..i] + [s[i]];
      r := r[..k] + [s[i]] + r[k..];
    }
    assert s[..|s|] == s;
  }

  lemma {:induction false} SortKeepsMembers<T(!new)>(s: seq<T>, r: seq<T>)
    requires multiset(r) == multiset(s)
    ensures forall x :: x in r <==> x in s
  {
    forall x ensures x in r <==> x in s { assert x in multiset(r) <==> x in multiset(s); }
  }

  lemma {:induction false} OnceEach<T>(s: seq<T>, x: T)
    requires forall i, j | 0 <= i < j < |s| :: s[i] != s[j]
    ensures multiset(s)[x] <= 1
    decreases |s|
  {
    if s != [] {
      OnceEach(s[..|s| - 1], x);
      assert s == s[..|s| - 1] + [s[|s| - 1]];
    }
  }

  lemma {:induction false} SortKeepsDistinct<T>(s: seq<T>, r: seq<T>)
    requires multiset(r) == multiset(s) && forall i, j | 0 <= i < j < |s| :: s[i] != s[j]
    ensures forall i, j | 0 <= i < j < |r| :: r[i] != r[j]
  {
    forall i, j | 0 <= i < j < |r| ensures r[i] != r[j] {
      OnceEach(s, r[i]);
      var head, tail := r[..j], r[j + 1..];
      assert r == head + [r[j]] + tail;
      assert head[i] in multiset(head);
    }
  }
}
