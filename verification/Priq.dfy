/** The binary-heap priority queue of priq.c, with the sift loops of the PROP_F and
    PROP_B macros of priq.h working in place on the element array. */
module Priq {

  /** A comparator in the style of qsort: negative, zero or positive. */
  type Compar<!T> = (T, T) -> int

  predicate Comparable<T>(cmp: Compar<T>, a: T, b: T) {
    cmp(a, b) <= 0 || cmp(b, a) <= 0
  }

  predicate Chained<T>(cmp: Compar<T>, a: T, b: T, c: T) {
    cmp(a, b) <= 0 && cmp(b, c) <= 0 ==> cmp(a, c) <= 0
  }

  ghost predicate TotalPreorder<T(!new)>(cmp: Compar<T>) {
    && (forall a, b :: Comparable(cmp, a, b))
    && (forall a, b, c :: Chained(cmp, a, b, c))
  }

  function Parent(j: int): int {
    (j - 1) / 2
  }

  /** The heap edge above position j is in order. */
  ghost predicate EdgeOk<T>(cmp: Compar<T>, s: seq<T>, j: int)
    requires 0 < j < |s|
  {
    cmp(s[Parent(j)], s[j]) <= 0
  }

  ghost predicate IsHeap<T>(cmp: Compar<T>, s: seq<T>) {
    forall j :: 0 < j < |s| ==> EdgeOk(cmp, s, j)
  }

  /** Heap everywhere but on the edges touching position p. */
  ghost predicate HeapBut<T>(cmp: Compar<T>, s: seq<T>, p: int) {
    && (forall j {:trigger EdgeOk(cmp, s, j)} :: 0 < j < |s| && j != p && Parent(j) != p ==> EdgeOk(cmp, s, j))
    && Bridged(cmp, s, p)
  }

  /** Heap everywhere but on the edge above p. */
  ghost predicate HeapBelow<T>(cmp: Compar<T>, s: seq<T>, p: int) {
    && (forall j :: 0 < j < |s| && j != p ==> EdgeOk(cmp, s, j))
    && Bridged(cmp, s, p)
  }

  ghost predicate BridgeOk<T>(cmp: Compar<T>, s: seq<T>, p: int, j: int)
    requires 0 < j < |s| && Parent(j) == p && 0 < p
  {
    cmp(s[Parent(p)], s[j]) <= 0
  }

  /** The children of p are in order with the parent of p. */
  ghost predicate Bridged<T>(cmp: Compar<T>, s: seq<T>, p: int) {
    forall j {:trigger BridgeOk(cmp, s, p, j)} :: 0 < j < |s| && Parent(j) == p && 0 < p ==> BridgeOk(cmp, s, p, j)
  }

  lemma {:induction false} RootIsLeast<T(!new)>(cmp: Compar<T>, s: seq<T>, j: int)
    requires TotalPreorder(cmp) && IsHeap(cmp, s)
    requires 0 <= j < |s|
    ensures cmp(s[0], s[j]) <= 0
    decreases j
  {
    if j == 0 {
      assert Comparable(cmp, s[0], s[0]);
    } else {
      RootIsLeast(cmp, s, Parent(j));
      assert EdgeOk(cmp, s, j) && Chained(cmp, s[0], s[Parent(j)], s[j]);
    }
  }

  lemma SwapKeepsElems<T>(s: seq<T>, i: int, j: int)
    requires 0 <= i < |s| && 0 <= j < |s|
    ensures multiset(s[i := s[j]][j := s[i]]) == multiset(s)
  {
  }

  class Priq<T(0, !new)> {
    const cmp: Compar<T>
    var q: array<T>
    var n: nat

    ghost predicate Valid()
      reads this, q
    {
      && n <= q.Length
      && TotalPreorder(cmp)
      && IsHeap(cmp, q[..n])
    }

    /** What is in the queue, with multiplicity. */
    ghost function Elems(): multiset<T>
      reads this, q
      requires n <= q.Length
    {
      multiset(q[..n])
    }

    constructor (compar: Compar<T>)
      requires TotalPreorder(compar)
      ensures Valid() && Elems() == multiset{} && n == 0
      ensures cmp == compar && fresh(q)
    {
      cmp := compar;
      q := new T[0];
      n := 0;
    }

    /** The three moves through the scratch cell. */
    method Swap(i: nat, j: nat)
      requires n <= q.Length && i < n && j < n
      modifies q
      ensures q[..n] == old(q[..n])[i := old(q[j])][j := old(q[i])]
      ensures multiset(q[..n]) == multiset(old(q[..n]))
    {
      ghost var s := q[..n];
      var t := q[i];
      q[i] := q[j];
      q[j] := t;
      assert q[..n] == s[i := s[j]][j := s[i]];
      SwapKeepsElems(s, i, j);
    }

    method PropF(start: nat)
      requires n <= q.Length && TotalPreorder(cmp)
      requires start < n && HeapBut(cmp, q[..n], start)
      modifies q
      ensures HeapBelow(cmp, q[..n], start)
      ensures Elems() == old(Elems())
      ensures start == 0 ==> IsHeap(cmp, q[..n])
    {
      hide EdgeOk, HeapBut, HeapBelow, IsHeap, TotalPreorder, Parent;
      var i, done := start, false;
      while 2 * i + 1 < n && !done
        invariant start <= i < n && Elems() == old(Elems())
        invariant Sifting(start, i) && (done ==> HeapBelow(cmp, q[..n], i))
        decreases if done then 0 else 1, n - i
      {
        i, done := Forward(start, i);
      }
      if !done {
        SiftDownEnd(cmp, q[..n], i);
      }
      HeapAbove(cmp, q[..n], start, i);
    }

    /** Between two turns: the one place out of order is i, and the path to it is in order. */
    ghost predicate Sifting(start: nat, i: nat)
      requires n <= q.Length && start <= i < n
      reads this, q
    {
      && HeapBut(cmp, q[..n], i)
      && (i != start ==> EdgeOk(cmp, q[..n], i))
      && (i != start && 0 < start ==> EdgeOk(cmp, q[..n], start))
    }

    /** One turn of the loop of PROP_F: nothing if the lesser child is in order with its
        parent, else the exchange of the two. */
    method Forward(start: nat, i: nat) returns (i': nat, done: bool)
      requires n <= q.Length && TotalPreorder(cmp)
      requires start <= i && 2 * i + 1 < n && Sifting(start, i)
      modifies q
      ensures Elems() == old(Elems())
      ensures if done then i' == i && HeapBelow(cmp, q[..n], i) else i < i' < n
      ensures Sifting(start, i')
    {
      ghost var s := q[..n];
      var j := 2 * i + 1;
      if j + 1 < n && cmp(q[j], q[j + 1]) > 0 {
        j := j + 1;
      }
      assert IsLeastChild(cmp, s, i, j);
      hide EdgeOk, HeapBut, HeapBelow, TotalPreorder, IsLeastChild, Parent;
      if cmp(q[i], q[j]) <= 0 {
        SiftDownStop(cmp, s, i, j);
        return i, true;
      }
      SiftDownStep(cmp, s, start, i, j);
      Swap(i, j);
      return j, false;
    }

    method PropB(start: nat)
      requires n <= q.Length && TotalPreorder(cmp)
      requires start < n && HeapBelow(cmp, q[..n], start)
      modifies q
      ensures IsHeap(cmp, q[..n])
      ensures Elems() == old(Elems())
    {
      var j := start;
      while j > 0
        invariant 0 <= j < n
        invariant Elems() == old(Elems())
        invariant HeapBelow(cmp, q[..n], j)
      {
        var i := (j - 1) / 2;
        if cmp(q[i], q[j]) <= 0 {
          assert EdgeOk(cmp, q[..n], j);
          break;
        }
        ghost var s := q[..n];
        Swap(i, j);
        SiftUpStep(cmp, s, i, j);
        j := i;
      }
    }

    method UpdateIndex(i: nat)
      requires n <= q.Length && TotalPreorder(cmp)
      requires i < n && HeapBut(cmp, q[..n], i)
      modifies q
      ensures Valid() && Elems() == old(Elems())
    {
      PropF(i);
      if i != 0 {
        PropB(i);
      }
    }

    method Enq(d: T)
      requires Valid()
      modifies this`q, this`n, q
      ensures Valid() && Elems() == old(Elems()) + multiset{d}
      ensures n == old(n) + 1
      ensures q == old(q) || fresh(q)
    {
      ghost var s := q[..n];
      if q.Length <= n {
        var newsize := if (n + 1) % 128 == 0 then n + 1 else n + 1 + (128 - (n + 1) % 128);
        var a := new T[newsize];
        forall k | 0 <= k < n {
          a[k] := q[k];
        }
        assert a[..n] == s;
        q := a;
      }
      q[n] := d;
      n := n + 1;
      assert q[..n] == s + [d];
      HeapAppend(cmp, s, d);
      PropB(n - 1);
    }

    /** The least element; the source reads it through a pointer to the array. */
    method Top() returns (t: T)
      requires Valid() && n > 0
      ensures t == q[0] && t in Elems()
      ensures forall x :: x in Elems() ==> cmp(t, x) <= 0
    {
      t := q[0];
      ghost var s := q[..n];
      assert t == s[0];
      forall x | x in s
        ensures cmp(t, x) <= 0
      {
        var j :| 0 <= j < |s| && s[j] == x;
        RootIsLeast(cmp, s, j);
      }
    }

    method RplaTop(d: T)
      requires Valid() && n > 0
      modifies q
      ensures Valid() && Elems() == old(Elems()) - multiset{old(q[0])} + multiset{d}
    {
      ghost var s := q[..n];
      q[0] := d;
      assert q[..n] == s[0 := d];
      HeapReplace(cmp, s, 0, d);
      PropF(0);
    }

    method DeleteIndex(i: nat) returns (ok: bool)
      requires Valid()
      modifies this`n, q
      ensures ok == (i < old(n))
      ensures !ok ==> Valid() && Elems() == old(Elems()) && n == old(n)
      ensures ok ==> Valid() && Elems() == old(Elems()) - multiset{old(q[i])} && n == old(n) - 1
    {
      if n <= i {
        return false;
      }
      hide IsHeap, HeapBut;
      ghost var s := q[..n];
      n := n - 1;
      HeapPrefix(cmp, s, n);
      LastGone(s, i);
      assert q[..n] == s[..n];
      if n == i {
        return true;
      }
      q[i] := q[n];
      assert q[..n] == s[..n][i := s[n]];
      HeapReplace(cmp, s[..n], i, s[n]);
      UpdateIndex(i);
      return true;
    }

    method Deq()
      requires Valid() && n > 0
      modifies this`n, q
      ensures Valid() && Elems() == old(Elems()) - multiset{old(q[0])}
      ensures n == old(n) - 1
    {
      var _ := DeleteIndex(0);
    }
  }

  /** The last element takes the place of element i. */
  lemma LastGone<T>(s: seq<T>, i: nat)
    requires i < |s|
    ensures var m := |s| - 1;
            multiset(if i == m then s[..m] else s[..m][i := s[m]]) == multiset(s) - multiset{s[i]}
  {
    assert s == s[..|s| - 1] + [s[|s| - 1]];
  }

  lemma HeapAppend<T(!new)>(cmp: Compar<T>, s: seq<T>, d: T)
    requires IsHeap(cmp, s)
    ensures HeapBelow(cmp, s + [d], |s|)
  {
    forall j | 0 < j < |s|
      ensures EdgeOk(cmp, s + [d], j)
    {
      assert EdgeOk(cmp, s, j);
    }
  }

  lemma HeapReplace<T(!new)>(cmp: Compar<T>, s: seq<T>, i: int, v: T)
    requires TotalPreorder(cmp) && IsHeap(cmp, s) && 0 <= i < |s|
    ensures HeapBut(cmp, s[i := v], i)
  {
    forall j | 0 < j < |s|
      ensures j != i && Parent(j) != i ==> EdgeOk(cmp, s[i := v], j)
      ensures Parent(j) == i && 0 < i ==> BridgeOk(cmp, s[i := v], i, j)
    {
      assert EdgeOk(cmp, s, j);
      assert 0 < i ==> EdgeOk(cmp, s, i) && Chained(cmp, s[Parent(i)], s[i], s[j]);
    }
  }

  lemma HeapPrefix<T(!new)>(cmp: Compar<T>, s: seq<T>, m: nat)
    requires IsHeap(cmp, s) && m <= |s|
    ensures IsHeap(cmp, s[..m])
  {
    forall j | 0 < j < m
      ensures EdgeOk(cmp, s[..m], j)
    {
      assert EdgeOk(cmp, s, j);
    }
  }

  /** What the two comparisons of PROP_F leave in j: a child of i, the lesser of two. */
  ghost predicate IsLeastChild<T>(cmp: Compar<T>, s: seq<T>, i: int, j: int) {
    && 0 <= i && 2 * i + 1 <= j <= 2 * i + 2 && j < |s|
    && (j == 2 * i + 1 && j + 1 < |s| ==> cmp(s[j], s[j + 1]) <= 0)
    && (j == 2 * i + 2 ==> cmp(s[j - 1], s[j]) > 0)
  }

  lemma LeastChild<T(!new)>(cmp: Compar<T>, s: seq<T>, i: int, j: int)
    requires TotalPreorder(cmp) && IsLeastChild(cmp, s, i, j)
    ensures Parent(j) == i
    ensures forall k :: 0 < k < |s| && Parent(k) == i ==> cmp(s[j], s[k]) <= 0
  {
    assert Comparable(cmp, s[j], s[j]);
    assert j == 2 * i + 2 ==> Comparable(cmp, s[j - 1], s[j]);
    assert forall k :: 0 < k < |s| && Parent(k) == i ==> k == 2 * i + 1 || k == 2 * i + 2;
  }

  lemma SiftDownStop<T(!new)>(cmp: Compar<T>, s: seq<T>, i: int, j: int)
    requires TotalPreorder(cmp)
    requires IsLeastChild(cmp, s, i, j) && HeapBut(cmp, s, i)
    requires cmp(s[i], s[j]) <= 0
    ensures HeapBelow(cmp, s, i)
  {
    LeastChild(cmp, s, i, j);
    forall k | 0 < k < |s| && Parent(k) == i
      ensures EdgeOk(cmp, s, k)
    {
      assert Chained(cmp, s[i], s[j], s[k]);
    }
  }

  lemma SiftDownEnd<T(!new)>(cmp: Compar<T>, s: seq<T>, i: int)
    requires 0 <= i && |s| <= 2 * i + 1 && HeapBut(cmp, s, i)
    ensures HeapBelow(cmp, s, i)
  {
    assert forall k :: 0 < k < |s| ==> Parent(k) < i;
  }

  /** The path sifted down is in order again up to and including position start. */
  lemma HeapAbove<T(!new)>(cmp: Compar<T>, s: seq<T>, start: int, i: int)
    requires TotalPreorder(cmp)
    requires 0 <= start <= i < |s| && HeapBelow(cmp, s, i)
    requires i != start ==> EdgeOk(cmp, s, i)
    requires i != start && 0 < start ==> EdgeOk(cmp, s, start)
    ensures HeapBelow(cmp, s, start)
    ensures start == 0 ==> IsHeap(cmp, s)
  {
    if i != start {
      forall k | 0 < k < |s| && Parent(k) == start && 0 < start
        ensures BridgeOk(cmp, s, start, k)
      {
        assert EdgeOk(cmp, s, k) && Chained(cmp, s[Parent(start)], s[start], s[k]);
      }
    }
  }

  lemma SiftDownStep<T(!new)>(cmp: Compar<T>, s: seq<T>, start: int, i: int, j: int)
    requires TotalPreorder(cmp)
    requires 0 <= start <= i && IsLeastChild(cmp, s, i, j) && HeapBut(cmp, s, i)
    requires i != start && 0 < start ==> EdgeOk(cmp, s, start)
    requires cmp(s[i], s[j]) > 0
    ensures var t := s[i := s[j]][j := s[i]];
            HeapBut(cmp, t, j) && EdgeOk(cmp, t, j) && (0 < start ==> EdgeOk(cmp, t, start))
  {
    var t := s[i := s[j]][j := s[i]];
    LeastChild(cmp, s, i, j);
    assert Comparable(cmp, s[i], s[j]);
    forall k | 0 < k < |t| && k != j && Parent(k) != j
      ensures EdgeOk(cmp, t, k)
    {
      if k == i {
        assert BridgeOk(cmp, s, i, j);
      } else if Parent(k) != i {
        assert EdgeOk(cmp, s, k);
      }
    }
    forall k | 0 < k < |t| && Parent(k) == j
      ensures BridgeOk(cmp, t, j, k)
    {
      assert EdgeOk(cmp, s, k);
    }
  }

  lemma SiftUpStep<T(!new)>(cmp: Compar<T>, s: seq<T>, i: int, j: int)
    requires TotalPreorder(cmp)
    requires 0 <= i < j < |s| && Parent(j) == i
    requires HeapBelow(cmp, s, j)
    requires cmp(s[i], s[j]) > 0
    ensures HeapBelow(cmp, s[i := s[j]][j := s[i]], i)
  {
    var t := s[i := s[j]][j := s[i]];
    assert Comparable(cmp, s[i], s[j]);
    forall k | 0 < k < |t| && k != i
      ensures EdgeOk(cmp, t, k)
    {
      if k != j {
        assert EdgeOk(cmp, s, k) && Chained(cmp, s[j], s[i], s[k]);
        assert Parent(k) == j ==> BridgeOk(cmp, s, j, k);
      }
    }
    forall k | 0 < k < |t| && Parent(k) == i && 0 < i
      ensures BridgeOk(cmp, t, i, k)
    {
      assert EdgeOk(cmp, s, i);
      if k != j {
        assert EdgeOk(cmp, s, k) && Chained(cmp, s[Parent(i)], s[i], s[k]);
      }
    }
  }
}
