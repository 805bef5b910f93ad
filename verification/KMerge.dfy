/** Merging sorted streams over a heap: the heap holds the front item of every stream that is
    not used up (assv.c for posting lists, nwam.c for files of pairs). */
module KMerge {
  import opened Priq

  /** An item at the front of stream number src. */
  datatype Head<T> = Head(item: T, src: nat)

  /** The cursors of the streams are inside them. */
  ghost predicate CursorsOk<T>(lists: seq<seq<T>>, ep: seq<nat>) {
    |ep| == |lists| && forall i :: 0 <= i < |ep| ==> ep[i] <= |lists[i]|
  }

  function HeadAt<T>(lists: seq<seq<T>>, ep: seq<nat>, i: nat): Head<T>
    requires i < |lists| == |ep| && ep[i] < |lists[i]|
  {
    Head(lists[i][ep[i]], i)
  }

  ghost predicate HeapOk<T>(lists: seq<seq<T>>, ep: seq<nat>, heap: multiset<Head<T>>)
    requires CursorsOk(lists, ep)
  {
    && (forall i :: 0 <= i < |lists| && ep[i] < |lists[i]| ==> heap[HeadAt(lists, ep, i)] == 1)
    && (forall e :: e in heap ==> e.src < |lists| && ep[e.src] < |lists[e.src]| && e == HeadAt(lists, ep, e.src))
  }

  /** How many items are still to be read. */
  ghost function Remaining<T>(lists: seq<seq<T>>, ep: seq<nat>): (n: nat)
    requires CursorsOk(lists, ep)
    ensures n == 0 ==> forall i :: 0 <= i < |lists| ==> ep[i] == |lists[i]|
  {
    if |lists| == 0 then 0
    else
      var k := |lists| - 1;
      Remaining(lists[..k], ep[..k]) + |lists[k]| - ep[k]
  }

  lemma {:induction false} RemainingStep<T>(lists: seq<seq<T>>, ep: seq<nat>, i: nat)
    requires CursorsOk(lists, ep) && i < |lists| && ep[i] < |lists[i]|
    ensures CursorsOk(lists, ep[i := ep[i] + 1])
    ensures Remaining(lists, ep[i := ep[i] + 1]) == Remaining(lists, ep) - 1
    decreases |lists|
  {
    var k := |lists| - 1;
    var ep' := ep[i := ep[i] + 1];
    if i < k {
      assert ep'[..k] == ep[..k][i := ep[i] + 1];
      RemainingStep(lists[..k], ep[..k], i);
    } else {
      assert ep'[..k] == ep[..k];
    }
  }

  /** Advancing the stream of one head. */
  lemma HeapStep<T>(lists: seq<seq<T>>, ep: seq<nat>, heap: multiset<Head<T>>, t: Head<T>, heap': multiset<Head<T>>)
    requires CursorsOk(lists, ep) && HeapOk(lists, ep, heap) && t in heap
    requires t.src < |lists| && ep[t.src] < |lists[t.src]| && t == HeadAt(lists, ep, t.src)
    requires CursorsOk(lists, ep[t.src := ep[t.src] + 1])
    requires heap' == if ep[t.src] + 1 < |lists[t.src]|
      then heap - multiset{t} + multiset{HeadAt(lists, ep[t.src := ep[t.src] + 1], t.src)} else heap - multiset{t}
    ensures HeapOk(lists, ep[t.src := ep[t.src] + 1], heap')
  {
    var ep' := ep[t.src := ep[t.src] + 1];
    var rest := heap - multiset{t};
    assert forall e :: e in rest ==> e in heap && e.src != t.src;
    forall i | 0 <= i < |lists| && ep'[i] < |lists[i]|
      ensures heap'[HeadAt(lists, ep', i)] == 1
    {
      if i != t.src {
        assert HeadAt(lists, ep', i) == HeadAt(lists, ep, i);
      } else {
        assert HeadAt(lists, ep', i) !in rest;
      }
    }
    forall e | e in heap'
      ensures e.src < |lists| && ep'[e.src] < |lists[e.src]| && e == HeadAt(lists, ep', e.src)
    {
      assert e in rest || e == HeadAt(lists, ep', t.src);
    }
  }

  lemma HeapEmpty<T>(lists: seq<seq<T>>, ep: seq<nat>, heap: multiset<Head<T>>)
    requires CursorsOk(lists, ep) && HeapOk(lists, ep, heap) && heap == multiset{}
    ensures forall i :: 0 <= i < |lists| ==> ep[i] == |lists[i]|
  {
  }

  ghost predicate Rewound(ep: seq<nat>) {
    forall i :: 0 <= i < |ep| ==> ep[i] == 0
  }

  lemma HeapEnq<T>(lists: seq<seq<T>>, ep: seq<nat>, i: nat, heap: multiset<Head<T>>, heap': multiset<Head<T>>)
    requires CursorsOk(lists, ep) && Rewound(ep) && i < |lists|
    requires HeapOk(lists[..i], ep[..i], heap)
    requires heap' == if |lists[i]| > 0 then heap + multiset{HeadAt(lists, ep, i)} else heap
    ensures HeapOk(lists[..i + 1], ep[..i + 1], heap')
  {
    var ls, es := lists[..i + 1], ep[..i + 1];
    forall j | 0 <= j < |ls| && es[j] < |ls[j]|
      ensures heap'[HeadAt(ls, es, j)] == 1
    {
      if j < i {
        assert HeadAt(ls, es, j) == HeadAt(lists[..i], ep[..i], j);
      } else {
        assert HeadAt(ls, es, j) !in heap;
      }
    }
  }

  method EnqHead<T(0, !new)>(a: Priq<Head<T>>, lists: seq<seq<T>>, ep: seq<nat>, i: nat)
    requires a.Valid() && CursorsOk(lists, ep) && Rewound(ep) && i < |lists|
    requires HeapOk(lists[..i], ep[..i], a.Elems())
    modifies a`q, a`n, a.q
    ensures a.Valid() && HeapOk(lists[..i + 1], ep[..i + 1], a.Elems())
    ensures a.q == old(a.q) || fresh(a.q)
  {
    hide HeapOk, IsHeap, TotalPreorder;
    ghost var heap := a.Elems();
    if |lists[i]| > 0 {
      a.Enq(HeadAt(lists, ep, i));
    }
    HeapEnq(lists, ep, i, heap, a.Elems());
  }

  /** All streams that are not empty enter the heap at their first item. */
  method StartHeap<T(0, !new)>(cmp: Compar<Head<T>>, lists: seq<seq<T>>) returns (a: Priq<Head<T>>, ep: seq<nat>)
    requires TotalPreorder(cmp)
    ensures fresh(a) && fresh(a.q) && a.Valid() && a.cmp == cmp
    ensures CursorsOk(lists, ep) && Rewound(ep) && HeapOk(lists, ep, a.Elems())
  {
    ep := seq(|lists|, _ => 0);
    NoHeads(lists[..0], ep[..0]);
    hide HeapOk, IsHeap, TotalPreorder, Priq.Elems;
    a := new Priq<Head<T>>(cmp);
    for i := 0 to |lists|
      invariant fresh(a) && fresh(a.q) && a.Valid() && a.cmp == cmp
      invariant HeapOk(lists[..i], ep[..i], a.Elems())
    {
      EnqHead(a, lists, ep, i);
    }
    assert lists[..|lists|] == lists && ep[..|lists|] == ep;
  }

  lemma NoHeads<T>(lists: seq<seq<T>>, ep: seq<nat>)
    requires |lists| == |ep| == 0
    ensures HeapOk(lists, ep, multiset{})
  {
  }

  lemma TopIn<T(0, !new)>(a: Priq<T>)
    requires 0 < a.n <= a.q.Length
    ensures a.q[0] in a.Elems()
  {
    assert a.q[..a.n][0] == a.q[0];
  }

  /** The stream of the top head moves on, or leaves the heap. */
  method Advance<T(0, !new)>(a: Priq<Head<T>>, lists: seq<seq<T>>, ep: seq<nat>, t: Head<T>) returns (ep': seq<nat>)
    requires a.Valid() && a.n > 0 && t == a.q[0]
    requires CursorsOk(lists, ep) && HeapOk(lists, ep, a.Elems())
    requires t.src < |lists| && ep[t.src] < |lists[t.src]| && t == HeadAt(lists, ep, t.src)
    modifies a`n, a.q
    ensures a.Valid() && ep' == ep[t.src := ep[t.src] + 1]
    ensures CursorsOk(lists, ep') && HeapOk(lists, ep', a.Elems())
    ensures Remaining(lists, ep') < Remaining(lists, ep)
  {
    hide HeapOk, Remaining, IsHeap, TotalPreorder, Priq.Elems;
    ghost var heap := a.Elems();
    TopIn(a);
    ep' := ep[t.src := ep[t.src] + 1];
    RemainingStep(lists, ep, t.src);
    if ep'[t.src] < |lists[t.src]| {
      a.RplaTop(HeadAt(lists, ep', t.src));
    } else {
      a.Deq();
    }
    HeapStep(lists, ep, heap, t, a.Elems());
  }
}
