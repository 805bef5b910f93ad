/** The ranked retrieval of assv.c: a k-way merge of posting lists over a heap, tests on each
    document, and a bounded heap of the best. */
module Assv {
  import opened Common
  import opened KMerge
  import opened Priq
  import opened Ranking
  import Bx
  import Bxutil
  import Fss

  /** A posting. */
  type Elem = XrElem<int>

  /** compar_ccompar: struct pq_container is the posting a list stands at, with the list. */
  function HeadCompar(a: Head<Elem>, b: Head<Elem>): int {
    if a.item.id == b.item.id then
      if a.src == b.src then 0 else if a.src < b.src then -1 else 1
    else if a.item.id < b.item.id then -1 else 1
  }

  lemma ComparsAreOrders()
    ensures TotalPreorder(HeadCompar) && TotalPreorder(DocCompar)
  {
    assert forall a, b :: Comparable(HeadCompar, a, b);
    assert forall a, b, c :: Chained(HeadCompar, a, b, c);
    assert forall a, b :: Comparable(DocCompar, a, b);
    assert forall a, b, c :: Chained(DocCompar, a, b, c);
  }

  // ------------------------------------------------------------------ posting lists

  ghost predicate ListOk(l: seq<Elem>) {
    && (forall x :: 0 <= x < |l| ==> l[x].id > 0)
    && (forall x, y :: 0 <= x < y < |l| ==> l[x].id < l[y].id)
  }

  ghost predicate ListsOk(lists: seq<seq<Elem>>) {
    forall i :: 0 <= i < |lists| ==> ListOk(lists[i])
  }

  ghost predicate InList(l: seq<Elem>, d: nat) {
    exists x :: 0 <= x < |l| && l[x].id == d
  }

  ghost predicate Occurs(lists: seq<seq<Elem>>, d: nat) {
    exists i :: 0 <= i < |lists| && InList(lists[i], d)
  }

  /** The lists a document occurs in, by number. */
  ghost predicate IsHits(lists: seq<seq<Elem>>, h: seq<nat>, d: nat) {
    && (forall i, j :: 0 <= i < j < |h| ==> h[i] < h[j])
    && (forall i: nat :: i in h <==> i < |lists| && InList(lists[i], d))
  }

  /** What has been read: everything below d is done, the lists at d are in h. */
  ghost predicate GroupOk(lists: seq<seq<Elem>>, ep: seq<nat>, h: seq<nat>, d: nat)
    requires CursorsOk(lists, ep)
  {
    && (forall i, j :: 0 <= i < j < |h| ==> h[i] < h[j])
    && (forall k :: 0 <= k < |h| ==> h[k] < |lists| && 0 < ep[h[k]] && lists[h[k]][ep[h[k]] - 1].id == d)
    && (forall i :: 0 <= i < |lists| ==> ListAt(lists, ep, h, d, i))
  }

  ghost predicate ListAt(lists: seq<seq<Elem>>, ep: seq<nat>, h: seq<nat>, d: nat, i: nat)
    requires CursorsOk(lists, ep) && i < |lists|
  {
    && (0 < ep[i] ==> lists[i][ep[i] - 1].id <= d)
    && (0 < ep[i] && lists[i][ep[i] - 1].id == d ==> i in h)
    && (ep[i] < |lists[i]| ==> d <= lists[i][ep[i]].id)
    && (ep[i] < |lists[i]| && lists[i][ep[i]].id == d ==> forall k :: 0 <= k < |h| ==> h[k] < i)
  }

  /** Every list still to be read stands at d or later. */
  ghost predicate HeadsFrom(lists: seq<seq<Elem>>, ep: seq<nat>, d: nat)
    requires CursorsOk(lists, ep)
  {
    forall i :: 0 <= i < |lists| && ep[i] < |lists[i]| ==> d <= lists[i][ep[i]].id
  }

  lemma LeastEntry(lists: seq<seq<Elem>>, ep: seq<nat>, heap: multiset<Head<Elem>>, t: Head<Elem>)
    requires CursorsOk(lists, ep) && HeapOk(lists, ep, heap)
    requires t in heap && forall e :: e in heap ==> HeadCompar(t, e) <= 0
    ensures t.src < |lists| && ep[t.src] < |lists[t.src]| && t == HeadAt(lists, ep, t.src)
    ensures HeadsFrom(lists, ep, t.item.id)
    ensures forall i :: 0 <= i < |lists| && ep[i] < |lists[i]| && lists[i][ep[i]].id == t.item.id ==> t.src <= i
  {
    forall i | 0 <= i < |lists| && ep[i] < |lists[i]|
      ensures t.item.id <= lists[i][ep[i]].id && (lists[i][ep[i]].id == t.item.id ==> t.src <= i)
    {
      assert HeadAt(lists, ep, i) in heap;
    }
  }

  /** No id lies between the group read last and the heads still to come. */
  lemma NoneBetween(lists: seq<seq<Elem>>, ep: seq<nat>, h: seq<nat>, d: nat, d': nat, e: nat)
    requires ListsOk(lists) && CursorsOk(lists, ep) && GroupOk(lists, ep, h, d) && HeadsFrom(lists, ep, d')
    requires Occurs(lists, e)
    ensures e <= d || d' <= e
  {
    var i :| 0 <= i < |lists| && InList(lists[i], e);
    var x :| 0 <= x < |lists[i]| && lists[i][x].id == e;
    assert ListAt(lists, ep, h, d, i) && ListOk(lists[i]);
    if x < ep[i] {
      assert lists[i][x].id <= lists[i][ep[i] - 1].id;
    } else {
      assert lists[i][ep[i]].id <= lists[i][x].id;
    }
  }

  lemma PositiveId(lists: seq<seq<Elem>>, e: nat)
    requires ListsOk(lists) && Occurs(lists, e)
    ensures e > 0
  {
    var i :| 0 <= i < |lists| && InList(lists[i], e);
    assert ListOk(lists[i]);
  }

  /** When all lists stand behind d, the group at d is complete. */
  lemma GroupComplete(lists: seq<seq<Elem>>, ep: seq<nat>, h: seq<nat>, d: nat)
    requires ListsOk(lists) && CursorsOk(lists, ep) && GroupOk(lists, ep, h, d)
    requires HeadsFrom(lists, ep, d + 1)
    ensures IsHits(lists, h, d)
  {
    forall i: nat
      ensures i in h <==> i < |lists| && InList(lists[i], d)
    {
      if i in h {
        var k :| 0 <= k < |h| && h[k] == i;
        assert lists[i][ep[i] - 1].id == d;
      }
      if i < |lists| && InList(lists[i], d) {
        var x :| 0 <= x < |lists[i]| && lists[i][x].id == d;
        assert ListAt(lists, ep, h, d, i) && ListOk(lists[i]);
        assert ep[i] < x ==> lists[i][ep[i]].id < lists[i][x].id;
        assert x < ep[i] - 1 ==> lists[i][x].id < lists[i][ep[i] - 1].id;
      }
    }
  }

  /** Reading the posting of the top entry into the group at its id. */
  lemma GroupStep(lists: seq<seq<Elem>>, ep: seq<nat>, h: seq<nat>, d: nat, q: nat)
    requires ListsOk(lists) && CursorsOk(lists, ep) && GroupOk(lists, ep, h, d) && HeadsFrom(lists, ep, d)
    requires q < |lists| && ep[q] < |lists[q]| && lists[q][ep[q]].id == d
    requires forall i :: 0 <= i < |lists| && ep[i] < |lists[i]| && lists[i][ep[i]].id == d ==> q <= i
    ensures CursorsOk(lists, ep[q := ep[q] + 1]) && GroupOk(lists, ep[q := ep[q] + 1], h + [q], d)
    ensures HeadsFrom(lists, ep[q := ep[q] + 1], d)
  {
    var ep', h' := ep[q := ep[q] + 1], h + [q];
    assert ListAt(lists, ep, h, d, q) && ListOk(lists[q]);
    forall i | 0 <= i < |lists|
      ensures ListAt(lists, ep', h', d, i)
    {
      assert ListAt(lists, ep, h, d, i);
      assert i == q ==> h'[|h|] == i;
    }
    assert forall k :: 0 <= k < |h| ==> h[k] < q;
  }

  /** A new group starts empty at the id of the top entry. */
  lemma GroupStart(lists: seq<seq<Elem>>, ep: seq<nat>, h: seq<nat>, d: nat, d': nat)
    requires ListsOk(lists) && CursorsOk(lists, ep) && GroupOk(lists, ep, h, d) && HeadsFrom(lists, ep, d')
    requires d < d'
    ensures GroupOk(lists, ep, [], d')
  {
    forall i | 0 <= i < |lists|
      ensures ListAt(lists, ep, [], d', i)
    {
      assert ListAt(lists, ep, h, d, i);
    }
  }

  /** Members of an ascending list of list numbers are at most as many as their greatest. */
  lemma {:induction false} AscendingBound(h: seq<nat>, q: nat)
    requires (forall i, j :: 0 <= i < j < |h| ==> h[i] < h[j]) && forall k :: 0 <= k < |h| ==> h[k] < q
    ensures |h| <= q
  {
    if |h| > 0 {
      AscendingBound(h[..|h| - 1], h[|h| - 1]);
    }
  }

  /** The group being read with its postings, and the cursors behind them. */
  ghost predicate ReadOk(lists: seq<seq<Elem>>, ep: seq<nat>, h: seq<nat>, dps: seq<Elem>, d: nat) {
    && CursorsOk(lists, ep) && GroupOk(lists, ep, h, d) && |dps| == |h|
    && forall k :: 0 <= k < |h| ==> dps[k] == lists[h[k]][ep[h[k]] - 1]
  }

  lemma ReadStep(lists: seq<seq<Elem>>, ep: seq<nat>, h: seq<nat>, dps: seq<Elem>, d: nat, q: nat)
    requires ListsOk(lists) && ReadOk(lists, ep, h, dps, d) && HeadsFrom(lists, ep, d)
    requires q < |lists| && ep[q] < |lists[q]| && lists[q][ep[q]].id == d
    requires forall i :: 0 <= i < |lists| && ep[i] < |lists[i]| && lists[i][ep[i]].id == d ==> q <= i
    ensures ReadOk(lists, ep[q := ep[q] + 1], h + [q], dps + [lists[q][ep[q]]], d)
    ensures |h| < |lists|
  {
    GroupStep(lists, ep, h, d, q);
    assert ListAt(lists, ep, h, d, q);
    AscendingBound(h, q);
  }

  lemma ReadPostings(lists: seq<seq<Elem>>, ep: seq<nat>, h: seq<nat>, dps: seq<Elem>, d: nat)
    requires ReadOk(lists, ep, h, dps, d)
    ensures PostingsOf(lists, h, dps, d)
  {
  }

  /** The posting of the top entry joins the group at its id, and its list moves on or
      leaves the heap. */
  method Take(a: Priq<Head<Elem>>, lists: seq<seq<Elem>>, ep: seq<nat>, h: seq<nat>, dps: seq<Elem>, t: Head<Elem>)
    returns (ep': seq<nat>, h': seq<nat>, dps': seq<Elem>)
    requires a.Valid() && a.n > 0 && t == a.q[0] && ListsOk(lists)
    requires ReadOk(lists, ep, h, dps, t.item.id) && HeapOk(lists, ep, a.Elems()) && HeadsFrom(lists, ep, t.item.id)
    requires t.src < |lists| && ep[t.src] < |lists[t.src]| && t == HeadAt(lists, ep, t.src)
    requires forall i :: 0 <= i < |lists| && ep[i] < |lists[i]| && lists[i][ep[i]].id == t.item.id ==> t.src <= i
    modifies a`n, a.q
    ensures a.Valid() && ReadOk(lists, ep', h', dps', t.item.id) && HeapOk(lists, ep', a.Elems())
    ensures h' != [] && Remaining(lists, ep') < Remaining(lists, ep)
  {
    hide HeapOk, HeadsFrom;
    ReadStep(lists, ep, h, dps, t.item.id, t.src);
    assert |h| < |lists|;
    h', dps' := h + [t.src], dps + [t.item];
    ep' := Advance(a, lists, ep, t);
  }

  // ------------------------------------------------------------------ documents

  /** The similarity functions: a posting's part of the weight, the norm of a document (0
      for none) and the last adjustment. What they compute is not part of this model. */
  datatype Sim = Sim(wd: (Elem, nat) -> real, norm: (nat, int, nat) -> real,
                     weight: (real, nat, int, nat) -> real)

  /** The postings a document was found by. */
  ghost predicate PostingsOf(lists: seq<seq<Elem>>, h: seq<nat>, dps: seq<Elem>, d: nat) {
    |h| == |dps| && forall k :: 0 <= k < |h| ==> h[k] < |lists| && dps[k] in lists[h[k]] && dps[k].id == d
  }

  /** TF_d, DF_d and wsum: over the hits of the query proper. */
  function TfSum(h: seq<nat>, dps: seq<Elem>, nq: nat): int
    requires |h| == |dps|
  {
    if |h| == 0 then 0
    else
      var k := |h| - 1;
      TfSum(h[..k], dps[..k], nq) + if h[k] < nq then dps[k].freq else 0
  }

  function DfSum(h: seq<nat>, nq: nat): nat {
    if |h| == 0 then 0
    else DfSum(h[..|h| - 1], nq) + if h[|h| - 1] < nq then 1 else 0
  }

  function WSum(sim: Sim, h: seq<nat>, dps: seq<Elem>, nq: nat): real
    requires |h| == |dps|
  {
    if |h| == 0 then 0.0
    else
      var k := |h| - 1;
      WSum(sim, h[..k], dps[..k], nq) + if h[k] < nq then sim.wd(dps[k], h[k]) else 0.0
  }

  function Scored(sim: Sim, d: nat, wsum: real, tf: int, df: nat): Doc {
    var norm := sim.norm(d, tf, df);
    var w := if wsum != 0.0 && norm != 0.0 then wsum / norm else wsum;
    Doc(d, sim.weight(w, d, tf, df), tf, df)
  }

  function DocOf(sim: Sim, d: nat, h: seq<nat>, dps: seq<Elem>, nq: nat): Doc
    requires |h| == |dps|
  {
    Scored(sim, d, WSum(sim, h, dps, nq), TfSum(h, dps, nq), DfSum(h, nq))
  }

  /** The lists that have d, in order, and its posting in each. */
  ghost function HitsOf(lists: seq<seq<Elem>>, d: nat): (h: seq<nat>)
    ensures forall k :: 0 <= k < |h| ==> h[k] < |lists| && InList(lists[h[k]], d)
  {
    if |lists| == 0 then []
    else
      var k := |lists| - 1;
      HitsOf(lists[..k], d) + if InList(lists[k], d) then [k] else []
  }

  ghost function Posting(l: seq<Elem>, d: nat): (e: Elem)
    requires InList(l, d)
    ensures e in l && e.id == d
  {
    var x :| 0 <= x < |l| && l[x].id == d;
    l[x]
  }

  ghost function PostingsFor(lists: seq<seq<Elem>>, h: seq<nat>, d: nat): (dps: seq<Elem>)
    requires forall k :: 0 <= k < |h| ==> h[k] < |lists| && InList(lists[h[k]], d)
    ensures |dps| == |h|
  {
    seq(|h|, k requires 0 <= k < |h| => Posting(lists[h[k]], d))
  }

  /** The document the lists make of an id. */
  ghost function DocFor(lists: seq<seq<Elem>>, sim: Sim, nq: nat, d: nat): (dd: Doc)
    ensures dd.id == d
  {
    var h := HitsOf(lists, d);
    DocOf(sim, d, h, PostingsFor(lists, h, d), nq)
  }

  lemma HitsInRange(lists: seq<seq<Elem>>, h: seq<nat>, d: nat)
    requires IsHits(lists, h, d)
    ensures forall k :: 0 <= k < |h| ==> h[k] < |lists|
  {
    assert forall k :: 0 <= k < |h| ==> h[k] in h;
  }

  lemma {:induction false} HitsUnique(lists: seq<seq<Elem>>, h: seq<nat>, d: nat)
    requires IsHits(lists, h, d)
    ensures h == HitsOf(lists, d)
    decreases |lists|
  {
    if |lists| == 0 {
      HitsInRange(lists, h, d);
    } else {
      var k := |lists| - 1;
      LastHit(lists, h, d);
      if InList(lists[k], d) {
        HitsUnique(lists[..k], h[..|h| - 1], d);
      } else {
        HitsUnique(lists[..k], h, d);
      }
    }
  }

  lemma LastHit(lists: seq<seq<Elem>>, h: seq<nat>, d: nat)
    requires IsHits(lists, h, d) && |lists| > 0
    ensures InList(lists[|lists| - 1], d) ==>
              |h| > 0 && h[|h| - 1] == |lists| - 1 && IsHits(lists[..|lists| - 1], h[..|h| - 1], d)
    ensures !InList(lists[|lists| - 1], d) ==> IsHits(lists[..|lists| - 1], h, d)
  {
    var k: nat := |lists| - 1;
    if InList(lists[k], d) {
      assert k in h;
      var x :| 0 <= x < |h| && h[x] == k;
      assert h[|h| - 1] in h;
      var h' := h[..|h| - 1];
      forall i: nat
        ensures i in h' <==> i < k && InList(lists[..k][i], d)
      {
        if i in h' {
          assert i in h;
        }
        if i < k && InList(lists[..k][i], d) {
          assert i in h;
          var y :| 0 <= y < |h| && h[y] == i;
          assert h'[y] == i;
        }
      }
    } else {
      forall i: nat
        ensures i in h <==> i < k && InList(lists[..k][i], d)
      {
        assert i in h <==> i < |lists| && InList(lists[i], d);
      }
    }
  }

  /** A document made from the hits and postings of its id is the one the lists make. */
  lemma DocIsMade(lists: seq<seq<Elem>>, sim: Sim, nq: nat, d: nat, h: seq<nat>, dps: seq<Elem>)
    requires ListsOk(lists) && IsHits(lists, h, d) && PostingsOf(lists, h, dps, d)
    ensures DocOf(sim, d, h, dps, nq) == DocFor(lists, sim, nq, d)
  {
    HitsUnique(lists, h, d);
    var dps' := PostingsFor(lists, h, d);
    forall k | 0 <= k < |h|
      ensures dps[k] == dps'[k]
    {
      SamePosting(lists[h[k]], dps[k], dps'[k]);
    }
    assert dps == dps';
  }

  lemma SamePosting(l: seq<Elem>, e: Elem, e': Elem)
    requires ListOk(l) && e in l && e' in l && e.id == e'.id
    ensures e == e'
  {
    var x :| 0 <= x < |l| && l[x] == e;
    var y :| 0 <= y < |l| && l[y] == e';
    assert !(x < y) && !(y < x);
  }

  ghost function OnFor(lists: seq<seq<Elem>>, d: nat): nat -> bool {
    (v: nat) => v < |lists| && InList(lists[v], d)
  }

  /** updateq of a full heap: its worst document gives way unless it weighs more. */
  method ReplaceWorst(b: Priq<Doc>, nd: nat, dd: Doc, ghost cand: seq<Doc>)
    requires b.Valid() && b.cmp == DocCompar && 0 < nd <= |cand| && BestOf(b.Elems(), cand, nd)
    requires b.n > 0 && IdsAscend(cand + [dd])
    modifies b.q
    ensures b.Valid() && BestOf(b.Elems(), cand + [dd], nd)
  {
    hide BestOf, IdsAscend, IsHeap, TotalPreorder;
    ghost var heap := b.Elems();
    var top := b.Top();
    if top.weight > dd.weight {
      BestOfDrop(heap, cand, nd, dd, top);
      return;
    }
    BestOfReplace(heap, cand, nd, dd, top);
    b.RplaTop(dd);
  }

  /** updateq. */
  method UpdateQ(b: Priq<Doc>, nd: nat, dd: Doc, ghost cand: seq<Doc>)
    requires b.Valid() && b.cmp == DocCompar && nd > 0 && BestOf(b.Elems(), cand, nd)
    requires IdsAscend(cand + [dd])
    modifies b`q, b`n, b.q
    ensures b.Valid() && BestOf(b.Elems(), cand + [dd], nd)
    ensures b.q == old(b.q) || fresh(b.q)
  {
    assert |b.Elems()| == b.n;
    HeapSize(b.Elems(), cand, nd, dd);
    if b.n >= nd {
      ReplaceWorst(b, nd, dd, cand);
    } else {
      BestOfEnq(b.Elems(), cand, nd, dd);
      b.Enq(dd);
    }
  }

  lemma HeapSize(heap: multiset<Doc>, cand: seq<Doc>, nd: nat, dd: Doc)
    requires nd > 0 && BestOf(heap, cand, nd) && IdsAscend(cand + [dd])
    ensures |heap| == if |cand| < nd then |cand| else nd
  {
    OrderStep(cand, dd);
  }

  /** What is searched: the lists, those from nq on being there for the filter only, and the
      tests each document has to pass. */
  datatype Task = Task(lists: seq<seq<Elem>>, nq: nat, nd: nat, sim: Sim, bx: Option<Bx.AExpr>, masks: Fss.Masks?) {
    ghost predicate Ok() {
      && ListsOk(lists) && nd > 0 && nq <= |lists|
      && (bx.Some? ==> Bx.VarsA(bx.value, |lists|))
    }

    /** Found by the query proper. */
    ghost predicate Found(d: nat) {
      exists i :: 0 <= i < nq && i < |lists| && InList(lists[i], d)
    }

    ghost predicate Tested(d: nat) {
      && (bx.Some? ==> Bx.TruthA(bx.value, OnFor(lists, d)))
      && (masks != null ==> masks.Lets(d))
    }

    ghost predicate Passes(d: nat) {
      Found(d) && Tested(d)
    }

    ghost function Made(d: nat): Doc {
      DocFor(lists, sim, nq, d)
    }

    ghost function Passing(): iset<nat> {
      iset d: nat | Passes(d)
    }

    ghost function Docs(ids: seq<nat>): (r: seq<Doc>)
      ensures |r| == |ids| && forall k :: 0 <= k < |r| ==> r[k] == Made(ids[k]) && r[k].id == ids[k]
    {
      seq(|ids|, k requires 0 <= k < |ids| => Made(ids[k]))
    }
  }

  /** The ids below lo that are in p, in order. */
  ghost predicate Below(p: iset<nat>, ids: seq<nat>, lo: nat) {
    && IdsBelow(ids, lo)
    && (forall d: nat :: d < lo ==> (d in ids <==> d in p))
  }

  /** The members of p in order. */
  ghost predicate Enumerates(ids: seq<nat>, p: iset<nat>) {
    && (forall c, e :: 0 <= c < e < |ids| ==> ids[c] < ids[e])
    && (forall d: nat :: d in ids <==> d in p)
  }

  lemma BelowStep(p: iset<nat>, ids: seq<nat>, lo: nat, d: nat)
    requires Below(p, ids, lo) && lo <= d
    requires forall e: nat :: lo <= e < d ==> e !in p
    ensures Below(p, if d in p then ids + [d] else ids, d + 1)
  {
    var ids' := if d in p then ids + [d] else ids;
    forall e: nat | e < d + 1
      ensures e in ids' <==> e in p
    {
      assert e in ids' <==> e in ids || (e == d && d in p);
      if e >= lo {
        assert e !in ids;
      }
    }
  }

  lemma BelowIds(p: iset<nat>, ids: seq<nat>, lo: nat, d: nat)
    requires Below(p, ids, lo) && lo <= d
    ensures IdsBelow(ids, d)
  {
  }

  /** The heap holds the best of the documents counted. */
  ghost predicate Kept(task: Task, heap: multiset<Doc>, total: nat, ids: seq<nat>)
    requires task.nd > 0
  {
    BestOf(heap, task.Docs(ids), task.nd) && total == |ids|
  }

  lemma KeptBest(task: Task, heap: multiset<Doc>, total: nat, ids: seq<nat>)
    requires task.nd > 0 && Kept(task, heap, total, ids)
    ensures BestOf(heap, task.Docs(ids), task.nd) && total == |ids|
  {
  }

  lemma KeptStep(task: Task, heap: multiset<Doc>, total: nat, ids: seq<nat>, dd: Doc)
    requires task.nd > 0 && BestOf(heap, task.Docs(ids) + [dd], task.nd) && total == |ids|
    requires dd == task.Made(dd.id)
    ensures Kept(task, heap, total + 1, ids + [dd.id])
  {
    assert task.Docs(ids + [dd.id]) == task.Docs(ids) + [dd];
  }

  ghost predicate IdsBelow(ids: seq<nat>, lo: nat) {
    && (forall c :: 0 <= c < |ids| ==> ids[c] < lo)
    && (forall c, e :: 0 <= c < e < |ids| ==> ids[c] < ids[e])
  }

  lemma DocsAscend(task: Task, ids: seq<nat>, dd: Doc)
    requires IdsBelow(ids, dd.id)
    ensures IdsAscend(task.Docs(ids) + [dd])
  {
  }

  class Search {
    const task: Task
    const b: Priq<Doc>
    var total: nat
    ghost var ids: seq<nat>

    ghost predicate Sound()
      reads this, b, b.q
    {
      task.nd > 0 && b.Valid() && b.cmp == DocCompar && Kept(task, b.Elems(), total, ids)
    }

    /** Ids below lo are done. */
    ghost predicate Valid(lo: nat)
      reads this, b, b.q, task.masks
    {
      task.Ok() && Sound() && (task.masks != null ==> task.masks.Valid(lo)) && Below(task.Passing(), ids, lo)
    }

    constructor (task: Task)
      requires task.Ok() && (task.masks != null ==> task.masks.Valid(0))
      ensures Valid(0) && this.task == task && fresh(b) && fresh(b.q)
    {
      this.task := task;
      total := 0;
      ids := [];
      ComparsAreOrders();
      b := new Priq<Doc>(DocCompar);
    }

    /** The tests of a document, in the order they were set up. */
    method Tests(d: nat, h: seq<nat>, ghost lo: nat) returns (r: bool)
      requires task.Ok() && IsHits(task.lists, h, d) && lo <= d
      requires task.masks != null ==> task.masks.Valid(lo)
      modifies task.masks
      ensures task.masks != null ==> task.masks.Valid(d + 1)
      ensures r <==> d in task.Passing()
    {
      HitsHit(task, h, d);
      var i := 0;
      while i < |h| && h[i] >= task.nq
        invariant i <= |h| && forall k :: 0 <= k < i ==> h[k] >= task.nq
      {
        i := i + 1;
      }
      if i == |h| {
        return false;
      }
      if task.bx.Some? {
        HitsInRange(task.lists, h, d);
        var t := Bxutil.Eval(task.bx.value, |task.lists|, h);
        Bxutil.SameTruthA(task.bx.value, (v: nat) => v in h, OnFor(task.lists, d));
        if t == 0 {
          return false;
        }
      }
      if task.masks != null {
        var t := task.masks.Test(d, lo);
        if !t {
          return false;
        }
      }
      return true;
    }

    /** The loop of eject over the hits. */
    method Weigh(d: nat, h: seq<nat>, dps: seq<Elem>) returns (dd: Doc)
      requires ListsOk(task.lists) && IsHits(task.lists, h, d) && PostingsOf(task.lists, h, dps, d)
      ensures dd == task.Made(d)
    {
      var wsum, df, tf := 0.0, 0, 0;
      for i := 0 to |h|
        invariant wsum == WSum(task.sim, h[..i], dps[..i], task.nq)
        invariant tf == TfSum(h[..i], dps[..i], task.nq) && df == DfSum(h[..i], task.nq)
      {
        assert h[..i + 1][..i] == h[..i] && dps[..i + 1][..i] == dps[..i];
        if h[i] < task.nq {
          wsum := wsum + task.sim.wd(dps[i], h[i]);
          tf := tf + dps[i].freq;
          df := df + 1;
        }
      }
      assert h[..|h|] == h && dps[..|h|] == dps;
      var norm := task.sim.norm(d, tf, df);
      if wsum != 0.0 && norm != 0.0 {
        wsum := wsum / norm;
      }
      dd := Doc(d, task.sim.weight(wsum, d, tf, df), tf, df);
      DocIsMade(task.lists, task.sim, task.nq, d, h, dps);
    }

    /** A document that passed is counted and offered to the heap. */
    method Count(dd: Doc)
      requires Sound() && dd == task.Made(dd.id) && IdsBelow(ids, dd.id)
      modifies this, b`q, b`n, b.q
      ensures Sound() && ids == old(ids) + [dd.id]
      ensures b.q == old(b.q) || fresh(b.q)
    {
      hide Kept, IdsBelow, IdsAscend, BestOf, IsHeap, TotalPreorder, Priq.Elems, Task.Docs, Task.Made, DocCompar;
      DocsAscend(task, ids, dd);
      KeptBest(task, b.Elems(), total, ids);
      UpdateQ(b, task.nd, dd, task.Docs(ids));
      KeptStep(task, b.Elems(), total, ids, dd);
      ids := ids + [dd.id];
      total := total + 1;
    }

    /** eject, and the count of the documents it did not kill. */
    method Eject(d: nat, h: seq<nat>, dps: seq<Elem>, ghost lo: nat)
      requires Valid(lo) && lo <= d
      requires IsHits(task.lists, h, d) && PostingsOf(task.lists, h, dps, d)
      requires forall e: nat :: lo <= e < d ==> e !in task.Passing()
      modifies this, b`q, b`n, b.q, task.masks
      ensures Valid(d + 1)
      ensures b.q == old(b.q) || fresh(b.q)
    {
      hide Sound, Below, IsHits;
      ghost var next := if d in task.Passing() then ids + [d] else ids;
      BelowStep(task.Passing(), ids, lo, d);
      BelowIds(task.Passing(), ids, lo, d);
      var r := Tests(d, h, lo);
      if r {
        var dd := Weigh(d, h, dps);
        Count(dd);
      }
      assert ids == next;
    }

    /** Between two groups no document passes. */
    lemma Skip(lo: nat, hi: nat)
      requires Valid(lo) && lo <= hi
      requires forall e: nat :: lo <= e < hi ==> !Occurs(task.lists, e)
      ensures Valid(hi)
    {
      assert forall e: nat :: e in task.Passing() ==> Occurs(task.lists, e);
    }

    /** Before the first group. */
    lemma Lead(ep: seq<nat>, next: nat)
      requires Valid(0) && ReadOk(task.lists, ep, [], [], 0) && HeadsFrom(task.lists, ep, next)
      ensures Valid(next)
    {
      forall e: nat | Occurs(task.lists, e)
        ensures next <= e
      {
        NoneBetween(task.lists, ep, [], 0, next, e);
        PositiveId(task.lists, e);
      }
      Skip(0, next);
    }

    /** The group read is complete: its document is dealt with. */
    method Flush(ep: seq<nat>, h: seq<nat>, dps: seq<Elem>, d: nat, ghost next: nat)
      requires Valid(d) && ReadOk(task.lists, ep, h, dps, d)
      requires HeadsFrom(task.lists, ep, next) && d < next
      modifies this, b`q, b`n, b.q, task.masks
      ensures Valid(next)
      ensures b.q == old(b.q) || fresh(b.q)
    {
      GroupComplete(task.lists, ep, h, d);
      ReadPostings(task.lists, ep, h, dps, d);
      forall e: nat | Occurs(task.lists, e)
        ensures e <= d || next <= e
      {
        NoneBetween(task.lists, ep, h, d, next, e);
      }
      Eject(d, h, dps, d);
      Skip(d + 1, next);
    }

    /** All documents are counted. */
    ghost predicate Complete()
      reads this, b, b.q
    {
      task.Ok() && Sound() && Enumerates(ids, task.Passing())
    }

    /** When the lists are read to the end and the last group is dealt with. */
    lemma AllRead(ep: seq<nat>, h: seq<nat>, dps: seq<Elem>, d: nat, hi: nat)
      requires Valid(hi) && ReadOk(task.lists, ep, h, dps, d) && d <= hi
      requires d == hi ==> d == 0
      requires forall i :: 0 <= i < |task.lists| ==> ep[i] == |task.lists[i]|
      ensures Complete()
    {
      forall e: nat
        ensures e in ids <==> e in task.Passing()
      {
        if e in task.Passing() {
          assert Occurs(task.lists, e);
          PositiveId(task.lists, e);
          NoneBetween(task.lists, ep, h, d, e + 1, e);
        }
      }
    }

    /** The top entry stands at next: a group at another id is dealt with, and a new one
        starts. */
    method Switch(ep: seq<nat>, h: seq<nat>, dps: seq<Elem>, d: nat, next: nat)
      returns (h': seq<nat>, dps': seq<Elem>)
      requires Valid(d) && ReadOk(task.lists, ep, h, dps, d) && HeadsFrom(task.lists, ep, next)
      requires d <= next && 0 < next && (h == [] ==> d == 0)
      modifies this, b`q, b`n, b.q, task.masks
      ensures Valid(next) && ReadOk(task.lists, ep, h', dps', next)
      ensures b.q == old(b.q) || fresh(b.q)
    {
      h', dps' := h, dps;
      if |h| == 0 {
        Lead(ep, next);
        GroupStart(task.lists, ep, h, d, next);
      } else if next != d {
        Flush(ep, h, dps, d, next);
        GroupStart(task.lists, ep, h, d, next);
        h', dps' := [], [];
      }
    }

    /** The lists are at their ends: the last group is dealt with. */
    method Finish(ep: seq<nat>, h: seq<nat>, dps: seq<Elem>, d: nat)
      requires Valid(d) && ReadOk(task.lists, ep, h, dps, d)
      requires forall i :: 0 <= i < |task.lists| ==> ep[i] == |task.lists[i]|
      requires h == [] ==> d == 0
      modifies this, b`q, b`n, b.q, task.masks
      ensures Complete()
      ensures b.q == old(b.q) || fresh(b.q)
    {
      if |h| != 0 {
        Flush(ep, h, dps, d, d + 1);
      }
      AllRead(ep, h, dps, d, if |h| != 0 then d + 1 else d);
    }

    /** One turn of the merge loop. */
    method Step(a: Priq<Head<Elem>>, ep: seq<nat>, h: seq<nat>, dps: seq<Elem>, d: nat)
      returns (ep': seq<nat>, h': seq<nat>, dps': seq<Elem>, d': nat)
      requires a.Valid() && a.cmp == HeadCompar && a.n > 0
      requires Valid(d) && ReadOk(task.lists, ep, h, dps, d) && HeapOk(task.lists, ep, a.Elems())
      requires h == [] ==> d == 0
      modifies this, b`q, b`n, b.q, task.masks, a`n, a.q
      ensures a.Valid() && Valid(d') && (b.q == old(b.q) || fresh(b.q))
      ensures ReadOk(task.lists, ep', h', dps', d') && HeapOk(task.lists, ep', a.Elems())
      ensures h' != [] && Remaining(task.lists, ep') < Remaining(task.lists, ep)
    {
      hide Sound, Below, HeapOk, GroupOk;
      var t := a.Top();
      TopEntry(task.lists, ep, h, dps, d, a.Elems(), t);
      d' := t.item.id;
      h', dps' := Switch(ep, h, dps, d, d');
      ep', h', dps' := Take(a, task.lists, ep, h', dps', t);
    }

    /** The merge of assv: every id in a list is ejected once, in increasing order. */
    method Merge()
      requires Valid(0)
      modifies this, b`q, b`n, b.q, task.masks
      ensures Complete()
      ensures b.q == old(b.q) || fresh(b.q)
    {
      hide Sound, Below, HeapOk;
      ComparsAreOrders();
      var a, ep := StartHeap(HeadCompar, task.lists);
      var h: seq<nat>, dps: seq<Elem>, d := [], [], 0;
      while a.n > 0
        invariant fresh(a) && fresh(a.q) && a.Valid() && a.cmp == HeadCompar
        invariant Valid(d) && (b.q == old(b.q) || fresh(b.q))
        invariant ReadOk(task.lists, ep, h, dps, d) && HeapOk(task.lists, ep, a.Elems())
        invariant h == [] ==> d == 0
        decreases Remaining(task.lists, ep)
      {
        ep, h, dps, d := Step(a, ep, h, dps, d);
      }
      HeapEmpty(task.lists, ep, a.Elems());
      Finish(ep, h, dps, d);
    }

    method Results() returns (result: seq<Doc>)
      requires Complete()
      modifies b`n, b.q
      ensures IsRanking(task.Passing(), task.lists, task.sim, task.nq, task.nd, result, total)
    {
      result := Drain(b);
      RankingOk(task, result, total, ids);
    }
  }

  // ------------------------------------------------------------------ the ranking

  /** What was taken from the heap is no better than what is still there. */
  ghost predicate NoBetter(result: seq<Doc>, rest: multiset<Doc>) {
    forall k, e :: 0 <= k < |result| && e in rest ==> DocCompar(result[k], e) <= 0
  }

  ghost predicate Ranked(result: seq<Doc>) {
    forall j, k :: 0 <= j < k < |result| ==> DocCompar(result[k], result[j]) <= 0
  }

  lemma RankStep(result: seq<Doc>, rest: multiset<Doc>, top: Doc)
    requires NoBetter(result, rest) && Ranked(result)
    requires top in rest && forall e :: e in rest ==> DocCompar(top, e) <= 0
    ensures NoBetter([top] + result, rest - multiset{top}) && Ranked([top] + result)
  {
    forall k, e | 0 <= k < |[top] + result| && e in rest - multiset{top}
      ensures DocCompar(([top] + result)[k], e) <= 0
    {
      assert e in rest;
    }
  }

  /** The worst document is taken from the heap. */
  method Pop(b: Priq<Doc>) returns (top: Doc)
    requires b.Valid() && b.cmp == DocCompar && b.n > 0
    modifies b`n, b.q
    ensures b.Valid() && b.n == old(b.n) - 1
    ensures top in old(b.Elems()) && b.Elems() == old(b.Elems()) - multiset{top}
    ensures forall e :: e in old(b.Elems()) ==> DocCompar(top, e) <= 0
  {
    hide IsHeap, TotalPreorder, DocCompar;
    top := b.Top();
    b.Deq();
  }

  /** The heap is emptied into the result from its end. */
  method Drain(b: Priq<Doc>) returns (result: seq<Doc>)
    requires b.Valid() && b.cmp == DocCompar
    modifies b`n, b.q
    ensures multiset(result) == old(b.Elems()) && Ranked(result)
  {
    result := [];
    ghost var rest := b.Elems();
    assert NoBetter(result, rest) && Ranked(result) && |rest| == b.n;
    hide NoBetter, Ranked, IsHeap, TotalPreorder, DocCompar;
    while b.n > 0
      invariant b.Valid() && b.cmp == DocCompar && rest == b.Elems() && |rest| == b.n
      invariant rest + multiset(result) == old(b.Elems())
      invariant NoBetter(result, rest) && Ranked(result)
      decreases b.n
    {
      var top := Pop(b);
      RankStep(result, rest, top);
      MoveTop(rest, result, top);
      rest, result := rest - multiset{top}, [top] + result;
    }
    NoneLeft(rest, result);
  }

  lemma NoneLeft(rest: multiset<Doc>, result: seq<Doc>)
    requires |rest| == 0
    ensures rest + multiset(result) == multiset(result)
  {
    assert rest == multiset{};
  }

  lemma MoveTop(rest: multiset<Doc>, result: seq<Doc>, top: Doc)
    requires top in rest
    ensures (rest - multiset{top}) + multiset([top] + result) == rest + multiset(result)
  {
    assert multiset([top] + result) == multiset{top} + multiset(result);
  }

  ghost predicate IsIn(result: seq<Doc>, d: nat) {
    exists k :: 0 <= k < |result| && result[k].id == d
  }

  /** The documents of p, the heaviest first and equal weights by id. */
  ghost predicate IsOrder(p: iset<nat>, lists: seq<seq<Elem>>, sim: Sim, nq: nat, r: seq<Doc>) {
    && Ordered(r)
    && (forall k :: 0 <= k < |r| ==> r[k].id in p && r[k] == DocFor(lists, sim, nq, r[k].id))
    && (forall d: nat :: d in p ==> IsIn(r, d))
  }

  /** What a search answers: the number of documents in p, and of their order what the
      bounded heap keeps. */
  ghost predicate IsRanking(p: iset<nat>, lists: seq<seq<Elem>>, sim: Sim, nq: nat, nd: nat, result: seq<Doc>,
                            total: nat) {
    nd > 0 && exists r :: IsOrder(p, lists, sim, nq, r) && total == |r| && result == Returned(r, nd)
  }

  lemma RankingOk(task: Task, result: seq<Doc>, total: nat, ids: seq<nat>)
    requires task.nd > 0 && Kept(task, multiset(result), total, ids) && Enumerates(ids, task.Passing())
    requires Ranked(result)
    ensures IsRanking(task.Passing(), task.lists, task.sim, task.nq, task.nd, result, total)
  {
    var docs := task.Docs(ids);
    var r := Order(docs);
    var d := if |ids| == 0 then 0 else ids[|ids| - 1] + 1;
    OrderOk(docs, d);
    ReturnedOrdered(r, task.nd);
    OrderedIs(result, Returned(r, task.nd));
    OrderOfDocs(task, ids, r);
  }

  lemma OrderOfDocs(task: Task, ids: seq<nat>, r: seq<Doc>)
    requires Enumerates(ids, task.Passing()) && Ordered(r) && multiset(r) == multiset(task.Docs(ids))
    ensures IsOrder(task.Passing(), task.lists, task.sim, task.nq, r)
  {
    var docs := task.Docs(ids);
    forall k | 0 <= k < |r|
      ensures r[k].id in task.Passing() && r[k] == task.Made(r[k].id)
    {
      assert r[k] in multiset(r);
      var c :| 0 <= c < |docs| && docs[c] == r[k];
      assert ids[c] in ids;
    }
    forall d: nat | d in task.Passing()
      ensures IsIn(r, d)
    {
      var c :| 0 <= c < |ids| && ids[c] == d;
      assert docs[c] in multiset(docs);
      assert docs[c] in r;
    }
  }

  lemma OrderUnique(p: iset<nat>, lists: seq<seq<Elem>>, sim: Sim, nq: nat, r: seq<Doc>, s: seq<Doc>)
    requires IsOrder(p, lists, sim, nq, r) && IsOrder(p, lists, sim, nq, s)
    ensures r == s
  {
    forall x
      ensures x in r <==> x in s
    {
      InOrder(p, lists, sim, nq, r, x);
      InOrder(p, lists, sim, nq, s, x);
    }
    SameMembers(r, s);
  }

  lemma InOrder(p: iset<nat>, lists: seq<seq<Elem>>, sim: Sim, nq: nat, r: seq<Doc>, x: Doc)
    requires IsOrder(p, lists, sim, nq, r)
    ensures x in r <==> x.id in p && x == DocFor(lists, sim, nq, x.id)
  {
    hide DocFor, Ordered;
    if x.id in p {
      var k :| 0 <= k < |r| && r[k].id == x.id;
    }
  }

  lemma OrderDistinct(p: iset<nat>, lists: seq<seq<Elem>>, sim: Sim, nq: nat, r: seq<Doc>)
    requires IsOrder(p, lists, sim, nq, r)
    ensures DistinctIds(r)
  {
    hide DocFor;
    forall j, k | 0 <= j < k < |r|
      ensures r[j].id != r[k].id
    {
      OrderedAt(r, j, k);
    }
  }

  /** The answer to a search is determined, the ties at the cut included. */
  lemma RankingUnique(p: iset<nat>, lists: seq<seq<Elem>>, sim: Sim, nq: nat, nd: nat, a: seq<Doc>, m: nat,
                      b: seq<Doc>, n: nat)
    requires IsRanking(p, lists, sim, nq, nd, a, m) && IsRanking(p, lists, sim, nq, nd, b, n)
    ensures a == b && m == n
  {
    hide IsOrder;
    var r :| IsOrder(p, lists, sim, nq, r) && m == |r| && a == Returned(r, nd);
    var s :| IsOrder(p, lists, sim, nq, s) && n == |s| && b == Returned(s, nd);
    OrderUnique(p, lists, sim, nq, r, s);
  }

  lemma {:induction false} IdsOf(r: seq<Doc>) returns (s: set<nat>)
    requires DistinctIds(r)
    ensures |s| == |r| && forall d: nat :: d in s <==> IsIn(r, d)
  {
    if |r| == 0 {
      s := {};
    } else {
      var n := |r| - 1;
      var s0 := IdsOf(r[..n]);
      forall d: nat
        ensures IsIn(r, d) <==> IsIn(r[..n], d) || d == r[n].id
      {
        if k :| 0 <= k < n && r[..n][k].id == d {
          assert r[k].id == d;
        }
      }
      s := s0 + {r[n].id};
      assert r[n].id !in s0;
    }
  }

  /** The total is the number of documents found. */
  lemma TotalIsCount(p: iset<nat>, lists: seq<seq<Elem>>, sim: Sim, nq: nat, nd: nat, result: seq<Doc>, total: nat)
    returns (s: set<nat>)
    requires IsRanking(p, lists, sim, nq, nd, result, total)
    ensures |s| == total && forall d: nat :: d in s <==> d in p
  {
    hide DocFor, Ordered, Returned, IsIn;
    var r :| IsOrder(p, lists, sim, nq, r) && total == |r| && result == Returned(r, nd);
    OrderDistinct(p, lists, sim, nq, r);
    s := IdsOf(r);
    forall d: nat
      ensures IsIn(r, d) ==> d in p
    {
      OnlyOfP(p, lists, sim, nq, r, d);
    }
  }

  lemma OnlyOfP(p: iset<nat>, lists: seq<seq<Elem>>, sim: Sim, nq: nat, r: seq<Doc>, d: nat)
    requires IsOrder(p, lists, sim, nq, r)
    ensures IsIn(r, d) ==> d in p
  {
  }

  /** As many of the documents as asked for, the heaviest first and equal weights by id;
      none left out weighs more than one of them. */
  lemma RankingBest(p: iset<nat>, lists: seq<seq<Elem>>, sim: Sim, nq: nat, nd: nat, result: seq<Doc>, total: nat,
                    d: nat)
    requires IsRanking(p, lists, sim, nq, nd, result, total)
    ensures |result| == if nd < total then nd else total
    ensures forall j, k :: 0 <= j < k < |result| ==>
              result[j].weight > result[k].weight ||
              (result[j].weight == result[k].weight && result[j].id < result[k].id)
    ensures IsIn(result, d) ==> d in p && DocFor(lists, sim, nq, d) in result
    ensures d in p && !IsIn(result, d) ==>
              forall k :: 0 <= k < |result| ==> DocFor(lists, sim, nq, d).weight <= result[k].weight
  {
    hide DocFor, Ordered, Returned;
    var r :| IsOrder(p, lists, sim, nq, r) && total == |r| && result == Returned(r, nd);
    var x := DocFor(lists, sim, nq, d);
    ReturnedBest(r, nd, x);
    forall j, k | 0 <= j < k < |result|
      ensures Heavier(result[j], result[k])
    {
      OrderedAt(result, j, k);
    }
    InOrder(p, lists, sim, nq, r, x);
    if k :| 0 <= k < |result| && result[k].id == d {
      ReturnedBest(r, nd, result[k]);
      InOrder(p, lists, sim, nq, r, result[k]);
    }
  }

  /** The result is the first nd of all documents by weight and id exactly if the cut is
      clean. */
  lemma RankingIsFirst(p: iset<nat>, lists: seq<seq<Elem>>, sim: Sim, nq: nat, nd: nat, result: seq<Doc>, total: nat,
                       r: seq<Doc>)
    requires IsRanking(p, lists, sim, nq, nd, result, total) && IsOrder(p, lists, sim, nq, r)
    ensures total == |r| && (result == First(r, nd) <==> CutIsClean(r, nd))
  {
    hide IsOrder, Returned, CutIsClean, First;
    var s :| IsOrder(p, lists, sim, nq, s) && total == |s| && result == Returned(s, nd);
    OrderUnique(p, lists, sim, nq, r, s);
    OrderIsOrdered(p, lists, sim, nq, r);
    OrderDistinct(p, lists, sim, nq, r);
    FirstReturned(r, nd);
  }

  lemma OrderIsOrdered(p: iset<nat>, lists: seq<seq<Elem>>, sim: Sim, nq: nat, r: seq<Doc>)
    requires IsOrder(p, lists, sim, nq, r)
    ensures Ordered(r)
  {
  }

  /** Three documents of one weight: a search for two gives the first and the last. */
  lemma TieExample(sim: Sim, w: real, result: seq<Doc>, total: nat)
    requires forall x, d, tf, df :: sim.weight(x, d, tf, df) == w
    requires IsRanking(iset{1, 2, 3}, [[Elem(1, 1), Elem(2, 1), Elem(3, 1)]], sim, 1, 2, result, total)
    ensures total == 3 && |result| == 2 && result[0].id == 1 && result[1].id == 3
  {
    hide DocFor, Returned;
    var p, lists := iset{1, 2, 3}, [[Elem(1, 1), Elem(2, 1), Elem(3, 1)]];
    var r := seq(3, i requires 0 <= i < 3 => DocFor(lists, sim, 1, i + 1));
    forall i | 0 <= i < 3
      ensures r[i].weight == w && r[i].id == i + 1
    {
      ConstantWeight(lists, sim, w, i + 1);
    }
    assert IsIn(r, 1) && IsIn(r, 2) && IsIn(r, 3) by {
      assert r[0].id == 1 && r[1].id == 2 && r[2].id == 3;
    }
    assert IsOrder(p, lists, sim, 1, r);
    var s :| IsOrder(p, lists, sim, 1, s) && total == |s| && result == Returned(s, 2);
    OrderUnique(p, lists, sim, 1, r, s);
    TieReturned(r);
  }

  lemma ConstantWeight(lists: seq<seq<Elem>>, sim: Sim, w: real, d: nat)
    requires forall x, d, tf, df :: sim.weight(x, d, tf, df) == w
    ensures DocFor(lists, sim, 1, d).weight == w
  {
  }

  lemma TieReturned(r: seq<Doc>)
    requires |r| == 3 && r[0].weight == r[1].weight == r[2].weight
    ensures Returned(r, 2) == [r[0], r[2]]
  {
    assert Place(r, r[1].weight) == 3;
  }

  lemma TopEntry(lists: seq<seq<Elem>>, ep: seq<nat>, h: seq<nat>, dps: seq<Elem>, d: nat, heap: multiset<Head<Elem>>,
                 t: Head<Elem>)
    requires ListsOk(lists) && ReadOk(lists, ep, h, dps, d) && HeapOk(lists, ep, heap)
    requires t in heap && forall e :: e in heap ==> HeadCompar(t, e) <= 0
    ensures t.src < |lists| && ep[t.src] < |lists[t.src]| && t == HeadAt(lists, ep, t.src)
    ensures HeadsFrom(lists, ep, t.item.id) && d <= t.item.id && 0 < t.item.id
    ensures forall i :: 0 <= i < |lists| && ep[i] < |lists[i]| && lists[i][ep[i]].id == t.item.id ==> t.src <= i
  {
    LeastEntry(lists, ep, heap, t);
    assert ListAt(lists, ep, h, d, t.src) && ListOk(lists[t.src]);
  }

  lemma HitsHit(task: Task, h: seq<nat>, d: nat)
    requires task.Ok() && IsHits(task.lists, h, d)
    ensures d in task.Passing() <==> (exists i :: 0 <= i < |h| && h[i] < task.nq) && task.Tested(d)
  {
    if i :| 0 <= i < |h| && h[i] < task.nq {
      assert h[i] in h;
    }
    if i: nat :| i < task.nq && i < |task.lists| && InList(task.lists[i], d) {
      assert i in h;
      var k :| 0 <= k < |h| && h[k] == i;
    }
  }

  // ------------------------------------------------------------------ assv

  /** struct syminfo: a query term with an id, to be looked up, or with a vector of its own. */
  datatype Query = Query(id: nat, v: Option<seq<Elem>>)

  /** struct assv_scookie, as far as it is modelled. */
  datatype Cookie = Cookie(bx: Option<seq<Bxutil.Bxue>>, fss: Option<seq<seq<Fss.Simple>>>)

  /** The vectors of the index by id; an id it does not know has an empty one. */
  type Wam = nat -> seq<Elem>

  function Items(q: seq<Query>): (r: seq<Bxutil.Item>)
    ensures |r| == |q|
  {
    seq(|q|, i requires 0 <= i < |q| => Bxutil.Item(q[i].id, q[i].v.Some?))
  }

  ghost predicate WamOk(db: Wam) {
    forall id: nat :: ListOk(db(id))
  }

  function VectorOf(q: Query, db: Wam): seq<Elem> {
    if q.v.Some? then q.v.value else db(q.id)
  }

  /** The document is in the vector of some query term: its own, or that of its id. */
  ghost predicate InSomeTerm(q: seq<Query>, db: Wam, d: nat) {
    exists i :: 0 <= i < |q| && match q[i].v case Some(l) => InList(l, d) case None => InList(db(q[i].id), d)
  }

  lemma SoughtInTerms(q: seq<Query>, db: Wam, cookie: Cookie, d: nat)
    ensures Sought(q, db, cookie, d) <==>
            && InSomeTerm(q, db, d)
            && (cookie.bx.Some? ==> BoolHolds(cookie.bx.value, db, d))
            && (cookie.fss.Some? ==> Fss.Sat(cookie.fss.value, d))
  {
    hide InList, BoolHolds, Fss.Sat;
    if i :| 0 <= i < |q| && InList(VectorOf(q[i], db), d) {
      assert InSomeTerm(q, db, d);
    }
    if InSomeTerm(q, db, d) {
      var i :| 0 <= i < |q| && match q[i].v case Some(l) => InList(l, d) case None => InList(db(q[i].id), d);
      assert InList(VectorOf(q[i], db), d);
    }
  }

  /** Which documents a search is meant to find. */
  ghost predicate Sought(q: seq<Query>, db: Wam, cookie: Cookie, d: nat) {
    && (exists i :: 0 <= i < |q| && InList(VectorOf(q[i], db), d))
    && (cookie.bx.Some? ==> BoolHolds(cookie.bx.value, db, d))
    && (cookie.fss.Some? ==> Fss.Sat(cookie.fss.value, d))
  }

  /** The boolean expression is true of d, a term being true if it occurs in d. */
  ghost predicate BoolHolds(e: seq<Bxutil.Bxue>, db: Wam, d: nat) {
    Bxutil.AllMeant(e) && Bx.Holds(Bxutil.MeantAll(e), Within(db, d))
  }

  /** The terms that occur in d. */
  ghost function Within(db: Wam, d: nat): nat -> bool {
    (id: nat) => InList(db(id), d)
  }

  /** The expression is well-formed and true of d exactly if v. */
  ghost predicate Says(e: seq<Bxutil.Bxue>, db: Wam, d: nat, v: bool) {
    Bxutil.Grammatical(e) && (BoolHolds(e, db, d) <==> v)
  }

  /** What the characters of an expression mean; n is the id field of those that have none. */
  lemma BoolLaws(s: seq<Bxutil.Bxue>, t: seq<Bxutil.Bxue>, n: nat, db: Wam, d: nat, v: bool, w: bool)
    requires Says(s, db, d, v) && Says(t, db, d, w)
    ensures var ps := [Bxutil.Bxue('(', n)] + s + [Bxutil.Bxue(')', n)];
            var pt := [Bxutil.Bxue('(', n)] + t + [Bxutil.Bxue(')', n)];
            && Says(ps, db, d, v)
            && Says(ps + [Bxutil.Bxue('&', n)] + pt, db, d, v && w)
            && Says(ps + [Bxutil.Bxue('|', n)] + pt, db, d, v || w)
            && Says([Bxutil.Bxue('!', n)] + ps, db, d, !v)
            && Says(s + [Bxutil.Bxue('|', n)] + t, db, d, v || w)
  {
    hide *;
    var l, r, or := [Bxutil.Bxue('(', n)], [Bxutil.Bxue(')', n)], [Bxutil.Bxue('|', n)];
    var ps, pt := l + s + r, l + t + r;
    SaysIs(s, db, d, v);
    SaysIs(t, db, d, w);
    var ms, mt := Bxutil.MeantAll(s), Bxutil.MeantAll(t);
    Bx.ParenLaws(ms, mt, Within(db, d));
    Bx.OrLaw(ms, mt, Within(db, d));
    MeantParens(s, n);
    MeantParens(t, n);
    MeantJoin(ps, '&', n, pt);
    MeantJoin(ps, '|', n, pt);
    MeantJoin(s, '|', n, t);
    MeantNot(ps, n);
    SaysIs(ps, db, d, v);
    SaysIs(ps + [Bxutil.Bxue('&', n)] + pt, db, d, v && w);
    SaysIs(ps + or + pt, db, d, v || w);
    SaysIs(s + or + t, db, d, v || w);
    SaysIs([Bxutil.Bxue('!', n)] + ps, db, d, !v);
  }

  lemma SaysIs(e: seq<Bxutil.Bxue>, db: Wam, d: nat, v: bool)
    ensures Says(e, db, d, v) <==>
            && Bxutil.AllMeant(e) && Bx.IsExpr(Bxutil.MeantAll(e))
            && (Bx.Holds(Bxutil.MeantAll(e), Within(db, d)) <==> v)
  {
    hide Bx.Holds, Within, Bxutil.AllMeant, Bxutil.MeantAll;
  }

  // The tokens of an expression, part by part.
  lemma MeantParens(s: seq<Bxutil.Bxue>, n: nat)
    requires Bxutil.AllMeant(s)
    ensures var ps := [Bxutil.Bxue('(', n)] + s + [Bxutil.Bxue(')', n)];
            Bxutil.AllMeant(ps) && Bxutil.MeantAll(ps) == [Bx.LPar] + Bxutil.MeantAll(s) + [Bx.RPar]
  {
    var ps := [Bxutil.Bxue('(', n)] + s + [Bxutil.Bxue(')', n)];
    assert forall i :: 0 < i <= |s| ==> ps[i] == s[i - 1];
  }

  lemma MeantNot(s: seq<Bxutil.Bxue>, n: nat)
    requires Bxutil.AllMeant(s)
    ensures var e := [Bxutil.Bxue('!', n)] + s;
            Bxutil.AllMeant(e) && Bxutil.MeantAll(e) == [Bx.Not] + Bxutil.MeantAll(s)
  {
    var e := [Bxutil.Bxue('!', n)] + s;
    assert forall i :: 0 < i <= |s| ==> e[i] == s[i - 1];
  }

  lemma MeantJoin(s: seq<Bxutil.Bxue>, c: char, n: nat, t: seq<Bxutil.Bxue>)
    requires Bxutil.AllMeant(s) && Bxutil.AllMeant(t) && (c == '&' || c == '|')
    ensures var e := s + [Bxutil.Bxue(c, n)] + t;
            && Bxutil.AllMeant(e)
            && Bxutil.MeantAll(e) == Bxutil.MeantAll(s) + [if c == '&' then Bx.And else Bx.Or] + Bxutil.MeantAll(t)
  {
    var e := s + [Bxutil.Bxue(c, n)] + t;
    assert forall i :: 0 <= i < |s| ==> e[i] == s[i];
    assert forall i :: |s| < i < |e| ==> e[i] == t[i - |s| - 1];
  }

  /** A term is true of d if d is in its vector. */
  lemma AtomLaws(id: nat, n: nat, db: Wam, d: nat)
    ensures Says([Bxutil.Bxue('"', id)], db, d, InList(db(id), d))
    ensures Says([Bxutil.Bxue('T', n)], db, d, true)
    ensures Says([Bxutil.Bxue('F', n)], db, d, false)
  {
    var on := Within(db, d);
    Bx.AtomLaws(id, on);
    Bx.Levels([Bx.Var(id)]);
    Bx.Levels([Bx.T]);
    Bx.Levels([Bx.F]);
    hide Bx.Holds;
    assert Bxutil.MeantAll([Bxutil.Bxue('"', id)]) == [Bx.Var(id)];
    assert Bxutil.MeantAll([Bxutil.Bxue('T', n)]) == [Bx.T];
    assert Bxutil.MeantAll([Bxutil.Bxue('F', n)]) == [Bx.F];
  }

  /** '!' binds tighter than '&', and that tighter than '|'. */
  lemma Precedence(a: nat, b: nat, c: nat, n: nat, db: Wam, d: nat)
    ensures var x, y, z := Bxutil.Bxue('"', a), Bxutil.Bxue('"', b), Bxutil.Bxue('"', c);
            var p, q, r := InList(db(a), d), InList(db(b), d), InList(db(c), d);
            && Says([x, Bxutil.Bxue('|', n), y, Bxutil.Bxue('&', n), z], db, d, p || (q && r))
            && Says([x, Bxutil.Bxue('&', n), y, Bxutil.Bxue('|', n), z], db, d, (p && q) || r)
            && Says([Bxutil.Bxue('!', n), x, Bxutil.Bxue('&', n), y], db, d, !p && q)
  {
    var on := Within(db, d);
    var x, y, z := [Bx.Var(a)], [Bx.Var(b)], [Bx.Var(c)];
    PrecedenceOfToks(a, b, c, on);
    hide Bx.Holds;
    var and, or := Bxutil.Bxue('&', n), Bxutil.Bxue('|', n);
    var tx, ty, tz := Bxutil.Bxue('"', a), Bxutil.Bxue('"', b), Bxutil.Bxue('"', c);
    assert Bxutil.MeantAll([tx, or, ty, and, tz]) == x + [Bx.Or] + (y + [Bx.And] + z);
    assert Bxutil.MeantAll([tx, and, ty, or, tz]) == (x + [Bx.And] + y) + [Bx.Or] + z;
    assert Bxutil.MeantAll([Bxutil.Bxue('!', n), tx, and, ty]) == ([Bx.Not] + x) + [Bx.And] + y;
  }

  lemma PrecedenceOfToks(a: nat, b: nat, c: nat, on: nat -> bool)
    ensures var x, y, z := [Bx.Var(a)], [Bx.Var(b)], [Bx.Var(c)];
            var e, f := x + [Bx.Or] + (y + [Bx.And] + z), (x + [Bx.And] + y) + [Bx.Or] + z;
            var g := ([Bx.Not] + x) + [Bx.And] + y;
            && Bx.IsExpr(e) && (Bx.Holds(e, on) <==> on(a) || (on(b) && on(c)))
            && Bx.IsExpr(f) && (Bx.Holds(f, on) <==> (on(a) && on(b)) || on(c))
            && Bx.IsExpr(g) && (Bx.Holds(g, on) <==> !on(a) && on(b))
  {
    hide *;
    var x, y, z := [Bx.Var(a)], [Bx.Var(b)], [Bx.Var(c)];
    Bx.AtomLaws(a, on);
    Bx.AtomLaws(b, on);
    Bx.AtomLaws(c, on);
    Bx.Levels(x);
    Bx.Levels(y);
    Bx.Levels(z);
    Bx.AndLaw(y, z, on);
    Bx.Levels(y + [Bx.And] + z);
    Bx.OrLaw(x, y + [Bx.And] + z, on);
    Bx.AndLaw(x, y, on);
    Bx.Levels(x + [Bx.And] + y);
    Bx.OrLaw(x + [Bx.And] + y, z, on);
    Bx.NotLaw(x, on);
    Bx.AndLaw([Bx.Not] + x, y, on);
    Bx.Levels(([Bx.Not] + x) + [Bx.And] + y);
  }

  /** The vectors of all query terms, or None if one has neither or both of id and vector. */
  method Vectors(q: seq<Query>, newq: seq<Bxutil.Item>, db: Wam) returns (r: Option<seq<seq<Elem>>>)
    requires Items(q) <= newq && forall k :: |q| <= k < |newq| ==> !newq[k].hasVec
    ensures r.Some? <==> forall k :: 0 <= k < |newq| ==> (newq[k].hasVec <==> newq[k].id == 0)
    ensures r.Some? ==> |r.value| == |newq| && forall k :: 0 <= k < |newq| ==>
              r.value[k] == if k < |q| then VectorOf(q[k], db) else db(newq[k].id)
  {
    assert forall k :: 0 <= k < |q| ==> newq[k] == Items(q)[k];
    var vs := [];
    for i := 0 to |newq|
      invariant |vs| == i
      invariant forall k :: 0 <= k < i ==> (newq[k].hasVec <==> newq[k].id == 0)
      invariant forall k :: 0 <= k < i ==> vs[k] == if k < |q| then VectorOf(q[k], db) else db(newq[k].id)
    {
      if newq[i].hasVec && newq[i].id == 0 {
        vs := vs + [q[i].v.value];
      } else if !newq[i].hasVec && newq[i].id != 0 {
        vs := vs + [db(newq[i].id)];
      } else {
        return None;
      }
    }
    r := Some(vs);
  }

  /** A document is made from the lists of the query proper alone. */
  lemma {:induction false} DocForQuery(lists: seq<seq<Elem>>, sim: Sim, nq: nat, d: nat)
    requires nq <= |lists|
    ensures DocFor(lists, sim, nq, d) == DocFor(lists[..nq], sim, nq, d)
    decreases |lists|
  {
    if |lists| == nq {
      assert lists[..nq] == lists;
    } else {
      var k := |lists| - 1;
      var init := lists[..k];
      var h, h0 := HitsOf(lists, d), HitsOf(init, d);
      var dps, dps0 := PostingsFor(lists, h, d), PostingsFor(init, h0, d);
      assert h[..|h0|] == h0 && dps[..|h0|] == dps0;
      if InList(lists[k], d) {
        assert h == h0 + [k];
      } else {
        assert h == h0 && dps == dps0;
      }
      assert init[..nq] == lists[..nq];
      DocForQuery(init, sim, nq, d);
    }
  }

  lemma QueryRanking(p: iset<nat>, lists: seq<seq<Elem>>, sim: Sim, nq: nat, nd: nat, result: seq<Doc>, total: nat)
    requires nq <= |lists| && IsRanking(p, lists, sim, nq, nd, result, total)
    ensures IsRanking(p, lists[..nq], sim, nq, nd, result, total)
  {
    forall d: nat
      ensures DocFor(lists, sim, nq, d) == DocFor(lists[..nq], sim, nq, d)
    {
      DocForQuery(lists, sim, nq, d);
    }
    var r :| IsOrder(p, lists, sim, nq, r) && total == |r| && result == Returned(r, nd);
    assert IsOrder(p, lists[..nq], sim, nq, r);
  }

  /** The lists of a search are those of the query, then those of the variables. */
  ghost predicate ListsFor(q: seq<Query>, newq: seq<Bxutil.Item>, db: Wam, lists: seq<seq<Elem>>) {
    && |lists| == |newq| && Items(q) <= newq
    && forall k :: 0 <= k < |newq| ==> lists[k] == if k < |q| then VectorOf(q[k], db) else db(newq[k].id)
  }

  lemma BoolMeans(q: seq<Query>, newq: seq<Bxutil.Item>, db: Wam, lists: seq<seq<Elem>>, expr: Bx.AExpr,
                  e: seq<Bxutil.Bxue>, d: nat)
    requires ListsFor(q, newq, db, lists) && Bxutil.AllMeant(e)
    requires Bx.AOk(expr) && Bx.VarsA(expr, |newq|) && Bxutil.RefsOk(Bx.TokA(expr), newq)
    requires Bx.TokA(Bxutil.IdA(expr, Bxutil.Ids(newq))) == Bxutil.MeantAll(e)
    ensures Bx.TruthA(expr, OnFor(lists, d)) <==> BoolHolds(e, db, d)
  {
    var meant := Bxutil.IdA(expr, Bxutil.Ids(newq));
    var occ := Within(db, d);
    Bxutil.IdTokA(expr, Bxutil.Ids(newq));
    Bx.HoldsIs(meant, occ);
    forall k: nat | k < |newq| && !newq[k].hasVec
      ensures OnFor(lists, d)(k) <==> occ(newq[k].id)
    {
      if k < |q| {
        assert newq[k] == Items(q)[k];
      }
    }
    Bxutil.FilterMeans(expr, newq, meant, OnFor(lists, d), occ);
  }

  /** No term of the expression has id 0, which marks a term with a vector of its own. */
  ghost predicate BoolOk(e: seq<Bxutil.Bxue>) {
    Bxutil.Grammatical(e) && Bxutil.Bxue('"', 0) !in e
  }

  lemma ZeroTerm(newq: seq<Bxutil.Item>, expr: Bx.AExpr, e: seq<Bxutil.Bxue>)
    requires Bxutil.AllMeant(e) && Bxutil.Bxue('"', 0) in e && Bxutil.RefsOk(Bx.TokA(expr), newq)
    requires Bx.TokA(Bxutil.IdA(expr, Bxutil.Ids(newq))) == Bxutil.MeantAll(e)
    ensures exists k :: 0 <= k < |newq| && newq[k] == Bxutil.Item(0, false)
  {
    var ids, ts := Bxutil.Ids(newq), Bx.TokA(expr);
    Bxutil.IdTokA(expr, ids);
    var i :| 0 <= i < |e| && e[i] == Bxutil.Bxue('"', 0);
    assert Bxutil.IdTok(ts[i], ids) == Bxutil.MeantAll(e)[i] == Bx.Var(0);
    assert newq[ts[i].v].id == 0;
  }

  /** The filter and the extended query of a search. */
  method Filter(q: seq<Query>, cookie: Cookie) returns (ok: bool, bx: Option<Bx.AExpr>, newq: seq<Bxutil.Item>)
    ensures ok <==> (cookie.bx.Some? ==> Bxutil.Grammatical(cookie.bx.value))
    ensures Items(q) <= newq && forall k :: |q| <= k < |newq| ==> !newq[k].hasVec
    ensures ok ==> (bx.Some? <==> cookie.bx.Some?)
    ensures ok && bx.None? ==> newq == Items(q)
    ensures ok && bx.Some? ==> IsFilter(bx.value, newq, |q|, cookie.bx.value)
  {
    bx, newq := None, Items(q);
    if cookie.bx.None? {
      return true, bx, newq;
    }
    bx, newq := Bxutil.Conv(newq, cookie.bx.value);
    forall k | |q| <= k < |newq|
      ensures !newq[k].hasVec
    {
      assert Bxutil.IsNew(newq, k);
    }
    ok := bx.Some?;
  }

  ghost predicate IsFilter(expr: Bx.AExpr, newq: seq<Bxutil.Item>, n: nat, e: seq<Bxutil.Bxue>) {
    && Bxutil.AllMeant(e) && Bx.AOk(expr) && Bx.VarsA(expr, |newq|) && Bxutil.RefsOk(Bx.TokA(expr), newq)
    && Bx.TokA(Bxutil.IdA(expr, Bxutil.Ids(newq))) == Bxutil.MeantAll(e)
    && forall k :: n <= k < |newq| ==> Bxutil.Bxue('"', newq[k].id) in e
  }

  /** A search for a query with its filters. */
  ghost predicate IsTask(task: Task, q: seq<Query>, newq: seq<Bxutil.Item>, db: Wam, cookie: Cookie) {
    && ListsFor(q, newq, db, task.lists) && task.nq == |q|
    && (cookie.bx.Some? <==> task.bx.Some?)
    && (task.bx.Some? ==> IsFilter(task.bx.value, newq, |q|, cookie.bx.value))
    && (cookie.fss.Some? <==> task.masks != null)
    && (task.masks != null ==> forall d: nat :: task.masks.Lets(d) <==> Fss.Sat(cookie.fss.value, d))
  }

  ghost function SoughtIds(q: seq<Query>, db: Wam, cookie: Cookie): iset<nat> {
    iset d: nat | Sought(q, db, cookie, d)
  }

  lemma TaskMeans(task: Task, q: seq<Query>, newq: seq<Bxutil.Item>, db: Wam, cookie: Cookie)
    requires IsTask(task, q, newq, db, cookie)
    ensures task.Passing() == SoughtIds(q, db, cookie)
  {
    forall d: nat
      ensures task.Passes(d) <==> Sought(q, db, cookie, d)
    {
      if task.bx.Some? {
        BoolMeans(q, newq, db, task.lists, task.bx.value, cookie.bx.value, d);
      }
      FoundMeans(task, q, newq, db, d);
    }
  }

  lemma FoundMeans(task: Task, q: seq<Query>, newq: seq<Bxutil.Item>, db: Wam, d: nat)
    requires ListsFor(q, newq, db, task.lists) && task.nq == |q|
    ensures task.Found(d) <==> exists i :: 0 <= i < |q| && InList(VectorOf(q[i], db), d)
  {
    assert forall i :: 0 <= i < |q| ==> task.lists[i] == VectorOf(q[i], db);
  }

  /** f(0) + ... + f(n - 1). */
  ghost function SumOf(n: nat, f: nat -> real): (r: real)
    ensures (forall i: nat :: i < n ==> f(i) == 0.0) ==> r == 0.0
  {
    if n == 0 then 0.0 else SumOf(n - 1, f) + f(n - 1)
  }

  lemma {:induction false} SumOfSame(n: nat, f: nat -> real, g: nat -> real)
    requires forall i: nat :: i < n ==> f(i) == g(i)
    ensures SumOf(n, f) == SumOf(n, g)
  {
    if n > 0 {
      SumOfSame(n - 1, f, g);
    }
  }

  /** What list i adds to a sum over the lists that have d. */
  ghost function At(lists: seq<seq<Elem>>, d: nat, f: (Elem, nat) -> real): nat -> real {
    (i: nat) => if i < |lists| && InList(lists[i], d) then f(Posting(lists[i], d), i) else 0.0
  }

  function Freq(): (Elem, nat) -> real {
    (e: Elem, i: nat) => e.freq as real
  }

  function One(): (Elem, nat) -> real {
    (e: Elem, i: nat) => 1.0
  }

  lemma HitsSplit(lists: seq<seq<Elem>>, d: nat)
    requires |lists| > 0
    ensures var k := |lists| - 1;
            var h, h0 := HitsOf(lists, d), HitsOf(lists[..k], d);
            var dps, dps0 := PostingsFor(lists, h, d), PostingsFor(lists[..k], h0, d);
            if InList(lists[k], d) then h == h0 + [k] && dps == dps0 + [Posting(lists[k], d)]
            else h == h0 && dps == dps0
  {
  }

  /** The sums over the hits are sums over all lists. */
  lemma {:induction false} WSumOverLists(lists: seq<seq<Elem>>, sim: Sim, nq: nat, d: nat)
    requires |lists| <= nq
    ensures WSum(sim, HitsOf(lists, d), PostingsFor(lists, HitsOf(lists, d), d), nq) ==
            SumOf(|lists|, At(lists, d, sim.wd))
    decreases |lists|
  {
    hide HitsOf, PostingsFor, SumOf;
    if |lists| > 0 {
      var k := |lists| - 1;
      WSumOverLists(lists[..k], sim, nq, d);
      HitsSplit(lists, d);
      InitSum(lists, d, sim.wd);
      var h := HitsOf(lists, d);
      assert InList(lists[k], d) ==> h[..|h| - 1] == HitsOf(lists[..k], d);
      var dps := PostingsFor(lists, h, d);
      assert InList(lists[k], d) ==>
          dps[..|h| - 1] == PostingsFor(lists[..k], HitsOf(lists[..k], d), d);
    } else {
      NoLists(lists, d, sim.wd);
    }
  }

  lemma {:induction false} TfSumOverLists(lists: seq<seq<Elem>>, nq: nat, d: nat)
    requires |lists| <= nq
    ensures TfSum(HitsOf(lists, d), PostingsFor(lists, HitsOf(lists, d), d), nq) as real ==
            SumOf(|lists|, At(lists, d, Freq()))
    decreases |lists|
  {
    hide HitsOf, PostingsFor, SumOf;
    if |lists| > 0 {
      var k := |lists| - 1;
      TfSumOverLists(lists[..k], nq, d);
      HitsSplit(lists, d);
      InitSum(lists, d, Freq());
      var h := HitsOf(lists, d);
      assert InList(lists[k], d) ==> h[..|h| - 1] == HitsOf(lists[..k], d);
      var dps := PostingsFor(lists, h, d);
      assert InList(lists[k], d) ==>
          dps[..|h| - 1] == PostingsFor(lists[..k], HitsOf(lists[..k], d), d);
    } else {
      NoLists(lists, d, Freq());
    }
  }

  lemma {:induction false} DfSumOverLists(lists: seq<seq<Elem>>, nq: nat, d: nat)
    requires |lists| <= nq
    ensures DfSum(HitsOf(lists, d), nq) as real == SumOf(|lists|, At(lists, d, One()))
    decreases |lists|
  {
    hide HitsOf, PostingsFor, SumOf;
    if |lists| > 0 {
      var k := |lists| - 1;
      DfSumOverLists(lists[..k], nq, d);
      HitsSplit(lists, d);
      InitSum(lists, d, One());
      var h := HitsOf(lists, d);
      assert InList(lists[k], d) ==> h[..|h| - 1] == HitsOf(lists[..k], d);
    } else {
      NoLists(lists, d, One());
    }
  }

  lemma NoLists(lists: seq<seq<Elem>>, d: nat, f: (Elem, nat) -> real)
    requires |lists| == 0
    ensures HitsOf(lists, d) == [] && SumOf(0, At(lists, d, f)) == 0.0
  {
  }

  lemma InitSum(lists: seq<seq<Elem>>, d: nat, f: (Elem, nat) -> real)
    requires |lists| > 0
    ensures var k: nat := |lists| - 1;
            SumOf(|lists|, At(lists, d, f)) == SumOf(k, At(lists[..k], d, f)) +
                                               if InList(lists[k], d) then f(Posting(lists[k], d), k) else 0.0
  {
    var k: nat := |lists| - 1;
    SumOfSame(k, At(lists[..k], d, f), At(lists, d, f));
  }

  function QueryLists(q: seq<Query>, db: Wam): seq<seq<Elem>> {
    seq(|q|, i requires 0 <= i < |q| => VectorOf(q[i], db))
  }

  /** The sum, over the query terms whose vector has d, of f of the posting and the term's
      number. */
  ghost function OverQuery(q: seq<Query>, db: Wam, d: nat, f: (Elem, nat) -> real): real {
    SumOf(|q|, (i: nat) => if i < |q| && InList(VectorOf(q[i], db), d) then f(Posting(VectorOf(q[i], db), d), i)
                           else 0.0)
  }

  /** A document with the sums over the query for its id: the frequencies, the number of
      terms, and the parts of the weight, these divided by the norm if there is one. */
  ghost predicate Weighed(q: seq<Query>, db: Wam, sim: Sim, dd: Doc) {
    && dd.tf as real == OverQuery(q, db, dd.id, Freq())
    && dd.df as real == OverQuery(q, db, dd.id, One())
    && exists w: real :: dd.weight == sim.weight(w, dd.id, dd.tf, dd.df) && IsNormed(q, db, sim, dd, w)
  }

  ghost predicate IsNormed(q: seq<Query>, db: Wam, sim: Sim, dd: Doc, w: real) {
    var norm, wsum := sim.norm(dd.id, dd.tf, dd.df), OverQuery(q, db, dd.id, sim.wd);
    if norm != 0.0 then w * norm == wsum else w == wsum
  }

  lemma DocIsWeighed(q: seq<Query>, db: Wam, sim: Sim, d: nat)
    ensures Weighed(q, db, sim, DocFor(QueryLists(q, db), sim, |q|, d))
  {
    hide DocFor, OverQuery, Scored, IsNormed;
    DocIsSummed(q, db, sim, d);
    var dd := DocFor(QueryLists(q, db), sim, |q|, d);
    ScoredIsNormed(q, db, sim, d, dd.tf, dd.df);
  }

  lemma ScoredIsNormed(q: seq<Query>, db: Wam, sim: Sim, d: nat, t: int, n: nat)
    ensures var dd := Scored(sim, d, OverQuery(q, db, d, sim.wd), t, n);
            && dd.id == d && dd.tf == t && dd.df == n
            && exists w: real :: dd.weight == sim.weight(w, d, t, n) && IsNormed(q, db, sim, dd, w)
  {
    hide OverQuery;
    var norm, wsum := sim.norm(d, t, n), OverQuery(q, db, d, sim.wd);
    var w := if wsum != 0.0 && norm != 0.0 then wsum / norm else wsum;
    assert norm != 0.0 ==> w * norm == wsum;
    var dd := Scored(sim, d, wsum, t, n);
    assert dd.weight == sim.weight(w, d, t, n) && IsNormed(q, db, sim, dd, w);
  }

  lemma DocIsSummed(q: seq<Query>, db: Wam, sim: Sim, d: nat)
    ensures var dd := DocFor(QueryLists(q, db), sim, |q|, d);
            && dd.tf as real == OverQuery(q, db, d, Freq()) && dd.df as real == OverQuery(q, db, d, One())
            && dd == Scored(sim, d, OverQuery(q, db, d, sim.wd), dd.tf, dd.df)
  {
    hide OverQuery, HitsOf, PostingsFor;
    var lists := QueryLists(q, db);
    var h := HitsOf(lists, d);
    WSumOverLists(lists, sim, |q|, d);
    TfSumOverLists(lists, |q|, d);
    DfSumOverLists(lists, |q|, d);
    OverLists(q, db, d, sim.wd);
    OverLists(q, db, d, Freq());
    OverLists(q, db, d, One());
    assert DocFor(lists, sim, |q|, d) ==
           Scored(sim, d, OverQuery(q, db, d, sim.wd), TfSum(h, PostingsFor(lists, h, d), |q|), DfSum(h, |q|));
  }

  lemma OverLists(q: seq<Query>, db: Wam, d: nat, f: (Elem, nat) -> real)
    ensures OverQuery(q, db, d, f) == SumOf(|q|, At(QueryLists(q, db), d, f))
  {
    var lists := QueryLists(q, db);
    SumOfSame(|q|, (i: nat) => if i < |q| && InList(VectorOf(q[i], db), d) then f(Posting(VectorOf(q[i], db), d), i)
                               else 0.0, At(lists, d, f));
  }

  /** Every document of a ranking is weighed by the query. */
  lemma RankingWeighed(p: iset<nat>, q: seq<Query>, db: Wam, sim: Sim, nd: nat, result: seq<Doc>, total: nat)
    requires IsRanking(p, QueryLists(q, db), sim, |q|, nd, result, total)
    ensures forall k :: 0 <= k < |result| ==> Weighed(q, db, sim, result[k])
  {
    hide DocFor, Weighed, Ordered, Returned;
    var lists := QueryLists(q, db);
    var r :| IsOrder(p, lists, sim, |q|, r) && total == |r| && result == Returned(r, nd);
    forall k | 0 <= k < |result|
      ensures Weighed(q, db, sim, result[k])
    {
      ReturnedBest(r, nd, result[k]);
      InOrder(p, lists, sim, |q|, r, result[k]);
      DocIsWeighed(q, db, sim, result[k].id);
    }
  }

  /** What assv refuses: no result asked for, a query term with neither or both of id and
      vector, or a filter that is not well-formed. */
  ghost predicate Acceptable(q: seq<Query>, nd: nat, cookie: Cookie) {
    && nd > 0 && (forall i :: 0 <= i < |q| ==> (q[i].v.Some? <==> q[i].id == 0))
    && (cookie.bx.Some? ==> BoolOk(cookie.bx.value))
  }

  /** The first half of assv: the tests are set up and the vectors fetched. */
  method Prepare(q: seq<Query>, nd: nat, db: Wam, sim: Sim, cookie: Cookie)
    returns (r: Option<Task>, ghost newq: seq<Bxutil.Item>)
    requires WamOk(db) && forall i :: 0 <= i < |q| && q[i].v.Some? ==> ListOk(q[i].v.value)
    requires cookie.fss.Some? ==> Fss.QueryOk(cookie.fss.value)
    ensures r.Some? <==> Acceptable(q, nd, cookie)
    ensures r.Some? ==> IsTask(r.value, q, newq, db, cookie) && r.value.Ok() && r.value.nd == nd && r.value.sim == sim
    ensures r.Some? && r.value.masks != null ==> fresh(r.value.masks) && r.value.masks.Valid(0)
  {
    newq := [];
    if nd == 0 {
      return None, newq;
    }
    hide IsFilter, Fss.Sat, WamOk, ListOk, ListsOk, Bxutil.Grammatical;
    var ok, bx, items := Filter(q, cookie);
    newq := items;
    if !ok {
      return None, newq;
    }
    var masks: Fss.Masks? := null;
    if cookie.fss.Some? {
      masks := Fss.FssMasks(cookie.fss.value);
    }
    var lists := Vectors(q, items, db);
    VectorsKnown(q, items, bx, cookie);
    if lists.None? {
      return None, newq;
    }
    var task := Task(lists.value, |q|, nd, sim, bx, masks);
    TaskIsOk(task, q, items, db, cookie);
    r := Some(task);
  }

  /** assv: NULL for a request that cannot be answered, else the ranking. */
  method Assv(q: seq<Query>, nd: nat, db: Wam, sim: Sim, cookie: Cookie)
    returns (r: Option<seq<Doc>>, total: nat)
    requires WamOk(db) && forall i :: 0 <= i < |q| && q[i].v.Some? ==> ListOk(q[i].v.value)
    requires cookie.fss.Some? ==> Fss.QueryOk(cookie.fss.value)
    ensures r.Some? <==> Acceptable(q, nd, cookie)
    ensures r.Some? ==> IsRanking(SoughtIds(q, db, cookie), QueryLists(q, db), sim, |q|, nd, r.value, total)
    ensures r.Some? ==> forall k :: 0 <= k < |r.value| ==> Weighed(q, db, sim, r.value[k])
  {
    hide Weighed;
    var task, newq := Prepare(q, nd, db, sim, cookie);
    if task.None? {
      return None, 0;
    }
    TaskMeans(task.value, q, newq, db, cookie);
    assert task.value.lists[..|q|] == QueryLists(q, db);
    var result;
    result, total := Find(task.value);
    QueryRanking(task.value.Passing(), task.value.lists, sim, |q|, nd, result, total);
    RankingWeighed(task.value.Passing(), q, db, sim, nd, result, total);
    return Some(result), total;
  }

  /** The second half: the merge, and the extraction of the results. */
  method Find(task: Task) returns (result: seq<Doc>, total: nat)
    requires task.Ok() && (task.masks != null ==> task.masks.Valid(0))
    modifies task.masks
    ensures IsRanking(task.Passing(), task.lists, task.sim, task.nq, task.nd, result, total)
  {
    var search := new Search(task);
    search.Merge();
    result := search.Results();
    total := search.total;
  }

  lemma TaskIsOk(task: Task, q: seq<Query>, newq: seq<Bxutil.Item>, db: Wam, cookie: Cookie)
    requires IsTask(task, q, newq, db, cookie) && task.nd > 0
    requires WamOk(db) && forall i :: 0 <= i < |q| && q[i].v.Some? ==> ListOk(q[i].v.value)
    ensures task.Ok()
  {
    hide ListOk;
  }

  lemma VectorsKnown(q: seq<Query>, newq: seq<Bxutil.Item>, bx: Option<Bx.AExpr>, cookie: Cookie)
    requires Items(q) <= newq && forall k :: |q| <= k < |newq| ==> !newq[k].hasVec
    requires bx.Some? <==> cookie.bx.Some?
    requires bx.Some? ==> IsFilter(bx.value, newq, |q|, cookie.bx.value)
    requires bx.None? ==> newq == Items(q)
    ensures (forall k :: 0 <= k < |newq| ==> (newq[k].hasVec <==> newq[k].id == 0)) <==>
            && (forall i :: 0 <= i < |q| ==> (q[i].v.Some? <==> q[i].id == 0))
            && (bx.Some? ==> Bxutil.Bxue('"', 0) !in cookie.bx.value)
  {
    forall k | 0 <= k < |newq|
      ensures k < |q| ==> newq[k].id == q[k].id && newq[k].hasVec == q[k].v.Some?
      ensures |q| <= k ==> bx.Some? && Bxutil.Bxue('"', newq[k].id) in cookie.bx.value
    {
      assert k < |q| ==> newq[k] == Items(q)[k];
    }
    if bx.Some? && Bxutil.Bxue('"', 0) in cookie.bx.value {
      ZeroTerm(newq, bx.value, cookie.bx.value);
    } else if forall k :: 0 <= k < |newq| ==> (newq[k].hasVec <==> newq[k].id == 0) {
      forall i | 0 <= i < |q|
        ensures q[i].v.Some? <==> q[i].id == 0
      {
        assert newq[i].hasVec <==> newq[i].id == 0;
      }
    }
  }
}
