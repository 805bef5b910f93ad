/** The order in which assv.c returns documents, and what its bounded heap keeps of it. */
module Ranking {

  /** struct ovec_t: a document with its weight. */
  datatype Doc = Doc(id: nat, weight: real, tf: int, df: nat)

  /** compar_wcompar: the worst document first. */
  function DocCompar(a: Doc, b: Doc): int {
    if a.weight == b.weight then
      if a.id == b.id then 0 else if a.id < b.id then 1 else -1
    else if a.weight < b.weight then -1 else 1
  }

  ghost predicate Heavier(a: Doc, b: Doc) {
    a.weight > b.weight || (a.weight == b.weight && a.id < b.id)
  }

  /** The heaviest first, equal weights by ascending id. */
  ghost predicate Ordered(r: seq<Doc>) {
    forall j, k :: 0 <= j < k < |r| ==> Heavier(r[j], r[k])
  }

  lemma OrderedAt(r: seq<Doc>, j: nat, k: nat)
    requires Ordered(r) && j < k < |r|
    ensures Heavier(r[j], r[k])
  {
  }

  lemma OrderedParts(r: seq<Doc>, p: nat)
    requires Ordered(r) && p <= |r|
    ensures Ordered(r[..p]) && Ordered(r[p..])
  {
    forall j, k | 0 <= j < k < |r[p..]|
      ensures Heavier(r[p..][j], r[p..][k])
    {
      OrderedAt(r, p + j, p + k);
    }
  }

  /** How many documents at the front of r weigh at least w. */
  function Place(r: seq<Doc>, w: real): (p: nat)
    ensures p <= |r|
  {
    if |r| == 0 then 0
    else if r[|r| - 1].weight >= w then |r|
    else Place(r[..|r| - 1], w)
  }

  lemma {:induction false} PlaceCuts(r: seq<Doc>, w: real)
    ensures var p := Place(r, w); (p > 0 ==> r[p - 1].weight >= w) && (p < |r| ==> r[p].weight < w)
  {
    if |r| > 0 && r[|r| - 1].weight < w {
      PlaceCuts(r[..|r| - 1], w);
    }
  }

  /** In an ordered sequence the place divides the weights. */
  lemma BeforePlace(r: seq<Doc>, w: real, i: nat)
    requires Ordered(r) && i < |r|
    ensures i < Place(r, w) <==> r[i].weight >= w
  {
    hide Ordered;
    PlaceCuts(r, w);
    var p := Place(r, w);
    if i + 1 < p {
      OrderedAt(r, i, p - 1);
    } else if p < i {
      OrderedAt(r, p, i);
    }
  }

  lemma PlaceIs(r: seq<Doc>, w: real, p: nat)
    requires Ordered(r) && p <= |r| && (p > 0 ==> r[p - 1].weight >= w) && (p < |r| ==> r[p].weight < w)
    ensures Place(r, w) == p
  {
    if p > 0 {
      BeforePlace(r, w, p - 1);
    }
    if p < |r| {
      BeforePlace(r, w, p);
    }
  }

  /** Every document heavier than the one at i has a smaller id than d. */
  ghost predicate HeavierAreEarlier(r: seq<Doc>, i: nat, d: nat)
    requires i < |r|
  {
    forall j :: 0 <= j < |r| && r[j].weight > r[i].weight ==> r[j].id < d
  }

  /** Who holds the last of nd places: of the documents that weigh as much as the one at
      place nd the last one, if it comes behind all heavier documents. */
  ghost function LastPlace(r: seq<Doc>, nd: nat): (k: nat)
    requires 0 < nd <= |r|
    ensures k < |r|
  {
    var k := Place(r, r[nd - 1].weight) - 1;
    if k >= 0 && HeavierAreEarlier(r, nd - 1, r[k].id) then k else nd - 1
  }

  /** What a search for nd documents returns of the documents r. */
  ghost function Returned(r: seq<Doc>, nd: nat): (result: seq<Doc>)
    requires nd > 0
    ensures |result| == if |r| < nd then |r| else nd
  {
    if |r| < nd then r else r[..nd - 1] + [r[LastPlace(r, nd)]]
  }

  lemma LastPlaceFrom(r: seq<Doc>, nd: nat)
    requires Ordered(r) && 0 < nd <= |r|
    ensures var w := r[nd - 1].weight;
            nd <= Place(r, w) && r[Place(r, w) - 1].weight == w
    ensures nd - 1 <= LastPlace(r, nd) && r[LastPlace(r, nd)].weight == r[nd - 1].weight
  {
    hide Place, Ordered;
    var w := r[nd - 1].weight;
    BeforePlace(r, w, nd - 1);
    PlaceCuts(r, w);
    if nd < Place(r, w) {
      OrderedAt(r, nd - 1, Place(r, w) - 1);
    }
  }

  lemma ReturnedOrdered(r: seq<Doc>, nd: nat)
    requires Ordered(r) && nd > 0
    ensures Ordered(Returned(r, nd))
  {
    if |r| >= nd {
      LastPlaceFrom(r, nd);
    }
  }

  // ------------------------------------------------------------------ one document more

  /** A document with a new greatest id takes its place behind those of its weight. */
  function Insert(r: seq<Doc>, d: Doc): seq<Doc> {
    var p := Place(r, d.weight);
    r[..p] + [d] + r[p..]
  }

  ghost predicate AllBefore(r: seq<Doc>, d: nat) {
    forall i :: 0 <= i < |r| ==> r[i].id < d
  }

  /** What is where after the insertion. */
  lemma InsertedAt(r: seq<Doc>, d: Doc, j: nat)
    requires j <= |r|
    ensures var t, p := Insert(r, d), Place(r, d.weight);
            |t| == |r| + 1 && t[j] == if j < p then r[j] else if j == p then d else r[j - 1]
  {
  }

  lemma InsertedFront(r: seq<Doc>, d: Doc, p: nat)
    requires p <= Place(r, d.weight)
    ensures Insert(r, d)[..p] == r[..p]
  {
  }

  lemma InsertOrdered(r: seq<Doc>, d: Doc)
    requires Ordered(r) && AllBefore(r, d.id)
    ensures Ordered(Insert(r, d)) && AllBefore(Insert(r, d), d.id + 1)
    ensures multiset(Insert(r, d)) == multiset(r) + multiset{d}
  {
    hide Place, Ordered;
    var p := Place(r, d.weight);
    assert r == r[..p] + r[p..];
    OrderedParts(r, p);
    forall i | 0 <= i < |r|
      ensures if i < p then Heavier(r[i], d) else Heavier(d, r[i])
    {
      BeforePlace(r, d.weight, i);
    }
    Joined(r[..p], d, r[p..]);
  }

  /** Two ordered parts with a document between them. */
  lemma Joined(a: seq<Doc>, d: Doc, b: seq<Doc>)
    requires Ordered(a) && Ordered(b)
    requires (forall i :: 0 <= i < |a| ==> Heavier(a[i], d)) && forall i :: 0 <= i < |b| ==> Heavier(d, b[i])
    ensures Ordered(a + [d] + b)
  {
    var t := a + [d] + b;
    forall j, k | 0 <= j < k < |t|
      ensures Heavier(t[j], t[k])
    {
      if j < |a| {
        assert Heavier(t[j], d);
        if k < |a| {
          OrderedAt(a, j, k);
        }
      } else if j > |a| {
        OrderedAt(b, j - |a| - 1, k - |a| - 1);
      }
    }
  }

  /** A lighter document changes nothing. */
  lemma InsertLighter(r: seq<Doc>, nd: nat, d: Doc)
    requires Ordered(r) && AllBefore(r, d.id) && 0 < nd <= |r| && d.weight < r[nd - 1].weight
    ensures Returned(Insert(r, d), nd) == Returned(r, nd)
  {
    var p := Place(r, d.weight);
    InsertOrdered(r, d);
    InsertedFront(r, d, p);
    InsertedAt(r, d, p);
    BeforePlace(r, d.weight, nd - 1);
    PlaceCuts(r, d.weight);
    SameReturned(r, Insert(r, d), nd, p);
  }

  /** What is returned depends only on a front that ends below the weight at place nd. */
  lemma SameReturned(r: seq<Doc>, t: seq<Doc>, nd: nat, p: nat)
    requires Ordered(r) && Ordered(t) && 0 < nd <= p <= |r| && p <= |t| && t[..p] == r[..p]
    requires (p < |r| ==> r[p].weight < r[nd - 1].weight) && (p < |t| ==> t[p].weight < r[nd - 1].weight)
    ensures Returned(t, nd) == Returned(r, nd)
  {
    hide Ordered, Place;
    var w := r[nd - 1].weight;
    SamePrefix(t, r, p);
    LastPlaceFrom(r, nd);
    var k := Place(r, w);
    if p < |r| {
      BeforePlace(r, w, p);
    }
    if k < p {
      BeforePlace(r, w, k);
    }
    PlaceIs(t, w, k);
    LighterFrom(r, p, w);
    LighterFrom(t, p, w);
    SameHeavier(r, t, nd, p, r[k - 1].id);
    assert t[..nd - 1] == r[..nd - 1];
  }

  lemma LighterFrom(r: seq<Doc>, p: nat, w: real)
    requires Ordered(r) && (p < |r| ==> r[p].weight < w)
    ensures forall j :: p <= j < |r| ==> r[j].weight < w
  {
  }

  lemma SamePrefix(t: seq<Doc>, r: seq<Doc>, p: nat)
    requires p <= |r| && p <= |t| && t[..p] == r[..p]
    ensures forall j :: 0 <= j < p ==> t[j] == r[j]
  {
    forall j | 0 <= j < p
      ensures t[j] == r[j]
    {
      assert t[..p][j] == r[..p][j];
    }
  }

  /** Everything heavier than the one at nd stands in the common front. */
  lemma SameHeavier(r: seq<Doc>, t: seq<Doc>, nd: nat, p: nat, d: nat)
    requires 0 < nd <= p <= |r| && p <= |t| && t[..p] == r[..p]
    requires forall j :: p <= j < |r| ==> r[j].weight <= r[nd - 1].weight
    requires forall j :: p <= j < |t| ==> t[j].weight <= r[nd - 1].weight
    ensures HeavierAreEarlier(r, nd - 1, d) <==> HeavierAreEarlier(t, nd - 1, d)
  {
    SamePrefix(t, r, p);
  }

  /** A document of the weight at the last place gets that place. */
  lemma InsertEqual(r: seq<Doc>, nd: nat, d: Doc)
    requires Ordered(r) && AllBefore(r, d.id) && 0 < nd <= |r| && d.weight == r[nd - 1].weight
    ensures Returned(Insert(r, d), nd) == r[..nd - 1] + [d]
  {
    var p, t := Place(r, d.weight), Insert(r, d);
    InsertOrdered(r, d);
    LastPlaceFrom(r, nd);
    hide Insert, Ordered, Place;
    InsertedFront(r, d, p);
    SamePrefix(t, r, p);
    assert t[..nd - 1] == r[..nd - 1];
    InsertedAt(r, d, p);
    if p < |r| {
      InsertedAt(r, d, p + 1);
      BeforePlace(r, d.weight, p);
    }
    PlaceIs(t, d.weight, p + 1);
    LatestIsLast(r, nd, d);
  }

  lemma LatestIsLast(r: seq<Doc>, nd: nat, d: Doc)
    requires Ordered(r) && AllBefore(r, d.id) && 0 < nd <= |r| && Insert(r, d)[nd - 1].weight == d.weight
    ensures HeavierAreEarlier(Insert(r, d), nd - 1, d.id)
  {
    var t := Insert(r, d);
    forall j | 0 <= j < |t| && t[j].weight > d.weight
      ensures t[j].id < d.id
    {
      InsertedAt(r, d, j);
    }
  }

  /** A heavier one pushes the holder of the last place out. */
  lemma InsertHeavier(r: seq<Doc>, nd: nat, d: Doc)
    requires Ordered(r) && AllBefore(r, d.id) && 0 < nd <= |r| && d.weight > r[nd - 1].weight
    ensures multiset(Returned(Insert(r, d), nd)) == multiset(r[..nd - 1]) + multiset{d}
  {
    hide Insert, Place, Returned, HeavierAreEarlier;
    InsertOrdered(r, d);
    BeforePlace(r, d.weight, nd - 1);
    Front(r, d, nd);
    LatestIsHeavier(r, d, nd);
    InsertedAt(r, d, nd - 1);
    LastPlaceReturned(Insert(r, d), nd);
  }

  lemma Front(r: seq<Doc>, d: Doc, nd: nat)
    requires Place(r, d.weight) < nd <= |r|
    ensures multiset(Insert(r, d)[..nd]) == multiset(r[..nd - 1]) + multiset{d}
  {
    hide Place;
    var p := Place(r, d.weight);
    assert Insert(r, d)[..nd] == r[..p] + [d] + r[p..nd - 1];
    assert r[..nd - 1] == r[..p] + r[p..nd - 1];
  }

  /** With a heavier document as the latest one, the last place is the regular one. */
  lemma LatestIsHeavier(r: seq<Doc>, d: Doc, nd: nat)
    requires Ordered(r) && Ordered(Insert(r, d)) && AllBefore(r, d.id) && Place(r, d.weight) < nd <= |r|
    ensures LastPlace(Insert(r, d), nd) == nd - 1
  {
    hide Insert, Ordered, Place;
    var p, t := Place(r, d.weight), Insert(r, d);
    InsertedAt(r, d, p);
    InsertedAt(r, d, nd - 1);
    InsertedAt(r, d, nd);
    LastPlaceFrom(t, nd);
    var k := Place(t, t[nd - 1].weight) - 1;
    if p == nd - 1 {
      PlaceCuts(r, d.weight);
      PlaceIs(t, d.weight, nd);
    } else {
      InsertedAt(r, d, k);
      PlaceCuts(r, d.weight);
      LighterFrom(r, p, d.weight);
      assert t[p].weight > t[nd - 1].weight && t[p].id >= t[k].id;
    }
  }

  /** With room for another the document is added. */
  lemma InsertRoom(r: seq<Doc>, nd: nat, d: Doc)
    requires Ordered(r) && AllBefore(r, d.id) && |r| < nd
    ensures multiset(Returned(Insert(r, d), nd)) == multiset(Returned(r, nd)) + multiset{d}
  {
    InsertOrdered(r, d);
    AllReturned(Insert(r, d), nd);
  }

  /** The holder of the last place is the worst of those returned. */
  lemma WorstIsLast(r: seq<Doc>, nd: nat, top: Doc)
    requires Ordered(r) && 0 < nd <= |r| && top in multiset(Returned(r, nd))
    requires forall e :: e in multiset(Returned(r, nd)) ==> DocCompar(top, e) <= 0
    ensures top == Returned(r, nd)[nd - 1] && top.weight == r[nd - 1].weight
    ensures multiset(Returned(r, nd)) - multiset{top} == multiset(r[..nd - 1])
  {
    LastPlaceFrom(r, nd);
    ReturnedOrdered(r, nd);
    var t := Returned(r, nd);
    assert t[nd - 1] in t;
    forall i | 0 <= i < nd - 1
      ensures DocCompar(t[i], t[nd - 1]) > 0
    {
      OrderedAt(t, i, nd - 1);
    }
  }

  // ------------------------------------------------------------------ the documents counted

  ghost predicate IdsAscend(cand: seq<Doc>) {
    forall c, e :: 0 <= c < e < |cand| ==> cand[c].id < cand[e].id
  }

  /** The documents of a run in their order. */
  function Order(cand: seq<Doc>): seq<Doc> {
    if |cand| == 0 then [] else Insert(Order(cand[..|cand| - 1]), cand[|cand| - 1])
  }

  lemma {:induction false} OrderOk(cand: seq<Doc>, d: nat)
    requires IdsAscend(cand) && AllBefore(cand, d)
    ensures Ordered(Order(cand)) && multiset(Order(cand)) == multiset(cand) && |Order(cand)| == |cand|
    ensures AllBefore(Order(cand), d)
  {
    if |cand| > 0 {
      var n := |cand| - 1;
      OrderOk(cand[..n], cand[n].id);
      InsertOrdered(Order(cand[..n]), cand[n]);
      WithoutLast(cand);
    }
  }

  /** The heap holds what a search for nd documents returns of the documents counted. */
  ghost predicate BestOf(heap: multiset<Doc>, cand: seq<Doc>, nd: nat)
    requires nd > 0
  {
    heap == multiset(Returned(Order(cand), nd))
  }

  lemma OrderStep(cand: seq<Doc>, dd: Doc)
    requires IdsAscend(cand + [dd])
    ensures Order(cand + [dd]) == Insert(Order(cand), dd)
    ensures Ordered(Order(cand)) && AllBefore(Order(cand), dd.id) && |Order(cand)| == |cand|
  {
    var next := cand + [dd];
    assert next[..|cand|] == cand && next[|cand|] == dd;
    assert forall c :: 0 <= c < |cand| ==> next[c] == cand[c];
    OrderOk(cand, dd.id);
  }

  lemma BestOfEnq(heap: multiset<Doc>, cand: seq<Doc>, nd: nat, dd: Doc)
    requires nd > 0 && BestOf(heap, cand, nd) && |cand| < nd && IdsAscend(cand + [dd])
    ensures BestOf(heap + multiset{dd}, cand + [dd], nd)
  {
    OrderStep(cand, dd);
    InsertRoom(Order(cand), nd, dd);
  }

  /** The worst document of a full heap stays if it weighs more than the new one. */
  lemma BestOfDrop(heap: multiset<Doc>, cand: seq<Doc>, nd: nat, dd: Doc, top: Doc)
    requires 0 < nd <= |cand| && BestOf(heap, cand, nd) && IdsAscend(cand + [dd]) && top in heap
    requires (forall e :: e in heap ==> DocCompar(top, e) <= 0) && top.weight > dd.weight
    ensures BestOf(heap, cand + [dd], nd)
  {
    OrderStep(cand, dd);
    WorstIsLast(Order(cand), nd, top);
    InsertLighter(Order(cand), nd, dd);
  }

  /** It gives way to one that weighs as much or more. */
  lemma BestOfReplace(heap: multiset<Doc>, cand: seq<Doc>, nd: nat, dd: Doc, top: Doc)
    requires 0 < nd <= |cand| && BestOf(heap, cand, nd) && IdsAscend(cand + [dd]) && top in heap
    requires (forall e :: e in heap ==> DocCompar(top, e) <= 0) && top.weight <= dd.weight
    ensures BestOf(heap - multiset{top} + multiset{dd}, cand + [dd], nd)
  {
    hide Returned, Order, Insert, Ordered;
    var r := Order(cand);
    OrderStep(cand, dd);
    WorstIsLast(r, nd, top);
    if top.weight < dd.weight {
      InsertHeavier(r, nd, dd);
    } else {
      InsertEqual(r, nd, dd);
      assert multiset(r[..nd - 1] + [dd]) == multiset(r[..nd - 1]) + multiset{dd};
    }
  }

  // ------------------------------------------------------------------ what it means

  /** All documents are returned if there are no more than asked for. */
  lemma AllReturned(r: seq<Doc>, nd: nat)
    requires Ordered(r) && 0 < nd && |r| <= nd
    ensures Returned(r, nd) == r
  {
    if |r| == nd {
      LastPlaceFrom(r, nd);
    }
  }

  ghost predicate DistinctIds(r: seq<Doc>) {
    forall j, k :: 0 <= j < k < |r| ==> r[j].id != r[k].id
  }

  /** Some heavier document comes later than all those of the weight at place nd. */
  ghost predicate HeavierComesLast(r: seq<Doc>, nd: nat)
    requires 0 < nd <= |r|
  {
    exists j :: 0 <= j < |r| && r[j].weight > r[nd - 1].weight && BehindWeight(r, r[nd - 1].weight, r[j].id)
  }

  ghost predicate BehindWeight(r: seq<Doc>, w: real, d: nat) {
    forall i :: 0 <= i < |r| && r[i].weight == w ==> r[i].id < d
  }

  /** The last of a weight has the greatest id. */
  lemma LastOfWeight(r: seq<Doc>, w: real, d: nat)
    requires Ordered(r) && var k := Place(r, w); k > 0 && r[k - 1].weight == w
    ensures BehindWeight(r, w, d) <==> r[Place(r, w) - 1].id < d
  {
    var k := Place(r, w) - 1;
    forall i | 0 <= i < |r| && r[i].weight == w
      ensures r[i].id <= r[k].id
    {
      BeforePlace(r, w, i);
      if i < k {
        OrderedAt(r, i, k);
      }
    }
  }

  function First(r: seq<Doc>, nd: nat): seq<Doc> {
    if |r| <= nd then r else r[..nd]
  }

  /** No more than nd documents weigh as much as the one at place nd or more, or some
      heavier one has a larger id than all of the weight at that place. */
  ghost predicate CutIsClean(r: seq<Doc>, nd: nat)
    requires nd > 0
  {
    |r| <= nd || r[nd].weight < r[nd - 1].weight || HeavierComesLast(r, nd)
  }

  /** The ties at the cut: exactly then the result is the first nd documents by weight and
      id. */
  lemma FirstReturned(r: seq<Doc>, nd: nat)
    requires Ordered(r) && DistinctIds(r) && nd > 0
    ensures Returned(r, nd) == First(r, nd) <==> CutIsClean(r, nd)
  {
    if |r| <= nd {
      AllReturned(r, nd);
    } else {
      CutReturned(r, nd);
    }
  }

  /** With distinct weights every cut is clean. */
  lemma DistinctWeights(r: seq<Doc>, nd: nat)
    requires Ordered(r) && nd > 0 && forall j, k :: 0 <= j < k < |r| ==> r[j].weight != r[k].weight
    ensures CutIsClean(r, nd)
  {
    if nd < |r| {
      OrderedAt(r, nd - 1, nd);
    }
  }

  lemma CutReturned(r: seq<Doc>, nd: nat)
    requires Ordered(r) && DistinctIds(r) && 0 < nd < |r|
    ensures Returned(r, nd) == r[..nd] <==> r[nd].weight < r[nd - 1].weight || HeavierComesLast(r, nd)
  {
    hide *;
    LastPlaceReturned(r, nd);
    LastPlaceFrom(r, nd);
    LastPlaceIs(r, nd);
    var w := r[nd - 1].weight;
    if r[nd].weight < w {
      PlaceIs(r, w, nd);
    } else {
      BeforePlace(r, w, nd);
      NoneBehind(r, nd);
    }
  }

  lemma LastPlaceIs(r: seq<Doc>, nd: nat)
    requires Ordered(r) && 0 < nd <= |r|
    requires var w := r[nd - 1].weight; nd <= Place(r, w) && r[Place(r, w) - 1].weight == w
    ensures var k := Place(r, r[nd - 1].weight) - 1;
            r[LastPlace(r, nd)] == r[nd - 1] <==> k == nd - 1 || !HeavierAreEarlier(r, nd - 1, r[k].id)
  {
    var k := Place(r, r[nd - 1].weight) - 1;
    hide Ordered, Place, HeavierAreEarlier;
    if nd - 1 < k {
      OrderedAt(r, nd - 1, k);
    }
  }

  lemma NoneBehind(r: seq<Doc>, nd: nat)
    requires Ordered(r) && DistinctIds(r) && 0 < nd <= |r| && nd < Place(r, r[nd - 1].weight)
    requires r[Place(r, r[nd - 1].weight) - 1].weight == r[nd - 1].weight
    ensures var k := Place(r, r[nd - 1].weight) - 1;
            HeavierAreEarlier(r, nd - 1, r[k].id) <==> !HeavierComesLast(r, nd)
  {
    hide Ordered, Place, BehindWeight;
    var w := r[nd - 1].weight;
    forall j | 0 <= j < |r| && r[j].weight > w
      ensures BehindWeight(r, w, r[j].id) <==> !(r[j].id < r[Place(r, w) - 1].id)
    {
      LastOfWeight(r, w, r[j].id);
    }
  }

  lemma {:induction false} OnceEach(r: seq<Doc>, x: Doc)
    requires Ordered(r)
    ensures multiset(r)[x] == if x in r then 1 else 0
  {
    if |r| > 0 {
      var n := |r| - 1;
      OrderedParts(r, n);
      WithoutLast(r);
      OnceEach(r[..n], x);
    }
  }

  /** Two ordered sequences of the same documents are the same. */
  lemma SameMembers(r: seq<Doc>, s: seq<Doc>)
    requires Ordered(r) && Ordered(s) && forall x :: x in r <==> x in s
    ensures r == s
  {
    forall x
      ensures multiset(r)[x] == multiset(s)[x]
    {
      OnceEach(r, x);
      OnceEach(s, x);
    }
    OrderedIs(s, r);
  }

  /** The result is in order, from the documents, and none left out is heavier. */
  lemma ReturnedBest(r: seq<Doc>, nd: nat, x: Doc)
    requires Ordered(r) && nd > 0
    ensures Ordered(Returned(r, nd)) && (x in Returned(r, nd) ==> x in r)
    ensures x in r && x !in Returned(r, nd) ==>
              forall k :: 0 <= k < |Returned(r, nd)| ==> x.weight <= Returned(r, nd)[k].weight
  {
    ReturnedOrdered(r, nd);
    if |r| >= nd {
      LastPlaceFrom(r, nd);
      if x in r && x !in Returned(r, nd) {
        var i :| 0 <= i < |r| && r[i] == x;
        FrontReturned(r, nd, i);
        NotBefore(r, nd, i);
      }
    }
  }

  lemma FrontReturned(r: seq<Doc>, nd: nat, i: nat)
    requires 0 < nd <= |r| && i < |r|
    ensures nd - 1 <= i || r[i] in Returned(r, nd)
  {
    if i < nd - 1 {
      assert Returned(r, nd)[i] == r[i];
    }
  }

  lemma NotBefore(r: seq<Doc>, nd: nat, i: nat)
    requires Ordered(r) && 0 < nd <= |r| && nd - 1 <= i < |r| && r[LastPlace(r, nd)].weight == r[nd - 1].weight
    ensures forall k :: 0 <= k < nd ==> r[i].weight <= Returned(r, nd)[k].weight
  {
    hide LastPlace, Ordered;
    assert r[i].weight <= r[nd - 1].weight by {
      if nd - 1 < i {
        OrderedAt(r, nd - 1, i);
      }
    }
    forall k | 0 <= k < nd - 1
      ensures r[i].weight <= r[k].weight
    {
      OrderedAt(r, k, i);
    }
  }

  lemma LastPlaceReturned(r: seq<Doc>, nd: nat)
    requires 0 < nd <= |r|
    ensures Returned(r, nd) == r[..nd] <==> r[LastPlace(r, nd)] == r[nd - 1]
  {
    assert r[..nd] == r[..nd - 1] + [r[nd - 1]];
    assert Returned(r, nd)[nd - 1] == r[LastPlace(r, nd)];
  }

  /** A sorted permutation is the only one. */
  lemma {:induction false} OrderedIs(result: seq<Doc>, r: seq<Doc>)
    requires multiset(result) == multiset(r) && Ordered(r)
    requires forall j, k :: 0 <= j < k < |result| ==> DocCompar(result[k], result[j]) <= 0
    ensures result == r
    decreases |r|
  {
    hide Ordered;
    SameSize(result, r);
    if |r| > 0 {
      var n := |r| - 1;
      SameLast(result, r);
      WithoutLast(result);
      WithoutLast(r);
      OrderedParts(r, n);
      OrderedIs(result[..n], r[..n]);
    }
  }

  lemma SameSize(s: seq<Doc>, t: seq<Doc>)
    requires multiset(s) == multiset(t)
    ensures |s| == |t|
  {
    assert |multiset(s)| == |s|;
  }

  lemma WithoutLast(s: seq<Doc>)
    requires |s| > 0
    ensures multiset(s[..|s| - 1]) == multiset(s) - multiset{s[|s| - 1]} && s == s[..|s| - 1] + [s[|s| - 1]]
  {
    assert s == s[..|s| - 1] + [s[|s| - 1]];
  }

  lemma SameLast(result: seq<Doc>, r: seq<Doc>)
    requires multiset(result) == multiset(r) && Ordered(r) && |result| == |r| > 0
    requires forall j, k :: 0 <= j < k < |result| ==> DocCompar(result[k], result[j]) <= 0
    ensures result[|r| - 1] == r[|r| - 1]
  {
    hide Ordered;
    var n := |r| - 1;
    assert result[n] in multiset(r) && r[n] in multiset(result);
    var i :| 0 <= i < |r| && r[i] == result[n];
    var j :| 0 <= j < |result| && result[j] == r[n];
    if i < n {
      OrderedAt(r, i, n);
    }
  }
}
