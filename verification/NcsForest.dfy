/** The clusters of ncs.c as values: slots, linked document lists that share their tails,
    and the merge tree. */
module NcsForest {
  import opened NcsScore

  /** struct C; pointers are indices into the clusters and documents, -1 stands for NULL. */
  datatype Cluster = Cluster(left: int, right: int, doclist: int, ndocs: nat, freqSum: int, weight: real, midx: int)

  /** A list of documents from head on, through the next pointers. */
  ghost predicate ListOk(next: seq<int>, head: int, ms: seq<nat>) {
    && |ms| > 0 && head == ms[0]
    && (forall i :: 0 <= i < |ms| ==> ms[i] < |next|)
    && (forall i :: 0 <= i < |ms| - 1 ==> next[ms[i]] == ms[i + 1])
  }

  /** The whole list is ms: its last document has no successor. */
  ghost predicate Ends(next: seq<int>, ms: seq<nat>)
    requires |ms| > 0 && ms[|ms| - 1] < |next|
  {
    next[ms[|ms| - 1]] == -1
  }

  ghost predicate NoDup(ms: seq<nat>) {
    forall i, j :: 0 <= i < j < |ms| ==> ms[i] != ms[j]
  }

  /** next: successor of each document. members: the documents each cluster was made of.
      parent: the cluster each cluster was merged into, or -1. */
  datatype Forest = Forest(next: seq<int>, clusters: seq<Cluster>, xdim: seq<int>,
                           members: seq<seq<nat>>, parent: seq<int>) {

    predicate IsLive(m: int) {
      0 <= m < |xdim| && xdim[m] >= 0
    }

    ghost predicate Shape() {
      && |xdim| == |next| <= |clusters| == |members| == |parent| < 2 * |next|
    }

    /** Slots and clusters point at each other; exactly the unmerged clusters have slots. */
    ghost predicate SlotsOk()
      requires Shape()
    {
      && (forall m :: 0 <= m < |xdim| ==> -1 <= xdim[m] < |clusters| && (xdim[m] >= 0 ==> clusters[xdim[m]].midx == m))
      && (forall c :: 0 <= c < |clusters| ==> SlotOk(c))
    }

    ghost predicate SlotOk(c: nat)
      requires Shape() && c < |clusters|
    {
      && (parent[c] == -1 <==> clusters[c].midx != -1)
      && (clusters[c].midx != -1 ==> 0 <= clusters[c].midx < |xdim| && xdim[clusters[c].midx] == c)
    }

    /** The first ndocs documents of the list are those of the cluster; the list of an
        unmerged cluster ends there. */
    ghost predicate ClusterOk(k: Corpus, c: nat)
      requires Shape() && c < |clusters| && |k.freq| == |next|
    {
      && ListOk(next, clusters[c].doclist, members[c])
      && clusters[c].ndocs == |members[c]|
      && NoDup(members[c])
      && clusters[c].freqSum == k.FreqSum(members[c])
      && (parent[c] == -1 ==> Ends(next, members[c]))
    }

    ghost predicate ListsOk(k: Corpus)
      requires Shape() && |k.freq| == |next|
    {
      forall c :: 0 <= c < |clusters| ==> ClusterOk(k, c)
    }

    /** Cluster c is unmerged before cluster t comes into being. */
    predicate OpenAt(c: int, t: int)
      requires Shape()
    {
      0 <= c < |clusters| && c < t && (parent[c] == -1 || parent[c] >= t)
    }

    ghost predicate HasDoc(c: int, d: nat)
      requires Shape()
    {
      0 <= c < |clusters| && d in members[c]
    }

    /** The clusters open at t partition the documents. */
    ghost predicate PartitionAt(t: int)
      requires Shape()
    {
      && (forall d :: 0 <= d < |next| ==> CoveredAt(t, d))
      && (forall a, b, d: nat :: OpenAt(a, t) && OpenAt(b, t) && HasDoc(a, d) && HasDoc(b, d) ==> a == b)
    }

    ghost predicate CoveredAt(t: int, d: nat)
      requires Shape()
    {
      exists c :: OpenAt(c, t) && HasDoc(c, d)
    }

    /** Cluster c is the union of two earlier clusters, merged into nothing else. */
    ghost predicate NodeOk(c: nat)
      requires Shape() && c < |clusters|
    {
      var l, r := clusters[c].left, clusters[c].right;
      if c < |next| then l == r == -1 && members[c] == [c]
      else
        && 0 <= l < c && 0 <= r < c && l != r && parent[l] == c && parent[r] == c
        && members[c] == members[l] + members[r]
    }

    ghost predicate ParentOk(c: nat)
      requires Shape() && c < |clusters|
    {
      parent[c] != -1 ==>
        c < parent[c] < |clusters| && |next| <= parent[c]
        && (clusters[parent[c]].left == c || clusters[parent[c]].right == c)
    }

    ghost predicate TreeOk()
      requires Shape()
    {
      forall c :: 0 <= c < |clusters| ==> NodeOk(c) && ParentOk(c)
    }

    /** The pair merged into c had the greatest gain of all pairs open at the time. */
    ghost predicate GreedyAt(k: Corpus, c: nat)
      requires Shape() && |next| <= c < |clusters| && |k.freq| == |next| && k.Valid() && ListsOk(k) && TreeOk()
    {
      forall a, b :: OpenAt(a, c) && OpenAt(b, c) && a != b ==> PairGain(k, a, b) <= MergedGain(k, c)
    }

    ghost function PairGain(k: Corpus, a: nat, b: nat): real
      requires Shape() && a < |clusters| && b < |clusters| && |k.freq| == |next| && k.Valid() && ListsOk(k)
    {
      assert ClusterOk(k, a) && ClusterOk(k, b);
      k.Gain(members[a], members[b])
    }

    ghost function MergedGain(k: Corpus, c: nat): real
      requires Shape() && |next| <= c < |clusters| && |k.freq| == |next| && k.Valid() && ListsOk(k) && TreeOk()
    {
      assert NodeOk(c);
      PairGain(k, clusters[c].left, clusters[c].right)
    }

    /** The weights are the sums of those of the documents w, a live cluster has the slot of
        its least document, and the lists were joined in the order of the weights. */
    ghost predicate Listed(w: seq<real>) {
      && Shape() && |w| == |next|
      && (forall c :: 0 <= c < |clusters| ==> WeightOk(w, c) && LeastOk(c))
      && (forall c :: |next| <= c < |clusters| ==> OrderOk(w, c))
    }

    ghost predicate WeightOk(w: seq<real>, c: nat)
      requires Shape() && |w| == |next| && c < |clusters|
    {
      Weighs(w, members[c], clusters[c])
    }

    ghost predicate LeastOk(c: nat)
      requires Shape() && c < |clusters|
    {
      parent[c] == -1 ==> IsLeast(clusters[c].midx, members[c])
    }

    /** Of the two clusters that became c the one that is heavier per document is on the left
        and comes first in the list; of two equally heavy ones, the one in the lower slot. */
    ghost predicate OrderOk(w: seq<real>, c: nat)
      requires Shape() && |w| == |next| <= c < |clusters|
      requires forall c :: 0 <= c < |clusters| ==> WeightOk(w, c)
    {
      var l, r := clusters[c].left, clusters[c].right;
      && 0 <= l < |clusters| && 0 <= r < |clusters| && WeightOk(w, l) && WeightOk(w, r)
      && members[c] == members[l] + members[r]
      && InOrder(w, members[l], members[r])
    }

    ghost predicate Ok(k: Corpus) {
      && Shape() && |k.freq| == |next| && k.Valid()
      && SlotsOk() && ListsOk(k) && TreeOk() && PartitionAt(|clusters|)
      && (forall c :: |next| <= c < |clusters| ==> GreedyAt(k, c))
    }
  }

  ghost function WeightSum(w: seq<real>, ms: seq<nat>): real
    requires forall i :: 0 <= i < |ms| ==> ms[i] < |w|
  {
    if |ms| == 0 then 0.0 else WeightSum(w, ms[..|ms| - 1]) + w[ms[|ms| - 1]]
  }

  ghost predicate Weighs(w: seq<real>, ms: seq<nat>, c: Cluster) {
    && |ms| > 0 && (forall i :: 0 <= i < |ms| ==> ms[i] < |w|)
    && c.ndocs == |ms| && c.weight == WeightSum(w, ms)
  }

  lemma WeighsBoth(w: seq<real>, a: seq<nat>, ca: Cluster, b: seq<nat>, cb: Cluster, cz: Cluster)
    requires Weighs(w, a, ca) && Weighs(w, b, cb)
    requires cz.ndocs == ca.ndocs + cb.ndocs && cz.weight == ca.weight + cb.weight
    ensures Weighs(w, a + b, cz) && Weighs(w, b + a, cz)
  {
    WeightSumAppend(w, a, b);
    WeightSumAppend(w, b, a);
  }

  lemma {:induction false} WeightSumAppend(w: seq<real>, a: seq<nat>, b: seq<nat>)
    requires (forall i :: 0 <= i < |a| ==> a[i] < |w|) && (forall i :: 0 <= i < |b| ==> b[i] < |w|)
    ensures WeightSum(w, a + b) == WeightSum(w, a) + WeightSum(w, b)
    decreases |b|
  {
    if |b| == 0 {
      assert a + b == a;
    } else {
      assert (a + b)[..|a + b| - 1] == a + b[..|b| - 1];
      WeightSumAppend(w, a, b[..|b| - 1]);
    }
  }

  ghost predicate IsLeast(m: int, ms: seq<nat>) {
    (exists i :: 0 <= i < |ms| && ms[i] == m) && forall i :: 0 <= i < |ms| ==> m <= ms[i]
  }

  /** The documents a are heavier on average than b, or as heavy and have the least. */
  ghost predicate InOrder(w: seq<real>, a: seq<nat>, b: seq<nat>)
    requires |a| > 0 && |b| > 0
    requires (forall i :: 0 <= i < |a| ==> a[i] < |w|) && (forall i :: 0 <= i < |b| ==> b[i] < |w|)
  {
    var u, v := WeightSum(w, a) / |a| as real, WeightSum(w, b) / |b| as real;
    u > v || (u == v && exists i :: 0 <= i < |a| && forall j :: 0 <= j < |b| ==> a[i] < b[j])
  }

  /** One cluster for each document. */
  lemma LeavesOk(f: Forest, k: Corpus)
    requires k.Valid() && |f.next| == |f.xdim| == |f.clusters| == |f.members| == |f.parent| == |k.freq| >= 2
    requires forall j :: 0 <= j < |f.next| ==>
               f.next[j] == -1 && f.xdim[j] == j && f.members[j] == [j] && f.parent[j] == -1
    requires forall j :: 0 <= j < |f.next| ==>
      var c := f.clusters[j];
      c.left == c.right == -1 && c.doclist == j && c.ndocs == 1 && c.freqSum == k.freq[j] && c.midx == j
    ensures f.Ok(k)
  {
    forall c | 0 <= c < |f.clusters|
      ensures f.SlotOk(c) && f.ClusterOk(k, c) && f.NodeOk(c) && f.ParentOk(c)
    {
      assert [c][..0] == [] && k.FreqSum([c][..0]) == 0;
    }
    forall d {:trigger f.CoveredAt(|f.clusters|, d)} | 0 <= d < |f.next|
      ensures f.CoveredAt(|f.clusters|, d)
    {
      assert f.OpenAt(d, |f.clusters|) && f.HasDoc(d, d);
    }
  }

  /** The forest after merge(x, y), where l and r are x and y in the order of their lists. */
  function Merged(f: Forest, x: nat, y: nat, l: nat, r: nat): Forest
    requires f.Shape() && x < |f.clusters| && y < |f.clusters| && x != y && {l, r} == {x, y}
    requires 0 <= f.clusters[x].midx < |f.xdim| && 0 <= f.clusters[y].midx < |f.xdim|
    requires |f.members[l]| > 0 && f.members[l][|f.members[l]| - 1] < |f.next|
  {
    var cx, cy, z := f.clusters[x], f.clusters[y], |f.clusters|;
    Forest(
      f.next[f.members[l][|f.members[l]| - 1] := f.clusters[r].doclist],
      f.clusters[x := cx.(midx := -1)][y := cy.(midx := -1)]
        + [Cluster(l, r, f.clusters[l].doclist, cx.ndocs + cy.ndocs, cx.freqSum + cy.freqSum,
                   cx.weight + cy.weight, cx.midx)],
      f.xdim[cy.midx := -1][cx.midx := z],
      f.members + [f.members[l] + f.members[r]],
      f.parent[x := z][y := z] + [-1])
  }

  /** Two different unmerged clusters, in either order of their lists. */
  ghost predicate Mergeable(f: Forest, k: Corpus, x: nat, y: nat, l: nat, r: nat) {
    && f.Ok(k) && |f.clusters| < 2 * |f.next| - 1
    && x < |f.clusters| && y < |f.clusters| && x != y
    && f.parent[x] == -1 && f.parent[y] == -1
    && ((l == x && r == y) || (l == y && r == x))
    && f.SlotOk(x) && f.SlotOk(y) && f.ClusterOk(k, x) && f.ClusterOk(k, y)
  }

  lemma MergedShape(f: Forest, k: Corpus, x: nat, y: nat, l: nat, r: nat)
    requires Mergeable(f, k, x, y, l, r)
    ensures Merged(f, x, y, l, r).Shape()
    ensures Merged(f, x, y, l, r).SlotsOk()
  {
    var f' := Merged(f, x, y, l, r);
    forall c | 0 <= c < |f'.clusters|
      ensures f'.SlotOk(c)
    {
      if c < |f.clusters| {
        assert f.SlotOk(c);
      }
    }
  }

  /** A list is not changed by giving its end, or a document elsewhere, a successor. */
  lemma ListStays(next: seq<int>, head: int, ms: seq<nat>, last: nat, v: int)
    requires ListOk(next, head, ms) && last < |next| && next[last] == -1
    ensures ListOk(next[last := v], head, ms)
    ensures Ends(next, ms) && ms[|ms| - 1] != last ==> Ends(next[last := v], ms)
  {
    forall i | 0 <= i < |ms| - 1
      ensures next[last := v][ms[i]] == ms[i + 1]
    {
      assert next[ms[i]] == ms[i + 1] >= 0;
    }
  }

  /** Different open clusters end in different documents. */
  lemma OtherEnd(f: Forest, k: Corpus, c: nat, l: nat)
    requires f.Ok(k) && c < |f.clusters| && l < |f.clusters| && c != l && f.parent[c] == -1 && f.parent[l] == -1
    requires |f.members[c]| > 0 && |f.members[l]| > 0
    ensures f.members[c][|f.members[c]| - 1] != f.members[l][|f.members[l]| - 1]
  {
    assert f.OpenAt(c, |f.clusters|) && f.OpenAt(l, |f.clusters|);
    var d := f.members[l][|f.members[l]| - 1];
    assert f.HasDoc(l, d);
    assert f.members[c][|f.members[c]| - 1] == d ==> f.HasDoc(c, d);
  }

  /** Only the last document of an unmerged cluster's own list gets a successor. */
  lemma MergedKeepsCluster(f: Forest, k: Corpus, x: nat, y: nat, l: nat, r: nat, c: nat)
    requires Mergeable(f, k, x, y, l, r) && c < |f.clusters|
    ensures Merged(f, x, y, l, r).Shape() && Merged(f, x, y, l, r).ClusterOk(k, c)
  {
    MergedShape(f, k, x, y, l, r);
    MergedFields(f, k, x, y, l, r, c);
    assert f.ClusterOk(k, c) && f.ClusterOk(k, l);
    if f.parent[c] == -1 && c != l {
      OtherEnd(f, k, c, l);
    }
    var ms := f.members[l];
    hide Merged, Mergeable, Forest.Ok, NoDup;
    ListStays(f.next, f.clusters[c].doclist, f.members[c], ms[|ms| - 1], f.clusters[r].doclist);
  }

  /** What a merge leaves of an earlier cluster. */
  lemma MergedFields(f: Forest, k: Corpus, x: nat, y: nat, l: nat, r: nat, c: nat)
    requires Mergeable(f, k, x, y, l, r) && c < |f.clusters| && Merged(f, x, y, l, r).Shape()
    ensures var f', ms := Merged(f, x, y, l, r), f.members[l];
            && l < |f.clusters| && r < |f.clusters| && f.parent[l] == -1 && Ends(f.next, ms)
            && f'.next == f.next[ms[|ms| - 1] := f.clusters[r].doclist]
            && f'.members[c] == f.members[c] && f'.clusters[c] == f.clusters[c].(midx := f'.clusters[c].midx)
            && f'.parent[c] == if c == l || c == r then |f.clusters| else f.parent[c]
  {
  }

  lemma MergedNewCluster(f: Forest, k: Corpus, x: nat, y: nat, l: nat, r: nat)
    requires Mergeable(f, k, x, y, l, r)
    ensures Merged(f, x, y, l, r).Shape() && Merged(f, x, y, l, r).ClusterOk(k, |f.clusters|)
  {
    MergedShape(f, k, x, y, l, r);
    var a, b := f.members[l], f.members[r];
    assert f.ClusterOk(k, l) && f.ClusterOk(k, r);
    assert f.OpenAt(l, |f.clusters|) && f.OpenAt(r, |f.clusters|);
    forall d: nat
      ensures !(d in a && d in b)
    {
      if d in a && d in b {
        assert f.HasDoc(l, d) && f.HasDoc(r, d);
        assert false;
      }
    }
    k.FreqSumAppend(a, b);
    ListsJoin(f.next, a, b);
  }

  /** nconc: hanging list b onto the end of list a. Every list that ended where a did goes
      on with b, the lists of earlier clusters that share the tail of a among them. */
  lemma ListsJoin(next: seq<int>, a: seq<nat>, b: seq<nat>)
    requires |a| > 0 && |b| > 0 && ListOk(next, a[0], a) && ListOk(next, b[0], b)
    requires NoDup(a) && NoDup(b) && Ends(next, b) && forall d: nat :: !(d in a && d in b)
    ensures var next' := next[a[|a| - 1] := b[0] as int];
            && ListOk(next', a[0], a + b) && NoDup(a + b) && Ends(next', a + b)
            && forall ms :: SameEnd(next, ms, a, b) ==> ListOk(next', ms[0], ms + b)
  {
    ListGoesOn(next, a, a, b);
    assert forall i :: 0 <= i < |a| ==> a[i] in a;
    assert forall i :: 0 <= i < |b| ==> b[i] in b;
    forall ms | SameEnd(next, ms, a, b)
      ensures ListOk(next[a[|a| - 1] := b[0] as int], ms[0], ms + b)
    {
      ListGoesOn(next, ms, a, b);
    }
  }

  /** The list ms ends with the same document as a and has none of b. */
  ghost predicate SameEnd(next: seq<int>, ms: seq<nat>, a: seq<nat>, b: seq<nat>)
    requires |a| > 0
  {
    && |ms| > 0 && ListOk(next, ms[0], ms) && NoDup(ms) && ms[|ms| - 1] == a[|a| - 1]
    && forall d: nat :: !(d in ms && d in b)
  }

  lemma ListGoesOn(next: seq<int>, ms: seq<nat>, a: seq<nat>, b: seq<nat>)
    requires |a| > 0 && |b| > 0 && SameEnd(next, ms, a, b) && ListOk(next, b[0], b) && NoDup(b)
    ensures ListOk(next[a[|a| - 1] := b[0] as int], ms[0], ms + b)
  {
    var next' := next[a[|a| - 1] := b[0] as int];
    assert forall i :: 0 <= i < |ms| ==> ms[i] in ms;
    assert forall i :: 0 <= i < |b| ==> b[i] in b;
    forall i | 0 <= i < |ms + b| - 1
      ensures next'[(ms + b)[i]] == (ms + b)[i + 1]
    {
      if i < |ms| - 1 {
        assert next[ms[i]] == ms[i + 1];
      } else if i >= |ms| {
        assert next[b[i - |ms|]] == b[i - |ms| + 1];
      }
    }
  }

  lemma MergedLists(f: Forest, k: Corpus, x: nat, y: nat, l: nat, r: nat)
    requires Mergeable(f, k, x, y, l, r)
    ensures Merged(f, x, y, l, r).Shape() && Merged(f, x, y, l, r).ListsOk(k)
  {
    MergedShape(f, k, x, y, l, r);
    var f' := Merged(f, x, y, l, r);
    forall c | 0 <= c < |f'.clusters|
      ensures f'.ClusterOk(k, c)
    {
      if c < |f.clusters| {
        MergedKeepsCluster(f, k, x, y, l, r, c);
      } else {
        MergedNewCluster(f, k, x, y, l, r);
      }
    }
  }

  lemma MergedTree(f: Forest, k: Corpus, x: nat, y: nat, l: nat, r: nat)
    requires Mergeable(f, k, x, y, l, r)
    ensures Merged(f, x, y, l, r).Shape() && Merged(f, x, y, l, r).TreeOk()
  {
    MergedShape(f, k, x, y, l, r);
    forall c | 0 <= c < |f.clusters| + 1
      ensures Merged(f, x, y, l, r).NodeOk(c) && Merged(f, x, y, l, r).ParentOk(c)
    {
      MergedNode(f, k, x, y, l, r, c);
      MergedParent(f, k, x, y, l, r, c);
    }
  }

  lemma MergedNode(f: Forest, k: Corpus, x: nat, y: nat, l: nat, r: nat, c: nat)
    requires Mergeable(f, k, x, y, l, r) && c <= |f.clusters|
    ensures Merged(f, x, y, l, r).Shape() && Merged(f, x, y, l, r).NodeOk(c)
  {
    MergedShape(f, k, x, y, l, r);
    if c < |f.clusters| {
      assert f.NodeOk(c);
    }
  }

  lemma MergedParent(f: Forest, k: Corpus, x: nat, y: nat, l: nat, r: nat, c: nat)
    requires Mergeable(f, k, x, y, l, r) && c <= |f.clusters|
    ensures Merged(f, x, y, l, r).Shape() && Merged(f, x, y, l, r).ParentOk(c)
  {
    MergedShape(f, k, x, y, l, r);
    if c < |f.clusters| {
      assert f.ParentOk(c);
    }
  }

  /** Merging does not change what was open earlier. */
  lemma MergedOpenAt(f: Forest, k: Corpus, x: nat, y: nat, l: nat, r: nat, c: int, t: int)
    requires Mergeable(f, k, x, y, l, r) && t <= |f.clusters|
    ensures Merged(f, x, y, l, r).Shape() && (Merged(f, x, y, l, r).OpenAt(c, t) <==> f.OpenAt(c, t))
  {
    MergedShape(f, k, x, y, l, r);
  }

  /** What is open after the merge. */
  lemma MergedOpen(f: Forest, k: Corpus, x: nat, y: nat, l: nat, r: nat, c: int)
    requires Mergeable(f, k, x, y, l, r)
    ensures Merged(f, x, y, l, r).Shape()
    ensures Merged(f, x, y, l, r).OpenAt(c, |f.clusters| + 1) <==>
            c == |f.clusters| || (f.OpenAt(c, |f.clusters|) && c != l && c != r)
  {
    MergedShape(f, k, x, y, l, r);
    assert f.OpenAt(l, |f.clusters|) && f.OpenAt(r, |f.clusters|);
    if 0 <= c < |f.clusters| {
      assert f.NodeOk(c) && f.ParentOk(c);
    }
  }

  lemma MergedPartition(f: Forest, k: Corpus, x: nat, y: nat, l: nat, r: nat)
    requires Mergeable(f, k, x, y, l, r)
    ensures Merged(f, x, y, l, r).Shape() && Merged(f, x, y, l, r).PartitionAt(|f.clusters| + 1)
  {
    MergedShape(f, k, x, y, l, r);
    var f', z := Merged(f, x, y, l, r), |f.clusters|;
    assert f.OpenAt(l, z) && f.OpenAt(r, z);
    forall c
      ensures f'.OpenAt(c, z + 1) <==> c == z || (f.OpenAt(c, z) && c != l && c != r)
    {
      MergedOpen(f, k, x, y, l, r, c);
    }
    assert forall d: nat :: f'.HasDoc(z, d) <==> f.HasDoc(l, d) || f.HasDoc(r, d);
    hide Forest.SlotsOk, Forest.ListsOk, Forest.TreeOk, Forest.GreedyAt, Forest.ClusterOk;
    forall d {:trigger f'.CoveredAt(z + 1, d)} | 0 <= d < |f'.next|
      ensures f'.CoveredAt(z + 1, d)
    {
      assert f.CoveredAt(z, d);
      var c :| f.OpenAt(c, z) && f.HasDoc(c, d);
      var c' := if c == l || c == r then z else c;
      assert f'.OpenAt(c', z + 1) && f'.HasDoc(c', d);
    }
    forall a, b, d: nat | f'.OpenAt(a, z + 1) && f'.OpenAt(b, z + 1) && f'.HasDoc(a, d) && f'.HasDoc(b, d)
      ensures a == b
    {
      var a' := if a != z then a else if f.HasDoc(l, d) then l else r;
      var b' := if b != z then b else if f.HasDoc(l, d) then l else r;
      assert f.OpenAt(a', z) && f.OpenAt(b', z) && f.HasDoc(a', d) && f.HasDoc(b', d);
    }
  }

  lemma MergedGreedy(f: Forest, k: Corpus, x: nat, y: nat, l: nat, r: nat, c: nat)
    requires Mergeable(f, k, x, y, l, r) && |f.next| <= c <= |f.clusters|
    requires forall a, b :: f.OpenAt(a, |f.clusters|) && f.OpenAt(b, |f.clusters|) && a != b ==>
               f.PairGain(k, a, b) <= f.PairGain(k, l, r)
    ensures var f' := Merged(f, x, y, l, r);
            f'.Shape() && f'.ListsOk(k) && f'.TreeOk() && f'.GreedyAt(k, c)
  {
    MergedLists(f, k, x, y, l, r);
    MergedTree(f, k, x, y, l, r);
    var f' := Merged(f, x, y, l, r);
    BestBefore(f, k, l, r, c);
    SameMerge(f, k, x, y, l, r, c);
    forall a, b | f'.OpenAt(a, c) && f'.OpenAt(b, c) && a != b
      ensures f'.PairGain(k, a, b) <= f'.MergedGain(k, c)
    {
      MergedOpenAt(f, k, x, y, l, r, a, c);
      MergedOpenAt(f, k, x, y, l, r, b, c);
      SameGain(f, k, x, y, l, r, a, b);
    }
  }

  /** The gain of the merge into c, which may be the one to come. */
  ghost function GainAt(f: Forest, k: Corpus, l: nat, r: nat, c: nat): real
    requires f.Ok(k) && |f.next| <= c <= |f.clusters| && l < |f.clusters| && r < |f.clusters|
  {
    if c < |f.clusters| then f.MergedGain(k, c) else f.PairGain(k, l, r)
  }

  lemma BestBefore(f: Forest, k: Corpus, l: nat, r: nat, c: nat)
    requires f.Ok(k) && |f.next| <= c <= |f.clusters| && l < |f.clusters| && r < |f.clusters|
    requires forall a, b :: f.OpenAt(a, |f.clusters|) && f.OpenAt(b, |f.clusters|) && a != b ==>
               f.PairGain(k, a, b) <= f.PairGain(k, l, r)
    ensures forall a, b :: f.OpenAt(a, c) && f.OpenAt(b, c) && a != b ==> f.PairGain(k, a, b) <= GainAt(f, k, l, r, c)
  {
    assert c < |f.clusters| ==> f.GreedyAt(k, c);
    hide Forest.Ok, Forest.PairGain, Forest.MergedGain;
  }

  lemma SameGain(f: Forest, k: Corpus, x: nat, y: nat, l: nat, r: nat, a: nat, b: nat)
    requires Mergeable(f, k, x, y, l, r) && a < |f.clusters| && b < |f.clusters|
    requires Merged(f, x, y, l, r).Shape() && Merged(f, x, y, l, r).ListsOk(k)
    ensures Merged(f, x, y, l, r).PairGain(k, a, b) == f.PairGain(k, a, b)
  {
  }

  lemma SameMerge(f: Forest, k: Corpus, x: nat, y: nat, l: nat, r: nat, c: nat)
    requires Mergeable(f, k, x, y, l, r) && |f.next| <= c <= |f.clusters|
    requires Merged(f, x, y, l, r).Shape() && Merged(f, x, y, l, r).ListsOk(k) && Merged(f, x, y, l, r).TreeOk()
    ensures Merged(f, x, y, l, r).MergedGain(k, c) == GainAt(f, k, l, r, c)
  {
    if c < |f.clusters| {
      assert f.NodeOk(c);
    }
  }

  /** Merging two open clusters of greatest gain keeps everything. */
  lemma MergedOk(f: Forest, k: Corpus, x: nat, y: nat, l: nat, r: nat)
    requires Mergeable(f, k, x, y, l, r)
    requires forall a, b :: f.OpenAt(a, |f.clusters|) && f.OpenAt(b, |f.clusters|) && a != b ==>
               f.PairGain(k, a, b) <= f.PairGain(k, l, r)
    ensures Merged(f, x, y, l, r).Ok(k)
  {
    MergedShape(f, k, x, y, l, r);
    MergedLists(f, k, x, y, l, r);
    MergedTree(f, k, x, y, l, r);
    MergedPartition(f, k, x, y, l, r);
    forall c | |f.next| <= c <= |f.clusters|
      ensures Merged(f, x, y, l, r).GreedyAt(k, c)
    {
      MergedGreedy(f, k, x, y, l, r, c);
    }
  }

  // ------------------------------------------------------------------ the order of the lists

  lemma LeavesListed(f: Forest, w: seq<real>)
    requires f.Shape() && |f.clusters| == |f.next| == |w|
    requires forall j :: 0 <= j < |w| ==>
      var c := f.clusters[j];
      f.members[j] == [j] && c.ndocs == 1 && c.weight == w[j] && c.midx == j
    ensures f.Listed(w)
  {
    forall c | 0 <= c < |f.clusters|
      ensures f.WeightOk(w, c) && f.LeastOk(c)
    {
      assert f.members[c][0] == c && [c][..0] == [] && WeightSum(w, [c][..0]) == 0.0;
    }
  }

  /** merge puts the heavier list first, and that of x when they are equally heavy. */
  ghost predicate Chosen(f: Forest, x: nat, y: nat, l: nat, r: nat)
    requires f.Shape() && x < |f.clusters| && y < |f.clusters|
    requires f.clusters[x].ndocs > 0 && f.clusters[y].ndocs > 0
  {
    var u := f.clusters[x].weight / f.clusters[x].ndocs as real;
    var v := f.clusters[y].weight / f.clusters[y].ndocs as real;
    if u < v then l == y && r == x else l == x && r == y
  }

  /** The record of the new cluster. */
  lemma MergedNewFields(f: Forest, k: Corpus, x: nat, y: nat, l: nat, r: nat)
    requires Mergeable(f, k, x, y, l, r)
    ensures var f', z := Merged(f, x, y, l, r), |f.clusters|;
            && f'.Shape() && |f'.clusters| == z + 1 && |f'.next| == |f.next|
            && x < z && y < z && ((l == x && r == y) || (l == y && r == x))
            && f'.members[z] == f.members[l] + f.members[r] && f'.parent[z] == -1
            && f'.clusters[z].left == l && f'.clusters[z].right == r
            && f'.clusters[z].ndocs == f.clusters[x].ndocs + f.clusters[y].ndocs
            && f'.clusters[z].weight == f.clusters[x].weight + f.clusters[y].weight
            && f'.clusters[z].midx == f.clusters[x].midx && f.parent[x] == f.parent[y] == -1
  {
    MergedShape(f, k, x, y, l, r);
  }

  lemma MergedNewWeight(f: Forest, k: Corpus, w: seq<real>, x: nat, y: nat, l: nat, r: nat)
    requires Mergeable(f, k, x, y, l, r) && f.Listed(w)
    ensures Merged(f, x, y, l, r).Shape() && Merged(f, x, y, l, r).WeightOk(w, |f.clusters|)
  {
    MergedNewFields(f, k, x, y, l, r);
    assert f.WeightOk(w, x) && f.WeightOk(w, y);
    hide Mergeable, Merged, Forest.Listed, WeightSum, Weighs;
    WeighsBoth(w, f.members[x], f.clusters[x], f.members[y], f.clusters[y],
               Merged(f, x, y, l, r).clusters[|f.clusters|]);
  }

  lemma MergedNewLeast(f: Forest, k: Corpus, w: seq<real>, x: nat, y: nat, l: nat, r: nat)
    requires Mergeable(f, k, x, y, l, r) && f.Listed(w) && f.clusters[x].midx < f.clusters[y].midx
    ensures Merged(f, x, y, l, r).Shape() && Merged(f, x, y, l, r).LeastOk(|f.clusters|)
  {
    MergedNewFields(f, k, x, y, l, r);
    assert f.LeastOk(x) && f.LeastOk(y);
    hide Mergeable, Merged, Forest.Listed, IsLeast;
    LeastOfBoth(f.clusters[x].midx, f.members[x], f.clusters[y].midx, f.members[y]);
  }

  lemma MergedNewOrder(f: Forest, k: Corpus, w: seq<real>, x: nat, y: nat, l: nat, r: nat)
    requires Mergeable(f, k, x, y, l, r) && f.Listed(w) && f.clusters[x].midx < f.clusters[y].midx
    requires f.clusters[x].ndocs > 0 && f.clusters[y].ndocs > 0 && Chosen(f, x, y, l, r)
    requires var f' := Merged(f, x, y, l, r); f'.Shape() && forall c :: 0 <= c < |f'.clusters| ==> f'.WeightOk(w, c)
    ensures |Merged(f, x, y, l, r).next| == |w| && Merged(f, x, y, l, r).OrderOk(w, |f.clusters|)
  {
    MergedNewFields(f, k, x, y, l, r);
    MergedFields(f, k, x, y, l, r, x);
    MergedFields(f, k, x, y, l, r, y);
    hide Mergeable, Merged, IsLeast;
    var f', z := Merged(f, x, y, l, r), |f.clusters|;
    assert f.WeightOk(w, x) && f.WeightOk(w, y) && f.LeastOk(x) && f.LeastOk(y);
    assert f'.WeightOk(w, x) && f'.WeightOk(w, y);
    LeastOfBoth(f.clusters[x].midx, f.members[x], f.clusters[y].midx, f.members[y]);
  }

  lemma MergedOldOrder(f: Forest, k: Corpus, w: seq<real>, x: nat, y: nat, l: nat, r: nat, c: nat)
    requires Mergeable(f, k, x, y, l, r) && f.Listed(w) && |f.next| <= c < |f.clusters|
    requires var f' := Merged(f, x, y, l, r); f'.Shape() && forall c :: 0 <= c < |f'.clusters| ==> f'.WeightOk(w, c)
    ensures |Merged(f, x, y, l, r).next| == |w| && Merged(f, x, y, l, r).OrderOk(w, c)
  {
    MergedNewFields(f, k, x, y, l, r);
    MergedFields(f, k, x, y, l, r, c);
    assert f.OrderOk(w, c);
    var a, b := f.clusters[c].left, f.clusters[c].right;
    MergedFields(f, k, x, y, l, r, a);
    MergedFields(f, k, x, y, l, r, b);
    hide Mergeable, Merged, IsLeast;
    var f' := Merged(f, x, y, l, r);
    assert f'.WeightOk(w, a) && f'.WeightOk(w, b);
  }

  lemma LeastOfBoth(m: int, a: seq<nat>, n: int, b: seq<nat>)
    requires IsLeast(m, a) && IsLeast(n, b) && m < n
    ensures IsLeast(m, a + b) && IsLeast(m, b + a)
    ensures exists i :: 0 <= i < |a| && forall j :: 0 <= j < |b| ==> a[i] < b[j]
  {
    var i :| 0 <= i < |a| && a[i] == m;
    assert (a + b)[i] == m && (b + a)[|b| + i] == m;
  }

  lemma MergedOldListed(f: Forest, k: Corpus, w: seq<real>, x: nat, y: nat, l: nat, r: nat, c: nat)
    requires Mergeable(f, k, x, y, l, r) && f.Listed(w) && c < |f.clusters|
    ensures var f' := Merged(f, x, y, l, r); f'.Shape() && f'.WeightOk(w, c) && f'.LeastOk(c)
  {
    MergedShape(f, k, x, y, l, r);
    MergedFields(f, k, x, y, l, r, c);
    assert f.WeightOk(w, c) && f.LeastOk(c);
  }

  /** A merge in the order chosen keeps weights, slots and the order of the lists. */
  lemma MergedListed(f: Forest, k: Corpus, w: seq<real>, x: nat, y: nat, l: nat, r: nat)
    requires Mergeable(f, k, x, y, l, r) && f.Listed(w) && f.clusters[x].midx < f.clusters[y].midx
    requires f.clusters[x].ndocs > 0 && f.clusters[y].ndocs > 0 && Chosen(f, x, y, l, r)
    ensures Merged(f, x, y, l, r).Listed(w)
  {
    MergedNewFields(f, k, x, y, l, r);
    hide Mergeable, Merged, Chosen;
    var f', z := Merged(f, x, y, l, r), |f.clusters|;
    forall c | 0 <= c <= z
      ensures f'.WeightOk(w, c) && f'.LeastOk(c)
    {
      if c < z {
        MergedOldListed(f, k, w, x, y, l, r, c);
      } else {
        MergedNewWeight(f, k, w, x, y, l, r);
        MergedNewLeast(f, k, w, x, y, l, r);
      }
    }
    forall c | |f.next| <= c <= z
      ensures f'.OrderOk(w, c)
    {
      if c < z {
        MergedOldOrder(f, k, w, x, y, l, r, c);
      } else {
        MergedNewOrder(f, k, w, x, y, l, r);
      }
    }
  }

  // ------------------------------------------------------------------ counting open clusters

  ghost function Open(f: Forest, t: int): set<int>
    requires f.Shape()
  {
    set c | 0 <= c < |f.clusters| && f.OpenAt(c, t)
  }

  /** From one merge to the next the open clusters lose the two merged ones. */
  lemma OpenStep(f: Forest, k: Corpus, t: nat)
    requires f.Ok(k) && |f.next| <= t < |f.clusters|
    ensures var l, r := f.clusters[t].left, f.clusters[t].right;
            && f.OpenAt(l, t) && f.OpenAt(r, t) && l != r
            && Open(f, t + 1) == Open(f, t) - {l, r} + {t as int}
  {
    var l, r := f.clusters[t].left, f.clusters[t].right;
    assert f.NodeOk(t) && f.ParentOk(t);
    forall c | 0 <= c < t
      ensures f.OpenAt(c, t + 1) <==> f.OpenAt(c, t) && c != l && c != r
    {
      assert f.NodeOk(c) && f.ParentOk(c);
    }
    assert Open(f, t + 1) == Open(f, t) - {l, r} + {t as int};
  }

  ghost function Range(n: nat): (s: set<int>)
    ensures |s| == n && forall c :: c in s <==> 0 <= c < n
  {
    if n == 0 then {} else Range(n - 1) + {n - 1}
  }

  /** Before cluster t comes into being, 2N - t clusters are open. */
  lemma {:induction false} OpenCount(f: Forest, k: Corpus, t: nat)
    requires f.Ok(k) && |f.next| <= t <= |f.clusters|
    ensures |Open(f, t)| == 2 * |f.next| - t
    decreases t
  {
    if t == |f.next| {
      LeavesOpen(f, k);
    } else {
      OpenCount(f, k, t - 1);
      OpenStep(f, k, t - 1);
      var l, r := f.clusters[t - 1].left, f.clusters[t - 1].right;
      OneLess(Open(f, t - 1), l, r, t - 1);
    }
  }

  lemma LeavesOpen(f: Forest, k: Corpus)
    requires f.Ok(k)
    ensures |Open(f, |f.next|)| == |f.next|
  {
    var n := |f.next|;
    forall c | 0 <= c < n
      ensures f.OpenAt(c, n)
    {
      assert f.ParentOk(c) && f.NodeOk(c);
    }
    assert Open(f, n) == Range(n);
  }

  lemma OneLess(s: set<int>, l: int, r: int, t: int)
    requires l in s && r in s && l != r && t !in s
    ensures |s - {l, r} + {t}| == |s| - 1
  {
    assert |{l, r}| == 2;
    assert |s - {l, r}| == |s| - 2;
  }

  /** While merges remain there are two different live slots. */
  lemma TwoLiveSlots(f: Forest, k: Corpus) returns (m: nat, n: nat)
    requires f.Ok(k) && |f.clusters| < 2 * |f.next| - 1
    ensures m < n < |f.next| && f.IsLive(m) && f.IsLive(n)
  {
    OpenCount(f, k, |f.clusters|);
    var s := Open(f, |f.clusters|);
    assert s != {};
    var a :| a in s;
    assert |s - {a}| == |s| - 1;
    assert s - {a} != {};
    var b :| b in s - {a};
    assert f.ParentOk(a) && f.ParentOk(b) && f.SlotOk(a) && f.SlotOk(b);
    m, n := f.clusters[a].midx, f.clusters[b].midx;
    if n < m {
      m, n := n, m;
    }
  }

  /** The slots of live clusters, the other way round. */
  lemma LiveIsOpen(f: Forest, k: Corpus, m: nat)
    requires f.Ok(k) && f.IsLive(m)
    ensures f.xdim[m] < |f.clusters| && f.OpenAt(f.xdim[m], |f.clusters|) && f.parent[f.xdim[m]] == -1
    ensures f.clusters[f.xdim[m]].midx == m && f.ClusterOk(k, f.xdim[m])
  {
    assert f.SlotOk(f.xdim[m]);
  }

  lemma OpenIsLive(f: Forest, k: Corpus, c: int)
    requires f.Ok(k) && f.OpenAt(c, |f.clusters|)
    ensures f.parent[c] == -1 && f.IsLive(f.clusters[c].midx) && f.xdim[f.clusters[c].midx] == c
  {
    assert f.NodeOk(c) && f.ParentOk(c) && f.SlotOk(c);
  }

  lemma PairGainSymmetric(f: Forest, k: Corpus, a: nat, b: nat)
    requires f.Ok(k) && a < |f.clusters| && b < |f.clusters|
    ensures f.PairGain(k, a, b) == f.PairGain(k, b, a)
  {
    assert f.ClusterOk(k, a) && f.ClusterOk(k, b);
    k.GainSymmetric(f.members[a], f.members[b]);
  }
}
