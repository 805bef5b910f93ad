/** Cutting the merge tree of ncs.c into a requested number of clusters (mk_cslist, ejedoc)
    and reading the documents back out of the shared lists. */
module Dendrogram {
  import opened NcsScore
  import opened NcsForest
  import opened Ncs

  /** From a merge back to the moment before it, the open clusters still partition. */
  lemma PartitionDown(f: Forest, k: Corpus, t: nat)
    requires f.Ok(k) && |f.next| <= t < |f.clusters| && f.PartitionAt(t + 1)
    ensures f.PartitionAt(t)
  {
    OpenStep(f, k, t);
    var l, r := f.clusters[t].left, f.clusters[t].right;
    assert f.NodeOk(t);
    assert forall d: nat :: f.HasDoc(t, d) <==> f.HasDoc(l, d) || f.HasDoc(r, d);
    forall c
      ensures f.OpenAt(c, t + 1) <==> c == t || (f.OpenAt(c, t) && c != l && c != r)
    {
      assert c in Open(f, t + 1) <==> f.OpenAt(c, t + 1);
      assert c in Open(f, t) <==> f.OpenAt(c, t);
    }
    forall d {:trigger f.CoveredAt(t, d)} | 0 <= d < |f.next|
      ensures f.CoveredAt(t, d)
    {
      assert f.CoveredAt(t + 1, d);
      var c :| f.OpenAt(c, t + 1) && f.HasDoc(c, d);
      var c' := if c != t then c else if f.HasDoc(l, d) then l else r;
      assert f.OpenAt(c', t) && f.HasDoc(c', d);
    }
    forall a, b, d: nat | f.OpenAt(a, t) && f.OpenAt(b, t) && f.HasDoc(a, d) && f.HasDoc(b, d)
      ensures a == b
    {
      SplitDisjoint(f, k, t, a, b, d);
    }
  }

  lemma SplitDisjoint(f: Forest, k: Corpus, t: nat, a: int, b: int, d: nat)
    requires f.Ok(k) && |f.next| <= t < |f.clusters| && f.PartitionAt(t + 1)
    requires f.OpenAt(a, t) && f.OpenAt(b, t) && f.HasDoc(a, d) && f.HasDoc(b, d)
    ensures a == b
  {
    OpenStep(f, k, t);
    var l, r := f.clusters[t].left, f.clusters[t].right;
    assert f.NodeOk(t) && f.ClusterOk(k, t);
    assert a in Open(f, t) && b in Open(f, t);
    var a' := if a == l || a == r then t else a;
    var b' := if b == l || b == r then t else b;
    assert a' in Open(f, t + 1) && b' in Open(f, t + 1);
    assert f.HasDoc(a', d) && f.HasDoc(b', d);
    assert a' == b';
    if a != b {
      SharedMakesDup(f.members[l], f.members[r], d);
      assert false;
    }
  }

  lemma SharedMakesDup(x: seq<nat>, y: seq<nat>, d: nat)
    requires d in x && d in y
    ensures !NoDup(x + y)
  {
    var i :| 0 <= i < |x| && x[i] == d;
    var j :| 0 <= j < |y| && y[j] == d;
    assert (x + y)[i] == (x + y)[|x| + j];
  }

  lemma {:induction false} PartitionBefore(f: Forest, k: Corpus, t: nat)
    requires f.Ok(k) && |f.next| <= t <= |f.clusters|
    ensures f.PartitionAt(t)
    decreases |f.clusters| - t
  {
    if t < |f.clusters| {
      PartitionBefore(f, k, t + 1);
      PartitionDown(f, k, t);
    }
  }

  /** Cluster a was made, in one or more merges, out of cluster b. */
  ghost predicate Ancestor(f: Forest, a: int, b: int)
    requires f.Shape()
    decreases |f.clusters| - b
  {
    0 <= b < |f.clusters| && b < f.parent[b] && (a == f.parent[b] || Ancestor(f, a, f.parent[b]))
  }

  lemma {:induction false} AncestorsAreLater(f: Forest, a: int, b: int)
    requires f.Shape() && Ancestor(f, a, b)
    ensures 0 <= b && a >= f.parent[b]
    decreases |f.clusters| - b
  {
    if a != f.parent[b] {
      AncestorsAreLater(f, a, f.parent[b]);
    }
  }

  ghost function Elems(s: seq<int>): (t: set<int>)
    ensures forall c :: c in t <==> c in s
  {
    if |s| == 0 then {} else Elems(s[..|s| - 1]) + {s[|s| - 1]}
  }

  lemma {:induction false} NoDupSize(s: seq<nat>)
    requires NoDup(s)
    ensures |Elems(s)| == |s|
  {
    if |s| > 0 {
      NoDupSize(s[..|s| - 1]);
    }
  }

  ghost predicate InSome(f: Forest, cc: seq<nat>, d: nat)
    requires f.Shape()
  {
    exists i :: 0 <= i < |cc| && f.HasDoc(cc[i], d)
  }

  /** The clusters are a cut of the tree: none above another, and every document is in
      exactly one of them. */
  ghost predicate IsCut(f: Forest, cc: seq<nat>)
    requires f.Shape()
  {
    && NoDup(cc)
    && (forall i :: 0 <= i < |cc| ==> cc[i] < |f.clusters|)
    && (forall i, j :: 0 <= i < |cc| && 0 <= j < |cc| ==> !Ancestor(f, cc[i], cc[j]))
    && (forall d :: 0 <= d < |f.next| ==> InSome(f, cc, d))
    && (forall i, j, d: nat :: 0 <= i < |cc| && 0 <= j < |cc| && f.HasDoc(cc[i], d) && f.HasDoc(cc[j], d) ==> i == j)
  }

  /** The clusters open at a point of the run are a cut, one for each missing merge. */
  lemma OpenIsCut(f: Forest, k: Corpus, cc: seq<nat>, t: nat)
    requires f.Ok(k) && |f.next| <= t <= |f.clusters| && NoDup(cc)
    requires forall c: nat :: c in cc <==> f.OpenAt(c, t)
    ensures IsCut(f, cc) && |cc| == 2 * |f.next| - t
  {
    PartitionBefore(f, k, t);
    OpenCount(f, k, t);
    NoDupSize(cc);
    forall c: int
      ensures c in Open(f, t) <==> c in Elems(cc)
    {
      if c in Open(f, t) {
        assert f.OpenAt(c, t) && (c as nat) in cc;
      }
    }
    assert Open(f, t) == Elems(cc);
    assert forall i :: 0 <= i < |cc| ==> cc[i] in cc;
    forall i, j | 0 <= i < |cc| && 0 <= j < |cc|
      ensures !Ancestor(f, cc[i], cc[j])
    {
      assert f.OpenAt(cc[i], t) && f.OpenAt(cc[j], t);
      if Ancestor(f, cc[i], cc[j]) {
        AncestorsAreLater(f, cc[i], cc[j]);
        assert false;
      }
    }
    forall d | 0 <= d < |f.next|
      ensures InSome(f, cc, d)
    {
      assert f.CoveredAt(t, d);
      var c :| f.OpenAt(c, t) && f.HasDoc(c, d);
      var i :| 0 <= i < |cc| && cc[i] == c;
    }
  }

  /** The marking and collecting loops of mk_cslist. */
  method Cut(g: Csg, cno: nat) returns (cc: seq<nat>)
    requires g.Valid() && |g.clusters| == 2 * g.N - 1 && 2 <= cno <= g.N
    ensures |cc| == cno && IsCut(g.F(), cc)
    ensures forall c: nat :: c in cc <==> g.F().OpenAt(c, 2 * g.N - cno)
  {
    var ks := seq(2 * g.N - 1, _ => 0);
    var i, step := 0, 2 * g.N - 2;
    while i + 1 < cno
      invariant 0 <= i < cno && step == 2 * g.N - 2 - i && |ks| == 2 * g.N - 1
      invariant forall c :: 0 <= c < |ks| ==> ks[c] == if c > step then -1 else 0
    {
      ks := ks[step := -1];
      i, step := i + 1, step - 1;
    }
    ghost var f, t := g.F(), step + 1;
    cc := [];
    i, step := 0, 2 * g.N - 2;
    while i + 1 < cno
      invariant 0 <= i < cno && step == 2 * g.N - 2 - i
      invariant NoDup(cc)
      invariant forall c: nat :: c in cc <==>
                  c < t && !f.OpenAt(c, |f.clusters|) && f.OpenAt(c, t) && f.parent[c] > step
    {
      CollectStep(f, g.k, cc, t, step);
      var c := g.clusters[step];
      if ks[c.left] != -1 {
        cc := cc + [c.left];
      }
      if ks[c.right] != -1 {
        cc := cc + [c.right];
      }
      i, step := i + 1, step - 1;
    }
    OnlyRootOpen(f, g.k, t);
    forall c: nat
      ensures c in cc <==> f.OpenAt(c, t)
    {
      assert f.OpenAt(c, t) ==> c < t && !f.OpenAt(c, |f.clusters|);
    }
    OpenIsCut(f, g.k, cc, t);
  }

  /** One node's children: both are later merged nowhere else. */
  lemma CollectStep(f: Forest, k: Corpus, cc: seq<nat>, t: nat, step: nat)
    requires f.Ok(k) && |f.next| <= t <= step < |f.clusters|
    requires forall c: nat :: c in cc <==> c < t && !f.OpenAt(c, |f.clusters|) && f.OpenAt(c, t) && f.parent[c] > step
    ensures var l, r := f.clusters[step].left, f.clusters[step].right;
            && 0 <= l < step && 0 <= r < step && l != r && l !in cc && r !in cc
            && forall c: nat :: c < t && !f.OpenAt(c, |f.clusters|) && f.OpenAt(c, t) && f.parent[c] > step - 1 <==>
                                c in cc || (c < t && (c == l || c == r))
  {
    assert f.NodeOk(step);
    forall c: nat | c < t
      ensures f.parent[c] == step <==> c == f.clusters[step].left || c == f.clusters[step].right
    {
      assert f.ParentOk(c);
    }
  }

  /** After the last merge only the root is open, and it is behind every cut. */
  lemma OnlyRootOpen(f: Forest, k: Corpus, t: nat)
    requires f.Ok(k) && |f.clusters| == 2 * |f.next| - 1 && t < |f.clusters|
    ensures forall c: nat :: c < t ==> !f.OpenAt(c, |f.clusters|)
  {
    var n := |f.clusters|;
    OpenCount(f, k, n);
    var root := n - 1;
    assert f.ParentOk(root) && f.NodeOk(root);
    assert f.OpenAt(root, n);
    assert |Open(f, n) - {root as int}| == 0;
    forall c: nat | c < t
      ensures !f.OpenAt(c, n)
    {
      assert c as int !in Open(f, n) - {root as int};
    }
  }

  /** ejedoc reads exactly the documents of a cluster, although its list may go on. */
  method Ejedoc(g: Csg, c: nat) returns (r: seq<nat>)
    requires g.Valid() && c < |g.clusters|
    ensures r == g.members[c]
  {
    ghost var ms := g.members[c];
    assert g.F().ClusterOk(g.k, c);
    r := [];
    var d := g.clusters[c].doclist;
    var j := 0;
    while j < g.clusters[c].ndocs
      invariant 0 <= j <= |ms| && (j < |ms| ==> d == ms[j]) && r == ms[..j]
    {
      r := r + [d];
      d := g.next[d];
      j := j + 1;
    }
  }

  /** The groups split the documents 0 .. n - 1 among them. */
  ghost predicate SplitsDocs(ce: seq<seq<nat>>, n: nat) {
    && (forall i :: 0 <= i < |ce| ==> |ce[i]| > 0 && NoDup(ce[i]))
    && (forall d: nat :: d < n <==> InGroup(ce, d))
    && (forall i, j, d :: 0 <= i < |ce| && 0 <= j < |ce| && d in ce[i] && d in ce[j] ==> i == j)
  }

  ghost predicate InGroup(ce: seq<seq<nat>>, d: nat) {
    exists i :: 0 <= i < |ce| && d in ce[i]
  }

  /** The groups are the documents of the clusters of a cut. */
  ghost predicate AreGroups(f: Forest, cc: seq<nat>, ce: seq<seq<nat>>) {
    && f.Shape() && IsCut(f, cc) && |ce| == |cc|
    && forall i :: 0 <= i < |ce| ==> ce[i] == f.members[cc[i]]
  }

  /** mk_cslist without the final sort: the documents of the requested number of clusters. */
  method MkCslist(g: Csg, cno: nat) returns (ce: seq<seq<nat>>, ghost cc: seq<nat>)
    requires g.Valid() && |g.clusters| == 2 * g.N - 1 && 2 <= cno <= g.N
    ensures |ce| == cno && SplitsDocs(ce, g.N)
    ensures AreGroups(g.F(), cc, ce) && forall c: nat :: c in cc <==> g.F().OpenAt(c, 2 * g.N - cno)
  {
    var cs := Cut(g, cno);
    cc := cs;
    ce := [];
    for i := 0 to cno
      invariant |ce| == i
      invariant forall j :: 0 <= j < i ==> ce[j] == g.members[cs[j]]
    {
      var r := Ejedoc(g, cs[i]);
      ce := ce + [r];
    }
    CutSplits(g.F(), g.k, cc, ce);
  }

  lemma CutSplits(f: Forest, k: Corpus, cc: seq<nat>, ce: seq<seq<nat>>)
    requires f.Ok(k) && IsCut(f, cc) && |ce| == |cc|
    requires forall j :: 0 <= j < |ce| ==> ce[j] == f.members[cc[j]]
    ensures SplitsDocs(ce, |f.next|)
  {
    forall i | 0 <= i < |ce|
      ensures |ce[i]| > 0 && NoDup(ce[i]) && forall d :: d in ce[i] ==> d < |f.next|
    {
      assert f.ClusterOk(k, cc[i]);
    }
    forall d: nat
      ensures d < |f.next| <==> InGroup(ce, d)
    {
      if d < |f.next| {
        assert InSome(f, cc, d);
        var i :| 0 <= i < |cc| && f.HasDoc(cc[i], d);
        assert d in ce[i];
      }
    }
    forall i, j, d | 0 <= i < |ce| && 0 <= j < |ce| && d in ce[i] && d in ce[j]
      ensures i == j
    {
      assert f.HasDoc(cc[i], d) && f.HasDoc(cc[j], d);
    }
  }

  /** Clustering from start to end (the CS_HBC case of ncsb): the groups are the clusters
      that were open before the last cno - 1 merges of a full run in which every merge had
      the greatest gain, and the documents of each are in the order of the weights. */
  method Cluster(corpus: Corpus, weights: seq<real>, cno: nat)
    returns (ce: seq<seq<nat>>, ghost f: Forest, ghost cc: seq<nat>)
    requires corpus.Valid() && 2 <= |corpus.freq| == |weights| && 2 <= cno <= |corpus.freq|
    ensures |ce| == cno && SplitsDocs(ce, |corpus.freq|)
    ensures f.Ok(corpus) && |f.clusters| == 2 * |f.next| - 1 && f.Listed(weights)
    ensures AreGroups(f, cc, ce) && forall c: nat :: c in cc <==> f.OpenAt(c, 2 * |f.next| - cno)
  {
    var g := new Csg(corpus, weights);
    g.Run();
    f := g.F();
    ce, cc := MkCslist(g, cno);
  }
}
