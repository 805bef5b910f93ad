/** The two directions of an index (nwam.c): rows are added with their pairs going to files
    (pass 2), the sorted files are merged into the columns (pass 3), and rows are deleted.
    The columns stay the transpose of the rows. */
module Nwam {
  import opened Common
  import opened KMerge
  import opened NwamVec
  import Nvmt
  import opened Priq

  /** struct xr_vec as stored in the data base. */
  datatype Vec = Vec(elems: seq<Elem>, sum: nat)

  type Xr = map<nat, Vec>

  /** struct rc_pair. */
  datatype Pair = Pair(c: nat, r: nat, tf: nat)

  ghost predicate XrOk(xr: Xr) {
    forall id :: id in xr ==> Canonical(xr[id].elems) && xr[id].sum == Total(xr[id].elems)
  }

  /** What the vector of a says about b. */
  function Cell(xr: Xr, a: nat, b: nat): nat {
    if a in xr then FreqOf(xr[a].elems, b) else 0
  }

  /** The columns say about the rows what the rows say about the columns. */
  ghost predicate Transposed(rows: Xr, cols: Xr) {
    forall r: nat, c: nat :: Cell(rows, r, c) == Cell(cols, c, r)
  }

  /** Two indexes with the same rows have the same columns, but for empty ones. */
  lemma ColumnsUnique(rows: Xr, cols: Xr, cols': Xr, c: nat)
    requires XrOk(cols) && XrOk(cols') && Transposed(rows, cols) && Transposed(rows, cols')
    requires c in cols
    ensures c in cols' ==> cols[c] == cols'[c]
    ensures c !in cols' ==> cols[c] == Vec([], 0)
  {
    forall r: nat
      ensures FreqOf(cols[c].elems, r) == Cell(cols', c, r)
    {
      assert Cell(rows, r, c) == Cell(cols, c, r) == Cell(cols', c, r);
    }
    if c in cols' {
      CanonicalUnique(cols[c].elems, cols'[c].elems);
    } else {
      CanonicalUnique(cols[c].elems, []);
    }
  }

  // ------------------------------------------------------------------ pairs

  function PairFreq(s: seq<Pair>, c: nat, r: nat): nat {
    if |s| == 0 then 0
    else
      var k := |s| - 1;
      PairFreq(s[..k], c, r) + if s[k].c == c && s[k].r == r then s[k].tf else 0
  }

  lemma {:induction false} PairAppend(s: seq<Pair>, t: seq<Pair>, c: nat, r: nat)
    ensures PairFreq(s + t, c, r) == PairFreq(s, c, r) + PairFreq(t, c, r)
    decreases |t|
  {
    if |t| == 0 {
      assert s + t == s;
    } else {
      assert (s + t)[..|s + t| - 1] == s + t[..|t| - 1];
      PairAppend(s, t[..|t| - 1], c, r);
    }
  }

  /** Sorting does not change what the pairs say. */
  lemma {:induction false} PairPermuted(s: seq<Pair>, t: seq<Pair>, c: nat, r: nat)
    requires multiset(s) == multiset(t)
    ensures PairFreq(s, c, r) == PairFreq(t, c, r)
  {
    if |s| == 0 {
      assert |multiset(t)| == 0;
    } else {
      var x := LastIn(s, t);
      assert t == t[..x] + ([t[x]] + t[x + 1..]);
      PairPermuted(s[..|s| - 1], t[..x] + t[x + 1..], c, r);
      PairAppend(t[..x], t[x + 1..], c, r);
      PairAppend(t[..x], [t[x]] + t[x + 1..], c, r);
      PairAppend([t[x]], t[x + 1..], c, r);
      assert PairFreq([t[x]], c, r) == if t[x].c == c && t[x].r == r then t[x].tf else 0;
    }
  }

  /** What has been read of the files. */
  function Taken(files: seq<seq<Pair>>, ep: seq<nat>, c: nat, r: nat): nat
    requires CursorsOk(files, ep)
  {
    if |files| == 0 then 0
    else
      var k := |files| - 1;
      Taken(files[..k], ep[..k], c, r) + PairFreq(files[k][..ep[k]], c, r)
  }

  /** What is in the files. */
  function InFiles(files: seq<seq<Pair>>, c: nat, r: nat): nat {
    if |files| == 0 then 0
    else
      var k := |files| - 1;
      InFiles(files[..k], c, r) + PairFreq(files[k], c, r)
  }

  lemma {:induction false} TakenStep(files: seq<seq<Pair>>, ep: seq<nat>, i: nat, c: nat, r: nat)
    requires CursorsOk(files, ep) && i < |files| && ep[i] < |files[i]|
    requires CursorsOk(files, ep[i := ep[i] + 1])
    ensures Taken(files, ep[i := ep[i] + 1], c, r) == Taken(files, ep, c, r)
            + if files[i][ep[i]].c == c && files[i][ep[i]].r == r then files[i][ep[i]].tf else 0
    decreases |files|
  {
    var k := |files| - 1;
    var ep' := ep[i := ep[i] + 1];
    if i < k {
      assert ep'[..k] == ep[..k][i := ep[i] + 1];
      TakenStep(files[..k], ep[..k], i, c, r);
    } else {
      assert ep'[..k] == ep[..k];
      assert files[k][..ep[k] + 1][..ep[k]] == files[k][..ep[k]];
    }
  }

  lemma {:induction false} TakenNone(files: seq<seq<Pair>>, ep: seq<nat>, c: nat, r: nat)
    requires CursorsOk(files, ep) && Rewound(ep)
    ensures Taken(files, ep, c, r) == 0
  {
    if |files| > 0 {
      TakenNone(files[..|files| - 1], ep[..|files| - 1], c, r);
    }
  }

  lemma {:induction false} TakenAll(files: seq<seq<Pair>>, ep: seq<nat>, c: nat, r: nat)
    requires CursorsOk(files, ep) && forall i :: 0 <= i < |files| ==> ep[i] == |files[i]|
    ensures Taken(files, ep, c, r) == InFiles(files, c, r)
  {
    if |files| > 0 {
      var k := |files| - 1;
      TakenAll(files[..k], ep[..k], c, r);
      assert files[k][..ep[k]] == files[k];
    }
  }

  // ------------------------------------------------------------------ the order of the pairs

  predicate Before(a: Pair, b: Pair) {
    a.c < b.c || (a.c == b.c && a.r <= b.r)
  }

  /** compar_ycompar. */
  function PairCompar(a: Head<Pair>, b: Head<Pair>): int {
    if a.item.c < b.item.c then -1
    else if a.item.c > b.item.c then 1
    else if a.item.r < b.item.r then -1
    else if a.item.r > b.item.r then 1
    else 0
  }

  lemma PairComparIsOrder()
    ensures TotalPreorder(PairCompar)
  {
    assert forall a, b :: Comparable(PairCompar, a, b);
    assert forall a, b, c :: Chained(PairCompar, a, b, c);
  }

  ghost predicate FileOk(f: seq<Pair>) {
    && (forall x :: 0 <= x < |f| ==> f[x].c > 0)
    && (forall x, y :: 0 <= x < y < |f| ==> Before(f[x], f[y]))
  }

  ghost predicate FilesOk(files: seq<seq<Pair>>) {
    forall i :: 0 <= i < |files| ==> FileOk(files[i])
  }

  /** Everything still to be read comes after p. */
  ghost predicate AllAfter(files: seq<seq<Pair>>, ep: seq<nat>, p: Pair)
    requires CursorsOk(files, ep)
  {
    forall i :: 0 <= i < |files| && ep[i] < |files[i]| ==> Before(p, files[i][ep[i]])
  }

  // ------------------------------------------------------------------ pass 3

  /** The columns, with the group being read for column g, have taken in what has been read. */
  ghost predicate Absorbed(cols0: Xr, cols: Xr, files: seq<seq<Pair>>, ep: seq<nat>, g: nat, group: seq<Elem>)
    requires CursorsOk(files, ep)
  {
    forall c: nat, r: nat :: HasTaken(cols0, cols, files, ep, g, group, c, r)
  }

  ghost predicate HasTaken(cols0: Xr, cols: Xr, files: seq<seq<Pair>>, ep: seq<nat>, g: nat, group: seq<Elem>, c: nat,
                           r: nat)
    requires CursorsOk(files, ep)
  {
    Cell(cols, c, r) + (if c == g then FreqOf(group, r) else 0) == Cell(cols0, c, r) + Taken(files, ep, c, r)
  }

  /** The group holds pairs up to the last one read, in order. */
  ghost predicate GroupOk(files: seq<seq<Pair>>, ep: seq<nat>, group: seq<Elem>, last: Pair) {
    CursorsOk(files, ep) && AllAfter(files, ep, last) && Sorted(group) && UpTo(group, last.r)
  }

  lemma GroupStart(files: seq<seq<Pair>>, ep: seq<nat>)
    requires CursorsOk(files, ep)
    ensures GroupOk(files, ep, [], Pair(0, 0, 0))
  {
  }

  lemma TopPair(files: seq<seq<Pair>>, ep: seq<nat>, group: seq<Elem>, heap: multiset<Head<Pair>>, t: Head<Pair>,
                last: Pair)
    requires FilesOk(files) && GroupOk(files, ep, group, last) && HeapOk(files, ep, heap)
    requires t in heap && forall e :: e in heap ==> PairCompar(t, e) <= 0
    ensures t.src < |files| && ep[t.src] < |files[t.src]| && t == HeadAt(files, ep, t.src)
    ensures Before(last, t.item) && t.item.c > 0
    ensures CursorsOk(files, ep[t.src := ep[t.src] + 1]) && AllAfter(files, ep[t.src := ep[t.src] + 1], t.item)
  {
    var ep' := ep[t.src := ep[t.src] + 1];
    assert FileOk(files[t.src]);
    forall i | 0 <= i < |files| && ep'[i] < |files[i]|
      ensures Before(t.item, files[i][ep'[i]])
    {
      if i != t.src {
        assert HeadAt(files, ep, i) in heap;
      }
    }
  }

  lemma GroupStep(files: seq<seq<Pair>>, ep: seq<nat>, group: seq<Elem>, last: Pair, t: Head<Pair>)
    requires GroupOk(files, ep, group, last) && (last.c == t.item.c || group == []) && Before(last, t.item)
    requires t.src < |files| && ep[t.src] < |files[t.src]| && t == HeadAt(files, ep, t.src)
    requires CursorsOk(files, ep[t.src := ep[t.src] + 1]) && AllAfter(files, ep[t.src := ep[t.src] + 1], t.item)
    ensures GroupOk(files, ep[t.src := ep[t.src] + 1], group + [Elem(t.item.r, t.item.tf)], t.item)
    ensures Total(group + [Elem(t.item.r, t.item.tf)]) == Total(group) + t.item.tf
  {
    TotalStep(group, Elem(t.item.r, t.item.tf));
  }

  lemma GroupCursors(files: seq<seq<Pair>>, ep: seq<nat>, group: seq<Elem>, last: Pair)
    requires GroupOk(files, ep, group, last)
    ensures CursorsOk(files, ep)
  {
  }

  /** The check of pass3 on the order of the row ids never fails: what comes from the heap is
      not before what is in the group of its column. */
  lemma InOrder(files: seq<seq<Pair>>, ep: seq<nat>, group: seq<Elem>, last: Pair, t: Pair)
    requires GroupOk(files, ep, group, last) && (last.c == t.c || group == []) && Before(last, t)
    ensures |group| > 0 ==> group[|group| - 1].id <= t.r
  {
  }

  lemma AbsorbStep(cols0: Xr, cols: Xr, files: seq<seq<Pair>>, ep: seq<nat>, group: seq<Elem>, t: Head<Pair>)
    requires CursorsOk(files, ep) && Absorbed(cols0, cols, files, ep, t.item.c, group)
    requires t.src < |files| && ep[t.src] < |files[t.src]| && t == HeadAt(files, ep, t.src)
    requires CursorsOk(files, ep[t.src := ep[t.src] + 1])
    ensures Absorbed(cols0, cols, files, ep[t.src := ep[t.src] + 1], t.item.c, group + [Elem(t.item.r, t.item.tf)])
  {
    var ep', e := ep[t.src := ep[t.src] + 1], Elem(t.item.r, t.item.tf);
    forall c: nat, r: nat
      ensures HasTaken(cols0, cols, files, ep', t.item.c, group + [e], c, r)
    {
      assert HasTaken(cols0, cols, files, ep, t.item.c, group, c, r);
      TakenStep(files, ep, t.src, c, r);
      assert (group + [e])[..|group|] == group;
    }
  }

  /** A group moves into its column. */
  ghost predicate Ejected(cols: Xr, cols': Xr, g: nat, group: seq<Elem>) {
    forall c: nat, r: nat :: Cell(cols', c, r) == Cell(cols, c, r) + if c == g then FreqOf(group, r) else 0
  }

  lemma AbsorbEject(cols0: Xr, cols: Xr, cols': Xr, files: seq<seq<Pair>>, ep: seq<nat>, g: nat, group: seq<Elem>,
                    g': nat)
    requires CursorsOk(files, ep) && Absorbed(cols0, cols, files, ep, g, group)
    requires Ejected(cols, cols', g, group)
    ensures Absorbed(cols0, cols', files, ep, g', [])
  {
    forall c: nat, r: nat
      ensures HasTaken(cols0, cols', files, ep, g', [], c, r)
    {
      assert HasTaken(cols0, cols, files, ep, g, group, c, r);
    }
  }

  lemma AbsorbStart(cols: Xr, files: seq<seq<Pair>>, ep: seq<nat>)
    requires CursorsOk(files, ep) && Rewound(ep)
    ensures Absorbed(cols, cols, files, ep, 0, [])
  {
    forall c: nat, r: nat
      ensures HasTaken(cols, cols, files, ep, 0, [], c, r)
    {
      TakenNone(files, ep, c, r);
    }
  }

  /** All files have gone into the columns. */
  ghost predicate TookIn(cols0: Xr, cols: Xr, files: seq<seq<Pair>>) {
    forall c: nat, r: nat :: Cell(cols, c, r) == Cell(cols0, c, r) + InFiles(files, c, r)
  }

  lemma AbsorbEnd(cols0: Xr, cols: Xr, files: seq<seq<Pair>>, ep: seq<nat>, g: nat)
    requires CursorsOk(files, ep) && Absorbed(cols0, cols, files, ep, g, [])
    requires forall i :: 0 <= i < |files| ==> ep[i] == |files[i]|
    ensures TookIn(cols0, cols, files)
  {
    forall c: nat, r: nat
      ensures Cell(cols, c, r) == Cell(cols0, c, r) + InFiles(files, c, r)
    {
      assert HasTaken(cols0, cols, files, ep, g, [], c, r);
      TakenAll(files, ep, c, r);
    }
  }

  /** What p3_eject_vec stores says what the old column and the group said. */
  lemma EjectedOk(cols: Xr, g: nat, group: seq<Elem>, merged: seq<Elem>, v: Vec)
    requires XrOk(cols)
    requires merged == if g in cols then Merged(group, cols[g].elems) else group
    requires Canonical(v.elems) && v.sum == Total(v.elems)
    requires forall id: nat :: FreqOf(v.elems, id) == FreqOf(merged, id)
    ensures XrOk(cols[g := v]) && Ejected(cols, cols[g := v], g, group)
  {
    forall c: nat, r: nat
      ensures Cell(cols[g := v], c, r) == Cell(cols, c, r) + if c == g then FreqOf(group, r) else 0
    {
      if c == g && g in cols {
        MergedFreq(group, cols[g].elems, r);
      }
    }
  }

  lemma MergedOk(cols: Xr, g: nat, group: seq<Elem>)
    requires XrOk(cols) && g in cols && Sorted(group)
    ensures Sorted(Merged(group, cols[g].elems))
    ensures Total(Merged(group, cols[g].elems)) == Total(group) + cols[g].sum
  {
    var n := cols[g].elems;
    assert Canonical(n);
    var top := (if |group| > 0 then group[|group| - 1].id else 0) + if |n| > 0 then n[|n| - 1].id else 0;
    MergedSorted(group, n, top);
    MergedFreq(group, n, 0);
  }

  /** PFRGSZ, the size of a struct rc_pair and the length of pfrg.paths. */
  datatype Limits = Limits(fragSize: nat, pairSize: nat, maxFrags: nat) {
    predicate Ok() {
      pairSize > 0
    }

    /** The pairs a fragment takes before it is found too large. */
    function Cap(): (cap: nat)
      requires Ok()
      ensures cap > 0
    {
      fragSize / pairSize + 1
    }

    /** The pairs an update can have. */
    function Room(): nat
      requires Ok()
    {
      maxFrags * Cap()
    }
  }

  /** The pairs of a row as they come. */
  function RowPairs(id: nat, raw: seq<Elem>): (s: seq<Pair>)
    ensures |s| == |raw|
  {
    seq(|raw|, i requires 0 <= i < |raw| => Pair(raw[i].id, id, raw[i].freq))
  }

  /** The pairs of all rows to be added. */
  function BatchPairs(batch: seq<(nat, seq<Elem>)>): seq<Pair> {
    if |batch| == 0 then []
    else
      var k := |batch| - 1;
      BatchPairs(batch[..k]) + RowPairs(batch[k].0, batch[k].1)
  }

  lemma {:induction false} BatchPrefix(batch: seq<(nat, seq<Elem>)>, n: nat)
    requires n <= |batch|
    ensures BatchPairs(batch[..n]) <= BatchPairs(batch)
    decreases |batch|
  {
    if n == |batch| {
      assert batch[..n] == batch;
    } else {
      var k := |batch| - 1;
      assert batch[..k][..n] == batch[..n];
      BatchPrefix(batch[..k], n);
    }
  }

  /** The fragments hold the pairs ps in order, all but the last one full. */
  ghost predicate Filling(limits: Limits, frags: seq<seq<Pair>>, open: bool, ejSize: nat, ps: seq<Pair>)
    requires limits.Ok()
  {
    && Nvmt.IsChunking(frags, ps, limits.Cap()) && |frags| <= limits.maxFrags
    && if open then |frags| > 0 && ejSize == |frags[|frags| - 1]| * limits.pairSize
       else ejSize == 0 && (|frags| > 0 ==> |frags[|frags| - 1]| == limits.Cap())
  }

  /** A fragment is found too large exactly when it is full. */
  lemma TooLarge(limits: Limits, m: nat)
    requires limits.Ok()
    ensures m * limits.pairSize > limits.fragSize <==> m >= limits.Cap()
  {
    var q, r, n := limits.fragSize / limits.pairSize, limits.fragSize % limits.pairSize, limits.pairSize;
    Nvmt.DivMod(limits.fragSize, n);
    if m >= q + 1 {
      Nvmt.Multiples(m, q + 1, n);
      assert (q + 1) * n == q * n + n;
    } else {
      Nvmt.Multiples(q, m, n);
    }
  }

  lemma ChunkCount(frags: seq<seq<Pair>>, ps: seq<Pair>, cap: nat)
    requires Nvmt.IsChunking(frags, ps, cap) && |frags| > 0
    ensures |ps| == (|frags| - 1) * cap + |frags[|frags| - 1]| <= |frags| * cap
  {
    var k := |frags| - 1;
    Nvmt.ConcatFull(frags[..k], cap);
    assert |frags| * cap == k * cap + cap;
  }

  /** There is no room left exactly if all fragments are there and full. */
  lemma RoomLeft(limits: Limits, frags: seq<seq<Pair>>, ps: seq<Pair>)
    requires limits.Ok() && Nvmt.IsChunking(frags, ps, limits.Cap()) && |frags| <= limits.maxFrags
    ensures |ps| <= limits.Room()
    ensures |ps| == limits.Room() <==>
            |frags| == limits.maxFrags && (|frags| > 0 ==> |frags[|frags| - 1]| == limits.Cap())
  {
    var cap := limits.Cap();
    if |frags| > 0 {
      ChunkCount(frags, ps, cap);
      assert |frags| * cap == (|frags| - 1) * cap + cap;
      FewerFull(|frags|, limits.maxFrags, cap);
    } else {
      FewerFull(0, limits.maxFrags, cap);
    }
  }

  lemma FewerFull(m: nat, n: nat, cap: nat)
    requires m <= n && cap > 0
    ensures m * cap <= n * cap && (m * cap == n * cap <==> m == n)
  {
    if m < n {
      Nvmt.Multiples(n, m + 1, cap);
      assert (m + 1) * cap == m * cap + cap;
    }
  }

  class Rvst {
    const v: XrVec
    const limits: Limits
    var rows: Xr
    var cols: Xr
    var frags: seq<seq<Pair>>
    var open: bool
    var ejSize: nat

    /** Between updates. */
    ghost predicate Valid()
      reads this
    {
      && XrOk(rows) && XrOk(cols) && Transposed(rows, cols)
      && limits.Ok() && frags == [] && !open && ejSize == 0
    }

    constructor (limits: Limits)
      requires limits.Ok()
      ensures Valid() && rows == map[] && cols == map[] && this.limits == limits
      ensures fresh(v) && fresh(v.v)
    {
      v := new XrVec();
      this.limits := limits;
      rows, cols := map[], map[];
      frags, open, ejSize := [], false, 0;
    }

    /** p3_eject_vec, on a single machine: the group is merged into its column. */
    method P3EjectVec(id: nat, elem_num: nat, freq_sum: nat)
      requires elem_num <= v.v.Length && Sorted(v.v[..elem_num]) && freq_sum == Total(v.v[..elem_num]) && XrOk(cols)
      modifies this`cols, v, v.v
      ensures XrOk(cols) && Ejected(old(cols), cols, id, old(v.v[..elem_num]))
      ensures cols.Keys == old(cols.Keys) + {id}
      ensures v.v == old(v.v) || fresh(v.v)
    {
      hide Sorted, Total, FreqOf, Canonical, XrOk, Ejected;
      ghost var group := v.v[..elem_num];
      v.elem_num := elem_num;
      v.freq_sum := freq_sum;
      if id in cols {
        MergedOk(cols, id, group);
        v.MergeVec(cols[id].elems, cols[id].sum);
      }
      ghost var merged := v.Elems();
      v.UniqVec();
      EjectedOk(cols, id, group, merged, Vec(v.v[..v.elem_num], v.freq_sum));
      cols := cols[id := Vec(v.v[..v.elem_num], v.freq_sum)];
    }

    /** The group of the last column, if the next pair is of another one. */
    method Switch(files: seq<seq<Pair>>, ep: seq<nat>, g: nat, n: nat, sum: nat, next: nat,
                  ghost last: Pair, ghost cols0: Xr) returns (n': nat, sum': nat)
      requires n <= v.v.Length && XrOk(cols) && GroupOk(files, ep, v.v[..n], last) && sum == Total(v.v[..n])
      requires Absorbed(cols0, cols, files, ep, g, v.v[..n]) && (g == 0 ==> n == 0)
      modifies this`cols, v, v.v
      ensures n' <= v.v.Length && XrOk(cols) && GroupOk(files, ep, v.v[..n'], last) && sum' == Total(v.v[..n'])
      ensures Absorbed(cols0, cols, files, ep, next, v.v[..n']) && (if g == next then n' == n else n' == 0)
      ensures v.v == old(v.v) || fresh(v.v)
    {
      n', sum' := n, sum;
      if next != g {
        ghost var group, cols1 := v.v[..n], cols;
        if g != 0 {
          P3EjectVec(g, n, sum);
        }
        AbsorbEject(cols0, cols1, cols, files, ep, g, group, next);
        n', sum' := 0, 0;
        assert v.v[..0] == [];
      }
    }

    /** The top pair joins the group of its column, and its file moves on. */
    method Take(a: Priq<Head<Pair>>, files: seq<seq<Pair>>, ep: seq<nat>, n: nat, t: Head<Pair>,
                ghost last: Pair, ghost cols0: Xr) returns (ep': seq<nat>)
      requires a.Valid() && a.n > 0 && t == a.q[0]
      requires n <= v.v.Length && GroupOk(files, ep, v.v[..n], last) && HeapOk(files, ep, a.Elems())
      requires Absorbed(cols0, cols, files, ep, t.item.c, v.v[..n])
      requires (last.c == t.item.c || n == 0) && Before(last, t.item)
      requires t.src < |files| && ep[t.src] < |files[t.src]| && t == HeadAt(files, ep, t.src)
      requires CursorsOk(files, ep[t.src := ep[t.src] + 1]) && AllAfter(files, ep[t.src := ep[t.src] + 1], t.item)
      modifies v`v, v.v, a`n, a.q
      ensures a.Valid() && CursorsOk(files, ep') && HeapOk(files, ep', a.Elems())
      ensures n < v.v.Length && GroupOk(files, ep', v.v[..n + 1], t.item)
      ensures Total(v.v[..n + 1]) == Total(old(v.v[..n])) + t.item.tf
      ensures Absorbed(cols0, cols, files, ep', t.item.c, v.v[..n + 1])
      ensures Remaining(files, ep') < Remaining(files, ep)
      ensures v.v == old(v.v) || fresh(v.v)
    {
      hide Absorbed, HeapOk, GroupOk, AllAfter, Total;
      ghost var group := v.v[..n];
      assert CursorsOk(files, ep) by { GroupCursors(files, ep, group, last); }
      GroupStep(files, ep, group, last, t);
      AbsorbStep(cols0, cols, files, ep, group, t);
      v.Put(n, Elem(t.item.r, t.item.tf));
      assert v.v[..n + 1] == group + [Elem(t.item.r, t.item.tf)];
      InOrder(files, ep, group, last, t.item);
      assert n > 0 ==> v.v[..n + 1][n - 1].id <= v.v[..n + 1][n].id;
      ep' := Advance(a, files, ep, t);
    }

    /** Pass 3 under way: v holds the first n elements, adding up to sum, of the column of the
        last pair read. */
    ghost predicate Reading(files: seq<seq<Pair>>, ep: seq<nat>, n: nat, sum: nat, last: Pair, cols0: Xr)
      reads this, v, v.v
    {
      && n <= v.v.Length && XrOk(cols) && GroupOk(files, ep, v.v[..n], last) && sum == Total(v.v[..n])
      && Absorbed(cols0, cols, files, ep, last.c, v.v[..n]) && (last.c == 0 ==> n == 0)
    }

    lemma StartReading(files: seq<seq<Pair>>, ep: seq<nat>)
      requires XrOk(cols) && CursorsOk(files, ep) && Rewound(ep)
      ensures Reading(files, ep, 0, 0, Pair(0, 0, 0), cols)
    {
      assert v.v[..0] == [];
      AbsorbStart(cols, files, ep);
      GroupStart(files, ep);
    }

    /** One turn of the loop of pass3. */
    method Step(a: Priq<Head<Pair>>, files: seq<seq<Pair>>, ep: seq<nat>, g: nat, n: nat, sum: nat,
                ghost last: Pair, ghost cols0: Xr)
      returns (ep': seq<nat>, g': nat, n': nat, sum': nat, ghost last': Pair)
      requires a.Valid() && a.n > 0 && a.cmp == PairCompar && FilesOk(files)
      requires CursorsOk(files, ep) && HeapOk(files, ep, a.Elems()) && g == last.c
      requires Reading(files, ep, n, sum, last, cols0)
      modifies this`cols, v, v.v, a`n, a.q
      ensures a.Valid() && CursorsOk(files, ep') && HeapOk(files, ep', a.Elems())
      ensures Reading(files, ep', n', sum', last', cols0) && g' == last'.c
      ensures Remaining(files, ep') < Remaining(files, ep)
      ensures v.v == old(v.v) || fresh(v.v)
    {
      hide Absorbed, HeapOk, GroupOk, AllAfter, Total, XrOk;
      var t := a.Top();
      TopPair(files, ep, v.v[..n], a.Elems(), t, last);
      n', sum' := Switch(files, ep, g, n, sum, t.item.c, last, cols0);
      ep' := Take(a, files, ep, n', t, last, cols0);
      g', n', sum', last' := t.item.c, n' + 1, sum' + t.item.tf, t.item;
    }

    /** pass3: the heap merges the sorted files, column by column. */
    method Pass3(files: seq<seq<Pair>>)
      requires FilesOk(files) && XrOk(cols)
      modifies this`cols, v, v.v
      ensures XrOk(cols) && TookIn(old(cols), cols, files)
    {
      hide Reading, HeapOk, XrOk, Absorbed, GroupOk, Total, IsHeap, TotalPreorder, PairCompar, Remaining, FilesOk;
      PairComparIsOrder();
      var a, ep := StartHeap(PairCompar, files);
      var g: nat, n: nat, sum: nat := 0, 0, 0;
      ghost var last := Pair(0, 0, 0);
      StartReading(files, ep);
      while a.n > 0
        invariant fresh(a) && fresh(a.q) && a.Valid() && a.cmp == PairCompar
        invariant CursorsOk(files, ep) && HeapOk(files, ep, a.Elems())
        invariant Reading(files, ep, n, sum, last, old(cols)) && g == last.c
        invariant v.v == old(v.v) || fresh(v.v)
        decreases Remaining(files, ep)
      {
        ep, g, n, sum, last := Step(a, files, ep, g, n, sum, last, old(cols));
      }
      Finish(files, ep, g, n, sum, last, a.Elems(), old(cols));
    }

    /** The files are at their ends: the last column. */
    method Finish(files: seq<seq<Pair>>, ep: seq<nat>, g: nat, n: nat, sum: nat, ghost last: Pair,
                  ghost heap: multiset<Head<Pair>>, ghost cols0: Xr)
      requires CursorsOk(files, ep) && HeapOk(files, ep, heap) && heap == multiset{}
      requires Reading(files, ep, n, sum, last, cols0) && g == last.c
      modifies this`cols, v, v.v
      ensures XrOk(cols) && TookIn(cols0, cols, files)
    {
      HeapEmpty(files, ep, heap);
      var n', _ := Switch(files, ep, g, n, sum, 0, last, cols0);
      assert v.v[..0] == [];
      AbsorbEnd(cols0, cols, files, ep, 0);
    }

    /** The state of the fragments when the pairs ps have been ejected. */
    ghost predicate Holds(ps: seq<Pair>)
      reads `frags, `open, `ejSize
    {
      limits.Ok() && Filling(limits, frags, open, ejSize, ps) && FragsOk(frags)
    }

    /** p2_eject_pair: a fragment grown too large is closed and another one begun, which
        fails exactly if there are no more fragments. */
    method P2EjectPair(p: Pair, ghost ps: seq<Pair>) returns (ok: bool)
      requires Holds(ps) && p.c > 0
      modifies `frags, `open, `ejSize
      ensures ok <==> |ps| < limits.Room()
      ensures ok ==> Holds(ps + [p]) && PairPut(old(frags), frags, p)
      ensures !ok ==> Holds(ps) && frags == old(frags)
    {
      hide Nvmt.IsChunking, Limits.Cap, Limits.Room, FragsOk, PairPut;
      LastFits(limits, frags, ps);
      RoomLeft(limits, frags, ps);
      if open && ejSize > limits.fragSize {
        open := false;
        ejSize := 0;
      }
      ghost var before := frags;
      if !open {
        if |frags| >= limits.maxFrags {
          return false;
        }
        frags := frags + [[]];
        open := true;
      }
      var k := |frags| - 1;
      PutLast(before, frags, p);
      FillLast(limits, before, frags, ps, p);
      frags := frags[k := frags[k] + [p]];
      ejSize := ejSize + limits.pairSize;
      ok := true;
    }

    /** The first part of p2_eject_vec: the row goes into v, and its pairs to the fragments. */
    method P2Pairs(id: nat, raw: seq<Elem>, ghost ps: seq<Pair>) returns (ok: bool)
      requires Holds(ps) && TermsOk(raw)
      modifies `frags, `open, `ejSize, v, v.v
      ensures v.v == old(v.v) || fresh(v.v)
      ensures ok <==> |ps| + |raw| <= limits.Room()
      ensures ok ==> v.elem_num == |raw| <= v.v.Length && v.v[..|raw|] == raw && v.freq_sum == Total(raw)
      ensures ok ==> Holds(ps + RowPairs(id, raw)) && PairsAdded(old(frags), frags, id, raw)
      ensures !ok ==> |ps| <= limits.Room() && Holds((ps + RowPairs(id, raw))[..limits.Room()])
    {
      v.Reserve(|raw|, 32, 0);
      ghost var frags0 := frags;
      var sum: nat := 0;
      NoPairs(ps, id, raw);
      RoomLeft(limits, frags, ps);
      for i := 0 to |raw|
        invariant |raw| <= v.v.Length && v.v[..i] == raw[..i] && sum == Total(raw[..i])
        invariant v.v == old(v.v) || fresh(v.v)
        invariant Holds(ps + RowPairs(id, raw[..i])) && PairsAdded(frags0, frags, id, raw[..i])
        invariant |ps| + i <= limits.Room()
      {
        hide PairsAdded, Rvst.Holds, Limits.Room, RowPairs, TermsOk, Total;
        PutTerm(raw, i);
        sum := sum + raw[i].freq;
        ok := P2Elem(id, raw, i, ps, frags0);
        if !ok {
          return;
        }
      }
      assert raw[..|raw|] == raw;
      v.elem_num := |raw|;
      v.freq_sum := sum;
      ok := true;
    }

    /** One element of the row. */
    method P2Elem(id: nat, raw: seq<Elem>, i: nat, ghost ps: seq<Pair>, ghost frags0: seq<seq<Pair>>) returns (ok: bool)
      requires i < |raw| <= v.v.Length && v.v[..i] == raw[..i] && TermsOk(raw)
      requires Holds(ps + RowPairs(id, raw[..i])) && PairsAdded(frags0, frags, id, raw[..i])
      requires |ps| + i <= limits.Room()
      modifies `frags, `open, `ejSize, v.v
      ensures ok <==> |ps| + i < limits.Room()
      ensures ok ==> v.v[..i + 1] == raw[..i + 1]
      ensures ok ==> Holds(ps + RowPairs(id, raw[..i + 1])) && PairsAdded(frags0, frags, id, raw[..i + 1])
      ensures !ok ==> |ps| <= limits.Room() <= |ps| + |raw| && Holds((ps + RowPairs(id, raw))[..limits.Room()])
    {
      hide PairsAdded, Rvst.Holds, Limits.Room, RowPairs, PairPut;
      ghost var frags1, ps1 := frags, ps + RowPairs(id, raw[..i]);
      v.v[i] := raw[i];
      assert v.v[..i + 1] == raw[..i] + [raw[i]];
      PutTerm(raw, i);
      NextPair(ps, id, raw, i);
      ok := P2EjectPair(Pair(raw[i].id, id, raw[i].freq), ps1);
      if ok {
        PairsStep(frags0, frags1, frags, id, raw[..i], raw[i]);
      }
    }

    /** qsort of the elements of v. */
    method SortVec(esort: seq<Elem> -> seq<Elem>)
      requires v.Valid() && SortsElems(esort)
      modifies v.v
      ensures v.Valid() && multiset(v.Elems()) == multiset(old(v.Elems())) && Sorted(v.Elems())
    {
      var s := esort(v.v[..v.elem_num]);
      assert |multiset(s)| == |multiset(v.v[..v.elem_num])|;
      forall i | 0 <= i < v.elem_num {
        v.v[i] := s[i];
      }
      assert v.v[..v.elem_num] == s;
    }

    /** p2_eject_vec, on a single machine: a new row is stored, and its pairs are ejected. */
    method P2EjectVec(id: nat, raw: seq<Elem>, esort: seq<Elem> -> seq<Elem>, ghost ps: seq<Pair>) returns (ok: bool)
      requires Holds(ps) && TermsOk(raw) && SortsElems(esort) && XrOk(rows)
      modifies `rows, `frags, `open, `ejSize, v, v.v
      ensures XrOk(rows) && (v.v == old(v.v) || fresh(v.v))
      ensures ok <==> |ps| + |raw| <= limits.Room()
      ensures ok ==> Holds(ps + RowPairs(id, raw))
      ensures ok ==> PairsAdded(old(frags), frags, id, raw) && RowSet(old(rows), rows, id, raw)
      ensures !ok ==> |ps| <= limits.Room() && Holds((ps + RowPairs(id, raw))[..limits.Room()]) && rows == old(rows)
    {
      hide Rvst.Holds, Limits.Room, RowPairs, PairsAdded;
      ok := P2Pairs(id, raw, ps);
      if !ok {
        return;
      }
      StoreRow(id, raw, esort);
    }

    /** Its second part: the row in v is sorted, its terms are added up, and it is stored. */
    method StoreRow(id: nat, raw: seq<Elem>, esort: seq<Elem> -> seq<Elem>)
      requires v.elem_num == |raw| <= v.v.Length && v.v[..|raw|] == raw && v.freq_sum == Total(raw)
      requires SortsElems(esort) && XrOk(rows)
      modifies `rows, v`elem_num, v`freq_sum, v.v
      ensures XrOk(rows) && RowSet(old(rows), rows, id, raw)
    {
      SortVec(esort);
      ghost var sorted := v.Elems();
      FreqPermuted(raw, sorted, 0);
      v.UniqVec();
      forall c: nat
        ensures FreqOf(v.v[..v.elem_num], c) == FreqOf(raw, c)
      {
        FreqPermuted(raw, sorted, c);
      }
      rows := rows[id := Vec(v.v[..v.elem_num], v.freq_sum)];
    }

    /** Pass 2: all new rows, as long as there is room for their pairs. */
    method Pass2(batch: seq<(nat, seq<Elem>)>, esort: seq<Elem> -> seq<Elem>) returns (ok: bool)
      requires Valid() && BatchOk(batch, rows) && SortsElems(esort)
      modifies `rows, `frags, `open, `ejSize, v, v.v
      ensures XrOk(rows) && (v.v == old(v.v) || fresh(v.v))
      ensures ok <==> |BatchPairs(batch)| <= limits.Room()
      ensures ok ==> Holds(BatchPairs(batch))
      ensures ok ==> Pending(rows, cols, frags) && RowsAdded(old(rows), rows, batch)
      ensures !ok ==> Holds(BatchPairs(batch)[..limits.Room()])
      ensures !ok ==>
                exists n :: 0 <= n < |batch| && CutsOff(batch, n, limits.Room()) &&
                            RowsAdded(old(rows), rows, batch[..n])
    {
      ghost var rows0 := rows;
      PendingStart(rows, cols);
      assert Holds([]) && batch[..0] == [];
      for i := 0 to |batch|
        invariant Holds(BatchPairs(batch[..i])) && XrOk(rows)
        invariant v.v == old(v.v) || fresh(v.v)
        invariant Pending(rows, cols, frags) && RowsAdded(rows0, rows, batch[..i])
        invariant i == 0 || |BatchPairs(batch[..i])| <= limits.Room()
      {
        hide Rvst.Holds, Limits.Room, XrOk, Pending, RowsAdded, SortsElems, BatchOk, BatchPairs;
        ok := P2Row(batch, i, esort, rows0);
        if !ok {
          return;
        }
      }
      assert batch[..|batch|] == batch;
      ok := true;
    }

    /** One row of pass 2. */
    method P2Row(batch: seq<(nat, seq<Elem>)>, i: nat, esort: seq<Elem> -> seq<Elem>, ghost rows0: Xr)
      returns (ok: bool)
      requires i < |batch| && BatchOk(batch, rows0) && SortsElems(esort) && XrOk(rows)
      requires Holds(BatchPairs(batch[..i])) && Pending(rows, cols, frags) && RowsAdded(rows0, rows, batch[..i])
      modifies `rows, `frags, `open, `ejSize, v, v.v
      ensures XrOk(rows) && (v.v == old(v.v) || fresh(v.v))
      ensures ok <==> |BatchPairs(batch[..i + 1])| <= limits.Room()
      ensures ok ==> Holds(BatchPairs(batch[..i + 1]))
      ensures ok ==> Pending(rows, cols, frags) && RowsAdded(rows0, rows, batch[..i + 1])
      ensures !ok ==> CutsOff(batch, i, limits.Room()) && limits.Room() < |BatchPairs(batch)|
      ensures !ok ==> Holds(BatchPairs(batch)[..limits.Room()]) && RowsAdded(rows0, rows, batch[..i])
    {
      assert limits.Ok();
      hide Rvst.Holds, Limits.Room, XrOk, Pending, RowsAdded, PairsAdded, RowSet, SortsElems, RowPairs, BatchPairs;
      ghost var rows1, frags1, ps := rows, frags, BatchPairs(batch[..i]);
      BatchRow(batch, rows0, rows, i);
      NextRow(batch, i);
      ok := P2EjectVec(batch[i].0, batch[i].1, esort, ps);
      if ok {
        PendingStep(rows1, rows, cols, frags1, frags, batch[i].0, batch[i].1);
        RowsStep(rows0, rows1, rows, batch, i);
      } else {
        CutPairs(ps + RowPairs(batch[i].0, batch[i].1), BatchPairs(batch), limits.Room());
      }
    }

    /** Passes 2 and 3 of an update: if there is room for the pairs of the batch the new rows
        are stored and the columns are their transpose again; else the fragments are full
        with the first pairs of the batch, some of the rows are stored, and the columns are
        as before. */
    method Update(batch: seq<(nat, seq<Elem>)>, esort: seq<Elem> -> seq<Elem>, xsort: seq<Pair> -> seq<Pair>)
      returns (ok: bool)
      requires Valid() && BatchOk(batch, rows) && SortsElems(esort) && SortsPairs(xsort)
      modifies this, v, v.v
      ensures ok <==> |BatchPairs(batch)| <= limits.Room()
      ensures ok ==> Valid() && RowsAdded(old(rows), rows, batch)
      ensures !ok ==> Holds(BatchPairs(batch)[..limits.Room()]) && cols == old(cols)
      ensures !ok ==>
                exists n :: 0 <= n < |batch| && CutsOff(batch, n, limits.Room()) &&
                            RowsAdded(old(rows), rows, batch[..n])
    {
      hide RowsAdded, BatchPairs, Limits.Room;
      ok := Pass2(batch, esort);
      if !ok {
        return;
      }
      var files := SortFiles(frags, xsort);
      ghost var cols0 := cols;
      Pass3(files);
      NothingPending(rows, cols0, cols, frags, files);
      frags, open, ejSize := [], false, 0;
    }

    /** del_vec of a row: its element is taken out of the column of each of its terms. */
    method DelVec(id: nat)
      requires Valid() && id in rows
      modifies `rows, `cols
      ensures Valid() && rows == old(rows) - {id}
    {
      var w := rows[id].elems;
      ghost var cols0 := cols;
      DeletingStart(rows, cols, id);
      for i := 0 to |w|
        invariant Deleting(rows, cols0, cols, id, i) && XrOk(cols)
        modifies `cols
      {
        hide Deleting;
        TermColumn(rows, cols0, cols, id, i);
        var col := cols[w[i].id];
        var j := Find(col.elems, id);
        FreqInTotal(col.elems, j);
        assert col.elems[j].freq == w[i].freq;
        ghost var cols1 := cols;
        cols := cols[w[i].id := Vec(col.elems[..j] + col.elems[j + 1..], col.sum - w[i].freq)];
        DeletingStep(rows, cols0, cols1, cols, id, i, i + 1, j);
      }
      DeletingEnd(rows, rows - {id}, cols0, cols, id);
      rows := rows - {id};
    }
  }

  /** What is open is not larger than a full fragment. */
  lemma LastFits(limits: Limits, frags: seq<seq<Pair>>, ps: seq<Pair>)
    requires limits.Ok() && Nvmt.IsChunking(frags, ps, limits.Cap())
    ensures |frags| > 0 ==> 0 < |frags[|frags| - 1]| <= limits.Cap()
    ensures |frags| > 0 ==>
              (|frags[|frags| - 1]| * limits.pairSize > limits.fragSize <==> |frags[|frags| - 1]| == limits.Cap())
  {
    if |frags| > 0 {
      TooLarge(limits, |frags[|frags| - 1]|);
    }
  }

  /** The pair goes behind the last fragment with room, or starts a new one. */
  lemma FillLast(limits: Limits, before: seq<seq<Pair>>, frags: seq<seq<Pair>>, ps: seq<Pair>, p: Pair)
    requires limits.Ok() && Nvmt.IsChunking(before, ps, limits.Cap()) && |frags| > 0
    requires (frags == before && |frags[|frags| - 1]| < limits.Cap()) ||
             (frags == before + [[]] && (|before| > 0 ==> |before[|before| - 1]| == limits.Cap()))
    ensures var k := |frags| - 1; Nvmt.IsChunking(frags[k := frags[k] + [p]], ps + [p], limits.Cap())
  {
    var k := |frags| - 1;
    if frags == before {
      Nvmt.ChunkingFill(before, ps, limits.Cap(), [p]);
    } else {
      Nvmt.ChunkingNew(before, ps, limits.Cap(), [p]);
      assert frags[k] + [p] == [p];
      assert frags[k := [p]] == before + [[p]];
    }
  }

  lemma NoPairs(ps: seq<Pair>, id: nat, raw: seq<Elem>)
    ensures ps + RowPairs(id, raw[..0]) == ps
  {
  }

  lemma NextPair(ps: seq<Pair>, id: nat, raw: seq<Elem>, i: nat)
    requires i < |raw|
    ensures ps + RowPairs(id, raw[..i + 1]) == ps + RowPairs(id, raw[..i]) + [Pair(raw[i].id, id, raw[i].freq)]
    ensures |ps + RowPairs(id, raw[..i])| == |ps| + i
    ensures (ps + RowPairs(id, raw))[..|ps| + i] == ps + RowPairs(id, raw[..i])
  {
  }

  lemma NextRow(batch: seq<(nat, seq<Elem>)>, i: nat)
    requires i < |batch|
    ensures BatchPairs(batch[..i + 1]) == BatchPairs(batch[..i]) + RowPairs(batch[i].0, batch[i].1) <= BatchPairs(batch)
  {
    assert batch[..i + 1][..i] == batch[..i];
    BatchPrefix(batch, i + 1);
  }

  /** Row n is the first one without room for all its pairs. */
  ghost predicate CutsOff(batch: seq<(nat, seq<Elem>)>, n: nat, room: nat)
    requires n < |batch|
  {
    |BatchPairs(batch[..n])| <= room < |BatchPairs(batch[..n + 1])|
  }

  lemma CutPairs(s: seq<Pair>, t: seq<Pair>, n: nat)
    requires s <= t && n <= |s|
    ensures s[..n] == t[..n]
  {
  }

  /** One more pair is in the fragments. */
  ghost predicate PairPut(frags: seq<seq<Pair>>, frags': seq<seq<Pair>>, p: Pair) {
    forall c: nat, r: nat :: InFiles(frags', c, r) == InFiles(frags, c, r) + OnePair(p, c, r)
  }

  /** The pair goes behind the last fragment, an old one or a new one. */
  lemma PutLast(before: seq<seq<Pair>>, frags: seq<seq<Pair>>, p: Pair)
    requires |frags| > 0 && (frags == before || frags == before + [[]]) && p.c > 0 && FragsOk(before)
    ensures var k := |frags| - 1;
            PairPut(before, frags[k := frags[k] + [p]], p) && FragsOk(frags[k := frags[k] + [p]])
  {
    var k := |frags| - 1;
    var frags' := frags[k := frags[k] + [p]];
    forall c: nat, r: nat
      ensures InFiles(frags', c, r) == InFiles(before, c, r) + OnePair(p, c, r)
    {
      PairAppend(frags[k], [p], c, r);
      assert PairFreq([p], c, r) == OnePair(p, c, r);
      assert frags'[..k] == frags[..k];
      assert frags != before ==> frags[..k] == before;
    }
  }

  ghost predicate PairsOk(s: seq<Pair>) {
    forall x :: 0 <= x < |s| ==> s[x].c > 0
  }

  function OnePair(p: Pair, c: nat, r: nat): nat {
    if p.c == c && p.r == r then p.tf else 0
  }

  ghost predicate FragsOk(frags: seq<seq<Pair>>) {
    forall i :: 0 <= i < |frags| ==> PairsOk(frags[i])
  }

  /** wam_name2id gives no id 0. */
  ghost predicate TermsOk(raw: seq<Elem>) {
    forall x :: 0 <= x < |raw| ==> raw[x].id > 0
  }

  lemma PutTerm(raw: seq<Elem>, i: nat)
    requires TermsOk(raw) && i < |raw|
    ensures raw[i].id > 0 && raw[..i + 1] == raw[..i] + [raw[i]]
    ensures Total(raw[..i + 1]) == Total(raw[..i]) + raw[i].freq
  {
    assert raw[..i + 1] == raw[..i] + [raw[i]];
    TotalStep(raw[..i], raw[i]);
  }

  /** The contract of qsort with ecompar and with xcompar. */
  ghost predicate SortsElems(esort: seq<Elem> -> seq<Elem>) {
    forall s :: multiset(esort(s)) == multiset(s) && Sorted(esort(s))
  }

  ghost predicate SortsPairs(xsort: seq<Pair> -> seq<Pair>) {
    forall s :: multiset(xsort(s)) == multiset(s) &&
                forall x, y :: 0 <= x < y < |xsort(s)| ==> Before(xsort(s)[x], xsort(s)[y])
  }

  /** The fragments have got the pairs of a row. */
  ghost predicate PairsAdded(frags: seq<seq<Pair>>, frags': seq<seq<Pair>>, id: nat, raw: seq<Elem>) {
    forall c: nat, r: nat :: PairAdded(frags, frags', id, raw, c, r)
  }

  ghost predicate PairAdded(frags: seq<seq<Pair>>, frags': seq<seq<Pair>>, id: nat, raw: seq<Elem>, c: nat, r: nat) {
    InFiles(frags', c, r) == InFiles(frags, c, r) + if r == id then FreqOf(raw, c) else 0
  }

  lemma PairsStep(frags: seq<seq<Pair>>, frags1: seq<seq<Pair>>, frags2: seq<seq<Pair>>, id: nat, raw: seq<Elem>,
                  e: Elem)
    requires PairsAdded(frags, frags1, id, raw)
    requires PairPut(frags1, frags2, Pair(e.id, id, e.freq))
    ensures PairsAdded(frags, frags2, id, raw + [e])
  {
    forall c: nat, r: nat
      ensures PairAdded(frags, frags2, id, raw + [e], c, r)
    {
      assert PairAdded(frags, frags1, id, raw, c, r);
      assert (raw + [e])[..|raw|] == raw;
    }
  }

  /** Row id says what raw says; the other rows are as they were. */
  ghost predicate RowSet(rows: Xr, rows': Xr, id: nat, raw: seq<Elem>) {
    id in rows' && rows' == rows[id := rows'[id]] && SaysRaw(rows'[id], raw)
  }

  /** The rows are ahead of the columns by what is in the fragments. */
  ghost predicate Pending(rows: Xr, cols: Xr, frags: seq<seq<Pair>>) {
    forall r: nat, c: nat :: IsPending(rows, cols, frags, r, c)
  }

  ghost predicate IsPending(rows: Xr, cols: Xr, frags: seq<seq<Pair>>, r: nat, c: nat) {
    Cell(rows, r, c) == Cell(cols, c, r) + InFiles(frags, c, r)
  }

  /** The rows to be added are new, and each comes once. */
  ghost predicate BatchOk(batch: seq<(nat, seq<Elem>)>, rows: Xr) {
    && (forall i :: 0 <= i < |batch| ==> batch[i].0 !in rows && TermsOk(batch[i].1))
    && (forall i, j :: 0 <= i < j < |batch| ==> batch[i].0 != batch[j].0)
  }

  /** The rows are those from before and those of the batch. */
  ghost predicate RowsAdded(rows: Xr, rows': Xr, batch: seq<(nat, seq<Elem>)>) {
    && (forall id: nat :: id in rows ==> id in rows' && rows'[id] == rows[id])
    && (forall i :: 0 <= i < |batch| ==> batch[i].0 in rows' && SaysRaw(rows'[batch[i].0], batch[i].1))
    && (forall id: nat :: id in rows' ==> id in rows || exists i :: 0 <= i < |batch| && batch[i].0 == id)
  }

  ghost predicate SaysRaw(w: Vec, raw: seq<Elem>) {
    forall c: nat :: FreqOf(w.elems, c) == FreqOf(raw, c)
  }

  lemma BatchRow(batch: seq<(nat, seq<Elem>)>, rows0: Xr, rows: Xr, i: nat)
    requires i < |batch| && BatchOk(batch, rows0) && RowsAdded(rows0, rows, batch[..i])
    ensures batch[i].0 !in rows && TermsOk(batch[i].1)
  {
    assert forall j :: 0 <= j < i ==> batch[..i][j] == batch[j] && batch[j].0 != batch[i].0;
  }

  lemma PendingStart(rows: Xr, cols: Xr)
    requires Transposed(rows, cols)
    ensures Pending(rows, cols, []) && RowsAdded(rows, rows, [])
  {
    forall r: nat, c: nat
      ensures IsPending(rows, cols, [], r, c)
    {
      assert Cell(rows, r, c) == Cell(cols, c, r);
    }
  }

  lemma PendingStep(rows: Xr, rows': Xr, cols: Xr, frags: seq<seq<Pair>>, frags': seq<seq<Pair>>, id: nat,
                    raw: seq<Elem>)
    requires Pending(rows, cols, frags) && id !in rows
    requires RowSet(rows, rows', id, raw) && PairsAdded(frags, frags', id, raw)
    ensures Pending(rows', cols, frags')
  {
    forall r: nat, c: nat
      ensures IsPending(rows', cols, frags', r, c)
    {
      assert IsPending(rows, cols, frags, r, c) && PairAdded(frags, frags', id, raw, c, r);
    }
  }

  lemma RowsStep(rows0: Xr, rows: Xr, rows': Xr, batch: seq<(nat, seq<Elem>)>, i: nat)
    requires i < |batch| && RowsAdded(rows0, rows, batch[..i]) && batch[i].0 !in rows
    requires RowSet(rows, rows', batch[i].0, batch[i].1)
    ensures RowsAdded(rows0, rows', batch[..i + 1])
  {
    var b, b' := batch[..i], batch[..i + 1];
    forall j | 0 <= j < |b'|
      ensures b'[j].0 in rows' && SaysRaw(rows'[b'[j].0], b'[j].1)
    {
      assert j < i ==> b[j] == b'[j] && b[j].0 in rows;
    }
    forall id: nat | id in rows' && id !in rows0
      ensures exists j :: 0 <= j < |b'| && b'[j].0 == id
    {
      if id in rows {
        var j :| 0 <= j < |b| && b[j].0 == id;
        assert b'[j].0 == id;
      } else {
        assert b'[i].0 == id;
      }
    }
  }

  /** The fragments sorted one by one. */
  ghost predicate FilesOf(frags: seq<seq<Pair>>, files: seq<seq<Pair>>) {
    |files| == |frags| && forall i :: 0 <= i < |files| ==> multiset(files[i]) == multiset(frags[i])
  }

  lemma {:induction false} FilesSay(frags: seq<seq<Pair>>, files: seq<seq<Pair>>, c: nat, r: nat)
    requires FilesOf(frags, files)
    ensures InFiles(files, c, r) == InFiles(frags, c, r)
  {
    if |files| > 0 {
      var k := |files| - 1;
      FilesSay(frags[..k], files[..k], c, r);
      PairPermuted(files[k], frags[k], c, r);
    }
  }

  lemma SortedFile(frag: seq<Pair>, file: seq<Pair>)
    requires PairsOk(frag) && multiset(file) == multiset(frag)
    requires forall x, y :: 0 <= x < y < |file| ==> Before(file[x], file[y])
    ensures FileOk(file)
  {
    forall x | 0 <= x < |file|
      ensures file[x].c > 0
    {
      assert file[x] in multiset(frag);
    }
  }

  /** sort_pair_file for every fragment. */
  method SortFiles(frags: seq<seq<Pair>>, xsort: seq<Pair> -> seq<Pair>) returns (files: seq<seq<Pair>>)
    requires FragsOk(frags) && SortsPairs(xsort)
    ensures FilesOk(files) && FilesOf(frags, files)
  {
    files := [];
    for i := 0 to |frags|
      invariant FilesOk(files) && FilesOf(frags[..i], files)
    {
      var f := xsort(frags[i]);
      SortedFile(frags[i], f);
      files := files + [f];
    }
  }

  /** With all fragments taken into the columns nothing is pending. */
  lemma NothingPending(rows: Xr, cols: Xr, cols': Xr, frags: seq<seq<Pair>>, files: seq<seq<Pair>>)
    requires Pending(rows, cols, frags) && FilesOf(frags, files) && TookIn(cols, cols', files)
    ensures Transposed(rows, cols')
  {
    forall r: nat, c: nat
      ensures Cell(rows, r, c) == Cell(cols', c, r)
    {
      assert IsPending(rows, cols, frags, r, c);
      FilesSay(frags, files, c, r);
    }
  }

  // ------------------------------------------------------------------ deletion

  /** The search of del_vec for the row in a column. */
  method Find(s: seq<Elem>, id: nat) returns (j: nat)
    requires FreqOf(s, id) > 0
    ensures j < |s| && s[j].id == id && forall x :: 0 <= x < j ==> s[x].id != id
  {
    j := 0;
    while j < |s| && s[j].id != id
      invariant j <= |s| && forall x :: 0 <= x < j ==> s[x].id != id
    {
      j := j + 1;
    }
    if j == |s| {
      FreqNone(s, id);
    }
  }

  /** The columns of the first i terms of row id no longer have it. */
  ghost predicate Deleting(rows: Xr, cols0: Xr, cols: Xr, id: nat, i: nat)
    requires id in rows
  {
    && Transposed(rows, cols0) && XrOk(rows) && i <= |rows[id].elems|
    && forall c: nat, r: nat :: IsDeleting(rows, cols0, cols, id, i, c, r)
  }

  ghost predicate IsDeleting(rows: Xr, cols0: Xr, cols: Xr, id: nat, i: nat, c: nat, r: nat)
    requires id in rows && i <= |rows[id].elems|
  {
    Cell(cols, c, r) + (if r == id then FreqOf(rows[id].elems[..i], c) else 0) == Cell(cols0, c, r)
  }

  lemma DeletingStart(rows: Xr, cols: Xr, id: nat)
    requires Transposed(rows, cols) && XrOk(rows) && id in rows
    ensures Deleting(rows, cols, cols, id, 0)
  {
  }

  /** The column of a term of the row has the row, with the same frequency. */
  lemma TermColumn(rows: Xr, cols0: Xr, cols: Xr, id: nat, i: nat)
    requires id in rows && Deleting(rows, cols0, cols, id, i) && XrOk(cols) && i < |rows[id].elems|
    ensures var e := rows[id].elems[i];
            && e.id in cols && FreqOf(cols[e.id].elems, id) == e.freq > 0
            && forall j :: 0 <= j < |cols[e.id].elems| && cols[e.id].elems[j].id == id ==>
                 cols[e.id].elems[j].freq == e.freq
  {
    var w := rows[id].elems;
    var c := w[i].id;
    assert Canonical(w);
    FreqSome(w, i);
    FreqNone(w[..i], c);
    assert IsDeleting(rows, cols0, cols, id, i, c, id);
    assert Cell(rows, id, c) == Cell(cols0, c, id);
    assert c in cols;
    forall j | 0 <= j < |cols[c].elems| && cols[c].elems[j].id == id
      ensures cols[c].elems[j].freq == w[i].freq
    {
      FreqSome(cols[c].elems, j);
    }
  }

  lemma DeletingStep(rows: Xr, cols0: Xr, cols: Xr, cols': Xr, id: nat, i: nat, k: nat, j: nat)
    requires k == i + 1
    requires id in rows && Deleting(rows, cols0, cols, id, i) && XrOk(cols) && i < |rows[id].elems|
    requires var e := rows[id].elems[i];
             && e.id in cols && j < |cols[e.id].elems| && cols[e.id].elems[j] == Elem(id, e.freq)
             && e.freq <= cols[e.id].sum
             && cols' == cols[e.id := Vec(cols[e.id].elems[..j] + cols[e.id].elems[j + 1..], cols[e.id].sum - e.freq)]
    ensures Deleting(rows, cols0, cols', id, k) && XrOk(cols')
  {
    var w := rows[id].elems;
    assert w[..k][..i] == w[..i];
    var old_c := cols[w[i].id].elems;
    forall c: nat, r: nat
      ensures IsDeleting(rows, cols0, cols', id, k, c, r)
    {
      assert IsDeleting(rows, cols0, cols, id, i, c, r);
      RemoveFreq(old_c, j, r);
    }
    RemoveFreq(old_c, j, 0);
    CanonicalWithout(old_c, j);
  }

  lemma CanonicalWithout(s: seq<Elem>, j: nat)
    requires Canonical(s) && j < |s|
    ensures Canonical(s[..j] + s[j + 1..])
  {
  }

  lemma DeletingEnd(rows: Xr, rows': Xr, cols0: Xr, cols: Xr, id: nat)
    requires id in rows && rows' == rows - {id} && Deleting(rows, cols0, cols, id, |rows[id].elems|)
    ensures Transposed(rows', cols)
  {
    var w := rows[id].elems;
    forall r: nat, c: nat
      ensures Cell(rows', r, c) == Cell(cols, c, r)
    {
      assert IsDeleting(rows, cols0, cols, id, |w|, c, r);
      assert w[..|w|] == w;
      assert Cell(rows, r, c) == Cell(cols0, c, r);
    }
  }

  lemma FreqInTotal(s: seq<Elem>, x: nat)
    requires x < |s|
    ensures s[x].freq <= Total(s)
  {
    RemoveFreq(s, x, 0);
  }
}
