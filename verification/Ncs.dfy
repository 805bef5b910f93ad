/** Hierarchical clustering in ncs.c (CS_HBC with LOGSC and ARGMAX_CACHE): the matrices and
    the row-maximum cache kept up to date while clusters are merged in place. */
module Ncs {
  import opened NcsScore
  import opened NcsForest

  /** struct cache: the greatest score of a row, where it is, and how many columns there were. */
  datatype Cache = Cache(maxval: real, index: nat, elemNum: nat)

  /** The live columns to the right of j. */
  ghost function LiveRight(xdim: seq<int>, j: int): set<int> {
    set i | j < i < |xdim| && 0 <= i && xdim[i] >= 0
  }

  /** The cache line of row j holds the true maximum over the live columns to its right. */
  ghost predicate RowOk(xdim: seq<int>, row: seq<real>, cp: Cache, j: int)
    requires |row| == |xdim|
  {
    && (cp.index == |xdim| <==> LiveRight(xdim, j) == {})
    && (cp.index != |xdim| ==> cp.index in LiveRight(xdim, j) && cp.maxval == row[cp.index])
    && (forall i :: i in LiveRight(xdim, j) ==> row[i] <= cp.maxval)
    && |LiveRight(xdim, j)| <= cp.elemNum
  }

  /** What columns and pairs of live slots must hold. */
  ghost predicate ColumnOk(k: Corpus, f: Forest, P: seq<seq<real>>, SC1: seq<real>, m: nat)
    requires f.Ok(k) && |P| == |SC1| == |f.next| && forall d :: 0 <= d < |P| ==> |P[d]| == |f.next|
    requires m < |f.next|
  {
    f.IsLive(m) ==>
      var c := f.xdim[m];
      f.ClusterOk(k, c) && k.Docs(f.members[c]) &&
      (forall d :: 0 <= d < |P| ==> P[d][m] == k.Mean(d, f.members[c])) &&
      SC1[m] == k.LogSC(f.members[c])
  }

  ghost predicate PairOk(k: Corpus, f: Forest, SC2: seq<seq<real>>, j: nat, i: nat)
    requires f.Ok(k) && |SC2| == |f.next| - 1 && forall d :: 0 <= d < |SC2| ==> |SC2[d]| == |f.next|
    requires j < i < |f.next|
  {
    f.IsLive(j) && f.IsLive(i) ==> SC2[j][i] == f.PairGain(k, f.xdim[j], f.xdim[i])
  }

  class Csg {
    const k: Corpus
    const N: nat
    ghost const weights: seq<real>
    var next: seq<int>
    var clusters: seq<Cluster>
    var xdim: seq<int>
    var P: seq<seq<real>>
    var SC1: seq<real>
    var SC2: seq<seq<real>>
    var cache: seq<Cache>
    ghost var members: seq<seq<nat>>
    ghost var parent: seq<int>

    ghost function F(): Forest
      reads this`next, this`clusters, this`xdim, this`members, this`parent
    {
      Forest(next, clusters, xdim, members, parent)
    }

    /** The matrices have their sizes. */
    ghost predicate Dims()
      reads this
    {
      && 2 <= N == |k.freq| && k.Valid()
      && |next| == N && |xdim| == N
      && |P| == N && (forall d :: 0 <= d < N ==> |P[d]| == N)
      && |SC1| == N
      && |SC2| == N - 1 && (forall j :: 0 <= j < N - 1 ==> |SC2[j]| == N)
      && |cache| == N - 1
    }

    ghost predicate CacheOk(j: nat)
      requires Dims() && j < N - 1
      reads this
    {
      xdim[j] >= 0 ==> RowOk(xdim, SC2[j], cache[j], j)
    }

    ghost predicate Valid()
      reads this
    {
      && Dims() && F().Ok(k)
      && (forall m :: 0 <= m < N ==> ColumnOk(k, F(), P, SC1, m))
      && (forall j, i :: 0 <= j < i < N ==> PairOk(k, F(), SC2, j, i))
      && (forall j :: 0 <= j < N - 1 ==> CacheOk(j))
    }

    /** Weights and the order of the lists are right. */
    ghost predicate Listed()
      reads this`next, this`clusters, this`xdim, this`members, this`parent
    {
      F().Listed(weights)
    }

    /** The start of ncs: one cluster for each document, and its scores. The matrix
        P(d|{e}) comes with the corpus. */
    constructor (corpus: Corpus, weights: seq<real>)
      requires corpus.Valid() && 2 <= |corpus.freq| == |weights|
      ensures Valid() && Listed() && k == corpus && N == |corpus.freq| && |clusters| == N
      ensures this.weights == weights
    {
      k := corpus;
      N := |corpus.freq|;
      this.weights := weights;
      next := seq(|corpus.freq|, _ => -1);
      clusters := seq(|corpus.freq|, j requires 0 <= j < |corpus.freq| && |corpus.freq| == |weights| =>
        Cluster(-1, -1, j, 1, corpus.freq[j], weights[j], j));
      xdim := seq(|corpus.freq|, j => j);
      P := corpus.P;
      SC1 := seq(|corpus.freq|, i requires 0 <= i < |corpus.freq| && corpus.Valid() => corpus.log(corpus.P[i][i]));
      SC2 := seq(|corpus.freq| - 1, _ => seq(|corpus.freq|, _ => 0.0));
      cache := seq(|corpus.freq| - 1, _ => Cache(0.0, 0, 0));
      members := seq(|corpus.freq|, j => [j]);
      parent := seq(|corpus.freq|, _ => -1);
      new;
      LeavesOk(F(), k);
      LeavesListed(F(), weights);
      Begin();
    }

    /** The scores of the single documents, of all pairs, and the cache. */
    method Begin()
      requires Dims() && F().Ok(k) && P == k.P && forall i :: 0 <= i < N ==> SC1[i] == k.log(P[i][i])
      requires forall m :: 0 <= m < N ==> xdim[m] == m && m < |members| && members[m] == [m]
      modifies this`SC2, this`cache
      ensures Valid()
    {
      LeafColumns(k, F(), P, SC1);
      hide Forest.Ok, ColumnOk, RowOk;
      InitSc2();
      InitCache();
    }

    /** init_sc2. */
    method InitSc2()
      requires Dims() && F().Ok(k) && ColumnsOk() && forall m :: 0 <= m < N ==> xdim[m] >= 0
      modifies this`SC2
      ensures Dims() && forall j, i :: 0 <= j < i < N ==> PairOk(k, F(), SC2, j, i)
    {
      for j := 0 to N - 1
        invariant Dims()
        invariant forall a, i :: 0 <= a < j && a < i < N ==> SC2[a][i] == F().PairGain(k, xdim[a], xdim[i])
      {
        InitRow(j);
      }
    }

    /** The inner loop of init_sc2. */
    method InitRow(j: nat)
      requires Dims() && F().Ok(k) && ColumnsOk() && j < N - 1 && forall m :: 0 <= m < N ==> xdim[m] >= 0
      modifies this`SC2
      ensures Dims() && (forall a :: 0 <= a < N - 1 && a != j ==> SC2[a] == old(SC2)[a])
      ensures forall i :: j < i < N ==> SC2[j][i] == F().PairGain(k, xdim[j], xdim[i])
    {
      for i := j + 1 to N
        invariant Dims() && (forall a :: 0 <= a < N - 1 && a != j ==> SC2[a] == old(SC2)[a])
        invariant forall b :: j < b < i ==> SC2[j][b] == F().PairGain(k, xdim[j], xdim[b])
      {
        var v := PairScore(j, i);
        SC2 := SC2[j := SC2[j][i := v]];
      }
    }

    method InitCache()
      requires Dims()
      modifies this`cache
      ensures Dims() && forall j :: 0 <= j < N - 1 ==> CacheOk(j)
    {
      for j := 0 to N - 1
        invariant Dims() && forall i :: 0 <= i < j ==> CacheOk(i)
      {
        label L:
        UpdateCacheLine(j);
        forall i | 0 <= i < j
          ensures CacheOk(i)
        {
          assert old@L(CacheOk(i));
        }
      }
    }

    /** The merging loop of ncs. */
    method Run()
      requires Valid() && Listed() && |clusters| == N
      modifies this
      ensures Valid() && Listed() && |clusters| == 2 * N - 1
    {
      for n := 0 to N - 1
        invariant Valid() && Listed() && |clusters| == N + n
      {
        hide Forest.Listed;
        var x, y := Argmax();
        Merge(x, y);
      }
    }

    // ---------------------------------------------------------------- scores

    /** The matrix column of slot m is that of a cluster of the documents ms. */
    ghost predicate ColumnIs(m: int, ms: seq<nat>)
      requires Dims()
      reads this
    {
      0 <= m < N && k.Docs(ms) && forall d :: 0 <= d < N ==> P[d][m] == k.Mean(d, ms)
    }

    /** sc1: the sum over the whole list of the cluster. */
    method Sc1(z: Cluster, ghost ms: seq<nat>) returns (u: real)
      requires Dims() && ListOk(next, z.doclist, ms) && Ends(next, ms) && ColumnIs(z.midx, ms)
      ensures u == k.LogSC(ms)
    {
      u := 0.0;
      var d := z.doclist;
      ghost var i := 0;
      while d != -1
        invariant 0 <= i <= |ms| && d == if i < |ms| then ms[i] else -1
        invariant u == k.LogSum(ms[..i], ms)
        decreases |ms| - i
      {
        u := u + k.log(P[d][z.midx]);
        assert ms[..i + 1][..i] == ms[..i];
        d := next[d];
        i := i + 1;
      }
      assert ms[..i] == ms;
    }

    /** One of the two loops of sc2: the documents of one cluster under the blended columns. */
    method BlendedSum(head: int, sc0: real, w1: real, mx: int, w2: real, my: int,
                      ghost ms: seq<nat>, ghost dx: seq<nat>, ghost dy: seq<nat>) returns (sc: real)
      requires Dims() && ListOk(next, head, ms) && Ends(next, ms)
      requires ColumnIs(mx, dx) && ColumnIs(my, dy) && k.FreqSum(dx) > 0 && k.FreqSum(dy) > 0
      requires w1 == k.FreqSum(dx) as real / (k.FreqSum(dx) + k.FreqSum(dy)) as real
      requires w2 == k.FreqSum(dy) as real / (k.FreqSum(dx) + k.FreqSum(dy)) as real
      ensures sc == sc0 + k.LogSum(ms, dx + dy)
    {
      sc := sc0;
      var d := head;
      ghost var i := 0;
      while d != -1
        invariant 0 <= i <= |ms| && d == if i < |ms| then ms[i] else -1
        invariant sc == sc0 + k.LogSum(ms[..i], dx + dy)
        decreases |ms| - i
      {
        k.MeanOfUnion(d, dx, dy);
        assert k.Mean(d, dx + dy) == Blend(k.FreqSum(dx), P[d][mx], k.FreqSum(dy), P[d][my]);
        assert w1 * P[d][mx] + w2 * P[d][my] == k.Mean(d, dx + dy);
        sc := sc + k.log(w1 * P[d][mx] + w2 * P[d][my]);
        assert ms[..i + 1][..i] == ms[..i];
        d := next[d];
        i := i + 1;
      }
      assert ms[..i] == ms;
    }

    /** sc2 computes the gain of merging two clusters. */
    method Sc2(x: Cluster, y: Cluster, ghost dx: seq<nat>, ghost dy: seq<nat>) returns (v: real)
      requires Dims()
      requires ListOk(next, x.doclist, dx) && Ends(next, dx) && ColumnIs(x.midx, dx) && x.freqSum == k.FreqSum(dx)
      requires ListOk(next, y.doclist, dy) && Ends(next, dy) && ColumnIs(y.midx, dy) && y.freqSum == k.FreqSum(dy)
      requires SC1[x.midx] == k.LogSC(dx) && SC1[y.midx] == k.LogSC(dy)
      ensures v == k.Gain(dx, dy)
    {
      k.FreqSumPositive(dx);
      k.FreqSumPositive(dy);
      var freqSum := (x.freqSum + y.freqSum) as real;
      var w1 := x.freqSum as real / freqSum;
      var w2 := y.freqSum as real / freqSum;
      var sc := BlendedSum(x.doclist, 0.0, w1, x.midx, w2, y.midx, dx, dx, dy);
      sc := BlendedSum(y.doclist, sc, w1, x.midx, w2, y.midx, dy, dx, dy);
      k.LogSumAppend(dx, dy, dx + dy);
      return sc - (SC1[x.midx] + SC1[y.midx]);
    }

    // ---------------------------------------------------------------- the cache

    method UpdateCacheLine(j: nat)
      requires Dims() && j < N - 1
      modifies this`cache
      ensures |cache| == N - 1 && forall i :: 0 <= i < N - 1 && i != j ==> cache[i] == old(cache)[i]
      ensures RowOk(xdim, SC2[j], cache[j], j)
    {
      var i, idx, elemNum, maxval, first := j + 1, N, 0, 0.0, true;
      while i < N
        invariant j < i <= N && cache == old(cache)
        invariant elemNum == |LiveRight(xdim[..i], j)|
        invariant first <==> LiveRight(xdim[..i], j) == {}
        invariant first ==> idx == N
        invariant !first ==> idx in LiveRight(xdim[..i], j) && maxval == SC2[j][idx]
        invariant forall c :: c in LiveRight(xdim[..i], j) ==> SC2[j][c] <= maxval
      {
        LiveRightStep(xdim, j, i);
        if xdim[i] >= 0 {
          var v := SC2[j][i];
          if first || maxval < v {
            maxval := v;
            idx := i;
            first := false;
          }
          elemNum := elemNum + 1;
        }
        i := i + 1;
      }
      assert xdim[..i] == xdim;
      cache := cache[j := Cache(maxval, idx, elemNum)];
    }

    /** The scan of argmax over the cached row maxima. */
    method ScanCache() returns (row: nat)
      requires Dims() && forall j :: 0 <= j < N - 1 ==> CacheOk(j)
      requires exists m, n :: 0 <= m < n < N && xdim[m] >= 0 && xdim[n] >= 0
      ensures row < N - 1 && xdim[row] >= 0 && cache[row].index != N
      ensures forall j, i :: 0 <= j < i < N && xdim[j] >= 0 && xdim[i] >= 0 ==> SC2[j][i] <= cache[row].maxval
    {
      var first, maxval := true, 0.0;
      var r: nat := N;
      for j := 0 to N - 1
        invariant first ==> r == N
        invariant !first ==> r < j && xdim[r] >= 0 && cache[r].index != N && maxval == cache[r].maxval
        invariant forall c :: 0 <= c < j && xdim[c] >= 0 && cache[c].index != N ==> !first && cache[c].maxval <= maxval
      {
        if xdim[j] >= 0 && cache[j].index != N {
          if first || maxval < cache[j].maxval {
            first := false;
            maxval := cache[j].maxval;
            r := j;
          }
        }
      }
      ghost var m, n :| 0 <= m < n < N && xdim[m] >= 0 && xdim[n] >= 0;
      assert CacheOk(m) && n in LiveRight(xdim, m);
      assert r != N;
      row := r;
      forall j, i | 0 <= j < i < N && xdim[j] >= 0 && xdim[i] >= 0
        ensures SC2[j][i] <= cache[row].maxval
      {
        assert CacheOk(j) && i in LiveRight(xdim, j);
      }
    }

    /** argmax: an open pair of greatest gain. */
    method Argmax() returns (x: nat, y: nat)
      requires Valid() && |clusters| < 2 * N - 1
      ensures x < |clusters| && y < |clusters| && parent[x] == -1 && parent[y] == -1
      ensures 0 <= clusters[x].midx < clusters[y].midx < N
      ensures xdim[clusters[x].midx] == x && xdim[clusters[y].midx] == y
      ensures forall a, b :: F().OpenAt(a, |clusters|) && F().OpenAt(b, |clusters|) && a != b ==>
                F().PairGain(k, a, b) <= F().PairGain(k, x, y)
    {
      ghost var m, n := TwoLiveSlots(F(), k);
      assert F().Shape() && F().TreeOk();
      hide Forest.ListsOk, Forest.PartitionAt, Forest.GreedyAt, Forest.SlotsOk, Forest.TreeOk;
      var row := ScanCache();
      assert CacheOk(row);
      var col := cache[row].index;
      assert col in LiveRight(xdim, row);
      x, y := xdim[row], xdim[col];
      LiveIsOpen(F(), k, row);
      LiveIsOpen(F(), k, col);
      assert PairOk(k, F(), SC2, row, col);
      forall a, b | F().OpenAt(a, |clusters|) && F().OpenAt(b, |clusters|) && a != b
        ensures F().PairGain(k, a, b) <= F().PairGain(k, x, y)
      {
        OpenPair(row, col, a, b);
      }
    }

    /** No open pair gains more than the best of the live slots. */
    lemma OpenPair(row: nat, col: nat, a: int, b: int)
      requires Valid() && row < N - 1 && col < N
      requires forall j, i :: 0 <= j < i < N && xdim[j] >= 0 && xdim[i] >= 0 ==> SC2[j][i] <= SC2[row][col]
      requires F().OpenAt(a, |clusters|) && F().OpenAt(b, |clusters|) && a != b
      ensures F().PairGain(k, a, b) <= SC2[row][col]
    {
      OpenIsLive(F(), k, a);
      OpenIsLive(F(), k, b);
      hide Forest.Ok;
      var ma, mb := clusters[a].midx, clusters[b].midx;
      if ma < mb {
        assert PairOk(k, F(), SC2, ma, mb);
      } else {
        assert PairOk(k, F(), SC2, mb, ma);
        PairGainSymmetric(F(), k, a, b);
      }
    }

    // ---------------------------------------------------------------- the steps of merge

    /** nconc: walks to the end of list a and hangs list b there. */
    method Nconc(a: int, b: int, ghost ms: seq<nat>)
      requires ListOk(next, a, ms) && Ends(next, ms)
      modifies this`next
      ensures next == old(next)[ms[|ms| - 1] := b]
    {
      var c := a;
      ghost var i := 0;
      while next[c] != -1
        invariant 0 <= i < |ms| && c == ms[i] && next == old(next)
        invariant next[c] == if i < |ms| - 1 then ms[i + 1] else -1
        decreases |ms| - i
      {
        c := next[c];
        i := i + 1;
      }
      next := next[c := b];
    }

    /** The new column of slot mx; the column of slot my is cleared. */
    method BlendColumns(w1: real, mx: nat, w2: real, my: nat)
      requires Dims() && mx < N && my < N && mx != my
      modifies this`P
      ensures Dims()
      ensures forall d :: 0 <= d < N ==> P[d] == BlendRow(old(P)[d], w1, mx, w2, my)
    {
      var j := 0;
      while j < N
        invariant 0 <= j <= N && Dims()
        invariant forall d :: 0 <= d < j ==> P[d] == BlendRow(old(P)[d], w1, mx, w2, my)
        invariant forall d :: j <= d < N ==> P[d] == old(P)[d]
      {
        ghost var row := P[j];
        var v := w1 * P[j][mx] + w2 * P[j][my];
        P := P[j := P[j][mx := v]];
        P := P[j := P[j][my := 0.0]];
        assert P[j] == BlendRow(row, w1, mx, w2, my);
        j := j + 1;
      }
    }

    /** The cache after slot y died: lines that pointed at it are recomputed. */
    method ForgetColumn(y: nat)
      requires Dims() && y < N && xdim[y] == -1
      requires forall j :: 0 <= j < N - 1 && j != y && xdim[j] >= 0 ==> RowOk(xdim[y := 0], SC2[j], cache[j], j)
      modifies this`cache
      ensures Dims() && forall j :: 0 <= j < N - 1 ==> CacheOk(j)
    {
      var j := 0;
      while j < y
        invariant 0 <= j <= y && Dims()
        invariant forall i :: 0 <= i < j ==> CacheOk(i)
        invariant forall i :: j <= i < N - 1 ==> cache[i] == old(cache)[i]
      {
        label L:
        ForgetAt(j, y);
        forall i | 0 <= i < j
          ensures CacheOk(i)
        {
          assert old@L(CacheOk(i));
        }
        j := j + 1;
      }
      label M:
      if y < N - 1 {
        cache := cache[y := Cache(0.0, N, 0)];
      }
      forall i | 0 <= i < y
        ensures CacheOk(i)
      {
        assert old@M(CacheOk(i));
      }
      forall i | y < i < N - 1
        ensures CacheOk(i)
      {
        assert LiveRight(xdim[y := 0], i) == LiveRight(xdim, i);
      }
    }

    method ForgetAt(j: nat, y: nat)
      requires Dims() && j < y < N && xdim[y] == -1
      requires xdim[j] >= 0 ==> RowOk(xdim[y := 0], SC2[j], cache[j], j)
      modifies this`cache
      ensures Dims() && CacheOk(j)
      ensures forall i :: 0 <= i < N - 1 && i != j ==> cache[i] == old(cache)[i]
    {
      if xdim[j] < 0 {
        return;
      }
      DeadColumn(xdim, SC2[j], cache[j], y, j);
      if cache[j].index == y {
        UpdateCacheLine(j);
      }
    }

    /** All live columns hold their clusters' means and scores. */
    ghost predicate ColumnsOk()
      requires Dims() && F().Ok(k)
      reads this
    {
      forall m :: 0 <= m < N ==> ColumnOk(k, F(), P, SC1, m)
    }

    /** sc2 of the clusters in slots j and i. */
    method PairScore(j: nat, i: nat) returns (v: real)
      requires Dims() && F().Ok(k) && ColumnsOk() && j < N && i < N && xdim[j] >= 0 && xdim[i] >= 0
      ensures v == F().PairGain(k, xdim[j], xdim[i])
    {
      LiveIsOpen(F(), k, j);
      LiveIsOpen(F(), k, i);
      assert ColumnOk(k, F(), P, SC1, j) && ColumnOk(k, F(), P, SC1, i);
      v := Sc2(clusters[xdim[j]], clusters[xdim[i]], members[xdim[j]], members[xdim[i]]);
    }

    /** One round of the column loop of merge: the new score of row j in column z. */
    method UpdateAt(j: nat, z: nat)
      requires Dims() && F().Ok(k) && ColumnsOk() && j < z < N && xdim[j] >= 0 && xdim[z] >= 0
      requires CacheOk(j)
      modifies this`SC2, this`cache
      ensures Dims() && CacheOk(j)
      ensures SC2 == old(SC2)[j := old(SC2)[j][z := F().PairGain(k, xdim[j], xdim[z])]]
      ensures forall i :: 0 <= i < N - 1 && i != j ==> cache[i] == old(cache)[i]
    {
      var v := PairScore(j, z);
      StoredColumn(xdim, SC2[j], cache[j], j, z, v);
      SC2 := SC2[j := SC2[j][z := v]];
      var cp := cache[j];
      if cp.elemNum == 1 {
        assert cp.index == z;
        if cp.maxval != v {
          cache := cache[j := cp.(maxval := v)];
        }
      } else if cp.maxval < v {
        cache := cache[j := cp.(maxval := v, index := z)];
      } else if cp.index == z && v < cp.maxval {
        UpdateCacheLine(j);
      }
    }

    /** The column loop of merge. */
    method RecomputeColumn(z: nat)
      requires Dims() && F().Ok(k) && ColumnsOk() && z < N && xdim[z] >= 0
      requires forall j :: 0 <= j < N - 1 ==> CacheOk(j)
      modifies this`SC2, this`cache
      ensures Dims() && forall j :: 0 <= j < N - 1 ==> CacheOk(j)
      ensures forall j :: 0 <= j < N - 1 ==> SC2[j] == if j < z && xdim[j] >= 0
        then old(SC2)[j][z := F().PairGain(k, xdim[j], xdim[z])] else old(SC2)[j]
    {
      var j := 0;
      while j < z
        invariant 0 <= j <= z && Dims()
        invariant forall i :: 0 <= i < N - 1 ==> CacheOk(i)
        invariant forall i :: 0 <= i < N - 1 ==> SC2[i] == if i < j && xdim[i] >= 0
          then old(SC2)[i][z := F().PairGain(k, xdim[i], xdim[z])] else old(SC2)[i]
      {
        if xdim[j] >= 0 {
          label L:
          UpdateAt(j, z);
          forall i | 0 <= i < N - 1 && i != j
            ensures CacheOk(i)
          {
            assert old@L(CacheOk(i));
          }
        }
        j := j + 1;
      }
    }

    /** The row loop of merge and the refresh of its cache line. */
    method RecomputeRow(z: nat)
      requires Dims() && F().Ok(k) && ColumnsOk() && z < N - 1 && xdim[z] >= 0
      requires forall j :: 0 <= j < N - 1 && j != z ==> CacheOk(j)
      modifies this`SC2, this`cache
      ensures Dims() && forall j :: 0 <= j < N - 1 ==> CacheOk(j)
      ensures forall j :: 0 <= j < N - 1 && j != z ==> SC2[j] == old(SC2)[j]
      ensures forall i :: z < i < N ==> SC2[z][i] == if xdim[i] >= 0
        then F().PairGain(k, xdim[z], xdim[i]) else old(SC2)[z][i]
    {
      var i := z + 1;
      while i < N
        invariant z < i <= N && Dims() && cache == old(cache)
        invariant forall j :: 0 <= j < N - 1 && j != z ==> SC2[j] == old(SC2)[j]
        invariant forall c :: z < c < N ==> SC2[z][c] == if c < i && xdim[c] >= 0
          then F().PairGain(k, xdim[z], xdim[c]) else old(SC2)[z][c]
      {
        if xdim[i] >= 0 {
          var v := PairScore(z, i);
          SC2 := SC2[z := SC2[z][i := v]];
        }
        i := i + 1;
      }
      UpdateCacheLine(z);
      forall j | 0 <= j < N - 1 && j != z
        ensures CacheOk(j)
      {
        assert old(CacheOk(j));
      }
    }

    /** Before a merge: x and y of forest f can be merged, and f' is what comes of it. */
    ghost predicate Ready(f: Forest, f': Forest, x: nat, y: nat, l: nat, r: nat)
      reads this
    {
      && Dims() && N == |f.next| && Mergeable(f, k, x, y, l, r) && f' == Merged(f, x, y, l, r) && f'.Ok(k)
      && f.clusters[x].midx < f.clusters[y].midx
    }

    /** What a merge does to the parts of the forest. */
    lemma MergeParts(f: Forest, f': Forest, x: nat, y: nat, l: nat, r: nat)
      requires Ready(f, f', x, y, l, r)
      ensures x < |f.clusters| && y < |f.clusters| && l < |f.clusters| && r < |f.clusters| && x != y
      ensures |f'.clusters| == |f.clusters| + 1 && |f'.xdim| == |f.xdim| == |f'.next| == N
      ensures var cx, cy, cz := f.clusters[x], f.clusters[y], f'.clusters[|f.clusters|];
              && 0 <= cx.midx < cy.midx < N
              && f'.xdim == f.xdim[cy.midx := -1][cx.midx := |f.clusters|]
              && f'.clusters == f.clusters[x := cx.(midx := -1)][y := cy.(midx := -1)] + [cz]
              && cz == Cluster(l, r, f.clusters[l].doclist, cx.ndocs + cy.ndocs, cx.freqSum + cy.freqSum,
                               cx.weight + cy.weight, cx.midx)
      ensures var ms := f.members[l];
              && ListOk(f.next, f.clusters[l].doclist, ms) && Ends(f.next, ms)
              && f'.next == f.next[ms[|ms| - 1] := f.clusters[r].doclist]
    {
      assert f.ClusterOk(k, l) && f.ClusterOk(k, r);
    }

    /** The list half of merge: the cluster record and the joined lists. */
    method JoinLists(x: nat, y: nat, l: nat, r: nat, ghost f: Forest, ghost f': Forest) returns (cz: Cluster)
      requires Ready(f, f', x, y, l, r) && next == f.next && clusters == f.clusters && members == f.members
      modifies this`next, this`clusters
      ensures next == f'.next && clusters == f.clusters + [cz]
      ensures f'.clusters == f'.clusters[..|f.clusters|] + [cz]
    {
      MergeParts(f, f', x, y, l, r);
      hide Ready, Mergeable, Merged, ListOk, Ends;
      var cx, cy := clusters[x], clusters[y];
      Nconc(clusters[l].doclist, clusters[r].doclist, f.members[l]);
      cz := Cluster(l, r, clusters[l].doclist, cx.ndocs + cy.ndocs, cx.freqSum + cy.freqSum,
                    cx.weight + cy.weight, cx.midx);
      clusters := clusters + [cz];
    }

    /** The matrix half of merge: the new column and its score. */
    method NewScores(x: nat, y: nat, cz: Cluster, l: nat, r: nat, ghost f: Forest, ghost f': Forest)
      requires Ready(f, f', x, y, l, r) && next == f'.next && clusters == f.clusters + [cz]
      requires f'.clusters == f'.clusters[..|f.clusters|] + [cz]
      requires forall m :: 0 <= m < N ==> ColumnOk(k, f, P, SC1, m)
      modifies this`P, this`SC1
      ensures Dims()
      ensures forall m :: 0 <= m < N ==> ColumnOk(k, f', P, SC1, m)
    {
      MergeParts(f, f', x, y, l, r);
      ghost var P0, SC0 := P, SC1;
      ghost var ms := NewList(f, f', x, y, l, r, cz);
      hide Ready, Mergeable, Merged, ColumnOk, Forest.Ok, BlendRow;
      var mx, my := clusters[x].midx, clusters[y].midx;
      BlendInto(x, y, cz, l, r, f, f');
      SC1 := SC1[my := 0.0];
      var u := Sc1(cz, ms);
      SC1 := SC1[mx := u];
      ColumnsDone(f, f', P0, SC0, P, SC1, x, y, l, r);
    }

    lemma ColumnsDone(f: Forest, f': Forest, P0: seq<seq<real>>, SC0: seq<real>, P1: seq<seq<real>>, S: seq<real>,
                      x: nat, y: nat, l: nat, r: nat)
      requires Ready(f, f', x, y, l, r) && x < |f.clusters| && y < |f.clusters|
      requires |P0| == |P1| == |SC0| == |S| == |f.next| && forall d :: 0 <= d < |P1| ==> |P0[d]| == |P1[d]| == |f.next|
      requires forall m :: 0 <= m < |f.next| ==> ColumnOk(k, f, P0, SC0, m)
      requires forall d, m :: 0 <= d < N && 0 <= m < N && m != f.clusters[x].midx && m != f.clusters[y].midx ==>
                 P1[d][m] == P0[d][m]
      requires forall m :: 0 <= m < |f.next| && m != f.clusters[x].midx && m != f.clusters[y].midx ==> S[m] == SC0[m]
      requires |f'.members| == |f.clusters| + 1 && 0 <= f.clusters[x].midx < N
      requires var ms := f'.members[|f.clusters|];
               && k.Docs(ms) && S[f.clusters[x].midx] == k.LogSC(ms)
               && forall d :: 0 <= d < N ==> P1[d][f.clusters[x].midx] == k.Mean(d, ms)
      ensures forall m :: 0 <= m < N ==> ColumnOk(k, f', P1, S, m)
    {
      hide ColumnOk, Mergeable, Merged, Corpus.Mean, Corpus.LogSC;
      assert f'.ClusterOk(k, |f.clusters|);
      MergedColumns(k, f, f', P0, SC0, P1, S, x, y, l, r);
    }

    /** The column of the new cluster, in the place of that of x. */
    method BlendInto(x: nat, y: nat, cz: Cluster, l: nat, r: nat, ghost f: Forest, ghost f': Forest)
      requires Ready(f, f', x, y, l, r) && clusters == f.clusters + [cz]
      requires f'.clusters == f'.clusters[..|f.clusters|] + [cz]
      requires forall m :: 0 <= m < N ==> ColumnOk(k, f, P, SC1, m)
      modifies this`P
      ensures Dims() && x < |f.clusters| && y < |f.clusters| && l < |f.members| && r < |f.members|
      ensures 0 <= f.clusters[x].midx < N
      ensures ColumnIs(f.clusters[x].midx, f.members[l] + f.members[r])
      ensures forall d, m :: 0 <= d < N && 0 <= m < N && m != f.clusters[x].midx && m != f.clusters[y].midx ==>
                P[d][m] == old(P)[d][m]
    {
      MergeParts(f, f', x, y, l, r);
      Positive(k, f, x);
      Positive(k, f, y);
      hide Merged, ColumnOk, Forest.Ok, BlendRow;
      ghost var P0 := P;
      var cx, cy := clusters[x], clusters[y];
      var w1 := cx.freqSum as real / cz.freqSum as real;
      var w2 := cy.freqSum as real / cz.freqSum as real;
      BlendColumns(w1, cx.midx, w2, cy.midx);
      NewColumn(k, f, P0, SC1, P, x, y, l, r);
      BlendedElsewhere(P0, P, w1, cx.midx, w2, cy.midx);
    }

    /** The list of the new cluster. */
    lemma NewList(f: Forest, f': Forest, x: nat, y: nat, l: nat, r: nat, cz: Cluster) returns (ms: seq<nat>)
      requires Ready(f, f', x, y, l, r) && next == f'.next && f'.clusters == f'.clusters[..|f.clusters|] + [cz]
      ensures l < |f.members| && r < |f.members| && ms == f.members[l] + f.members[r]
      ensures ListOk(next, cz.doclist, ms) && Ends(next, ms)
      ensures |f'.members| == |f.clusters| + 1 == |f'.clusters|
      ensures f'.members[|f.clusters|] == ms && f'.ClusterOk(k, |f.clusters|)
    {
      assert f'.ClusterOk(k, |f.clusters|);
      ms := f'.members[|f.clusters|];
    }

    /** y dies, the new cluster takes the place of x, and the cache forgets y. */
    method Retire(x: nat, y: nat, l: nat, r: nat, ghost f: Forest, ghost f': Forest)
      requires Ready(f, f', x, y, l, r) && xdim == f.xdim
      requires |clusters| == |f.clusters| + 1 && clusters[..|f.clusters|] == f.clusters
      requires forall j :: 0 <= j < N - 1 ==> CacheOk(j)
      modifies this`xdim, this`cache
      ensures Dims() && xdim == f'.xdim
      ensures forall j :: 0 <= j < N - 1 ==> CacheOk(j)
    {
      MergeParts(f, f', x, y, l, r);
      KeptLines(f.xdim, f.clusters[x].midx, f.clusters[y].midx, |f.clusters|);
      hide Mergeable, Merged, Forest.Ok, RowOk;
      assert clusters[x] == f.clusters[x] && clusters[y] == f.clusters[y];
      Reassign(clusters[x].midx, clusters[y].midx, |clusters| - 1);
    }

    /** Slot my is vacated and slot mx taken over by z. */
    method Reassign(mx: nat, my: nat, z: nat)
      requires Dims() && mx < my < N
      requires forall j :: 0 <= j < N - 1 && j != my && xdim[my := -1][mx := z][j] >= 0 ==>
                 RowOk(xdim[my := -1][mx := z][my := 0], SC2[j], cache[j], j)
      modifies this`xdim, this`cache
      ensures Dims() && xdim == old(xdim)[my := -1][mx := z]
      ensures forall j :: 0 <= j < N - 1 ==> CacheOk(j)
    {
      hide RowOk;
      xdim := xdim[my := -1];
      xdim := xdim[mx := z];
      ForgetColumn(my);
    }

    /** The slot half of merge: y dies, z takes the place of x, the cache forgets y. */
    method MoveSlots(x: nat, y: nat, l: nat, r: nat, cz: Cluster, ghost f: Forest, ghost f': Forest)
      requires Ready(f, f', x, y, l, r) && next == f'.next && xdim == f.xdim
      requires clusters == f.clusters + [cz] && f'.clusters == f'.clusters[..|f.clusters|] + [cz]
      requires forall j :: 0 <= j < N - 1 ==> CacheOk(j)
      modifies this`clusters, this`xdim, this`cache, this`members, this`parent
      ensures Dims() && F() == f'
      ensures forall j :: 0 <= j < N - 1 ==> CacheOk(j)
    {
      MergeParts(f, f', x, y, l, r);
      hide Ready, Mergeable, Merged, Forest.Ok, RowOk;
      var cx, cy := clusters[x], clusters[y];
      Retire(x, y, l, r, f, f');
      label L:
      clusters := clusters[x := cx.(midx := -1)];
      clusters := clusters[y := cy.(midx := -1)];
      members, parent := f'.members, f'.parent;
      assert clusters == f'.clusters;
      forall j | 0 <= j < N - 1
        ensures CacheOk(j)
      {
        assert old@L(CacheOk(j));
      }
    }

    /** The column loop and the row loop of merge. */
    method Recompute(z: nat)
      requires Dims() && F().Ok(k) && ColumnsOk() && z < N - 1 && xdim[z] >= 0
      requires forall j :: 0 <= j < N - 1 ==> CacheOk(j)
      modifies this`SC2, this`cache
      ensures Dims() && forall j :: 0 <= j < N - 1 ==> CacheOk(j)
      ensures Refreshed(k, F(), old(SC2), SC2, z)
    {
      hide Forest.ListsOk, Forest.PartitionAt, Forest.GreedyAt, Forest.TreeOk, RowOk;
      RecomputeColumn(z);
      RecomputeRow(z);
    }

    /** The score half of merge: one row and one column are computed anew. */
    method Rescore(z: nat, ghost x: nat, ghost y: nat, ghost l: nat, ghost r: nat, ghost f: Forest, ghost f': Forest)
      requires Ready(f, f', x, y, l, r) && z == f.clusters[x].midx && F() == f' && ColumnsOk()
      requires forall j, i :: 0 <= j < i < N ==> PairOk(k, f, SC2, j, i)
      requires forall j :: 0 <= j < N - 1 ==> CacheOk(j)
      modifies this`SC2, this`cache
      ensures Valid()
    {
      MergeParts(f, f', x, y, l, r);
      hide Forest.Ok, RowOk, Merged, Mergeable, PairOk, ColumnOk, Refreshed;
      ghost var S0 := SC2;
      Recompute(z);
      MergedPairs(k, f, F(), S0, SC2, x, y, l, r);
    }

    /** merge: x and y become one cluster in the slot of x. */
    method Merge(x: nat, y: nat)
      requires Valid() && Listed() && |clusters| < 2 * N - 1
      requires x < |clusters| && y < |clusters| && parent[x] == -1 && parent[y] == -1
      requires 0 <= clusters[x].midx < clusters[y].midx < N
      requires forall a, b :: F().OpenAt(a, |clusters|) && F().OpenAt(b, |clusters|) && a != b ==>
                 F().PairGain(k, a, b) <= F().PairGain(k, x, y)
      modifies this
      ensures Valid() && Listed()
      ensures |clusters| == old(|clusters|) + 1 && old(members) <= members
      ensures var z := clusters[old(|clusters|)];
              (z.left == x && z.right == y) || (z.left == y && z.right == x)
      ensures forall c :: 0 <= c < old(|clusters|) && c != x && c != y ==> parent[c] == old(parent)[c]
    {
      MakeReady(x, y);
      var l, r := x, y;
      if clusters[x].weight / clusters[x].ndocs as real < clusters[y].weight / clusters[y].ndocs as real {
        l, r := y, x;
      }
      ghost var f := F();
      assert Chosen(f, x, y, l, r);
      MergeInto(x, y, l, r);
      MergedListed(f, k, weights, x, y, l, r);
    }

    /** The rest of merge, with the order of the lists decided. */
    method MergeInto(x: nat, y: nat, l: nat, r: nat)
      requires Valid() && x < |clusters| && y < |clusters|
      requires exists f' :: Ready(F(), f', x, y, l, r)
      modifies this
      ensures Valid() && Mergeable(old(F()), k, x, y, l, r) && F() == Merged(old(F()), x, y, l, r)
      ensures |clusters| == old(|clusters|) + 1
      ensures clusters[old(|clusters|)].left == l && clusters[old(|clusters|)].right == r
      ensures old(members) <= members
      ensures forall c :: 0 <= c < old(|clusters|) && c != x && c != y ==> parent[c] == old(parent)[c]
    {
      ghost var f := F();
      ghost var f' :| Ready(f, f', x, y, l, r);
      assert Mergeable(f, k, x, y, l, r) && f' == Merged(f, x, y, l, r);
      MergeParts(f, f', x, y, l, r);
      MergeKeeps(f, f', x, y, l, r);
      hide Ready, Mergeable, Merged, Forest.Ok, RowOk, ColumnOk, PairOk;
      var mx := clusters[x].midx;
      StepOne(x, y, l, r, f, f');
      Rescore(mx, x, y, l, r, f, f');
    }

    /** Lists, columns and slots. */
    method StepOne(x: nat, y: nat, l: nat, r: nat, ghost f: Forest, ghost f': Forest)
      requires Valid() && F() == f && Ready(f, f', x, y, l, r)
      modifies this`next, this`clusters, this`P, this`SC1, this`xdim, this`cache, this`members, this`parent
      ensures Ready(f, f', x, y, l, r) && F() == f' && ColumnsOk()
      ensures forall j :: 0 <= j < N - 1 ==> CacheOk(j)
    {
      MergeParts(f, f', x, y, l, r);
      hide Mergeable, Merged, Forest.Ok, RowOk, ColumnOk, PairOk;
      var cz := JoinLists(x, y, l, r, f, f');
      NewScores(x, y, cz, l, r, f, f');
      forall j | 0 <= j < N - 1
        ensures CacheOk(j)
      {
        assert old(CacheOk(j));
      }
      MoveSlots(x, y, l, r, cz, f, f');
    }

    lemma MergeKeeps(f: Forest, f': Forest, x: nat, y: nat, l: nat, r: nat)
      requires Ready(f, f', x, y, l, r)
      ensures f.members <= f'.members && |f'.parent| == |f.parent| + 1 == |f'.clusters| == |f.clusters| + 1
      ensures f'.clusters[|f.clusters|].left == l && f'.clusters[|f.clusters|].right == r
      ensures forall c :: 0 <= c < |f.parent| && c != x && c != y ==> f'.parent[c] == f.parent[c]
    {
    }

    lemma MakeReady(x: nat, y: nat)
      requires Valid() && |clusters| < 2 * N - 1
      requires x < |clusters| && y < |clusters| && parent[x] == -1 && parent[y] == -1
      requires clusters[x].midx < clusters[y].midx
      requires forall a, b :: F().OpenAt(a, |clusters|) && F().OpenAt(b, |clusters|) && a != b ==>
                 F().PairGain(k, a, b) <= F().PairGain(k, x, y)
      ensures exists f' :: Ready(F(), f', x, y, x, y)
      ensures exists f' :: Ready(F(), f', x, y, y, x)
      ensures clusters[x].ndocs > 0 && clusters[y].ndocs > 0
    {
      var f := F();
      assert f.SlotOk(x) && f.SlotOk(y) && f.ClusterOk(k, x) && f.ClusterOk(k, y);
      PairGainSymmetric(f, k, x, y);
      MergedOk(f, k, x, y, x, y);
      MergedOk(f, k, x, y, y, x);
      assert Ready(f, Merged(f, x, y, x, y), x, y, x, y);
      assert Ready(f, Merged(f, x, y, y, x), x, y, y, x);
    }

    /** Moving a live slot and emptying another leaves the lines of the other slots right,
        but for the dead column. */
    lemma KeptLines(xs: seq<int>, mx: nat, my: nat, z: nat)
      requires Dims() && xdim == xs && mx < my < N
      requires xs[mx] >= 0 && xs[my] >= 0 && forall j :: 0 <= j < N - 1 ==> CacheOk(j)
      ensures forall j :: 0 <= j < N - 1 && j != my && xs[my := -1][mx := z][j] >= 0 ==>
                RowOk(xs[my := -1][mx := z][my := 0], SC2[j], cache[j], j)
    {
      forall j | 0 <= j < N - 1 && j != my && xs[my := -1][mx := z][j] >= 0
        ensures RowOk(xs[my := -1][mx := z][my := 0], SC2[j], cache[j], j)
      {
        assert CacheOk(j);
        assert LiveRight(xs[my := -1][mx := z][my := 0], j) == LiveRight(xs, j);
      }
    }
  }

  /** Blending touches two columns only. */
  lemma BlendedElsewhere(P0: seq<seq<real>>, P: seq<seq<real>>, w1: real, mx: nat, w2: real, my: nat)
    requires |P0| == |P| && forall d :: 0 <= d < |P| ==> |P[d]| == |P0[d]| && mx < |P0[d]| && my < |P0[d]|
    requires forall d :: 0 <= d < |P| ==> P[d] == BlendRow(P0[d], w1, mx, w2, my)
    ensures forall d, m :: 0 <= d < |P| && 0 <= m < |P0[d]| && m != mx && m != my ==> P[d][m] == P0[d][m]
  {
  }

  lemma Positive(k: Corpus, f: Forest, c: nat)
    requires f.Ok(k) && c < |f.clusters|
    ensures f.clusters[c].freqSum > 0
  {
    assert f.ClusterOk(k, c);
    k.FreqSumPositive(f.members[c]);
  }

  /** The blended column is the column of the union. */
  lemma NewColumn(k: Corpus, f: Forest, P0: seq<seq<real>>, SC1: seq<real>, P: seq<seq<real>>,
                  x: nat, y: nat, l: nat, r: nat)
    requires Mergeable(f, k, x, y, l, r)
    requires |P0| == |P| == |SC1| == |f.next| && forall d :: 0 <= d < |P| ==> |P0[d]| == |P[d]| == |f.next|
    requires forall m :: 0 <= m < |f.next| ==> ColumnOk(k, f, P0, SC1, m)
    requires f.clusters[x].freqSum > 0 && f.clusters[y].freqSum > 0
    requires var h := (f.clusters[x].freqSum + f.clusters[y].freqSum) as real;
             forall d :: 0 <= d < |P| ==> P[d] == BlendRow(P0[d], f.clusters[x].freqSum as real / h, f.clusters[x].midx,
                                                           f.clusters[y].freqSum as real / h, f.clusters[y].midx)
    ensures var ms := f.members[l] + f.members[r];
            k.Docs(ms) && forall d :: 0 <= d < |P| ==> P[d][f.clusters[x].midx] == k.Mean(d, ms)
  {
    var mx, my := f.clusters[x].midx, f.clusters[y].midx;
    var a, b := f.members[x], f.members[y];
    assert ColumnOk(k, f, P0, SC1, mx) && ColumnOk(k, f, P0, SC1, my);
    var ms := f.members[l] + f.members[r];
    forall d | 0 <= d < |P|
      ensures P[d][mx] == k.Mean(d, ms)
    {
      BlendRowAt(P0[d], f.clusters[x].freqSum, mx, f.clusters[y].freqSum, my);
      BlendIsMean(k, d, a, b);
    }
  }

  lemma BlendRowAt(row: seq<real>, f: int, mx: nat, g: int, my: nat)
    requires mx < |row| && my < |row| && mx != my && f > 0 && g > 0
    ensures BlendRow(row, f as real / (f + g) as real, mx, g as real / (f + g) as real, my)[mx] ==
            Blend(f, row[mx], g, row[my])
  {
  }

  lemma BlendIsMean(k: Corpus, d: nat, a: seq<nat>, b: seq<nat>)
    requires k.Valid() && d < |k.freq| && k.Docs(a) && k.Docs(b)
    ensures k.FreqSum(a) > 0 && k.FreqSum(b) > 0
    ensures Blend(k.FreqSum(a), k.Mean(d, a), k.FreqSum(b), k.Mean(d, b)) == k.Mean(d, a + b) == k.Mean(d, b + a)
  {
    k.MeanOfUnion(d, a, b);
    k.MeanOfSwap(d, a, b);
  }

  /** All columns are right after the merge: the new one, and the untouched ones. */
  lemma MergedColumns(k: Corpus, f: Forest, f': Forest, P0: seq<seq<real>>, SC0: seq<real>,
                      P: seq<seq<real>>, SC1: seq<real>, x: nat, y: nat, l: nat, r: nat)
    requires Mergeable(f, k, x, y, l, r) && f' == Merged(f, x, y, l, r) && f'.Ok(k)
    requires |P0| == |P| == |SC0| == |SC1| == |f.next|
    requires forall d :: 0 <= d < |P| ==> |P0[d]| == |P[d]| == |f.next|
    requires forall m :: 0 <= m < |f.next| ==> ColumnOk(k, f, P0, SC0, m)
    requires forall m :: 0 <= m < |f.next| && m != f.clusters[x].midx && m != f.clusters[y].midx ==>
               SC1[m] == SC0[m] && forall d :: 0 <= d < |P| ==> P[d][m] == P0[d][m]
    requires var ms := f'.members[|f.clusters|];
             && f'.ClusterOk(k, |f.clusters|) && k.Docs(ms) && SC1[f.clusters[x].midx] == k.LogSC(ms)
             && forall d :: 0 <= d < |P| ==> P[d][f.clusters[x].midx] == k.Mean(d, ms)
    ensures forall m :: 0 <= m < |f.next| ==> ColumnOk(k, f', P, SC1, m)
  {
    forall m | 0 <= m < |f.next|
      ensures ColumnOk(k, f', P, SC1, m)
    {
      if f'.IsLive(m) && m != f.clusters[x].midx {
        assert ColumnOk(k, f, P0, SC0, m);
        LiveIsOpen(f', k, m);
      }
    }
  }

  /** Row and column z are right, the others as they were. */
  ghost predicate Refreshed(k: Corpus, f: Forest, S0: seq<seq<real>>, S: seq<seq<real>>, z: int)
    requires f.Ok(k) && |S0| == |S| == |f.next| - 1
    requires forall j :: 0 <= j < |S| ==> |S0[j]| == |S[j]| == |f.next|
  {
    forall j, i :: 0 <= j < i < |f.next| ==>
      if j != z && i != z then S[j][i] == S0[j][i]
      else f.IsLive(j) && f.IsLive(i) ==> S[j][i] == f.PairGain(k, f.xdim[j], f.xdim[i])
  }

  /** All stored scores are right after the merge, though only one row and one column
      were computed anew. */
  lemma MergedPairs(k: Corpus, f: Forest, f': Forest, S0: seq<seq<real>>, S: seq<seq<real>>,
                    x: nat, y: nat, l: nat, r: nat)
    requires Mergeable(f, k, x, y, l, r) && f' == Merged(f, x, y, l, r) && f'.Ok(k)
    requires |S0| == |S| == |f.next| - 1 && forall j :: 0 <= j < |S| ==> |S0[j]| == |S[j]| == |f.next|
    requires forall j, i :: 0 <= j < i < |f.next| ==> PairOk(k, f, S0, j, i)
    requires Refreshed(k, f', S0, S, f.clusters[x].midx)
    ensures forall j, i :: 0 <= j < i < |f.next| ==> PairOk(k, f', S, j, i)
  {
    var z := f.clusters[x].midx;
    forall j, i | 0 <= j < i < |f.next|
      ensures PairOk(k, f', S, j, i)
    {
      if f'.IsLive(j) && f'.IsLive(i) && j != z && i != z {
        assert PairOk(k, f, S0, j, i);
        LiveIsOpen(f', k, j);
        LiveIsOpen(f', k, i);
      }
    }
  }

  lemma LeafColumns(k: Corpus, f: Forest, P: seq<seq<real>>, SC1: seq<real>)
    requires f.Ok(k) && P == k.P && |SC1| == |f.next|
    requires forall m :: 0 <= m < |f.next| ==> f.xdim[m] == m && f.members[m] == [m]
    requires forall i :: 0 <= i < |SC1| ==> SC1[i] == k.log(P[i][i])
    ensures forall m :: 0 <= m < |f.next| ==> ColumnOk(k, f, P, SC1, m)
  {
    forall m | 0 <= m < |f.next|
      ensures ColumnOk(k, f, P, SC1, m)
    {
      assert f.ClusterOk(k, m);
      forall d | 0 <= d < |P|
        ensures P[d][m] == k.Mean(d, [m])
      {
        k.MeanOfOne(d, m);
      }
      assert [m][..0] == [] && k.LogSum([m][..0], [m]) == 0.0;
    }
  }

  /** How a new score v in column z shows in the line of row j. A line counts at least the
      live columns, so a count of one means the line points at z. */
  lemma StoredColumn(xdim: seq<int>, row: seq<real>, cp: Cache, j: nat, z: nat, v: real)
    requires |row| == |xdim| && j < z < |xdim| && xdim[z] >= 0 && RowOk(xdim, row, cp, j)
    ensures cp.elemNum == 1 ==> cp.index == z && RowOk(xdim, row[z := v], cp.(maxval := v), j)
    ensures cp.maxval < v ==> RowOk(xdim, row[z := v], cp.(maxval := v, index := z), j)
    ensures v <= cp.maxval && !(cp.index == z && v < cp.maxval) ==> RowOk(xdim, row[z := v], cp, j)
  {
    var s := LiveRight(xdim, j);
    assert z in s;
    if cp.elemNum == 1 {
      assert |s - {z as int}| == |s| - 1 == 0;
      assert s == {z as int};
    }
  }

  /** A dead column changes a line only if the line points at it. */
  lemma DeadColumn(xdim: seq<int>, row: seq<real>, cp: Cache, y: nat, j: nat)
    requires |row| == |xdim| && j < y < |xdim| && xdim[y] == -1
    ensures xdim[j] >= 0 && RowOk(xdim[y := 0], row, cp, j) && cp.index != y ==> RowOk(xdim, row, cp, j)
  {
    assert LiveRight(xdim[y := 0], j) == LiveRight(xdim, j) + {y as int};
    assert |LiveRight(xdim, j) + {y as int}| == |LiveRight(xdim, j)| + 1;
  }

  /** The row of one document after merge blended column my into column mx. */
  function BlendRow(row: seq<real>, w1: real, mx: nat, w2: real, my: nat): seq<real>
    requires mx < |row| && my < |row|
  {
    row[mx := w1 * row[mx] + w2 * row[my]][my := 0.0]
  }

  lemma LiveRightStep(xdim: seq<int>, j: nat, i: nat)
    requires j < i < |xdim|
    ensures LiveRight(xdim[..i + 1], j) == LiveRight(xdim[..i], j) + if xdim[i] >= 0 then {i as int} else {}
    ensures |LiveRight(xdim[..i + 1], j)| == |LiveRight(xdim[..i], j)| + if xdim[i] >= 0 then 1 else 0
  {
    assert LiveRight(xdim[..i + 1], j) == LiveRight(xdim[..i], j) + if xdim[i] >= 0 then {i as int} else {};
  }
}
