/** The vectors of nwam.c: merging in place from the back, adding up equal ids in place, and
    filtering by node or by masks. */
module NwamVec {
  import opened Common
  import Fss

  type Elem = XrElem<nat>

  /** What a vector says about one id, and about all. */
  function FreqOf(s: seq<Elem>, id: nat): nat {
    if |s| == 0 then 0
    else FreqOf(s[..|s| - 1], id) + if s[|s| - 1].id == id then s[|s| - 1].freq else 0
  }

  function Total(s: seq<Elem>): nat {
    if |s| == 0 then 0 else Total(s[..|s| - 1]) + s[|s| - 1].freq
  }

  ghost predicate Sorted(s: seq<Elem>) {
    forall x, y :: 0 <= x < y < |s| ==> s[x].id <= s[y].id
  }

  /** One element for each id, none without occurrences. */
  ghost predicate Canonical(s: seq<Elem>) {
    && (forall x, y :: 0 <= x < y < |s| ==> s[x].id < s[y].id)
    && (forall x :: 0 <= x < |s| ==> s[x].freq > 0)
  }

  lemma {:induction false} FreqAppend(s: seq<Elem>, t: seq<Elem>, id: nat)
    ensures FreqOf(s + t, id) == FreqOf(s, id) + FreqOf(t, id) && Total(s + t) == Total(s) + Total(t)
    decreases |t|
  {
    if |t| == 0 {
      assert s + t == s;
    } else {
      assert (s + t)[..|s + t| - 1] == s + t[..|t| - 1];
      FreqAppend(s, t[..|t| - 1], id);
    }
  }

  lemma {:induction false} FreqNone(s: seq<Elem>, id: nat)
    requires forall x :: 0 <= x < |s| ==> s[x].id != id
    ensures FreqOf(s, id) == 0
  {
    if |s| > 0 {
      FreqNone(s[..|s| - 1], id);
    }
  }

  lemma {:induction false} FreqSome(s: seq<Elem>, x: nat)
    requires Canonical(s) && x < |s|
    ensures FreqOf(s, s[x].id) == s[x].freq
  {
    var k := |s| - 1;
    if x < k {
      FreqSome(s[..k], x);
    } else {
      FreqNone(s[..k], s[x].id);
    }
  }

  /** In a rearrangement of s, the place of the last element of s. */
  lemma LastIn<T>(s: seq<T>, t: seq<T>) returns (x: nat)
    requires multiset(s) == multiset(t) && |s| > 0
    ensures x < |t| && t[x] == s[|s| - 1] && multiset(t[..x] + t[x + 1..]) == multiset(s[..|s| - 1])
  {
    var k := |s| - 1;
    assert s[k] in multiset(t);
    x :| 0 <= x < |t| && t[x] == s[k];
    Without(s, k);
    assert s[..k] + s[k + 1..] == s[..k];
    Without(t, x);
  }

  lemma Without<T>(t: seq<T>, x: nat)
    requires x < |t|
    ensures multiset(t[..x] + t[x + 1..]) == multiset(t) - multiset{t[x]}
  {
    assert t == t[..x] + [t[x]] + t[x + 1..];
  }

  /** Sorting does not change what a vector says. */
  lemma {:induction false} FreqPermuted(s: seq<Elem>, t: seq<Elem>, id: nat)
    requires multiset(s) == multiset(t)
    ensures FreqOf(s, id) == FreqOf(t, id) && Total(s) == Total(t)
  {
    if |s| == 0 {
      assert |multiset(t)| == 0;
    } else {
      var x := LastIn(s, t);
      FreqPermuted(s[..|s| - 1], t[..x] + t[x + 1..], id);
      RemoveFreq(t, x, id);
    }
  }

  lemma RemoveFreq(s: seq<Elem>, x: nat, id: nat)
    requires x < |s|
    ensures FreqOf(s, id) == FreqOf(s[..x] + s[x + 1..], id) + if s[x].id == id then s[x].freq else 0
    ensures Total(s) == Total(s[..x] + s[x + 1..]) + s[x].freq
  {
    assert s == s[..x] + ([s[x]] + s[x + 1..]);
    FreqAppend(s[..x], [s[x]] + s[x + 1..], id);
    FreqAppend([s[x]], s[x + 1..], id);
    FreqAppend(s[..x], s[x + 1..], id);
    assert FreqOf([s[x]], id) == if s[x].id == id then s[x].freq else 0;
    assert Total([s[x]]) == s[x].freq;
  }

  /** A canonical vector is determined by its frequencies. */
  lemma {:induction false} CanonicalUnique(s: seq<Elem>, t: seq<Elem>)
    requires Canonical(s) && Canonical(t)
    requires forall id: nat :: FreqOf(s, id) == FreqOf(t, id)
    ensures s == t
  {
    if |s| > 0 && |t| > 0 {
      var j, k := |s| - 1, |t| - 1;
      FreqSome(s, j);
      FreqSome(t, k);
      if s[j].id > t[k].id {
        FreqNone(t, s[j].id);
      } else if s[j].id < t[k].id {
        FreqNone(s, t[k].id);
      }
      assert s[j] == t[k];
      forall id: nat
        ensures FreqOf(s[..j], id) == FreqOf(t[..k], id)
      {
        assert FreqOf(s, id) == FreqOf(t, id);
      }
      CanonicalUnique(s[..j], t[..k]);
    } else if |s| > 0 {
      FreqSome(s, 0);
    } else if |t| > 0 {
      FreqSome(t, 0);
    }
  }

  // ------------------------------------------------------------------ merging

  /** What merge_vec makes of two vectors, from the back; equal ids keep p before n. */
  function Merged(p: seq<Elem>, n: seq<Elem>): (r: seq<Elem>)
    ensures |r| == |p| + |n|
    decreases |p| + |n|
  {
    if |n| == 0 then p
    else if |p| == 0 then n
    else if p[|p| - 1].id > n[|n| - 1].id then Merged(p[..|p| - 1], n) + [p[|p| - 1]]
    else Merged(p, n[..|n| - 1]) + [n[|n| - 1]]
  }

  lemma MergedStep(p: seq<Elem>, n: seq<Elem>, r: seq<Elem>, i: nat, j: nat)
    requires 0 < i <= |p| && 0 < j <= |n| && i + j <= |r|
    requires r[..i + j] == Merged(p[..i], n[..j])
    ensures p[i - 1].id > n[j - 1].id ==> r[..i + j - 1] == Merged(p[..i - 1], n[..j]) && r[i + j - 1] == p[i - 1]
    ensures p[i - 1].id <= n[j - 1].id ==> r[..i + j - 1] == Merged(p[..i], n[..j - 1]) && r[i + j - 1] == n[j - 1]
  {
    assert p[..i][..i - 1] == p[..i - 1] && n[..j][..j - 1] == n[..j - 1];
    assert r[..i + j][i + j - 1] == r[i + j - 1];
    assert r[..i + j][..i + j - 1] == r[..i + j - 1];
  }

  lemma {:induction false} MergedFreq(p: seq<Elem>, n: seq<Elem>, id: nat)
    ensures FreqOf(Merged(p, n), id) == FreqOf(p, id) + FreqOf(n, id)
    ensures Total(Merged(p, n)) == Total(p) + Total(n)
    decreases |p| + |n|
  {
    if |n| > 0 && |p| > 0 {
      var j, k := |p| - 1, |n| - 1;
      if p[j].id > n[k].id {
        MergedFreq(p[..j], n, id);
        assert Merged(p, n)[..j + |n|] == Merged(p[..j], n);
      } else {
        MergedFreq(p, n[..k], id);
        assert Merged(p, n)[..|p| + k] == Merged(p, n[..k]);
      }
    }
  }

  ghost predicate UpTo(s: seq<Elem>, id: nat) {
    forall x :: 0 <= x < |s| ==> s[x].id <= id
  }

  lemma {:induction false} MergedSorted(p: seq<Elem>, n: seq<Elem>, id: nat)
    requires Sorted(p) && Sorted(n) && UpTo(p, id) && UpTo(n, id)
    ensures Sorted(Merged(p, n)) && UpTo(Merged(p, n), id)
    decreases |p| + |n|
  {
    if |n| > 0 && |p| > 0 {
      var j, k := |p| - 1, |n| - 1;
      if p[j].id > n[k].id {
        MergedSorted(p[..j], n, p[j].id);
      } else {
        MergedSorted(p, n[..k], n[k].id);
      }
    }
  }

  // ------------------------------------------------------------------ adding up

  /** The part s[..i] of a sorted vector has been added up into done. */
  ghost predicate Compacted(done: seq<Elem>, s: seq<Elem>, i: nat)
    requires i <= |s|
  {
    && Canonical(done)
    && (forall id: nat :: FreqOf(done, id) == FreqOf(s[..i], id))
    && Total(done) == Total(s[..i])
    && AllBefore(done, s, i)
  }

  /** The elements from i to j have the id of e and add up to it. */
  ghost predicate IsSum(e: Elem, s: seq<Elem>, i: nat, j: nat)
    requires i <= j <= |s|
  {
    && (forall x :: i <= x < j ==> s[x].id == e.id)
    && Total(s[i..j]) == e.freq
  }

  lemma {:induction false} RunFreq(s: seq<Elem>, e: Elem, id: nat)
    requires forall x :: 0 <= x < |s| ==> s[x].id == e.id
    ensures FreqOf(s, id) == if id == e.id then Total(s) else 0
  {
    if |s| > 0 {
      RunFreq(s[..|s| - 1], e, id);
    }
  }

  lemma CompactFreq(done: seq<Elem>, s: seq<Elem>, i: nat, j: nat, e: Elem, id: nat)
    requires i < j <= |s| && IsSum(e, s, i, j) && FreqOf(done, id) == FreqOf(s[..i], id)
    ensures FreqOf(done + [e], id) == FreqOf(s[..j], id)
    ensures Total(s[..j]) == Total(s[..i]) + e.freq && Total(done + [e]) == Total(done) + e.freq
    ensures e.freq == 0 ==> FreqOf(done, id) == FreqOf(s[..j], id)
  {
    assert s[..j] == s[..i] + s[i..j];
    FreqAppend(s[..i], s[i..j], id);
    RunFreq(s[i..j], e, id);
    assert (done + [e])[..|done|] == done;
  }

  ghost predicate AllBefore(done: seq<Elem>, s: seq<Elem>, i: nat) {
    forall x, y :: 0 <= x < |done| && i <= y < |s| ==> done[x].id < s[y].id
  }

  lemma CompactStep(done: seq<Elem>, s: seq<Elem>, i: nat, j: nat, e: Elem)
    requires Sorted(s) && i < j <= |s| && Compacted(done, s, i) && IsSum(e, s, i, j)
    requires j < |s| ==> e.id < s[j].id
    ensures Compacted(if e.freq != 0 then done + [e] else done, s, j)
  {
    assert s[i].id == e.id;
    CompactFreqs(done, s, i, j, e);
    BeforeLater(done, s, i, j, e);
    if e.freq != 0 {
      CanonicalAppend(done, s, i, e);
    }
  }

  lemma BeforeLater(done: seq<Elem>, s: seq<Elem>, i: nat, j: nat, e: Elem)
    requires Sorted(s) && i <= j <= |s| && AllBefore(done, s, i) && (j < |s| ==> e.id < s[j].id)
    ensures AllBefore(done, s, j) && AllBefore(done + [e], s, j)
  {
    forall x, y | 0 <= x < |done + [e]| && j <= y < |s|
      ensures (done + [e])[x].id < s[y].id
    {
      assert s[j].id <= s[y].id;
    }
  }

  lemma CanonicalAppend(done: seq<Elem>, s: seq<Elem>, i: nat, e: Elem)
    requires Canonical(done) && AllBefore(done, s, i) && i < |s| && s[i].id == e.id && e.freq > 0
    ensures Canonical(done + [e])
  {
  }

  lemma CompactFreqs(done: seq<Elem>, s: seq<Elem>, i: nat, j: nat, e: Elem)
    requires i < j <= |s| && Compacted(done, s, i) && IsSum(e, s, i, j)
    ensures var done' := if e.freq != 0 then done + [e] else done;
            (forall id: nat :: FreqOf(done', id) == FreqOf(s[..j], id)) && Total(done') == Total(s[..j])
  {
    var done' := if e.freq != 0 then done + [e] else done;
    hide FreqOf, Total, Canonical;
    forall id: nat
      ensures FreqOf(done', id) == FreqOf(s[..j], id)
    {
      CompactFreq(done, s, i, j, e, id);
    }
    CompactFreq(done, s, i, j, e, 0);
  }

  // ------------------------------------------------------------------ filtering

  function Filter(s: seq<Elem>, keep: nat -> bool): (r: seq<Elem>)
    ensures |r| <= |s|
  {
    if |s| == 0 then []
    else
      var k := |s| - 1;
      Filter(s[..k], keep) + if keep(s[k].id) then [s[k]] else []
  }

  /** A filtered vector says the same about the ids kept and nothing about the others. */
  lemma {:induction false} FilterFreq(s: seq<Elem>, keep: nat -> bool, id: nat)
    ensures FreqOf(Filter(s, keep), id) == if keep(id) then FreqOf(s, id) else 0
  {
    if |s| > 0 {
      var k := |s| - 1;
      FilterFreq(s[..k], keep, id);
      if keep(s[k].id) {
        FreqAppend(Filter(s[..k], keep), [s[k]], id);
        assert FreqOf([s[k]], id) == if s[k].id == id then s[k].freq else 0;
      } else {
        assert Filter(s, keep) == Filter(s[..k], keep);
      }
    }
  }

  /** minep with the sequential partition: the node a vector element belongs to. */
  predicate Mine(id: nat, nn: nat, node: nat)
    requires nn > 0
  {
    id % nn == node
  }

  function OfNode(nn: nat, node: nat): nat -> bool
    requires nn > 0
  {
    (id: nat) => Mine(id, nn, node)
  }

  /** What the first m of nn nodes keep. */
  function NodeFreqs(s: seq<Elem>, id: nat, nn: nat, m: nat): nat
    requires nn > 0
  {
    if m == 0 then 0 else NodeFreqs(s, id, nn, m - 1) + FreqOf(Filter(s, OfNode(nn, m - 1)), id)
  }

  lemma OfNodeIs(nn: nat, node: nat, id: nat)
    requires nn > 0
    ensures OfNode(nn, node)(id) <==> id % nn == node
  {
  }

  /** The nodes of a distributed index share every vector out between them. */
  lemma {:induction false} NodesShare(s: seq<Elem>, id: nat, nn: nat, m: nat)
    requires nn > 0
    ensures NodeFreqs(s, id, nn, m) == if id % nn < m then FreqOf(s, id) else 0
  {
    if m > 0 {
      hide OfNode;
      OfNodeIs(nn, m - 1, id);
      NodesShare(s, id, nn, m - 1);
      FilterFreq(s, OfNode(nn, m - 1), id);
    }
  }

  /** An id passes if it is in P, or a set N is given and it is not in N. */
  function Lets(p: Fss.IdVec, n: Fss.IdVec): nat -> bool {
    (id: nat) => (p.Vec? && id in p.ids) || (n.Vec? && id !in n.ids)
  }

  /** A mask cursor has passed ids below id only. */
  ghost predicate CursorAt(m: Fss.IdVec, c: nat, id: nat) {
    m.Vec? ==> c <= |m.ids| && forall k :: 0 <= k < c ==> m.ids[k] < id
  }

  lemma CursorLater(m: Fss.IdVec, c: nat, id: nat, id': nat)
    requires CursorAt(m, c, id) && id <= id'
    ensures CursorAt(m, c, id')
  {
  }

  /** The two for loops of mask_vec over a mask. */
  method MoveCursor(m: Fss.IdVec, c: nat, id: nat) returns (c': nat, here: bool)
    requires Fss.VecOk(m) && CursorAt(m, c, id)
    ensures CursorAt(m, c', id) && (here <==> m.Vec? && id in m.ids)
  {
    c', here := c, false;
    if m.Vec? {
      while c' < |m.ids| && m.ids[c'] < id
        invariant CursorAt(m, c', id)
      {
        c' := c' + 1;
      }
      here := c' < |m.ids| && m.ids[c'] == id;
      if !here {
        Fss.CursorMisses(m.ids, c', id);
      }
    }
  }

  method MaskTest(p: Fss.IdVec, n: Fss.IdVec, pc: nat, nc: nat, id: nat) returns (pc': nat, nc': nat, r: bool)
    requires Fss.VecOk(p) && Fss.VecOk(n) && CursorAt(p, pc, id) && CursorAt(n, nc, id)
    ensures CursorAt(p, pc', id) && CursorAt(n, nc', id) && r == Lets(p, n)(id)
  {
    var inP, inN;
    pc', inP := MoveCursor(p, pc, id);
    nc', inN := MoveCursor(n, nc, id);
    r := inP || (n.Vec? && !inN);
  }

  lemma FilterStep(s: seq<Elem>, keep: nat -> bool, i: nat)
    requires i < |s|
    ensures Filter(s[..i + 1], keep) == Filter(s[..i], keep) + if keep(s[i].id) then [s[i]] else []
  {
    assert s[..i + 1][..i] == s[..i];
  }

  /** struct xr_vec in an array of its own; rs->v, whose v_size is the length of the array. */
  class XrVec {
    var v: array<Elem>
    var elem_num: nat
    var freq_sum: nat

    ghost predicate Valid()
      reads this
    {
      elem_num <= v.Length
    }

    ghost function Elems(): seq<Elem>
      requires Valid()
      reads this, v
    {
      v[..elem_num]
    }

    /** From i on the vector is as it was. */
    ghost predicate Rest(s: seq<Elem>, i: nat)
      reads this, v
      requires |s| <= v.Length
    {
      forall x :: i <= x < |s| ==> v[x] == s[x]
    }

    constructor ()
      ensures Valid() && elem_num == 0 && freq_sum == 0 && fresh(v)
    {
      v := new Elem[0];
      elem_num, freq_sum := 0, 0;
    }

    /** The realloc of v: room for n elements, the first keep of them as they were. */
    method Reserve(n: nat, unit: nat, keep: nat)
      requires unit > 0 && keep <= v.Length
      modifies this`v
      ensures n <= v.Length && keep <= v.Length && v[..keep] == old(v[..keep])
      ensures v == old(v) || fresh(v)
      ensures old(v.Length) <= v.Length
    {
      if v.Length < n {
        var size := RoundUp(n, unit);
        var new_v := new Elem[size];
        forall k | 0 <= k < keep {
          new_v[k] := v[k];
        }
        assert new_v[..keep] == v[..keep];
        v := new_v;
      }
    }

    /** Element n is put behind the first n; the vector grows when it is full. */
    method Put(n: nat, e: Elem)
      requires n <= v.Length
      modifies `v, v
      ensures n < v.Length && v[..n + 1] == old(v[..n]) + [e]
      ensures v == old(v) || fresh(v)
    {
      Reserve(n + 1, 128, n);
      v[n] := e;
    }

    /** The two-pointer loop of merge_vec, from the back: what has not been moved is still in
        place. Left over are some elements of v, which are in place, or some of v0. */
    method MergeBack(n: nat, v0: seq<Elem>, ghost p: seq<Elem>) returns (i: nat, j: nat)
      requires |p| == n && n + |v0| <= v.Length && v[..n] == p
      modifies v
      ensures i <= |p| && j <= |v0| && (i == 0 || j == 0) && v[..i] == p[..i]
      ensures Merged(p, v0)[..i + j] == Merged(p[..i], v0[..j])
      ensures forall x :: i + j <= x < |p| + |v0| ==> v[x] == Merged(p, v0)[x]
    {
      hide Merged;
      i, j := n, |v0|;
      ghost var r := Merged(p, v0);
      assert p[..i] == p && v0[..j] == v0 && r[..i + j] == r;
      while i > 0 && j > 0
        invariant i <= |p| && j <= |v0|
        invariant forall x :: 0 <= x < i ==> v[x] == p[x]
        invariant r[..i + j] == Merged(p[..i], v0[..j])
        invariant forall x :: i + j <= x < |p| + |v0| ==> v[x] == r[x]
        decreases i + j
      {
        MergedStep(p, v0, r, i, j);
        if v[i - 1].id > v0[j - 1].id {
          v[i + j - 1] := v[i - 1];
          i := i - 1;
        } else {
          v[i + j - 1] := v0[j - 1];
          j := j - 1;
        }
      }
    }

    /** The loop over what is left of v0 when all of v has been moved. */
    method CopyRest(v0: seq<Elem>, i: nat, j: nat, ghost r: seq<Elem>)
      requires (i == 0 || j == 0) && j <= |v0| && i + j <= |r| <= v.Length
      requires r[..i + j] == v[..i] + v0[..j] && forall x :: i + j <= x < |r| ==> v[x] == r[x]
      modifies v
      ensures v[..|r|] == r
    {
      assert forall x :: 0 <= x < i + j ==> r[x] == (v[..i] + v0[..j])[x];
      var k := j;
      while k > 0
        invariant 0 <= k <= j
        invariant forall x :: 0 <= x < i ==> v[x] == r[x]
        invariant forall x :: i + k <= x < |r| ==> v[x] == r[x]
      {
        k := k - 1;
        v[k] := v0[k];
      }
    }

    /** merge_vec: no element of v is overwritten before it has been moved. */
    method MergeVec(v0: seq<Elem>, sum0: nat)
      requires Valid()
      modifies this, v
      ensures Valid() && Elems() == Merged(old(Elems()), v0)
      ensures elem_num == old(elem_num) + |v0| && freq_sum == old(freq_sum) + sum0
      ensures v == old(v) || fresh(v)
    {
      ghost var p := Elems();
      Reserve(elem_num + |v0|, 128, elem_num);
      var i, j := MergeBack(elem_num, v0, p);
      CopyRest(v0, i, j, Merged(p, v0));
      elem_num := elem_num + |v0|;
      freq_sum := freq_sum + sum0;
    }

    /** The inner loop of uniq_vec: the elements from i with one id are added up in v[k]. */
    method SumRun(i: nat, k: nat, ghost s: seq<Elem>) returns (j: nat)
      requires k <= i < elem_num == |s| <= v.Length && Sorted(s) && Rest(s, i)
      modifies v
      ensures i < j <= |s| && IsSum(v[k], s, i, j) && (j < |s| ==> v[k].id < s[j].id)
      ensures v[..k] == old(v[..k]) && Rest(s, j)
    {
      v[k] := v[i];
      j := i + 1;
      assert s[i..j] == [s[i]];
      while j < elem_num && v[k].id == v[j].id
        invariant i < j <= |s| && IsSum(v[k], s, i, j) && v[k].id == s[i].id
        invariant v[..k] == old(v[..k]) && Rest(s, j)
        decreases |s| - j
      {
        assert s[i..j + 1] == s[i..j] + [s[j]];
        assert s[i..j + 1][..j - i] == s[i..j];
        v[k] := v[k].(freq := v[k].freq + v[j].freq);
        j := j + 1;
      }
      assert j < |s| ==> v[j] == s[j] && s[i].id <= s[j].id;
    }

    /** One turn of the outer loop of uniq_vec. */
    method UniqRun(i: nat, k: nat, sum: nat, ghost s: seq<Elem>) returns (j: nat, k': nat, sum': nat)
      requires k <= i < elem_num == |s| <= v.Length && Sorted(s) && Rest(s, i)
      requires Compacted(v[..k], s, i) && sum == Total(v[..k])
      modifies v
      ensures k' <= i + 1 <= j <= |s| && Rest(s, j)
      ensures Compacted(v[..k'], s, j) && sum' == Total(v[..k'])
    {
      hide Compacted, IsSum, Total, Sorted, XrVec.Rest;
      ghost var done := v[..k];
      j := SumRun(i, k, s);
      CompactStep(done, s, i, j, v[k]);
      k', sum' := k, sum;
      if v[k].freq != 0 {
        assert v[..k + 1] == done + [v[k]];
        TotalStep(done, v[k]);
        sum' := sum + v[k].freq;
        k' := k + 1;
      }
    }

    /** uniq_vec: equal ids are added up in place and elements without occurrences dropped. */
    method UniqVec()
      requires Valid() && Sorted(Elems()) && freq_sum == Total(Elems())
      modifies `elem_num, v
      ensures Valid() && Canonical(Elems()) && freq_sum == Total(Elems())
      ensures forall id: nat :: FreqOf(Elems(), id) == FreqOf(old(Elems()), id)
    {
      ghost var s := Elems();
      var i: nat, k: nat, sum: nat := 0, 0, 0;
      assert Compacted(v[..k], s, i) && Total(v[..k]) == 0;
      while i < elem_num
        invariant k <= i <= elem_num == |s| <= v.Length && Rest(s, i)
        invariant Compacted(v[..k], s, i) && sum == Total(v[..k])
        decreases |s| - i
        modifies v
      {
        hide Compacted, Total, Sorted, XrVec.Rest;
        i, k, sum := UniqRun(i, k, sum, s);
      }
      assert s[..|s|] == s;
      elem_num := k;
      assert freq_sum == sum;
    }

    /** The move of an element to the end of what is kept. */
    method Keep(i: nat, j: nat, ghost s: seq<Elem>, ghost keep: nat -> bool)
      requires j <= i < elem_num == |s| <= v.Length && Rest(s, i)
      requires v[..j] == Filter(s[..i], keep) && keep(s[i].id)
      modifies v
      ensures v[..j + 1] == Filter(s[..i + 1], keep) && Rest(s, i + 1)
      ensures Total(v[..j + 1]) == Total(old(v[..j])) + v[j].freq
    {
      hide Filter, Total;
      FilterStep(s, keep, i);
      ghost var kept := v[..j];
      v[j] := v[i];
      assert v[..j + 1] == kept + [s[i]];
      TotalStep(kept, s[i]);
    }

    /** reduce_vec; freq_sum is left as it was. */
    method ReduceVec(nn: nat, node: nat)
      requires Valid() && nn > 0
      modifies `elem_num, v
      ensures Valid() && Elems() == Filter(old(Elems()), OfNode(nn, node))
    {
      ghost var s := Elems();
      var i, j := 0, 0;
      while i < elem_num
        invariant j <= i <= elem_num == |s| <= v.Length
        invariant Rest(s, i) && v[..j] == Filter(s[..i], OfNode(nn, node))
        modifies v
      {
        hide Filter;
        if Mine(v[i].id, nn, node) {
          Keep(i, j, s, OfNode(nn, node));
          j := j + 1;
        } else {
          FilterStep(s, OfNode(nn, node), i);
        }
        i := i + 1;
      }
      assert s[..|s|] == s;
      elem_num := j;
    }

    /** One turn of the loop of mask_vec; low is the id of the element before. */
    method MaskOne(p: Fss.IdVec, n: Fss.IdVec, i: nat, j: nat, sum: nat, pc: nat, nc: nat, ghost low: nat,
                   ghost s: seq<Elem>)
      returns (j': nat, sum': nat, pc': nat, nc': nat)
      requires j <= i < elem_num == |s| <= v.Length && Rest(s, i) && Fss.VecOk(p) && Fss.VecOk(n)
      requires v[..j] == Filter(s[..i], Lets(p, n)) && sum == Total(v[..j])
      requires CursorAt(p, pc, low) && CursorAt(n, nc, low) && low <= s[i].id
      modifies v
      ensures j' <= i + 1 && Rest(s, i + 1)
      ensures v[..j'] == Filter(s[..i + 1], Lets(p, n)) && sum' == Total(v[..j'])
      ensures CursorAt(p, pc', s[i].id) && CursorAt(n, nc', s[i].id)
    {
      hide Filter, Total, CursorAt, Fss.VecOk, Lets;
      CursorLater(p, pc, low, s[i].id);
      CursorLater(n, nc, low, s[i].id);
      var pass;
      pc', nc', pass := MaskTest(p, n, pc, nc, v[i].id);
      j', sum' := j, sum;
      if pass {
        Keep(i, j, s, Lets(p, n));
        sum' := sum + v[j].freq;
        j' := j + 1;
      } else {
        FilterStep(s, Lets(p, n), i);
      }
    }

    lemma RestStart(s: seq<Elem>)
      requires Valid() && s == Elems()
      ensures Rest(s, 0)
    {
    }

    /** mask_vec. */
    method MaskVec(p: Fss.IdVec, n: Fss.IdVec)
      requires Valid() && Sorted(Elems()) && Fss.VecOk(p) && Fss.VecOk(n)
      modifies `elem_num, `freq_sum, v
      ensures Valid() && Elems() == Filter(old(Elems()), Lets(p, n)) && freq_sum == Total(Elems())
    {
      hide Filter, Total, Fss.VecOk, Lets, Sorted;
      var j, sum := MaskAll(p, n, Elems());
      elem_num := j;
      freq_sum := sum;
    }

    /** Its loop: the two cursors move along with the ids of the vector. */
    method MaskAll(p: Fss.IdVec, n: Fss.IdVec, ghost s: seq<Elem>) returns (j: nat, sum: nat)
      requires Valid() && s == Elems() && Sorted(s) && Fss.VecOk(p) && Fss.VecOk(n)
      modifies v
      ensures j <= elem_num && v[..j] == Filter(s, Lets(p, n)) && sum == Total(v[..j])
    {
      hide Filter, Total, CursorAt, Fss.VecOk, Lets, Sorted, XrVec.Rest;
      var i: nat, pc: nat, nc: nat := 0, 0, 0;
      j, sum := 0, 0;
      ghost var low: nat := 0;
      MaskStart(p, n, s);
      RestStart(s);
      assert v[..j] == [] && s[..i] == [];
      while i < elem_num
        invariant j <= i <= elem_num == |s| <= v.Length && Rest(s, i)
        invariant v[..j] == Filter(s[..i], Lets(p, n)) && sum == Total(v[..j])
        invariant CursorAt(p, pc, low) && CursorAt(n, nc, low) && (i < |s| ==> low <= s[i].id)
      {
        j, sum, pc, nc := MaskOne(p, n, i, j, sum, pc, nc, low, s);
        SortedNext(s, i);
        low := s[i].id;
        i := i + 1;
      }
      assert s[..|s|] == s;
    }
  }

  lemma MaskStart(p: Fss.IdVec, n: Fss.IdVec, s: seq<Elem>)
    requires Fss.VecOk(p) && Fss.VecOk(n)
    ensures CursorAt(p, 0, 0) && CursorAt(n, 0, 0) && Filter([], Lets(p, n)) == [] && Total([]) == 0
  {
  }

  lemma SortedNext(s: seq<Elem>, i: nat)
    requires Sorted(s) && i < |s|
    ensures i + 1 < |s| ==> s[i].id <= s[i + 1].id
  {
  }

  lemma TotalStep(s: seq<Elem>, e: Elem)
    ensures Total(s + [e]) == Total(s) + e.freq
  {
    assert (s + [e])[..|s|] == s;
  }
}
