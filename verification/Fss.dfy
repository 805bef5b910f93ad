/** The full-text query algebra of fss.c (xfss) and the mask test of assv.c that uses its
    result: an OR of ANDs of possibly negated patterns becomes two sorted id lists. */
module Fss {

  /** struct art: one occurrence of a pattern. */
  datatype Art = Art(id: nat, segid: nat, disp: nat)

  /** An arts pointer: NULL, or an allocated list that may be empty. */
  datatype Arts = Absent | Present(s: seq<Art>)

  /** One pattern of a query: whether it is negated, and its occurrences sorted by id. */
  datatype Simple = Simple(negative: bool, hits: seq<Art>)

  /** A pattern, or part of a conjunction, after evaluation. */
  datatype Answer = Answer(negative: bool, arts: Arts)

  ghost predicate Sorted(s: seq<Art>) {
    forall i, j :: 0 <= i < j < |s| ==> s[i].id <= s[j].id
  }

  ghost predicate Strict(s: seq<Art>) {
    forall i, j :: 0 <= i < j < |s| ==> s[i].id < s[j].id
  }

  ghost predicate HasId(s: seq<Art>, d: nat) {
    exists i :: 0 <= i < |s| && s[i].id == d
  }

  lemma HasIdAppend(s: seq<Art>, a: Art, d: nat)
    ensures HasId(s + [a], d) <==> HasId(s, d) || a.id == d
  {
    if HasId(s, d) {
      var i :| 0 <= i < |s| && s[i].id == d;
      assert (s + [a])[i].id == d;
    } else if a.id == d {
      assert (s + [a])[|s|].id == d;
    }
  }

  lemma HasIdConcat(s: seq<Art>, t: seq<Art>, d: nat)
    ensures HasId(s + t, d) <==> HasId(s, d) || HasId(t, d)
  {
    if HasId(s, d) {
      var i :| 0 <= i < |s| && s[i].id == d;
      assert (s + t)[i].id == d;
    } else if HasId(t, d) {
      var i :| 0 <= i < |t| && t[i].id == d;
      assert (s + t)[|s| + i].id == d;
    }
  }

  // ------------------------------------------------------------------ list operations

  /** The first occurrence of every id. */
  function Firsts(s: seq<Art>): seq<Art> {
    if |s| == 0 then []
    else
      var n := |s| - 1;
      if n > 0 && s[n - 1].id == s[n].id then Firsts(s[..n]) else Firsts(s[..n]) + [s[n]]
  }

  lemma HasIdLast(s: seq<Art>, d: nat)
    requires |s| > 0
    ensures HasId(s, d) <==> HasId(s[..|s| - 1], d) || s[|s| - 1].id == d
  {
    assert s == s[..|s| - 1] + [s[|s| - 1]];
    HasIdAppend(s[..|s| - 1], s[|s| - 1], d);
  }

  lemma HasIdAt(s: seq<Art>, i: nat)
    requires i < |s|
    ensures HasId(s, s[i].id)
  {
  }

  lemma FirstsHas(s: seq<Art>, d: nat)
    requires |s| > 0 && (HasId(Firsts(s[..|s| - 1]), d) <==> HasId(s[..|s| - 1], d))
    ensures HasId(Firsts(s), d) <==> HasId(s, d)
  {
    hide HasId;
    var n := |s| - 1;
    HasIdLast(s, d);
    if n > 0 && s[n - 1].id == s[n].id {
      HasIdAt(s[..n], n - 1);
    } else {
      HasIdAppend(Firsts(s[..n]), s[n], d);
    }
  }

  lemma {:induction false} FirstsOk(s: seq<Art>)
    requires Sorted(s)
    ensures Strict(Firsts(s)) && forall d :: HasId(Firsts(s), d) <==> HasId(s, d)
    ensures |s| > 0 ==> |Firsts(s)| > 0 && Firsts(s)[|Firsts(s)| - 1].id == s[|s| - 1].id
  {
    if |s| > 0 {
      var n := |s| - 1;
      FirstsOk(s[..n]);
      assert s == s[..n] + [s[n]];
      assert n > 0 ==> s[..n][n - 1] == s[n - 1];
      forall d
        ensures HasId(Firsts(s), d) <==> HasId(s, d)
      {
        FirstsHas(s, d);
      }
    }
  }

  /** a is the first occurrence of its id. */
  ghost predicate IsFirst(s: seq<Art>, a: Art) {
    exists i :: IsFirstAt(s, i, a)
  }

  ghost predicate IsFirstAt(s: seq<Art>, i: int, a: Art) {
    0 <= i < |s| && s[i] == a && forall j :: 0 <= j < i ==> s[j].id != a.id
  }

  lemma {:induction false} FirstsAreFirst(s: seq<Art>, a: Art)
    requires Sorted(s) && a in Firsts(s)
    ensures IsFirst(s, a)
  {
    var n := |s| - 1;
    if a in Firsts(s[..n]) {
      FirstsAreFirst(s[..n], a);
      var i :| IsFirstAt(s[..n], i, a);
      assert IsFirstAt(s, i, a);
    } else {
      assert forall j :: 0 <= j < n ==> s[j].id <= s[n - 1].id < s[n].id;
      assert IsFirstAt(s, n, a);
    }
  }

  /** The inner loop of uniq_qq: past the elements with the id of element i. */
  method SkipSame(a: array<Art>, n: nat, i: nat, ghost s: seq<Art>) returns (j: nat)
    requires i < n <= a.Length && |s| == n && forall x :: i <= x < n ==> a[x].id == s[x].id
    ensures i < j <= n && (j < n ==> s[j - 1].id != s[j].id)
    ensures Firsts(s[..j]) == Firsts(s[..i + 1])
  {
    j := i + 1;
    while j < n && a[i].id == a[j].id
      invariant i < j <= n && s[j - 1].id == s[i].id
      invariant Firsts(s[..j]) == Firsts(s[..i + 1])
    {
      assert s[..j + 1][..j] == s[..j];
      j := j + 1;
    }
  }

  lemma FirstsStep(s: seq<Art>, i: nat)
    requires i < |s| && (i == 0 || s[i - 1].id != s[i].id)
    ensures Firsts(s[..i + 1]) == Firsts(s[..i]) + [s[i]]
  {
    assert s[..i + 1][..i] == s[..i];
  }

  /** uniq_qq: compaction in place. */
  method UniqQq(a: array<Art>, n: nat) returns (k: nat)
    requires n <= a.Length && Sorted(a[..n])
    modifies a
    ensures k <= n && a[..k] == Firsts(old(a[..n]))
  {
    ghost var s := a[..n];
    var i := 0;
    k := 0;
    assert a[..k] == Firsts(s[..i]);
    hide Firsts;
    while i < n
      invariant 0 <= k <= i <= n
      invariant forall x :: i <= x < n ==> a[x] == s[x]
      invariant a[..k] == Firsts(s[..i])
      invariant 0 < i < n ==> s[i - 1].id != s[i].id
    {
      FirstsStep(s, i);
      ghost var done := a[..k];
      a[k] := a[i];
      assert a[..k + 1] == done + [s[i]];
      k := k + 1;
      i := SkipSame(a, n, i, s);
    }
    assert s[..n] == s;
  }

  /** The elements of s whose id occurs in t, or does not, in the order of s. */
  ghost function Keep(s: seq<Art>, t: seq<Art>, want: bool): seq<Art> {
    if |s| == 0 then []
    else
      var n := |s| - 1;
      Keep(s[..n], t, want) + if HasId(t, s[n].id) == want then [s[n]] else []
  }

  lemma {:induction false} KeepOk(s: seq<Art>, t: seq<Art>, want: bool)
    requires Strict(s)
    ensures Strict(Keep(s, t, want))
    ensures forall d :: HasId(Keep(s, t, want), d) <==> HasId(s, d) && HasId(t, d) == want
    ensures forall a :: a in Keep(s, t, want) ==> a in s
  {
    if |s| > 0 {
      var n := |s| - 1;
      var r := Keep(s[..n], t, want);
      KeepOk(s[..n], t, want);
      assert s == s[..n] + [s[n]];
      assert Keep(s, t, want) == if HasId(t, s[n].id) == want then r + [s[n]] else r;
      forall d
        ensures HasId(Keep(s, t, want), d) <==> HasId(s, d) && HasId(t, d) == want
      {
        HasIdAppend(s[..n], s[n], d);
        HasIdAppend(r, s[n], d);
        assert HasId(r, d) <==> HasId(s[..n], d) && HasId(t, d) == want;
      }
      forall i | 0 <= i < |r|
        ensures r[i].id < s[n].id
      {
        assert HasId(r, r[i].id) && HasId(s[..n], r[i].id);
      }
    }
  }

  lemma {:induction false} KeepAll(s: seq<Art>, k: nat, t: seq<Art>, want: bool)
    requires k <= |s| && forall i :: k <= i < |s| ==> HasId(t, s[i].id) == want
    ensures Keep(s, t, want) == Keep(s[..k], t, want) + s[k..]
    decreases |s|
  {
    if k == |s| {
      assert s[..k] == s;
    } else {
      var n := |s| - 1;
      KeepAll(s[..n], k, t, want);
      assert s[..n][..k] == s[..k];
      assert s[k..] == s[..n][k..] + [s[n]];
    }
  }

  lemma {:induction false} KeepNone(s: seq<Art>, k: nat, t: seq<Art>, want: bool)
    requires k <= |s| && forall i :: k <= i < |s| ==> HasId(t, s[i].id) != want
    ensures Keep(s, t, want) == Keep(s[..k], t, want)
    decreases |s|
  {
    if k == |s| {
      assert s[..k] == s;
    } else {
      var n := |s| - 1;
      KeepNone(s[..n], k, t, want);
      assert s[..n][..k] == s[..k];
    }
  }

  /** An id between two neighbours of a strictly sorted list does not occur. */
  lemma NotBetween(t: seq<Art>, j: nat, d: nat)
    requires Strict(t) && j <= |t| && (j > 0 ==> t[j - 1].id < d) && (j < |t| ==> d < t[j].id)
    ensures !HasId(t, d)
  {
    forall i | 0 <= i < |t|
      ensures t[i].id != d
    {
      if i < j {
        assert t[i].id <= t[j - 1].id;
      } else {
        assert t[j].id <= t[i].id;
      }
    }
  }

  /** The cursors of the merge loops: everything before j is below everything from i on. */
  ghost predicate Below(a0: seq<Art>, i: nat, a1: seq<Art>, j: nat) {
    i <= |a0| && j <= |a1| && (i < |a0| && 0 < j ==> a1[j - 1].id < a0[i].id)
  }

  method JoinQq(a0: seq<Art>, a1: seq<Art>) returns (r: seq<Art>)
    requires Strict(a0) && Strict(a1)
    ensures r == Keep(a0, a1, true)
  {
    r := [];
    var i, j := 0, 0;
    while i < |a0| && j < |a1|
      invariant Below(a0, i, a1, j)
      invariant r == Keep(a0[..i], a1, true)
    {
      assert a0[..i + 1][..i] == a0[..i];
      if a0[i].id < a1[j].id {
        NotBetween(a1, j, a0[i].id);
        i := i + 1;
      } else if a0[i].id > a1[j].id {
        j := j + 1;
      } else {
        assert HasId(a1, a0[i].id);
        r := r + [a0[i]];
        i, j := i + 1, j + 1;
      }
    }
    JoinTail(a0, i, a1, j);
    KeepNone(a0, i, a1, true);
  }

  lemma JoinTail(a0: seq<Art>, i: nat, a1: seq<Art>, j: nat)
    requires Strict(a0) && Strict(a1) && Below(a0, i, a1, j) && (i == |a0| || j == |a1|)
    ensures forall x :: i <= x < |a0| ==> !HasId(a1, a0[x].id)
  {
    forall x | i <= x < |a0|
      ensures !HasId(a1, a0[x].id)
    {
      assert a0[i].id <= a0[x].id;
      NotBetween(a1, j, a0[x].id);
    }
  }

  method JoinQqPN(a0: seq<Art>, a1: seq<Art>) returns (r: seq<Art>)
    requires Strict(a0) && Strict(a1)
    ensures r == Keep(a0, a1, false)
  {
    r := [];
    var i, j := 0, 0;
    while i < |a0| && j < |a1|
      invariant Below(a0, i, a1, j)
      invariant r == Keep(a0[..i], a1, false)
    {
      assert a0[..i + 1][..i] == a0[..i];
      if a0[i].id < a1[j].id {
        NotBetween(a1, j, a0[i].id);
        r := r + [a0[i]];
        i := i + 1;
      } else if a0[i].id > a1[j].id {
        j := j + 1;
      } else {
        assert HasId(a1, a0[i].id);
        i, j := i + 1, j + 1;
      }
    }
    JoinTail(a0, i, a1, j);
    KeepAll(a0, i, a1, false);
    r := r + a0[i..];
  }

  /** r is strictly sorted with the ids of both, taking a shared id's element from a. */
  ghost predicate IsUnion(r: seq<Art>, a: seq<Art>, b: seq<Art>) {
    && Strict(r)
    && (forall d :: HasId(r, d) <==> HasId(a, d) || HasId(b, d))
    && (forall x :: x in r ==> x in a || (x in b && !HasId(a, x.id)))
  }

  /** The merge of two lists, by their heads. */
  function UnionOf(a: seq<Art>, b: seq<Art>): seq<Art>
    decreases |a| + |b|
  {
    if |a| == 0 then b
    else if |b| == 0 then a
    else if a[0].id < b[0].id then [a[0]] + UnionOf(a[1..], b)
    else if a[0].id > b[0].id then [b[0]] + UnionOf(a, b[1..])
    else [a[0]] + UnionOf(a[1..], b[1..])
  }

  lemma {:induction false} UnionOfIds(a: seq<Art>, b: seq<Art>, d: nat)
    requires Strict(a) && Strict(b)
    ensures HasId(UnionOf(a, b), d) <==> HasId(a, d) || HasId(b, d)
    decreases |a| + |b|
  {
    if |a| == 0 || |b| == 0 {
    } else {
      HasIdConcat([a[0]], a[1..], d);
      HasIdConcat([b[0]], b[1..], d);
      assert [a[0]] + a[1..] == a && [b[0]] + b[1..] == b;
      OneId(a[0], d);
      OneId(b[0], d);
      if a[0].id < b[0].id {
        UnionOfIds(a[1..], b, d);
        HasIdConcat([a[0]], UnionOf(a[1..], b), d);
      } else if a[0].id > b[0].id {
        UnionOfIds(a, b[1..], d);
        HasIdConcat([b[0]], UnionOf(a, b[1..]), d);
      } else {
        UnionOfIds(a[1..], b[1..], d);
        HasIdConcat([a[0]], UnionOf(a[1..], b[1..]), d);
      }
    }
  }

  lemma OneId(a: Art, d: nat)
    ensures HasId([a], d) <==> a.id == d
  {
    assert [a][0].id == a.id;
  }

  /** A head below everything keeps a list strict. */
  lemma StrictCons(a: Art, s: seq<Art>)
    requires Strict(s) && forall d :: HasId(s, d) ==> a.id < d
    ensures Strict([a] + s)
  {
    assert forall i :: 0 <= i < |s| ==> HasId(s, s[i].id);
  }

  lemma AboveHead(a: seq<Art>, d: nat)
    requires Strict(a) && |a| > 0 && HasId(a[1..], d)
    ensures a[0].id < d
  {
    var i :| 0 <= i < |a[1..]| && a[1..][i].id == d;
  }

  lemma AtLeastHead(a: seq<Art>, d: nat)
    requires Strict(a) && |a| > 0 && HasId(a, d)
    ensures a[0].id <= d
  {
    var i :| 0 <= i < |a| && a[i].id == d;
  }

  lemma {:induction false} UnionOfStrict(a: seq<Art>, b: seq<Art>)
    requires Strict(a) && Strict(b)
    ensures Strict(UnionOf(a, b))
    decreases |a| + |b|
  {
    if |a| == 0 || |b| == 0 {
    } else {
      var x := if a[0].id <= b[0].id then a[0] else b[0];
      var a' := if a[0].id <= b[0].id then a[1..] else a;
      var b' := if b[0].id <= a[0].id then b[1..] else b;
      UnionOfStrict(a', b');
      forall d | HasId(UnionOf(a', b'), d)
        ensures x.id < d
      {
        UnionOfIds(a', b', d);
        if HasId(a', d) {
          if a[0].id <= b[0].id { AboveHead(a, d); } else { AtLeastHead(a, d); }
        } else {
          if b[0].id <= a[0].id { AboveHead(b, d); } else { AtLeastHead(b, d); }
        }
      }
      StrictCons(x, UnionOf(a', b'));
    }
  }

  /** Elements come from the lists; those with a common id come from the first. */
  lemma {:induction false} UnionOfMembers(a: seq<Art>, b: seq<Art>, x: Art)
    requires Strict(a) && Strict(b) && x in UnionOf(a, b)
    ensures x in a || (x in b && !HasId(a, x.id))
    decreases |a| + |b|
  {
    if |a| == 0 || |b| == 0 {
    } else if a[0].id < b[0].id {
      if x != a[0] {
        UnionOfMembers(a[1..], b, x);
        if x !in a { NotHead(a, b, x); }
      }
    } else if a[0].id > b[0].id {
      if x == b[0] {
        NotBetween(a, 0, x.id);
      } else {
        UnionOfMembers(a, b[1..], x);
      }
    } else if x != a[0] {
      UnionOfMembers(a[1..], b[1..], x);
      if x !in a { NotHead(a, b[1..], x); }
    }
  }

  lemma NotHead(a: seq<Art>, b: seq<Art>, x: Art)
    requires |a| > 0 && x in b && !HasId(a[1..], x.id) && forall y :: y in b ==> a[0].id < y.id
    ensures !HasId(a, x.id)
  {
    HasIdConcat([a[0]], a[1..], x.id);
    assert [a[0]] + a[1..] == a;
    OneId(a[0], x.id);
  }

  lemma UnionOfOk(a: seq<Art>, b: seq<Art>)
    requires Strict(a) && Strict(b)
    ensures IsUnion(UnionOf(a, b), a, b)
  {
    UnionOfStrict(a, b);
    forall d
      ensures HasId(UnionOf(a, b), d) <==> HasId(a, d) || HasId(b, d)
    {
      UnionOfIds(a, b, d);
    }
    forall x | x in UnionOf(a, b)
      ensures x in a || (x in b && !HasId(a, x.id))
    {
      UnionOfMembers(a, b, x);
    }
  }

  lemma UnionStep(a0: seq<Art>, a1: seq<Art>, i: nat, j: nat)
    requires i < |a0| && j < |a1|
    ensures UnionOf(a0[i..], a1[j..]) ==
            if a0[i].id < a1[j].id then [a0[i]] + UnionOf(a0[i + 1..], a1[j..])
            else if a0[i].id > a1[j].id then [a1[j]] + UnionOf(a0[i..], a1[j + 1..])
            else [a0[i]] + UnionOf(a0[i + 1..], a1[j + 1..])
  {
    assert a0[i..][1..] == a0[i + 1..] && a1[j..][1..] == a1[j + 1..];
  }

  lemma UnionEnd(a0: seq<Art>, a1: seq<Art>, i: nat, j: nat)
    requires i <= |a0| && j <= |a1| && (i == |a0| || j == |a1|)
    ensures UnionOf(a0[i..], a1[j..]) == a0[i..] + a1[j..]
  {
  }

  lemma Push(r: seq<Art>, x: Art, rest: seq<Art>)
    ensures r + ([x] + rest) == (r + [x]) + rest
  {
  }

  /** union_qq. */
  method UnionQq(a0: seq<Art>, a1: seq<Art>) returns (r: seq<Art>)
    ensures r == UnionOf(a0, a1)
  {
    hide UnionOf;
    r := [];
    var i: nat, j: nat := 0, 0;
    ghost var rest := UnionOf(a0, a1);
    assert a0[i..] == a0 && a1[j..] == a1;
    while i < |a0| && j < |a1|
      invariant 0 <= i <= |a0| && 0 <= j <= |a1|
      invariant rest == UnionOf(a0[i..], a1[j..]) && UnionOf(a0, a1) == r + rest
    {
      UnionStep(a0, a1, i, j);
      var x;
      if a0[i].id < a1[j].id {
        x := a0[i];
        i := i + 1;
      } else if a0[i].id > a1[j].id {
        x := a1[j];
        j := j + 1;
      } else {
        x := a0[i];
        i, j := i + 1, j + 1;
      }
      rest := UnionOf(a0[i..], a1[j..]);
      Push(r, x, rest);
      r := r + [x];
    }
    UnionEnd(a0, a1, i, j);
    r := r + a0[i..];
    r := r + a1[j..];
  }

  // ------------------------------------------------------------------ queries

  ghost predicate Matches(q: Simple, d: nat) {
    HasId(q.hits, d) != q.negative
  }

  ghost predicate ConjSat(c: seq<Simple>, d: nat) {
    forall j :: 0 <= j < |c| ==> Matches(c[j], d)
  }

  /** What a document has to do to satisfy an OR of ANDs. */
  ghost predicate Sat(query: seq<seq<Simple>>, d: nat) {
    exists i :: 0 <= i < |query| && ConjSat(query[i], d)
  }

  /** Every conjunction has a pattern, and the hits of each pattern are sorted by id. */
  ghost predicate QueryOk(query: seq<seq<Simple>>) {
    && (forall i :: 0 <= i < |query| ==> |query[i]| > 0)
    && (forall i, j :: 0 <= i < |query| && 0 <= j < |query[i]| ==> Sorted(query[i][j].hits))
  }

  predicate AllNegative(c: seq<Simple>) {
    forall j :: 0 <= j < |c| ==> c[j].negative
  }

  ghost predicate Denotes(y: Answer, d: nat) {
    y.arts.Present? && HasId(y.arts.s, d) != y.negative
  }

  ghost predicate Evaluated(y: Answer) {
    y.arts.Present? && Strict(y.arts.s)
  }

  /** An empty list that was never allocated becomes an allocated empty one. */
  function FillDummy(arts: Arts): Arts {
    if arts.Absent? then Present([]) else arts
  }

  /** What satisfying a query means, over its hits: a single pattern, alternatives, and
      patterns together. */
  lemma SatLaws(q: Simple, c: seq<Simple>, e: seq<Simple>, query: seq<seq<Simple>>, more: seq<seq<Simple>>, d: nat)
    ensures Sat([[q]], d) <==> if q.negative then forall i :: 0 <= i < |q.hits| ==> q.hits[i].id != d
                               else exists i :: 0 <= i < |q.hits| && q.hits[i].id == d
    ensures Sat([c + e], d) <==> Sat([c], d) && Sat([e], d)
    ensures Sat(query + more, d) <==> Sat(query, d) || Sat(more, d)
    ensures !Sat([], d)
  {
    SatOfConj([q], d);
    assert [q][0] == q && (ConjSat([q], d) <==> Matches(q, d));
    SatOfConj(c, d);
    SatOfConj(e, d);
    SatOfConj(c + e, d);
    ConjOfBoth(c, e, d);
    if i :| 0 <= i < |query| && ConjSat(query[i], d) {
      assert (query + more)[i] == query[i];
    }
    if i :| 0 <= i < |more| && ConjSat(more[i], d) {
      assert (query + more)[|query| + i] == more[i];
    }
  }

  lemma SatOfConj(c: seq<Simple>, d: nat)
    ensures Sat([c], d) <==> ConjSat(c, d)
  {
    assert [c][0] == c;
  }

  lemma ConjOfBoth(c: seq<Simple>, e: seq<Simple>, d: nat)
    ensures ConjSat(c + e, d) <==> ConjSat(c, d) && ConjSat(e, d)
  {
    assert forall j :: 0 <= j < |c| ==> (c + e)[j] == c[j];
    assert forall j :: 0 <= j < |e| ==> (c + e)[|c| + j] == e[j];
  }

  /** Where an element of the answer to a conjunction comes from: it is the first hit of its
      id for the first positive pattern, or, if all are negated, for the first pattern that
      has the id. */
  ghost predicate Source(c: seq<Simple>, a: Art) {
    exists j :: SourceAt(c, j, a)
  }

  ghost predicate SourceAt(c: seq<Simple>, j: int, a: Art) {
    && 0 <= j < |c| && IsFirst(c[j].hits, a)
    && (c[j].negative ==> AllNegative(c) && forall i :: 0 <= i < j ==> !HasId(c[i].hits, a.id))
    && (!c[j].negative ==> forall i :: 0 <= i < j ==> c[i].negative)
  }

  /** Elements of a conjunction, or of a pattern added to it. */
  lemma SourceStep(c: seq<Simple>, q: Simple, a: Art)
    ensures Source(c, a) && (q.negative || !AllNegative(c)) ==> Source(c + [q], a)
    ensures AllNegative(c) && !q.negative && IsFirst(q.hits, a) ==> Source(c + [q], a)
    ensures AllNegative(c) && q.negative && IsFirst(q.hits, a) && (forall i :: 0 <= i < |c| ==> !HasId(c[i].hits, a.id))
      ==> Source(c + [q], a)
  {
    hide HasId, IsFirst;
    var e := c + [q];
    assert AllNegative(e) <==> AllNegative(c) && q.negative by {
      assert e[|c|] == q;
      assert forall i :: 0 <= i < |c| ==> e[i] == c[i];
    }
    if j :| SourceAt(c, j, a) && (q.negative || !AllNegative(c)) {
      assert c[j].negative ==> AllNegative(e);
      assert SourceAt(e, j, a);
    }
    if AllNegative(c) && IsFirst(q.hits, a) &&
       (!q.negative || forall i :: 0 <= i < |c| ==> !HasId(c[i].hits, a.id)) {
      assert SourceAt(e, |c|, a);
    }
  }

  /** x_simple_query and uniq_qq; without occurrences the list is not even allocated. */
  method EvalSimple(q: Simple) returns (y: Answer)
    requires Sorted(q.hits)
    ensures Evaluated(y) && y.negative == q.negative
    ensures forall d :: Denotes(y, d) <==> Matches(q, d)
    ensures forall a :: a in y.arts.s ==> IsFirst(q.hits, a)
  {
    var arts := Absent;
    if |q.hits| > 0 {
      var a := new Art[|q.hits|](i requires 0 <= i < |q.hits| => q.hits[i]);
      assert a[..a.Length] == q.hits;
      var k := UniqQq(a, a.Length);
      arts := Present(a[..k]);
      FirstsOk(q.hits);
      forall a | a in Firsts(q.hits)
        ensures IsFirst(q.hits, a)
      {
        FirstsAreFirst(q.hits, a);
      }
    }
    y := Answer(q.negative, FillDummy(arts));
  }

  /** The four cases of combining two parts of a conjunction. */
  method Combine(y: Answer, q: Answer) returns (t: Answer)
    requires Evaluated(y) && Evaluated(q)
    ensures Evaluated(t) && t.negative == (y.negative && q.negative)
    ensures forall d :: Denotes(t, d) <==> Denotes(y, d) && Denotes(q, d)
    ensures forall a :: a in t.arts.s ==> if !y.negative then a in y.arts.s else if !q.negative then a in q.arts.s
                        else a in y.arts.s || (a in q.arts.s && !HasId(y.arts.s, a.id))
  {
    var r;
    if !y.negative && !q.negative {
      r := JoinQq(y.arts.s, q.arts.s);
      KeepOk(y.arts.s, q.arts.s, true);
    } else if y.negative && q.negative {
      r := UnionQq(y.arts.s, q.arts.s);
      UnionOfOk(y.arts.s, q.arts.s);
    } else if y.negative {
      r := JoinQqPN(q.arts.s, y.arts.s);
      KeepOk(q.arts.s, y.arts.s, false);
    } else {
      r := JoinQqPN(y.arts.s, q.arts.s);
      KeepOk(y.arts.s, q.arts.s, false);
    }
    t := Answer(y.negative && q.negative, Present(r));
  }

  /** The inner loop of xfss: one conjunction, which is negative if all its patterns are. */
  method EvalConj(c: seq<Simple>) returns (y: Answer)
    requires |c| > 0 && forall j :: 0 <= j < |c| ==> Sorted(c[j].hits)
    ensures Evaluated(y) && y.negative == AllNegative(c)
    ensures forall d :: Denotes(y, d) <==> ConjSat(c, d)
    ensures forall a :: a in y.arts.s ==> Source(c, a)
  {
    hide HasId, IsFirst, Source, AllNegative, ConjSat, Matches, Denotes;
    y := Answer(false, Absent);
    for j := 0 to |c|
      invariant j == 0 ==> y.arts.Absent?
      invariant j > 0 ==> Evaluated(y) && y.negative == AllNegative(c[..j])
      invariant j > 0 ==> forall d :: Denotes(y, d) <==> ConjSat(c[..j], d)
      invariant j > 0 ==> forall a :: a in y.arts.s ==> Source(c[..j], a)
    {
      var q := EvalSimple(c[j]);
      assert c[..j + 1] == c[..j] + [c[j]];
      forall d
        ensures ConjSat(c[..j + 1], d) <==> ConjSat(c[..j], d) && Matches(c[j], d)
      {
        ConjStep(c[..j], c[j], d);
      }
      NegativeStepOf(c[..j], c[j]);
      if j == 0 {
        NothingYet(c[..j]);
      }
      ghost var y0 := y;
      if y.arts.Absent? {
        y := q;
      } else {
        y := Combine(y, q);
      }
      Sources(c[..j], c[j], y0, q, y);
    }
    assert c[..|c|] == c;
  }

  lemma NegativeStepOf(c: seq<Simple>, q: Simple)
    ensures AllNegative(c + [q]) <==> AllNegative(c) && q.negative
  {
    assert (c + [q])[|c|] == q && forall i :: 0 <= i < |c| ==> (c + [q])[i] == c[i];
  }

  lemma NothingYet(c: seq<Simple>)
    requires c == []
    ensures AllNegative(c) && forall d :: ConjSat(c, d)
  {
  }

  /** The elements of a conjunction to which a pattern was added. */
  lemma Sources(c: seq<Simple>, p: Simple, y: Answer, q: Answer, t: Answer)
    requires c == [] ==> t == q
    requires Evaluated(q) && q.negative == p.negative && forall a :: a in q.arts.s ==> IsFirst(p.hits, a)
    requires c != [] ==> Evaluated(y) && y.negative == AllNegative(c) && Evaluated(t)
    requires c != [] ==> forall d :: Denotes(y, d) <==> ConjSat(c, d)
    requires c != [] ==> forall a :: a in y.arts.s ==> Source(c, a)
    requires c != [] ==> forall a :: a in t.arts.s ==>
               if !y.negative then a in y.arts.s else if !q.negative then a in q.arts.s
               else a in y.arts.s || (a in q.arts.s && !HasId(y.arts.s, a.id))
    ensures forall a :: a in t.arts.s ==> Source(c + [p], a)
  {
    hide IsFirst, Source, HasId;
    forall a | a in t.arts.s
      ensures Source(c + [p], a)
    {
      SourceStep(c, p, a);
      if c != [] && y.negative && q.negative && a !in y.arts.s {
        assert Denotes(y, a.id) && ConjSat(c, a.id);
        assert forall i :: 0 <= i < |c| ==> Matches(c[i], a.id);
      }
    }
  }

  lemma ConjStep(c: seq<Simple>, q: Simple, d: nat)
    ensures ConjSat(c + [q], d) <==> ConjSat(c, d) && Matches(q, d)
  {
    var e := c + [q];
    if ConjSat(e, d) {
      assert Matches(e[|c|], d);
      forall j | 0 <= j < |c|
        ensures Matches(c[j], d)
      {
        assert Matches(e[j], d);
      }
    }
  }

  /** Satisfied by a conjunction with a positive pattern, or by a wholly negated one. */
  ghost predicate SatOf(query: seq<seq<Simple>>, negative: bool, d: nat) {
    exists i :: 0 <= i < |query| && AllNegative(query[i]) == negative && ConjSat(query[i], d)
  }

  lemma SatOfStep(query: seq<seq<Simple>>, c: seq<Simple>, negative: bool, d: nat)
    ensures SatOf(query + [c], negative, d) <==>
            SatOf(query, negative, d) || (AllNegative(c) == negative && ConjSat(c, d))
  {
    var q := query + [c];
    if SatOf(query, negative, d) {
      var i :| 0 <= i < |query| && AllNegative(query[i]) == negative && ConjSat(query[i], d);
      assert q[i] == query[i];
    } else if AllNegative(c) == negative && ConjSat(c, d) {
      assert q[|query|] == c;
    }
  }

  /** The list pointer and counts xfss hands back. */
  datatype Outcome = Outcome(arts: Arts, narts: int, total: nat)

  function Count(arts: Arts): nat {
    if arts.Present? then |arts.s| else 0
  }

  function Limited(arts: Arts, limit: int): Outcome {
    var total := Count(arts);
    Outcome(arts, if limit != -1 && limit <= total then limit else total, total)
  }

  /** All elements are counted; the number returned is the limit, if there is one, or all. */
  ghost predicate Counted(r: Outcome, limit: int) {
    && r.total == (if r.arts.Present? then |r.arts.s| else 0) && r.narts <= r.total
    && (limit == -1 ==> r.narts == r.total)
    && (limit != -1 ==> r.narts <= limit && (r.narts == limit || r.narts == r.total))
  }

  ghost predicate IdsOk(arts: Arts) {
    arts.Present? ==> Strict(arts.s)
  }

  /** Accepted by "in P" or by "not in N"; an absent list accepts nothing. */
  ghost predicate Accepts(p: Arts, n: Arts, d: nat) {
    (p.Present? && HasId(p.s, d)) || (n.Present? && !HasId(n.s, d))
  }

  /** Element a of P is that of the first conjunction with a positive pattern its document
      satisfies. */
  ghost predicate PositiveSource(query: seq<seq<Simple>>, a: Art) {
    exists i :: PositiveSourceAt(query, i, a)
  }

  ghost predicate PositiveSourceAt(query: seq<seq<Simple>>, i: int, a: Art) {
    && 0 <= i < |query| && !AllNegative(query[i]) && ConjSat(query[i], a.id) && Source(query[i], a)
    && forall k :: 0 <= k < i ==> AllNegative(query[k]) || !ConjSat(query[k], a.id)
  }

  /** Element a of N is that of the first wholly negated conjunction. */
  ghost predicate NegativeSource(query: seq<seq<Simple>>, a: Art) {
    exists i :: NegativeSourceAt(query, i, a)
  }

  ghost predicate NegativeSourceAt(query: seq<seq<Simple>>, i: int, a: Art) {
    && 0 <= i < |query| && AllNegative(query[i]) && Source(query[i], a)
    && forall k :: 0 <= k < i ==> !AllNegative(query[k])
  }

  lemma PositiveStep(query: seq<seq<Simple>>, c: seq<Simple>, a: Art)
    ensures PositiveSource(query, a) ==> PositiveSource(query + [c], a)
    ensures !AllNegative(c) && ConjSat(c, a.id) && Source(c, a) && !SatOf(query, false, a.id) ==>
              PositiveSource(query + [c], a)
  {
    hide Source, ConjSat, AllNegative;
    if i :| PositiveSourceAt(query, i, a) {
      assert PositiveSourceAt(query + [c], i, a);
    }
    if !AllNegative(c) && ConjSat(c, a.id) && Source(c, a) && !SatOf(query, false, a.id) {
      assert PositiveSourceAt(query + [c], |query|, a);
    }
  }

  lemma NegativeStep(query: seq<seq<Simple>>, c: seq<Simple>, a: Art)
    ensures NegativeSource(query, a) ==> NegativeSource(query + [c], a)
    ensures AllNegative(c) && Source(c, a) && (forall i :: 0 <= i < |query| ==> !AllNegative(query[i])) ==>
              NegativeSource(query + [c], a)
  {
    hide Source, AllNegative;
    if i :| NegativeSourceAt(query, i, a) {
      assert NegativeSourceAt(query + [c], i, a);
    }
    if AllNegative(c) && Source(c, a) && (forall i :: 0 <= i < |query| ==> !AllNegative(query[i])) {
      assert NegativeSourceAt(query + [c], |query|, a);
    }
  }

  /** The list P: absent without a conjunction with a positive pattern, else of the ids that
      one accepts. */
  ghost predicate IsP(query: seq<seq<Simple>>, p: Arts) {
    && IdsOk(p) && (p.Absent? <==> forall i :: 0 <= i < |query| ==> AllNegative(query[i]))
    && (p.Present? ==> forall d :: HasId(p.s, d) <==> SatOf(query, false, d))
    && (p.Present? ==> forall a :: a in p.s ==> PositiveSource(query, a))
  }

  /** The list N: absent without a wholly negated conjunction, else of the ids that none of
      them accepts. */
  ghost predicate IsN(query: seq<seq<Simple>>, n: Arts) {
    && IdsOk(n) && (n.Absent? <==> forall i :: 0 <= i < |query| ==> !AllNegative(query[i]))
    && (n.Present? ==> forall d :: HasId(n.s, d) <==> !SatOf(query, true, d))
    && (n.Present? ==> forall a :: a in n.s ==> NegativeSource(query, a))
  }

  method Xfss(query: seq<seq<Simple>>, plimit: int, nlimit: int) returns (rp: Outcome, rn: Outcome)
    requires QueryOk(query)
    ensures IsP(query, rp.arts) && IsN(query, rn.arts)
    ensures Counted(rp, plimit) && Counted(rn, nlimit)
    ensures forall k, d :: 0 <= k < rp.narts && SatOf(query, false, d) && !HasId(rp.arts.s[..rp.narts], d) ==>
              rp.arts.s[k].id < d
    ensures forall d :: Sat(query, d) <==> Accepts(rp.arts, rn.arts, d)
  {
    var x, z := Absent, Absent;
    for i := 0 to |query|
      invariant IsP(query[..i], x) && IsN(query[..i], z)
    {
      var y := EvalConj(query[i]);
      assert query[..i + 1] == query[..i] + [query[i]];
      if y.negative {
        z := AddNegative(query[..i], query[i], z, y);
        SameP(query[..i], query[i], x);
      } else {
        x := AddPositive(query[..i], query[i], x, y);
        SameN(query[..i], query[i], z);
      }
    }
    assert query[..|query|] == query;
    BothAccept(query, x, z);
    rp, rn := Limited(x, plimit), Limited(z, nlimit);
    if rp.narts > 0 {
      LeastFirst(query, x, rp.narts);
    }
  }

  /** The beginning of the list P has the least ids. */
  lemma LeastFirst(query: seq<seq<Simple>>, p: Arts, n: nat)
    requires p.Present? && IsP(query, p) && n <= |p.s|
    ensures forall k, d :: 0 <= k < n && SatOf(query, false, d) && !HasId(p.s[..n], d) ==> p.s[k].id < d
  {
    hide SatOf, PositiveSource;
    forall k, d | 0 <= k < n && SatOf(query, false, d) && !HasId(p.s[..n], d)
      ensures p.s[k].id < d
    {
      assert HasId(p.s, d);
      var i :| 0 <= i < |p.s| && p.s[i].id == d;
      assert i < n ==> p.s[..n][i].id == d;
    }
  }

  lemma BothAccept(query: seq<seq<Simple>>, p: Arts, n: Arts)
    requires IsP(query, p) && IsN(query, n)
    ensures forall d :: Sat(query, d) <==> Accepts(p, n, d)
  {
    hide HasId, PositiveSource, NegativeSource, AllNegative;
    forall d
      ensures Sat(query, d) <==> Accepts(p, n, d)
    {
      SatSplit(query, d);
    }
  }

  /** A wholly negated conjunction does not touch P. */
  lemma SameP(query: seq<seq<Simple>>, c: seq<Simple>, p: Arts)
    requires IsP(query, p) && AllNegative(c)
    ensures IsP(query + [c], p)
  {
    hide HasId, PositiveSource, SatOf, AllNegative;
    var q := query + [c];
    assert q[|query|] == c && forall i :: 0 <= i < |query| ==> q[i] == query[i];
    if p.Present? {
      forall d
        ensures HasId(p.s, d) <==> SatOf(q, false, d)
      {
        SatOfStep(query, c, false, d);
      }
      forall a | a in p.s
        ensures PositiveSource(q, a)
      {
        PositiveStep(query, c, a);
      }
    }
  }

  lemma SameN(query: seq<seq<Simple>>, c: seq<Simple>, n: Arts)
    requires IsN(query, n) && !AllNegative(c)
    ensures IsN(query + [c], n)
  {
    hide HasId, NegativeSource, SatOf, AllNegative;
    var q := query + [c];
    assert q[|query|] == c && forall i :: 0 <= i < |query| ==> q[i] == query[i];
    if n.Present? {
      forall d
        ensures HasId(n.s, d) <==> !SatOf(q, true, d)
      {
        SatOfStep(query, c, true, d);
      }
      forall a | a in n.s
        ensures NegativeSource(q, a)
      {
        NegativeStep(query, c, a);
      }
    }
  }

  lemma SatSplit(query: seq<seq<Simple>>, d: nat)
    ensures Sat(query, d) <==> SatOf(query, false, d) || SatOf(query, true, d)
  {
    if Sat(query, d) {
      var i :| 0 <= i < |query| && ConjSat(query[i], d);
      assert AllNegative(query[i]) || !AllNegative(query[i]);
    }
  }

  /** What the evaluation of a conjunction gives. */
  ghost predicate Answers(c: seq<Simple>, y: Answer) {
    && Evaluated(y) && y.negative == AllNegative(c)
    && (forall d :: Denotes(y, d) <==> ConjSat(c, d))
    && (forall a :: a in y.arts.s ==> Source(c, a))
  }

  /** One conjunction with a positive pattern more. */
  method AddPositive(ghost query: seq<seq<Simple>>, ghost c: seq<Simple>, u: Arts, y: Answer) returns (t: Arts)
    requires IsP(query, u) && Answers(c, y) && !y.negative
    ensures IsP(query + [c], t)
  {
    if u.Absent? {
      t := y.arts;
      NoneOnSide(query, false);
    } else {
      var r := UnionQq(u.s, y.arts.s);
      UnionOfOk(u.s, y.arts.s);
      t := Present(r);
    }
    PositiveAdded(query, c, u, y, t);
  }

  lemma NoneOnSide(query: seq<seq<Simple>>, negative: bool)
    requires forall i :: 0 <= i < |query| ==> AllNegative(query[i]) != negative
    ensures forall d :: !SatOf(query, negative, d)
  {
  }

  lemma PositiveAdded(query: seq<seq<Simple>>, c: seq<Simple>, u: Arts, y: Answer, t: Arts)
    requires IsP(query, u) && Answers(c, y) && !y.negative && t.Present?
    requires if u.Absent? then t == y.arts && forall d :: !SatOf(query, false, d) else IsUnion(t.s, u.s, y.arts.s)
    ensures IsP(query + [c], t)
  {
    hide HasId, PositiveSource, SatOf, Source, AllNegative, ConjSat, Strict;
    var q := query + [c];
    assert q[|query|] == c;
    forall d
      ensures HasId(t.s, d) <==> SatOf(q, false, d)
    {
      SatOfStep(query, c, false, d);
      assert Denotes(y, d) <==> ConjSat(c, d);
    }
    forall a | a in t.s
      ensures PositiveSource(q, a)
    {
      PositiveStep(query, c, a);
      HasIdIn(y.arts.s, a);
      assert Denotes(y, a.id) <==> ConjSat(c, a.id);
    }
  }

  lemma HasIdIn(s: seq<Art>, a: Art)
    ensures a in s ==> HasId(s, a.id)
  {
  }

  /** One wholly negated conjunction more. */
  method AddNegative(ghost query: seq<seq<Simple>>, ghost c: seq<Simple>, u: Arts, y: Answer) returns (t: Arts)
    requires IsN(query, u) && Answers(c, y) && y.negative
    ensures IsN(query + [c], t)
  {
    if u.Absent? {
      t := y.arts;
      NoneOnSide(query, true);
    } else {
      var r := JoinQq(u.s, y.arts.s);
      KeepOk(u.s, y.arts.s, true);
      t := Present(r);
    }
    NegativeAdded(query, c, u, y, t);
  }

  lemma NegativeAdded(query: seq<seq<Simple>>, c: seq<Simple>, u: Arts, y: Answer, t: Arts)
    requires IsN(query, u) && Answers(c, y) && y.negative && t.Present? && Strict(t.s)
    requires u.Absent? ==> t == y.arts && forall d :: !SatOf(query, true, d)
    requires u.Present? ==> forall d :: HasId(t.s, d) <==> HasId(u.s, d) && HasId(y.arts.s, d)
    requires u.Present? ==> forall a :: a in t.s ==> a in u.s
    ensures IsN(query + [c], t)
  {
    hide HasId, NegativeSource, SatOf, Source, AllNegative, ConjSat, Strict;
    var q := query + [c];
    assert q[|query|] == c;
    forall d
      ensures HasId(t.s, d) <==> !SatOf(q, true, d)
    {
      SatOfStep(query, c, true, d);
      assert Denotes(y, d) <==> ConjSat(c, d);
    }
    forall a | a in t.s
      ensures NegativeSource(q, a)
    {
      NegativeStep(query, c, a);
    }
  }

  // ------------------------------------------------------------------ the mask test

  /** A mask: NULL, or a sorted id vector. */
  datatype IdVec = NoVec | Vec(ids: seq<nat>)

  ghost predicate VecOk(v: IdVec) {
    v.Vec? ==> forall i, j :: 0 <= i < j < |v.ids| ==> v.ids[i] < v.ids[j]
  }

  /** arts2idvec, called only for lists that are not NULL. */
  method Arts2IdVec(arts: Arts, n: nat) returns (v: IdVec)
    requires n <= Count(arts) && IdsOk(arts)
    ensures VecOk(v) && (v.NoVec? <==> arts.Absent?)
    ensures arts.Present? ==> |v.ids| == n && forall i :: 0 <= i < n ==> v.ids[i] == arts.s[i].id
  {
    if arts.Absent? {
      return NoVec;
    }
    var r := [];
    for k := 0 to n
      invariant |r| == k && forall i :: 0 <= i < k ==> r[i] == arts.s[i].id
    {
      r := r + [arts.s[k].id];
    }
    v := Vec(r);
  }

  /** The two masks of a search with their cursors. */
  class Masks {
    const p: IdVec
    const n: IdVec
    var pidx: nat
    var nidx: nat

    /** The cursors have passed only ids below lo. */
    ghost predicate Valid(lo: nat)
      reads this
    {
      && VecOk(p) && VecOk(n)
      && (p.Vec? ==> pidx <= |p.ids| && forall i :: 0 <= i < pidx ==> p.ids[i] < lo)
      && (n.Vec? ==> nidx <= |n.ids| && forall i :: 0 <= i < nidx ==> n.ids[i] < lo)
    }

    /** In P, or a set N is there and it is not in N. */
    predicate Lets(d: nat) {
      (p.Vec? && d in p.ids) || (n.Vec? && d !in n.ids)
    }

    constructor (p: IdVec, n: IdVec)
      requires VecOk(p) && VecOk(n)
      ensures this.p == p && this.n == n && Valid(0)
    {
      this.p, this.n := p, n;
      pidx, nidx := 0, 0;
    }

    /** assv_mask_test; asked for ids in increasing order. */
    method Test(d: nat, ghost lo: nat) returns (r: bool)
      requires Valid(lo) && lo <= d
      modifies this
      ensures Valid(d)
      ensures r <==> Lets(d)
    {
      if p.Vec? {
        while pidx < |p.ids| && p.ids[pidx] < d
          invariant Valid(d)
        {
          pidx := pidx + 1;
        }
        if pidx < |p.ids| && p.ids[pidx] == d {
          return true;
        }
        CursorMisses(p.ids, pidx, d);
      }
      if n.Vec? {
        while nidx < |n.ids| && n.ids[nidx] < d
          invariant Valid(d)
        {
          nidx := nidx + 1;
        }
        if !(nidx < |n.ids| && n.ids[nidx] == d) {
          CursorMisses(n.ids, nidx, d);
          return true;
        }
      }
      return false;
    }
  }

  lemma CursorMisses(ids: seq<nat>, i: nat, d: nat)
    requires VecOk(Vec(ids)) && i <= |ids|
    requires (forall k :: 0 <= k < i ==> ids[k] < d) && (i < |ids| ==> ids[i] > d)
    ensures d !in ids
  {
    forall k | 0 <= k < |ids|
      ensures ids[k] != d
    {
      if k > i {
        assert ids[i] < ids[k];
      }
    }
  }

  /** assv with a full-text query: the masks from xfss with unlimited lists. */
  method FssMasks(query: seq<seq<Simple>>) returns (m: Masks)
    requires QueryOk(query)
    ensures fresh(m) && m.Valid(0)
    ensures forall d: nat :: m.Lets(d) <==> Sat(query, d)
  {
    var rp, rn := Xfss(query, -1, -1);
    var p := Arts2IdVec(rp.arts, rp.narts);
    var n := Arts2IdVec(rn.arts, rn.narts);
    m := new Masks(p, n);
    forall d: nat
      ensures m.Lets(d) <==> Sat(query, d)
    {
      VecHasIds(rp.arts, p, d);
      VecHasIds(rn.arts, n, d);
    }
  }

  lemma VecHasIds(arts: Arts, v: IdVec, d: nat)
    requires arts.Present? <==> v.Vec?
    requires arts.Present? ==> |v.ids| == |arts.s| && forall i :: 0 <= i < |v.ids| ==> v.ids[i] == arts.s[i].id
    ensures arts.Present? ==> (d in v.ids <==> HasId(arts.s, d))
  {
    if v.Vec? && d in v.ids {
      var i :| 0 <= i < |v.ids| && v.ids[i] == d;
      assert arts.s[i].id == d;
    }
    if arts.Present? && HasId(arts.s, d) {
      var i :| 0 <= i < |arts.s| && arts.s[i].id == d;
      assert v.ids[i] == d;
    }
  }

  /** The whole way: increasing document ids pass exactly if they satisfy the query. */
  method FilterDocs(query: seq<seq<Simple>>, docs: seq<nat>) returns (pass: seq<bool>)
    requires QueryOk(query)
    requires forall i, j :: 0 <= i < j < |docs| ==> docs[i] <= docs[j]
    ensures |pass| == |docs| && forall i :: 0 <= i < |docs| ==> (pass[i] <==> Sat(query, docs[i]))
  {
    var m := FssMasks(query);
    pass := [];
    for k := 0 to |docs|
      invariant |pass| == k && m.Valid(if k == 0 then 0 else docs[k - 1])
      invariant forall i :: 0 <= i < k ==> (pass[i] <==> Sat(query, docs[i]))
    {
      var r := m.Test(docs[k], if k == 0 then 0 else docs[k - 1]);
      pass := pass + [r];
    }
  }
}
