/** bxutil.c: a boolean expression over term ids becomes a filter over the query terms of a
    search, equal ids sharing one variable. */
module Bxutil {
  import opened Common
  import opened Bx

  /** struct bxue_t: a token character and, for a term, its id. */
  datatype Bxue = Bxue(kind: char, id: nat)

  /** A query term: its id, and whether it came with a vector of its own. */
  datatype Item = Item(id: nat, hasVec: bool)

  /** The token string over ids the caller means. */
  function Meant(e: Bxue): Option<Tok> {
    if e.kind == '(' then Some(LPar)
    else if e.kind == ')' then Some(RPar)
    else if e.kind == '&' then Some(And)
    else if e.kind == '|' then Some(Or)
    else if e.kind == '!' then Some(Not)
    else if e.kind == 'T' then Some(T)
    else if e.kind == 'F' then Some(F)
    else if e.kind == '"' then Some(Var(e.id))
    else None
  }

  ghost predicate AllMeant(e: seq<Bxue>) {
    forall i :: 0 <= i < |e| ==> Meant(e[i]).Some?
  }

  function MeantAll(e: seq<Bxue>): (r: seq<Tok>)
    requires AllMeant(e)
    ensures |r| == |e|
  {
    seq(|e|, i requires 0 <= i < |e| => Meant(e[i]).value)
  }

  /** Renaming variables to the ids of the terms they stand for. */
  function IdTok(t: Tok, ids: seq<nat>): Tok {
    if t.Var? && t.v < |ids| then Var(ids[t.v]) else t
  }

  function IdToks(ts: seq<Tok>, ids: seq<nat>): (r: seq<Tok>)
    ensures |r| == |ts|
  {
    seq(|ts|, i requires 0 <= i < |ts| => IdTok(ts[i], ids))
  }

  function IdA(a: AExpr, ids: seq<nat>): AExpr {
    match a
    case ANil => ANil
    case ACons(m, next) => ACons(IdM(m, ids), IdA(next, ids))
  }

  function IdM(m: MExpr, ids: seq<nat>): MExpr {
    match m
    case MNil => MNil
    case MCons(n, next) => MCons(IdN(n, ids), IdM(next, ids))
  }

  function IdN(n: NExpr, ids: seq<nat>): NExpr {
    NExpr(IdF(n.e, ids), n.not)
  }

  function IdF(f: FExpr, ids: seq<nat>): FExpr {
    match f
    case Paren(a) => Paren(IdA(a, ids))
    case VarRef(v) => if v < |ids| then VarRef(ids[v]) else f
    case _ => f
  }

  lemma IdToksConcat(s: seq<Tok>, t: seq<Tok>, ids: seq<nat>)
    ensures IdToks(s + t, ids) == IdToks(s, ids) + IdToks(t, ids)
  {
  }

  lemma {:induction false} IdTokA(a: AExpr, ids: seq<nat>)
    ensures TokA(IdA(a, ids)) == IdToks(TokA(a), ids) && (AOk(IdA(a, ids)) <==> AOk(a))
    decreases a
  {
    hide TokA, TokM, IdM, MOk, IdToks;
    if a.ANil? {
      NoToks(ids);
    } else {
      TokAStep(a);
      TokAStep(IdA(a, ids));
      IdTokM(a.e, ids);
      IdTokA(a.next, ids);
      NoToks(ids);
      IdToksConcat([Or], TokA(a.next), ids);
      IdToksConcat(TokM(a.e), if a.next.ANil? then [] else [Or] + TokA(a.next), ids);
    }
  }

  lemma {:induction false} IdTokM(m: MExpr, ids: seq<nat>)
    ensures TokM(IdM(m, ids)) == IdToks(TokM(m), ids) && (MOk(IdM(m, ids)) <==> MOk(m))
    decreases m
  {
    hide TokM, TokN, IdN, FOk, IdToks;
    if m.MNil? {
      NoToks(ids);
    } else {
      TokMStep(m);
      TokMStep(IdM(m, ids));
      IdTokN(m.e, ids);
      IdTokM(m.next, ids);
      NoToks(ids);
      IdToksConcat([And], TokM(m.next), ids);
      IdToksConcat(TokN(m.e), if m.next.MNil? then [] else [And] + TokM(m.next), ids);
    }
  }

  lemma {:induction false} IdTokN(n: NExpr, ids: seq<nat>)
    ensures TokN(IdN(n, ids)) == IdToks(TokN(n), ids) && (FOk(IdN(n, ids).e) <==> FOk(n.e))
    decreases n
  {
    hide TokF, IdF, FOk, IdToks;
    IdTokF(n.e, ids);
    NoToks(ids);
    IdToksConcat(if n.not then [Not] else [], TokF(n.e), ids);
  }

  lemma NoToks(ids: seq<nat>)
    ensures IdToks([], ids) == [] && TokA(ANil) == [] && TokM(MNil) == []
    ensures IdToks([Not], ids) == [Not] && IdToks([Or], ids) == [Or] && IdToks([And], ids) == [And]
  {
  }

  lemma {:induction false} IdTokF(f: FExpr, ids: seq<nat>)
    ensures TokF(IdF(f, ids)) == IdToks(TokF(f), ids) && (FOk(IdF(f, ids)) <==> FOk(f))
    decreases f
  {
    if f.Paren? {
      IdTokA(f.e, ids);
      IdToksConcat([LPar], TokA(f.e), ids);
      IdToksConcat([LPar] + TokA(f.e), [RPar], ids);
    }
  }

  /** A variable has the truth of its term, so the whole expression has. */
  lemma {:induction false} IdTruthA(a: AExpr, ids: seq<nat>, on: nat -> bool, occ: nat -> bool)
    requires VarsA(a, |ids|) && VarsTrue(TokA(a), ids, on, occ)
    ensures TruthA(a, on) <==> TruthA(IdA(a, ids), occ)
    decreases a
  {
    if a.ACons? {
      VarsTrueSplit(TokM(a.e), if a.next.ANil? then [] else [Or] + TokA(a.next), ids, on, occ);
      IdTruthM(a.e, ids, on, occ);
      if a.next.ACons? {
        VarsTrueSplit([Or], TokA(a.next), ids, on, occ);
        IdTruthA(a.next, ids, on, occ);
      }
    }
  }

  lemma {:induction false} IdTruthM(m: MExpr, ids: seq<nat>, on: nat -> bool, occ: nat -> bool)
    requires VarsM(m, |ids|) && VarsTrue(TokM(m), ids, on, occ)
    ensures TruthM(m, on) <==> TruthM(IdM(m, ids), occ)
    decreases m
  {
    if m.MCons? {
      VarsTrueSplit(TokN(m.e), if m.next.MNil? then [] else [And] + TokM(m.next), ids, on, occ);
      VarsTrueSplit(if m.e.not then [Not] else [], TokF(m.e.e), ids, on, occ);
      IdTruthF(m.e.e, ids, on, occ);
      if m.next.MCons? {
        VarsTrueSplit([And], TokM(m.next), ids, on, occ);
        IdTruthM(m.next, ids, on, occ);
      }
    }
  }

  lemma {:induction false} IdTruthF(f: FExpr, ids: seq<nat>, on: nat -> bool, occ: nat -> bool)
    requires VarsF(f, |ids|) && VarsTrue(TokF(f), ids, on, occ)
    ensures TruthF(f, on) <==> TruthF(IdF(f, ids), occ)
    decreases f
  {
    match f {
      case Paren(a) =>
        VarsTrueSplit([LPar] + TokA(a), [RPar], ids, on, occ);
        VarsTrueSplit([LPar], TokA(a), ids, on, occ);
        IdTruthA(a, ids, on, occ);
      case VarRef(v) =>
        assert TokF(f)[0] == Var(v);
      case _ =>
    }
  }

  /** The variables among the tokens are on exactly if their terms occur. */
  ghost predicate VarsTrue(ts: seq<Tok>, ids: seq<nat>, on: nat -> bool, occ: nat -> bool) {
    forall i :: 0 <= i < |ts| && ts[i].Var? && ts[i].v < |ids| ==> on(ts[i].v) == occ(ids[ts[i].v])
  }

  lemma VarsTrueSplit(s: seq<Tok>, t: seq<Tok>, ids: seq<nat>, on: nat -> bool, occ: nat -> bool)
    requires VarsTrue(s + t, ids, on, occ)
    ensures VarsTrue(s, ids, on, occ) && VarsTrue(t, ids, on, occ)
  {
    forall i | 0 <= i < |s| && s[i].Var? && s[i].v < |ids|
      ensures on(s[i].v) == occ(ids[s[i].v])
    {
      assert (s + t)[i] == s[i];
    }
    forall i | 0 <= i < |t| && t[i].Var? && t[i].v < |ids|
      ensures on(t[i].v) == occ(ids[t[i].v])
    {
      assert (s + t)[|s| + i] == t[i];
    }
  }

  // ------------------------------------------------------------------ bxu_conv and bxu_eval

  function Ids(q: seq<Item>): (r: seq<nat>)
    ensures |r| == |q| && forall i :: 0 <= i < |r| ==> r[i] == q[i].id
  {
    seq(|q|, i requires 0 <= i < |q| => q[i].id)
  }

  /** The lookup of a term among the query terms without a vector. */
  method FindVar(qq: seq<Item>, id: nat) returns (k: nat)
    ensures k <= |qq| && (k < |qq| ==> qq[k] == Item(id, false))
    ensures forall c :: 0 <= c < k ==> qq[c] != Item(id, false)
  {
    k := 0;
    while k < |qq| && !(!qq[k].hasVec && id == qq[k].id)
      invariant k <= |qq| && forall c :: 0 <= c < k ==> qq[c] != Item(id, false)
    {
      k := k + 1;
    }
  }

  /** Variables refer to terms without a vector. */
  ghost predicate RefsOk(ts: seq<Tok>, qq: seq<Item>) {
    forall i :: 0 <= i < |ts| && ts[i].Var? ==> ts[i].v < |qq| && !qq[ts[i].v].hasVec
  }

  /** The new query terms differ from each other and from those that had no vector. */
  ghost predicate Shared(qq: seq<Item>, qlen: nat) {
    qlen <= |qq| && forall k :: qlen <= k < |qq| ==> IsNew(qq, k)
  }

  ghost predicate IsNew(qq: seq<Item>, k: nat)
    requires k < |qq|
  {
    !qq[k].hasVec && forall c :: 0 <= c < k ==> qq[c] != qq[k]
  }

  lemma SharedMore(qq: seq<Item>, qlen: nat, v: Item)
    requires Shared(qq, qlen) && !v.hasVec && forall c :: 0 <= c < |qq| ==> qq[c] != v
    ensures Shared(qq + [v], qlen)
  {
    var r := qq + [v];
    forall k | qlen <= k < |r|
      ensures IsNew(r, k)
    {
      assert k < |qq| ==> IsNew(qq, k);
    }
  }

  /** The loop of bxu_conv: one token for each element, one variable for each new id. */
  method ConvTokens(q: seq<Item>, e: seq<Bxue>) returns (ok: bool, ts: seq<Tok>, qq: seq<Item>)
    ensures ok <==> AllMeant(e)
    ensures ok ==> |ts| == |e| && IdToks(ts, Ids(qq)) == MeantAll(e) && RefsOk(ts, qq)
    ensures q <= qq && Shared(qq, |q|) && |qq| <= |q| + |e|
    ensures forall k :: |q| <= k < |qq| ==> Bxue('"', qq[k].id) in e
  {
    ts, qq := [], q;
    for i := 0 to |e|
      invariant |ts| == i && q <= qq && Shared(qq, |q|) && |qq| <= |q| + i && RefsOk(ts, qq)
      invariant forall k :: |q| <= k < |qq| ==> Bxue('"', qq[k].id) in e
      invariant forall c :: 0 <= c < i ==> Meant(e[c]).Some? && IdTok(ts[c], Ids(qq)) == Meant(e[c]).value
    {
      var t;
      match e[i].kind {
        case '(' => t := LPar;
        case ')' => t := RPar;
        case '&' => t := And;
        case '|' => t := Or;
        case '!' => t := Not;
        case 'T' => t := T;
        case 'F' => t := F;
        case '"' =>
          var k := FindVar(qq, e[i].id);
          if k == |qq| {
            ghost var before := qq;
            assert e[i] == Bxue('"', e[i].id);
            qq := qq + [Item(e[i].id, false)];
            SharedMore(before, |q|, Item(e[i].id, false));
            forall c | 0 <= c < i
              ensures IdTok(ts[c], Ids(qq)) == IdTok(ts[c], Ids(before))
            {
            }
          }
          t := Var(k);
        case _ =>
          assert Meant(e[i]).None?;
          return false, ts, qq;
      }
      ts := ts + [t];
    }
    return true, ts, qq;
  }

  ghost predicate Grammatical(e: seq<Bxue>) {
    AllMeant(e) && exists a :: AOk(a) && TokA(a) == MeantAll(e)
  }

  /** bxu_conv: the filter, and the query with a term for each variable. It succeeds exactly
      on the grammatical expressions. */
  method Conv(q: seq<Item>, e: seq<Bxue>) returns (r: Option<AExpr>, newq: seq<Item>)
    ensures q <= newq && Shared(newq, |q|) && forall k :: |q| <= k < |newq| ==> Bxue('"', newq[k].id) in e
    ensures r.Some? <==> Grammatical(e)
    ensures r.Some? ==> AOk(r.value) && VarsA(r.value, |newq|) && RefsOk(TokA(r.value), newq)
    ensures r.Some? ==> TokA(IdA(r.value, Ids(newq))) == MeantAll(e)
  {
    var ok, ts;
    ok, ts, newq := ConvTokens(q, e);
    if !ok {
      return None, newq;
    }
    var attrs := [Start] + ts + [End];
    r := Compile(attrs);
    ghost var ids := Ids(newq);
    if r.Some? {
      assert ts == TokA(r.value) by {
        assert ts == attrs[1..|attrs| - 1];
        assert attrs == [Start] + TokA(r.value) + [End];
      }
      IdTokA(r.value, ids);
      VarsOfToksA(r.value, |newq|);
      assert AOk(IdA(r.value, ids)) && TokA(IdA(r.value, ids)) == MeantAll(e);
    } else {
      forall a | AOk(a) && TokA(a) == MeantAll(e)
        ensures false
      {
        var b := Retok(attrs, ts, ids, a);
      }
    }
  }

  /** Parsing looks only at the kinds of the tokens, so it goes along with renaming. */
  lemma {:induction false} ParseIdsA(attr: seq<Tok>, ids: seq<nat>, i: nat)
    requires Ended(attr) && i < |attr| && Ended(IdToks(attr, ids))
    ensures ParseA(IdToks(attr, ids), i) ==
            match ParseA(attr, i) { case None => None case Some((a, j)) => Some((IdA(a, ids), j)) }
    decreases |attr| - i, 3
  {
    ParseIdsM(attr, ids, i);
    var r := ParseM(attr, i);
    if r.Some? && attr[r.value.1] == Or {
      ParseIdsA(attr, ids, r.value.1 + 1);
    }
  }

  lemma {:induction false} ParseIdsM(attr: seq<Tok>, ids: seq<nat>, i: nat)
    requires Ended(attr) && i < |attr| && Ended(IdToks(attr, ids))
    ensures ParseM(IdToks(attr, ids), i) ==
            match ParseM(attr, i) { case None => None case Some((m, j)) => Some((IdM(m, ids), j)) }
    decreases |attr| - i, 2
  {
    ParseIdsN(attr, ids, i);
    var r := ParseN(attr, i);
    if r.Some? && attr[r.value.1] == And {
      ParseIdsM(attr, ids, r.value.1 + 1);
    }
  }

  lemma {:induction false} ParseIdsN(attr: seq<Tok>, ids: seq<nat>, i: nat)
    requires Ended(attr) && i < |attr| && Ended(IdToks(attr, ids))
    ensures ParseN(IdToks(attr, ids), i) ==
            match ParseN(attr, i) { case None => None case Some((n, j)) => Some((NExpr(IdF(n.e, ids), n.not), j)) }
    decreases |attr| - i, 1
  {
    if attr[i] == Not {
      ParseIdsF(attr, ids, i + 1);
    } else {
      ParseIdsF(attr, ids, i);
    }
  }

  lemma {:induction false} ParseIdsF(attr: seq<Tok>, ids: seq<nat>, i: nat)
    requires Ended(attr) && i < |attr| && Ended(IdToks(attr, ids))
    ensures ParseF(IdToks(attr, ids), i) ==
            match ParseF(attr, i) { case None => None case Some((f, j)) => Some((IdF(f, ids), j)) }
    decreases |attr| - i, 0
  {
    hide ParseA, IdA;
    if attr[i] == LPar {
      ParseIdsA(attr, ids, i + 1);
    }
  }

  /** A grammatical string over ids is grammatical over variables. */
  lemma Retok(attrs: seq<Tok>, ts: seq<Tok>, ids: seq<nat>, a: AExpr) returns (b: AExpr)
    requires attrs == [Start] + ts + [End] && AOk(a) && TokA(a) == IdToks(ts, ids)
    ensures AOk(b) && attrs == [Start] + TokA(b) + [End]
  {
    var attrs' := IdToks(attrs, ids);
    assert attrs' == [Start] + TokA(a) + [End];
    assert attrs'[1..1 + |TokA(a)|] == TokA(a);
    ParseAComplete(attrs', 1, a);
    ParseIdsA(attrs, ids, 1);
    b := ParseA(attrs, 1).value.0;
    ParseASound(attrs, 1);
    assert attrs == attrs[..1] + attrs[1..|attrs| - 1] + attrs[|attrs| - 1..];
  }

  /** bxu_eval: sets the variables of the terms a document was found by, then evaluates. */
  method Eval(expr: AExpr, nvars: nat, hits: seq<nat>) returns (r: int)
    requires VarsA(expr, nvars) && forall i :: 0 <= i < |hits| ==> hits[i] < nvars
    ensures r == if TruthA(expr, (v: nat) => v in hits) then 1 else 0
  {
    var vars := seq(nvars, _ => 0);
    for i := 0 to |hits|
      invariant |vars| == nvars
      invariant forall v :: 0 <= v < nvars ==> vars[v] == if v in hits[..i] then 1 else 0
    {
      assert hits[..i + 1] == hits[..i] + [hits[i]];
      vars := vars[hits[i] := 1];
    }
    assert hits[..|hits|] == hits;
    r := EvalA(expr, vars);
    SameTruthA(expr, OnIn(vars), (v: nat) => v in hits);
  }

  lemma {:induction false} SameTruthA(a: AExpr, on: nat -> bool, on': nat -> bool)
    requires forall v: nat :: on(v) == on'(v)
    ensures TruthA(a, on) == TruthA(a, on')
    decreases a
  {
    if a.ACons? {
      SameTruthM(a.e, on, on');
      SameTruthA(a.next, on, on');
    }
  }

  lemma {:induction false} SameTruthM(m: MExpr, on: nat -> bool, on': nat -> bool)
    requires forall v: nat :: on(v) == on'(v)
    ensures TruthM(m, on) == TruthM(m, on')
    decreases m
  {
    if m.MCons? {
      if m.e.e.Paren? {
        SameTruthA(m.e.e.e, on, on');
      }
      SameTruthM(m.next, on, on');
    }
  }

  /** What the filter computes is the truth of the meant expression, if its variables are
      set for the terms without a vector that occur in the document. */
  lemma FilterMeans(expr: AExpr, newq: seq<Item>, meant: AExpr, on: nat -> bool, occ: nat -> bool)
    requires AOk(expr) && VarsA(expr, |newq|) && RefsOk(TokA(expr), newq)
    requires AOk(meant) && TokA(IdA(expr, Ids(newq))) == TokA(meant)
    requires forall k: nat :: k < |newq| && !newq[k].hasVec ==> (on(k) <==> occ(newq[k].id))
    ensures TruthA(expr, on) <==> TruthA(meant, occ)
  {
    var ids := Ids(newq);
    IdTokA(expr, ids);
    SameToks(IdA(expr, ids), meant);
    IdTruthA(expr, ids, on, occ);
  }
}
