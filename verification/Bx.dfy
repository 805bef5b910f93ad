/** The boolean filter of bx.c: a recursive descent parser over a token array and the
    evaluator of the lists it builds. */
module Bx {
  import opened Common

  /** struct bxe. A variable is named by the index of the cell its token points to. */
  datatype Tok = Start | LPar | RPar | And | Or | Not | Var(v: nat) | T | F | End

  // The lists bx.c links with next pointers; ANil and MNil are the NULL at their ends.
  datatype AExpr = ANil | ACons(e: MExpr, next: AExpr)
  datatype MExpr = MNil | MCons(e: NExpr, next: MExpr)
  datatype NExpr = NExpr(e: FExpr, not: bool)
  datatype FExpr = Paren(e: AExpr) | VarRef(v: nat) | True | False

  // ------------------------------------------------------------------ the grammar

  /** Lists are not empty, at any depth. */
  predicate AOk(a: AExpr) {
    a.ACons? && MOk(a.e) && (a.next.ANil? || AOk(a.next))
  }

  predicate MOk(m: MExpr) {
    m.MCons? && FOk(m.e.e) && (m.next.MNil? || MOk(m.next))
  }

  predicate FOk(f: FExpr) {
    f.Paren? ==> AOk(f.e)
  }

  /** The token string of an expression: any number of operands of '|' and of '&'. */
  function TokA(a: AExpr): seq<Tok> {
    match a
    case ANil => []
    case ACons(m, next) => TokM(m) + if next.ANil? then [] else [Or] + TokA(next)
  }

  function TokM(m: MExpr): seq<Tok> {
    match m
    case MNil => []
    case MCons(n, next) => TokN(n) + if next.MNil? then [] else [And] + TokM(next)
  }

  function TokN(n: NExpr): seq<Tok> {
    (if n.not then [Not] else []) + TokF(n.e)
  }

  function TokF(f: FExpr): seq<Tok> {
    match f
    case Paren(a) => [LPar] + TokA(a) + [RPar]
    case VarRef(v) => [Var(v)]
    case True => [T]
    case False => [F]
  }

  // ------------------------------------------------------------------ the parser as a function

  /** Behind a parse there is still a token, since the array ends with END. */
  ghost predicate Ended(attr: seq<Tok>) {
    |attr| > 0 && attr[|attr| - 1] == End
  }

  function ParseA(attr: seq<Tok>, i: nat): (r: Option<(AExpr, nat)>)
    requires Ended(attr) && i < |attr|
    ensures r.Some? ==> i < r.value.1 < |attr|
    decreases |attr| - i, 3
  {
    match ParseM(attr, i)
    case None => None
    case Some((m, j)) =>
      if attr[j] != Or then Some((ACons(m, ANil), j))
      else
        assert j < |attr| - 1;
        match ParseA(attr, j + 1)
        case None => None
        case Some((a, k)) => Some((ACons(m, a), k))
  }

  function ParseM(attr: seq<Tok>, i: nat): (r: Option<(MExpr, nat)>)
    requires Ended(attr) && i < |attr|
    ensures r.Some? ==> i < r.value.1 < |attr|
    decreases |attr| - i, 2
  {
    match ParseN(attr, i)
    case None => None
    case Some((n, j)) =>
      if attr[j] != And then Some((MCons(n, MNil), j))
      else
        assert j < |attr| - 1;
        match ParseM(attr, j + 1)
        case None => None
        case Some((m, k)) => Some((MCons(n, m), k))
  }

  function ParseN(attr: seq<Tok>, i: nat): (r: Option<(NExpr, nat)>)
    requires Ended(attr) && i < |attr|
    ensures r.Some? ==> i < r.value.1 < |attr|
    decreases |attr| - i, 1
  {
    var not := attr[i] == Not;
    match ParseF(attr, if not then i + 1 else i)
    case None => None
    case Some((f, j)) => Some((NExpr(f, not), j))
  }

  function ParseF(attr: seq<Tok>, i: nat): (r: Option<(FExpr, nat)>)
    requires Ended(attr) && i < |attr|
    ensures r.Some? ==> i < r.value.1 < |attr|
    decreases |attr| - i, 0
  {
    match attr[i]
    case Var(v) => Some((VarRef(v), i + 1))
    case T => Some((True, i + 1))
    case F => Some((False, i + 1))
    case LPar => (
      match ParseA(attr, i + 1)
      case None => None
      case Some((a, j)) => if attr[j] != RPar then None else Some((Paren(a), j + 1)))
    case _ => None
  }

  // ------------------------------------------------------------------ the parser as in bx.c

  /** The list of ms in front of a. */
  function PrependA(ms: seq<MExpr>, a: AExpr): AExpr {
    if |ms| == 0 then a else ACons(ms[0], PrependA(ms[1..], a))
  }

  function PrependM(ns: seq<NExpr>, m: MExpr): MExpr {
    if |ns| == 0 then m else MCons(ns[0], PrependM(ns[1..], m))
  }

  lemma {:induction false} PrependALast(ms: seq<MExpr>, m: MExpr, a: AExpr)
    ensures PrependA(ms, ACons(m, a)) == PrependA(ms + [m], a)
    decreases |ms|
  {
    if |ms| > 0 {
      PrependALast(ms[1..], m, a);
      assert (ms + [m])[1..] == ms[1..] + [m];
    }
  }

  lemma {:induction false} PrependMLast(ns: seq<NExpr>, n: NExpr, m: MExpr)
    ensures PrependM(ns, MCons(n, m)) == PrependM(ns + [n], m)
    decreases |ns|
  {
    if |ns| > 0 {
      PrependMLast(ns[1..], n, m);
      assert (ns + [n])[1..] == ns[1..] + [n];
    }
  }

  /** What conv_a still has to find after the nodes ms, standing at token j. */
  function RestA(attr: seq<Tok>, ms: seq<MExpr>, j: nat): Option<(AExpr, nat)>
    requires Ended(attr) && j < |attr|
  {
    if attr[j] != Or then Some((PrependA(ms, ANil), j))
    else
      match ParseA(attr, j + 1)
      case None => None
      case Some((a, k)) => Some((PrependA(ms, a), k))
  }

  function RestM(attr: seq<Tok>, ns: seq<NExpr>, j: nat): Option<(MExpr, nat)>
    requires Ended(attr) && j < |attr|
  {
    if attr[j] != And then Some((PrependM(ns, MNil), j))
    else
      match ParseM(attr, j + 1)
      case None => None
      case Some((m, k)) => Some((PrependM(ns, m), k))
  }

  method ConvA(attr: seq<Tok>, i: nat) returns (r: Option<(AExpr, nat)>)
    requires Ended(attr) && i < |attr|
    ensures r == ParseA(attr, i)
    decreases |attr| - i, 3
  {
    var first := ConvM(attr, i);
    if first.None? {
      return None;
    }
    var ms, j := [first.value.0], first.value.1;
    forall a
      ensures PrependA(ms, a) == ACons(first.value.0, a)
    {
      PrependALast([], first.value.0, a);
      assert [] + ms == ms;
    }
    while attr[j] == Or
      invariant i < j < |attr|
      invariant ParseA(attr, i) == RestA(attr, ms, j)
      decreases |attr| - j
    {
      var n := ConvM(attr, j + 1);
      if n.None? {
        return None;
      }
      forall a
        ensures PrependA(ms, ACons(n.value.0, a)) == PrependA(ms + [n.value.0], a)
      {
        PrependALast(ms, n.value.0, a);
      }
      ms, j := ms + [n.value.0], n.value.1;
    }
    return Some((PrependA(ms, ANil), j));
  }

  method ConvM(attr: seq<Tok>, i: nat) returns (r: Option<(MExpr, nat)>)
    requires Ended(attr) && i < |attr|
    ensures r == ParseM(attr, i)
    decreases |attr| - i, 2
  {
    var first := ConvN(attr, i);
    if first.None? {
      return None;
    }
    var ns, j := [first.value.0], first.value.1;
    forall m
      ensures PrependM(ns, m) == MCons(first.value.0, m)
    {
      PrependMLast([], first.value.0, m);
      assert [] + ns == ns;
    }
    while attr[j] == And
      invariant i < j < |attr|
      invariant ParseM(attr, i) == RestM(attr, ns, j)
      decreases |attr| - j
    {
      var n := ConvN(attr, j + 1);
      if n.None? {
        return None;
      }
      forall m
        ensures PrependM(ns, MCons(n.value.0, m)) == PrependM(ns + [n.value.0], m)
      {
        PrependMLast(ns, n.value.0, m);
      }
      ns, j := ns + [n.value.0], n.value.1;
    }
    return Some((PrependM(ns, MNil), j));
  }

  method ConvN(attr: seq<Tok>, i: nat) returns (r: Option<(NExpr, nat)>)
    requires Ended(attr) && i < |attr|
    ensures r == ParseN(attr, i)
    decreases |attr| - i, 1
  {
    var j, not := i, false;
    if attr[i] == Not {
      j, not := i + 1, true;
    }
    var f := ConvF(attr, j);
    if f.None? {
      return None;
    }
    return Some((NExpr(f.value.0, not), f.value.1));
  }

  method ConvF(attr: seq<Tok>, i: nat) returns (r: Option<(FExpr, nat)>)
    requires Ended(attr) && i < |attr|
    ensures r == ParseF(attr, i)
    decreases |attr| - i, 0
  {
    match attr[i] {
      case Var(v) => return Some((VarRef(v), i + 1));
      case T => return Some((True, i + 1));
      case F => return Some((False, i + 1));
      case LPar =>
        var a := ConvA(attr, i + 1);
        if a.None? || attr[a.value.1] != RPar {
          return None;
        }
        return Some((Paren(a.value.0), a.value.1 + 1));
      case _ => return None;
    }
  }

  // ------------------------------------------------------------------ the parser is right

  /** The tokens from i up to j are exactly s. */
  ghost predicate Spans(attr: seq<Tok>, i: nat, j: nat, s: seq<Tok>) {
    i <= j <= |attr| && attr[i..j] == s
  }

  lemma SpansJoin(attr: seq<Tok>, i: nat, j: nat, k: nat, s: seq<Tok>, t: seq<Tok>)
    requires Spans(attr, i, j, s) && Spans(attr, j, k, t)
    ensures Spans(attr, i, k, s + t)
  {
    assert attr[i..k] == attr[i..j] + attr[j..k];
  }

  lemma SpansSplit(attr: seq<Tok>, i: nat, k: nat, s: seq<Tok>, t: seq<Tok>)
    requires Spans(attr, i, k, s + t)
    ensures Spans(attr, i, i + |s|, s) && Spans(attr, i + |s|, k, t)
  {
    assert attr[i..k][..|s|] == s && attr[i..k][|s|..] == t;
    assert attr[i..i + |s|] == attr[i..k][..|s|];
    assert attr[i + |s|..k] == attr[i..k][|s|..];
  }

  lemma SpansOne(attr: seq<Tok>, i: nat, t: Tok)
    requires i < |attr|
    ensures Spans(attr, i, i + 1, [t]) <==> attr[i] == t
  {
    assert attr[i..i + 1] == [attr[i]];
  }

  /** One level of the definitions. */
  lemma ParseAStep(attr: seq<Tok>, i: nat)
    requires Ended(attr) && i < |attr|
    ensures ParseM(attr, i).None? ==> ParseA(attr, i).None?
    ensures ParseM(attr, i).Some? ==>
              var (m, j) := ParseM(attr, i).value;
              && i < j < |attr|
              && if attr[j] != Or then ParseA(attr, i) == Some((ACons(m, ANil), j))
                 else
                   && j + 1 < |attr|
                   && ParseA(attr, i) ==
                      match ParseA(attr, j + 1)
                      case None => None
                      case Some((a, k)) => Some((ACons(m, a), k))
  {
  }

  lemma ParseMStep(attr: seq<Tok>, i: nat)
    requires Ended(attr) && i < |attr|
    ensures ParseN(attr, i).None? ==> ParseM(attr, i).None?
    ensures ParseN(attr, i).Some? ==>
              var (n, j) := ParseN(attr, i).value;
              && i < j < |attr|
              && if attr[j] != And then ParseM(attr, i) == Some((MCons(n, MNil), j))
                 else
                   && j + 1 < |attr|
                   && ParseM(attr, i) ==
                      match ParseM(attr, j + 1)
                      case None => None
                      case Some((m, k)) => Some((MCons(n, m), k))
  {
  }

  lemma TokAStep(a: AExpr)
    requires a.ACons?
    ensures TokA(a) == if a.next.ANil? then TokM(a.e) else TokM(a.e) + ([Or] + TokA(a.next))
  {
  }

  lemma TokMStep(m: MExpr)
    requires m.MCons?
    ensures TokM(m) == if m.next.MNil? then TokN(m.e) else TokN(m.e) + ([And] + TokM(m.next))
  {
  }

  /** What is parsed is grammatical and spells the tokens it was parsed from. */
  lemma {:induction false} ParseASound(attr: seq<Tok>, i: nat)
    requires Ended(attr) && i < |attr| && ParseA(attr, i).Some?
    ensures var (a, j) := ParseA(attr, i).value; AOk(a) && Spans(attr, i, j, TokA(a))
    decreases |attr| - i, 3
  {
    hide ParseA, ParseM, TokA, TokM, Spans, MOk;
    ParseAStep(attr, i);
    ParseMSound(attr, i);
    var (m, j) := ParseM(attr, i).value;
    TokAStep(ParseA(attr, i).value.0);
    if attr[j] == Or {
      ParseASound(attr, j + 1);
      var (a, k) := ParseA(attr, j + 1).value;
      SpansOne(attr, j, Or);
      SpansJoin(attr, j, j + 1, k, [Or], TokA(a));
      SpansJoin(attr, i, j, k, TokM(m), [Or] + TokA(a));
    }
  }

  lemma {:induction false} ParseMSound(attr: seq<Tok>, i: nat)
    requires Ended(attr) && i < |attr| && ParseM(attr, i).Some?
    ensures var (m, j) := ParseM(attr, i).value; MOk(m) && Spans(attr, i, j, TokM(m))
    decreases |attr| - i, 2
  {
    hide ParseM, ParseN, TokM, TokN, Spans, FOk;
    ParseMStep(attr, i);
    ParseNSound(attr, i);
    var (n, j) := ParseN(attr, i).value;
    TokMStep(ParseM(attr, i).value.0);
    if attr[j] == And {
      ParseMSound(attr, j + 1);
      var (m, k) := ParseM(attr, j + 1).value;
      SpansOne(attr, j, And);
      SpansJoin(attr, j, j + 1, k, [And], TokM(m));
      SpansJoin(attr, i, j, k, TokN(n), [And] + TokM(m));
    }
  }

  lemma {:induction false} ParseNSound(attr: seq<Tok>, i: nat)
    requires Ended(attr) && i < |attr| && ParseN(attr, i).Some?
    ensures var (n, j) := ParseN(attr, i).value; FOk(n.e) && Spans(attr, i, j, TokN(n))
    decreases |attr| - i, 1
  {
    var (n, j) := ParseN(attr, i).value;
    if attr[i] == Not {
      ParseFSound(attr, i + 1);
      SpansOne(attr, i, Not);
      SpansJoin(attr, i, i + 1, j, [Not], TokF(n.e));
    } else {
      ParseFSound(attr, i);
      assert TokN(n) == TokF(n.e);
    }
  }

  lemma {:induction false} ParseFSound(attr: seq<Tok>, i: nat)
    requires Ended(attr) && i < |attr| && ParseF(attr, i).Some?
    ensures var (f, j) := ParseF(attr, i).value; FOk(f) && Spans(attr, i, j, TokF(f))
    decreases |attr| - i, 0
  {
    SpansOne(attr, i, attr[i]);
    if attr[i] == LPar {
      ParseASound(attr, i + 1);
      var (a, j) := ParseA(attr, i + 1).value;
      SpansOne(attr, j, RPar);
      SpansJoin(attr, i, i + 1, j, [LPar], TokA(a));
      SpansJoin(attr, i, j, j + 1, [LPar] + TokA(a), [RPar]);
    }
  }

  /** A grammatical expression that no operator continues is parsed back as it is. */
  lemma {:induction false} ParseAComplete(attr: seq<Tok>, i: nat, a: AExpr)
    requires Ended(attr) && AOk(a) && i + |TokA(a)| < |attr| && Spans(attr, i, i + |TokA(a)|, TokA(a))
    requires attr[i + |TokA(a)|] != Or && attr[i + |TokA(a)|] != And
    ensures ParseA(attr, i) == Some((a, i + |TokA(a)|))
    decreases a
  {
    hide Spans, MOk, ParseA, ParseM, TokA, TokM;
    var k := i + |TokA(a)|;
    TokAStep(a);
    ParseAStep(attr, i);
    if a.next.ANil? {
      ParseMComplete(attr, i, a.e);
    } else {
      SpansSplit(attr, i, k, TokM(a.e), [Or] + TokA(a.next));
      var j := i + |TokM(a.e)|;
      SpansSplit(attr, j, k, [Or], TokA(a.next));
      SpansOne(attr, j, Or);
      ParseMComplete(attr, i, a.e);
      ParseAComplete(attr, j + 1, a.next);
    }
  }

  lemma {:induction false} ParseMComplete(attr: seq<Tok>, i: nat, m: MExpr)
    requires Ended(attr) && MOk(m) && i + |TokM(m)| < |attr| && Spans(attr, i, i + |TokM(m)|, TokM(m))
    requires attr[i + |TokM(m)|] != And
    ensures ParseM(attr, i) == Some((m, i + |TokM(m)|))
    decreases m
  {
    hide Spans, FOk, ParseM, ParseN, TokM, TokN;
    var k := i + |TokM(m)|;
    TokMStep(m);
    ParseMStep(attr, i);
    if m.next.MNil? {
      ParseNComplete(attr, i, m.e);
    } else {
      SpansSplit(attr, i, k, TokN(m.e), [And] + TokM(m.next));
      var j := i + |TokN(m.e)|;
      SpansSplit(attr, j, k, [And], TokM(m.next));
      SpansOne(attr, j, And);
      ParseNComplete(attr, i, m.e);
      ParseMComplete(attr, j + 1, m.next);
    }
  }

  lemma {:induction false} ParseNComplete(attr: seq<Tok>, i: nat, n: NExpr)
    requires Ended(attr) && FOk(n.e) && i + |TokN(n)| < |attr| && Spans(attr, i, i + |TokN(n)|, TokN(n))
    ensures ParseN(attr, i) == Some((n, i + |TokN(n)|))
    decreases n
  {
    hide Spans, FOk, ParseF, TokF;
    if n.not {
      SpansSplit(attr, i, i + |TokN(n)|, [Not], TokF(n.e));
      SpansOne(attr, i, Not);
      ParseFComplete(attr, i + 1, n.e);
    } else {
      assert TokN(n) == TokF(n.e);
      ParseFComplete(attr, i, n.e);
    }
  }

  lemma {:induction false} ParseFComplete(attr: seq<Tok>, i: nat, f: FExpr)
    requires Ended(attr) && FOk(f) && i + |TokF(f)| < |attr| && Spans(attr, i, i + |TokF(f)|, TokF(f))
    ensures ParseF(attr, i) == Some((f, i + |TokF(f)|)) && attr[i] != Not
    decreases f
  {
    if f.Paren? {
      var k := i + |TokF(f)|;
      SpansSplit(attr, i, k, [LPar] + TokA(f.e), [RPar]);
      SpansSplit(attr, i, k - 1, [LPar], TokA(f.e));
      SpansOne(attr, i, LPar);
      SpansOne(attr, k - 1, RPar);
      ParseAComplete(attr, i + 1, f.e);
    } else {
      SpansOne(attr, i, TokF(f)[0]);
    }
  }

  /** The grammar is unambiguous. */
  lemma SameToks(a: AExpr, b: AExpr)
    requires AOk(a) && AOk(b) && TokA(a) == TokA(b)
    ensures a == b
  {
    var attrs := [Start] + TokA(a) + [End];
    assert attrs[1..1 + |TokA(a)|] == TokA(a);
    ParseAComplete(attrs, 1, a);
    ParseAComplete(attrs, 1, b);
  }

  /** bx_compile. */
  method Compile(attrs: seq<Tok>) returns (r: Option<AExpr>)
    requires |attrs| > 0
    ensures forall a :: r == Some(a) <==> AOk(a) && attrs == [Start] + TokA(a) + [End]
  {
    if attrs[0] != Start || attrs[|attrs| - 1] != End {
      return None;
    }
    var e := ConvA(attrs, 1);
    forall a: AExpr
      ensures e == Some((a, |attrs| - 1)) <==> AOk(a) && attrs == [Start] + TokA(a) + [End]
    {
      CompileExact(attrs, a);
    }
    if e.None? || e.value.1 != |attrs| - 1 {
      return None;
    }
    return Some(e.value.0);
  }

  lemma CompileExact(attrs: seq<Tok>, a: AExpr)
    requires |attrs| > 1 && attrs[0] == Start && attrs[|attrs| - 1] == End
    ensures ParseA(attrs, 1) == Some((a, |attrs| - 1)) <==> AOk(a) && attrs == [Start] + TokA(a) + [End]
  {
    hide ParseA, TokA, AOk;
    if ParseA(attrs, 1) == Some((a, |attrs| - 1)) {
      ParseASound(attrs, 1);
    } else if AOk(a) && attrs == [Start] + TokA(a) + [End] {
      assert attrs[1..1 + |TokA(a)|] == TokA(a);
      ParseAComplete(attrs, 1, a);
    }
  }

  // ------------------------------------------------------------------ evaluation

  /** The truth value of an expression when the variables in on are true. */
  predicate TruthA(a: AExpr, on: nat -> bool) {
    a.ACons? && (TruthM(a.e, on) || TruthA(a.next, on))
  }

  predicate TruthM(m: MExpr, on: nat -> bool) {
    m.MCons? ==> TruthF(m.e.e, on) != m.e.not && TruthM(m.next, on)
  }

  predicate TruthF(f: FExpr, on: nat -> bool) {
    match f
    case Paren(a) => TruthA(a, on)
    case VarRef(v) => on(v)
    case True => true
    case False => false
  }

  /** Every variable has a cell. */
  predicate VarsA(a: AExpr, n: nat) {
    a.ACons? ==> VarsM(a.e, n) && VarsA(a.next, n)
  }

  predicate VarsM(m: MExpr, n: nat) {
    m.MCons? ==> VarsF(m.e.e, n) && VarsM(m.next, n)
  }

  predicate VarsF(f: FExpr, n: nat) {
    match f
    case Paren(a) => VarsA(a, n)
    case VarRef(v) => v < n
    case _ => true
  }

  /** The variable cells, which bxu_eval sets to 0 or 1. */
  predicate Flags(vars: seq<int>) {
    forall v :: 0 <= v < |vars| ==> vars[v] == 0 || vars[v] == 1
  }

  function OnIn(vars: seq<int>): nat -> bool {
    (v: nat) => v < |vars| && vars[v] == 1
  }

  /** eval_a, which bx_exec starts: 1 or 0. */
  method EvalA(expr: AExpr, vars: seq<int>) returns (r: int)
    requires VarsA(expr, |vars|) && Flags(vars)
    ensures r == if TruthA(expr, OnIn(vars)) then 1 else 0
    decreases expr, 1
  {
    var a := expr;
    while a.ACons?
      invariant VarsA(a, |vars|) && (a == expr || a < expr)
      invariant TruthA(expr, OnIn(vars)) <==> TruthA(a, OnIn(vars))
      decreases a
    {
      var m, failed := a.e, false;
      while m.MCons? && !failed
        invariant VarsM(m, |vars|) && (m == a.e || m < a.e)
        invariant !failed ==> (TruthM(a.e, OnIn(vars)) <==> TruthM(m, OnIn(vars)))
        invariant failed ==> !TruthM(a.e, OnIn(vars))
        decreases !failed, m
      {
        var v;
        match m.e.e {
          case Paren(e) => v := EvalA(e, vars);
          case VarRef(k) => v := vars[k];
          case True => v := 1;
          case False => v := 0;
        }
        if v == if m.e.not then 1 else 0 {
          failed := true;
        } else {
          m := m.next;
        }
      }
      if !failed {
        return 1;
      }
      a := a.next;
    }
    return 0;
  }

  lemma {:induction false} VarsOfToksA(a: AExpr, n: nat)
    requires forall i :: 0 <= i < |TokA(a)| && TokA(a)[i].Var? ==> TokA(a)[i].v < n
    ensures VarsA(a, n)
    decreases a
  {
    if a.ACons? {
      assert TokM(a.e) == TokA(a)[..|TokM(a.e)|];
      VarsOfToksM(a.e, n);
      if a.next.ACons? {
        assert TokA(a.next) == TokA(a)[|TokM(a.e)| + 1..];
        VarsOfToksA(a.next, n);
      }
    }
  }

  lemma {:induction false} VarsOfToksM(m: MExpr, n: nat)
    requires forall i :: 0 <= i < |TokM(m)| && TokM(m)[i].Var? ==> TokM(m)[i].v < n
    ensures VarsM(m, n)
    decreases m
  {
    if m.MCons? {
      assert TokN(m.e) == TokM(m)[..|TokN(m.e)|];
      assert TokF(m.e.e) == TokN(m.e)[if m.e.not then 1 else 0..];
      VarsOfToksF(m.e.e, n);
      if m.next.MCons? {
        assert TokM(m.next) == TokM(m)[|TokN(m.e)| + 1..];
        VarsOfToksM(m.next, n);
      }
    }
  }

  lemma {:induction false} VarsOfToksF(f: FExpr, n: nat)
    requires forall i :: 0 <= i < |TokF(f)| && TokF(f)[i].Var? ==> TokF(f)[i].v < n
    ensures VarsF(f, n)
    decreases f
  {
    match f {
      case Paren(a) =>
        assert TokA(a) == TokF(f)[1..1 + |TokA(a)|];
        VarsOfToksA(a, n);
      case VarRef(v) =>
        assert TokF(f)[0] == Var(v);
      case _ =>
    }
  }

  // ------------------------------------------------------------------ what expressions mean

  // The strings of the three levels of the grammar.
  ghost predicate IsExpr(ts: seq<Tok>) {
    exists a :: AOk(a) && TokA(a) == ts
  }

  ghost predicate IsConj(ts: seq<Tok>) {
    exists m :: MOk(m) && TokM(m) == ts
  }

  ghost predicate IsFactor(ts: seq<Tok>) {
    exists f :: FOk(f) && TokF(f) == ts
  }

  /** The string is an expression and true. */
  ghost predicate Holds(ts: seq<Tok>, on: nat -> bool) {
    exists a :: AOk(a) && TokA(a) == ts && TruthA(a, on)
  }

  lemma HoldsIs(a: AExpr, on: nat -> bool)
    requires AOk(a)
    ensures IsExpr(TokA(a)) && (Holds(TokA(a), on) <==> TruthA(a, on))
  {
    hide TruthA, TokA, AOk;
    if b :| AOk(b) && TokA(b) == TokA(a) && TruthA(b, on) {
      SameToks(a, b);
    }
  }

  lemma ConjIs(m: MExpr, on: nat -> bool)
    requires MOk(m)
    ensures IsConj(TokM(m)) && IsExpr(TokM(m)) && (Holds(TokM(m), on) <==> TruthM(m, on))
  {
    HoldsIs(ACons(m, ANil), on);
    assert TokA(ACons(m, ANil)) == TokM(m);
  }

  lemma NegIs(f: FExpr, not: bool, on: nat -> bool)
    requires FOk(f)
    ensures var ts := (if not then [Not] else []) + TokF(f); IsConj(ts) && (Holds(ts, on) <==> TruthF(f, on) != not)
  {
    var m := MCons(NExpr(f, not), MNil);
    ConjIs(m, on);
    assert TokM(m) == TokN(NExpr(f, not)) + [];
  }

  /** A factor is a conjunction, and a conjunction an expression. */
  lemma Levels(ts: seq<Tok>)
    ensures (IsFactor(ts) ==> IsConj(ts)) && (IsConj(ts) ==> IsExpr(ts))
  {
    if f :| FOk(f) && TokF(f) == ts {
      NegIs(f, false, (v: nat) => false);
      assert [] + TokF(f) == ts;
    }
    if m :| MOk(m) && TokM(m) == ts {
      ConjIs(m, (v: nat) => false);
    }
  }

  function AppendA(a: AExpr, b: AExpr): AExpr {
    if a.ANil? then b else ACons(a.e, AppendA(a.next, b))
  }

  function AppendM(m: MExpr, n: MExpr): MExpr {
    if m.MNil? then n else MCons(m.e, AppendM(m.next, n))
  }

  lemma {:induction false} AppendAIs(a: AExpr, b: AExpr, on: nat -> bool)
    requires AOk(a) && AOk(b)
    ensures AOk(AppendA(a, b)) && TokA(AppendA(a, b)) == TokA(a) + [Or] + TokA(b)
    ensures TruthA(AppendA(a, b), on) <==> TruthA(a, on) || TruthA(b, on)
    decreases a
  {
    hide TokM, TruthM, MOk;
    if a.next.ANil? {
      assert AppendA(a, b) == ACons(a.e, b);
    } else {
      AppendAIs(a.next, b, on);
      assert AppendA(a, b) == ACons(a.e, AppendA(a.next, b));
      Reassoc(TokM(a.e) + [Or], TokA(a.next), [Or], TokA(b));
    }
  }

  lemma {:induction false} AppendMIs(m: MExpr, n: MExpr, on: nat -> bool)
    requires MOk(m) && MOk(n)
    ensures MOk(AppendM(m, n)) && TokM(AppendM(m, n)) == TokM(m) + [And] + TokM(n)
    ensures TruthM(AppendM(m, n), on) <==> TruthM(m, on) && TruthM(n, on)
    decreases m
  {
    hide TokN, TruthF, FOk;
    if m.next.MNil? {
      assert AppendM(m, n) == MCons(m.e, n);
    } else {
      AppendMIs(m.next, n, on);
      assert AppendM(m, n) == MCons(m.e, AppendM(m.next, n));
      Reassoc(TokN(m.e) + [And], TokM(m.next), [And], TokM(n));
    }
  }

  lemma Reassoc(r: seq<Tok>, s: seq<Tok>, x: seq<Tok>, t: seq<Tok>)
    ensures r + (s + x + t) == (r + s) + x + t
  {
  }

  /** s | t, for any two expressions. */
  lemma OrLaw(s: seq<Tok>, t: seq<Tok>, on: nat -> bool)
    requires IsExpr(s) && IsExpr(t)
    ensures IsExpr(s + [Or] + t) && (Holds(s + [Or] + t, on) <==> Holds(s, on) || Holds(t, on))
  {
    hide TokA, TruthA, AOk, Holds;
    var a :| AOk(a) && TokA(a) == s;
    var b :| AOk(b) && TokA(b) == t;
    AppendAIs(a, b, on);
    HoldsIs(a, on);
    HoldsIs(b, on);
    HoldsIs(AppendA(a, b), on);
  }

  /** s & t, for any two expressions without an '|' outside parentheses. */
  lemma AndLaw(s: seq<Tok>, t: seq<Tok>, on: nat -> bool)
    requires IsConj(s) && IsConj(t)
    ensures IsConj(s + [And] + t) && (Holds(s + [And] + t, on) <==> Holds(s, on) && Holds(t, on))
  {
    hide TokM, TruthM, MOk, Holds;
    var m :| MOk(m) && TokM(m) == s;
    var n :| MOk(n) && TokM(n) == t;
    AppendMIs(m, n, on);
    ConjIs(m, on);
    ConjIs(n, on);
    ConjIs(AppendM(m, n), on);
  }

  /** ! f, for a variable, a constant or anything in parentheses. */
  lemma NotLaw(ts: seq<Tok>, on: nat -> bool)
    requires IsFactor(ts)
    ensures IsConj([Not] + ts) && (Holds([Not] + ts, on) <==> !Holds(ts, on))
  {
    hide TokF, TruthF, FOk, Holds;
    var f :| FOk(f) && TokF(f) == ts;
    NegIs(f, true, on);
    NegIs(f, false, on);
    assert [] + ts == ts;
  }

  /** ( s ) */
  lemma ParenLaw(s: seq<Tok>, on: nat -> bool)
    requires IsExpr(s)
    ensures IsFactor([LPar] + s + [RPar]) && (Holds([LPar] + s + [RPar], on) <==> Holds(s, on))
  {
    var a :| AOk(a) && TokA(a) == s;
    assert TokF(Paren(a)) == [LPar] + s + [RPar] && FOk(Paren(a));
    hide TokA, TruthA, AOk, Holds, TokF;
    NegIs(Paren(a), false, on);
    assert [] + TokF(Paren(a)) == TokF(Paren(a));
    HoldsIs(a, on);
  }

  /** A variable has the value of its cell, T is true and F is false. */
  lemma AtomLaws(v: nat, on: nat -> bool)
    ensures IsFactor([Var(v)]) && (Holds([Var(v)], on) <==> on(v))
    ensures IsFactor([T]) && Holds([T], on)
    ensures IsFactor([F]) && !Holds([F], on)
  {
    AtomLaw(VarRef(v), Var(v), on);
    AtomLaw(True, T, on);
    AtomLaw(False, F, on);
  }

  lemma AtomLaw(f: FExpr, t: Tok, on: nat -> bool)
    requires TokF(f) == [t] && !f.Paren?
    ensures IsFactor([t]) && (Holds([t], on) <==> TruthF(f, on))
  {
    NegIs(f, false, on);
    assert [] + TokF(f) == [t];
    assert FOk(f);
  }

  /** The three levels of the grammar, and nothing else. */
  lemma Forms(ts: seq<Tok>)
    ensures IsExpr(ts) <==> IsConj(ts) || exists s, t :: IsConj(s) && IsExpr(t) && ts == s + [Or] + t
    ensures IsConj(ts) <==> IsNeg(ts) || exists s, t :: IsNeg(s) && IsConj(t) && ts == s + [And] + t
    ensures IsFactor(ts) <==> (|ts| == 1 && (ts[0].Var? || ts[0] == T || ts[0] == F)) ||
                              exists s :: IsExpr(s) && ts == [LPar] + s + [RPar]
  {
    ExprForms(ts);
    ConjForms(ts);
    FactorForms(ts);
  }

  /** A factor, or one behind a '!'. */
  ghost predicate IsNeg(ts: seq<Tok>) {
    IsFactor(ts) || (|ts| > 0 && ts[0] == Not && IsFactor(ts[1..]))
  }

  lemma ExprForms(ts: seq<Tok>)
    ensures IsExpr(ts) <==> IsConj(ts) || exists s, t :: IsConj(s) && IsExpr(t) && ts == s + [Or] + t
  {
    hide TokM, MOk, IsConj, IsExpr;
    var none := (v: nat) => false;
    Levels(ts);
    if s, t :| IsConj(s) && IsExpr(t) && ts == s + [Or] + t {
      Levels(s);
      OrLaw(s, t, none);
    }
    ExprParts(ts);
  }

  lemma ExprParts(ts: seq<Tok>)
    ensures IsExpr(ts) ==> IsConj(ts) || exists s, t :: IsConj(s) && IsExpr(t) && ts == s + [Or] + t
  {
    if a :| AOk(a) && TokA(a) == ts {
      assert IsConj(TokM(a.e));
      if a.next.ANil? {
        assert ts == TokM(a.e);
      } else {
        assert IsExpr(TokA(a.next)) && ts == TokM(a.e) + [Or] + TokA(a.next);
      }
    }
  }

  lemma NegForms(ts: seq<Tok>)
    ensures IsNeg(ts) <==> exists n: NExpr :: FOk(n.e) && TokN(n) == ts
  {
    if f :| FOk(f) && TokF(f) == ts {
      assert TokN(NExpr(f, false)) == ts;
    }
    if |ts| > 0 && ts[0] == Not && IsFactor(ts[1..]) {
      var f :| FOk(f) && TokF(f) == ts[1..];
      assert TokN(NExpr(f, true)) == ts;
    }
    if n: NExpr :| FOk(n.e) && TokN(n) == ts {
      assert n.not ==> ts[1..] == TokF(n.e);
    }
  }

  lemma ConjForms(ts: seq<Tok>)
    ensures IsConj(ts) <==> IsNeg(ts) || exists s, t :: IsNeg(s) && IsConj(t) && ts == s + [And] + t
  {
    hide IsConj, IsNeg;
    NegIsConj(ts);
    if s, t :| IsNeg(s) && IsConj(t) && ts == s + [And] + t {
      NegAndConj(s, t);
    }
    ConjParts(ts);
  }

  lemma NegIsConj(ts: seq<Tok>)
    ensures IsNeg(ts) ==> IsConj(ts)
  {
    hide TokN, FOk, IsNeg;
    NegForms(ts);
    if n: NExpr :| FOk(n.e) && TokN(n) == ts {
      TokMStep(MCons(n, MNil));
      assert MOk(MCons(n, MNil));
    }
  }

  lemma NegAndConj(s: seq<Tok>, t: seq<Tok>)
    requires IsNeg(s) && IsConj(t)
    ensures IsConj(s + [And] + t)
  {
    hide TokN, TokM, FOk, IsNeg;
    NegForms(s);
    var n: NExpr :| FOk(n.e) && TokN(n) == s;
    var m :| MOk(m) && TokM(m) == t;
    TokMStep(MCons(n, m));
    assert MOk(MCons(n, m)) && s + ([And] + t) == s + [And] + t;
  }

  lemma ConjParts(ts: seq<Tok>)
    ensures IsConj(ts) ==> IsNeg(ts) || exists s, t :: IsNeg(s) && IsConj(t) && ts == s + [And] + t
  {
    hide TokN, TokM, FOk, IsNeg;
    if m :| MOk(m) && TokM(m) == ts {
      NegForms(TokN(m.e));
      TokMStep(m);
      if m.next.MCons? {
        assert IsConj(TokM(m.next)) && ts == TokN(m.e) + [And] + TokM(m.next);
      }
    }
  }

  lemma FactorForms(ts: seq<Tok>)
    ensures IsFactor(ts) <==> (|ts| == 1 && (ts[0].Var? || ts[0] == T || ts[0] == F)) ||
                              exists s :: IsExpr(s) && ts == [LPar] + s + [RPar]
  {
    if f :| FOk(f) && TokF(f) == ts {
      if f.Paren? {
        assert IsExpr(TokA(f.e));
      }
    }
    if s :| IsExpr(s) && ts == [LPar] + s + [RPar] {
      ParenLaw(s, (v: nat) => false);
    }
    if |ts| == 1 && (ts[0].Var? || ts[0] == T || ts[0] == F) {
      AtomLaws(if ts[0].Var? then ts[0].v else 0, (v: nat) => false);
      assert ts == [ts[0]];
    }
  }

  /** ( s ) & ( t ), ( s ) | ( t ) and ! ( s ), for any expressions. */
  lemma ParenLaws(s: seq<Tok>, t: seq<Tok>, on: nat -> bool)
    requires IsExpr(s) && IsExpr(t)
    ensures var ps, pt := [LPar] + s + [RPar], [LPar] + t + [RPar];
            && IsExpr(ps) && (Holds(ps, on) <==> Holds(s, on))
            && IsExpr(ps + [And] + pt) && (Holds(ps + [And] + pt, on) <==> Holds(s, on) && Holds(t, on))
            && IsExpr(ps + [Or] + pt) && (Holds(ps + [Or] + pt, on) <==> Holds(s, on) || Holds(t, on))
            && IsExpr([Not] + ps) && (Holds([Not] + ps, on) <==> !Holds(s, on))
  {
    hide IsExpr, IsConj, IsFactor, Holds;
    var ps, pt := [LPar] + s + [RPar], [LPar] + t + [RPar];
    ParenLaw(s, on);
    ParenLaw(t, on);
    Levels(ps);
    Levels(pt);
    AndLaw(ps, pt, on);
    Levels(ps + [And] + pt);
    OrLaw(ps, pt, on);
    NotLaw(ps, on);
    Levels([Not] + ps);
  }

  /** bx_compile and bx_exec: the value of the string between the end marks, if it is an
      expression. */
  method Exec(ts: seq<Tok>, vars: seq<int>) returns (r: Option<int>)
    requires Flags(vars) && forall i :: 0 <= i < |ts| && ts[i].Var? ==> ts[i].v < |vars|
    ensures r.Some? <==> IsExpr(ts)
    ensures r.Some? ==> r.value == if Holds(ts, OnIn(vars)) then 1 else 0
  {
    hide AOk, TokA, TruthA, Holds;
    var attrs := [Start] + ts + [End];
    var b := Compile(attrs);
    forall a: AExpr | AOk(a) && TokA(a) == ts
      ensures b == Some(a)
    {
      assert attrs == [Start] + TokA(a) + [End];
    }
    if b.None? {
      return None;
    }
    assert ts == TokA(b.value) by {
      assert ts == attrs[1..|attrs| - 1];
      assert attrs == [Start] + TokA(b.value) + [End];
      assert TokA(b.value) == attrs[1..|attrs| - 1];
    }
    VarsOfToksA(b.value, |vars|);
    HoldsIs(b.value, OnIn(vars));
    var v := EvalA(b.value, vars);
    return Some(v);
  }
}
