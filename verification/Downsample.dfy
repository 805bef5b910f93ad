/** downsample.c: n of nmemb elements are kept in place, evenly spread, by Bresenham's line
    algorithm. */
module Downsample {
  /** y is n * x / total, with halves rounded down. */
  ghost predicate HalfDown(n: nat, total: nat, x: nat, y: nat) {
    2 * (total * y) - total < 2 * (n * x) <= 2 * (total * y) + total
  }

  lemma HalfDownUnique(n: nat, total: nat, x: nat, y: nat, z: nat)
    requires HalfDown(n, total, x, y) && HalfDown(n, total, x, z)
    ensures y == z
  {
    assert total * (y + 1) == total * y + total && total * (z + 1) == total * z + total;
    if y < z {
      Times(total, y + 1, z);
    } else if z < y {
      Times(total, z + 1, y);
    }
  }

  lemma Times(total: nat, y: nat, z: nat)
    requires y <= z
    ensures total * y <= total * z
  {
  }

  /** All of the input leaves n elements. */
  lemma AtTheEnd(n: nat, total: nat, y: nat)
    requires total > 0 && HalfDown(n, total, total, y)
    ensures y == n
  {
    assert n * total == total * n;
    HalfDownUnique(n, total, total, y, n);
  }

  /** The error term. */
  ghost predicate ErrorIs(e: int, n: nat, total: nat, x: nat, y: nat) {
    e == 2 * (n * x) + 2 * n - 2 * (total * y) - total
  }

  lemma Step(e: int, n: nat, total: nat, x: nat, y: nat)
    requires ErrorIs(e, n, total, x, y)
    ensures ErrorIs(e + 2 * n - 2 * total, n, total, x + 1, y + 1) && ErrorIs(e + 2 * n, n, total, x + 1, y)
    ensures HalfDown(n, total, x, y) && n <= total ==> HalfDown(n, total, x + 1, if e > 0 then y + 1 else y)
    ensures n >= total > 0 && x == y ==> e > 0
  {
    assert n * (x + 1) == n * x + n;
    assert total * (y + 1) == total * y + total;
    if n >= total {
      Times(x, total, n);
      assert x * n == n * x && x * total == total * x;
    }
  }

  lemma Start(e: int, n: nat, total: nat)
    requires e == 2 * n - total
    ensures ErrorIs(e, n, total, 0, 0)
    ensures total > 0 ==> HalfDown(n, total, 0, 0) && Even([], n, total, 0)
  {
  }

  /** How many of the ascending positions are below x. */
  function CountBelow(kept: seq<nat>, x: nat): nat {
    if |kept| == 0 then 0 else CountBelow(kept[..|kept| - 1], x) + if kept[|kept| - 1] < x then 1 else 0
  }

  lemma CountStep(kept: seq<nat>, p: nat, x: nat)
    ensures CountBelow(kept + [p], x) == CountBelow(kept, x) + if p < x then 1 else 0
  {
    assert (kept + [p])[..|kept|] == kept;
  }

  lemma {:induction false} CountAll(kept: seq<nat>, x: nat)
    requires forall j :: 0 <= j < |kept| ==> kept[j] < x
    ensures CountBelow(kept, x) == |kept|
  {
    if |kept| > 0 {
      CountAll(kept[..|kept| - 1], x);
    }
  }

  /** The positions kept of the first x, in order. */
  ghost predicate Positions(kept: seq<nat>, x: nat) {
    && (forall j :: 0 <= j < |kept| ==> kept[j] < x)
    && (forall i, j :: 0 <= i < j < |kept| ==> kept[i] < kept[j])
  }

  /** After every x of the input the number kept is n * x / total, halves rounded down. */
  ghost predicate Even(kept: seq<nat>, n: nat, total: nat, x: nat) {
    forall w: nat :: w <= x ==> HalfDown(n, total, w, CountBelow(kept, w))
  }

  lemma EvenStep(kept: seq<nat>, kept': seq<nat>, n: nat, total: nat, x: nat)
    requires Positions(kept, x) && Even(kept, n, total, x)
    requires kept' == kept || kept' == kept + [x]
    requires HalfDown(n, total, x + 1, |kept'|)
    ensures Even(kept', n, total, x + 1)
  {
    forall w: nat | w <= x + 1
      ensures HalfDown(n, total, w, CountBelow(kept', w))
    {
      CountStep(kept, x, w);
      if w == x + 1 {
        CountAll(kept', w);
      } else {
        assert HalfDown(n, total, w, CountBelow(kept, w));
      }
    }
  }

  /** The loop after x inputs, with the positions kept. */
  ghost predicate State(e: int, n: nat, total: nat, x: nat, kept: seq<nat>) {
    && Positions(kept, x) && |kept| <= x && ErrorIs(e, n, total, x, |kept|)
    && (0 < total && n <= total ==> Even(kept, n, total, x) && HalfDown(n, total, x, |kept|))
    && (n >= total ==> |kept| == x)
  }

  lemma StateStep(e: int, n: nat, total: nat, x: nat, kept: seq<nat>)
    requires State(e, n, total, x, kept) && x < total
    ensures e > 0 ==> State(e + 2 * n - 2 * total, n, total, x + 1, kept + [x])
    ensures e <= 0 ==> State(e + 2 * n, n, total, x + 1, kept)
  {
    hide HalfDown, ErrorIs, Even;
    Step(e, n, total, x, |kept|);
    if n <= total {
      EvenStep(kept, if e > 0 then kept + [x] else kept, n, total, x);
    }
  }

  lemma StateEnd(e: int, n: nat, total: nat, kept: seq<nat>)
    requires State(e, n, total, total, kept)
    ensures Positions(kept, total) && |kept| == if n <= total then n else total
    ensures 0 < total && n <= total ==> Even(kept, n, total, total)
  {
    if 0 < total && n <= total {
      AtTheEnd(n, total, |kept|);
    }
  }

  /** downsample; base[..|kept|] is what is left. For more elements than there are nothing is
      dropped. No element is overwritten before it is read. */
  method Downsample<T>(base: array<T>, n: nat) returns (ghost kept: seq<nat>)
    modifies base
    ensures Positions(kept, base.Length) && |kept| == if n <= base.Length then n else base.Length
    ensures forall j :: 0 <= j < |kept| ==> base[j] == old(base[kept[j]])
    ensures 0 < base.Length && n <= base.Length ==> Even(kept, n, base.Length, base.Length)
    ensures forall j :: |kept| <= j < base.Length ==> base[j] == old(base[j])
  {
    var xd: int, yd: int := base.Length, n;
    var adj2 := 2 * yd;
    var e := adj2 - xd;
    var adj1 := e - xd;
    var x: nat, y: nat := 0, 0;
    kept := [];
    Start(e, n, base.Length);
    while x < base.Length
      invariant y == |kept| <= x <= base.Length && State(e, n, base.Length, x, kept)
      invariant forall j :: 0 <= j < y ==> kept[j] < base.Length && base[j] == old(base[kept[j]])
      invariant forall j :: y <= j < base.Length ==> base[j] == old(base[j])
    {
      hide State;
      StateStep(e, n, base.Length, x, kept);
      if e > 0 {
        base[y] := base[x];
        kept := kept + [x];
        y := y + 1;
        e := e + adj1;
      } else {
        e := e + adj2;
      }
      x := x + 1;
    }
    StateEnd(e, n, base.Length, kept);
  }
}
