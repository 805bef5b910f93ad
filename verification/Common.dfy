/** What several modules share. */
module Common {

  datatype Option<+T> = None | Some(value: T)

  /** struct xr_elem: an id with a frequency. Those of a query may be negative. */
  datatype XrElem<+F> = Elem(id: nat, freq: F)

  /** The counts of hash and id tables are 32 bits wide. */
  const U32: nat := 0x1_0000_0000

  function Min(a: nat, b: nat): nat {
    if a < b then a else b
  }

  /** NA: n rounded up to a multiple of x. */
  function RoundUp(n: nat, x: nat): (r: nat)
    requires x > 0
    ensures n <= r && r < n + x
  {
    if n % x == 0 then n else n + (x - n % x)
  }

  lemma {:induction false} SmallSet(s: set<nat>, n: nat)
    requires forall k :: k in s ==> k < n
    ensures |s| <= n
    decreases n
  {
    if n == 0 {
      assert s == {};
    } else {
      SmallSet(s - {n - 1}, n - 1);
    }
  }

  /** Of more values than there is room for two are the same. */
  lemma Pigeonhole(f: nat -> nat, n: nat) returns (i: nat, j: nat)
    requires forall k :: 0 <= k <= n ==> f(k) < n
    ensures i < j <= n && f(i) == f(j)
  {
    var s: set<nat> := {};
    j := 0;
    while j <= n && f(j) !in s
      invariant j <= n + 1 && |s| == j
      invariant forall v :: v in s ==> v < n && exists k :: 0 <= k < j && f(k) == v
    {
      s := s + {f(j)};
      j := j + 1;
    }
    SmallSet(s, n);
    i :| 0 <= i < j && f(i) == f(j);
  }
}
