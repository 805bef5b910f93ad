/** The segmented store of nvmt.c and nvmt.h: one flat index space over mapped fragments
    (whole files) followed by in-memory fragments of another size, written back to
    fragment files on close. */
module Nvmt {
  import opened Common

  const MAPFRGSZ: nat := 64 * 1024 * 1024
  const FULLWDFRGSZ: nat := 8 * 1024 * 1024

  lemma SmallMultiple(k: int, n: int)
    requires 0 < n && -n < k * n < n
    ensures k == 0
  {
  }

  lemma DivModOf(q: int, r: int, n: int)
    requires 0 <= r < n
    ensures (q * n + r) / n == q && (q * n + r) % n == r
  {
    var d := (q * n + r) / n;
    var m := (q * n + r) % n;
    assert q * n + r == d * n + m;
    assert (d - q) * n == r - m;
    SmallMultiple(d - q, n);
  }

  // ------------------------------------------------------------------ fragments

  /** The fragments one after the other. */
  function Concat<T>(fs: seq<seq<T>>): seq<T> {
    if |fs| == 0 then [] else Concat(fs[..|fs| - 1]) + fs[|fs| - 1]
  }

  /** Fragments of n members, full but for the last, and none empty. */
  ghost predicate Shape<T>(fs: seq<seq<T>>, n: nat) {
    forall b :: 0 <= b < |fs| ==> 0 < |fs[b]| <= n && (b < |fs| - 1 ==> |fs[b]| == n)
  }

  ghost predicate AllFull<T>(fs: seq<seq<T>>, n: nat) {
    forall b :: 0 <= b < |fs| ==> |fs[b]| == n
  }

  lemma {:induction false} ConcatFull<T>(fs: seq<seq<T>>, n: nat)
    requires AllFull(fs, n)
    ensures |Concat(fs)| == |fs| * n
  {
    if |fs| > 0 {
      ConcatFull(fs[..|fs| - 1], n);
      assert |fs| * n == (|fs| - 1) * n + n;
    }
  }

  /** Place r of fragment b is index i of the flat sequence. */
  ghost predicate Locates<T>(fs: seq<seq<T>>, i: nat, b: nat, r: nat) {
    b < |fs| && r < |fs[b]| && i == |Concat(fs[..b])| + r
  }

  lemma {:induction false} LocatesFinds<T>(fs: seq<seq<T>>, i: nat, b: nat, r: nat)
    requires Locates(fs, i, b, r)
    ensures i < |Concat(fs)| && Concat(fs)[i] == fs[b][r]
    decreases |fs|
  {
    var k := |fs| - 1;
    if b < k {
      assert fs[..k][..b] == fs[..b];
      LocatesFinds(fs[..k], i, b, r);
    }
  }

  lemma {:induction false} LocatesUpdates<T>(fs: seq<seq<T>>, i: nat, b: nat, r: nat, v: T)
    requires Locates(fs, i, b, r)
    ensures i < |Concat(fs)| && Concat(fs[b := fs[b][r := v]]) == Concat(fs)[i := v]
    decreases |fs|
  {
    LocatesFinds(fs, i, b, r);
    var k := |fs| - 1;
    var gs := fs[b := fs[b][r := v]];
    if b == k {
      assert gs[..k] == fs[..k];
    } else {
      assert fs[..k][..b] == fs[..b];
      assert gs[..k] == fs[..k][b := fs[b][r := v]];
      LocatesUpdates(fs[..k], i, b, r, v);
      LocatesFinds(fs[..k], i, b, r);
    }
  }

  lemma UpdateKeepsShape<T>(fs: seq<seq<T>>, n: nat, b: nat, r: nat, v: T)
    requires b < |fs| && r < |fs[b]|
    ensures Shape(fs, n) ==> Shape(fs[b := fs[b][r := v]], n)
    ensures AllFull(fs, n) ==> AllFull(fs[b := fs[b][r := v]], n)
  {
  }

  lemma {:induction false} LocatesSlice<T>(fs: seq<seq<T>>, i: nat, b: nat, r: nat, l: nat)
    requires Locates(fs, i, b, r) && r + l <= |fs[b]|
    ensures i + l <= |Concat(fs)| && Concat(fs)[i..i + l] == fs[b][r..r + l]
    decreases |fs|
  {
    var k := |fs| - 1;
    if b < k {
      assert fs[..k][..b] == fs[..b];
      LocatesSlice(fs[..k], i, b, r, l);
      assert Concat(fs)[i..i + l] == Concat(fs[..k])[i..i + l];
    }
  }

  /** The address macros: index i is at place i % n of fragment i / n. */
  lemma AddressLocates<T>(fs: seq<seq<T>>, n: nat, i: nat)
    requires n > 0 && i < |Concat(fs)| && (Shape(fs, n) || AllFull(fs, n))
    ensures Locates(fs, i, i / n, i % n)
  {
    hide *;
    DivMod(i, n);
    PlaceLocates(fs, n, i, i / n, i % n);
  }

  lemma DivMod(i: nat, n: nat)
    requires n > 0
    ensures i / n * n + i % n == i && i % n < n
  {
  }

  lemma PlaceLocates<T>(fs: seq<seq<T>>, n: nat, i: nat, q: nat, r: nat)
    requires n > 0 && i < |Concat(fs)| && (Shape(fs, n) || AllFull(fs, n))
    requires q * n + r == i && r < n
    ensures Locates(fs, i, q, r)
  {
    var k := |fs| - 1;
    assert AllFull(fs[..k], n) && |fs[k]| <= n;
    ConcatFull(fs[..k], n);
    InFragment(q, k, r, n);
    assert AllFull(fs[..q], n);
    ConcatFull(fs[..q], n);
  }

  lemma InFragment(q: nat, k: nat, r: nat, n: nat)
    requires q * n + r < k * n + n
    ensures q <= k
  {
    assert (k + 1) * n == k * n + n;
    if q > k {
      Multiples(q, k + 1, n);
    }
  }

  lemma Multiples(q: nat, k: nat, n: nat)
    requires k <= q
    ensures k * n <= q * n
  {
  }

  lemma {:induction false} ConcatAppend<T>(fs: seq<seq<T>>, gs: seq<seq<T>>)
    ensures Concat(fs + gs) == Concat(fs) + Concat(gs)
  {
    if |gs| == 0 {
      assert fs + gs == fs;
    } else {
      var k := |gs| - 1;
      assert (fs + gs)[..|fs| + k] == fs + gs[..k];
      ConcatAppend(fs, gs[..k]);
    }
  }

  lemma SliceStep<T>(s: seq<T>, a: nat, b: nat, c: nat)
    requires a <= b <= c <= |s|
    ensures s[a..b] + s[b..c] == s[a..c]
  {
  }

  lemma PrefixOf<T>(s: seq<T>, t: seq<T>)
    requires |s| <= |t| && t[..|s|] == s
    ensures s <= t
  {
  }

  // ------------------------------------------------------------------ fragment files

  /** The fragments hold exactly the flat sequence s. */
  ghost predicate IsChunking<T>(fs: seq<seq<T>>, s: seq<T>, n: nat) {
    Shape(fs, n) && s == Concat(fs)
  }

  /** Appending to a last fragment that still has room. */
  lemma ChunkingFill<T>(fs: seq<seq<T>>, s: seq<T>, n: nat, t: seq<T>)
    requires |fs| > 0 && IsChunking(fs, s, n)
    requires |fs[|fs| - 1]| + |t| <= n
    ensures IsChunking(fs[|fs| - 1 := fs[|fs| - 1] + t], s + t, n)
  {
    var k := |fs| - 1;
    var gs := fs[k := fs[k] + t];
    assert gs[..k] == fs[..k];
    assert Concat(gs) == Concat(fs) + t;
  }

  /** Starting a new fragment after a full one. */
  lemma ChunkingNew<T>(fs: seq<seq<T>>, s: seq<T>, n: nat, t: seq<T>)
    requires IsChunking(fs, s, n)
    requires |fs| > 0 ==> |fs[|fs| - 1]| == n
    requires 0 < |t| <= n
    ensures IsChunking(fs + [t], s + t, n)
  {
    assert (fs + [t])[..|fs|] == fs;
  }

  /** The size check nvmt_open makes on fragment file b. */
  ghost predicate SizeAccepted<T>(fs: seq<seq<T>>, b: nat)
    requires b < |fs|
  {
    && |fs[b]| != 0
    && (b != 0 && b + 1 == |fs| ==> |fs[b]| <= |fs[0]|)
    && (b != 0 && b + 1 != |fs| ==> |fs[b]| == |fs[0]|)
  }

  ghost predicate SizesAccepted<T>(fs: seq<seq<T>>) {
    forall b :: 0 <= b < |fs| ==> SizeAccepted(fs, b)
  }

  lemma AcceptedIsShape<T>(fs: seq<seq<T>>)
    requires SizesAccepted(fs)
    ensures |fs| > 0 ==> |fs[0]| > 0 && Shape(fs, |fs[0]|)
  {
    assert |fs| > 0 ==> SizeAccepted(fs, 0);
    forall b | 0 <= b < |fs|
      ensures 0 < |fs[b]| <= |fs[0]| && (b < |fs| - 1 ==> |fs[b]| == |fs[0]|)
    {
      assert SizeAccepted(fs, b);
    }
  }

  /** The files of any shape the store writes pass the checks. */
  lemma ShapeIsAccepted<T>(fs: seq<seq<T>>, n: nat)
    requires Shape(fs, n)
    ensures SizesAccepted(fs)
    ensures |fs| > 1 ==> |fs[0]| == n
  {
    forall b | 0 <= b < |fs|
      ensures SizeAccepted(fs, b)
    {
      assert |fs| > 1 ==> |fs[0]| == n;
    }
  }

  // ------------------------------------------------------------------ allocation

  /** What placing a block depends on. */
  datatype Geometry = Geometry(mapXend: nat, memNmemb: nat, alignment: nat) {
    ghost predicate Valid() {
      memNmemb > 0 && alignment > 0
    }

    /** Fragments are a multiple of the alignment long. */
    ghost predicate Even() {
      alignment > 0 && memNmemb % alignment == 0
    }
  }

  datatype Placement = ReadOnly | Refused | Block(offs: nat, end: nat)

  function AlignUp(offs: nat, alignment: nat): (r: nat)
    requires alignment > 0
    ensures offs <= r < offs + alignment && r % alignment == 0
    ensures offs % alignment == 0 ==> r == offs
  {
    if offs % alignment == 0 then offs
    else
      DivModOf(offs / alignment + 1, 0, alignment);
      assert offs + (alignment - offs % alignment) == (offs / alignment + 1) * alignment + 0;
      offs + (alignment - offs % alignment)
  }

  /** The aligned offset has too little of its fragment left. */
  predicate Advances(g: Geometry, offs: nat, size: nat)
    requires g.Valid()
  {
    var o := AlignUp(offs, g.alignment);
    g.mapXend <= o && g.memNmemb - (o - g.mapXend) % g.memNmemb < size
  }

  function Place(g: Geometry, offs: nat, size: nat): Placement
    requires g.Valid()
  {
    var o := AlignUp(offs, g.alignment);
    if size == 0 || o < g.mapXend then Refused
    else if g.memNmemb < size then Refused
    else if Advances(g, offs, size) then
      var o' := o + (g.memNmemb - (o - g.mapXend) % g.memNmemb);
      Block(o', o' + size)
    else Block(o, o + size)
  }

  /** The placing half of nvmt_alloc, on a writable store. */
  method Locate(g: Geometry, offset: nat, size: nat) returns (r: Placement)
    requires g.Valid()
    ensures r == Place(g, offset, size)
  {
    var offs := offset;
    if offs % g.alignment != 0 {
      offs := offs + (g.alignment - offs % g.alignment);
    }
    if size == 0 || offs < g.mapXend {
      return Refused;
    }
    if g.memNmemb < size {
      return Refused;
    }
    var bi := (offs - g.mapXend) % g.memNmemb;
    if g.memNmemb - bi < size {
      offs := offs + (g.memNmemb - bi);
    }
    return Block(offs, offs + size);
  }

  lemma AdvancedStart(g: Geometry, o: nat)
    requires g.Valid() && g.mapXend <= o
    ensures var o' := o + (g.memNmemb - (o - g.mapXend) % g.memNmemb);
            (o' - g.mapXend) % g.memNmemb == 0 && exists q: nat :: o' == g.mapXend + q * g.memNmemb
  {
    var q := (o - g.mapXend) / g.memNmemb + 1;
    var o' := o + (g.memNmemb - (o - g.mapXend) % g.memNmemb);
    assert o' == g.mapXend + q * g.memNmemb;
    DivModOf(q, 0, g.memNmemb);
  }

  lemma AdvancedAlignment(g: Geometry, o: nat)
    requires g.Valid() && g.Even() && g.mapXend <= o
    ensures (o + (g.memNmemb - (o - g.mapXend) % g.memNmemb)) % g.alignment == g.mapXend % g.alignment
  {
    AdvancedStart(g, o);
    var q: nat :| o + (g.memNmemb - (o - g.mapXend) % g.memNmemb) == g.mapXend + q * g.memNmemb;
    DivMod(g.memNmemb, g.alignment);
    ManyMultiples(g.mapXend, q, g.memNmemb / g.alignment, g.alignment);
  }

  lemma ManyMultiples(x: nat, q: nat, c: nat, a: nat)
    requires a > 0
    ensures (x + q * (c * a)) % a == x % a
  {
    DivMod(x, a);
    var e := x / a;
    assert q * (c * a) == (q * c) * a;
    assert (e + q * c) * a == e * a + (q * c) * a;
    DivModOf(e + q * c, x % a, a);
  }

  /** A block lies at or after the request, behind the mapped part and inside one fragment.
      If fragments are a multiple of the alignment long it is aligned exactly if no fragment
      was skipped or the mapped part ends aligned. */
  lemma PlaceSound(g: Geometry, offs: nat, size: nat)
    requires g.Valid() && Place(g, offs, size).Block?
    ensures var b := Place(g, offs, size);
            && offs <= b.offs && g.mapXend <= b.offs && b.end == b.offs + size && 0 < size
            && (b.offs - g.mapXend) / g.memNmemb == (b.end - 1 - g.mapXend) / g.memNmemb
            && (g.Even() ==>
                  (b.offs % g.alignment == 0 <==> !Advances(g, offs, size) || g.mapXend % g.alignment == 0))
  {
    var o := AlignUp(offs, g.alignment);
    var b := Place(g, offs, size);
    if Advances(g, offs, size) {
      AdvancedStart(g, o);
      if g.Even() {
        AdvancedAlignment(g, o);
      }
    }
    var x := b.offs - g.mapXend;
    assert x % g.memNmemb + size <= g.memNmemb;
    DivModOf(x / g.memNmemb, x % g.memNmemb + size - 1, g.memNmemb);
    assert b.end - 1 - g.mapXend == (x / g.memNmemb) * g.memNmemb + (x % g.memNmemb + size - 1);
  }

  /** A block starts aligned, or a number of fragments behind the mapped part. */
  lemma PlaceStart(g: Geometry, offs: nat, size: nat)
    requires g.Valid() && g.Even() && Place(g, offs, size).Block?
    ensures Place(g, offs, size).offs % g.alignment == if Advances(g, offs, size) then g.mapXend % g.alignment else 0
  {
    if Advances(g, offs, size) {
      AdvancedAlignment(g, AlignUp(offs, g.alignment));
    }
  }

  lemma PlaceBehind(g: Geometry, offs: nat, size: nat)
    requires g.Valid() && Place(g, offs, size).Block?
    ensures var b := Place(g, offs, size); offs <= b.offs < b.end == b.offs + size
  {
    hide Place, Advances;
    PlaceSound(g, offs, size);
  }

  /** There is room for size members from o on in the fragment of o. */
  ghost predicate Room(g: Geometry, o: nat, size: nat)
    requires g.Valid()
  {
    g.mapXend <= o && (o - g.mapXend) % g.memNmemb + size <= g.memNmemb
  }

  /** What a request gives, said without computing it: it is refused if nothing is asked
      for, no fragment can hold it, or an aligned offset at or after it is still in the mapped
      part. Otherwise it gets a place with room, and there is no aligned place with room
      before; it is aligned if fragments and the mapped part end aligned. */
  ghost predicate IsPlacement(g: Geometry, offs: nat, size: nat, b: Placement)
    requires g.Valid()
  {
    && !b.ReadOnly?
    && (b.Refused? <==> size == 0 || g.memNmemb < size || exists o :: offs <= o < g.mapXend && o % g.alignment == 0)
    && (b.Block? ==> b.end == b.offs + size && offs <= b.offs && Room(g, b.offs, size))
    && (b.Block? ==> forall o: nat :: offs <= o && o % g.alignment == 0 && Room(g, o, size) ==> b.offs <= o)
    && (b.Block? && g.Even() && g.mapXend % g.alignment == 0 ==> b.offs % g.alignment == 0)
  }

  lemma PlaceIs(g: Geometry, offs: nat, size: nat)
    requires g.Valid()
    ensures IsPlacement(g, offs, size, Place(g, offs, size))
  {
    hide Place, Advances, Room;
    RefusedIff(g, offs, size);
    if Place(g, offs, size).Block? {
      PlaceSound(g, offs, size);
      PlaceRoom(g, offs, size);
      forall o: nat | offs <= o && o % g.alignment == 0 && Room(g, o, size)
        ensures Place(g, offs, size).offs <= o
      {
        PlaceLeast(g, offs, size, o);
      }
    }
  }

  lemma PlaceRoom(g: Geometry, offs: nat, size: nat)
    requires g.Valid() && Place(g, offs, size).Block?
    ensures Room(g, Place(g, offs, size).offs, size)
  {
    if Advances(g, offs, size) {
      AdvancedStart(g, AlignUp(offs, g.alignment));
    }
  }

  lemma PlaceLeast(g: Geometry, offs: nat, size: nat, o: nat)
    requires g.Valid() && Place(g, offs, size).Block?
    requires offs <= o && o % g.alignment == 0 && Room(g, o, size)
    ensures Place(g, offs, size).offs <= o
  {
    AlignUpLeast(offs, g.alignment, o);
    var o0 := AlignUp(offs, g.alignment);
    if Advances(g, offs, size) && o < Place(g, offs, size).offs {
      SameFragment(o0 - g.mapXend, o - g.mapXend, g.memNmemb);
    }
  }

  lemma AlignUpLeast(offs: nat, alignment: nat, o: nat)
    requires alignment > 0 && offs <= o && o % alignment == 0
    ensures AlignUp(offs, alignment) <= o
  {
    var a := AlignUp(offs, alignment);
    DivMod(a, alignment);
    DivMod(o, alignment);
    if o < a {
      assert (a / alignment - o / alignment) * alignment == a - o;
      SmallMultiple(a / alignment - o / alignment, alignment);
    }
  }

  /** Before its fragment ends, a larger index is a larger place. */
  lemma SameFragment(x: nat, y: nat, n: nat)
    requires n > 0 && x <= y < x + (n - x % n)
    ensures y % n >= x % n
  {
    DivMod(x, n);
    DivModOf(x / n, x % n + (y - x), n);
  }

  /** A request is refused exactly if nothing is asked for, no fragment can hold it, or an
      aligned offset at or after it is still in the mapped part. */
  lemma RefusedIff(g: Geometry, offs: nat, size: nat)
    requires g.Valid()
    ensures Place(g, offs, size).Refused? <==>
            size == 0 || g.memNmemb < size || exists o :: offs <= o < g.mapXend && o % g.alignment == 0
    ensures !Place(g, offs, size).ReadOnly?
  {
    hide Advances;
    var o0 := AlignUp(offs, g.alignment);
    if o :| offs <= o < g.mapXend && o % g.alignment == 0 {
      AlignUpLeast(offs, g.alignment, o);
    }
  }

  /** Behind the mapped part only a size that no fragment can hold is refused. */
  lemma PlaceRefuses(g: Geometry, offs: nat, size: nat)
    requires g.Valid() && g.mapXend <= offs && size > 0
    ensures (Place(g, offs, size).Refused? <==> g.memNmemb < size) && !Place(g, offs, size).ReadOnly?
  {
    hide Advances;
    var _ := AlignUp(offs, g.alignment);
  }

  /** Unaligned mapped parts do break alignment: the request that skips a fragment. */
  lemma UnalignedReopenBreaksAlignment()
    ensures var g := Geometry(5, FULLWDFRGSZ, 4);
            g.Valid() && Place(g, 8 + FULLWDFRGSZ - 8, 16) == Block(FULLWDFRGSZ + 5, FULLWDFRGSZ + 21)
  {
  }

  /** The blocks of a run of requests, each starting from the end of the one before. */
  function PlaceRun(g: Geometry, offs: nat, sizes: seq<nat>): seq<Placement>
    requires g.Valid()
    decreases |sizes|
  {
    if |sizes| == 0 then []
    else
      var b := Place(g, offs, sizes[0]);
      [b] + PlaceRun(g, if b.Block? then b.end else offs, sizes[1..])
  }

  /** Blocks of a run never overlap and come in increasing order. */
  lemma {:induction false} PlaceRunDisjoint(g: Geometry, offs: nat, sizes: seq<nat>)
    requires g.Valid()
    ensures var bs := PlaceRun(g, offs, sizes);
            && |bs| == |sizes|
            && (forall i :: 0 <= i < |bs| && bs[i].Block? ==> offs <= bs[i].offs && bs[i].offs + sizes[i] == bs[i].end)
            && (forall i, j :: 0 <= i < j < |bs| && bs[i].Block? && bs[j].Block? ==> bs[i].end <= bs[j].offs)
            && (g.Even() && g.mapXend % g.alignment == 0 ==>
                  forall i :: 0 <= i < |bs| && bs[i].Block? ==> bs[i].offs % g.alignment == 0)
    decreases |sizes|
  {
    if |sizes| != 0 {
      var b := Place(g, offs, sizes[0]);
      if b.Block? {
        PlaceSound(g, offs, sizes[0]);
      }
      PlaceRunDisjoint(g, if b.Block? then b.end else offs, sizes[1..]);
    }
  }

  // ------------------------------------------------------------------ the store

  /** An open store. Freshly malloc'ed members read as the arbitrary value junk. */
  class Store<T> {
    const membsize: nat
    const alignment: nat
    const memNmemb: nat
    const rdonly: bool
    const junk: T
    var mapBases: seq<seq<T>>
    var mapNmemb: nat
    var mapRNmemb: nat
    var mapXend: nat
    var memBases: seq<seq<T>>
    var memXend: nat

    ghost predicate Valid()
      reads this
    {
      && memNmemb > 0 && alignment > 0 && mapNmemb > 0
      && Shape(mapBases, mapNmemb) && mapXend == |Concat(mapBases)|
      && (|mapBases| > 0 ==> mapRNmemb == |mapBases[|mapBases| - 1]|)
      && AllFull(memBases, memNmemb)
      && mapXend <= memXend <= mapXend + |Concat(memBases)|
      && (rdonly ==> memXend == mapXend)
    }

    /** The flat sequence the store stands for. */
    ghost function Contents(): (s: seq<T>)
      requires Valid()
      reads this
      ensures |s| == memXend
    {
      Concat(mapBases) + Concat(memBases)[..memXend - mapXend]
    }

    /** nVMTmap_bp and nVMTmap_bi. */
    method MapAddress(i: nat) returns (bp: nat, bi: nat)
      requires Valid() && i < mapXend
      ensures Locates(mapBases, i, bp, bi)
    {
      AddressLocates(mapBases, mapNmemb, i);
      return i / mapNmemb, i % mapNmemb;
    }

    /** nVMTmem_bp and nVMTmem_bi. */
    method MemAddress(i: nat) returns (bp: nat, bi: nat)
      requires Valid() && mapXend <= i < memXend
      ensures Locates(memBases, i - mapXend, bp, bi)
    {
      AddressLocates(memBases, memNmemb, i - mapXend);
      return (i - mapXend) / memNmemb, (i - mapXend) % memNmemb;
    }

    /** A read through nVMTa. */
    method Get(i: nat) returns (v: T)
      requires Valid() && i < memXend
      ensures v == Contents()[i]
    {
      if i < mapXend {
        var bp, bi := MapAddress(i);
        LocatesFinds(mapBases, i, bp, bi);
        v := mapBases[bp][bi];
      } else {
        var bp, bi := MemAddress(i);
        LocatesFinds(memBases, i - mapXend, bp, bi);
        v := memBases[bp][bi];
      }
    }

    /** A write through nVMTa. */
    method Set(i: nat, v: T)
      requires Valid() && i < memXend
      modifies this`mapBases, this`memBases
      ensures Valid() && Contents() == old(Contents())[i := v]
    {
      hide Shape, AllFull, Concat;
      if i < mapXend {
        var bp, bi := MapAddress(i);
        UpdateKeepsShape(mapBases, mapNmemb, bp, bi, v);
        LocatesUpdates(mapBases, i, bp, bi, v);
        mapBases := mapBases[bp := mapBases[bp][bi := v]];
      } else {
        var bp, bi := MemAddress(i);
        UpdateKeepsShape(memBases, memNmemb, bp, bi, v);
        LocatesUpdates(memBases, i - mapXend, bp, bi, v);
        memBases := memBases[bp := memBases[bp][bi := v]];
      }
    }

    /** Grows (or cuts) the store to o members; 0 on success, -1 when read only. */
    method Extend(o: nat) returns (r: int)
      requires Valid() && o > 0
      modifies this`memBases, this`memXend
      ensures Valid()
      ensures r == if rdonly then -1 else 0
      ensures memXend == if rdonly || o <= mapXend then old(memXend) else o
      ensures Contents()[..Min(old(memXend), memXend)] == old(Contents())[..Min(old(memXend), memXend)]
    {
      if rdonly {
        return -1;
      }
      if o - 1 < mapXend {
        return 0;
      }
      hide Shape, AllFull, Concat;
      var bpend := (o - 1 - mapXend) / memNmemb + 1;
      ghost var m := Concat(memBases);
      Grow(bpend);
      EnoughFragments(memBases, memNmemb, o - mapXend, bpend);
      KeptPrefix(Concat(mapBases), m, Concat(memBases), memXend - mapXend, o - mapXend);
      memXend := o;
      return 0;
    }

    /** The loop of nvmt_extend: fresh fragments until there are bpend of them. */
    method Grow(bpend: nat)
      requires Valid()
      modifies this`memBases
      ensures Valid() && |memBases| >= bpend
      ensures Concat(old(memBases)) <= Concat(memBases)
    {
      while |memBases| < bpend
        invariant Valid()
        invariant Concat(old(memBases)) <= Concat(memBases)
        decreases bpend - |memBases|
      {
        var frag := seq(memNmemb, _ => junk);
        ConcatAppend(memBases, [frag]);
        memBases := memBases + [frag];
      }
    }

    ghost function Geo(): Geometry
      reads this
    {
      Geometry(mapXend, memNmemb, alignment)
    }

    method Alloc(offs: nat, size: nat) returns (r: Placement)
      requires Valid()
      modifies this`memBases, this`memXend
      ensures Valid()
      ensures r == if rdonly then ReadOnly else Place(Geo(), offs, size)
      ensures !rdonly ==> IsPlacement(Geo(), offs, size, r)
      ensures memXend == if r.Block? && old(memXend) < r.end then r.end else old(memXend)
      ensures old(Contents()) <= Contents()
    {
      if rdonly {
        return ReadOnly;
      }
      r := Locate(Geometry(mapXend, memNmemb, alignment), offs, size);
      PlaceIs(Geometry(mapXend, memNmemb, alignment), offs, size);
      hide IsPlacement;
      if r.Block? && memXend < r.end {
        hide Place;
        ghost var s := Contents();
        assert mapXend <= memXend;
        var _ := Extend(r.end);
        assert s[..|s|] == s;
        PrefixOf(s, Contents());
      }
    }

    /** One fwrite of nvmt_writev: what is left of a fragment, at most up to e. */
    method WritePiece(offs: nat, e: nat) returns (piece: seq<T>)
      requires Valid() && mapXend <= offs < e <= memXend
      ensures 0 < |piece| <= e - offs && piece == Contents()[offs..offs + |piece|]
    {
      hide Shape, Concat;
      var bp, bi := MemAddress(offs);
      var l := Min(memNmemb - bi, e - offs);
      LocatesSlice(memBases, offs - mapXend, bp, bi, l);
      BehindMapped(Concat(mapBases), Concat(memBases), memXend - mapXend, offs - mapXend, l);
      piece := memBases[bp][bi..bi + l];
    }

    /** The members [offs, e) appended to the file contents f. */
    method Writev(f: seq<T>, offs: nat, e: nat) returns (g: seq<T>)
      requires Valid() && mapXend <= offs <= e <= memXend
      ensures g == f + Contents()[offs..e]
    {
      hide *;
      g := f;
      var o := offs;
      ghost var s := Contents();
      while o < e
        invariant offs <= o <= e && g == f + s[offs..o]
        decreases e - o
      {
        var piece := WritePiece(o, e);
        SliceStep(s, offs, o, o + |piece|);
        g := g + piece;
        o := o + |piece|;
      }
    }

    /** Writes everything behind the mapped part to the fragment files; gives all the files,
        the mapped ones with what was written through their mapping. */
    method Close() returns (files: seq<seq<T>>)
      requires Valid()
      ensures IsChunking(files, Contents(), mapNmemb)
    {
      files := mapBases;
      ghost var s := Contents();
      if rdonly {
        assert s == Concat(mapBases);
        return;
      }
      var bp, r;
      if |mapBases| == 0 {
        bp, r := 0, mapNmemb;
      } else {
        bp, r := |mapBases| - 1, mapNmemb - mapRNmemb;
      }
      var offs, rest := mapXend, memXend - mapXend;
      assert s[..offs] == Concat(mapBases);
      assert rest > 0 ==> NextFragment(files, bp, r, mapNmemb);
      hide Shape, Concat, AllFull, Store.Contents, Store.Valid;
      while rest > 0
        invariant 0 <= rest && offs + rest == memXend && mapXend <= offs
        invariant IsChunking(files, s[..offs], mapNmemb)
        invariant rest > 0 ==> NextFragment(files, bp, r, mapNmemb)
        decreases rest, |files| - bp
      {
        var c := Min(rest, r);
        files := WriteFragment(files, bp, offs, c);
        r := mapNmemb;
        rest, offs, bp := rest - c, offs + c, bp + 1;
      }
      assert s[..offs] == s;
    }

    /** One round of the closing loop: c members from offs on go to fragment file bp. */
    method WriteFragment(files: seq<seq<T>>, bp: nat, offs: nat, c: nat) returns (fs: seq<seq<T>>)
      requires Valid() && mapXend <= offs && offs + c <= memXend
      requires IsChunking(files, Contents()[..offs], mapNmemb)
      requires bp == |files| ==> 0 < c <= mapNmemb && (bp > 0 ==> |files[bp - 1]| == mapNmemb)
      requires bp != |files| ==> bp == |files| - 1 && |files[bp]| + c <= mapNmemb
      ensures IsChunking(fs, Contents()[..offs + c], mapNmemb)
      ensures |fs| == bp + 1 && |fs[bp]| == if bp < |files| then |files[bp]| + c else c
    {
      hide Shape, Concat, AllFull, Store.Contents;
      ghost var s := Contents();
      assert mapXend <= |s| == memXend;
      hide Store.Valid;
      var grown := Writev(if bp < |files| then files[bp] else [], offs, offs + c);
      SliceStep(s, 0, offs, offs + c);
      if bp < |files| {
        ChunkingFill(files, s[..offs], mapNmemb, s[offs..offs + c]);
        fs := files[bp := grown];
      } else {
        ChunkingNew(files, s[..offs], mapNmemb, s[offs..offs + c]);
        assert grown == s[offs..offs + c];
        fs := files + [grown];
      }
    }

    /** Maps the fragment files, whose sizes have been checked. */
    constructor (files: seq<seq<T>>, size: nat, alignshift: nat, rdonly: bool, junk: T)
      requires SizesAccepted(files) && 0 < size <= FULLWDFRGSZ
      ensures Valid() && Contents() == Concat(files)
      ensures IsChunking(files, Contents(), mapNmemb) && mapNmemb == FileSize(files, size)
      ensures this.rdonly == rdonly && membsize == size && mapXend == memXend
      ensures Geo() == Geometry(|Concat(files)|, FULLWDFRGSZ / size, Pow2(alignshift))
    {
      membsize := size;
      alignment := Pow2(alignshift);
      memNmemb := FULLWDFRGSZ / size;
      this.rdonly := rdonly;
      this.junk := junk;
      memBases, mapBases := [], files;
      var xend, nmemb, rnmemb := MapFiles(files);
      var nm := MAPFRGSZ / size;
      AcceptedIsShape(files);
      if |files| == 0 || (|files| == 1 && nmemb < nm) {
        nmemb := nm;
      }
      mapNmemb, mapRNmemb, mapXend, memXend := nmemb, rnmemb, xend, xend;
    }
  }

  /** The totals nvmt_open keeps while it walks over the files. */
  method MapFiles<T>(files: seq<seq<T>>) returns (xend: nat, nmemb: nat, rnmemb: nat)
    ensures xend == |Concat(files)|
    ensures |files| > 0 ==> nmemb == |files[0]| && rnmemb == |files[|files| - 1]|
    ensures |files| == 0 ==> nmemb == rnmemb == 0
  {
    xend, nmemb, rnmemb := 0, 0, 0;
    var bp := 0;
    while bp < |files|
      invariant 0 <= bp <= |files|
      invariant if bp > 0 then nmemb == |files[0]| && rnmemb == |files[bp - 1]| else nmemb == rnmemb == 0
      invariant xend == |Concat(files[..bp])|
    {
      if bp == 0 {
        nmemb := |files[bp]|;
      }
      rnmemb := |files[bp]|;
      xend := xend + |files[bp]|;
      assert files[..bp + 1][..bp] == files[..bp];
      bp := bp + 1;
    }
    assert files[..bp] == files;
  }

  /** nvmt_open: the size checks, then the mapping. */
  method Open<T>(files: seq<seq<T>>, size: nat, alignshift: nat, rdonly: bool, junk: T) returns (r: Store?<T>)
    requires 0 < size <= FULLWDFRGSZ
    ensures r != null <==> SizesAccepted(files)
    ensures r != null ==> fresh(r) && r.Valid() && r.Contents() == Concat(files)
    ensures r != null ==> r.rdonly == rdonly && r.membsize == size && r.mapXend == r.memXend
    ensures r != null ==> r.Geo() == Geometry(|Concat(files)|, FULLWDFRGSZ / size, Pow2(alignshift))
    ensures r != null ==> r.mapNmemb == FileSize(files, size)
  {
    var bp := 0;
    while bp < |files|
      invariant 0 <= bp <= |files|
      invariant forall b :: 0 <= b < bp ==> SizeAccepted(files, b)
    {
      if |files[bp]| == 0 {
        assert !SizeAccepted(files, bp);
        return null;
      }
      if bp == 0 {
      } else if bp + 1 == |files| {
        if |files[0]| < |files[bp]| {
          assert !SizeAccepted(files, bp);
          return null;
        }
      } else {
        if |files[0]| != |files[bp]| {
          assert !SizeAccepted(files, bp);
          return null;
        }
      }
      bp := bp + 1;
    }
    r := new Store<T>(files, size, alignshift, rdonly, junk);
  }

  /** Closing and opening again: accepted, and the same member at every index. */
  method Reopen<T>(h: Store<T>, rdonly: bool) returns (r: Store<T>)
    requires h.Valid() && 0 < h.membsize <= FULLWDFRGSZ
    ensures r.Valid() && fresh(r) && r.Contents() == old(h.Contents())
    ensures r.mapXend == r.memXend == old(h.memXend)
  {
    var files := h.Close();
    ShapeIsAccepted(files, h.mapNmemb);
    r := Open(files, h.membsize, 2, rdonly, h.junk);
  }

  function Pow2(k: nat): (r: nat)
    ensures r > 0
  {
    if k == 0 then 1 else 2 * Pow2(k - 1)
  }

  lemma {:induction false} Pow2Sum(a: nat, b: nat)
    ensures Pow2(a + b) == Pow2(a) * Pow2(b) && Pow2(0) == 1 && Pow2(1) == 2 && Pow2(2) == 4
    decreases a
  {
    if a > 0 {
      Pow2Sum(a - 1, b);
      assert Pow2(a + b) == 2 * Pow2(a - 1 + b);
      assert 2 * (Pow2(a - 1) * Pow2(b)) == (2 * Pow2(a - 1)) * Pow2(b);
    }
  }

  /** How many members a fragment file may hold: what the first of several files holds; a
      single file may grow to the full size. */
  function FileSize<T>(files: seq<seq<T>>, size: nat): nat
    requires 0 < size
  {
    if |files| > 1 || (|files| == 1 && |files[0]| > MAPFRGSZ / size) then |files[0]| else MAPFRGSZ / size
  }

  /** Opening a store for writing and asking for a block: the alignment is the power of two
      that was asked for, and fragments of members of the size given fill FULLWDFRGSZ. */
  method OpenAlloc<T>(files: seq<seq<T>>, size: nat, alignshift: nat, junk: T, offs: nat, n: nat)
    returns (r: Store?<T>, b: Placement)
    requires 0 < size <= FULLWDFRGSZ
    ensures r != null <==> SizesAccepted(files)
    ensures r != null ==> r.Valid() && Concat(files) <= r.Contents()
    ensures r != null ==>
              IsPlacement(Geometry(|Concat(files)|, FULLWDFRGSZ / size, Pow2(alignshift)), offs, n, b)
    ensures r != null && b.Block? && alignshift == 2 && size == 1 && |Concat(files)| % 4 == 0 ==> b.offs % 4 == 0
  {
    r := Open(files, size, alignshift, false, junk);
    if r == null {
      return null, Refused;
    }
    hide *;
    ghost var s := r.Contents();
    assert !r.rdonly && s == Concat(files);
    ghost var g := r.Geo();
    b := r.Alloc(offs, n);
    assert r.Geo() == g;
    if alignshift == 2 && size == 1 && |Concat(files)| % 4 == 0 {
      FourBytes(g, offs, n, b);
    }
  }

  lemma FourBytes(g: Geometry, offs: nat, n: nat, b: Placement)
    requires g.memNmemb == FULLWDFRGSZ && g.alignment == Pow2(2) && g.mapXend % 4 == 0 && IsPlacement(g, offs, n, b)
    ensures b.Block? ==> b.offs % 4 == 0
  {
    Pow2Sum(2, 0);
    assert g.memNmemb % 4 == 0;
  }

  /** In a new record store a request of three bytes at offset 5 is placed at offset 8. */
  method FirstAligned<T>(junk: T) returns (b: Placement)
    ensures b == Block(8, 11)
  {
    var r;
    r, b := OpenAlloc<T>([], 1, 2, junk, 5, 3);
    Pow2Sum(2, 0);
    assert Room(Geometry(0, FULLWDFRGSZ, 4), 8, 3);
  }

  /** A new store of n members is written to the least number of files that hold it. */
  method Create<T>(size: nat, alignshift: nat, n: nat, junk: T) returns (files: seq<seq<T>>)
    requires 0 < size <= FULLWDFRGSZ
    ensures |Concat(files)| == n && Shape(files, MAPFRGSZ / size)
    ensures n <= |files| * (MAPFRGSZ / size)
    ensures forall m: nat :: n <= m * (MAPFRGSZ / size) ==> |files| <= m
  {
    var h := Open([], size, alignshift, false, junk);
    if n > 0 {
      var _ := h.Extend(n);
    }
    files := h.Close();
    LeastFiles(files, MAPFRGSZ / size);
  }

  lemma LeastFiles<T>(fs: seq<seq<T>>, n: nat)
    requires n > 0 && Shape(fs, n)
    ensures |Concat(fs)| <= |fs| * n
    ensures forall m: nat :: |Concat(fs)| <= m * n ==> |fs| <= m
  {
    if |fs| > 0 {
      var k := |fs| - 1;
      assert AllFull(fs[..k], n);
      ConcatFull(fs[..k], n);
      assert |fs| * n == k * n + n;
      forall m: nat | |Concat(fs)| <= m * n
        ensures |fs| <= m
      {
        if m <= k {
          Multiples(k, m, n);
        }
      }
    }
  }

  /** Fragment bp is the next to write, with room for r members. */
  ghost predicate NextFragment<T>(files: seq<seq<T>>, bp: int, r: int, n: nat) {
    || (bp == |files| && r == n && (bp > 0 ==> |files[bp - 1]| == n))
    || (0 <= bp == |files| - 1 && r + |files[bp]| == n)
  }

  lemma EnoughFragments<T>(fs: seq<seq<T>>, n: nat, k: nat, bpend: nat)
    requires n > 0 && AllFull(fs, n) && 0 < k && bpend == (k - 1) / n + 1 <= |fs|
    ensures k <= |Concat(fs)|
  {
    ConcatFull(fs, n);
    DivMod(k - 1, n);
    Multiples(|fs|, bpend, n);
    assert bpend * n == (k - 1) / n * n + n;
  }

  lemma BehindMapped<T>(a: seq<T>, m: seq<T>, x: nat, i: nat, l: nat)
    requires i + l <= x <= |m|
    ensures (a + m[..x])[|a| + i..|a| + i + l] == m[i..i + l]
  {
  }

  lemma KeptPrefix<T>(a: seq<T>, m: seq<T>, m': seq<T>, x: nat, y: nat)
    requires m <= m' && x <= |m| && y <= |m'|
    ensures (a + m'[..y])[..|a| + Min(x, y)] == (a + m[..x])[..|a| + Min(x, y)]
  {
  }
}
