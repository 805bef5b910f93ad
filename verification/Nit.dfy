/** The dense id table of nht.c (nit_*): a store of record offsets indexed by id, 0 for none. */
module Nit {
  import opened Common
  import Nvmt

  const IT_GROWSZ: nat := 1024

  /** The size field of a struct ite, in front of the data. */
  const ITE_HEADER: nat := 8

  type Payload = seq<bv8>

  /** nit_delete returns a number, or its assertion on the count fails. */
  datatype Outcome = Returns(r: int) | Aborts

  /** A count in 32 bits. */
  function Wrap(n: int): (r: nat)
    ensures r < U32
  {
    n % U32
  }

  lemma WrapAdds(m: int, d: int)
    ensures Wrap(Wrap(m) + d) == Wrap(m + d)
  {
    Nvmt.DivModOf((Wrap(m) + d) / U32 + m / U32, Wrap(Wrap(m) + d), U32);
  }

  lemma OneLess(n: nat)
    requires n < U32
    ensures Wrap(Wrap(n - 1) + 1) == n && Wrap(n) == n
  {
  }

  lemma WrapSmall(n: int)
    requires 0 <= n < U32
    ensures Wrap(n) == n
  {
  }

  /** Different ids have different records. */
  ghost predicate CellsOk(cells: seq<nat>, recs: map<nat, Payload>) {
    && (forall i :: 0 <= i < |cells| && cells[i] != 0 ==> cells[i] in recs)
    && (forall i, j :: 0 <= i < j < |cells| && cells[i] != 0 ==> cells[i] != cells[j])
  }

  /** The records lie behind one another: the header and data of one end before the next
      starts. */
  ghost predicate Laid(recs: map<nat, Payload>, end: nat) {
    && (forall o :: o in recs ==> o + ITE_HEADER + |recs[o]| <= end)
    && (forall o, q :: o in recs && q in recs && o < q ==> o + ITE_HEADER + |recs[o]| <= q)
  }

  lemma LaidBehind(recs: map<nat, Payload>, end: nat, o: nat, p: Payload, end': nat)
    requires Laid(recs, end) && end <= o && end' == o + ITE_HEADER + |p|
    ensures Laid(recs[o := p], end')
  {
  }

  lemma LaidOver(recs: map<nat, Payload>, end: nat, o: nat, p: Payload)
    requires Laid(recs, end) && o in recs && |p| == |recs[o]|
    ensures Laid(recs[o := p], end)
  {
  }

  /** The map a table stands for. */
  ghost function MapOf(cells: seq<nat>, recs: map<nat, Payload>): (m: map<nat, Payload>)
    requires CellsOk(cells, recs)
    ensures forall i: nat :: i in m <==> i < |cells| && cells[i] != 0
    ensures forall i: nat :: i in m ==> m[i] == recs[cells[i]]
  {
    map i: nat | 0 <= i < |cells| && cells[i] != 0 :: recs[cells[i]]
  }

  /** The payload of an entry is overwritten in place. */
  lemma MapOverwritten(cells: seq<nat>, recs: map<nat, Payload>, i: nat, p: Payload)
    requires CellsOk(cells, recs) && i < |cells| && cells[i] != 0
    ensures CellsOk(cells, recs[cells[i] := p])
    ensures MapOf(cells, recs[cells[i] := p]) == MapOf(cells, recs)[i := p]
  {
  }

  lemma CellsEntered(cells: seq<nat>, recs: map<nat, Payload>, i: nat, off: nat, p: Payload)
    requires CellsOk(cells, recs) && i < |cells| && off != 0 && off !in recs
    ensures CellsOk(cells[i := off], recs[off := p])
  {
    assert forall k :: 0 <= k < |cells| && cells[k] != 0 ==> cells[k] != off;
  }

  /** A cell gets a new record. */
  lemma MapEntered(cells: seq<nat>, recs: map<nat, Payload>, i: nat, off: nat, p: Payload)
    requires CellsOk(cells, recs) && i < |cells| && off != 0 && off !in recs
    ensures CellsOk(cells[i := off], recs[off := p])
    ensures MapOf(cells[i := off], recs[off := p]) == MapOf(cells, recs)[i := p]
  {
    CellsEntered(cells, recs, i, off, p);
    hide CellsOk, MapOf;
    var m, m' := MapOf(cells, recs), MapOf(cells[i := off], recs[off := p]);
    forall k: nat
      ensures k in m' <==> k in m[i := p]
      ensures k in m' ==> m'[k] == m[i := p][k]
    {
      if k < |cells| {
        CellOf(cells, recs, k);
      }
    }
    assert m' == m[i := p];
  }

  lemma MapDeleted(cells: seq<nat>, recs: map<nat, Payload>, i: nat)
    requires CellsOk(cells, recs) && i < |cells|
    ensures CellsOk(cells[i := 0], recs) && MapOf(cells[i := 0], recs) == MapOf(cells, recs) - {i}
  {
  }

  /** Empty cells behind the others change nothing. */
  lemma MapGrown(cells: seq<nat>, cells': seq<nat>, recs: map<nat, Payload>)
    requires CellsOk(cells, recs) && |cells| <= |cells'|
    requires forall i :: 0 <= i < |cells'| ==> cells'[i] == if i < |cells| then cells[i] else 0
    ensures CellsOk(cells', recs) && MapOf(cells', recs) == MapOf(cells, recs)
  {
  }

  class Nit {
    const ix: Nvmt.Store<nat>
    const rdonly: bool
    /** How the record store places blocks. */
    const geo: Nvmt.Geometry
    var size: nat
    var nentries: nat
    var seqPtr: nat
    var recs: map<nat, Payload>
    var fwOffs: nat
    /** How many replacements failed. */
    ghost var failed: nat

    ghost predicate Valid()
      reads this`size, this`nentries, this`seqPtr, this`recs, this`fwOffs, ix
    {
      && ix.Valid() && size < U32 && nentries < U32 && size == ix.memXend && ix.rdonly == rdonly
      && geo.Valid() && seqPtr <= size && geo.mapXend <= fwOffs && 0 < fwOffs
      && (forall o :: o in recs ==> o < fwOffs) && Laid(recs, fwOffs)
      && CellsOk(ix.Contents(), recs)
    }

    ghost function View(): map<nat, Payload>
      requires Valid()
      reads this`size, this`nentries, this`seqPtr, this`recs, this`fwOffs, ix
    {
      MapOf(ix.Contents(), recs)
    }

    /** The count is short by the replacements that failed. */
    ghost predicate Counted()
      requires Valid()
      reads this, ix
    {
      nentries == Wrap(|View()| - failed)
    }

    /** The record is not too long for a fragment of the store. */
    predicate Fits(p: Payload) {
      ITE_HEADER + |p| <= geo.memNmemb
    }

    /** A new table: an empty index, and the number of entries in the record store. */
    constructor (store: Nvmt.Store<nat>, g: Nvmt.Geometry)
      requires store.Valid() && store.memXend == 0 && g.Valid() && g.mapXend == 0
      ensures Valid() && View() == map[] && nentries == 0 && Counted() && failed == 0
      ensures ix == store && geo == g && rdonly == store.rdonly && seqPtr == 0 && fwOffs == 8
    {
      ix, geo, rdonly := store, g, store.rdonly;
      size, nentries, seqPtr, failed := 0, 0, 0, 0;
      recs := map[];
      fwOffs := 8;
    }

    /** it_extend: the index grows past i, and the new cells are emptied. */
    method Extend(i: nat)
      requires Valid() && !rdonly && size <= i && i + IT_GROWSZ < U32
      modifies this`size, ix`memBases, ix`memXend, ix`mapBases
      ensures Valid() && View() == old(View()) && size == i + IT_GROWSZ
    {
      ghost var cells := ix.Contents();
      var osize, newsize := size, i + IT_GROWSZ;
      var _ := ix.Extend(newsize);
      assert ix.Contents()[..osize] == cells[..osize] == cells;
      for j := osize to newsize
        invariant ix.Valid() && ix.memXend == newsize
        invariant forall k :: 0 <= k < osize ==> ix.Contents()[k] == cells[k]
        invariant forall k :: osize <= k < j ==> ix.Contents()[k] == 0
      {
        ix.Set(j, 0);
      }
      MapGrown(cells, ix.Contents(), recs);
      size := newsize;
    }

    /** nit_enter. Replacing an entry by one of another size that does not fit leaves the
        entry but not the count. The index must not grow past 32 bits. */
    method Enter(i: nat, p: Payload) returns (ok: bool)
      requires Valid() && Counted() && (!rdonly && size <= i ==> i + IT_GROWSZ < U32)
      modifies this`size, this`nentries, this`failed, this`recs, this`fwOffs, ix`memBases, ix`memXend, ix`mapBases
      ensures Valid() && Counted()
      ensures ok <==> !rdonly && Replaces(old(View()), i, p)
      ensures View() == if ok then old(View())[i := p] else old(View())
      ensures failed == old(failed) + if !rdonly && i in old(View()) && !Replaces(old(View()), i, p) then 1 else 0
      ensures nentries == Wrap(old(nentries) + Gain(rdonly, old(View()), i, p, ok))
      ensures old(nentries == |View()|) ==>
                (nentries == |View()| <==> rdonly || i !in old(View()) || Replaces(old(View()), i, p))
    {
      hide MapOf, CellsOk, Laid, Wrap, Nvmt.Geometry.Valid, Nvmt.Store.Valid, Nvmt.Store.Contents;
      if rdonly {
        WrapSmall(nentries);
        return false;
      }
      if size <= i {
        Extend(i);
      }
      ok := EnterCounted(i, p);
    }

    /** Entering within the index, with the failures counted. */
    method EnterCounted(i: nat, p: Payload) returns (ok: bool)
      requires Valid() && Counted() && !rdonly && i < size
      modifies this`nentries, this`failed, this`recs, this`fwOffs, ix`memBases, ix`mapBases
      ensures Valid() && Counted() && ok == Replaces(old(View()), i, p)
      ensures View() == if ok then old(View())[i := p] else old(View())
      ensures nentries == Wrap(old(nentries) + Gain(false, old(View()), i, p, ok))
      ensures failed == old(failed) + if i in old(View()) && !ok then 1 else 0
      ensures old(nentries == |View()|) ==> (nentries == |View()| <==> i !in old(View()) || ok)
    {
      hide MapOf, CellsOk, Laid, Wrap, Gain, Nvmt.Geometry.Valid, Nvmt.Store.Valid, Nvmt.Store.Contents;
      Small();
      ghost var m := View();
      ghost var d := failed;
      ok := EnterAt(i, p);
      if !ok && i in m {
        failed := failed + 1;
      }
      CountAfter(m, d, i, p, ok);
      Small();
      CountStaysRight(m, i, p, ok);
    }

    /** A table has no more entries than cells. */
    lemma Small()
      requires Valid()
      ensures |View()| < U32
    {
      SmallView(ix.Contents(), recs);
    }

    /** The entry goes in: it fits, or it overwrites one of its size. */
    ghost predicate Replaces(m: map<nat, Payload>, i: nat, p: Payload) {
      Fits(p) || (i in m && |m[i]| == |p|)
    }

    /** Entering within the index. */
    method EnterAt(i: nat, p: Payload) returns (ok: bool)
      requires Valid() && !rdonly && i < size
      modifies this`nentries, this`recs, this`fwOffs, ix`memBases, ix`mapBases
      ensures Valid() && ok == Replaces(old(View()), i, p)
      ensures View() == if ok then old(View())[i := p] else old(View())
      ensures nentries == Wrap(old(nentries) + Gain(false, old(View()), i, p, ok))
    {
      hide CellsOk, MapOf, Laid, Wrap, Nvmt.Geometry.Valid, Nvmt.Store.Valid, Nvmt.Store.Contents;
      var e := Fetch(i);
      OneLess(nentries);
      if e != 0 && |recs[e]| == |p| {
        Overwrite(i, e, p);
        return true;
      }
      if e != 0 {
        nentries := Wrap(nentries - 1);
      }
      ok := EnterNew(i, p);
    }

    /** The update in place. */
    method Overwrite(i: nat, e: nat, p: Payload)
      requires Valid() && i < size && e != 0 && e == ix.Contents()[i] && e in recs && |recs[e]| == |p|
      modifies this`recs
      ensures Valid() && View() == old(View())[i := p]
    {
      hide MapOf, Laid, Nvmt.Geometry.Valid, Nvmt.Store.Valid, Nvmt.Store.Contents;
      LaidOver(recs, fwOffs, e, p);
      MapOverwritten(ix.Contents(), recs, i, p);
      recs := recs[e := p];
    }

    /** The new-entry branch. */
    method EnterNew(i: nat, p: Payload) returns (ok: bool)
      requires Valid() && !rdonly && i < size
      modifies this`nentries, this`recs, this`fwOffs, ix`memBases, ix`mapBases
      ensures Valid() && ok == Fits(p) && (ok <==> ITE_HEADER + |p| <= geo.memNmemb)
      ensures View() == if ok then old(View())[i := p] else old(View())
      ensures nentries == if ok then Wrap(old(nentries) + 1) else old(nentries)
    {
      hide Nvmt.Place, CellsOk, MapOf, Laid, Nvmt.Geometry.Valid, Nvmt.Store.Valid, Nvmt.Store.Contents;
      Nvmt.PlaceRefuses(geo, fwOffs, ITE_HEADER + |p|);
      var b := Nvmt.Place(geo, fwOffs, ITE_HEADER + |p|);
      if b.Refused? {
        return false;
      }
      Nvmt.PlaceBehind(geo, fwOffs, ITE_HEADER + |p|);
      MapEntered(ix.Contents(), recs, i, b.offs, p);
      LaidBehind(recs, fwOffs, b.offs, p, b.end);
      fwOffs := b.end;
      nentries := Wrap(nentries + 1);
      ix.Set(i, b.offs);
      recs := recs[b.offs := p];
      ok := true;
    }

    /** nit_retrieve. */
    method Retrieve(i: nat) returns (r: Option<Payload>)
      requires Valid()
      ensures r == if i in View() then Some(View()[i]) else None
    {
      if size <= i {
        return None;
      }
      var e := ix.Get(i);
      if e == 0 {
        return None;
      }
      r := Some(recs[e]);
    }

    /** nit_delete. Its assertion fails exactly if as many replacements failed as there are
        entries. */
    method Delete(i: nat) returns (out: Outcome)
      requires Valid() && Counted()
      modifies this`nentries, ix`memBases, ix`mapBases
      ensures Valid() && Counted()
      ensures out.Aborts? <==> !rdonly && i in old(View()) && old(nentries) == 0
      ensures out.Aborts? <==> !rdonly && i in old(View()) && Wrap(|old(View())| - failed) == 0
      ensures out.Returns? ==> out.r == if rdonly || i !in old(View()) then -1 else 0
      ensures View() == if out == Returns(0) then old(View()) - {i} else old(View())
      ensures nentries == if out == Returns(0) then old(nentries) - 1 else old(nentries)
    {
      hide MapOf, CellsOk, Laid, Wrap, Nvmt.Geometry.Valid, Nvmt.Store.Valid, Nvmt.Store.Contents;
      if rdonly {
        return Returns(-1);
      }
      if size <= i {
        CellsOnly(ix.Contents(), recs);
        return Returns(-1);
      }
      var e := Fetch(i);
      if e == 0 {
        return Returns(-1);
      }
      if nentries == 0 {
        return Aborts;
      }
      ghost var m := View();
      Clear(i);
      WithoutOne(m, i, failed);
      return Returns(0);
    }

    /** The cell of an id within the index. */
    method Fetch(i: nat) returns (e: nat)
      requires Valid() && i < size
      ensures e == ix.Contents()[i] && (e != 0 <==> i in View())
      ensures e != 0 ==> e in recs && View()[i] == recs[e]
    {
      e := ix.Get(i);
      CellOf(ix.Contents(), recs, i);
    }

    /** The cell of an entry is emptied. */
    method Clear(i: nat)
      requires Valid() && !rdonly && i < size && nentries > 0
      modifies this`nentries, ix`memBases, ix`mapBases
      ensures Valid() && View() == old(View()) - {i} && nentries == old(nentries) - 1
    {
      nentries := nentries - 1;
      MapDeleted(ix.Contents(), recs, i);
      ix.Set(i, 0);
    }

    /** nit_rewind. */
    method Rewind()
      requires Valid()
      modifies this`seqPtr
      ensures Valid() && seqPtr == 0
    {
      seqPtr := 0;
    }

    /** The loop of nit_seq: the first cell from seqPtr that is not empty. */
    method NextCell() returns (i: nat, e: nat)
      requires Valid()
      ensures seqPtr <= i <= size && (i < size ==> i in View() && e in recs && View()[i] == recs[e])
      ensures forall k: nat :: k in View() ==> k < seqPtr || i <= k < size
    {
      ghost var m := View();
      i, e := seqPtr, 0;
      hide MapOf, CellsOk;
      while i < size
        invariant seqPtr <= i <= size && forall k: nat :: k in m ==> k < seqPtr || i <= k
      {
        e := ix.Get(i);
        CellOf(ix.Contents(), recs, i);
        if e != 0 {
          break;
        }
        i := i + 1;
      }
      CellsOnly(ix.Contents(), recs);
    }

    /** nit_seq: the next entry. */
    method Seq() returns (r: Option<(nat, Payload)>)
      requires Valid()
      modifies this`seqPtr
      ensures Valid() && View() == old(View()) && IsNext(View(), old(seqPtr), r, seqPtr)
    {
      hide MapOf, CellsOk, Laid, IsNext, Nvmt.Geometry.Valid, Nvmt.Store.Valid, Nvmt.Store.Contents;
      ghost var m, lo := View(), seqPtr;
      var i, e := NextCell();
      if i < size {
        NextSome(m, lo, i);
        seqPtr := i + 1;
        return Some((i, recs[e]));
      }
      NextNone(m, lo, i);
      seqPtr := i;
      return None;
    }
  }

  lemma NextSome(m: map<nat, Payload>, lo: nat, i: nat)
    requires i in m && lo <= i && forall k: nat :: k in m ==> k < lo || i <= k
    ensures IsNext(m, lo, Some((i, m[i])), i + 1)
  {
  }

  lemma NextNone(m: map<nat, Payload>, lo: nat, to: nat)
    requires lo <= to && forall k: nat :: k in m ==> k < lo
    ensures IsNext(m, lo, None, to)
  {
  }

  lemma CellOf(cells: seq<nat>, recs: map<nat, Payload>, i: nat)
    requires CellsOk(cells, recs) && i < |cells|
    ensures i in MapOf(cells, recs) <==> cells[i] != 0
    ensures cells[i] != 0 ==> cells[i] in recs && MapOf(cells, recs)[i] == recs[cells[i]]
  {
  }

  lemma CellsOnly(cells: seq<nat>, recs: map<nat, Payload>)
    requires CellsOk(cells, recs)
    ensures forall k: nat :: k in MapOf(cells, recs) ==> k < |cells|
  {
  }

  /** The entry with the least id from lo on, or none if there is none; to is where the next
      search starts. */
  ghost predicate IsNext(m: map<nat, Payload>, lo: nat, r: Option<(nat, Payload)>, to: nat) {
    match r
    case None => lo <= to && forall k: nat :: k in m ==> k < lo
    case Some((key, p)) =>
      key in m && p == m[key] && lo <= key && to == key + 1 && forall k: nat :: k in m ==> k < lo || key <= k
  }

  /** What entering adds to the count. */
  function Gain(rdonly: bool, m: map<nat, Payload>, i: nat, p: Payload, ok: bool): int {
    if rdonly then 0
    else if ok then if i in m then 0 else 1
    else if i in m then -1 else 0
  }

  /** The count stays short by the failed replacements. */
  lemma CountAfter(m: map<nat, Payload>, failed: nat, i: nat, p: Payload, ok: bool)
    ensures var m' := if ok then m[i := p] else m;
            var failed' := failed + if !ok && i in m then 1 else 0;
            Wrap(Wrap(|m| - failed) + Gain(false, m, i, p, ok)) == Wrap(|m'| - failed')
  {
    WrapAdds(|m| - failed, Gain(false, m, i, p, ok));
    if ok && i in m {
      assert m[i := p].Keys == m.Keys;
    } else if ok {
      assert m[i := p].Keys == m.Keys + {i};
    }
  }

  /** The count stays right exactly if no replacement failed. */
  lemma CountStaysRight(m: map<nat, Payload>, i: nat, p: Payload, ok: bool)
    requires |m| < U32 && |if ok then m[i := p] else m| < U32
    ensures Wrap(|m| + Gain(false, m, i, p, ok)) == |if ok then m[i := p] else m| <==> ok || i !in m
  {
    if ok && i in m {
      assert m[i := p].Keys == m.Keys;
    } else if ok {
      assert m[i := p].Keys == m.Keys + {i};
    }
  }

  lemma WithoutOne(m: map<nat, Payload>, i: nat, failed: nat)
    requires i in m && Wrap(|m| - failed) > 0
    ensures Wrap(|m - {i}| - failed) == Wrap(|m| - failed) - 1
  {
    hide Wrap;
    OneFewer(m, i);
    WrapAdds(|m| - failed, -1);
    WrapSmall(Wrap(|m| - failed) - 1);
  }

  lemma OneFewer(m: map<nat, Payload>, i: nat)
    requires i in m
    ensures |m - {i}| == |m| - 1
  {
    assert (m - {i}).Keys == m.Keys - {i};
  }

  /** A table has no more entries than cells. */
  lemma SmallView(cells: seq<nat>, recs: map<nat, Payload>)
    requires CellsOk(cells, recs)
    ensures |MapOf(cells, recs)| <= |cells|
  {
    var m := MapOf(cells, recs);
    CellsOnly(cells, recs);
    SmallSet(m.Keys, |cells|);
  }

  /** An entry that fits, then one for the same id that does not: the entry is still there
      but not counted, and deleting it fails the assertion. */
  method LostCount(t: Nit, p: Payload, q: Payload) returns (entered: bool, replaced: bool, out: Outcome)
    requires t.Valid() && t.Counted() && t.View() == map[] && t.nentries == 0 && !t.rdonly
    requires t.size == 0 && t.Fits(p) && !t.Fits(q)
    modifies t, t.ix
    ensures t.Valid() && t.View() == map[7 := p] && t.nentries == 0
    ensures entered && !replaced && out == Aborts
  {
    hide Nit.Valid, Nit.View, Nit.Counted, MapOf, CellsOk;
    entered := t.Enter(7, p);
    replaced := t.Enter(7, q);
    out := t.Delete(7);
  }

  ghost predicate Listed(out: seq<(nat, Payload)>, i: nat) {
    exists k :: 0 <= k < |out| && out[k].0 == i
  }

  /** The entries of m below lo, by id. */
  ghost predicate ListsBelow(out: seq<(nat, Payload)>, m: map<nat, Payload>, lo: nat) {
    && (forall k :: 0 <= k < |out| ==> out[k].0 in m && out[k].0 < lo && out[k].1 == m[out[k].0])
    && (forall j, k :: 0 <= j < k < |out| ==> out[j].0 < out[k].0)
    && (forall i: nat :: i in m && i < lo ==> Listed(out, i))
  }

  lemma ListsStep(out: seq<(nat, Payload)>, m: map<nat, Payload>, lo: nat, key: nat)
    requires key in m
    requires ListsBelow(out, m, lo) && IsNext(m, lo, Some((key, m[key])), key + 1)
    ensures ListsBelow(out + [(key, m[key])], m, key + 1)
  {
    var out' := out + [(key, m[key])];
    forall i: nat | i in m && i < key + 1
      ensures Listed(out', i)
    {
      if i < lo {
        assert Listed(out, i);
        var k :| 0 <= k < |out| && out[k].0 == i;
        assert out'[k].0 == i;
      } else {
        assert out'[|out|].0 == i;
      }
    }
  }

  /** All entries, by nit_rewind and nit_seq until it gives none: each once, by id. */
  method Entries(t: Nit) returns (out: seq<(nat, Payload)>)
    requires t.Valid()
    modifies t`seqPtr
    ensures t.Valid() && t.View() == old(t.View())
    ensures forall k :: 0 <= k < |out| ==> out[k].0 in t.View() && out[k].1 == t.View()[out[k].0]
    ensures forall j, k :: 0 <= j < k < |out| ==> out[j].0 < out[k].0
    ensures forall i: nat :: i in t.View() ==> Listed(out, i)
  {
    ghost var m := t.View();
    t.Rewind();
    out := [];
    var more := true;
    NoneBelow(m);
    hide MapOf, CellsOk, Laid, Nvmt.Store.Valid;
    while more
      invariant t.Valid() && m == t.View() && ListsBelow(out, m, t.seqPtr)
      invariant !more ==> ListsBelow(out, m, t.seqPtr) && forall i: nat :: i in m ==> i < t.seqPtr
      decreases t.size - t.seqPtr, more
    {
      hide ListsBelow;
      var r := Next(t, out);
      if r.Some? {
        out := out + [r.value];
      } else {
        more := false;
      }
    }
  }

  lemma NoneBelow(m: map<nat, Payload>)
    ensures ListsBelow([], m, 0)
  {
  }

  /** One turn of the loop of a caller. */
  method Next(t: Nit, ghost out: seq<(nat, Payload)>) returns (r: Option<(nat, Payload)>)
    requires t.Valid() && ListsBelow(out, t.View(), t.seqPtr)
    modifies t`seqPtr
    ensures t.Valid() && t.View() == old(t.View())
    ensures r.Some? ==> old(t.seqPtr) < t.seqPtr && ListsBelow(out + [r.value], t.View(), t.seqPtr)
    ensures r.None? ==> old(t.seqPtr) <= t.seqPtr && ListsBelow(out, t.View(), t.seqPtr)
    ensures r.None? ==> forall i: nat :: i in t.View() ==> i < t.seqPtr
  {
    hide MapOf, CellsOk, Laid, ListsBelow, Nvmt.Store.Valid;
    ghost var m, lo := t.View(), t.seqPtr;
    r := t.Seq();
    if r.Some? {
      ListsStep(out, m, lo, r.value.0);
    } else {
      ListsOn(out, m, lo, t.seqPtr);
    }
  }

  lemma ListsOn(out: seq<(nat, Payload)>, m: map<nat, Payload>, lo: nat, hi: nat)
    requires ListsBelow(out, m, lo) && lo <= hi && forall i: nat :: i in m ==> i < lo
    ensures ListsBelow(out, m, hi)
  {
  }
}
