/** The string hash table of nht.c: open addressing over a family of hash functions,
    tombstones, and growth by rehashing in place with a tag bit. */
module Nht {
  import opened Common
  import Nvmt

  const DIRTY1: nat := 1
  const HT_GROWSZ: nat := 512 * 1024
  const NTBLS: nat := 45

  function Threshold(t: nat): nat {
    t / 7 * 6
  }

  /** Six sevenths of the table, in whole sixes. */
  lemma ThresholdIs(t: nat)
    ensures Threshold(t) % 6 == 0 && 7 * Threshold(t) <= 6 * t < 7 * Threshold(t) + 42
  {
    Nvmt.DivMod(t, 7);
    Nvmt.DivModOf(t / 7, 0, 6);
  }

  type Payload = seq<bv8>

  /** The hash of a key under one of the tables. */
  type Hash = (string, nat) -> nat

  /** A probe sequence: for a table size and a key, the slot of each probe. */
  type Prober = (nat, string, nat) -> nat

  /** A payload and key record in the full-word store. */
  datatype Rec = Rec(payload: Payload, key: string)

  /** nsxhash: the k-th probe of a key. The tables run out after NTBLS probes, from where
      on table 0 is used and probing is linear up to the 32-bit wrap-around. */
  function Nsxhash(cs: Hash, size: nat, key: string, k: nat): nat {
    if size == 0 then 0
    else (cs(key, if k < NTBLS then k else 0) % U32 + k) % U32 % size
  }

  /** Each of the first NTBLS probes goes by its own table: with the next hash from that table,
      whatever the others give, it hits the next slot. Behind them each probe hits the slot
      after the one before. Both hold but for the 32-bit wrap-around. */
  lemma ProbeLaws(cs: Hash, cs': Hash, size: nat, key: string, k: nat)
    requires size > 0
    ensures k < NTBLS && cs'(key, k) == cs(key, k) + 1 && cs(key, k) + k + 1 < U32 ==>
              Nsxhash(cs', size, key, k) == (Nsxhash(cs, size, key, k) + 1) % size
    ensures k < NTBLS && cs(key, k) + k < size <= U32 ==> Nsxhash(cs, size, key, k) == cs(key, k) + k
    ensures k >= NTBLS && cs(key, 0) + k + 1 < U32 ==>
              Nsxhash(cs, size, key, k + 1) == (Nsxhash(cs, size, key, k) + 1) % size
    ensures k >= NTBLS && cs(key, 0) + k < size <= U32 ==> Nsxhash(cs, size, key, k) == cs(key, 0) + k
  {
    hide Nsxhash;
    var t := if k < NTBLS then k else 0;
    var x := cs(key, t) + k;
    if x < U32 {
      ProbeIs(cs, size, key, k);
      NextResidue(x, size);
    }
    if k < NTBLS && cs'(key, k) == cs(key, k) + 1 && x + 1 < U32 {
      ProbeIs(cs', size, key, k);
    }
    if k >= NTBLS && x + 1 < U32 {
      ProbeIs(cs, size, key, k + 1);
    }
    if x < size <= U32 {
      SmallResidue(x, size);
    }
  }

  lemma ProbeIs(cs: Hash, size: nat, key: string, k: nat)
    requires size > 0 && cs(key, if k < NTBLS then k else 0) + k < U32
    ensures Nsxhash(cs, size, key, k) == (cs(key, if k < NTBLS then k else 0) + k) % size
  {
    SmallResidue(cs(key, if k < NTBLS then k else 0), U32);
    SmallResidue(cs(key, if k < NTBLS then k else 0) + k, U32);
  }

  lemma NextResidue(x: nat, n: nat)
    requires n > 0
    ensures (x + 1) % n == (x % n + 1) % n
  {
    Nvmt.DivMod(x, n);
    var q, r := x / n, x % n;
    if r + 1 < n {
      Nvmt.DivModOf(q, r + 1, n);
      SmallResidue(r + 1, n);
    } else {
      assert x + 1 == (q + 1) * n;
      Nvmt.DivModOf(q + 1, 0, n);
      Nvmt.DivModOf(1, 0, n);
    }
  }

  function Nsx(cs: Hash): Prober {
    (size: nat, key: string, k: nat) => Nsxhash(cs, size, key, k)
  }

  /** Some probe within the bound hits the slot. */
  ghost predicate Hits(probe: Prober, size: nat, key: string, target: nat) {
    exists k :: HitsAt(probe, size, key, target, k)
  }

  predicate HitsAt(probe: Prober, size: nat, key: string, target: nat, k: nat) {
    k < NTBLS + 2 * size && probe(size, key, k) == target
  }

  /** Probes stay inside the table and visit all of it. */
  ghost predicate IsProbing(probe: Prober) {
    && (forall size: nat, key, k: nat :: 0 < size ==> probe(size, key, k) < size)
    && (forall size: nat, key, target: nat :: target < size <= U32 ==> Hits(probe, size, key, target))
  }

  lemma NsxIsProbing(cs: Hash)
    ensures IsProbing(Nsx(cs))
  {
    forall size: nat, key, target: nat | target < size <= U32
      ensures Hits(Nsx(cs), size, key, target)
    {
      var k := ProbeReaches(cs, size, key, target);
      assert HitsAt(Nsx(cs), size, key, target, k);
    }
  }

  /** Every slot is probed within NTBLS + 2 * size probes, wrap-around included. */
  lemma ProbeReaches(cs: Hash, size: nat, key: string, target: nat) returns (k: nat)
    requires target < size <= U32
    ensures k < NTBLS + 2 * size && Nsxhash(cs, size, key, k) == target
  {
    var h := Start(cs, key);
    var b := if h + NTBLS < U32 then h + NTBLS else h + NTBLS - U32;
    if b + size <= U32 {
      var i := ResidueStep(b, size, target);
      k := NTBLS + i;
      ProbeFrom(cs, size, key, k, b + i);
    } else {
      k := NTBLS + (U32 - b) + target;
      ProbeFrom(cs, size, key, k, target);
      SmallResidue(target, size);
    }
  }

  /** Where the linear tail of the probing starts. */
  function Start(cs: Hash, key: string): (h: nat)
    ensures h < U32
  {
    cs(key, 0) % U32
  }

  /** The tail counts on from there, modulo 2^32. */
  lemma ProbeFrom(cs: Hash, size: nat, key: string, k: nat, w: nat)
    requires size > 0 && k >= NTBLS && w < U32
    requires Start(cs, key) + k == w || Start(cs, key) + k == w + U32 || Start(cs, key) + k == w + 2 * U32
    ensures Nsxhash(cs, size, key, k) == w % size
  {
    Around(Start(cs, key) + k, w);
  }

  lemma Around(x: nat, y: nat)
    requires y < U32 && (x == y || x == y + U32 || x == y + 2 * U32)
    ensures x % U32 == y
  {
    Nvmt.DivModOf(if x == y then 0 else if x == y + U32 then 1 else 2, y, U32);
  }

  lemma SmallResidue(x: nat, m: nat)
    requires x < m
    ensures x % m == x
  {
  }

  /** Some step below size leads from b to the wanted residue. */
  lemma ResidueStep(b: nat, size: nat, target: nat) returns (i: nat)
    requires target < size
    ensures i < size && (b + i) % size == target
  {
    var r, q := b % size, b / size;
    assert b == q * size + r;
    if target >= r {
      i := target - r;
      Nvmt.DivModOf(q, target, size);
    } else {
      i := target + size - r;
      Nvmt.DivModOf(q + 1, target, size);
      assert (q + 1) * size == q * size + size;
    }
  }

  // ------------------------------------------------------------------ the table as a value

  /** The index cells and the records they point to. A cell is 0 (empty), DIRTY1 (a
      tombstone) or the even offset of a record. */
  datatype Ix = Ix(probe: Prober, cells: seq<nat>, recs: map<nat, Rec>) {

    /** The slot of the k-th probe. */
    function Pos(key: string, k: nat): nat {
      probe(|cells|, key, k)
    }

    function Cell(i: nat): nat {
      if i < |cells| then cells[i] else 0
    }

    /** Cell i holds a record of this key. */
    predicate Holds(key: string, i: nat) {
      i < |cells| && cells[i] > DIRTY1 && cells[i] in recs && recs[cells[i]].key == key
    }

    /** The probe sequence gets to its k-th slot without meeting an empty cell. */
    ghost predicate Reaches(key: string, k: nat) {
      forall c: nat :: c < k ==> Cell(Pos(key, c)) != 0
    }

    /** The k-th probe is the one where nht_retrieve finds the key. */
    ghost predicate First(key: string, k: nat) {
      && Reaches(key, k)
      && Holds(key, Pos(key, k))
      && forall c: nat :: c < k ==> !Holds(key, Pos(key, c))
    }

    ghost function PayloadAt(key: string, k: nat): Payload
      requires First(key, k)
    {
      recs[cells[Pos(key, k)]].payload
    }

    ghost predicate Reachable(i: nat)
      requires i < |cells| && cells[i] in recs
    {
      exists k :: ReachesSlot(recs[cells[i]].key, k, i)
    }

    ghost predicate ReachesSlot(key: string, k: nat, i: nat) {
      Reaches(key, k) && Pos(key, k) == i
    }

    ghost predicate Wf() {
      && |cells| <= U32 && IsProbing(probe)
      && (forall i :: 0 <= i < |cells| && cells[i] > DIRTY1 ==> cells[i] % 2 == 0 && cells[i] in recs && Reachable(i))
      && (forall i, j :: 0 <= i < j < |cells| && cells[i] > DIRTY1 ==> cells[i] != cells[j])
    }

    /** No key has two records. */
    ghost predicate Unique() {
      forall i, j, key :: 0 <= i < j < |cells| && Holds(key, i) ==> !Holds(key, j)
    }

    predicate LiveIn(o: nat, i: nat) {
      i < |cells| && cells[i] > DIRTY1 && cells[i] == o
    }

    ghost predicate LiveAt(o: nat) {
      exists i :: LiveIn(o, i)
    }

    ghost predicate Has(key: string) {
      exists i :: Holds(key, i)
    }

    /** Where retrieval finds the key. */
    ghost function FirstOf(key: string): (k: nat)
      requires Wf() && Has(key)
      ensures First(key, k)
    {
      HasFirst(key);
      var k :| First(key, k);
      k
    }

    ghost function Keys(): (ks: set<string>)
      requires Wf()
      ensures forall key :: key in ks <==> Has(key)
    {
      var ks := set i | 0 <= i < |cells| && cells[i] > DIRTY1 :: recs[cells[i]].key;
      assert forall key :: Has(key) ==> key in ks by {
        forall key | Has(key)
          ensures key in ks
        {
          var i :| Holds(key, i);
        }
      }
      assert forall key :: key in ks ==> Has(key) by {
        forall key | key in ks
          ensures Has(key)
        {
          var i :| 0 <= i < |cells| && cells[i] > DIRTY1 && recs[cells[i]].key == key;
          assert Holds(key, i);
        }
      }
      ks
    }

    /** The finite map the table stands for. */
    ghost function View(): map<string, Payload>
      requires Wf()
    {
      map key | key in Keys() :: PayloadAt(key, FirstOf(key))
    }

    lemma HasFirst(key: string)
      requires Wf() && Has(key)
      ensures exists k :: First(key, k)
    {
      var i :| Holds(key, i);
      assert Reachable(i);
      var k :| ReachesSlot(key, k, i);
      LeastHit(key, k);
    }

    lemma {:induction false} LeastHit(key: string, k: nat)
      requires Reaches(key, k) && Holds(key, Pos(key, k))
      ensures exists f: nat :: First(key, f)
    {
      if c: nat :| c < k && Holds(key, Pos(key, c)) {
        LeastHit(key, c);
      } else {
        assert First(key, k);
      }
    }

    lemma FirstUnique(key: string, k: nat, f: nat)
      requires First(key, k) && First(key, f)
      ensures k == f
    {
    }

    /** The first hit decides the view. */
    lemma ViewAt(key: string, k: nat)
      requires Wf() && First(key, k)
      ensures key in View() && View()[key] == PayloadAt(key, k)
    {
      assert Has(key);
      FirstUnique(key, k, FirstOf(key));
    }

    lemma ViewHas(key: string)
      requires Wf()
      ensures key in View() <==> Has(key)
    {
    }
  }

  /** Tables of one size probe alike. */
  lemma SamePositions(t: Ix, t': Ix)
    requires t.probe == t'.probe && |t.cells| == |t'.cells|
    ensures forall q: string, c: nat :: t'.Pos(q, c) == t.Pos(q, c)
  {
  }

  /** What leaves the probes and the records of a key alone leaves its mapping alone. */
  lemma KeepsKey(t: Ix, t': Ix, q: string)
    requires t.Wf() && t'.Wf() && t.probe == t'.probe && |t.cells| == |t'.cells|
    requires forall i: nat :: t'.Holds(q, i) <==> t.Holds(q, i)
    requires forall i: nat :: t.Holds(q, i) ==>
               t'.Holds(q, i) && t'.recs[t'.cells[i]].payload == t.recs[t.cells[i]].payload
    requires forall c: nat :: t.Reaches(q, c) ==> t'.Reaches(q, c)
    ensures q in t'.View() <==> q in t.View()
    ensures q in t.View() ==> t'.View()[q] == t.View()[q]
  {
    SamePositions(t, t');
    if t.Has(q) {
      var f := t.FirstOf(q);
      assert t.Holds(q, t.Pos(q, f));
      assert t'.First(q, f);
      t'.ViewAt(q, f);
      t.ViewAt(q, f);
    } else {
      assert !t'.Has(q);
    }
  }

  /** The maps agree on every key but one. */
  ghost predicate AgreeBut(m: map<string, Payload>, m': map<string, Payload>, key: string) {
    forall q :: q != key ==> (q in m' <==> q in m) && (q in m ==> m'[q] == m[q])
  }

  lemma AgreeButIsUpdate(m: map<string, Payload>, m': map<string, Payload>, key: string, v: Payload)
    requires AgreeBut(m, m', key) && key in m' && m'[key] == v
    ensures m' == m[key := v]
  {
    assert m'.Keys == m.Keys + {key};
  }

  // ------------------------------------------------------------------ entering

  ghost predicate FreeAt(t: Ix, key: string, k: nat) {
    && |t.cells| > 0
    && t.Cell(t.Pos(key, k)) <= DIRTY1
    && forall c: nat :: c < k ==> t.Cell(t.Pos(key, c)) > DIRTY1 && !t.Holds(key, t.Pos(key, c))
  }

  function Entered(t: Ix, key: string, k: nat, off: nat, v: Payload): Ix
    requires t.Pos(key, k) < |t.cells|
  {
    t.(cells := t.cells[t.Pos(key, k) := off], recs := t.recs[off := Rec(v, key)])
  }

  lemma EnteredHolds(t: Ix, key: string, k: nat, off: nat, v: Payload)
    requires t.Wf() && FreeAt(t, key, k) && off > DIRTY1 && off !in t.recs
    ensures var t', s := Entered(t, key, k, off, v), t.Pos(key, k);
            forall q, i: nat :: t'.Holds(q, i) <==> (if i == s then q == key else t.Holds(q, i))
  {
  }

  lemma EnteredReaches(t: Ix, key: string, k: nat, off: nat, v: Payload, q: string, c: nat)
    requires FreeAt(t, key, k) && t.Pos(key, k) < |t.cells| && off > DIRTY1 && t.Reaches(q, c)
    ensures Entered(t, key, k, off, v).Reaches(q, c)
  {
    SamePositions(t, Entered(t, key, k, off, v));
  }

  lemma EnteredWf(t: Ix, key: string, k: nat, off: nat, v: Payload)
    requires t.Wf() && FreeAt(t, key, k) && off > DIRTY1 && off % 2 == 0 && off !in t.recs
    ensures Entered(t, key, k, off, v).Wf()
  {
    var t' := Entered(t, key, k, off, v);
    var s := t.Pos(key, k);
    forall i | 0 <= i < |t'.cells| && t'.cells[i] > DIRTY1
      ensures t'.cells[i] in t'.recs && t'.Reachable(i)
    {
      if i == s {
        EnteredReaches(t, key, k, off, v, key, k);
        assert t'.ReachesSlot(key, k, i);
      } else {
        assert t.Reachable(i);
        var q := t.recs[t.cells[i]].key;
        var c :| t.ReachesSlot(q, c, i);
        EnteredReaches(t, key, k, off, v, q, c);
        assert t'.ReachesSlot(q, c, i);
      }
    }
  }

  lemma EnteredOther(t: Ix, key: string, k: nat, off: nat, v: Payload, q: string)
    requires t.Wf() && FreeAt(t, key, k) && off > DIRTY1 && off !in t.recs && q != key
    requires Entered(t, key, k, off, v).Wf()
    ensures var m, m' := t.View(), Entered(t, key, k, off, v).View();
            (q in m' <==> q in m) && (q in m ==> m'[q] == m[q])
  {
    EnteredHolds(t, key, k, off, v);
    var t' := Entered(t, key, k, off, v);
    forall c: nat | t.Reaches(q, c)
      ensures t'.Reaches(q, c)
    {
      EnteredReaches(t, key, k, off, v, q, c);
    }
    KeepsKey(t, t', q);
  }

  /** A new record at the first free slot adds the key to the map, tombstones or not. */
  lemma EnteredView(t: Ix, key: string, k: nat, off: nat, v: Payload)
    requires t.Wf() && FreeAt(t, key, k) && off > DIRTY1 && off % 2 == 0 && off !in t.recs
    ensures Entered(t, key, k, off, v).Wf()
    ensures Entered(t, key, k, off, v).View() == t.View()[key := v]
  {
    EnteredWf(t, key, k, off, v);
    var t' := Entered(t, key, k, off, v);
    EnteredFirst(t, key, k, off, v);
    t'.ViewAt(key, k);
    var m, m' := t.View(), t'.View();
    forall q | q != key
      ensures (q in m' <==> q in m) && (q in m ==> m'[q] == m[q])
    {
      EnteredOther(t, key, k, off, v, q);
    }
    AgreeButIsUpdate(m, m', key, v);
  }

  lemma EnteredFirst(t: Ix, key: string, k: nat, off: nat, v: Payload)
    requires t.Wf() && FreeAt(t, key, k) && off > DIRTY1 && off % 2 == 0 && off !in t.recs
    ensures Entered(t, key, k, off, v).First(key, k)
    ensures Entered(t, key, k, off, v).PayloadAt(key, k) == v
  {
    var t' := Entered(t, key, k, off, v);
    SamePositions(t, t');
    EnteredReaches(t, key, k, off, v, key, k);
    EnteredHolds(t, key, k, off, v);
  }

  function Updated(t: Ix, key: string, k: nat, v: Payload): Ix
    requires t.Pos(key, k) < |t.cells|
  {
    t.(recs := t.recs[t.cells[t.Pos(key, k)] := Rec(v, key)])
  }

  lemma UpdatedHolds(t: Ix, key: string, k: nat, v: Payload)
    requires t.Wf() && t.First(key, k)
    ensures forall q, i: nat :: Updated(t, key, k, v).Holds(q, i) <==> t.Holds(q, i)
    ensures forall q, c: nat :: Updated(t, key, k, v).Reaches(q, c) <==> t.Reaches(q, c)
  {
    SamePositions(t, Updated(t, key, k, v));
  }

  lemma UpdatedWf(t: Ix, key: string, k: nat, v: Payload)
    requires t.Wf() && t.First(key, k)
    ensures var t' := Updated(t, key, k, v);
            t'.Wf() && t'.First(key, k) && t'.PayloadAt(key, k) == v && (t.Unique() ==> t'.Unique())
  {
    var t' := Updated(t, key, k, v);
    SamePositions(t, t');
    UpdatedHolds(t, key, k, v);
    forall i | 0 <= i < |t'.cells| && t'.cells[i] > DIRTY1
      ensures t'.Reachable(i)
    {
      KeepsReachable(t, t', i);
    }
  }

  /** Overwriting the payload where the key is found. */
  lemma UpdatedView(t: Ix, key: string, k: nat, v: Payload)
    requires t.Wf() && t.First(key, k)
    ensures var t' := Updated(t, key, k, v);
            t'.Wf() && t'.View() == t.View()[key := v] && (t.Unique() ==> t'.Unique())
  {
    assert t.Pos(key, k) < |t.cells|;
    hide *;
    var t' := Updated(t, key, k, v);
    UpdatedWf(t, key, k, v);
    t'.ViewAt(key, k);
    UpdatedOthers(t, key, k, v);
    AgreeButIsUpdate(t.View(), t'.View(), key, v);
  }

  lemma UpdatedOthers(t: Ix, key: string, k: nat, v: Payload)
    requires t.Wf() && t.First(key, k) && t.Pos(key, k) < |t.cells| && Updated(t, key, k, v).Wf()
    ensures AgreeBut(t.View(), Updated(t, key, k, v).View(), key)
  {
    hide Ix.Wf, Ix.First, Ix.View, Ix.Holds, Ix.Reaches, Updated;
    forall q | q != key
      ensures var m, m' := t.View(), Updated(t, key, k, v).View();
              (q in m' <==> q in m) && (q in m ==> m'[q] == m[q])
    {
      UpdatedOther(t, key, k, v, q);
    }
  }

  lemma UpdatedOther(t: Ix, key: string, k: nat, v: Payload, q: string)
    requires t.Wf() && t.First(key, k) && t.Pos(key, k) < |t.cells| && Updated(t, key, k, v).Wf() && q != key
    ensures var m, m' := t.View(), Updated(t, key, k, v).View();
            (q in m' <==> q in m) && (q in m ==> m'[q] == m[q])
  {
    UpdatedHolds(t, key, k, v);
    KeepsKey(t, Updated(t, key, k, v), q);
  }

  lemma KeepsReachable(t: Ix, t': Ix, i: nat)
    requires t.probe == t'.probe && |t.cells| == |t'.cells|
    requires i < |t.cells| && t.cells[i] in t.recs && t.Reachable(i)
    requires t'.cells[i] == t.cells[i] && t.cells[i] in t'.recs && t'.recs[t.cells[i]].key == t.recs[t.cells[i]].key
    requires forall q, c: nat :: t.Reaches(q, c) ==> t'.Reaches(q, c)
    ensures t'.Reachable(i)
  {
    SamePositions(t, t');
    var q := t.recs[t.cells[i]].key;
    var c :| t.ReachesSlot(q, c, i);
    assert t'.ReachesSlot(q, c, i);
  }

  /** Another copy of the key than the one retrieval finds. */
  ghost predicate SecondCopy(t: Ix, key: string, s: nat) {
    exists i :: i != s && t.Holds(key, i)
  }

  function Deleted(t: Ix, key: string, k: nat): Ix
    requires t.Pos(key, k) < |t.cells|
  {
    t.(cells := t.cells[t.Pos(key, k) := DIRTY1])
  }

  lemma DeletedHolds(t: Ix, key: string, k: nat)
    requires t.Wf() && t.First(key, k)
    ensures forall q, i: nat :: Deleted(t, key, k).Holds(q, i) <==> i != t.Pos(key, k) && t.Holds(q, i)
    ensures forall q, c: nat :: t.Reaches(q, c) ==> Deleted(t, key, k).Reaches(q, c)
  {
    SamePositions(t, Deleted(t, key, k));
  }

  lemma DeletedWf(t: Ix, key: string, k: nat)
    requires t.Wf() && t.First(key, k)
    ensures Deleted(t, key, k).Wf() && (t.Unique() ==> Deleted(t, key, k).Unique())
  {
    var t' := Deleted(t, key, k);
    DeletedHolds(t, key, k);
    forall i | 0 <= i < |t'.cells| && t'.cells[i] > DIRTY1
      ensures t'.Reachable(i)
    {
      KeepsReachable(t, t', i);
    }
  }

  /** A tombstone where the key was found leaves every other key alone; the key itself is
      gone exactly if it had no second record. */
  lemma DeletedView(t: Ix, key: string, k: nat)
    requires t.Wf() && t.First(key, k)
    ensures var t' := Deleted(t, key, k);
            && t'.Wf() && AgreeBut(t.View(), t'.View(), key)
            && (key !in t'.View() <==> !SecondCopy(t, key, t.Pos(key, k)))
            && (t.Unique() ==> t'.Unique())
  {
    var t' := Deleted(t, key, k);
    DeletedWf(t, key, k);
    DeletedHolds(t, key, k);
    var m, m' := t.View(), t'.View();
    forall q | q != key
      ensures (q in m' <==> q in m) && (q in m ==> m'[q] == m[q])
    {
      assert !t.Holds(q, t.Pos(key, k));
      KeepsKey(t, t', q);
    }
  }

  /** What nht_delete does to the table when it finds the key. */
  lemma Buried(t: Ix, key: string, k: nat)
    requires t.Wf() && t.First(key, k)
    ensures t.Pos(key, k) < |t.cells| && t.cells[t.Pos(key, k)] > DIRTY1
    ensures var t' := Deleted(t, key, k);
            && t'.Wf() && AgreeBut(t.View(), t'.View(), key)
            && (key !in t'.View() <==> !SecondCopy(t, key, t.Pos(key, k)))
            && (t.Unique() ==> t'.Unique() && t'.View() == t.View() - {key})
  {
    DeletedView(t, key, k);
    if t.Unique() {
      AgreeButIsRemoval(t.View(), Deleted(t, key, k).View(), key);
    }
  }

  /** What nht_enter does to the table: at probe k it found a free slot or tombstone, or the
      key before any of these. */
  ghost predicate Wrote(t: Ix, t': Ix, key: string, v: Payload, off: nat, k: nat) {
    && t.Pos(key, k) < |t.cells|
    && (forall c: nat :: c < k ==> t.Cell(t.Pos(key, c)) > DIRTY1 && !t.Holds(key, t.Pos(key, c)))
    && if t.Holds(key, t.Pos(key, k)) then off == t.cells[t.Pos(key, k)] && t' == Updated(t, key, k, v)
       else
         && t.Cell(t.Pos(key, k)) <= DIRTY1 && off > DIRTY1 && off % 2 == 0 && off !in t.recs
         && t' == Entered(t, key, k, off, v)
  }

  /** The table t is s after a growth. */
  ghost predicate Grown(s: Ix, t: Ix) {
    && s.Wf() && t.Wf() && t.Unique() && t.View() == s.View()
    && t.probe == s.probe && t.recs == s.recs && |t.cells| == |s.cells| + HT_GROWSZ
  }

  // ------------------------------------------------------------------ counting cells

  predicate IsUsed(v: nat) { v != 0 }

  predicate IsLive(v: nat) { v > DIRTY1 }

  /** The tag bit of ht_extend, on an offset waiting for its place. */
  predicate IsTagged(v: nat) { v % 2 == 1 }

  ghost function Count(s: seq<nat>, p: nat -> bool): (n: nat)
    ensures n <= |s|
  {
    if |s| == 0 then 0 else Count(s[..|s| - 1], p) + if p(s[|s| - 1]) then 1 else 0
  }

  lemma {:induction false} CountUpdate(s: seq<nat>, p: nat -> bool, i: nat, v: nat)
    requires i < |s|
    ensures Count(s[i := v], p) == Count(s, p) - (if p(s[i]) then 1 else 0) + (if p(v) then 1 else 0)
    decreases |s|
  {
    var m := |s| - 1;
    if i < m {
      assert s[i := v][..m] == s[..m][i := v];
      CountUpdate(s[..m], p, i, v);
    } else {
      assert s[i := v][..m] == s[..m];
    }
  }

  lemma {:induction false} CountNotAll(s: seq<nat>, p: nat -> bool) returns (i: nat)
    requires Count(s, p) < |s|
    ensures i < |s| && !p(s[i])
  {
    var m := |s| - 1;
    if p(s[m]) {
      i := CountNotAll(s[..m], p);
    } else {
      i := m;
    }
  }

  lemma {:induction false} CountLess(s: seq<nat>, t: seq<nat>, p: nat -> bool, q: nat -> bool)
    requires |t| >= |s|
    requires forall i :: 0 <= i < |s| && p(s[i]) ==> q(t[i])
    ensures Count(s, p) <= Count(t, q)
    decreases |t|
  {
    if |t| > |s| {
      CountLess(s, t[..|t| - 1], p, q);
    } else if |s| > 0 {
      CountLess(s[..|s| - 1], t[..|t| - 1], p, q);
    }
  }

  lemma {:induction false} CountNone(s: seq<nat>, p: nat -> bool)
    requires forall i :: 0 <= i < |s| ==> !p(s[i])
    ensures Count(s, p) == 0
  {
    if |s| > 0 {
      CountNone(s[..|s| - 1], p);
    }
  }

  lemma {:induction false} CountSome(s: seq<nat>, p: nat -> bool, i: nat)
    requires i < |s| && p(s[i])
    ensures Count(s, p) > 0
  {
    if i < |s| - 1 {
      CountSome(s[..|s| - 1], p, i);
    }
  }

  // ------------------------------------------------------------------ rehashing in place

  /** The offset in a cell, tagged or not. */
  function Off(v: nat): nat {
    v - v % 2
  }

  predicate Placed(v: nat) {
    v != 0 && !IsTagged(v)
  }

  /** The table in the middle of ht_extend. offs are the record offsets it must keep. */
  datatype Work = Work(probe: Prober, cells: seq<nat>, recs: map<nat, Rec>, offs: set<nat>) {

    function Pos(key: string, k: nat): nat {
      probe(|cells|, key, k)
    }

    function Cell(i: nat): nat {
      if i < |cells| then cells[i] else 0
    }

    /** Every earlier probe of the key meets a placed entry other than cell x. */
    ghost predicate PathPlaced(key: string, k: nat, x: int) {
      forall c: nat :: c < k ==> Placed(Cell(Pos(key, c))) && Pos(key, c) != x
    }

    ghost predicate SettledAt(key: string, k: nat, i: nat, x: int) {
      PathPlaced(key, k, x) && Pos(key, k) == i
    }

    ghost predicate Settled(key: string, i: nat, x: int) {
      exists k :: SettledAt(key, k, i, x)
    }

    ghost predicate KeepsOffsets() {
      && |cells| <= U32 && IsProbing(probe)
      && (forall o :: o in offs ==> o > DIRTY1 && o % 2 == 0 && o in recs)
      && (forall o, q :: o in offs && q in offs && recs[o].key == recs[q].key ==> o == q)
      && (forall i :: 0 <= i < |cells| && cells[i] != 0 ==> Off(cells[i]) in offs)
      && (forall i, j :: 0 <= i < j < |cells| && cells[i] != 0 ==> Off(cells[i]) != Off(cells[j]))
      && (forall o :: o in offs ==> InSomeCell(o))
    }

    ghost predicate InSomeCell(o: nat) {
      exists i :: InCell(o, i)
    }

    predicate InCell(o: nat, i: nat) {
      i < |cells| && cells[i] != 0 && Off(cells[i]) == o
    }

    /** Placed entries are found by probing, all but cell x, which is in nobody's way. */
    ghost predicate AllSettled(x: int)
      requires KeepsOffsets()
    {
      forall i :: 0 <= i < |cells| && i != x && Placed(cells[i]) ==> Settled(recs[cells[i]].key, i, x)
    }
  }

  /** Taking the tag off cell i: it is now nobody's neighbour and has to be placed. */
  lemma Untag(w: Work, i: nat)
    requires i < |w.cells| && IsTagged(w.cells[i]) && w.KeepsOffsets() && w.AllSettled(-1)
    ensures var w' := w.(cells := w.cells[i := Off(w.cells[i])]);
            w'.KeepsOffsets() && w'.AllSettled(i)
  {
    var w' := w.(cells := w.cells[i := Off(w.cells[i])]);
    UntagKeeps(w, i);
    forall j | 0 <= j < |w'.cells| && j != i && Placed(w'.cells[j])
      ensures w'.Settled(w'.recs[w'.cells[j]].key, j, i)
    {
      var key := w.recs[w.cells[j]].key;
      assert w.Settled(key, j, -1);
      var k :| w.SettledAt(key, k, j, -1);
      assert forall c: nat :: w'.Pos(key, c) == w.Pos(key, c);
      assert w'.SettledAt(key, k, j, i);
    }
  }

  lemma UntagKeeps(w: Work, i: nat)
    requires i < |w.cells| && IsTagged(w.cells[i]) && w.KeepsOffsets()
    ensures w.(cells := w.cells[i := Off(w.cells[i])]).KeepsOffsets()
  {
    var w' := w.(cells := w.cells[i := Off(w.cells[i])]);
    assert forall j :: 0 <= j < |w.cells| ==>
      (w'.cells[j] != 0 <==> w.cells[j] != 0) && Off(w'.cells[j]) == Off(w.cells[j]);
    forall o | o in w.offs
      ensures w'.InSomeCell(o)
    {
      assert w.InSomeCell(o);
      var j :| w.InCell(o, j);
      assert w'.InCell(o, j);
    }
  }

  /** The exchange of ht_extend: the entry of cell i goes to the slot s its probing found
      empty or tagged, and what was there goes to cell i. */
  lemma PlaceAt(w: Work, i: nat, k: nat, s: nat)
    requires i < |w.cells| && s < |w.cells| && s != i && w.KeepsOffsets() && w.AllSettled(i)
    requires Placed(w.cells[i]) && !Placed(w.cells[s])
    requires w.SettledAt(w.recs[w.cells[i]].key, k, s, i)
    ensures var w' := w.(cells := w.cells[s := w.cells[i]][i := w.cells[s]]);
            w'.KeepsOffsets() && w'.AllSettled(-1)
  {
    PlaceKeepsOffsets(w, i, s);
    var w' := w.(cells := w.cells[s := w.cells[i]][i := w.cells[s]]);
    forall j | 0 <= j < |w'.cells| && Placed(w'.cells[j])
      ensures w'.Settled(w'.recs[w'.cells[j]].key, j, -1)
    {
      var key := w'.recs[w'.cells[j]].key;
      if j == s {
        PlaceKeepsPath(w, i, s, key, k);
        assert w'.SettledAt(key, k, j, -1);
      } else {
        assert w.Settled(key, j, i);
        var c :| w.SettledAt(key, c, j, i);
        PlaceKeepsPath(w, i, s, key, c);
        assert w'.SettledAt(key, c, j, -1);
      }
    }
  }

  lemma PlaceKeepsPath(w: Work, i: nat, s: nat, key: string, k: nat)
    requires i < |w.cells| && s < |w.cells| && !Placed(w.cells[s]) && w.PathPlaced(key, k, i)
    ensures var w' := w.(cells := w.cells[s := w.cells[i]][i := w.cells[s]]);
            w'.PathPlaced(key, k, -1) && w'.Pos(key, k) == w.Pos(key, k)
  {
    var w' := w.(cells := w.cells[s := w.cells[i]][i := w.cells[s]]);
    assert forall c: nat :: w'.Pos(key, c) == w.Pos(key, c);
  }

  lemma PlaceKeepsOffsets(w: Work, i: nat, s: nat)
    requires i < |w.cells| && s < |w.cells| && s != i && w.KeepsOffsets()
    ensures w.(cells := w.cells[s := w.cells[i]][i := w.cells[s]]).KeepsOffsets()
  {
    var w' := w.(cells := w.cells[s := w.cells[i]][i := w.cells[s]]);
    forall o | o in w.offs
      ensures w'.InSomeCell(o)
    {
      SwappedIn(w, w', i, s, o);
    }
    forall a, b | 0 <= a < b < |w'.cells| && w'.cells[a] != 0
      ensures Off(w'.cells[a]) != Off(w'.cells[b])
    {
      DifferentOffsets(w, Other(a, i, s), Other(b, i, s));
    }
  }

  /** Where the cell comes from when i and s are exchanged. */
  function Other(j: nat, i: nat, s: nat): nat {
    if j == i then s else if j == s then i else j
  }

  lemma SwappedIn(w: Work, w': Work, i: nat, s: nat, o: nat)
    requires i < |w.cells| && s < |w.cells| && s != i && w.InSomeCell(o)
    requires w' == w.(cells := w.cells[s := w.cells[i]][i := w.cells[s]])
    ensures w'.InSomeCell(o)
  {
    var j :| w.InCell(o, j);
    assert w'.InCell(o, Other(j, i, s));
  }

  lemma DifferentOffsets(w: Work, x: nat, y: nat)
    requires w.KeepsOffsets() && x < |w.cells| && y < |w.cells| && x != y && w.cells[x] != 0
    ensures Off(w.cells[x]) != Off(w.cells[y])
  {
    if y < x && w.cells[y] != 0 {
      assert Off(w.cells[y]) != Off(w.cells[x]);
    }
  }

  /** Probing came back to the cell itself. */
  lemma StayAt(w: Work, i: nat, k: nat)
    requires i < |w.cells| && w.KeepsOffsets() && w.AllSettled(i) && Placed(w.cells[i])
    requires w.SettledAt(w.recs[w.cells[i]].key, k, i, i)
    ensures w.AllSettled(-1)
  {
    forall j | 0 <= j < |w.cells| && Placed(w.cells[j])
      ensures w.Settled(w.recs[w.cells[j]].key, j, -1)
    {
      var key := w.recs[w.cells[j]].key;
      if j == i {
        assert w.SettledAt(key, k, j, -1);
      } else {
        assert w.Settled(key, j, i);
        var c :| w.SettledAt(key, c, j, i);
        assert w.SettledAt(key, c, j, -1);
      }
    }
  }

  /** With no tag left the cells are a well-formed table over exactly the kept offsets. */
  lemma RehashedWf(w: Work)
    requires w.KeepsOffsets() && w.AllSettled(-1)
    requires forall i :: 0 <= i < |w.cells| ==> !IsTagged(w.cells[i])
    ensures var t := Ix(w.probe, w.cells, w.recs);
            t.Wf() && t.Unique() && SameRecords(t, w.offs)
  {
    var t := Ix(w.probe, w.cells, w.recs);
    forall i | 0 <= i < |t.cells| && t.cells[i] > DIRTY1
      ensures t.cells[i] % 2 == 0 && t.cells[i] in t.recs && t.Reachable(i)
    {
      assert Off(w.cells[i]) == w.cells[i];
      var key := w.recs[w.cells[i]].key;
      assert w.Settled(key, i, -1);
      var k :| w.SettledAt(key, k, i, -1);
      assert forall c: nat :: t.Pos(key, c) == w.Pos(key, c) && t.Cell(c) == w.Cell(c);
      assert t.ReachesSlot(key, k, i);
    }
    RehashedRecords(w);
  }

  lemma RehashedRecords(w: Work)
    requires w.KeepsOffsets() && forall i :: 0 <= i < |w.cells| ==> !IsTagged(w.cells[i])
    ensures var t := Ix(w.probe, w.cells, w.recs); t.Unique() && SameRecords(t, w.offs)
  {
    var t := Ix(w.probe, w.cells, w.recs);
    forall i | 0 <= i < |t.cells| && t.cells[i] > DIRTY1
      ensures t.cells[i] in w.offs
    {
      assert Off(w.cells[i]) == w.cells[i];
    }
    forall o | o in w.offs
      ensures t.LiveAt(o)
    {
      assert w.InSomeCell(o);
      var i :| w.InCell(o, i);
      assert t.LiveIn(o, i);
    }
  }

  /** The live cells hold exactly these offsets, all with different keys. */
  ghost predicate SameRecords(t: Ix, offs: set<nat>) {
    && (forall o :: o in offs ==> o in t.recs && t.LiveAt(o))
    && (forall i :: 0 <= i < |t.cells| && t.cells[i] > DIRTY1 ==> t.cells[i] in offs)
    && (forall o, q :: o in offs && q in offs && t.recs[o].key == t.recs[q].key ==> o == q)
  }

  /** Tables over the same records stand for the same map, whatever their size. */
  lemma SameRecordsSameView(t: Ix, u: Ix, offs: set<nat>)
    requires t.Wf() && u.Wf() && t.recs == u.recs
    requires SameRecords(t, offs) && SameRecords(u, offs)
    ensures t.View() == u.View()
  {
    hide Ix.Wf, Ix.View, SameRecords;
    var m, m' := t.View(), u.View();
    forall key
      ensures (key in m <==> key in m') && (key in m ==> m'[key] == m[key])
    {
      SameViewAt(t, u, offs, key);
    }
    assert m.Keys == m'.Keys;
  }

  lemma SameViewAt(t: Ix, u: Ix, offs: set<nat>, key: string)
    requires t.Wf() && u.Wf() && t.recs == u.recs
    requires SameRecords(t, offs) && SameRecords(u, offs)
    ensures var m, m' := t.View(), u.View();
            (key in m <==> key in m') && (key in m ==> m'[key] == m[key])
  {
    HasRecord(t, offs, key);
    HasRecord(u, offs, key);
    if o: nat :| o in offs && t.recs[o].key == key {
      ViewIsRecord(t, offs, o);
      ViewIsRecord(u, offs, o);
    }
  }

  lemma ViewIsRecord(t: Ix, offs: set<nat>, o: nat)
    requires t.Wf() && SameRecords(t, offs) && o in offs
    ensures t.recs[o].key in t.View() && t.View()[t.recs[o].key] == t.recs[o].payload
  {
    HasRecord(t, offs, t.recs[o].key);
    t.ViewAt(t.recs[o].key, t.FirstOf(t.recs[o].key));
  }

  lemma HasRecord(t: Ix, offs: set<nat>, key: string)
    requires t.Wf() && SameRecords(t, offs)
    ensures t.Has(key) <==> exists o :: o in offs && t.recs[o].key == key
  {
    if t.Has(key) {
      var i: nat :| t.Holds(key, i);
      assert t.cells[i] in offs;
    }
    if o: nat :| o in offs && t.recs[o].key == key {
      assert t.LiveAt(o);
      var i :| t.LiveIn(o, i);
      assert t.Holds(key, i);
    }
  }

  // ------------------------------------------------------------------ the table object

  /** The pointer nht_enter returns, as the offset of the record it points into. */
  datatype Ptr = Null | At(offs: nat)

  /** Only cells from lo up to hi may be tagged. */
  ghost predicate TagsWithin(s: seq<nat>, lo: nat, hi: nat) {
    forall j :: 0 <= j < |s| && IsTagged(s[j]) ==> lo <= j < hi
  }

  ghost predicate NoNewTags(s: seq<nat>, t: seq<nat>) {
    |s| == |t| && forall j :: 0 <= j < |t| && IsTagged(t[j]) ==> IsTagged(s[j])
  }

  lemma SameTags(s: seq<nat>)
    ensures NoNewTags(s, s)
  {
  }

  lemma TagsWithinStep(s: seq<nat>, t: seq<nat>, lo: nat, hi: nat)
    requires NoNewTags(s, t) && TagsWithin(s, lo, hi) && lo < |t|
    ensures TagsWithin(t, if IsTagged(t[lo]) then lo else lo + 1, hi)
  {
  }

  lemma UntagWithin(s: seq<nat>, i: nat, lo: nat, hi: nat)
    requires i < |s| && TagsWithin(s, lo, hi)
    ensures TagsWithin(s[i := Off(s[i])], lo, hi)
  {
  }

  function TagOf(v: nat): nat {
    if v > DIRTY1 then Off(v) + DIRTY1 else 0
  }

  /** The records lie behind one another: the bytes of one, its data, key and terminator,
      end before the next starts. */
  ghost predicate Laid(recs: map<nat, Rec>, dsize: nat, end: nat) {
    && (forall o :: o in recs ==> o + dsize + |recs[o].key| + 1 <= end)
    && (forall o, q :: o in recs && q in recs && o < q ==> o + dsize + |recs[o].key| + 1 <= q)
  }

  lemma LaidBehind(recs: map<nat, Rec>, dsize: nat, end: nat, o: nat, r: Rec, end': nat)
    requires Laid(recs, dsize, end) && end <= o && end' == o + dsize + |r.key| + 1
    ensures Laid(recs[o := r], dsize, end')
  {
  }

  lemma LaidOver(recs: map<nat, Rec>, dsize: nat, end: nat, o: nat, r: Rec)
    requires Laid(recs, dsize, end) && o in recs && r.key == recs[o].key
    ensures Laid(recs[o := r], dsize, end)
  {
  }

  class Nht {
    const probe: Prober
    const dsize: nat
    const rdonly: bool
    /** How the record store fw places blocks. */
    const geo: Nvmt.Geometry
    var nentries: nat
    var threshold: nat
    var cells: seq<nat>
    var recs: map<nat, Rec>
    var fwOffs: nat

    ghost function Tbl(): Ix
      reads this
    {
      Ix(probe, cells, recs)
    }

    /** The record store: what is behind fwOffs is free. */
    ghost predicate StoreOk()
      reads this`recs, this`fwOffs
    {
      && geo.Valid() && geo.Even() && geo.alignment == 4
      && geo.mapXend <= fwOffs && DIRTY1 < fwOffs
      && (forall o :: o in recs ==> o < fwOffs) && Laid(recs, dsize, fwOffs)
    }

    ghost predicate Valid()
      reads this
    {
      && Tbl().Wf()
      && StoreOk()
      && threshold == Threshold(|cells|)
      && Count(cells, IsUsed) <= nentries <= threshold
      && (Count(cells, IsUsed) == nentries ==> Tbl().Unique())
    }

    ghost function View(): map<string, Payload>
      requires Valid()
      reads this
    {
      Tbl().View()
    }

    /** The assertion of ht_extend: no entry has been deleted. */
    ghost predicate NoneDeleted()
      reads this
    {
      Count(cells, IsLive) == nentries
    }

    /** An empty table over a writable store whose first bytes hold the entry count. */
    constructor (cs: Hash, size: nat, g: Nvmt.Geometry)
      requires g.Valid() && g.Even() && g.alignment == 4 && g.mapXend == 0
      ensures Valid() && View() == map[] && NoneDeleted() && !rdonly && cells == [] && nentries == 0
      ensures geo == g && dsize == size && probe == Nsx(cs) && fwOffs == 8
    {
      probe := Nsx(cs);
      dsize := size;
      rdonly := false;
      geo := g;
      nentries := 0;
      threshold := Threshold(0);
      cells := [];
      recs := map[];
      fwOffs := 8;
      new;
      NsxIsProbing(cs);
    }

    /** The table of a closed one, opened again: cells, records and count come back from the
        stores, and records go behind what is mapped now. */
    constructor Reopened(h: Nht, readonly: bool)
      requires h.Valid()
      ensures Valid() && View() == h.View() && nentries == h.nentries
      ensures probe == h.probe && dsize == h.dsize && rdonly == readonly
      ensures NoneDeleted() <==> h.NoneDeleted()
      ensures geo.mapXend == fwOffs == h.fwOffs && forall p :: Fits(p) <==> h.Fits(p)
    {
      probe, dsize, rdonly := h.probe, h.dsize, readonly;
      geo := Nvmt.Geometry(h.fwOffs, h.geo.memNmemb, h.geo.alignment);
      nentries, threshold, cells := h.nentries, Threshold(|h.cells|), h.cells;
      recs, fwOffs := h.recs, h.fwOffs;
      new;
      assert Tbl() == h.Tbl();
    }

    /** The growth pass that empties tombstones and tags the others. */
    method TagAll(osize: nat) returns (m: nat)
      requires osize <= |cells|
      modifies this`cells
      ensures |cells| == |old(cells)| && forall j :: osize <= j < |cells| ==> cells[j] == old(cells)[j]
      ensures forall j :: 0 <= j < osize ==> cells[j] == TagOf(old(cells)[j])
      ensures m == Count(old(cells)[..osize], IsLive)
    {
      var i := 0;
      m := 0;
      ghost var s := cells;
      while i < osize
        invariant 0 <= i <= osize && |cells| == |s|
        invariant forall j :: 0 <= j < i ==> cells[j] == TagOf(s[j])
        invariant forall j :: i <= j < |s| ==> cells[j] == s[j]
        invariant m == Count(s[..i], IsLive)
      {
        assert s[..i + 1][..i] == s[..i];
        if cells[i] == DIRTY1 {
          cells := cells[i := 0];
        }
        if cells[i] != 0 {
          cells := cells[i := Off(cells[i]) + DIRTY1];
          m := m + 1;
        }
        i := i + 1;
      }
    }

    ghost function InWork(offs: set<nat>): Work
      reads this
    {
      Work(probe, cells, recs, offs)
    }

    /** The growth pass between two rounds. */
    ghost predicate Steady(offs: set<nat>)
      reads this
    {
      InWork(offs).KeepsOffsets() && InWork(offs).AllSettled(-1)
    }

    /** Probes for the entry of cell i until a tagged or empty slot, or the entry itself. A
        tagged slot lies behind cell i, as the source asserts. */
    method FindSlot(i: nat, osize: nat, ghost offs: set<nat>) returns (s: nat, ghost k: nat)
      requires i < |cells| && Placed(cells[i]) && TagsWithin(cells, i, osize)
      requires InWork(offs).KeepsOffsets() && InWork(offs).AllSettled(i)
      ensures s < |cells| && InWork(offs).SettledAt(recs[cells[i]].key, k, s, i)
      ensures s != i ==> !Placed(cells[s])
      ensures IsTagged(cells[s]) ==> i < s < osize
    {
      var opname := recs[cells[i]].key;
      ghost var w := InWork(offs);
      assert Hits(probe, |cells|, opname, i);
      ghost var bound: nat :| HitsAt(probe, |cells|, opname, i, bound);
      var c: nat := 0;
      while true
        invariant c <= bound
        invariant w.PathPlaced(opname, c, i)
        decreases bound - c
      {
        s := probe(|cells|, opname, c);
        assert w.Pos(opname, c) == s;
        if IsTagged(cells[s]) || cells[s] == 0 {
          return s, c;
        }
        if recs[cells[s]].key == opname {
          SameEntry(w, i, s);
          return s, c;
        }
        c := c + 1;
      }
    }

    /** One round of the rehash: the tagged entry of cell i is placed at the slot its
        probing finds. The round is over for cell i unless it got another tagged entry. */
    method PlaceEntry(i: nat, osize: nat, ghost offs: set<nat>) returns (done: bool)
      requires i < |cells| && IsTagged(cells[i]) && TagsWithin(cells, i, osize)
      requires Steady(offs)
      modifies this`cells
      ensures |cells| == |old(cells)|
      ensures Steady(offs)
      ensures Count(cells, IsTagged) == Count(old(cells), IsTagged) - 1
      ensures Count(cells, IsUsed) == Count(old(cells), IsUsed)
      ensures NoNewTags(old(cells), cells)
      ensures done <==> !IsTagged(cells[i])
    {
      hide Work.KeepsOffsets, Work.AllSettled, Count, TagsWithin;
      Untag(InWork(offs), i);
      UntagCounts(InWork(offs), i);
      UntagWithin(cells, i, i, osize);
      cells := cells[i := Off(cells[i])];
      var s, k := FindSlot(i, osize, offs);
      if s == i {
        StayAt(InWork(offs), i, k);
        return true;
      }
      PlaceAt(InWork(offs), i, k, s);
      SwapCounts(cells, i, s, IsTagged);
      SwapCounts(cells, i, s, IsUsed);
      done := !IsTagged(cells[s]);
      cells := cells[s := cells[i]][i := cells[s]];
    }

    /** One turn of the loop that places the tagged entries. */
    method Round(i: nat, osize: nat, m: nat, ghost offs: set<nat>) returns (i': nat, m': nat)
      requires i < osize <= |cells| && Steady(offs) && TagsWithin(cells, i, osize)
      modifies this`cells
      ensures |cells| == |old(cells)| && Steady(offs) && i <= i' <= osize && TagsWithin(cells, i', osize)
      ensures Count(cells, IsUsed) == Count(old(cells), IsUsed)
      ensures m' + Count(cells, IsTagged) == m + Count(old(cells), IsTagged)
      ensures Count(cells, IsTagged) < Count(old(cells), IsTagged) || (cells == old(cells) && i' == i + 1)
    {
      hide Nht.Steady, Count, TagsWithin, NoNewTags;
      ghost var s := cells;
      i', m' := i + 1, m;
      if IsTagged(cells[i]) {
        m' := m + 1;
        var done := PlaceEntry(i, osize, offs);
        TagsWithinStep(s, cells, i, osize);
        if !done {
          i' := i;
        }
      } else {
        SameTags(s);
        TagsWithinStep(s, cells, i, osize);
      }
    }

    /** The growth pass that places every tagged entry; m counts the placements. */
    method PlaceAll(osize: nat, ghost offs: set<nat>) returns (m: nat)
      requires osize <= |cells| && Steady(offs) && TagsWithin(cells, 0, osize)
      modifies this`cells
      ensures |cells| == |old(cells)| && Steady(offs)
      ensures forall j :: 0 <= j < |cells| ==> !IsTagged(cells[j])
      ensures Count(cells, IsUsed) == Count(old(cells), IsUsed)
      ensures m == Count(old(cells), IsTagged)
    {
      var i := 0;
      m := 0;
      hide Nht.Steady, Count;
      while i < osize
        invariant 0 <= i <= osize && |cells| == |old(cells)| && Steady(offs)
        invariant TagsWithin(cells, i, osize)
        invariant Count(cells, IsUsed) == Count(old(cells), IsUsed)
        invariant m + Count(cells, IsTagged) == Count(old(cells), IsTagged)
        decreases Count(cells, IsTagged), osize - i
      {
        hide TagsWithin;
        i, m := Round(i, osize, m, offs);
      }
      assert forall j :: 0 <= j < |cells| ==> !IsTagged(cells[j]);
      CountNone(cells, IsTagged);
    }

    lemma LiveAllUsed()
      requires Valid() && NoneDeleted()
      ensures Count(cells, IsUsed) == nentries && Tbl().Unique()
    {
      CountLess(cells, cells, IsLive, IsUsed);
    }

    /** The first half of ht_extend: new empty cells, then the tagging pass. */
    method GrowAndTag() returns (m: nat)
      modifies this`cells
      ensures |cells| == |old(cells)| + HT_GROWSZ && GrownTagged(old(cells), cells)
      ensures m == Count(old(cells), IsLive)
    {
      var osize := |cells|;
      ghost var s := cells;
      cells := cells + seq(HT_GROWSZ, _ => 0);
      assert cells[..osize] == s;
      ghost var grown := cells;
      m := TagAll(osize);
      forall j | osize <= j < |cells|
        ensures cells[j] == 0
      {
        assert cells[j] == grown[j];
      }
    }

    /** ht_extend: the same map, and the very same records in the cells. */
    method Extend()
      requires Valid() && NoneDeleted() && |cells| + HT_GROWSZ < U32
      modifies this`cells, this`threshold
      ensures Valid() && View() == old(View())
      ensures |cells| == |old(cells)| + HT_GROWSZ && nentries < threshold
      ensures NoneDeleted() && Grown(old(Tbl()), Tbl())
      ensures SameRecords(old(Tbl()), Offsets(old(Tbl()))) && SameRecords(Tbl(), Offsets(old(Tbl())))
    {
      hide Ix.View, Ix.Unique, Work.KeepsOffsets, Work.AllSettled, TagsWithin, Count;
      ghost var t := Tbl();
      ghost var offs := Offsets(t);
      LiveAllUsed();
      var osize := |cells|;
      var m := GrowAndTag();
      assert m == nentries;
      threshold := Threshold(|cells|);
      TaggedCounts(t.cells, cells);
      TaggedStart(t, InWork(offs));
      m := PlaceAll(osize, offs);
      assert m == nentries;
      RehashDone(t, InWork(offs));
    }

    /** A table with cells has an empty one: the load never passes the threshold. */
    lemma EmptyCell() returns (i: nat)
      requires Valid() && |cells| > 0
      ensures i < |cells| && cells[i] == 0
    {
      i := CountNotAll(cells, IsUsed);
    }

    /** The probe loop of nht_retrieve and nht_delete. */
    method Search(p: string) returns (found: bool, s: nat, ghost k: nat)
      requires Valid() && |cells| > 0
      ensures found <==> Tbl().Has(p)
      ensures found ==> s < |cells| && Tbl().First(p, k) && s == Tbl().Pos(p, k)
    {
      ghost var t := Tbl();
      ghost var e := EmptyCell();
      assert Hits(probe, |cells|, p, e);
      ghost var bound: nat :| HitsAt(probe, |cells|, p, e, bound);
      var c: nat := 0;
      while true
        invariant c <= bound && t.Reaches(p, c)
        invariant forall d: nat :: d < c ==> !t.Holds(p, t.Pos(p, d))
        decreases bound - c
      {
        s := probe(|cells|, p, c);
        assert s == t.Pos(p, c);
        if cells[s] == DIRTY1 {
        } else if cells[s] == 0 {
          ProbeEnds(t, p, c);
          return false, s, c;
        } else if recs[cells[s]].key == p {
          assert t.Holds(p, s);
          return true, s, c;
        }
        c := c + 1;
      }
    }

    method Retrieve(p: string) returns (r: Option<Payload>)
      requires Valid()
      ensures r == if p in View() then Some(View()[p]) else None
    {
      if |cells| == 0 {
        return None;
      }
      var found, s, k := Search(p);
      if !found {
        return None;
      }
      Tbl().ViewAt(p, k);
      return Some(recs[cells[s]].payload);
    }

    /** 0 when the key was found and its first record, at probe k, turned into a tombstone,
        else -1. An entry less is alive, and the count stays. */
    method Delete(p: string) returns (r: int, ghost k: nat)
      requires Valid()
      modifies this`cells
      ensures Valid() && |cells| == |old(cells)|
      ensures r == if rdonly || p !in old(View()) then -1 else 0
      ensures r == -1 ==> cells == old(cells)
      ensures r == 0 ==> old(Tbl()).First(p, k) && old(Tbl()).Pos(p, k) < |cells| && Tbl() == Deleted(old(Tbl()), p, k)
      ensures r == 0 ==> AgreeBut(old(View()), View(), p)
      ensures r == 0 ==> (p !in View() <==> !SecondCopy(old(Tbl()), p, old(Tbl()).Pos(p, k)))
      ensures r == 0 && old(Tbl()).Unique() ==> View() == old(View()) - {p} && Tbl().Unique()
      ensures r == 0 ==> Count(cells, IsLive) == old(Count(cells, IsLive)) - 1
    {
      k := 0;
      if rdonly {
        return -1, k;
      }
      if |cells| == 0 {
        return -1, k;
      }
      var found, s, f := Search(p);
      k := f;
      Tbl().ViewHas(p);
      if !found {
        return -1, k;
      }
      Buried(Tbl(), p, k);
      hide Ix.Wf, Ix.View, Ix.Unique, Ix.First, Ix.Has, SecondCopy, AgreeBut, Count, Threshold, Deleted;
      Bury(p, s, k);
      return 0, k;
    }

    /** The first record of a key turns into a tombstone. */
    method Bury(p: string, s: nat, ghost k: nat)
      requires Valid() && s < |cells| && Tbl().First(p, k) && s == Tbl().Pos(p, k)
      modifies this`cells
      ensures Valid() && Tbl() == Deleted(old(Tbl()), p, k) && |cells| == |old(cells)|
      ensures Count(cells, IsLive) == old(Count(cells, IsLive)) - 1
    {
      hide Ix.Wf, Ix.View, Ix.Unique, Ix.First, Ix.Has, Ix.Pos, SecondCopy, AgreeBut, Count, Threshold,
           Nvmt.Geometry.Valid, Nvmt.Geometry.Even;
      Buried(Tbl(), p, k);
      CountUpdate(cells, IsUsed, s, DIRTY1);
      CountUpdate(cells, IsLive, s, DIRTY1);
      cells := cells[s := DIRTY1];
    }

    /** The probe loop of nht_enter: the first free slot or tombstone, or the key. */
    method Claim(p: string) returns (free: bool, s: nat, ghost k: nat)
      requires Valid() && |cells| > 0
      ensures s < |cells| && s == Tbl().Pos(p, k)
      ensures if free then FreeAt(Tbl(), p, k) else Tbl().First(p, k)
      ensures forall c: nat :: c < k ==> Tbl().Cell(Tbl().Pos(p, c)) > DIRTY1 && !Tbl().Holds(p, Tbl().Pos(p, c))
    {
      ghost var t := Tbl();
      ghost var e := EmptyCell();
      assert Hits(probe, |cells|, p, e);
      ghost var bound: nat :| HitsAt(probe, |cells|, p, e, bound);
      var c: nat := 0;
      while true
        invariant c <= bound
        invariant forall d: nat :: d < c ==> t.Cell(t.Pos(p, d)) > DIRTY1 && !t.Holds(p, t.Pos(p, d))
        decreases bound - c
      {
        s := probe(|cells|, p, c);
        assert s == t.Pos(p, c);
        if cells[s] == 0 || cells[s] == DIRTY1 {
          return true, s, c;
        } else if recs[cells[s]].key == p {
          assert t.Holds(p, s);
          return false, s, c;
        }
        c := c + 1;
      }
    }

    function RecSize(p: string): nat {
      dsize + |p| + 1
    }

    /** The record is not too long for a fragment of the store. */
    predicate Fits(p: string) {
      RecSize(p) <= geo.memNmemb
    }

    /** A new record of the key gets an even offset (RecordParity), as the source asserts. */
    ghost predicate EvenRecord(p: string)
      requires geo.Valid()
      reads this`fwOffs
    {
      geo.mapXend % 2 == 0 || !Nvmt.Advances(geo, fwOffs, RecSize(p))
    }

    /** nht_enter writes to t, the table itself or what it has grown to, at probe k of the
        key. A growth asserts that nothing was deleted. */
    method Enter(p: string, v: Payload) returns (r: Ptr, ghost t: Ix, ghost k: nat)
      requires Valid()
      requires !rdonly && threshold <= nentries ==> NoneDeleted() && |cells| + HT_GROWSZ < U32
      requires !rdonly && !(p in View() && NoneDeleted()) ==> EvenRecord(p)
      modifies this`cells, this`threshold, this`nentries, this`recs, this`fwOffs
      ensures Valid()
      ensures if rdonly || old(nentries) < old(threshold) then t == old(Tbl()) else Grown(old(Tbl()), t)
      ensures r == Null ==> View() == old(View()) && nentries == old(nentries) && Tbl() == t
      ensures r != Null ==> View() == old(View())[p := v]
      ensures r != Null ==> r.offs in recs && recs[r.offs] == Rec(v, p) && Wrote(t, Tbl(), p, v, r.offs, k)
      ensures rdonly ==> r == Null
      ensures !rdonly && Fits(p) ==> r != Null
      ensures Fits(p) <==> dsize + |p| + 1 <= geo.memNmemb
      ensures !Fits(p) && p !in old(View()) ==> r == Null
      ensures old(NoneDeleted()) ==> (r == Null <==> rdonly || (!Fits(p) && p !in old(View())))
      ensures nentries - Count(cells, IsLive) == old(nentries - Count(cells, IsLive))
      ensures old(nentries) <= nentries <= old(nentries) + 1
    {
      hide Ix.Wf, Ix.Unique, Ix.View, Count, Wrote, Laid;
      k := 0;
      if rdonly {
        return Null, Tbl(), k;
      }
      if threshold <= nentries {
        Extend();
      }
      t := Tbl();
      r, k := Write(p, v);
    }

    /** nht_enter when there is room in the index. */
    method Write(p: string, v: Payload) returns (r: Ptr, ghost k: nat)
      requires Valid() && !rdonly && nentries < threshold
      requires !(p in View() && NoneDeleted()) ==> EvenRecord(p)
      modifies this`cells, this`nentries, this`recs, this`fwOffs
      ensures Valid() && old(nentries) <= nentries <= old(nentries) + 1
      ensures r == Null ==> !Fits(p) && View() == old(View()) && nentries == old(nentries) && Tbl() == old(Tbl())
      ensures r == Null && old(NoneDeleted()) ==> p !in old(View())
      ensures r != Null ==> View() == old(View())[p := v] && (Fits(p) || p in old(View()))
      ensures r != Null ==> r.offs in recs && recs[r.offs] == Rec(v, p) && Wrote(old(Tbl()), Tbl(), p, v, r.offs, k)
      ensures nentries - Count(cells, IsLive) == old(nentries - Count(cells, IsLive))
    {
      hide Ix.Wf, Ix.Unique, Ix.View, Count, Laid;
      var free, s, f := Claim(p);
      k := f;
      ghost var t := Tbl();
      if free {
        NoTombs();
        FreeOfKey(t, p, k);
        t.ViewHas(p);
        r := Insert(p, v, s, k);
      } else {
        t.ViewAt(p, k);
        UpdatedView(t, p, k, v);
        r := At(cells[s]);
        LaidOver(recs, dsize, fwOffs, cells[s], Rec(v, p));
        recs := recs[cells[s] := Rec(v, p)];
      }
    }

    lemma NoTombs()
      requires Valid()
      ensures NoneDeleted() ==> forall i :: 0 <= i < |cells| ==> cells[i] != DIRTY1
    {
      forall i | 0 <= i < |cells|
        ensures cells[i] == DIRTY1 ==> !NoneDeleted()
      {
        if cells[i] == DIRTY1 {
          TombCounts(cells, i);
        }
      }
    }

    /** The new-entry branch of nht_enter. */
    method Insert(p: string, v: Payload, s: nat, ghost k: nat) returns (r: Ptr)
      requires Valid() && !rdonly && nentries < threshold && EvenRecord(p)
      requires s < |cells| && s == Tbl().Pos(p, k) && FreeAt(Tbl(), p, k)
      modifies this`cells, this`nentries, this`recs, this`fwOffs
      ensures Valid()
      ensures r == Null <==> !Fits(p)
      ensures r == Null ==> View() == old(View()) && nentries == old(nentries) && Tbl() == old(Tbl())
      ensures r != Null ==> View() == old(View())[p := v] && nentries == old(nentries) + 1
      ensures r != Null ==> r.offs > DIRTY1 && r.offs % 2 == 0 && r.offs !in old(recs)
      ensures r != Null ==> Tbl() == Entered(old(Tbl()), p, k, r.offs, v)
      ensures nentries - Count(cells, IsLive) == old(nentries - Count(cells, IsLive))
    {
      hide Ix.Wf, Ix.Unique, Ix.View, StoreOk, FreeAt, Count, Threshold;
      ghost var t := Tbl();
      assert geo.Valid() by {
        GeoOk();
      }
      r := NewRecord(p, v);
      if r != Null {
        Settle(p, v, s, r.offs, t, k);
      }
    }

    lemma GeoOk()
      requires StoreOk()
      ensures geo.Valid()
    {
    }

    /** The new record gets its cell. */
    method Settle(p: string, v: Payload, s: nat, off: nat, ghost t: Ix, ghost k: nat)
      requires t.Wf() && FreeAt(t, p, k) && s == t.Pos(p, k) < |t.cells|
      requires off > DIRTY1 && off % 2 == 0 && off !in t.recs
      requires probe == t.probe && cells == t.cells && recs == t.recs[off := Rec(v, p)] && StoreOk()
      requires threshold == Threshold(|cells|) && Count(cells, IsUsed) <= nentries < threshold
      requires Count(cells, IsUsed) == nentries ==> t.Unique()
      modifies this`cells, this`nentries
      ensures Valid() && Tbl() == Entered(t, p, k, off, v) && View() == t.View()[p := v]
      ensures nentries == old(nentries) + 1
      ensures nentries - Count(cells, IsLive) == old(nentries - Count(cells, IsLive))
    {
      assert cells[s] <= DIRTY1;
      hide Ix.Wf, Ix.Unique, Ix.View, Ix.Has, StoreOk, FreeAt, Count, Threshold;
      EnteredView(t, p, k, off, v);
      EnteredUnique(t, p, k, off, v);
      FreeOfKey(t, p, k);
      InsertCounts(cells, s, off);
      nentries := nentries + 1;
      cells := cells[s := off];
    }

    /** Allocating a record behind the last one: its offset is even, so it can be tagged. */
    method NewRecord(p: string, v: Payload) returns (r: Ptr)
      requires StoreOk() && EvenRecord(p)
      modifies this`recs, this`fwOffs
      ensures r == Null <==> !Fits(p)
      ensures r == Null ==> recs == old(recs) && fwOffs == old(fwOffs)
      ensures r != Null ==> r.offs > DIRTY1 && r.offs % 2 == 0 && r.offs !in old(recs)
      ensures r != Null ==> recs == old(recs)[r.offs := Rec(v, p)] && r.offs < fwOffs && old(fwOffs) <= fwOffs
      ensures r != Null ==> old(fwOffs) <= r.offs && fwOffs == r.offs + dsize + |p| + 1
      ensures StoreOk()
    {
      hide Nvmt.Place, Laid;
      RecordPlace(geo, fwOffs, RecSize(p));
      var b := Nvmt.Place(geo, fwOffs, RecSize(p));
      if b.Refused? {
        return Null;
      }
      LaidBehind(recs, dsize, fwOffs, b.offs, Rec(v, p), b.end);
      fwOffs := b.end;
      recs := recs[b.offs := Rec(v, p)];
      return At(b.offs);
    }
  }

  /** A block for a record is at an even offset, which can carry the tag, exactly if no
      fragment was skipped or the mapped part of the store ends at an even offset. */
  lemma RecordParity(g: Nvmt.Geometry, offs: nat, size: nat)
    requires g.Valid() && g.Even() && g.alignment == 4 && Nvmt.Place(g, offs, size).Block?
    ensures Nvmt.Place(g, offs, size).offs % 2 == 0 <==> !Nvmt.Advances(g, offs, size) || g.mapXend % 2 == 0
  {
    Nvmt.PlaceStart(g, offs, size);
    FourToTwo(Nvmt.Place(g, offs, size).offs);
    FourToTwo(g.mapXend);
  }

  /** Parity is decided by the remainder of a division by four. */
  lemma FourToTwo(n: nat)
    ensures n % 2 == 0 <==> n % 4 == 0 || n % 4 == 2
  {
    var q, r := n / 4, n % 4;
    Nvmt.DivMod(n, 4);
    if r < 2 {
      Nvmt.DivModOf(2 * q, r, 2);
    } else {
      Nvmt.DivModOf(2 * q + 1, r - 2, 2);
    }
  }

  lemma RecordPlace(g: Nvmt.Geometry, offs: nat, size: nat)
    requires g.Valid() && g.Even() && g.alignment == 4 && g.mapXend <= offs && size > 0
    requires g.mapXend % 2 == 0 || !Nvmt.Advances(g, offs, size)
    ensures var b := Nvmt.Place(g, offs, size);
            && (b.Refused? <==> g.memNmemb < size) && !b.ReadOnly?
            && (b.Block? ==> offs <= b.offs < b.end == b.offs + size && b.offs % 2 == 0)
  {
    hide Nvmt.Place, Nvmt.Advances;
    Nvmt.PlaceRefuses(g, offs, size);
    var b := Nvmt.Place(g, offs, size);
    if b.Block? {
      Nvmt.PlaceBehind(g, offs, size);
      RecordParity(g, offs, size);
    }
  }

  lemma InsertCounts(s: seq<nat>, i: nat, off: nat)
    requires i < |s| && s[i] <= DIRTY1 < off
    ensures Count(s[i := off], IsUsed) == Count(s, IsUsed) + (if s[i] == 0 then 1 else 0)
    ensures Count(s[i := off], IsLive) == Count(s, IsLive) + 1
    ensures Count(s, IsLive) <= Count(s, IsUsed)
    ensures s[i] == DIRTY1 ==> Count(s, IsLive) < Count(s, IsUsed)
  {
    CountUpdate(s, IsUsed, i, off);
    CountUpdate(s, IsLive, i, off);
    CountLess(s, s, IsLive, IsUsed);
    if s[i] == DIRTY1 {
      TombCounts(s, i);
    }
  }

  /** An empty cell on the way means the key is nowhere. */
  lemma ProbeEnds(t: Ix, key: string, c: nat)
    requires t.Wf() && t.Cell(t.Pos(key, c)) == 0
    requires forall d: nat :: d < c ==> !t.Holds(key, t.Pos(key, d))
    ensures !t.Has(key)
  {
    if t.Has(key) {
      var k := t.FirstOf(key);
      assert false;
    }
  }

  lemma FreeOfKey(t: Ix, key: string, k: nat)
    requires t.Wf() && FreeAt(t, key, k)
    ensures t.Cell(t.Pos(key, k)) == 0 ==> !t.Has(key)
  {
    if t.Cell(t.Pos(key, k)) == 0 {
      ProbeEnds(t, key, k);
    }
  }

  /** A new record makes a second copy exactly if a tombstone hid the first one. */
  lemma EnteredUnique(t: Ix, key: string, k: nat, off: nat, v: Payload)
    requires t.Wf() && FreeAt(t, key, k) && off > DIRTY1 && off !in t.recs && t.Pos(key, k) < |t.cells|
    ensures t.Unique() ==> (Entered(t, key, k, off, v).Unique() <==> !t.Has(key))
  {
    var t' := Entered(t, key, k, off, v);
    var s := t.Pos(key, k);
    EnteredHolds(t, key, k, off, v);
    if i: nat :| t.Holds(key, i) {
      assert t'.Holds(key, i) && t'.Holds(key, s) && i != s;
      assert !t'.Unique();
    }
  }

  /** Deleting such a key once brings the stale record back. */
  lemma StaleCopyResurfaces(t: Ix, key: string, k: nat, off: nat, v: Payload)
    requires t.Wf() && FreeAt(t, key, k) && off > DIRTY1 && off % 2 == 0 && off !in t.recs && t.Has(key)
    ensures var u := Entered(t, key, k, off, v);
            && u.Wf() && u.First(key, k) && u.View()[key] == v
            && Deleted(u, key, k).Wf() && key in Deleted(u, key, k).View()
  {
    var u := Entered(t, key, k, off, v);
    EnteredWf(t, key, k, off, v);
    EnteredFirst(t, key, k, off, v);
    EnteredHolds(t, key, k, off, v);
    u.ViewAt(key, k);
    DeletedView(u, key, k);
    var i: nat :| t.Holds(key, i);
    SamePositions(t, u);
    assert i != t.Pos(key, k) && u.Holds(key, i);
    assert SecondCopy(u, key, u.Pos(key, k));
  }

  lemma AgreeButIsRemoval(m: map<string, Payload>, m': map<string, Payload>, key: string)
    requires AgreeBut(m, m', key) && key !in m'
    ensures m' == m - {key}
  {
    assert m'.Keys == m.Keys - {key};
  }

  /** Live cells and a tombstone at s together are no more than the used cells. */
  lemma TombCounts(s: seq<nat>, i: nat)
    requires i < |s| && s[i] == DIRTY1
    ensures Count(s, IsLive) < Count(s, IsUsed)
  {
    CountUpdate(s, IsUsed, i, 0);
    CountUpdate(s, IsLive, i, 0);
    CountLess(s[i := 0], s[i := 0], IsLive, IsUsed);
  }

  /** The offsets of the live entries. */
  ghost function Offsets(t: Ix): (offs: set<nat>)
    ensures forall i :: 0 <= i < |t.cells| && t.cells[i] > DIRTY1 ==> t.cells[i] in offs
    ensures forall o :: o in offs ==> t.LiveAt(o)
  {
    var offs := set i | 0 <= i < |t.cells| && t.cells[i] > DIRTY1 :: t.cells[i];
    assert forall o :: o in offs ==> t.LiveAt(o) by {
      forall o | o in offs
        ensures t.LiveAt(o)
      {
        var i :| 0 <= i < |t.cells| && t.cells[i] > DIRTY1 && t.cells[i] == o;
        assert t.LiveIn(o, i);
      }
    }
    offs
  }

  lemma OffsetsAreRecords(t: Ix)
    requires t.Wf() && t.Unique()
    ensures SameRecords(t, Offsets(t))
    ensures forall o :: o in Offsets(t) ==> o > DIRTY1 && o % 2 == 0
  {
    var offs := Offsets(t);
    forall o | o in offs
      ensures o in t.recs && o > DIRTY1 && o % 2 == 0
    {
      assert t.LiveAt(o);
      var i :| t.LiveIn(o, i);
    }
    forall o, q | o in offs && q in offs && t.recs[o].key == t.recs[q].key
      ensures o == q
    {
      assert t.LiveAt(o) && t.LiveAt(q);
      var i :| t.LiveIn(o, i);
      var j :| t.LiveIn(q, j);
      assert t.Holds(t.recs[o].key, i) && t.Holds(t.recs[o].key, j);
    }
  }

  /** The cells t are the cells s grown and tagged. */
  ghost predicate GrownTagged(s: seq<nat>, t: seq<nat>) {
    && |s| <= |t|
    && forall j :: 0 <= j < |t| ==> t[j] == if j < |s| then TagOf(s[j]) else 0
  }

  lemma TaggedCell(s: seq<nat>, t: seq<nat>, j: nat)
    requires GrownTagged(s, t) && j < |t| && (forall i :: 0 <= i < |s| && IsLive(s[i]) ==> s[i] % 2 == 0)
    ensures IsTagged(t[j]) <==> IsUsed(t[j])
    ensures IsUsed(t[j]) <==> j < |s| && IsLive(s[j])
    ensures IsUsed(t[j]) ==> Off(t[j]) == s[j]
  {
  }

  lemma TaggedCounts(s: seq<nat>, t: seq<nat>)
    requires GrownTagged(s, t) && (forall i :: 0 <= i < |s| && IsLive(s[i]) ==> s[i] % 2 == 0)
    ensures Count(t, IsUsed) == Count(t, IsTagged) == Count(s, IsLive)
    ensures TagsWithin(t, 0, |s|)
  {
    forall j | 0 <= j < |t|
      ensures IsTagged(t[j]) <==> IsUsed(t[j])
      ensures IsUsed(t[j]) <==> j < |s| && IsLive(s[j])
    {
      TaggedCell(s, t, j);
    }
    CountLess(s, t, IsLive, IsUsed);
    CountLess(t, t, IsUsed, IsTagged);
    CountLess(t, t, IsTagged, IsUsed);
    CountSplit(t, |s|, IsUsed);
    CountLess(t[..|s|], s, IsUsed, IsLive);
  }

  /** After growing and tagging, everything is still to be placed. */
  lemma TaggedStart(t: Ix, w: Work)
    requires t.Wf() && t.Unique() && w.probe == t.probe && w.recs == t.recs && w.offs == Offsets(t)
    requires GrownTagged(t.cells, w.cells) && |w.cells| <= U32
    ensures w.KeepsOffsets() && w.AllSettled(-1)
  {
    OffsetsAreRecords(t);
    forall j | 0 <= j < |w.cells|
      ensures IsTagged(w.cells[j]) <==> IsUsed(w.cells[j])
      ensures IsUsed(w.cells[j]) <==> j < |t.cells| && IsLive(t.cells[j])
      ensures IsUsed(w.cells[j]) ==> Off(w.cells[j]) == t.cells[j]
    {
      TaggedCell(t.cells, w.cells, j);
    }
    forall o | o in w.offs
      ensures w.InSomeCell(o)
    {
      assert t.LiveAt(o);
      var i :| t.LiveIn(o, i);
      assert w.InCell(o, i);
    }
  }

  /** No tag is left: the work is a table again, standing for the same map. */
  lemma RehashDone(t: Ix, w: Work)
    requires t.Wf() && t.Unique() && w.probe == t.probe && w.recs == t.recs && w.offs == Offsets(t)
    requires w.KeepsOffsets() && w.AllSettled(-1)
    requires forall i :: 0 <= i < |w.cells| ==> !IsTagged(w.cells[i])
    ensures var u := Ix(w.probe, w.cells, w.recs);
            && u.Wf() && u.Unique() && u.View() == t.View()
            && SameRecords(t, Offsets(t)) && SameRecords(u, Offsets(t))
    ensures Count(w.cells, IsLive) == Count(w.cells, IsUsed)
  {
    OffsetsAreRecords(t);
    RehashedWf(w);
    SameRecordsSameView(t, Ix(w.probe, w.cells, w.recs), w.offs);
    CountLess(w.cells, w.cells, IsLive, IsUsed);
    CountLess(w.cells, w.cells, IsUsed, IsLive);
  }

  /** Nothing counts behind position k. */
  lemma {:induction false} CountSplit(s: seq<nat>, k: nat, p: nat -> bool)
    requires k <= |s| && forall i :: k <= i < |s| ==> !p(s[i])
    ensures Count(s, p) == Count(s[..k], p)
    decreases |s|
  {
    if k < |s| {
      assert s[..|s| - 1][..k] == s[..k];
      CountSplit(s[..|s| - 1], k, p);
    } else {
      assert s[..k] == s;
    }
  }

  lemma SwapCounts(s: seq<nat>, i: nat, j: nat, p: nat -> bool)
    requires i < |s| && j < |s| && i != j
    ensures Count(s[j := s[i]][i := s[j]], p) == Count(s, p)
  {
    CountUpdate(s, p, j, s[i]);
    CountUpdate(s[j := s[i]], p, i, s[j]);
  }

  lemma SameEntry(w: Work, i: nat, s: nat)
    requires w.KeepsOffsets() && i < |w.cells| && s < |w.cells| && Placed(w.cells[i]) && Placed(w.cells[s])
    requires w.recs[w.cells[s]].key == w.recs[w.cells[i]].key
    ensures i == s
  {
    assert Off(w.cells[s]) == w.cells[s] && Off(w.cells[i]) == w.cells[i];
  }

  lemma UntagCounts(w: Work, i: nat)
    requires w.KeepsOffsets() && i < |w.cells| && IsTagged(w.cells[i])
    ensures Placed(Off(w.cells[i]))
    ensures Count(w.cells[i := Off(w.cells[i])], IsTagged) == Count(w.cells, IsTagged) - 1
    ensures Count(w.cells[i := Off(w.cells[i])], IsUsed) == Count(w.cells, IsUsed)
  {
    CountUpdate(w.cells, IsTagged, i, Off(w.cells[i]));
    CountUpdate(w.cells, IsUsed, i, Off(w.cells[i]));
  }

  // ------------------------------------------------------------------ a stale copy

  /** In a table without entries the first probe of a key is free. */
  lemma EmptyIsFree(t: Ix, t': Ix, key: string, v: Payload, off: nat, k: nat)
    requires t.Wf() && t.View() == map[] && Wrote(t, t', key, v, off, k)
    ensures t'.Holds(key, t'.Pos(key, 0)) && |t'.cells| == |t.cells| && t'.probe == t.probe
  {
    forall i | 0 <= i < |t.cells|
      ensures t.cells[i] <= DIRTY1
    {
      if t.cells[i] > DIRTY1 {
        assert t.Holds(t.recs[t.cells[i]].key, i);
        t.ViewHas(t.recs[t.cells[i]].key);
      }
    }
    SamePositions(t, t');
  }

  lemma WroteSize(t: Ix, t': Ix, key: string, v: Payload, off: nat, k: nat)
    requires Wrote(t, t', key, v, off, k)
    ensures |t'.cells| == |t.cells| && t'.probe == t.probe
  {
  }

  /** Key b stands at i with this payload because its first slot was taken by a. */
  ghost predicate Displaced(t: Ix, a: string, b: string, i: nat, v: Payload) {
    && t.Pos(a, 0) == t.Pos(b, 0) && t.Holds(a, t.Pos(a, 0))
    && t.Holds(b, i) && i != t.Pos(b, 0) && t.recs[t.cells[i]].payload == v
  }

  /** Key b stands at i although its first slot is a tombstone. */
  ghost predicate BehindTomb(t: Ix, b: string, i: nat, v: Payload) {
    && t.Cell(t.Pos(b, 0)) == DIRTY1
    && t.Holds(b, i) && t.recs[t.cells[i]].payload == v
  }

  /** A new key whose first slot is taken goes somewhere else. */
  lemma Displaces(t: Ix, t': Ix, a: string, b: string, v: Payload, off: nat, k: nat)
    requires t.Wf() && a != b && t.Pos(a, 0) == t.Pos(b, 0) && t.Holds(a, t.Pos(a, 0)) && b !in t.View()
    requires Wrote(t, t', b, v, off, k)
    ensures Displaced(t', a, b, t'.Pos(b, k), v)
  {
    t.ViewHas(b);
    SamePositions(t, t');
    EnteredHolds(t, b, k, off, v);
  }

  lemma LeavesTomb(t: Ix, a: string, b: string, i: nat, v: Payload, k: nat)
    requires t.Wf() && t.First(a, k) && a != b && Displaced(t, a, b, i, v)
    ensures BehindTomb(Deleted(t, a, k), b, i, v)
  {
    DeletedHolds(t, a, k);
    SamePositions(t, Deleted(t, a, k));
  }

  /** Entering b again takes the tombstone, and deleting b uncovers the old record. */
  lemma StaleView(t: Ix, t': Ix, b: string, i: nat, v: Payload, w: Payload, off: nat, k: nat, f: nat)
    requires t.Wf() && t.Unique() && BehindTomb(t, b, i, v) && Wrote(t, t', b, w, off, k)
    requires t'.Wf() && t'.First(b, f) && t'.Pos(b, f) < |t'.cells|
    ensures Deleted(t', b, f).Wf() && b in Deleted(t', b, f).View() && Deleted(t', b, f).View()[b] == v
  {
    assert k == 0 && FreeAt(t, b, 0) && t' == Entered(t, b, 0, off, w);
    EnteredFirst(t, b, 0, off, w);
    t'.FirstUnique(b, f, 0);
    StaleCopyResurfaces(t, b, 0, off, w);
    UncoveredPayload(t, b, i, off, w);
  }

  lemma UncoveredPayload(t: Ix, b: string, i: nat, off: nat, w: Payload)
    requires t.Wf() && t.Unique() && FreeAt(t, b, 0) && off > DIRTY1 && off % 2 == 0 && off !in t.recs && t.Holds(b, i)
    requires var u := Deleted(Entered(t, b, 0, off, w), b, 0); u.Wf() && b in u.View()
    ensures Deleted(Entered(t, b, 0, off, w), b, 0).View()[b] == t.recs[t.cells[i]].payload
  {
    var u := Deleted(Entered(t, b, 0, off, w), b, 0);
    hide Ix.Wf, Ix.View, Ix.Unique, FreeAt, Entered, Deleted, Ix.Pos;
    u.ViewHas(b);
    var f := u.FirstOf(b);
    assert u.Holds(b, u.Pos(b, f));
    u.ViewAt(b, f);
    UncoveredCell(t, b, off, w, u.Pos(b, f));
    SameHolder(t, b, i, u.Pos(b, f));
  }

  /** The cells where the key is left are those from before, with their records. */
  lemma UncoveredCell(t: Ix, b: string, off: nat, w: Payload, j: nat)
    requires t.Wf() && FreeAt(t, b, 0) && off > DIRTY1 && off % 2 == 0 && off !in t.recs
    requires Deleted(Entered(t, b, 0, off, w), b, 0).Holds(b, j)
    ensures var u := Deleted(Entered(t, b, 0, off, w), b, 0);
            t.Holds(b, j) && u.cells[j] == t.cells[j] && u.recs[u.cells[j]] == t.recs[t.cells[j]]
  {
  }

  lemma SameHolder(t: Ix, b: string, i: nat, j: nat)
    requires t.Unique() && t.Holds(b, i) && t.Holds(b, j)
    ensures i == j
  {
  }

  /** A key is entered into an empty table and goes to its first slot. */
  method EnterFirst(h: Nht, a: string, x: Payload) returns (r: Ptr)
    requires h.Valid() && h.NoneDeleted() && !h.rdonly && h.geo.mapXend % 2 == 0 && h.View() == map[] && |h.cells| == 0
    requires h.nentries == 0
    requires h.Fits(a)
    modifies h
    ensures h.Valid() && h.NoneDeleted() && h.View() == map[a := x] && |h.cells| == HT_GROWSZ && h.nentries <= 1
    ensures r != Null && h.Tbl().Holds(a, h.Tbl().Pos(a, 0))
  {
    hide Ix.Wf, Ix.View, Ix.Unique, Ix.Holds, Wrote, Count;
    ghost var t, k;
    r, t, k := h.Enter(a, x);
    EmptyIsFree(t, h.Tbl(), a, x, r.offs, k);
  }

  /** The second key has the same first slot; then the first one is deleted. */
  method DisplaceAndDelete(h: Nht, a: string, b: string, x: Payload, y: Payload)
    returns (r: Ptr, d: int, ghost i: nat)
    requires h.Valid() && h.NoneDeleted() && !h.rdonly && h.View() == map[a := x] && |h.cells| == HT_GROWSZ
    requires h.nentries <= 1 && h.Fits(b) && a != b && h.geo.mapXend % 2 == 0
    requires h.Tbl().Holds(a, h.Tbl().Pos(a, 0)) && h.Tbl().Pos(a, 0) == h.Tbl().Pos(b, 0)
    modifies h
    ensures h.Valid() && h.View() == map[b := y] && |h.cells| == HT_GROWSZ && h.nentries <= 2
    ensures r != Null && d == 0 && h.Tbl().Unique() && BehindTomb(h.Tbl(), b, i, y)
  {
    hide Ix.Wf, Ix.View, Ix.Unique, Ix.Holds, Ix.First, Count, BehindTomb, Displaced, Deleted, Wrote, SecondCopy,
         AgreeBut;
    ghost var t, k, f;
    r, t, k := h.Enter(b, y);
    WroteSize(t, h.Tbl(), b, y, r.offs, k);
    SamePositions(t, h.Tbl());
    Displaces(t, h.Tbl(), a, b, y, r.offs, k);
    h.LiveAllUsed();
    i := h.Tbl().Pos(b, k);
    t := h.Tbl();
    d, f := h.Delete(a);
    LeavesTomb(t, a, b, i, y, f);
    assert map[a := x][b := y] - {a} == map[b := y];
  }

  /** The key is entered again and deleted: its old record is still there. */
  method EnterAndDelete(h: Nht, b: string, y: Payload, z: Payload, ghost i: nat) returns (r: Ptr, d: int)
    requires h.Valid() && !h.rdonly && h.View() == map[b := y] && |h.cells| == HT_GROWSZ && h.nentries <= 2
    requires h.Tbl().Unique() && BehindTomb(h.Tbl(), b, i, y) && h.Fits(b) && h.geo.mapXend % 2 == 0
    modifies h
    ensures h.Valid() && h.View() == map[b := y] && r != Null && d == 0
  {
    hide Ix.Wf, Ix.View, Ix.Unique, Ix.Holds, Ix.First, Count, BehindTomb, Wrote, Deleted, SecondCopy;
    ghost var t, k, t', f;
    r, t, k := h.Enter(b, z);
    t' := h.Tbl();
    d, f := h.Delete(b);
    StaleView(t, t', b, i, y, z, r.offs, k, f);
    AgreeButIsUpdate(map[b := z], h.View(), b, y);
  }

  /** Two keys with the same first slot: a is entered, b is entered and displaced, a is
      deleted, b is entered again, into the tombstone, and b is deleted. All five calls
      succeed, and the table still has b, with the value from before. */
  method StaleCopy(cs: Hash, size: nat, g: Nvmt.Geometry, a: string, b: string, x: Payload, y: Payload, z: Payload)
    returns (h: Nht, r1: Ptr, r2: Ptr, d1: int, r3: Ptr, d2: int)
    requires g.Valid() && g.Even() && g.alignment == 4 && g.mapXend == 0
    requires a != b && Nsxhash(cs, HT_GROWSZ, a, 0) == Nsxhash(cs, HT_GROWSZ, b, 0)
    requires size + |a| + 1 <= g.memNmemb && size + |b| + 1 <= g.memNmemb
    ensures r1 != Null && r2 != Null && d1 == 0 && r3 != Null && d2 == 0
    ensures fresh(h) && h.Valid() && h.View() == map[b := y]
  {
    hide Ix.Wf, Ix.View, Ix.Unique, Ix.Holds, Ix.First, Count, BehindTomb, Nsxhash;
    h := new Nht(cs, size, g);
    r1 := EnterFirst(h, a, x);
    ghost var i;
    r2, d1, i := DisplaceAndDelete(h, a, b, x, y);
    r3, d2 := EnterAndDelete(h, b, y, z, i);
  }

  function Repeated(n: nat): (key: string)
    ensures |key| == n
  {
    seq(n, _ => 'a')
  }

  /** Whatever the hash, some two keys of at most HT_GROWSZ characters have the same first
      slot in the smallest table. */
  lemma EveryHashCollides(cs: Hash) returns (a: string, b: string)
    ensures a != b && |a| <= HT_GROWSZ && |b| <= HT_GROWSZ
    ensures Nsxhash(cs, HT_GROWSZ, a, 0) == Nsxhash(cs, HT_GROWSZ, b, 0)
  {
    hide Nsxhash;
    FirstSlots(cs);
    var i, j := Pigeonhole((n: nat) => Nsxhash(cs, HT_GROWSZ, Repeated(n), 0), HT_GROWSZ);
    a, b := Repeated(i), Repeated(j);
  }

  lemma FirstSlots(cs: Hash)
    ensures forall n: nat :: Nsxhash(cs, HT_GROWSZ, Repeated(n), 0) < HT_GROWSZ
  {
  }

  // ------------------------------------------------------------------ runs

  datatype Op = PutOp(key: string, payload: Payload) | GetOp(key: string)

  /** What an operation answers on the map m. */
  function Answer(m: map<string, Payload>, op: Op): Option<Payload> {
    if op.GetOp? && op.key in m then Some(m[op.key]) else None
  }

  /** The map after a run: the last write of each key wins. */
  function After(m: map<string, Payload>, ops: seq<Op>): map<string, Payload> {
    if |ops| == 0 then m
    else
      var m' := After(m, ops[..|ops| - 1]);
      var op := ops[|ops| - 1];
      if op.PutOp? then m'[op.key := op.payload] else m'
  }

  /** What a finite map answers to each operation of a run. */
  function Answers(m: map<string, Payload>, ops: seq<Op>): (out: seq<Option<Payload>>)
    ensures |out| == |ops|
  {
    if |ops| == 0 then []
    else
      var earlier := ops[..|ops| - 1];
      Answers(m, earlier) + [Answer(After(m, earlier), ops[|ops| - 1])]
  }

  method Apply(h: Nht, op: Op) returns (r: Option<Payload>)
    requires h.Valid() && h.NoneDeleted() && !h.rdonly && h.geo.mapXend % 2 == 0
    requires h.Fits(op.key) && h.nentries <= 0xC000_0000
    modifies h
    ensures h.Valid() && h.NoneDeleted()
    ensures h.nentries <= old(h.nentries) + 1
    ensures h.View() == After(old(h.View()), [op])
    ensures r == Answer(old(h.View()), op)
  {
    hide Ix.Wf, Ix.Unique, Ix.View, Count, Wrote, Grown;
    assert [op][..0] == [];
    match op {
      case PutOp(key, payload) =>
        var _, _, _ := h.Enter(key, payload);
        r := None;
      case GetOp(key) =>
        r := h.Retrieve(key);
    }
  }

  lemma {:induction false} AfterStep(m: map<string, Payload>, ops: seq<Op>, n: nat)
    requires n < |ops|
    ensures Answers(m, ops[..n]) + [Answer(After(m, ops[..n]), ops[n])] == Answers(m, ops[..n + 1])
    ensures After(After(m, ops[..n]), [ops[n]]) == After(m, ops[..n + 1])
  {
    assert ops[..n + 1][..n] == ops[..n];
    assert [ops[n]][..0] == [];
  }

  /** Any run of nht_enter and nht_retrieve answers as a finite map does. */
  method Run(h: Nht, ops: seq<Op>) returns (out: seq<Option<Payload>>)
    requires h.Valid() && h.NoneDeleted() && !h.rdonly && h.geo.mapXend % 2 == 0
    requires forall i :: 0 <= i < |ops| ==> h.Fits(ops[i].key)
    requires h.nentries + |ops| <= 0xC000_0000
    modifies h
    ensures h.Valid() && h.NoneDeleted() && h.View() == After(old(h.View()), ops)
    ensures out == Answers(old(h.View()), ops)
  {
    out := [];
    ghost var m := h.View();
    for n := 0 to |ops|
      invariant h.Valid() && h.NoneDeleted()
      invariant h.nentries <= old(h.nentries) + n
      invariant h.View() == After(m, ops[..n])
      invariant out == Answers(m, ops[..n])
    {
      var r := Apply(h, ops[n]);
      AfterStep(m, ops, n);
      out := out + [r];
    }
    assert ops[..|ops|] == ops;
  }

  // ------------------------------------------------------------------ runs with deletions

  datatype Step = Write(entry: string, payload: Payload) | Read(entry: string) | Erase(entry: string)

  /** What a step makes of the map of a table from which nothing was deleted, as long as it
      deletes nothing: a write goes through if its record fits or the key is there. */
  ghost function StepMap(h: Nht, m: map<string, Payload>, step: Step): map<string, Payload> {
    if step.Write? && !h.rdonly && (h.Fits(step.entry) || step.entry in m) then m[step.entry := step.payload] else m
  }

  ghost function MapAfter(h: Nht, m: map<string, Payload>, steps: seq<Step>): map<string, Payload> {
    if |steps| == 0 then m else StepMap(h, MapAfter(h, m, steps[..|steps| - 1]), steps[|steps| - 1])
  }

  /** Step i erases a key that the steps before it have left in the map. */
  ghost predicate Hit(h: Nht, m: map<string, Payload>, steps: seq<Step>, i: nat)
    requires i < |steps|
  {
    steps[i].Erase? && !h.rdonly && steps[i].entry in MapAfter(h, m, steps[..i])
  }

  ghost predicate AnyHit(h: Nht, m: map<string, Payload>, steps: seq<Step>, n: nat)
    requires n <= |steps|
  {
    exists i :: 0 <= i < n && Hit(h, m, steps, i)
  }

  /** What a step does to the map of any table. */
  ghost predicate Stepped(h: Nht, m: map<string, Payload>, m': map<string, Payload>, step: Step, deleted: bool) {
    match step
    case Write(key, payload) => !deleted && (m' == m[key := payload] || (m' == m && (h.rdonly || !h.Fits(key))))
    case Read(_) => !deleted && m' == m
    case Erase(key) => (deleted <==> !h.rdonly && key in m) && if deleted then AgreeBut(m, m', key) else m' == m
  }

  function Trues(s: seq<bool>): nat {
    if |s| == 0 then 0 else Trues(s[..|s| - 1]) + if s[|s| - 1] then 1 else 0
  }

  /** One step, which does not need a growth if something has been deleted. */
  method Perform(h: Nht, step: Step) returns (deleted: bool)
    requires h.Valid() && h.nentries <= 0xC000_0000 && h.geo.mapXend % 2 == 0
    requires step.Write? && !h.rdonly && h.threshold <= h.nentries ==> h.NoneDeleted()
    modifies h
    ensures h.Valid() && h.nentries <= old(h.nentries) + 1
    ensures Stepped(h, old(h.View()), h.View(), step, deleted)
    ensures old(h.NoneDeleted()) && !deleted ==> h.View() == StepMap(h, old(h.View()), step)
    ensures h.nentries - Count(h.cells, IsLive) == old(h.nentries - Count(h.cells, IsLive)) + if deleted then 1 else 0
  {
    hide Ix.Wf, Ix.Unique, Ix.View, Ix.First, Count, Wrote, Deleted, SecondCopy, AgreeBut, Grown;
    deleted := false;
    match step {
      case Write(key, payload) =>
        var _, _, _ := h.Enter(key, payload);
      case Read(key) =>
        var _ := h.Retrieve(key);
      case Erase(key) =>
        var r, _ := h.Delete(key);
        deleted := r == 0;
    }
  }

  /** The maps before and after each step of a run. */
  ghost predicate Trace(h: Nht, steps: seq<Step>, views: seq<map<string, Payload>>, deleted: seq<bool>) {
    && |views| == |deleted| + 1 && |deleted| <= |steps|
    && forall i :: 0 <= i < |deleted| ==> Stepped(h, views[i], views[i + 1], steps[i], deleted[i])
  }

  lemma TraceStep(h: Nht, steps: seq<Step>, views: seq<map<string, Payload>>, deleted: seq<bool>,
                  m: map<string, Payload>, d: bool)
    requires Trace(h, steps, views, deleted) && |deleted| < |steps|
    requires Stepped(h, views[|deleted|], m, steps[|deleted|], d)
    ensures Trace(h, steps, views + [m], deleted + [d])
  {
    hide Stepped;
    var vs, ds := views + [m], deleted + [d];
    forall i | 0 <= i < |ds|
      ensures Stepped(h, vs[i], vs[i + 1], steps[i], ds[i])
    {
      if i < |deleted| {
        assert Stepped(h, views[i], views[i + 1], steps[i], deleted[i]);
      }
    }
  }

  /** One step more. */
  lemma HitStep(h: Nht, m: map<string, Payload>, steps: seq<Step>, n: nat)
    requires n < |steps|
    ensures AnyHit(h, m, steps, n + 1) <==> AnyHit(h, m, steps, n) || Hit(h, m, steps, n)
    ensures MapAfter(h, m, steps[..n + 1]) == StepMap(h, MapAfter(h, m, steps[..n]), steps[n])
  {
    assert steps[..n + 1][..n] == steps[..n];
  }

  /** The state of a run: nothing was deleted iff no step hit a key, and then the table is the
      fold of the steps. */
  ghost predicate Following(h: Nht, m: map<string, Payload>, steps: seq<Step>, n: nat)
    requires h.Valid() && n <= |steps|
    reads h
  {
    && (h.NoneDeleted() <==> !AnyHit(h, m, steps, n))
    && (h.NoneDeleted() ==> h.View() == MapAfter(h, m, steps[..n]))
  }

  /** Any run, up to the first growth at which the assertion of ht_extend fails. That is the
      first growth after an erase of a key that was there, and never comes without one. */
  method RunWithDeletions(h: Nht, steps: seq<Step>)
    returns (n: nat, deleted: seq<bool>, ghost views: seq<map<string, Payload>>)
    requires h.Valid() && h.NoneDeleted() && h.nentries + |steps| <= 0xC000_0000 && h.geo.mapXend % 2 == 0
    modifies h
    ensures h.Valid() && n == |deleted| && Trace(h, steps, views, deleted)
    ensures views[0] == old(h.View()) && views[n] == h.View()
    ensures h.nentries == Count(h.cells, IsLive) + Trues(deleted)
    ensures h.NoneDeleted() <==> !AnyHit(h, old(h.View()), steps, n)
    ensures h.NoneDeleted() ==> n == |steps| && h.View() == MapAfter(h, old(h.View()), steps)
    ensures n < |steps| ==> steps[n].Write? && !h.rdonly && h.threshold <= h.nentries
  {
    hide Ix.Wf, Ix.Unique, Ix.View, Count, Nht.Valid, Stepped, StepMap, AnyHit;
    ghost var m := h.View();
    n, deleted, views := 0, [], [m];
    var some := false;
    NoHit(h, m, steps);
    while n < |steps|
      invariant 0 <= n <= |steps| && h.Valid() && n == |deleted| && h.nentries <= old(h.nentries) + n
      invariant Trace(h, steps, views, deleted) && views[0] == m && views[n] == h.View()
      invariant h.nentries == Count(h.cells, IsLive) + Trues(deleted) && (some <==> Trues(deleted) > 0)
      invariant Following(h, m, steps, n)
    {
      hide Trace, MapAfter;
      if steps[n].Write? && !h.rdonly && h.threshold <= h.nentries && some {
        return;
      }
      var d := RunStep(h, steps, n, m);
      TraceStep(h, steps, views, deleted, h.View(), d);
      assert (deleted + [d])[..n] == deleted;
      deleted, views := deleted + [d], views + [h.View()];
      some := some || d;
      n := n + 1;
    }
    assert steps[..n] == steps;
  }

  lemma NoHit(h: Nht, m: map<string, Payload>, steps: seq<Step>)
    ensures !AnyHit(h, m, steps, 0) && MapAfter(h, m, steps[..0]) == m
  {
  }

  method RunStep(h: Nht, steps: seq<Step>, n: nat, ghost m: map<string, Payload>) returns (d: bool)
    requires h.Valid() && n < |steps| && h.nentries <= 0xC000_0000 && h.geo.mapXend % 2 == 0
    requires steps[n].Write? && !h.rdonly && h.threshold <= h.nentries ==> h.NoneDeleted()
    requires Count(h.cells, IsLive) <= h.nentries && Following(h, m, steps, n)
    modifies h
    ensures h.Valid() && h.nentries <= old(h.nentries) + 1
    ensures Stepped(h, old(h.View()), h.View(), steps[n], d)
    ensures h.nentries - Count(h.cells, IsLive) == old(h.nentries - Count(h.cells, IsLive)) + if d then 1 else 0
    ensures Following(h, m, steps, n + 1)
  {
    hide Ix.Wf, Ix.Unique, Ix.View, Count, Nht.Valid, StepMap, MapAfter, AnyHit, AgreeBut;
    HitStep(h, m, steps, n);
    d := Perform(h, steps[n]);
  }
}
