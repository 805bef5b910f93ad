/** marshal.c: objects that point to each other are packed into one buffer with a table of the
    pointers, and unpacked elsewhere with the pointers set to the copies. */
module Marshal {
  import opened Common
  import Nvmt

  type Byte = x: int | 0 <= x < 256

  /** The size of a pointer. */
  const PTR: nat := 8

  function Pow256(n: nat): nat {
    if n == 0 then 1 else 256 * Pow256(n - 1)
  }

  /** The bytes of a pointer, the lowest first. */
  function Encode(a: nat, n: nat): (s: seq<Byte>)
    ensures |s| == n
  {
    if n == 0 then [] else [a % 256] + Encode(a / 256, n - 1)
  }

  function Decode(s: seq<Byte>): nat {
    if |s| == 0 then 0 else s[0] + 256 * Decode(s[1..])
  }

  lemma {:induction false} DecodeEncode(a: nat, n: nat)
    requires a < Pow256(n)
    ensures Decode(Encode(a, n)) == a
  {
    if n > 0 {
      DecodeEncode(a / 256, n - 1);
      assert Encode(a, n)[1..] == Encode(a / 256, n - 1);
    }
  }

  /** The memory of the sender. */
  type Memory = nat -> Byte

  function Bytes(mem: Memory, a: nat, n: nat): (s: seq<Byte>)
    ensures |s| == n && forall k :: 0 <= k < n ==> s[k] == mem(a + k)
  {
    seq(n, k requires 0 <= k < n => mem(a + k))
  }

  /** *(void **)a. */
  function Load(mem: Memory, a: nat): nat {
    Decode(Bytes(mem, a, PTR))
  }

  /** struct relent_t and struct basemem_t. */
  datatype Relent = Relent(offset: nat, address: nat)
  datatype Base = Base(ptr: nat, offset: nat)

  /** mar_append of what the pointer at field, a member of the object at base, points to. */
  datatype Call = Call(base: nat, field: nat, size: nat)

  // ------------------------------------------------------------------ the packed objects

  /** The copies are aligned, inside the buffer, and one behind the other. */
  ghost predicate Laid(bases: seq<Base>, sizes: seq<nat>, objsize: nat) {
    && |bases| == |sizes| && objsize % 4 == 0
    && (forall i :: 0 <= i < |bases| ==> bases[i].offset % 4 == 0 && bases[i].offset + sizes[i] <= objsize)
    && (forall i, j :: 0 <= i < j < |bases| ==> bases[i].offset + sizes[i] <= bases[j].offset)
  }

  ghost predicate Copied(mem: Memory, bases: seq<Base>, sizes: seq<nat>, obj: seq<Byte>)
    requires Laid(bases, sizes, |obj|)
  {
    forall i, k :: 0 <= i < |bases| && 0 <= k < sizes[i] ==> CopiedAt(mem, bases, obj, i, k)
  }

  ghost predicate CopiedAt(mem: Memory, bases: seq<Base>, obj: seq<Byte>, i: nat, k: nat)
    requires i < |bases| && bases[i].offset + k < |obj|
  {
    obj[bases[i].offset + k] == mem(bases[i].ptr + k)
  }

  /** The entry the lookup of base finds. */
  ghost predicate IsFirst(bases: seq<Base>, base: nat, f: nat) {
    f < |bases| && bases[f].ptr == base && forall x :: 0 <= x < f ==> bases[x].ptr != base
  }

  /** Two calls are for different members. */
  ghost predicate Apart(c: Call, e: Call) {
    c.field + PTR <= e.field || e.field + PTR <= c.field
  }

  /** Object m + 1 was appended by call m, and the relocation entry says where its pointer is. */
  ghost predicate Recorded(mem: Memory, bases: seq<Base>, sizes: seq<nat>, calls: seq<Call>, relocs: seq<Relent>,
                           m: nat)
    requires m < |calls| == |relocs| && |bases| == |sizes| == |calls| + 1
  {
    && bases[m + 1].ptr == Load(mem, calls[m].field) && sizes[m + 1] == calls[m].size
    && relocs[m].address == bases[m + 1].offset
    && exists f :: IsFirst(bases, calls[m].base, f) && At(bases, sizes, calls[m], relocs[m], f)
  }

  /** The member is inside object f. */
  ghost predicate Within(c: Call, size: nat) {
    c.base <= c.field && c.field + PTR <= c.base + size
  }

  ghost predicate At(bases: seq<Base>, sizes: seq<nat>, c: Call, e: Relent, f: nat)
    requires f < |bases| == |sizes|
  {
    Within(c, sizes[f]) && e.offset == bases[f].offset + (c.field - c.base)
  }

  ghost predicate AllRecorded(mem: Memory, bases: seq<Base>, sizes: seq<nat>, calls: seq<Call>, relocs: seq<Relent>) {
    && |calls| == |relocs| && |bases| == |sizes| == |calls| + 1
    && (forall m :: 0 <= m < |calls| ==> Recorded(mem, bases, sizes, calls, relocs, m))
    && (forall m, n :: 0 <= m < n < |calls| ==> calls[m].base == calls[n].base ==> Apart(calls[m], calls[n]))
  }

  /** mar_t between calls. */
  ghost predicate Packs(mem: Memory, root: nat, bases: seq<Base>, sizes: seq<nat>, calls: seq<Call>,
                        relocs: seq<Relent>, obj: seq<Byte>) {
    && Laid(bases, sizes, |obj|) && Copied(mem, bases, sizes, obj)
    && AllRecorded(mem, bases, sizes, calls, relocs)
    && bases[0] == Base(root, 0)
  }

  /** A first match stays the first when objects are added. */
  lemma FirstStays(bases: seq<Base>, b: Base, base: nat, f: nat)
    requires IsFirst(bases, base, f)
    ensures IsFirst(bases + [b], base, f)
  {
  }

  lemma FirstUnique(bases: seq<Base>, base: nat, f: nat, g: nat)
    requires IsFirst(bases, base, f) && IsFirst(bases, base, g)
    ensures f == g
  {
  }

  /** The copy of one more object. */
  lemma LaidStep(mem: Memory, bases: seq<Base>, sizes: seq<nat>, obj: seq<Byte>, b: Base, size: nat, obj': seq<Byte>)
    requires Laid(bases, sizes, |obj|) && Copied(mem, bases, sizes, obj)
    requires b.offset == |obj| && |obj'| >= |obj| + size && |obj'| % 4 == 0
    requires obj'[..|obj| + size] == obj + Bytes(mem, b.ptr, size)
    ensures Laid(bases + [b], sizes + [size], |obj'|) && Copied(mem, bases + [b], sizes + [size], obj')
  {
    var bases', sizes' := bases + [b], sizes + [size];
    forall i, k | 0 <= i < |bases'| && 0 <= k < sizes'[i]
      ensures CopiedAt(mem, bases', obj', i, k)
    {
      assert obj'[bases'[i].offset + k] == obj'[..|obj| + size][bases'[i].offset + k];
      assert i < |bases| ==> CopiedAt(mem, bases, obj, i, k);
    }
  }

  lemma NothingLaid(mem: Memory)
    ensures Laid([], [], 0) && Copied(mem, [], [], [])
  {
  }

  lemma LaidSize(bases: seq<Base>, sizes: seq<nat>, objsize: nat)
    ensures Laid(bases, sizes, objsize) ==> objsize % 4 == 0 && |bases| == |sizes|
  {
  }

  lemma NothingRecorded(mem: Memory, bases: seq<Base>, sizes: seq<nat>)
    requires |bases| == |sizes| == 1
    ensures AllRecorded(mem, bases, sizes, [], [])
  {
  }

  lemma RecordedStep(mem: Memory, bases: seq<Base>, sizes: seq<nat>, calls: seq<Call>, relocs: seq<Relent>,
                     b: Base, c: Call, e: Relent, f: nat)
    requires AllRecorded(mem, bases, sizes, calls, relocs)
    requires b.ptr == Load(mem, c.field) && e.address == b.offset
    requires IsFirst(bases + [b], c.base, f) && At(bases + [b], sizes + [c.size], c, e, f)
    requires forall m :: 0 <= m < |calls| && calls[m].base == c.base ==> Apart(calls[m], c)
    ensures AllRecorded(mem, bases + [b], sizes + [c.size], calls + [c], relocs + [e])
  {
    var bases', sizes', calls', relocs' := bases + [b], sizes + [c.size], calls + [c], relocs + [e];
    forall m | 0 <= m < |calls'|
      ensures Recorded(mem, bases', sizes', calls', relocs', m)
    {
      if m < |calls| {
        assert Recorded(mem, bases, sizes, calls, relocs, m);
        var g: nat :| IsFirst(bases, calls[m].base, g) && At(bases, sizes, calls[m], relocs[m], g);
        FirstStays(bases, b, calls[m].base, g);
        assert At(bases', sizes', calls'[m], relocs'[m], g);
      } else {
        assert IsFirst(bases', c.base, f) && At(bases', sizes', c, e, f);
      }
    }
  }

  /** What the size of an object is padded to. */
  function Padded(size: nat): (r: nat)
    ensures size <= r < size + 4 && r % 4 == 0
  {
    if size % 4 != 0 then size + (4 - size % 4) else size
  }

  lemma PaddingFits(used: nat, size: nat, room: nat)
    requires used % 4 == 0 && room % 4 == 0 && used + size <= room
    ensures used + Padded(size) <= room && (used + Padded(size)) % 4 == 0
  {
  }

  lemma RoundUpFits(n: nat)
    ensures RoundUp(n, 1024) % 4 == 0
  {
    var q, r := n / 1024, n % 1024;
    Nvmt.DivMod(n, 1024);
    if r == 0 {
      Nvmt.DivModOf(256 * q, 0, 4);
    } else {
      Nvmt.DivModOf(256 * q + 256, 0, 4);
    }
  }

  /** A packet: its header, the objects and the relocation table. */
  datatype Packet = Packet(objsize: nat, nrelent: nat, body: seq<Byte>, relocs: seq<Relent>)

  /** struct mar_t. */
  class Mar {
    const mem: Memory
    var obj: array<Byte>
    var objsize: nat
    var bases: seq<Base>
    var relocs: seq<Relent>
    ghost var root: nat
    ghost var sizes: seq<nat>
    ghost var calls: seq<Call>

    ghost predicate Valid()
      reads this, obj
    {
      && objsize <= obj.Length && obj.Length % 4 == 0 && (objsize == 0 <==> bases == [])
      && (bases == [] ==> relocs == [] && sizes == [] && calls == [])
      && (bases != [] ==> Packs(mem, root, bases, sizes, calls, relocs, obj[..objsize]))
    }

    constructor (mem: Memory)
      ensures Valid() && bases == [] && this.mem == mem && fresh(obj)
    {
      this.mem := mem;
      obj := new Byte[0];
      objsize, bases, relocs := 0, [], [];
      root, sizes, calls := 0, [], [];
    }

    /** The first part of mar_append_p: the object at target is copied behind the others. */
    method CopyIn(target: nat, size: nat)
      requires objsize <= obj.Length && obj.Length % 4 == 0 && objsize % 4 == 0
      modifies this`obj, this`objsize, obj
      ensures objsize == old(objsize) + Padded(size) <= obj.Length && obj.Length % 4 == 0
      ensures obj[..old(objsize) + size] == old(obj[..objsize]) + Bytes(mem, target, size)
      ensures obj == old(obj) || fresh(obj)
      ensures objsize % 4 == 0
    {
      hide Padded, RoundUp;
      ghost var had := obj[..objsize];
      if obj.Length < objsize + size {
        RoundUpFits(objsize + size);
        var larger := new Byte[RoundUp(objsize + size, 1024)];
        forall k | 0 <= k < objsize {
          larger[k] := obj[k];
        }
        assert larger[..objsize] == had;
        obj := larger;
      }
      forall k | 0 <= k < size {
        obj[objsize + k] := mem(target + k);
      }
      assert obj[..objsize] == had;
      assert obj[objsize..objsize + size] == Bytes(mem, target, size);
      assert obj[..objsize + size] == obj[..objsize] + obj[objsize..objsize + size];
      PaddingFits(objsize, size, obj.Length);
      objsize := objsize + Padded(size);
    }

    /** The member is inside the object found for base, and no call was for it before. */
    ghost predicate NewMember(c: Call)
      reads this
      requires |bases| == |sizes|
    {
      && (forall f: nat :: IsFirst(bases + [Base(Load(mem, c.field), objsize)], c.base, f) ==>
            Within(c, (sizes + [c.size])[f]))
      && (forall m :: 0 <= m < |calls| && calls[m].base == c.base ==> Apart(calls[m], c))
    }

    /** mar_append_p. The first object, which no base is given for, must not be empty. */
    method AppendP(base: Option<nat>, field: nat, target: nat, size: nat) returns (ok: bool)
      requires Valid() && (base.None? <==> objsize == 0) && (objsize == 0 ==> size > 0)
      requires base.Some? ==> target == Load(mem, field) && (Valid() ==> NewMember(Call(base.value, field, size)))
      modifies this, obj
      ensures bases == old(bases) + [Base(target, old(objsize))] && sizes == old(sizes) + [size]
      ensures objsize == old(objsize) + Padded(size)
      ensures ok <==> base.None? || exists f :: IsFirst(bases, base.value, f)
      ensures ok ==> Valid() && (obj == old(obj) || fresh(obj))
      ensures base.None? ==> root == target && calls == []
      ensures base.Some? ==> root == old(root) && calls == old(calls) + [Call(base.value, field, size)]
    {
      hide Laid, Copied, AllRecorded, IsFirst, At, Recorded, Apart, Bytes, Load, Padded;
      ghost var had, bases0, sizes0, calls0, relocs0 := obj[..objsize], bases, sizes, calls, relocs;
      var n := objsize;
      NothingLaid(mem);
      LaidSize(bases, sizes, objsize);
      CopyIn(target, size);
      bases := bases + [Base(target, n)];
      sizes := sizes + [size];
      LaidStep(mem, bases0, sizes0, had, Base(target, n), size, obj[..objsize]);
      if base.None? {
        root := target;
        NothingRecorded(mem, bases, sizes);
        return true;
      }
      ghost var c := Call(base.value, field, size);
      calls := calls + [c];
      var i := FindBase(bases, base.value);
      if i == |bases| {
        return false;
      }
      var e := Relent(bases[i].offset + (field - base.value), n);
      relocs := relocs + [e];
      RecordedStep(mem, bases0, sizes0, calls0, relocs0, Base(target, n), c, e, i);
      ok := true;
    }

    /** mar_finish: NULL if nothing was appended. */
    method Finish() returns (p: Option<Packet>)
      requires Valid()
      ensures p.None? <==> bases == []
      ensures p.Some? ==> && p.value.objsize == |p.value.body| == objsize && p.value.nrelent == |p.value.relocs|
                          && Packs(mem, root, bases, sizes, calls, p.value.relocs, p.value.body)
    {
      if objsize == 0 {
        return None;
      }
      assert |bases| == |relocs| + 1;
      p := Some(Packet(objsize, |relocs|, obj[..objsize], relocs));
    }
  }

  /** The search of the base table. */
  method FindBase(bases: seq<Base>, base: nat) returns (i: nat)
    ensures i <= |bases| && (i < |bases| ==> IsFirst(bases, base, i))
    ensures i == |bases| ==> forall f: nat :: !IsFirst(bases, base, f)
  {
    i := 0;
    while i < |bases| && bases[i].ptr != base
      invariant i <= |bases| && forall x :: 0 <= x < i ==> bases[x].ptr != base
    {
      i := i + 1;
    }
  }

  // ------------------------------------------------------------------ unpacking

  /** The pointers of the relocation table are inside the buffer and do not overlap. */
  ghost predicate RelocsOk(relocs: seq<Relent>, n: nat) {
    && (forall i :: 0 <= i < |relocs| ==> relocs[i].offset + PTR <= n)
    && (forall i, j :: 0 <= i < j < |relocs| ==> Clear(relocs[i].offset, relocs[j].offset))
  }

  ghost predicate Clear(a: nat, b: nat) {
    a + PTR <= b || b + PTR <= a
  }

  ghost predicate Under(e: Relent, p: nat) {
    e.offset <= p < e.offset + PTR
  }

  /** The pointers are set for objects at address q, and nothing else is changed. */
  ghost predicate Patched(relocs: seq<Relent>, q: nat, before: seq<Byte>, after: seq<Byte>)
    requires RelocsOk(relocs, |before|)
  {
    && |after| == |before|
    && (forall i :: 0 <= i < |relocs| ==> IsSet(relocs[i], q, after))
    && (forall p :: 0 <= p < |after| && (forall i :: 0 <= i < |relocs| ==> !Under(relocs[i], p)) ==>
          after[p] == before[p])
  }

  /** unmar, for a packet whose objects are at address q: the pointers are set in place. */
  method Unmar(obj: array<Byte>, relocs: seq<Relent>, q: nat)
    requires RelocsOk(relocs, obj.Length)
    modifies obj
    ensures Patched(relocs, q, old(obj[..]), obj[..])
  {
    ghost var before := obj[..];
    for i := 0 to |relocs|
      invariant Patching(relocs, q, before, obj[..], i)
    {
      hide RelocsOk, Encode;
      ghost var was := obj[..];
      RelocAt(relocs, obj.Length, i);
      Store(obj, relocs[i].offset, q + relocs[i].address);
      PatchStep(relocs, q, before, was, obj[..], i);
    }
  }

  /** The first n pointers are set. */
  ghost predicate Patching(relocs: seq<Relent>, q: nat, before: seq<Byte>, now: seq<Byte>, n: nat)
    requires n <= |relocs|
  {
    && |now| == |before| && RelocsOk(relocs, |before|)
    && (forall i :: 0 <= i < n ==> IsSet(relocs[i], q, now))
    && (forall p :: 0 <= p < |now| && (forall i :: 0 <= i < n ==> !Under(relocs[i], p)) ==> now[p] == before[p])
  }

  ghost predicate IsSet(e: Relent, q: nat, s: seq<Byte>) {
    e.offset + PTR <= |s| && s[e.offset..e.offset + PTR] == Encode(q + e.address, PTR)
  }

  lemma RelocAt(relocs: seq<Relent>, n: nat, i: nat)
    requires RelocsOk(relocs, n) && i < |relocs|
    ensures relocs[i].offset + PTR <= n && forall j :: 0 <= j < i ==> Clear(relocs[j].offset, relocs[i].offset)
  {
  }

  lemma PatchStep(relocs: seq<Relent>, q: nat, before: seq<Byte>, was: seq<Byte>, now: seq<Byte>, n: nat)
    requires n < |relocs| && Patching(relocs, q, before, was, n) && |now| == |was|
    requires IsSet(relocs[n], q, now) && forall p :: 0 <= p < |now| && !Under(relocs[n], p) ==> now[p] == was[p]
    ensures Patching(relocs, q, before, now, n + 1)
  {
    hide Encode;
    RelocAt(relocs, |before|, n);
    forall i | 0 <= i < n
      ensures IsSet(relocs[i], q, now)
    {
      assert IsSet(relocs[i], q, was);
      assert now[relocs[i].offset..relocs[i].offset + PTR] == was[relocs[i].offset..relocs[i].offset + PTR];
    }
  }

  /** A pointer is stored. */
  method Store(obj: array<Byte>, at: nat, a: nat)
    requires at + PTR <= obj.Length
    modifies obj
    ensures obj[at..at + PTR] == Encode(a, PTR)
    ensures forall p :: 0 <= p < obj.Length && !(at <= p < at + PTR) ==> obj[p] == old(obj[p])
  {
    var s := Encode(a, PTR);
    forall k | 0 <= k < PTR {
      obj[at + k] := s[k];
    }
  }

  lemma RelocsFit(mem: Memory, root: nat, bases: seq<Base>, sizes: seq<nat>, calls: seq<Call>, relocs: seq<Relent>,
                  obj: seq<Byte>)
    requires Packs(mem, root, bases, sizes, calls, relocs, obj)
    ensures RelocsOk(relocs, |obj|)
  {
    forall m | 0 <= m < |relocs|
      ensures relocs[m].offset + PTR <= |obj|
    {
      assert Recorded(mem, bases, sizes, calls, relocs, m);
    }
    forall m, n | 0 <= m < n < |relocs|
      ensures Clear(relocs[m].offset, relocs[n].offset)
    {
      assert Recorded(mem, bases, sizes, calls, relocs, m) && Recorded(mem, bases, sizes, calls, relocs, n);
      var f: nat :| IsFirst(bases, calls[m].base, f) && At(bases, sizes, calls[m], relocs[m], f);
      var g: nat :| IsFirst(bases, calls[n].base, g) && At(bases, sizes, calls[n], relocs[n], g);
      if f == g {
        assert Apart(calls[m], calls[n]);
      }
    }
  }

  /** The pointer of call m, in copy i, is set. */
  ghost predicate Leads(bases: seq<Base>, c: Call, q: nat, after: seq<Byte>, i: nat, target: nat)
    requires i < |bases| && target < |bases|
  {
    var at := bases[i].offset + (c.field - c.base);
    && 0 <= at && at + PTR <= |after|
    && Decode(after[at..at + PTR]) == q + bases[target].offset
  }

  /** Byte k of copy i belongs to a pointer that is set. */
  ghost predicate IsPointer(bases: seq<Base>, calls: seq<Call>, i: nat, k: nat) {
    exists m :: 0 <= m < |calls| && IsFirst(bases, calls[m].base, i) &&
                calls[m].field <= calls[m].base + k < calls[m].field + PTR
  }

  /** What the receiver has: every recorded pointer, in the first copy of the object it is in,
      leads to the copy of what it pointed to, and every other byte is as it was sent. */
  ghost predicate Arrived(mem: Memory, bases: seq<Base>, sizes: seq<nat>, calls: seq<Call>, q: nat, after: seq<Byte>) {
    && |sizes| == |bases| == |calls| + 1 && Laid(bases, sizes, |after|)
    && (forall m, i :: 0 <= m < |calls| && 0 <= i < |bases| && IsFirst(bases, calls[m].base, i) ==>
          Leads(bases, calls[m], q, after, i, m + 1))
    && (forall i, k :: 0 <= i < |bases| && 0 <= k < sizes[i] && !IsPointer(bases, calls, i, k) ==>
          CopiedAt(mem, bases, after, i, k))
  }

  lemma PacketArrives(mem: Memory, root: nat, bases: seq<Base>, sizes: seq<nat>, calls: seq<Call>, relocs: seq<Relent>,
                      obj: seq<Byte>, q: nat, after: seq<Byte>)
    requires Packs(mem, root, bases, sizes, calls, relocs, obj) && q + |obj| < Pow256(PTR)
    requires RelocsOk(relocs, |obj|) && Patched(relocs, q, obj, after)
    ensures Arrived(mem, bases, sizes, calls, q, after)
  {
    PacksLaid(mem, root, bases, sizes, calls, relocs, obj);
    hide Packs, RelocsOk, Patched, Leads, IsPointer, IsFirst, CopiedAt, Laid;
    forall m, i | 0 <= m < |calls| && 0 <= i < |bases| && IsFirst(bases, calls[m].base, i)
      ensures Leads(bases, calls[m], q, after, i, m + 1)
    {
      PointerSet(mem, root, bases, sizes, calls, relocs, obj, q, after, m, i);
    }
    forall i, k | 0 <= i < |bases| && 0 <= k < sizes[i] && !IsPointer(bases, calls, i, k)
      ensures InRange(bases, after, i, k) && CopiedAt(mem, bases, after, i, k)
    {
      ByteKept(mem, root, bases, sizes, calls, relocs, obj, q, after, i, k);
    }
  }

  ghost predicate InRange(bases: seq<Base>, obj: seq<Byte>, i: nat, k: nat) {
    i < |bases| && bases[i].offset + k < |obj|
  }

  lemma PacksLaid(mem: Memory, root: nat, bases: seq<Base>, sizes: seq<nat>, calls: seq<Call>, relocs: seq<Relent>,
                  obj: seq<Byte>)
    requires Packs(mem, root, bases, sizes, calls, relocs, obj)
    ensures |sizes| == |bases| == |calls| + 1 && |relocs| == |calls| && Laid(bases, sizes, |obj|)
  {
  }

  /** The pointer of call m is set where it lies. */
  lemma PointerSet(mem: Memory, root: nat, bases: seq<Base>, sizes: seq<nat>, calls: seq<Call>, relocs: seq<Relent>,
                   obj: seq<Byte>, q: nat, after: seq<Byte>, m: nat, i: nat)
    requires Packs(mem, root, bases, sizes, calls, relocs, obj) && q + |obj| < Pow256(PTR)
    requires RelocsOk(relocs, |obj|) && Patched(relocs, q, obj, after)
    requires m < |calls| && i < |bases| && IsFirst(bases, calls[m].base, i)
    ensures |bases| == |calls| + 1 && Leads(bases, calls[m], q, after, i, m + 1)
  {
    assert Recorded(mem, bases, sizes, calls, relocs, m);
    var f: nat :| IsFirst(bases, calls[m].base, f) && At(bases, sizes, calls[m], relocs[m], f);
    FirstUnique(bases, calls[m].base, f, i);
    assert bases[m + 1].offset <= |obj|;
    hide Recorded, AllRecorded, Copied, Laid, IsFirst, Pow256, Encode, Decode;
    assert IsSet(relocs[m], q, after);
    DecodeEncode(q + bases[m + 1].offset, PTR);
  }

  lemma ByteKept(mem: Memory, root: nat, bases: seq<Base>, sizes: seq<nat>, calls: seq<Call>, relocs: seq<Relent>,
                 obj: seq<Byte>, q: nat, after: seq<Byte>, i: nat, k: nat)
    requires Packs(mem, root, bases, sizes, calls, relocs, obj)
    requires RelocsOk(relocs, |obj|) && Patched(relocs, q, obj, after)
    requires i < |bases| && k < sizes[i] && !IsPointer(bases, calls, i, k)
    ensures InRange(bases, after, i, k) && CopiedAt(mem, bases, after, i, k)
  {
    assert CopiedAt(mem, bases, obj, i, k);
    OtherByte(mem, root, bases, sizes, calls, relocs, obj, i, k);
    hide Recorded, AllRecorded, IsPointer, Under, Encode;
  }

  lemma OtherByte(mem: Memory, root: nat, bases: seq<Base>, sizes: seq<nat>, calls: seq<Call>, relocs: seq<Relent>,
                  obj: seq<Byte>, i: nat, k: nat)
    requires Packs(mem, root, bases, sizes, calls, relocs, obj)
    requires i < |bases| && k < sizes[i] && !IsPointer(bases, calls, i, k)
    ensures forall m :: 0 <= m < |relocs| ==> !Under(relocs[m], bases[i].offset + k)
  {
    forall m | 0 <= m < |relocs|
      ensures !Under(relocs[m], bases[i].offset + k)
    {
      assert Recorded(mem, bases, sizes, calls, relocs, m);
      var f: nat :| IsFirst(bases, calls[m].base, f) && At(bases, sizes, calls[m], relocs[m], f);
      assert f < i ==> bases[f].offset + sizes[f] <= bases[i].offset;
      assert i < f ==> bases[i].offset + sizes[i] <= bases[f].offset;
    }
  }

  /** In a tree every object has an address of its own, and every pointer leads to the copy of
      its target. */
  ghost predicate IsTree(bases: seq<Base>) {
    forall i, j :: 0 <= i < j < |bases| ==> bases[i].ptr != bases[j].ptr
  }

  lemma TreeArrives(mem: Memory, bases: seq<Base>, sizes: seq<nat>, calls: seq<Call>, q: nat, after: seq<Byte>,
                    m: nat, i: nat)
    requires Arrived(mem, bases, sizes, calls, q, after) && IsTree(bases)
    requires m < |calls| && i < |bases| && bases[i].ptr == calls[m].base
    ensures Leads(bases, calls[m], q, after, i, m + 1)
  {
    assert IsFirst(bases, calls[m].base, i);
  }

  /** A second copy of an object keeps the pointers of the sender: all its bytes are as sent. */
  lemma SharedObjectIsStale(mem: Memory, bases: seq<Base>, sizes: seq<nat>, calls: seq<Call>, q: nat, after: seq<Byte>,
                            i: nat, j: nat, k: nat)
    requires Arrived(mem, bases, sizes, calls, q, after)
    requires i < j < |bases| && bases[i].ptr == bases[j].ptr && k < sizes[j]
    ensures after[bases[j].offset + k] == mem(bases[j].ptr + k)
  {
    assert !IsPointer(bases, calls, j, k);
    assert CopiedAt(mem, bases, after, j, k);
  }

  /** The pointer of a call in any copy of its object: it leads to the copy of its target
      exactly if that is the first copy, or the sender happened to have the target at the
      very address its copy has at the receiver. */
  lemma LeadsIff(mem: Memory, bases: seq<Base>, sizes: seq<nat>, calls: seq<Call>, relocs: seq<Relent>, q: nat,
                 after: seq<Byte>, m: nat, i: nat)
    requires Arrived(mem, bases, sizes, calls, q, after) && AllRecorded(mem, bases, sizes, calls, relocs)
    requires m < |calls| && i < |bases| && bases[i].ptr == calls[m].base && Within(calls[m], sizes[i])
    ensures Leads(bases, calls[m], q, after, i, m + 1) <==>
            IsFirst(bases, calls[m].base, i) || bases[m + 1].ptr == q + bases[m + 1].offset
  {
    if !IsFirst(bases, calls[m].base, i) {
      LaterCopy(mem, bases, sizes, calls, q, after, m, i);
      assert Recorded(mem, bases, sizes, calls, relocs, m);
    }
  }

  /** In a later copy the bytes of the pointer are those of the sender. */
  lemma LaterCopy(mem: Memory, bases: seq<Base>, sizes: seq<nat>, calls: seq<Call>, q: nat, after: seq<Byte>,
                  m: nat, i: nat)
    requires Arrived(mem, bases, sizes, calls, q, after)
    requires m < |calls| && i < |bases| && bases[i].ptr == calls[m].base && Within(calls[m], sizes[i])
    requires !IsFirst(bases, calls[m].base, i)
    ensures var at := bases[i].offset + (calls[m].field - calls[m].base);
            at + PTR <= |after| && after[at..at + PTR] == Bytes(mem, calls[m].field, PTR)
  {
    var d: nat := calls[m].field - calls[m].base;
    var at := bases[i].offset + d;
    assert CopiedAt(mem, bases, after, i, d + PTR - 1) by {
      assert !IsPointer(bases, calls, i, d + PTR - 1);
    }
    var s, t := after[at..at + PTR], Bytes(mem, calls[m].field, PTR);
    forall k | 0 <= k < |s|
      ensures s[k] == t[k]
    {
      assert !IsPointer(bases, calls, i, d + k);
      assert CopiedAt(mem, bases, after, i, d + k);
    }
  }

  /** Pointer m of copy i is where it should lead. */
  ghost predicate PointerIn(bases: seq<Base>, sizes: seq<nat>, calls: seq<Call>, m: nat, i: nat) {
    && m < |calls| && i < |bases| == |sizes|
    && bases[i].ptr == calls[m].base && Within(calls[m], sizes[i])
  }

  /** All pointers in all copies lead to the copies of their targets exactly if no object with
      a recorded pointer was appended twice, but for targets that stay at their addresses. */
  lemma AllLeadIff(mem: Memory, bases: seq<Base>, sizes: seq<nat>, calls: seq<Call>, relocs: seq<Relent>, q: nat,
                   after: seq<Byte>)
    requires Arrived(mem, bases, sizes, calls, q, after) && AllRecorded(mem, bases, sizes, calls, relocs)
    ensures (forall m: nat, i: nat :: PointerIn(bases, sizes, calls, m, i) ==>
               Leads(bases, calls[m], q, after, i, m + 1)) <==>
            (forall m: nat, i: nat :: PointerIn(bases, sizes, calls, m, i) ==>
               IsFirst(bases, calls[m].base, i) || bases[m + 1].ptr == q + bases[m + 1].offset)
  {
    forall m: nat, i: nat | PointerIn(bases, sizes, calls, m, i)
      ensures Leads(bases, calls[m], q, after, i, m + 1) <==>
              IsFirst(bases, calls[m].base, i) || bases[m + 1].ptr == q + bases[m + 1].offset
    {
      LeadsIff(mem, bases, sizes, calls, relocs, q, after, m, i);
    }
  }

  /** mar_finish, the way to address q of a receiver, and unmar there. */
  method Transfer(m: Mar, q: nat) returns (obj: array<Byte>)
    requires m.Valid() && m.bases != [] && q + m.objsize < Pow256(PTR)
    ensures fresh(obj) && Arrived(m.mem, m.bases, m.sizes, m.calls, q, obj[..])
  {
    var p := m.Finish();
    var body, relocs := p.value.body, p.value.relocs;
    RelocsFit(m.mem, m.root, m.bases, m.sizes, m.calls, relocs, body);
    obj := new Byte[|body|](i requires 0 <= i < |body| => body[i]);
    assert obj[..] == body;
    Unmar(obj, relocs, q);
    PacketArrives(m.mem, m.root, m.bases, m.sizes, m.calls, relocs, body, q, obj[..]);
  }

  lemma ValidRecords(m: Mar)
    requires m.Valid() && m.bases != []
    ensures AllRecorded(m.mem, m.bases, m.sizes, m.calls, m.relocs)
  {
  }

  /** The object at root has two members that point to b, and b points to c. Both members are
      followed, so b is appended twice, and then its pointer. */
  method AppendShared(mem: Memory, root: nat, b: nat, c: nat) returns (m: Mar)
    requires Load(mem, root) == b && Load(mem, root + 8) == b && Load(mem, b) == c && root != b
    ensures fresh(m) && fresh(m.obj) && m.Valid() && m.mem == mem && m.objsize == 40
    ensures m.bases == [Base(root, 0), Base(b, 16), Base(b, 24), Base(c, 32)] && m.sizes == [16, 8, 8, 8]
    ensures m.calls == [Call(root, root, 8), Call(root, root + 8, 8), Call(b, b, 8)]
  {
    hide Load, Mar.Valid, Packs;
    m := new Mar(mem);
    NothingYet(m);
    var ok := m.AppendP(None, 0, root, 16);
    ok := m.AppendP(Some(root), root, b, 8);
    assert IsFirst(m.bases, root, 0);
    ok := m.AppendP(Some(root), root + 8, b, 8);
    assert IsFirst(m.bases, root, 0);
    ok := m.AppendP(Some(b), b, c, 8);
    assert IsFirst(m.bases, b, 1);
  }

  lemma NothingYet(m: Mar)
    requires m.Valid() && m.bases == []
    ensures m.objsize == 0 && m.sizes == [] && m.calls == []
  {
  }

  /** What arrives then: only the pointer in the first copy of b leads to the copy of c. */
  method SharedRun(mem: Memory, root: nat, b: nat, c: nat, q: nat) returns (m: Mar, obj: array<Byte>)
    requires Load(mem, root) == b && Load(mem, root + 8) == b && Load(mem, b) == c && root != b
    requires q + 40 < Pow256(PTR) && c != q + 32
    ensures m.bases == [Base(root, 0), Base(b, 16), Base(b, 24), Base(c, 32)]
    ensures m.calls == [Call(root, root, 8), Call(root, root + 8, 8), Call(b, b, 8)]
    ensures Arrived(mem, m.bases, m.sizes, m.calls, q, obj[..])
    ensures Leads(m.bases, m.calls[2], q, obj[..], 1, 3) && !Leads(m.bases, m.calls[2], q, obj[..], 2, 3)
  {
    hide Load, Pow256, Mar.Valid, Arrived, AllRecorded, Leads;
    m := AppendShared(mem, root, b, c);
    obj := Transfer(m, q);
    ValidRecords(m);
    assert IsFirst(m.bases, b, 1) && !IsFirst(m.bases, b, 2);
    LeadsIff(mem, m.bases, m.sizes, m.calls, m.relocs, q, obj[..], 2, 2);
    LeadsIff(mem, m.bases, m.sizes, m.calls, m.relocs, q, obj[..], 2, 1);
  }
}
