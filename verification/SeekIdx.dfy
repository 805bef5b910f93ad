/** Finding the section header of a text byte: the section scan of mkri.c with the bitmap it
    builds, and the two variants of seek_idx in fss.c that use it. */
module SeekIdx {

  const HDRSZ: nat := 8
  const BYTES_PER_FRAME: nat := 64
  const FWIDXALIGN: nat := 4
  const FWPADCHR: bv8 := 0xff

  /** A section: its header, and the zero byte that ends its text. */
  datatype Section = Section(hdr: nat, end: nat) {
    /** The zero byte between header and text. */
    function Marker(): nat {
      hdr + HDRSZ
    }

    predicate HasText(p: nat) {
      Marker() < p < end
    }
  }

  ghost predicate SectionOk(data: seq<bv8>, s: Section) {
    && s.Marker() < s.end < |data|
    && data[s.Marker()] == 0 && data[s.end] == 0
    && forall p: nat :: s.HasText(p) ==> data[p] != 0
  }

  /** What is missing to the next multiple of the alignment. */
  function Pad(n: int): nat {
    (FWIDXALIGN - n % FWIDXALIGN) % FWIDXALIGN
  }

  /** Where the next section starts: at the padded end of s, or at the end of the file. */
  function Next(size: nat, s: Section): nat {
    if s.end + 1 < size then s.end + 1 + Pad(s.end + 1 - s.hdr) else s.end + 1
  }

  /** A section with the padding behind it. */
  ghost predicate PieceOk(data: seq<bv8>, s: Section) {
    SectionOk(data, s) && PaddingOk(data, s)
  }

  ghost predicate PaddingOk(data: seq<bv8>, s: Section) {
    && Next(|data|, s) <= |data|
    && forall q :: s.end < q < Next(|data|, s) ==> data[q] == FWPADCHR
  }

  /** Where section i has to start. */
  function Start(size: nat, secs: seq<Section>, i: nat): nat
    requires i <= |secs|
  {
    if i == 0 then 0 else Next(size, secs[i - 1])
  }

  ghost predicate PieceAt(data: seq<bv8>, secs: seq<Section>, i: nat)
    requires i < |secs|
  {
    PieceOk(data, secs[i]) && secs[i].hdr == Start(|data|, secs, i)
  }

  /** The sections cover the file from its first byte up to p, without a gap. */
  ghost predicate UpTo(data: seq<bv8>, secs: seq<Section>, p: nat) {
    && (forall i :: 0 <= i < |secs| ==> PieceAt(data, secs, i))
    && p == Start(|data|, secs, |secs|)
  }

  /** The file consists of exactly these sections. */
  ghost predicate WellFormed(data: seq<bv8>, secs: seq<Section>) {
    UpTo(data, secs, |data|)
  }

  /** Two sections with one header are the same: the text ends at its first zero byte. */
  lemma SameSection(data: seq<bv8>, s: Section, t: Section)
    requires SectionOk(data, s) && SectionOk(data, t) && s.hdr == t.hdr
    ensures s == t
  {
    assert !t.HasText(s.end) && !s.HasText(t.end);
  }

  /** A file can be read as sections in one way only. */
  lemma {:induction false} SectionsUnique(data: seq<bv8>, secs: seq<Section>, p: nat, more: seq<Section>, q: nat)
    requires UpTo(data, secs, p) && UpTo(data, more, q) && p <= q
    ensures secs <= more
    decreases |secs|
  {
    if |secs| > 0 {
      var n := |secs| - 1;
      UpToFront(data, secs, p);
      SectionsUnique(data, secs[..n], secs[n].hdr, more, q);
      SectionAt(data, secs[..n], secs[n].hdr, more, q);
      SameSection(data, secs[n], more[n]);
      assert secs == secs[..n] + [more[n]];
    }
  }

  /** Behind what two readings share, the longer one goes on where the other ends. */
  lemma SectionAt(data: seq<bv8>, secs: seq<Section>, p: nat, more: seq<Section>, q: nat)
    requires UpTo(data, secs, p) && UpTo(data, more, q) && p < q && secs <= more
    ensures |secs| < |more| && more[|secs|].hdr == p && PieceOk(data, more[|secs|])
  {
    hide Next, PieceOk;
    assert Start(|data|, secs, |secs|) == Start(|data|, more, |secs|);
    assert |secs| < |more| ==> PieceAt(data, more, |secs|);
  }

  lemma UpToFront(data: seq<bv8>, secs: seq<Section>, p: nat)
    requires UpTo(data, secs, p) && |secs| > 0
    ensures var n := |secs| - 1; UpTo(data, secs[..n], secs[n].hdr) && secs[n].hdr < p <= |data|
    ensures PieceOk(data, secs[|secs| - 1])
  {
    var n := |secs| - 1;
    assert PieceAt(data, secs, n);
    forall i | 0 <= i < n
      ensures PieceAt(data, secs[..n], i)
    {
      assert PieceAt(data, secs, i);
    }
  }

  lemma NoSections(data: seq<bv8>)
    ensures UpTo(data, [], 0)
  {
  }

  lemma UpToNext(data: seq<bv8>, secs: seq<Section>, s: Section)
    requires UpTo(data, secs, s.hdr) && PieceOk(data, s)
    ensures UpTo(data, secs + [s], Next(|data|, s))
  {
    hide PieceOk, Next;
    forall i | 0 <= i < |secs| + 1
      ensures PieceAt(data, secs + [s], i)
    {
      assert i < |secs| ==> PieceAt(data, secs, i);
    }
  }

  lemma SectionIn(data: seq<bv8>, secs: seq<Section>, p: nat, i: nat)
    requires UpTo(data, secs, p) && i < |secs|
    ensures PieceOk(data, secs[i]) && (i == 0 ==> secs[i].hdr == 0)
  {
    assert PieceAt(data, secs, i);
  }

  /** A file with no section at a place where one must start is not well-formed. */
  lemma NotWellFormed(data: seq<bv8>, secs: seq<Section>, p: nat)
    requires UpTo(data, secs, p) && p < |data|
    requires forall s: Section :: s.hdr == p ==> !PieceOk(data, s)
    ensures !exists all :: WellFormed(data, all)
  {
    forall all: seq<Section> | WellFormed(data, all)
      ensures false
    {
      SectionsUnique(data, secs, p, all, |data|);
      SectionAt(data, secs, p, all, |data|);
    }
  }

  /** The sections do not overlap. */
  lemma {:induction false} SectionsApart(data: seq<bv8>, secs: seq<Section>, p: nat, i: nat, j: nat)
    requires UpTo(data, secs, p) && i < j < |secs|
    ensures secs[i].end < secs[j].hdr
    decreases j
  {
    assert PieceAt(data, secs, j) && PieceAt(data, secs, j - 1);
    if i < j - 1 {
      SectionsApart(data, secs, p, i, j - 1);
    }
  }

  // ------------------------------------------------------------------ what is written

  /** The bytes written for one segment: header, zero byte, text, zero byte, padding. */
  function Written(hdr: seq<bv8>, text: seq<bv8>): seq<bv8> {
    hdr + [0] + text + [0] + seq(Pad(HDRSZ + 1 + |text| + 1), _ => FWPADCHR)
  }

  datatype Segment = Segment(hdr: seq<bv8>, text: seq<bv8>) {
    ghost predicate Valid() {
      |hdr| == HDRSZ && forall i :: 0 <= i < |text| ==> text[i] != 0
    }
  }

  function File(segs: seq<Segment>): seq<bv8> {
    if segs == [] then []
    else
      var n := |segs| - 1;
      File(segs[..n]) + Written(segs[n].hdr, segs[n].text)
  }

  function Sections(segs: seq<Segment>): (secs: seq<Section>)
    ensures |secs| == |segs|
  {
    if segs == [] then []
    else
      var n := |segs| - 1;
      var p := |File(segs[..n])|;
      Sections(segs[..n]) + [Section(p, p + HDRSZ + 1 + |segs[n].text|)]
  }

  /** One written segment is a section with its padding wherever it stands. */
  lemma WrittenPiece(before: seq<bv8>, seg: Segment, after: seq<bv8>)
    requires seg.Valid()
    ensures var s := Section(|before|, |before| + HDRSZ + 1 + |seg.text|);
            var w := Written(seg.hdr, seg.text);
            PieceOk(before + w + after, s) && Next(|before + w + after|, s) == |before + w|
    ensures |Written(seg.hdr, seg.text)| % FWIDXALIGN == 0
  {
    var s := Section(|before|, |before| + HDRSZ + 1 + |seg.text|);
    var w := Written(seg.hdr, seg.text);
    var data := before + w + after;
    WrittenBytes(seg);
    hide Written;
    assert forall k :: 0 <= k < |w| ==> data[|before| + k] == w[k];
    forall p: nat | s.HasText(p)
      ensures data[p] != 0
    {
      assert data[p] == w[p - |before|];
    }
    forall q | s.end < q < Next(|data|, s)
      ensures data[q] == FWPADCHR
    {
      assert data[q] == w[q - |before|];
    }
  }

  lemma WrittenBytes(seg: Segment)
    requires seg.Valid()
    ensures var w, m := Written(seg.hdr, seg.text), HDRSZ + 1 + |seg.text|;
            && |w| == m + 1 + Pad(m + 1) && |w| % FWIDXALIGN == 0 && w[HDRSZ] == 0 && w[m] == 0
            && (forall k :: HDRSZ < k < m ==> w[k] != 0) && (forall k :: m < k < |w| ==> w[k] == FWPADCHR)
  {
    var w, m := Written(seg.hdr, seg.text), HDRSZ + 1 + |seg.text|;
    forall k | HDRSZ < k < m
      ensures w[k] != 0
    {
      assert w[k] == seg.text[k - HDRSZ - 1];
    }
  }

  lemma LengthsAdd(m: nat, n: nat)
    requires m % FWIDXALIGN == 0 && n % FWIDXALIGN == 0
    ensures (m + n) % FWIDXALIGN == 0
  {
  }

  lemma {:induction false} FileUpTo(segs: seq<Segment>, after: seq<bv8>)
    requires forall i :: 0 <= i < |segs| ==> segs[i].Valid()
    ensures UpTo(File(segs) + after, Sections(segs), |File(segs)|) && |File(segs)| % FWIDXALIGN == 0
    decreases |segs|
  {
    hide UpTo, PieceOk, Next, Written;
    if segs == [] {
      NoSections(after);
      assert [] + after == after;
    } else {
      var n := |segs| - 1;
      var front, w := File(segs[..n]), Written(segs[n].hdr, segs[n].text);
      FileUpTo(segs[..n], w + after);
      assert front + (w + after) == front + w + after;
      WrittenPiece(front, segs[n], after);
      var s := Section(|front|, |front| + HDRSZ + 1 + |segs[n].text|);
      UpToNext(front + w + after, Sections(segs[..n]), s);
      LengthsAdd(|front|, |w|);
    }
  }

  /** Whatever segments are written, the file is well-formed and not of the one size that
      the first assertion of the scan refuses. */
  lemma WrittenIsWellFormed(segs: seq<Segment>)
    requires forall i :: 0 <= i < |segs| ==> segs[i].Valid()
    ensures WellFormed(File(segs), Sections(segs)) && |File(segs)| != HDRSZ + 2
  {
    FileUpTo(segs, []);
    assert File(segs) + [] == File(segs);
  }

  // ------------------------------------------------------------------ the bitmap

  function Mask(k: nat): bv8 {
    if k == 0 then 1 else if k == 1 then 2 else if k == 2 then 4 else if k == 3 then 8
    else if k == 4 then 16 else if k == 5 then 32 else if k == 6 then 64 else 128
  }

  function Frame(p: nat): nat {
    p / BYTES_PER_FRAME
  }

  /** The bit of a frame. */
  predicate Bit(bitmap: seq<bv8>, frame: nat) {
    frame / 8 < |bitmap| && bitmap[frame / 8] & Mask(frame % 8) != 0
  }

  lemma SetBit(b: bv8, j: nat, k: nat)
    requires j < 8 && k < 8
    ensures (b | Mask(k)) & Mask(j) != 0 <==> j == k || b & Mask(j) != 0
  {
  }

  lemma ShiftMask(k: nat)
    requires k < 8
    ensures Mask(k) >> 1 == if k == 0 then 0 else Mask(k - 1)
  {
  }

  lemma ZeroByte(k: nat)
    ensures (0 as bv8) & Mask(k) == 0
  {
  }

  lemma BitAfter(bitmap: seq<bv8>, f: nat, g: nat)
    requires f / 8 < |bitmap|
    ensures Bit(bitmap[f / 8 := bitmap[f / 8] | Mask(f % 8)], g) <==> g == f || Bit(bitmap, g)
  {
    if g / 8 == f / 8 {
      SetBit(bitmap[f / 8], g % 8, f % 8);
    }
  }

  /** Some section starts its text in the frame. */
  ghost predicate Marked(secs: seq<Section>, frame: nat) {
    exists i :: 0 <= i < |secs| && Frame(secs[i].Marker()) == frame
  }

  /** The bitmap has a bit for every frame with a marker and no others. */
  ghost predicate BitmapOk(bitmap: seq<bv8>, secs: seq<Section>) {
    forall frame: nat :: Bit(bitmap, frame) <==> Marked(secs, frame)
  }

  /** The first byte of a UTF-8 character, where an index entry points. */
  predicate IsLead(c: bv8) {
    c & 0xc0 != 0x80
  }

  /** ptrs are the character starts of the text of s. */
  ghost predicate PtrsOf(data: seq<bv8>, s: Section, ptrs: seq<nat>)
    requires s.end <= |data|
  {
    forall q: nat :: q in ptrs <==> s.HasText(q) && IsLead(data[q])
  }

  ghost predicate Ascending(ptrs: seq<nat>) {
    forall m, n :: 0 <= m < n < |ptrs| ==> ptrs[m] < ptrs[n]
  }

  /** The zero byte that ends the text behind start, with the character starts before it. */
  method ScanText(data: seq<bv8>, start: nat) returns (end: nat, ptrs: seq<nat>)
    requires start <= |data|
    ensures start <= end <= |data| && (end < |data| ==> data[end] == 0)
    ensures forall q :: start <= q < end ==> data[q] != 0
    ensures forall q: nat :: q in ptrs <==> start <= q < end && IsLead(data[q])
    ensures Ascending(ptrs)
  {
    end, ptrs := start, [];
    while end < |data| && data[end] != 0
      invariant start <= end <= |data|
      invariant forall q :: start <= q < end ==> data[q] != 0
      invariant forall q: nat :: q in ptrs <==> start <= q < end && IsLead(data[q])
      invariant Ascending(ptrs)
    {
      if IsLead(data[end]) {
        assert forall m :: 0 <= m < |ptrs| ==> ptrs[m] in ptrs;
        ptrs := ptrs + [end];
      }
      end := end + 1;
    }
  }

  /** One turn of the scan: the section at start with its padding, or an error if there is
      none. Reading past the end of the mapped file while skipping padding is an error. */
  method ScanSection(data: seq<bv8>, start: nat) returns (ok: bool, s: Section, next: nat, ptrs: seq<nat>)
    requires start < |data|
    ensures ok <==> exists t: Section :: t.hdr == start && PieceOk(data, t)
    ensures ok ==> s.hdr == start && PieceOk(data, s) && next == Next(|data|, s)
    ensures ok ==> PtrsOf(data, s, ptrs) && Ascending(ptrs)
  {
    var p := start;
    s, next, ptrs := Section(start, start), 0, [];
    if p + HDRSZ + 2 > |data| {
      return false, s, next, ptrs;
    }
    p := p + HDRSZ;
    if data[p] != 0 {
      return false, s, next, ptrs;
    }
    p, ptrs := ScanText(data, p + 1);
    s := Section(start, p);
    if p == |data| {
      NoEnd(data, start);
      return false, s, next, ptrs;
    }
    assert SectionOk(data, s);
    hide SectionOk, PtrsOf, IsLead;
    OnlySection(data, s);
    ok, next := SkipPadding(data, s);
  }

  /** The padding behind a section is read. */
  method SkipPadding(data: seq<bv8>, s: Section) returns (ok: bool, next: nat)
    requires s.hdr <= s.end < |data|
    ensures ok <==> PaddingOk(data, s)
    ensures ok ==> next == Next(|data|, s)
  {
    next := s.end + 1;
    if next < |data| {
      var pad := FWIDXALIGN - (next - s.hdr) % FWIDXALIGN;
      if pad != FWIDXALIGN {
        var pe := next + pad;
        while next < pe
          invariant s.end < next <= pe && next <= |data|
          invariant forall q :: s.end < q < next ==> data[q] == FWPADCHR
        {
          if next >= |data| || data[next] != FWPADCHR {
            return false, next;
          }
          next := next + 1;
        }
      }
    }
    return true, next;
  }

  lemma NoEnd(data: seq<bv8>, start: nat)
    requires forall q :: start + HDRSZ < q < |data| ==> data[q] != 0
    ensures forall t: Section :: t.hdr == start ==> !SectionOk(data, t)
  {
  }

  lemma OnlySection(data: seq<bv8>, s: Section)
    requires SectionOk(data, s)
    ensures forall t: Section :: t.hdr == s.hdr && SectionOk(data, t) ==> t == s
  {
    forall t: Section | t.hdr == s.hdr && SectionOk(data, t)
      ensures t == s
    {
      SameSection(data, s, t);
    }
  }

  /** The last byte of a well-formed file, and its first section. */
  lemma WellFormedEnds(data: seq<bv8>, secs: seq<Section>)
    requires WellFormed(data, secs) && |data| > 0
    ensures |data| >= HDRSZ + 2 && data[HDRSZ] == 0
    ensures data[|data| - 1] == 0 || data[|data| - 1] == FWPADCHR
  {
    var s := secs[|secs| - 1];
    SectionIn(data, secs, |data|, 0);
    SectionIn(data, secs, |data|, |secs| - 1);
    if s.end + 1 < |data| {
      assert s.end < |data| - 1 < Next(|data|, s);
    }
  }

  /** The passes of mkri: the checks, the bitmap of pass 0 and the table of pass 2. The file
      is accepted exactly if it consists of sections and is not a single one without text
      and padding, which an assertion before the scan refuses. */
  method Passes(data: seq<bv8>) returns (ok: bool, bitmap: seq<bv8>, ptrs: seq<nat>, ghost secs: seq<Section>)
    ensures ok <==> (exists all :: WellFormed(data, all)) && |data| != HDRSZ + 2
    ensures ok ==> WellFormed(data, secs) && BitmapOk(bitmap, secs)
    ensures ok ==> |bitmap| == ((|data| + BYTES_PER_FRAME - 1) / BYTES_PER_FRAME + 7) / 8
    ensures ok ==> Ascending(ptrs) && forall q: nat :: q in ptrs <==> IsEntry(data, secs, q)
  {
    var nframes := (|data| + BYTES_PER_FRAME - 1) / BYTES_PER_FRAME;
    bitmap := seq((nframes + 7) / 8, _ => 0);
    ptrs, secs := [], [];
    if |data| > 0 && data[|data| - 1] != 0 && data[|data| - 1] != FWPADCHR {
      EndsNeeded(data);
      return false, bitmap, ptrs, secs;
    }
    if |data| > 0 && (HDRSZ + 2 >= |data| || data[HDRSZ] != 0) {
      EndsNeeded(data);
      return false, bitmap, ptrs, secs;  // the assertions before the scan
    }
    var p := 0;
    EmptyBitmap(bitmap);
    while p < |data|
      invariant 0 <= p <= |data| && UpTo(data, secs, p)
      invariant |bitmap| == (nframes + 7) / 8
      invariant BitmapOk(bitmap, secs)
      invariant EntriesOk(data, secs, p, ptrs)
      decreases |data| - p
    {
      var good, s, next, more := ScanSection(data, p);
      if !good {
        NotWellFormed(data, secs, p);
        return false, bitmap, ptrs, secs;
      }
      var frame := Frame(s.Marker());
      FrameInBitmap(data, bitmap, s.Marker());
      MarkedAfter(bitmap, secs, s);
      bitmap := bitmap[frame / 8 := bitmap[frame / 8] | Mask(frame % 8)];
      EntriesAfter(data, secs, s, ptrs, more);
      UpToNext(data, secs, s);
      ptrs := ptrs + more;
      secs := secs + [s];
      p := next;
    }
    assert WellFormed(data, secs);
    return true, bitmap, ptrs, secs;
  }

  /** The file refused although it is a section: ten bytes, of which the last two are zero. */
  lemma RefusedFile(data: seq<bv8>)
    requires |data| == HDRSZ + 2 && data[HDRSZ] == 0 && data[HDRSZ + 1] == 0
    ensures WellFormed(data, [Section(0, HDRSZ + 1)])
  {
    NoSections(data);
    UpToNext(data, [], Section(0, HDRSZ + 1));
    assert [] + [Section(0, HDRSZ + 1)] == [Section(0, HDRSZ + 1)];
  }

  lemma EndsNeeded(data: seq<bv8>)
    requires |data| > 0
    requires |data| <= HDRSZ + 2 || data[HDRSZ] != 0 || (data[|data| - 1] != 0 && data[|data| - 1] != FWPADCHR)
    ensures |data| == HDRSZ + 2 || !exists all :: WellFormed(data, all)
  {
    forall all: seq<Section> | WellFormed(data, all)
      ensures |data| == HDRSZ + 2
    {
      WellFormedEnds(data, all);
    }
  }

  /** The table so far: the character starts of the sections, in ascending order below p. */
  ghost predicate EntriesOk(data: seq<bv8>, secs: seq<Section>, p: nat, ptrs: seq<nat>) {
    && Ascending(ptrs)
    && (forall q: nat :: q in ptrs <==> IsEntry(data, secs, q))
    && forall n :: 0 <= n < |ptrs| ==> ptrs[n] < p
  }

  lemma EntriesAfter(data: seq<bv8>, secs: seq<Section>, s: Section, ptrs: seq<nat>, more: seq<nat>)
    requires EntriesOk(data, secs, s.hdr, ptrs) && PieceOk(data, s) && PtrsOf(data, s, more) && Ascending(more)
    ensures EntriesOk(data, secs + [s], Next(|data|, s), ptrs + more)
  {
    forall q: nat
      ensures IsEntry(data, secs + [s], q) <==> q in ptrs || q in more
    {
      EntryAfter(data, secs, s, q);
    }
    forall n | 0 <= n < |more|
      ensures s.hdr < more[n] < s.end
    {
      assert more[n] in more;
    }
  }

  /** A character start in the text of some section. */
  ghost predicate IsEntry(data: seq<bv8>, secs: seq<Section>, q: nat) {
    exists i :: 0 <= i < |secs| && EntryIn(data, secs[i], q)
  }

  predicate EntryIn(data: seq<bv8>, s: Section, q: nat) {
    q < |data| && s.HasText(q) && IsLead(data[q])
  }

  lemma EntryAfter(data: seq<bv8>, secs: seq<Section>, s: Section, q: nat)
    ensures IsEntry(data, secs + [s], q) <==> IsEntry(data, secs, q) || EntryIn(data, s, q)
  {
    var t := secs + [s];
    if IsEntry(data, secs, q) {
      var i :| 0 <= i < |secs| && EntryIn(data, secs[i], q);
      assert t[i] == secs[i];
    } else if EntryIn(data, s, q) {
      assert t[|secs|] == s;
    }
  }

  // ------------------------------------------------------------------ texts of characters

  /** The bytes of a character other than NUL in UTF-8 (section 3 of RFC 3629), overlong
      ones included. */
  predicate IsChar(c: seq<bv8>) {
    && 1 <= |c| <= 4
    && (if |c| == 1 then 0x01 <= c[0] <= 0x7f
        else if |c| == 2 then 0xc0 <= c[0] <= 0xdf
        else if |c| == 3 then 0xe0 <= c[0] <= 0xef
        else 0xf0 <= c[0] <= 0xf7)
    && forall i :: 1 <= i < |c| ==> 0x80 <= c[i] <= 0xbf
  }

  ghost predicate AreChars(cs: seq<seq<bv8>>) {
    forall i :: 0 <= i < |cs| ==> IsChar(cs[i])
  }

  function Text(cs: seq<seq<bv8>>): seq<bv8> {
    if |cs| == 0 then [] else Text(cs[..|cs| - 1]) + cs[|cs| - 1]
  }

  /** One of the characters starts at place q of the text. */
  ghost predicate Starts(cs: seq<seq<bv8>>, q: nat) {
    exists i :: 0 <= i < |cs| && q == |Text(cs[..i])|
  }

  lemma LeadByte(c: bv8)
    ensures 0x01 <= c <= 0x7f || 0xc0 <= c ==> IsLead(c) && c != 0
    ensures 0x80 <= c <= 0xbf ==> !IsLead(c) && c != 0
  {
  }

  lemma CharBytes(c: seq<bv8>, x: nat)
    requires IsChar(c) && x < |c|
    ensures c[x] != 0 && (IsLead(c[x]) <==> x == 0)
  {
    hide IsLead;
    LeadByte(c[x]);
  }

  lemma StartsStep(cs: seq<seq<bv8>>, q: nat)
    requires |cs| > 0
    ensures var n := |cs| - 1; Starts(cs, q) <==> Starts(cs[..n], q) || q == |Text(cs[..n])|
  {
    var n := |cs| - 1;
    assert forall i :: 0 <= i < n ==> cs[..n][..i] == cs[..i];
    if i :| 0 <= i < n && q == |Text(cs[..n][..i])| {
      assert q == |Text(cs[..i])|;
    }
  }

  lemma {:induction false} StartsBelow(cs: seq<seq<bv8>>, q: nat)
    requires AreChars(cs) && Starts(cs, q)
    ensures q < |Text(cs)|
  {
    if |cs| > 0 {
      StartsStep(cs, q);
      if Starts(cs[..|cs| - 1], q) {
        StartsBelow(cs[..|cs| - 1], q);
      }
    }
  }

  /** A text of characters has no zero byte, and its leading bytes are where characters start. */
  lemma {:induction false} LeadsAreStarts(cs: seq<seq<bv8>>, q: nat)
    requires AreChars(cs) && q < |Text(cs)|
    ensures Text(cs)[q] != 0 && (IsLead(Text(cs)[q]) <==> Starts(cs, q))
    decreases |cs|
  {
    hide IsLead, IsChar, Starts;
    var n := |cs| - 1;
    StartsStep(cs, q);
    var front := Text(cs[..n]);
    if q < |front| {
      LeadsAreStarts(cs[..n], q);
    } else {
      CharBytes(cs[n], q - |front|);
      if Starts(cs[..n], q) {
        StartsBelow(cs[..n], q);
      }
    }
  }

  lemma {:induction false} TextInFile(segs: seq<Segment>, after: seq<bv8>, k: nat, x: nat)
    requires (forall i :: 0 <= i < |segs| ==> segs[i].Valid()) && k < |segs| && x < |segs[k].text|
    ensures var q := Sections(segs)[k].Marker() + 1 + x;
            q < |File(segs)| && (File(segs) + after)[q] == segs[k].text[x]
    decreases |segs|
  {
    hide Written;
    var n := |segs| - 1;
    var front, w := File(segs[..n]), Written(segs[n].hdr, segs[n].text);
    if k < n {
      TextInFile(segs[..n], w + after, k, x);
      assert front + (w + after) == front + w + after;
    } else {
      WrittenText(segs[n], x);
    }
  }

  lemma WrittenText(seg: Segment, x: nat)
    requires seg.Valid() && x < |seg.text|
    ensures HDRSZ + 1 + x < |Written(seg.hdr, seg.text)|
    ensures Written(seg.hdr, seg.text)[HDRSZ + 1 + x] == seg.text[x]
  {
  }

  lemma {:induction false} SectionEnd(segs: seq<Segment>, k: nat)
    requires k < |segs|
    ensures Sections(segs)[k].end == Sections(segs)[k].Marker() + 1 + |segs[k].text|
  {
    if k < |segs| - 1 {
      SectionEnd(segs[..|segs| - 1], k);
    }
  }

  /** A character of some text starts at byte q of the file. */
  ghost predicate CharAt(segs: seq<Segment>, texts: seq<seq<seq<bv8>>>, q: nat)
    requires |segs| == |texts|
  {
    exists k :: 0 <= k < |segs| && CharIn(Sections(segs)[k], texts[k], q)
  }

  ghost predicate CharIn(s: Section, cs: seq<seq<bv8>>, q: nat) {
    s.Marker() + 1 <= q && Starts(cs, q - s.Marker() - 1)
  }

  /** The index of a file of texts lists exactly the first bytes of their characters. */
  lemma EntriesAreChars(segs: seq<Segment>, texts: seq<seq<seq<bv8>>>, q: nat)
    requires |segs| == |texts|
    requires forall k :: 0 <= k < |segs| ==>
               |segs[k].hdr| == HDRSZ && AreChars(texts[k]) && segs[k].text == Text(texts[k])
    ensures (forall k :: 0 <= k < |segs| ==> segs[k].Valid())
    ensures IsEntry(File(segs), Sections(segs), q) <==> CharAt(segs, texts, q)
  {
    hide Starts, IsLead, IsChar;
    forall k | 0 <= k < |segs|
      ensures segs[k].Valid()
    {
      forall x | 0 <= x < |segs[k].text|
        ensures segs[k].text[x] != 0
      {
        LeadsAreStarts(texts[k], x);
      }
    }
    forall k | 0 <= k < |segs|
      ensures EntryIn(File(segs), Sections(segs)[k], q) <==> CharIn(Sections(segs)[k], texts[k], q)
    {
      EntryIsChar(segs, texts[k], k, q);
    }
  }

  lemma EntryIsChar(segs: seq<Segment>, cs: seq<seq<bv8>>, k: nat, q: nat)
    requires (forall i :: 0 <= i < |segs| ==> segs[i].Valid()) && k < |segs| && AreChars(cs) && segs[k].text == Text(cs)
    ensures EntryIn(File(segs), Sections(segs)[k], q) <==> CharIn(Sections(segs)[k], cs, q)
  {
    hide Starts, IsLead, IsChar, File, Sections, Text;
    var s := Sections(segs)[k];
    SectionEnd(segs, k);
    if s.Marker() + 1 <= q {
      var x := q - s.Marker() - 1;
      if x < |Text(cs)| {
        TextInFile(segs, [], k, x);
        assert File(segs) + [] == File(segs);
        LeadsAreStarts(cs, x);
      } else if Starts(cs, x) {
        StartsBelow(cs, x);
      }
    }
  }

  /** Every byte of the file has its frame in the bitmap. */
  lemma FrameInBitmap(data: seq<bv8>, bitmap: seq<bv8>, p: nat)
    requires p < |data| && |bitmap| == ((|data| + BYTES_PER_FRAME - 1) / BYTES_PER_FRAME + 7) / 8
    ensures Frame(p) / 8 < |bitmap|
  {
  }

  lemma EmptyBitmap(bitmap: seq<bv8>)
    requires forall i :: 0 <= i < |bitmap| ==> bitmap[i] == 0
    ensures BitmapOk(bitmap, [])
  {
    forall frame: nat
      ensures !Bit(bitmap, frame)
    {
      ZeroByte(frame % 8);
    }
  }

  lemma MarkedAfter(bitmap: seq<bv8>, secs: seq<Section>, s: Section)
    requires BitmapOk(bitmap, secs) && Frame(s.Marker()) / 8 < |bitmap|
    ensures var f := Frame(s.Marker());
            BitmapOk(bitmap[f / 8 := bitmap[f / 8] | Mask(f % 8)], secs + [s])
  {
    var f := Frame(s.Marker());
    forall g: nat
      ensures Bit(bitmap[f / 8 := bitmap[f / 8] | Mask(f % 8)], g) <==> Marked(secs + [s], g)
    {
      BitAfter(bitmap, f, g);
      if g == f {
        assert (secs + [s])[|secs|] == s;
      } else if Marked(secs, g) {
        var i :| 0 <= i < |secs| && Frame(secs[i].Marker()) == g;
        assert (secs + [s])[i] == secs[i];
      }
    }
  }

  // ------------------------------------------------------------------ seek_idx

  /** The scan back byte by byte that the debugging code compares with. */
  function ScanBack(data: seq<bv8>, q: nat): nat
    requires q < |data|
  {
    if q > HDRSZ && data[q] != 0 then ScanBack(data, q - 1) else q
  }

  lemma {:induction false} ScanBackFinds(data: seq<bv8>, s: Section, q: nat)
    requires SectionOk(data, s) && s.Marker() <= q < s.end
    ensures ScanBack(data, q) == s.Marker()
  {
    if q > s.Marker() {
      ScanBackFinds(data, s, q - 1);
    }
  }

  /** Everything seek_idx relies on: section i of the file holds text byte p. */
  ghost predicate Seekable(data: seq<bv8>, bitmap: seq<bv8>, secs: seq<Section>, i: nat, p: nat) {
    && WellFormed(data, secs) && BitmapOk(bitmap, secs)
    && i < |secs| && secs[i].HasText(p) && p < |data|
  }

  /** Between the frames of the marker and of p, only the marker's own frame has a bit. */
  lemma BitsBetween(data: seq<bv8>, bitmap: seq<bv8>, secs: seq<Section>, i: nat, p: nat, g: nat)
    requires Seekable(data, bitmap, secs, i, p) && Frame(secs[i].Marker()) <= g < Frame(p)
    ensures Bit(bitmap, g) <==> g == Frame(secs[i].Marker())
  {
    assert g == Frame(secs[i].Marker()) ==> Marked(secs, g);
    SectionIn(data, secs, |data|, i);
    forall j | 0 <= j < |secs| && j != i
      ensures Frame(secs[j].Marker()) == g ==> g == Frame(secs[i].Marker())
    {
      SectionIn(data, secs, |data|, j);
      if j < i {
        SectionsApart(data, secs, |data|, j, i);
      } else {
        SectionsApart(data, secs, |data|, i, j);
      }
    }
  }

  /** The first frame has the marker of the first section. */
  lemma FirstBit(data: seq<bv8>, bitmap: seq<bv8>, secs: seq<Section>)
    requires WellFormed(data, secs) && BitmapOk(bitmap, secs) && |secs| > 0
    ensures Bit(bitmap, 0) && bitmap[0] != 0
  {
    SectionIn(data, secs, |data|, 0);
    assert Frame(secs[0].Marker()) == 0;
    assert Marked(secs, 0);
    ZeroByte(0);
  }

  /** The two scan loops: back from q to the marker, or to the byte before the frame. */
  method ScanFrame(data: seq<bv8>, q: nat, p0: nat, ghost s: Section) returns (r: nat)
    requires SectionOk(data, s) && s.Marker() <= q < s.end && p0 <= q
    ensures r == if s.Marker() > p0 then s.Marker() else p0
  {
    r := q;
    while r > p0 && data[r] != 0
      invariant p0 <= r <= q && s.Marker() <= r
    {
      r := r - 1;
    }
  }

  function FrameFloor(frame: nat): nat {
    if frame == 0 then HDRSZ - 1 else frame * BYTES_PER_FRAME - 1
  }

  predicate TestBit(bitmap: seq<bv8>, idx: nat, mask: bv8)
    requires idx < |bitmap|
  {
    bitmap[idx] & mask != 0
  }

  /** Shifting the mask moves on to the frame before. */
  method StepBack(frame: nat, idx: nat, mask: bv8) returns (idx': nat, mask': bv8)
    requires frame > 0 && idx == frame / 8 && mask == Mask(frame % 8)
    ensures idx' == (frame - 1) / 8 && mask' == Mask((frame - 1) % 8)
  {
    ShiftMask(frame % 8);
    idx', mask' := idx, mask >> 1;
    if mask' == 0 {
      idx', mask' := idx - 1, 0x80;
    }
  }

  /** A byte without bits has none for the frame h. */
  lemma NotInZeroByte(bitmap: seq<bv8>, idx: nat, h: nat)
    requires idx < |bitmap| && bitmap[idx] == 0 && Bit(bitmap, h)
    ensures h / 8 != idx
  {
    ZeroByte(h % 8);
  }

  /** The bitmap walk: from the frame before that of p to the nearest one with a bit. No
      decrement goes below zero, and only frames of the section's own text are skipped. */
  method WalkBitmap(data: seq<bv8>, bitmap: seq<bv8>, p: nat, ghost secs: seq<Section>, ghost i: nat)
    returns (frame: nat)
    requires Seekable(data, bitmap, secs, i, p) && Frame(secs[i].Marker()) < Frame(p)
    requires Frame(p) / 8 < |bitmap|
    ensures frame == Frame(secs[i].Marker())
  {
    ghost var home := Frame(secs[i].Marker());
    frame := Frame(p);
    var bitmap_idx, mask := StepBack(frame, frame / 8, Mask(frame % 8));
    frame := frame - 1;
    FirstBit(data, bitmap, secs);
    BitsBetween(data, bitmap, secs, i, p, home);
    while frame > 0 && !TestBit(bitmap, bitmap_idx, mask)
      invariant home <= frame < Frame(p)
      invariant bitmap_idx == frame / 8 && mask == Mask(frame % 8)
      decreases frame
    {
      assert frame != home;
      if bitmap[bitmap_idx] == 0 {
        NotInZeroByte(bitmap, bitmap_idx, home);
        NotInZeroByte(bitmap, bitmap_idx, 0);
        bitmap_idx, mask := bitmap_idx - 1, 0x80;
        frame := (bitmap_idx + 1) * 8 - 1;
      } else {
        bitmap_idx, mask := StepBack(frame, bitmap_idx, mask);
        frame := frame - 1;
      }
    }
    BitsBetween(data, bitmap, secs, i, p, frame);
  }

  /** seek_idx for byte text: the header of the section and the displacement of p in it. */
  method Seek(data: seq<bv8>, bitmap: seq<bv8>, p: nat, ghost secs: seq<Section>, ghost i: nat)
    returns (hdr: nat, disp: nat)
    requires Seekable(data, bitmap, secs, i, p) && Frame(p) / 8 < |bitmap|
    ensures hdr == secs[i].hdr && disp == p - (secs[i].Marker() + 1)
    ensures hdr == ScanBack(data, p) - HDRSZ
  {
    ghost var s := secs[i];
    SectionIn(data, secs, |data|, i);
    ScanBackFinds(data, s, p);
    var frame := Frame(p);
    if frame == 0 || bitmap[frame / 8] & Mask(frame % 8) != 0 {
      var p0 := FrameFloor(frame);
      var q := ScanFrame(data, p, p0, s);
      if q > p0 {
        return q - HDRSZ, p - (q + 1);
      }
      assert frame > 0;
    } else {
      assert frame != Frame(s.Marker()) by {
        if frame == Frame(s.Marker()) {
          assert Marked(secs, frame);
        }
      }
    }
    frame := WalkBitmap(data, bitmap, p, secs, i);
    var q := (frame + 1) * BYTES_PER_FRAME - 1;
    var p0 := FrameFloor(frame);
    q := ScanFrame(data, q, p0, s);
    assert q > p0;
    return q - HDRSZ, p - (q + 1);
  }

  /** hdr and disp are those of the section that q lies in. */
  ghost predicate Found(data: seq<bv8>, secs: seq<Section>, q: nat, hdr: nat, disp: nat) {
    exists i :: 0 <= i < |secs| && secs[i].HasText(q) && hdr == secs[i].hdr && disp == q - (secs[i].Marker() + 1)
  }

  /** q is a byte of text in a file that consists of sections. */
  ghost predicate TextByte(data: seq<bv8>, q: nat) {
    exists secs: seq<Section>, i :: WellFormed(data, secs) && 0 <= i < |secs| && secs[i].HasText(q)
  }

  /** A file with a byte of text is larger than the one size the scan refuses. */
  lemma TextIsRoom(data: seq<bv8>, secs: seq<Section>, i: nat, q: nat)
    requires WellFormed(data, secs) && i < |secs| && secs[i].HasText(q)
    ensures q < |data| && |data| > HDRSZ + 2
  {
    SectionIn(data, secs, |data|, i);
  }

  /** mkri and seek_idx together: for every byte of text of every well-formed file, the
      search with the bitmap of the scan gives the header and displacement of its section. */
  method SeekText(data: seq<bv8>, q: nat) returns (hdr: nat, disp: nat, ghost secs: seq<Section>)
    requires TextByte(data, q)
    ensures WellFormed(data, secs) && Found(data, secs, q, hdr, disp)
  {
    ghost var all: seq<Section>, i :| WellFormed(data, all) && 0 <= i < |all| && all[i].HasText(q);
    TextIsRoom(data, all, i, q);
    var ok, bitmap, ptrs;
    ok, bitmap, ptrs, secs := Passes(data);
    SectionsUnique(data, all, |data|, secs, |data|);
    assert secs[i] == all[i];
    FrameInBitmap(data, bitmap, q);
    hdr, disp := Seek(data, bitmap, q, secs, i);
  }

  /** Every table entry leads to the header of its own section. */
  method SeekEntries(data: seq<bv8>) returns (ok: bool, ptrs: seq<nat>, hits: seq<(nat, nat)>, ghost secs: seq<Section>)
    ensures ok <==> (exists all :: WellFormed(data, all)) && |data| != HDRSZ + 2
    ensures ok ==> WellFormed(data, secs) && |hits| == |ptrs|
    ensures ok ==> Ascending(ptrs) && forall q: nat :: q in ptrs <==> IsEntry(data, secs, q)
    ensures ok ==> forall n :: 0 <= n < |ptrs| ==> Found(data, secs, ptrs[n], hits[n].0, hits[n].1)
  {
    var bitmap;
    ok, bitmap, ptrs, secs := Passes(data);
    hits := [];
    if !ok {
      return;
    }
    for n := 0 to |ptrs|
      invariant |hits| == n
      invariant forall m :: 0 <= m < n ==> Found(data, secs, ptrs[m], hits[m].0, hits[m].1)
    {
      assert ptrs[n] in ptrs;
      ghost var i :| 0 <= i < |secs| && EntryIn(data, secs[i], ptrs[n]);
      FrameInBitmap(data, bitmap, ptrs[n]);
      var hdr, disp := Seek(data, bitmap, ptrs[n], secs, i);
      hits := hits + [(hdr, disp)];
    }
  }

  // ------------------------------------------------------------------ UTF-32 text

  const WORD24: nat := 0x100_0000

  function Distance(n: nat): (d: nat)
    ensures d <= n && d <= 255 && (d == n || d == 255)
  {
    if n < 255 then n else 255
  }

  /** The words fwputs writes for a text: each character with its distance to the marker,
      at most 255, in the high byte; then the zero word. */
  method Fwputs(text: seq<nat>) returns (words: seq<nat>)
    requires forall i :: 0 <= i < |text| ==> 0 < text[i] < WORD24
    ensures |words| == |text| + 1 && words[|text|] == 0
    ensures forall i :: 0 <= i < |text| ==> words[i] == text[i] + Distance(i + 1) * WORD24
  {
    words := [];
    var k := 0;
    for i := 0 to |text|
      invariant |words| == i && k == Distance(i)
      invariant forall c :: 0 <= c < i ==> words[c] == text[c] + Distance(c + 1) * WORD24
    {
      if k < 255 {
        k := k + 1;
      }
      words := words + [text[i] + k * WORD24];
    }
    words := words + [0];
  }

  /** A section of words: two header words, the zero word at m, and the text of fwputs. */
  ghost predicate Section32(data: seq<nat>, m: nat, len: nat) {
    && 2 <= m && m + len + 1 < |data| && data[m] == 0 && data[m + len + 1] == 0
    && forall q :: m < q <= m + len ==> data[q] != 0 && data[q] / WORD24 % 256 == Distance(q - m)
  }

  /** What fwputs writes behind a header and a zero word is such a section. */
  lemma FwputsSection(before: seq<nat>, text: seq<nat>, words: seq<nat>, after: seq<nat>)
    requires |before| >= 2 && forall i :: 0 <= i < |text| ==> 0 < text[i] < WORD24
    requires |words| == |text| + 1 && words[|text|] == 0
    requires forall i :: 0 <= i < |text| ==> words[i] == text[i] + Distance(i + 1) * WORD24
    ensures Section32(before + [0] + words + after, |before|, |text|)
  {
    var data, m := before + [0] + words + after, |before|;
    forall q | m < q <= m + |text|
      ensures data[q] != 0 && data[q] / WORD24 % 256 == Distance(q - m)
    {
      assert data[q] == words[q - m - 1];
    }
    assert data[m + |text| + 1] == words[|text|];
  }

  /** seek_idx for UTF-32 text; word offsets stand for byte offsets divided by four. */
  method Seek32(data: seq<nat>, p: nat, ghost m: nat, ghost len: nat) returns (hdr: nat, disp: nat)
    requires Section32(data, m, len) && m < p <= m + len
    ensures hdr == m - 2 && disp == p - (m + 1)
  {
    var q := p;
    while q > 2 && data[q] != 0
      invariant m <= q <= p
      decreases q
    {
      var k := data[q] / WORD24 % 256;
      q := q - k;
    }
    return q - 2, p - (q + 1);
  }

  /** Whatever text is written behind a header, the search from any of its characters gives
      the header and the place of the character in the text. */
  method FindWritten(before: seq<nat>, text: seq<nat>, after: seq<nat>, i: nat) returns (hdr: nat, disp: nat)
    requires |before| >= 2 && (forall c :: 0 <= c < |text| ==> 0 < text[c] < WORD24) && i < |text|
    ensures hdr == |before| - 2 && disp == i
  {
    var words := Fwputs(text);
    FwputsSection(before, text, words, after);
    hdr, disp := Seek32(before + [0] + words + after, |before| + 1 + i, |before|, |text|);
  }
}
