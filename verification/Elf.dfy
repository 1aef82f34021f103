/** ELF executables: the headers both loaders read, and what a PT_LOAD segment means byte by byte
    (System V gABI, chapter 5, "Program Header"). The fields are 64-bit words; sums are unbounded
    unless they are written with Wrap. */
module Elf {
  import opened Bytes
  import opened Options
  import opened Words

  const PAGE: nat := 4096
  const MEGA: nat := 0x20_0000
  const HEADER: nat := 64
  const PROGRAM_HEADER: nat := 56
  const ZERO: char := '\0'

  // ---------- headers ----------

  datatype Header = Header(entry: nat, phoff: nat, phnum: nat)

  datatype Segment = Segment(kind: nat, flags: nat, offset: Word, vaddr: Word, filesz: Word, memsz: Word)

  function NumberAt(file: seq<char>, at: nat, width: nat): (n: nat)
    requires at + width <= |file|
    ensures width == 8 ==> n < WORD_LIMIT
  {
    assert Power256(8) == WORD_LIMIT;
    LittleEndian(file[at..at + width])
  }

  /** A 64-bit little-endian RISC-V executable of the current version. */
  function HeaderOf(file: seq<char>): Option<Header> {
    if |file| < HEADER then None
    else if !(file[0] == '\U{7F}' && file[1] == 'E' && file[2] == 'L' && file[3] == 'F') then None
    else if NumberAt(file, 4, 1) != 2 || NumberAt(file, 5, 1) != 1 || NumberAt(file, 6, 1) != 1 then None
    else if NumberAt(file, 18, 2) != 0xf3 || NumberAt(file, 16, 2) != 2 then None
    else Some(Header(NumberAt(file, 24, 8), NumberAt(file, 32, 8), NumberAt(file, 56, 2)))
  }

  /** What a file needs to be accepted: 64 bytes, the magic number, 64 bits, little endian, version 1,
      an executable, for RISC-V. */
  ghost predicate Executable(file: seq<char>) {
    && |file| >= 64 && file[0] == '\U{7F}' && file[1] == 'E' && file[2] == 'L' && file[3] == 'F'
    && file[4] as nat % 256 == 2 && file[5] as nat % 256 == 1 && file[6] as nat % 256 == 1
    && file[16] as nat % 256 == 2 && file[17] as nat % 256 == 0
    && file[18] as nat % 256 == 0xf3 && file[19] as nat % 256 == 0
  }

  lemma HeaderNeeds(file: seq<char>)
    ensures HeaderOf(file).Some? <==> Executable(file)
  {
    hide LittleEndian;
    if |file| >= 64 {
      OneByte(file, 4);
      OneByte(file, 5);
      OneByte(file, 6);
      LittleEndianOfTwo(file[16..18]);
      LittleEndianOfTwo(file[18..20]);
    }
  }

  lemma OneByte(file: seq<char>, at: nat)
    requires at < |file|
    ensures NumberAt(file, at, 1) == file[at] as nat % 256
  {
    var s := file[at..at + 1];
    assert s[0] == file[at] && s[1..] == [];
  }

  function SegmentAt(file: seq<char>, at: nat): Option<Segment> {
    if at + PROGRAM_HEADER > |file| then None
    else Some(Segment(NumberAt(file, at, 4), NumberAt(file, at + 4, 4), NumberAt(file, at + 8, 8),
                      NumberAt(file, at + 16, 8), NumberAt(file, at + 32, 8), NumberAt(file, at + 40, 8)))
  }

  /** The program headers; None when they do not all lie in the file. */
  function Segments(file: seq<char>, at: nat, n: nat): (r: Option<seq<Segment>>)
    ensures r.Some? ==> |r.value| == n
    ensures r.Some? ==> forall i :: 0 <= i < n ==> SegmentAt(file, at + PROGRAM_HEADER * i) == Some(r.value[i])
    decreases n
  {
    if n == 0 then Some([])
    else
      var before := Segments(file, at, n - 1);
      var last := SegmentAt(file, at + PROGRAM_HEADER * (n - 1));
      if before.None? || last.None? then None else Some(before.value + [last.value])
  }

  predicate Loads(seg: Segment) {
    seg.kind == 1
  }

  /** The file holds every byte that is loaded from it. */
  predicate Contained(file: seq<char>, seg: Segment) {
    seg.offset + seg.filesz <= |file| && seg.filesz <= seg.memsz
  }

  /** The last page of the segment ends below 2^64, so that no sum over its addresses wraps around. */
  predicate EndFits(seg: Segment) {
    seg.vaddr + seg.memsz + PAGE <= WORD_LIMIT
  }

  // ---------- what a segment means ----------

  datatype Perms = Perms(read: bool, write: bool, exec: bool)

  datatype Page = Page(perms: Perms, bytes: seq<char>)

  type Image = map<nat, Page>

  function PermsOf(flags: nat): Perms {
    Perms(flags / 4 % 2 == 1, flags / 2 % 2 == 1, flags % 2 == 1)
  }

  function FileByte(file: seq<char>, at: nat): char {
    if at < |file| then file[at] else ZERO
  }

  /** The byte at an address: from the file, or zero. */
  function ByteAt(file: seq<char>, seg: Segment, x: nat): char {
    if seg.vaddr <= x < seg.vaddr + seg.filesz then FileByte(file, seg.offset + (x - seg.vaddr)) else ZERO
  }

  /** The byte that the init task's loader puts there: behind the first page it counts from the
      start of that page, not from the start of the segment. */
  function InitByteAt(file: seq<char>, seg: Segment, x: nat): char {
    if seg.vaddr <= x < seg.vaddr + seg.filesz then
      FileByte(file, seg.offset + (x - if x < PageDown(seg.vaddr) + PAGE then seg.vaddr else PageDown(seg.vaddr)))
    else ZERO
  }

  /** Where a loader takes the bytes of a file from. */
  datatype Copying = AsMeant | FromPageStart

  datatype Source = Source(file: seq<char>, how: Copying)

  function PageBytes(src: Source, seg: Segment, va: nat): (s: seq<char>)
    ensures |s| == PAGE
    ensures forall k: nat :: k < PAGE ==>
      s[k] == if src.how == AsMeant then ByteAt(src.file, seg, va + k) else InitByteAt(src.file, seg, va + k)
  {
    seq(PAGE, k requires 0 <= k < PAGE => if src.how == AsMeant then ByteAt(src.file, seg, va + k)
      else InitByteAt(src.file, seg, va + k))
  }

  function PageDown(n: nat): (r: nat)
    ensures r <= n < r + PAGE && r % PAGE == 0
  {
    n / PAGE * PAGE
  }

  function PageUp(n: nat): (r: nat)
    ensures n <= r < n + PAGE && r % PAGE == 0
  {
    (n + PAGE - 1) / PAGE * PAGE
  }

  predicate Between(va: nat, lo: nat, hi: nat) {
    lo <= va < hi && va % PAGE == 0
  }

  predicate Covers(seg: Segment, va: nat) {
    Between(va, PageDown(seg.vaddr), PageUp(seg.vaddr + seg.memsz))
  }

  /** The pages that are mapped are those that meet the segment, except that an empty segment
      inside a page brings that page. */
  lemma CoversIsMeeting(seg: Segment, va: nat)
    requires va % PAGE == 0
    ensures Covers(seg, va) <==>
      (va < seg.vaddr + seg.memsz && seg.vaddr < va + PAGE)
        || (seg.memsz == 0 && seg.vaddr % PAGE != 0 && va == PageDown(seg.vaddr))
  {
  }

  // ---------- images ----------

  /** Address 0 asks the memory manager for any address: a page meant for it lands at `home`. */
  function Spot(va: nat, home: nat): nat {
    if va == 0 then home else va
  }

  /** Where the pages from `lo` to `hi` land. */
  predicate LandsAt(lo: nat, hi: nat, home: nat, x: nat) {
    (Between(x, lo, hi) && x > 0) || (Between(0, lo, hi) && x == home)
  }

  /** The pages of one segment from `lo` to `hi` were added, with the bytes and permissions the
      segment gives them; nothing was mapped where they landed. */
  ghost predicate Mapped(before: Image, after: Image, src: Source, seg: Segment, lo: nat, hi: nat, home: nat)
  {
    && (Between(0, lo, hi) ==> home > 0)
    && (forall va: nat {:trigger Kept(before, after, va)} :: va in before ==> Kept(before, after, va))
    && (forall x: nat :: x in after ==> x in before || LandsAt(lo, hi, home, x))
    && (forall va: nat {:trigger Placed(before, after, src, seg, va, home)} ::
          Between(va, lo, hi) ==> Placed(before, after, src, seg, va, home))
  }

  ghost predicate Kept(before: Image, after: Image, va: nat) {
    va in before && va in after && after[va] == before[va]
  }

  ghost predicate Placed(before: Image, after: Image, src: Source, seg: Segment, va: nat, home: nat)
  {
    var x := Spot(va, home);
    x !in before && x in after && after[x] == Page(PermsOf(seg.flags), PageBytes(src, seg, va))
  }

  lemma MappedStart(before: Image, src: Source, seg: Segment, lo: nat, home: nat)
    ensures Mapped(before, before, src, seg, lo, lo, home)
  {
    assert forall va: nat {:trigger Kept(before, before, va)} :: va in before ==> Kept(before, before, va);
  }

  lemma MappedStep(before: Image, mid: Image, after: Image, src: Source, seg: Segment, lo: nat, hi: nat, home0: nat,
      home: nat)
    requires Mapped(before, mid, src, seg, lo, hi, home0) && lo <= hi && hi % PAGE == 0
      && (if hi > 0 then home == home0 else home > 0)
    requires Spot(hi, home) !in mid && after == mid[Spot(hi, home) := Page(PermsOf(seg.flags), PageBytes(src, seg, hi))]
    ensures Mapped(before, after, src, seg, lo, hi + PAGE, home)
  {
    hide PageBytes, PermsOf;
    forall va: nat | va in before ensures Kept(before, after, va) { assert Kept(before, mid, va); }
    forall va: nat | Between(va, lo, hi + PAGE) ensures Placed(before, after, src, seg, va, home) {
      if va < hi {
        assert Placed(before, mid, src, seg, va, home0);
      } else {
        NextIsOne(hi, va);
        NotBefore(before, mid, src, seg, lo, hi, home0, Spot(hi, home));
      }
    }
    forall x: nat | x in after && x !in before ensures LandsAt(lo, hi + PAGE, home, x) {
      if x != Spot(hi, home) { assert LandsAt(lo, hi, home0, x); }
    }
  }

  lemma NextIsOne(hi: nat, va: nat)
    requires hi % PAGE == 0 && va % PAGE == 0 && hi <= va < hi + PAGE
    ensures va == hi
  {
  }

  predicate LandsOf(seg: Segment, home: nat, x: nat) {
    LandsAt(PageDown(seg.vaddr), PageUp(seg.vaddr + seg.memsz), home, x)
  }

  /** The whole file: every loaded segment is there, nothing else is new, and no two pages
      landed at one address. */
  ghost predicate Built(before: Image, after: Image, src: Source, segs: seq<Segment>, homes: seq<nat>)
  {
    && |homes| == |segs|
    && (forall i: nat :: i < |segs| && Loads(segs[i]) && Covers(segs[i], 0) ==> homes[i] > 0)
    && (forall va: nat {:trigger Kept(before, after, va)} :: va in before ==> Kept(before, after, va))
    && (forall x: nat :: x in after ==> x in before || CoveredBy(segs, homes, x))
    && (forall i: nat, va: nat {:trigger Placed(before, after, src, segs[i], va, homes[i])} ::
          i < |segs| && Loads(segs[i]) && Covers(segs[i], va) ==> Placed(before, after, src, segs[i], va, homes[i]))
    && (forall i: nat, j: nat, va: nat, vb: nat {:trigger Covers(segs[i], va), Covers(segs[j], vb)} ::
          i < j < |segs| && Loads(segs[i]) && Loads(segs[j]) && Covers(segs[i], va) && Covers(segs[j], vb) ==>
          Spot(va, homes[i]) != Spot(vb, homes[j]))
  }

  ghost predicate CoveredBy(segs: seq<Segment>, homes: seq<nat>, x: nat)
    requires |homes| == |segs|
  {
    exists i: nat :: i < |segs| && Loads(segs[i]) && LandsOf(segs[i], homes[i], x)
  }

  lemma BuiltStart(before: Image, src: Source)
    ensures Built(before, before, src, [], [])
  {
    assert forall va: nat {:trigger Kept(before, before, va)} :: va in before ==> Kept(before, before, va);
  }

  lemma BuiltSkip(before: Image, after: Image, src: Source, segs: seq<Segment>, seg: Segment, homes: seq<nat>,
      home: nat)
    requires Built(before, after, src, segs, homes) && !Loads(seg)
    ensures Built(before, after, src, segs + [seg], homes + [home])
  {
    hide PageDown, PageUp, PageBytes, PermsOf, Spot, Between;
    var all, places := segs + [seg], homes + [home];
    forall x: nat | x in after && x !in before ensures CoveredBy(all, places, x) {
      var i: nat :| i < |segs| && Loads(segs[i]) && LandsOf(segs[i], homes[i], x);
      assert all[i] == segs[i] && places[i] == homes[i];
    }
    forall i: nat, va: nat | i < |all| && Loads(all[i]) && Covers(all[i], va)
      ensures Placed(before, after, src, all[i], va, places[i])
    {
      assert Placed(before, after, src, segs[i], va, homes[i]);
    }
  }

  lemma BuiltStep(before: Image, mid: Image, after: Image, src: Source, segs: seq<Segment>, seg: Segment,
      homes: seq<nat>, home: nat)
    requires Built(before, mid, src, segs, homes) && Loads(seg)
    requires Mapped(mid, after, src, seg, PageDown(seg.vaddr), PageUp(seg.vaddr + seg.memsz), home)
    ensures Built(before, after, src, segs + [seg], homes + [home])
  {
    hide PageDown, PageUp, PageBytes, PermsOf, Spot, Between;
    var all, places := segs + [seg], homes + [home];
    forall va: nat | va in before ensures Kept(before, after, va) {
      assert Kept(before, mid, va);
      assert Kept(mid, after, va);
    }
    forall x: nat | x in after && x !in before ensures CoveredBy(all, places, x) {
      if x in mid {
        var i: nat :| i < |segs| && Loads(segs[i]) && LandsOf(segs[i], homes[i], x);
        assert all[i] == segs[i] && places[i] == homes[i];
      } else {
        assert all[|segs|] == seg && LandsOf(seg, home, x);
      }
    }
    forall i: nat, va: nat | i < |all| && Loads(all[i]) && Covers(all[i], va)
      ensures Placed(before, after, src, all[i], va, places[i])
    {
      if i < |segs| {
        assert Placed(before, mid, src, segs[i], va, homes[i]);
        assert Kept(mid, after, Spot(va, homes[i]));
      } else {
        assert Placed(mid, after, src, seg, va, home);
        BuiltNotBefore(before, mid, src, segs, homes, Spot(va, home));
      }
    }
    forall i: nat, j: nat, va: nat, vb: nat | i < j < |all| && Loads(all[i]) && Loads(all[j]) && Covers(all[i], va)
      && Covers(all[j], vb)
      ensures Spot(va, places[i]) != Spot(vb, places[j])
    {
      assert Placed(before, mid, src, segs[i], va, homes[i]);
      if j == |segs| { assert Placed(mid, after, src, seg, vb, home); }
    }
  }

  lemma NotBefore(before: Image, after: Image, src: Source, seg: Segment, lo: nat, hi: nat, home: nat, va: nat)
    requires Mapped(before, after, src, seg, lo, hi, home)
    ensures va in before ==> va in after
  {
    assert va in before ==> Kept(before, after, va);
  }

  lemma BuiltNotBefore(before: Image, after: Image, src: Source, segs: seq<Segment>, homes: seq<nat>, va: nat)
    requires Built(before, after, src, segs, homes)
    ensures va in before ==> va in after
  {
    assert va in before ==> Kept(before, after, va);
  }

  /** What was meant for address 0 landed at the same addresses. */
  ghost predicate SameHomes(segs: seq<Segment>, homesA: seq<nat>, homesB: seq<nat>) {
    && |homesA| == |homesB| == |segs|
    && forall i: nat :: i < |segs| && Loads(segs[i]) && Covers(segs[i], 0) ==> homesA[i] == homesB[i]
  }

  /** Two images built from the same file over the same start are the same, if what was meant for
      address 0 landed at the same addresses. */
  lemma BuiltIsUnique(before: Image, a: Image, b: Image, src: Source, segs: seq<Segment>, homesA: seq<nat>,
      homesB: seq<nat>)
    requires Built(before, a, src, segs, homesA) && Built(before, b, src, segs, homesB)
    requires SameHomes(segs, homesA, homesB)
    ensures a == b
  {
    hide Built;
    HalfUnique(before, a, b, src, segs, homesA, homesB);
    HalfUnique(before, b, a, src, segs, homesB, homesA);
    assert a.Keys == b.Keys;
  }

  lemma HalfUnique(before: Image, a: Image, b: Image, src: Source, segs: seq<Segment>, homesA: seq<nat>,
      homesB: seq<nat>)
    requires Built(before, a, src, segs, homesA) && Built(before, b, src, segs, homesB)
    requires SameHomes(segs, homesA, homesB)
    ensures forall x: nat :: x in a ==> x in b && b[x] == a[x]
  {
    hide PageBytes, PermsOf, Between;
    forall x: nat | x in a ensures x in b && b[x] == a[x] {
      if x in before {
        assert Kept(before, a, x) && Kept(before, b, x);
      } else {
        assert CoveredBy(segs, homesA, x);
        var i: nat :| i < |segs| && Loads(segs[i]) && LandsOf(segs[i], homesA[i], x);
        var va := if Covers(segs[i], x) && x > 0 then x else 0;
        assert Covers(segs[i], va) && Spot(va, homesA[i]) == x == Spot(va, homesB[i]);
        assert Placed(before, a, src, segs[i], va, homesA[i]) && Placed(before, b, src, segs[i], va, homesB[i]);
      }
    }
  }

  /** Every page of every loaded segment is at its own address. */
  ghost predicate AtItsAddress(before: Image, after: Image, src: Source, segs: seq<Segment>) {
    forall i: nat, va: nat {:trigger Covers(segs[i], va)} :: i < |segs| && Loads(segs[i]) && Covers(segs[i], va) ==>
      va !in before && va in after && after[va] == Page(PermsOf(segs[i].flags), PageBytes(src, segs[i], va))
  }

  /** So it is exactly when no loaded segment reaches into the first page of the address space. */
  lemma AtItsAddressIff(before: Image, after: Image, src: Source, segs: seq<Segment>, homes: seq<nat>)
    requires Built(before, after, src, segs, homes)
    ensures AtItsAddress(before, after, src, segs) <==> forall i: nat :: i < |segs| && Loads(segs[i]) ==>
      !Covers(segs[i], 0)
  {
    hide PageBytes, PermsOf, Between, PageDown, PageUp;
    forall i: nat, va: nat | i < |segs| && Loads(segs[i]) && Covers(segs[i], va)
      ensures Placed(before, after, src, segs[i], va, homes[i])
    {
    }
    forall k: nat | k < |segs| && Loads(segs[k]) ensures !LandsOf(segs[k], homes[k], 0) {
      assert LandsOf(segs[k], homes[k], 0) ==> Covers(segs[k], 0);
    }
  }

  // ---------- the address space a loader fills ----------

  /** A page is mapped where none was; the memory manager may also run out of memory. */
  class Target {
    /** Where the user address space ends. */
    const limit: Word
    var pages: Image
    /** How many mappings have failed. */
    ghost var failures: nat

    ghost predicate Valid()
      reads this
    {
      forall va :: va in pages ==> va + PAGE <= limit
    }

    constructor (pages: Image, limit: Word)
      requires forall va :: va in pages ==> va + PAGE <= limit
      ensures Valid() && this.pages == pages && this.limit == limit && failures == 0
    {
      this.pages := pages;
      this.limit := limit;
      failures := 0;
    }

    /** At address 0 the page lands where the memory manager chooses, but never there. */
    method MapPage(va: nat, perms: Perms, data: Option<seq<char>>) returns (ok: bool, ghost home: nat)
      requires va % PAGE == 0 && (data.Some? ==> |data.value| == PAGE)
      modifies this
      ensures old(Valid()) ==> Valid()
      ensures ok ==>
        && home > 0 && Spot(va, home) + PAGE <= limit && va + PAGE <= limit && Spot(va, home) !in old(pages)
        && pages == old(pages)[Spot(va, home) := Page(perms, if data.Some? then data.value else Zeros())]
      ensures !ok ==> pages == old(pages)
      ensures failures == old(failures) + if ok then 0 else 1
    {
      var enough: bool := *;
      var chosen: nat := *;
      var at: nat := if va == 0 then PageDown(chosen) + PAGE else va;
      home := at;
      if !enough || at + PAGE > limit || at in pages {
        failures := failures + 1;
        return false, 0;
      }
      pages := pages[at := Page(perms, if data.Some? then data.value else Zeros())];
      ok := true;
    }
  }

  function Zeros(): (s: seq<char>)
    ensures |s| == PAGE && forall k: nat :: k < PAGE ==> s[k] == ZERO
  {
    seq(PAGE, _ => ZERO)
  }

  /** memset(buf + from, 0, to - from) */
  method Clear(buf: array<char>, from: nat, to: nat)
    requires from <= to <= buf.Length
    modifies buf
    ensures forall k :: 0 <= k < buf.Length ==> buf[k] == if from <= k < to then ZERO else old(buf[k])
  {
    for i := from to to
      invariant forall k :: 0 <= k < buf.Length ==> buf[k] == if from <= k < i then ZERO else old(buf[k])
    {
      buf[i] := ZERO;
    }
  }

  /** memcpy(buf + at, data, |data|) */
  method Copy(buf: array<char>, at: nat, data: seq<char>)
    requires at + |data| <= buf.Length
    modifies buf
    ensures forall k :: 0 <= k < buf.Length ==> buf[k] == if at <= k < at + |data| then data[k - at] else old(buf[k])
  {
    for i := 0 to |data|
      invariant forall k :: 0 <= k < buf.Length ==> buf[k] == if at <= k < at + i then data[k - at] else old(buf[k])
    {
      buf[at + i] := data[i];
    }
  }

  /** A page buffer that holds file bytes between zeros. */
  function Framed(from: nat, data: seq<char>): (s: seq<char>)
    requires from + |data| <= PAGE
    ensures |s| == PAGE && forall k: nat :: k < PAGE ==> s[k] == if from <= k < from + |data| then data[k - from]
      else ZERO
  {
    seq(PAGE, k requires 0 <= k < PAGE => if from <= k < from + |data| then data[k - from] else ZERO)
  }

  /** Zeros, file bytes, zeros: both loaders fill their page buffer like that. */
  method FillPage(buf: array<char>, from: nat, data: seq<char>)
    requires buf.Length == PAGE && from + |data| <= PAGE
    modifies buf
    ensures buf[..] == Framed(from, data)
  {
    Clear(buf, 0, from);
    Copy(buf, from, data);
    Clear(buf, from + |data|, PAGE);
  }
}
