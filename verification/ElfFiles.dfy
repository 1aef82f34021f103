/** ELF files as they are written: a file header and program headers, each field a little-endian
    number at its offset (System V gABI, chapters 4 and 5), and what the two loaders make of them. */
module ElfFiles {
  import opened Bytes
  import opened Elf
  import opened ElfLoaders
  import opened InitLoader
  import opened Options
  import opened Words

  /** What stands in the headers; `others` are the physical addresses and alignments, and `front`,
      `middle` and `tail` the header fields that nobody reads. */
  datatype Contents = Contents(entry: Word, phoff: Word, segs: seq<Segment>, others: seq<(Word, Word)>,
                               front: string, middle: string, tail: string)

  // ---------- the writer ----------

  function Le(n: nat, k: nat): (s: string)
    ensures |s| == k
  {
    LittleEndianBytes(n, k)
  }

  /** Magic number, 64 bits, little endian, version 1; executable, RISC-V; entry point; where the
      program headers start, and how many there are. */
  function WriteHeader(e: Contents): string {
    ['\U{7F}', 'E', 'L', 'F', '\U{2}', '\U{1}', '\U{1}'] + e.front + Le(2, 2) + Le(0xf3, 2) + Le(1, 4)
      + Le(e.entry, 8) + Le(e.phoff, 8) + e.middle + Le(|e.segs|, 2) + e.tail
  }

  function WriteSegment(s: Segment, other: (Word, Word)): string {
    Le(s.kind, 4) + Le(s.flags, 4) + Le(s.offset, 8) + Le(s.vaddr, 8) + Le(other.0, 8) + Le(s.filesz, 8)
      + Le(s.memsz, 8) + Le(other.1, 8)
  }

  ghost predicate FileOf(file: seq<char>, e: Contents) {
    && |e.front| == 9 && |e.middle| == 16 && |e.tail| == 6 && |e.others| == |e.segs| < 0x1_0000
    && PieceAt(file, 0, WriteHeader(e)) && e.phoff <= |file|
    && forall i {:trigger e.segs[i]} :: 0 <= i < |e.segs| ==>
      && e.segs[i].kind < 0x1_0000_0000 && e.segs[i].flags < 0x1_0000_0000
      && PieceAt(file, e.phoff + 56 * i, WriteSegment(e.segs[i], e.others[i]))
  }

  // ---------- what is written is read ----------

  lemma NumberReads(file: seq<char>, at: nat, n: nat, k: nat)
    requires n < Power256(k) && PieceAt(file, at, Le(n, k))
    ensures NumberAt(file, at, k) == n
  {
    LittleEndianRoundTrip(n, k);
  }

  lemma HeaderParts(file: seq<char>, e: Contents)
    requires FileOf(file, e)
    ensures |file| >= 64
    ensures PieceAt(file, 0, ['\U{7F}', 'E', 'L', 'F', '\U{2}', '\U{1}', '\U{1}'])
    ensures PieceAt(file, 16, Le(2, 2)) && PieceAt(file, 18, Le(0xf3, 2))
    ensures PieceAt(file, 24, Le(e.entry, 8)) && PieceAt(file, 32, Le(e.phoff, 8)) && PieceAt(file, 56, Le(|e.segs|, 2))
  {
    hide Le;
    var m := ['\U{7F}', 'E', 'L', 'F', '\U{2}', '\U{1}', '\U{1}'];
    var h := m + e.front + Le(2, 2) + Le(0xf3, 2) + Le(1, 4);
    PieceSplit(file, 0, h + Le(e.entry, 8) + Le(e.phoff, 8) + e.middle + Le(|e.segs|, 2), e.tail);
    PieceSplit(file, 0, h + Le(e.entry, 8) + Le(e.phoff, 8) + e.middle, Le(|e.segs|, 2));
    PieceSplit(file, 0, h + Le(e.entry, 8) + Le(e.phoff, 8), e.middle);
    PieceSplit(file, 0, h + Le(e.entry, 8), Le(e.phoff, 8));
    PieceSplit(file, 0, h, Le(e.entry, 8));
    PieceSplit(file, 0, m + e.front + Le(2, 2) + Le(0xf3, 2), Le(1, 4));
    PieceSplit(file, 0, m + e.front + Le(2, 2), Le(0xf3, 2));
    PieceSplit(file, 0, m + e.front, Le(2, 2));
    PieceSplit(file, 0, m, e.front);
  }

  lemma HeaderIsRead(file: seq<char>, e: Contents)
    requires FileOf(file, e)
    ensures HeaderOf(file) == Some(Header(e.entry, e.phoff, |e.segs|))
  {
    hide Le, NumberAt, WriteHeader, Power256;
    HeaderParts(file, e);
    Powers();
    FirstBytes(file);
    NumberReads(file, 16, 2, 2);
    NumberReads(file, 18, 0xf3, 2);
    NumberReads(file, 24, e.entry, 8);
    NumberReads(file, 32, e.phoff, 8);
    NumberReads(file, 56, |e.segs|, 2);
  }

  lemma FirstBytes(file: seq<char>)
    requires |file| >= 64 && PieceAt(file, 0, ['\U{7F}', 'E', 'L', 'F', '\U{2}', '\U{1}', '\U{1}'])
    ensures file[0] == '\U{7F}' && file[1] == 'E' && file[2] == 'L' && file[3] == 'F'
    ensures NumberAt(file, 4, 1) == 2 && NumberAt(file, 5, 1) == 1 && NumberAt(file, 6, 1) == 1
  {
    var m := file[0..7];
    assert file[0] == m[0] && file[1] == m[1] && file[2] == m[2] && file[3] == m[3];
    assert file[4] == m[4] && file[5] == m[5] && file[6] == m[6];
    OneByte(file, 4);
    OneByte(file, 5);
    OneByte(file, 6);
  }

  lemma SegmentIsRead(file: seq<char>, at: nat, s: Segment, other: (Word, Word))
    requires s.kind < 0x1_0000_0000 && s.flags < 0x1_0000_0000 && PieceAt(file, at, WriteSegment(s, other))
    ensures SegmentAt(file, at) == Some(s)
  {
    hide Le, NumberAt, Power256;
    var h := Le(s.kind, 4) + Le(s.flags, 4) + Le(s.offset, 8) + Le(s.vaddr, 8);
    PieceSplit(file, at, h + Le(other.0, 8) + Le(s.filesz, 8) + Le(s.memsz, 8), Le(other.1, 8));
    PieceSplit(file, at, h + Le(other.0, 8) + Le(s.filesz, 8), Le(s.memsz, 8));
    PieceSplit(file, at, h + Le(other.0, 8), Le(s.filesz, 8));
    PieceSplit(file, at, h, Le(other.0, 8));
    PieceSplit(file, at, Le(s.kind, 4) + Le(s.flags, 4) + Le(s.offset, 8), Le(s.vaddr, 8));
    PieceSplit(file, at, Le(s.kind, 4) + Le(s.flags, 4), Le(s.offset, 8));
    PieceSplit(file, at, Le(s.kind, 4), Le(s.flags, 4));
    Powers();
    NumberReads(file, at, s.kind, 4);
    NumberReads(file, at + 4, s.flags, 4);
    NumberReads(file, at + 8, s.offset, 8);
    NumberReads(file, at + 16, s.vaddr, 8);
    NumberReads(file, at + 32, s.filesz, 8);
    NumberReads(file, at + 40, s.memsz, 8);
  }

  lemma {:induction false} SegmentsRead(file: seq<char>, e: Contents, n: nat)
    requires FileOf(file, e) && n <= |e.segs|
    ensures Segments(file, e.phoff, n) == Some(e.segs[..n])
  {
    hide SegmentAt, WriteSegment, WriteHeader;
    if n > 0 {
      SegmentsRead(file, e, n - 1);
      assert e.segs[n - 1] == e.segs[..n][n - 1];
      SegmentIsRead(file, e.phoff + 56 * (n - 1), e.segs[n - 1], e.others[n - 1]);
      assert e.segs[..n - 1] + [e.segs[n - 1]] == e.segs[..n];
    } else {
      assert e.segs[..0] == [];
    }
  }

  /** A written file has exactly the entry point and the segments that were written. */
  lemma FileIsRead(file: seq<char>, e: Contents)
    requires FileOf(file, e)
    ensures HeaderOf(file) == Some(Header(e.entry, e.phoff, |e.segs|))
    ensures HeadersRead(file) && SegmentsOf(file) == e.segs
  {
    hide HeaderOf, Segments, WriteHeader, WriteSegment;
    HeaderIsRead(file, e);
    SegmentsRead(file, e, |e.segs|);
    assert e.segs[..|e.segs|] == e.segs;
  }

  // ---------- what the loaders make of it ----------

  /** The byte and the permissions at an address; what is meant for the first page is at `home`. */
  ghost function ByteOf(image: Image, x: nat, home: nat): Option<(char, Perms)> {
    var at := if x < 4096 then home else x / 4096 * 4096;
    if at in image && |image[at].bytes| == 4096 then Some((image[at].bytes[x % 4096], image[at].perms)) else None
  }

  lemma BuiltByte(before: Image, after: Image, src: Source, segs: seq<Segment>, homes: seq<nat>, i: nat, x: nat)
    requires Built(before, after, src, segs, homes) && i < |segs| && segs[i].kind == 1
    requires segs[i].vaddr <= x < segs[i].vaddr + segs[i].memsz
    ensures |homes| == |segs|
    ensures ByteOf(after, x, homes[i]) == Some((
      if src.how == AsMeant then ByteAt(src.file, segs[i], x) else InitByteAt(src.file, segs[i], x),
      PermsOf(segs[i].flags)))
  {
    hide ByteAt, InitByteAt, PermsOf;
    var va := x / 4096 * 4096;
    assert Covers(segs[i], va);
    assert Placed(before, after, src, segs[i], va, homes[i]);
    assert PageBytes(src, segs[i], va)[x % 4096] == after[Spot(va, homes[i])].bytes[x % 4096];
    assert va + x % 4096 == x;
  }

  lemma BuiltElsewhere(before: Image, after: Image, src: Source, segs: seq<Segment>, homes: seq<nat>, x: nat)
    requires Built(before, after, src, segs, homes) && |homes| == |segs|
    ensures x in before ==> x in after && after[x] == before[x]
    ensures x in after && x !in before ==>
      exists i :: 0 <= i < |segs| && segs[i].kind == 1
        && (if segs[i].vaddr < 4096 && x == homes[i] then 0 < segs[i].vaddr + segs[i].memsz
            else x % 4096 == 0 && segs[i].vaddr / 4096 * 4096 <= x < segs[i].vaddr + segs[i].memsz)
  {
    if x in before { assert Kept(before, after, x); }
    if x in after && x !in before {
      assert CoveredBy(segs, homes, x);
      var i: nat :| i < |segs| && Loads(segs[i]) && LandsOf(segs[i], homes[i], x);
      if x % 4096 == 0 { PagesUpTo(segs[i].vaddr + segs[i].memsz, x); }
      PagesUpTo(segs[i].vaddr + segs[i].memsz, 0);
    }
  }

  lemma PagesUpTo(n: nat, x: nat)
    requires x % 4096 == 0
    ensures x < PageUp(n) <==> x < n
  {
  }

  lemma SegmentIn(segs: seq<Segment>, i: nat)
    requires i < |segs|
    ensures segs[i] in segs
  {
  }

  /** The application manager on a written file: the bytes of every loaded segment at its address,
      zeros behind them, its permissions, and nothing else. */
  method ApmLoadFile(file: seq<char>, target: Target, ghost e: Contents)
      returns (r: Loading, pc: nat, ghost homes: seq<nat>)
    requires FileOf(file, e)
    modifies target
    ensures (exists i :: 0 <= i < |e.segs| && e.segs[i].kind == 1 && e.segs[i].filesz > e.segs[i].memsz) ==>
      r == Refused && target.pages == old(target.pages)
    ensures (forall i :: 0 <= i < |e.segs| && e.segs[i].kind == 1 ==>
              e.segs[i].filesz <= e.segs[i].memsz && e.segs[i].offset + e.segs[i].filesz <= |file|) ==>
      if r == Loaded then target.failures == old(target.failures)
      else r == Refused && target.failures == old(target.failures) + 1
    ensures r == Loaded ==> pc == e.entry && |homes| == |e.segs|
    ensures r == Loaded ==> forall i {:trigger e.segs[i]} :: 0 <= i < |e.segs| && e.segs[i].kind == 1 ==>
      && e.segs[i].filesz <= e.segs[i].memsz && e.segs[i].offset + e.segs[i].filesz <= |file|
      && forall x: nat :: e.segs[i].vaddr <= x < e.segs[i].vaddr + e.segs[i].memsz ==>
        ByteOf(target.pages, x, homes[i]) == Some((
          if x < e.segs[i].vaddr + e.segs[i].filesz then file[e.segs[i].offset + (x - e.segs[i].vaddr)] else '\0',
          Perms(e.segs[i].flags / 4 % 2 == 1, e.segs[i].flags / 2 % 2 == 1, e.segs[i].flags % 2 == 1)))
    ensures r == Loaded ==> forall x :: x in old(target.pages) ==>
      x in target.pages && target.pages[x] == old(target.pages)[x]
    ensures r == Loaded ==> forall x :: x in target.pages && x !in old(target.pages) ==>
      exists i :: 0 <= i < |e.segs| && e.segs[i].kind == 1
        && (if e.segs[i].vaddr < 4096 && x == homes[i] then 0 < e.segs[i].vaddr + e.segs[i].memsz
            else x % 4096 == 0 && e.segs[i].vaddr / 4096 * 4096 <= x < e.segs[i].vaddr + e.segs[i].memsz)
  {
    hide HeaderOf, HeadersRead, SegmentsOf, Segments, Built, FileOf;
    FileIsRead(file, e);
    ApmAccepts(file, e);
    r, pc, homes := ApmLoad(file, target);
    if r == Loaded {
      ghost var before := old(target.pages);
      assert Built(before, target.pages, Meant(file), e.segs, homes);
      BuiltStart(before, Meant(file));
      HomesMatch(before, target.pages, Meant(file), e.segs, homes);
      forall i | 0 <= i < |e.segs| && e.segs[i].kind == 1 ensures Contained(file, e.segs[i]) { SegmentIn(e.segs, i); }
      forall i, x: nat | 0 <= i < |e.segs| && e.segs[i].kind == 1
        && e.segs[i].vaddr <= x < e.segs[i].vaddr + e.segs[i].memsz
        ensures ByteOf(target.pages, x, homes[i]) == Some((
          if x < e.segs[i].vaddr + e.segs[i].filesz then file[e.segs[i].offset + (x - e.segs[i].vaddr)] else '\0',
          Perms(e.segs[i].flags / 4 % 2 == 1, e.segs[i].flags / 2 % 2 == 1, e.segs[i].flags % 2 == 1)))
      {
        BuiltByte(before, target.pages, Meant(file), e.segs, homes, i, x);
      }
      forall x: nat { BuiltElsewhere(before, target.pages, Meant(file), e.segs, homes, x); }
    }
  }

  lemma ApmAccepts(file: seq<char>, e: Contents)
    requires FileOf(file, e)
    ensures ApmValid(file) <==>
      forall i :: 0 <= i < |e.segs| && e.segs[i].kind == 1 ==> e.segs[i].filesz <= e.segs[i].memsz
    ensures Loadable(file, SegmentsOf(file)) <==> forall i :: 0 <= i < |e.segs| && e.segs[i].kind == 1 ==>
      e.segs[i].filesz <= e.segs[i].memsz && e.segs[i].offset + e.segs[i].filesz <= |file|
  {
    hide HeaderOf, Segments, WriteHeader, WriteSegment;
    FileIsRead(file, e);
    assert Segments(file, e.phoff, |e.segs|).value == SegmentsOf(file);
    forall i | 0 <= i < |e.segs| ensures e.segs[i] in e.segs { }
  }

  lemma {:induction false} VerdictIs(file: seq<char>, e: Contents, i: nat)
    requires FileOf(file, e) && i <= |e.segs|
    ensures VerdictFrom(file, Header(e.entry, e.phoff, |e.segs|), i) ==
      if forall j :: i <= j < |e.segs| && Loads(e.segs[j]) ==> Passes(file, e.segs[j]) then Valid else Invalid
    decreases |e.segs| - i
  {
    hide SegmentAt, WriteHeader, WriteSegment, Passes;
    if i < |e.segs| {
      SegmentIsRead(file, e.phoff + 56 * i, e.segs[i], e.others[i]);
      VerdictIs(file, e, i + 1);
    }
  }

  /** The check of the init task on a written file. */
  lemma InitAccepts(file: seq<char>, e: Contents)
    requires FileOf(file, e)
    ensures VerdictOf(file) ==
      if forall i :: 0 <= i < |e.segs| && e.segs[i].kind == 1 ==>
        && e.segs[i].filesz <= e.segs[i].memsz
        && (e.segs[i].offset + e.segs[i].filesz) % 0x1_0000_0000_0000_0000 <= |file|
      then Valid else Invalid
  {
    hide HeaderOf, FileOf, VerdictFrom;
    FileIsRead(file, e);
    VerdictIs(file, e, 0);
  }

  /** Where a segment ends, in whole pages. */
  ghost function LastEnd(s: Segment): nat {
    (s.vaddr + s.memsz + 4095) / 4096 * 4096
  }

  lemma HeapInNumbers(segs: seq<Segment>, h: Header, heapRoot: nat)
    requires HeapStart(segs, h, heapRoot)
    requires forall i :: 0 <= i < |segs| && segs[i].kind == 1 ==>
      segs[i].vaddr + segs[i].memsz + 4096 + 0x20_0000 <= WORD_LIMIT
    ensures heapRoot % 0x20_0000 == 0
    ensures forall i :: 0 <= i < |segs| && segs[i].kind == 1 ==> LastEnd(segs[i]) <= heapRoot
    ensures heapRoot > 0 ==>
      exists i :: 0 <= i < |segs| && segs[i].kind == 1 && heapRoot < LastEnd(segs[i]) + 0x20_0000
  {
    hide InWindow;
    var top: Word :| TopOf(segs, h, top) && Behind(top, heapRoot);
    forall i | 0 <= i < |segs| && segs[i].kind == 1 ensures EndOf(segs[i]) == LastEnd(segs[i]) <= top {
      assert segs[i] in segs;
      EndOfPages(segs[i]);
    }
    if top > 0 {
      var seg :| seg in segs && Loads(seg) && top == EndOf(seg);
      var i :| 0 <= i < |segs| && segs[i] == seg;
      EndOfPages(seg);
      assert top == LastEnd(segs[i]) && top + 0x20_0000 <= WORD_LIMIT;
    }
  }

  /** The init task's loader on a written file: what it accepts, where the segments may lie, which
      byte of the file it puts at each address, and where the heap starts. */
  method InitLoadFile(file: seq<char>, target: Target, ghost e: Contents)
      returns (r: Loading, pc: nat, heapRoot: nat, ghost homes: seq<nat>)
    requires FileOf(file, e) && |file| < WORD_LIMIT
    modifies target
    ensures (exists i :: 0 <= i < |e.segs| && e.segs[i].kind == 1 && (e.segs[i].filesz > e.segs[i].memsz
              || (e.segs[i].offset + e.segs[i].filesz) % 0x1_0000_0000_0000_0000 > |file|)) ==>
      r == Refused && target.pages == old(target.pages)
    ensures r == Refused ==>
      var base := e.entry / 0x20_0000 * 0x20_0000;
      exists i :: 0 <= i < |e.segs| && e.segs[i].kind == 1 && (e.segs[i].filesz > e.segs[i].memsz
        || (e.segs[i].offset + e.segs[i].filesz) % 0x1_0000_0000_0000_0000 > |file|
        || e.segs[i].vaddr < base
        || (e.segs[i].vaddr + e.segs[i].memsz - base) % 0x1_0000_0000_0000_0000 > 0x20_0000)
    ensures (forall i :: 0 <= i < |e.segs| && e.segs[i].kind == 1 ==>
              && e.segs[i].offset + e.segs[i].filesz + e.segs[i].vaddr % 4096 <= |file|
              && e.segs[i].vaddr + e.segs[i].memsz + 4096 <= WORD_LIMIT) ==>
      && r != Undefined && target.failures == old(target.failures) + if r == Aborted then 1 else 0
    ensures r == Loaded ==>
      var base := e.entry / 0x20_0000 * 0x20_0000;
      pc == e.entry && forall i :: 0 <= i < |e.segs| && e.segs[i].kind == 1 ==>
        && base <= e.segs[i].vaddr
        && (e.segs[i].vaddr + e.segs[i].memsz - base) % 0x1_0000_0000_0000_0000 <= 0x20_0000
    ensures r == Loaded && (forall i :: 0 <= i < |e.segs| && e.segs[i].kind == 1 ==>
                              e.segs[i].vaddr + e.segs[i].memsz + 4096 <= WORD_LIMIT) ==>
      |homes| == |e.segs| && forall i, x: nat {:trigger ByteOf(target.pages, x, homes[i])} ::
        0 <= i < |e.segs| && e.segs[i].kind == 1
        && e.segs[i].vaddr <= x < e.segs[i].vaddr + e.segs[i].memsz ==>
          var start := e.segs[i].vaddr / 4096 * 4096;
          var at := e.segs[i].offset + if x < start + 4096 then x - e.segs[i].vaddr else x - start;
          ByteOf(target.pages, x, homes[i]) == Some((
            if x < e.segs[i].vaddr + e.segs[i].filesz && at < |file| then file[at] else '\0',
            Perms(e.segs[i].flags / 4 % 2 == 1, e.segs[i].flags / 2 % 2 == 1, e.segs[i].flags % 2 == 1)))
    ensures r == Loaded && (forall i :: 0 <= i < |e.segs| && e.segs[i].kind == 1 ==>
                              e.segs[i].vaddr + e.segs[i].memsz + 4096 + 0x20_0000 <= WORD_LIMIT) ==>
      && heapRoot % 0x20_0000 == 0
      && (forall i :: 0 <= i < |e.segs| && e.segs[i].kind == 1 ==> LastEnd(e.segs[i]) <= heapRoot)
      && (heapRoot > 0 ==>
        exists i :: 0 <= i < |e.segs| && e.segs[i].kind == 1 && heapRoot < LastEnd(e.segs[i]) + 0x20_0000)
  {
    hide HeaderOf, HeadersRead, SegmentsOf, Segments, Built, FileOf, VerdictOf, HeapStart, Wrap, LastEnd;
    FileIsRead(file, e);
    InitAccepts(file, e);
    r, pc, heapRoot, homes := InitLoad(file, target);
    if r == Refused { RefusedInNumbers(file, e); }
    if forall i :: 0 <= i < |e.segs| && e.segs[i].kind == 1 ==>
      && e.segs[i].offset + e.segs[i].filesz + e.segs[i].vaddr % 4096 <= |file|
      && e.segs[i].vaddr + e.segs[i].memsz + 4096 <= WORD_LIMIT {
      assert EndsFit(e.segs) && !TooShort(file, e.segs);
    }
    if r == Loaded {
      ghost var before := old(target.pages);
      LoadedInNumbers(file, e, heapRoot);
      if forall i :: 0 <= i < |e.segs| && e.segs[i].kind == 1 ==>
        e.segs[i].vaddr + e.segs[i].memsz + 4096 <= WORD_LIMIT {
        assert EndsFit(e.segs);
        HomesMatch(before, target.pages, FromStart(file), e.segs, homes);
        forall i, x: nat | 0 <= i < |e.segs| && e.segs[i].kind == 1
          && e.segs[i].vaddr <= x < e.segs[i].vaddr + e.segs[i].memsz
          ensures ByteOf(target.pages, x, homes[i])
            == Some((InitByteAt(file, e.segs[i], x), PermsOf(e.segs[i].flags)))
        {
          BuiltByte(before, target.pages, FromStart(file), e.segs, homes, i, x);
        }
      }
      if forall i :: 0 <= i < |e.segs| && e.segs[i].kind == 1 ==>
        e.segs[i].vaddr + e.segs[i].memsz + 4096 + 0x20_0000 <= WORD_LIMIT {
        HeapInNumbers(e.segs, Header(e.entry, e.phoff, |e.segs|), heapRoot);
      }
    }
  }

  lemma RefusedInNumbers(file: seq<char>, e: Contents)
    requires FileOf(file, e)
    ensures OutsideWindow(SegmentsOf(file), Header(e.entry, e.phoff, |e.segs|)) ==>
      var base := e.entry / 0x20_0000 * 0x20_0000;
      exists i :: 0 <= i < |e.segs| && e.segs[i].kind == 1 && (e.segs[i].vaddr < base
        || (e.segs[i].vaddr + e.segs[i].memsz - base) % 0x1_0000_0000_0000_0000 > 0x20_0000)
  {
    hide HeaderOf, HeadersRead, SegmentsOf, FileOf;
    FileIsRead(file, e);
    var h := Header(e.entry, e.phoff, |e.segs|);
    if OutsideWindow(SegmentsOf(file), h) {
      var seg :| seg in e.segs && Loads(seg) && !InWindow(h, seg);
      var i :| 0 <= i < |e.segs| && e.segs[i] == seg;
    }
  }

  lemma LoadedInNumbers(file: seq<char>, e: Contents, heapRoot: nat)
    requires FileOf(file, e) && HeapStart(e.segs, Header(e.entry, e.phoff, |e.segs|), heapRoot)
    ensures var base := e.entry / 0x20_0000 * 0x20_0000;
      forall i :: 0 <= i < |e.segs| && e.segs[i].kind == 1 ==>
        && base <= e.segs[i].vaddr
        && (e.segs[i].vaddr + e.segs[i].memsz - base) % 0x1_0000_0000_0000_0000 <= 0x20_0000
  {
    hide FileOf, EndOf;
    var h := Header(e.entry, e.phoff, |e.segs|);
    var top: Word :| TopOf(e.segs, h, top) && Behind(top, heapRoot);
    forall i | 0 <= i < |e.segs| && e.segs[i].kind == 1 ensures InWindow(h, e.segs[i]) {
      assert e.segs[i] in e.segs;
    }
  }
}
