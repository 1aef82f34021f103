/** The init task's ELF loader, and how it compares with the application manager's. */
module InitLoader {
  import opened Elf
  import opened ElfLoaders
  import opened Options
  import opened Words

  function FromStart(file: seq<char>): Source {
    Source(file, FromPageStart)
  }

  // ---------- the format check ----------

  datatype Verdict = Valid | Invalid | Overread

  /** The test on one segment: the sum of offset and size is cut to 64 bits. */
  predicate Passes(file: seq<char>, seg: Segment) {
    seg.filesz <= seg.memsz && Wrap(seg.offset + seg.filesz) <= |file|
  }

  /** What is_valid_elf_format says once the headers below i have passed; the array of program
      headers may reach beyond the file. */
  function VerdictFrom(file: seq<char>, h: Header, i: nat): Verdict
    decreases h.phnum - i
  {
    if i >= h.phnum then Valid
    else match SegmentAt(file, h.phoff + PROGRAM_HEADER * i)
         case None => Overread
         case Some(seg) => if Loads(seg) && !Passes(file, seg) then Invalid else VerdictFrom(file, h, i + 1)
  }

  function VerdictOf(file: seq<char>): Verdict {
    match HeaderOf(file) case None => Invalid case Some(h) => VerdictFrom(file, h, 0)
  }

  method IsValidElfFormat(file: seq<char>) returns (r: Verdict)
    ensures r == VerdictOf(file)
  {
    hide HeaderOf, SegmentAt, Wrap;
    var header := HeaderOf(file);
    if header.None? { return Invalid; }
    var h := header.value;
    for i := 0 to h.phnum
      invariant VerdictFrom(file, h, 0) == VerdictFrom(file, h, i)
    {
      var seg := SegmentAt(file, h.phoff + PROGRAM_HEADER * i);
      if seg.None? { return Overread; }
      if !Loads(seg.value) { continue; }
      if seg.value.filesz > seg.value.memsz { return Invalid; }
      if Wrap(seg.value.offset + seg.value.filesz) > |file| { return Invalid; }
    }
    r := Valid;
  }

  /** The same headers, and every loaded segment passed. */
  lemma {:induction false} ValidFrom(file: seq<char>, h: Header, i: nat)
    requires i <= h.phnum && VerdictFrom(file, h, i) == Valid
    requires Segments(file, h.phoff, i).Some?
    requires forall seg :: seg in Segments(file, h.phoff, i).value && Loads(seg) ==> Passes(file, seg)
    ensures Segments(file, h.phoff, h.phnum).Some?
    ensures forall seg :: seg in Segments(file, h.phoff, h.phnum).value && Loads(seg) ==> Passes(file, seg)
    decreases h.phnum - i
  {
    hide SegmentAt, Passes;
    if i < h.phnum {
      SegmentsMore(file, h.phoff, i);
      ValidFrom(file, h, i + 1);
    }
  }

  /** A file that passes contains a segment exactly when the end of its bytes is below 2^64. */
  lemma ValidIsContained(file: seq<char>)
    requires VerdictOf(file) == Valid && |file| < WORD_LIMIT
    ensures HeadersRead(file)
    ensures forall seg :: seg in SegmentsOf(file) && Loads(seg) ==>
      Passes(file, seg) && (Contained(file, seg) <==> seg.offset + seg.filesz < WORD_LIMIT)
  {
    hide HeaderOf, SegmentAt, Passes, Contained;
    ValidFrom(file, HeaderOf(file).value, 0);
    forall seg | seg in SegmentsOf(file) && Loads(seg)
      ensures Passes(file, seg) && (Contained(file, seg) <==> seg.offset + seg.filesz < WORD_LIMIT)
    {
      PassesIsContained(file, seg);
    }
  }

  lemma PassesIsContained(file: seq<char>, seg: Segment)
    requires Passes(file, seg) && |file| < WORD_LIMIT
    ensures Contained(file, seg) <==> seg.offset + seg.filesz < WORD_LIMIT
  {
    WrapFits(seg.offset + seg.filesz);
  }

  /** 4160 bytes from 4096 in front of the file on: the end wraps around to 64. */
  function InFront(flags: nat, vaddr: Word): Segment {
    Segment(1, flags, WORD_LIMIT - PAGE, vaddr, PAGE + HEADER, PAGE + HEADER)
  }

  lemma InFrontPasses(file: seq<char>, flags: nat, vaddr: Word)
    requires HEADER <= |file| < WORD_LIMIT - PAGE
    ensures var seg := InFront(flags, vaddr);
      Loads(seg) && Passes(file, seg) && !Contained(file, seg) && seg.offset > |file|
  {
  }

  // ---------- one page ----------

  /** What the loader copies into the page at va: where in the page, and how much. */
  function From(seg: Segment, va: nat): (k: nat)
    ensures k < PAGE
  {
    if va == PageDown(seg.vaddr) then seg.vaddr % PAGE else 0
  }

  function To(seg: Segment, va: nat): nat
    requires PageDown(seg.vaddr) <= va
  {
    var offset, end := va - PageDown(seg.vaddr), seg.filesz + seg.vaddr % PAGE;
    if offset + PAGE > end && offset <= end then end - offset else PAGE
  }

  lemma CopiedIsPage(file: seq<char>, seg: Segment, va: nat)
    requires Between(va, PageDown(seg.vaddr), va + PAGE) && va - PageDown(seg.vaddr) < seg.filesz + seg.vaddr % PAGE
    requires seg.offset + (va - PageDown(seg.vaddr)) + (To(seg, va) - From(seg, va)) <= |file|
    ensures From(seg, va) <= To(seg, va) <= PAGE
    ensures var at := seg.offset + (va - PageDown(seg.vaddr));
      Framed(From(seg, va), file[at..at + (To(seg, va) - From(seg, va))]) == PageBytes(FromStart(file), seg, va)
  {
    var start, from, to := PageDown(seg.vaddr), From(seg, va), To(seg, va);
    var at := seg.offset + (va - start);
    NextPageOrSame(start, va);
    var data := file[at..at + (to - from)];
    forall k: nat | k < PAGE ensures Framed(from, data)[k] == InitByteAt(file, seg, va + k) {
      if from <= k < to { assert data[k - from] == file[at + (k - from)]; }
    }
    assert Framed(from, data) == PageBytes(FromStart(file), seg, va);
  }

  lemma NextPageOrSame(start: nat, va: nat)
    requires start % PAGE == 0 && va % PAGE == 0 && start <= va
    ensures va == start || start + PAGE <= va
  {
  }

  lemma NothingCopied(file: seq<char>, seg: Segment, va: nat)
    requires PageDown(seg.vaddr) <= va && va - PageDown(seg.vaddr) >= seg.filesz + seg.vaddr % PAGE
    ensures Zeros() == PageBytes(FromStart(file), seg, va)
  {
    forall k: nat | k < PAGE ensures Zeros()[k] == PageBytes(FromStart(file), seg, va)[k] { }
    assert Zeros() == PageBytes(FromStart(file), seg, va);
  }

  /** One round of the page loop. */
  method LoadPage(file: seq<char>, buf: array<char>, target: Target, seg: Segment, va: nat)
      returns (r: Loading, ghost home: nat)
    requires buf.Length == PAGE && va % PAGE == 0 && PageDown(seg.vaddr) <= va && seg.filesz <= seg.memsz
    modifies buf, target
    ensures r in {Loaded, Aborted, Undefined} && Counted(r, old(target.failures), target.failures)
    ensures old(target.Valid()) ==> target.Valid()
    ensures EndFits(seg) && r == Undefined ==>
      seg.offset + (va - PageDown(seg.vaddr)) + (To(seg, va) - From(seg, va)) > |file|
    ensures EndFits(seg) && r == Undefined ==> seg.offset + seg.filesz + seg.vaddr % PAGE > |file|
    ensures EndFits(seg) && va == PageDown(seg.vaddr) && seg.filesz > 0 && seg.offset >= |file| ==> r == Undefined
    ensures EndFits(seg) && r == Loaded ==>
      && home > 0 && Spot(va, home) !in old(target.pages)
      && target.pages == old(target.pages)[Spot(va, home) := Page(PermsOf(seg.flags),
        PageBytes(FromStart(file), seg, va))]
  {
    hide PageBytes, Framed, PermsOf, Wrap;
    WrapFits(seg.filesz + seg.vaddr % PAGE);
    home := 0;
    var offset, size := va - PageDown(seg.vaddr), Wrap(seg.filesz + seg.vaddr % PAGE);
    var ok;
    if offset < size {
      var from := if va == PageDown(seg.vaddr) then seg.vaddr % PAGE else 0;
      var to := PAGE;
      if offset + to > size { to := size - offset; }
      var at := seg.offset + offset;
      if to < from || at + (to - from) > |file| { return Undefined, 0; }
      if EndFits(seg) { CopiedIsPage(file, seg, va); }
      FillPage(buf, from, file[at..at + (to - from)]);
      ok, home := target.MapPage(va, PermsOf(seg.flags), Some(buf[..]));
    } else {
      if EndFits(seg) { NothingCopied(file, seg, va); }
      ok, home := target.MapPage(va, PermsOf(seg.flags), None);
    }
    r := if ok then Loaded else Aborted;
  }

  /** Where the pages of a segment end, in 64-bit arithmetic. */
  function EndOf(seg: Segment): Word {
    Wrap(seg.vaddr + seg.memsz + PAGE - 1) / PAGE * PAGE
  }

  lemma EndOfPages(seg: Segment)
    ensures EndOf(seg) % PAGE == 0
    ensures EndFits(seg) ==> EndOf(seg) == PageUp(seg.vaddr + seg.memsz) >= PageDown(seg.vaddr)
    ensures EndFits(seg) && seg.memsz > 0 ==> EndOf(seg) > PageDown(seg.vaddr)
  {
    WrapFits(seg.vaddr + seg.memsz + PAGE - 1);
  }

  /** The page loop over one segment. */
  method LoadPages(file: seq<char>, buf: array<char>, target: Target, seg: Segment)
      returns (r: Loading, ghost home: nat)
    requires buf.Length == PAGE && seg.filesz <= seg.memsz
    modifies buf, target
    ensures r in {Loaded, Aborted, Undefined} && Counted(r, old(target.failures), target.failures)
    ensures old(target.Valid()) ==> target.Valid()
    ensures EndFits(seg) && seg.filesz > 0 && seg.offset >= |file| ==> r == Undefined
    ensures EndFits(seg) && r == Undefined ==> seg.offset + seg.filesz + seg.vaddr % PAGE > |file|
    ensures EndFits(seg) && r == Loaded ==>
      Mapped(old(target.pages), target.pages, FromStart(file), seg, PageDown(seg.vaddr), PageUp(seg.vaddr + seg.memsz),
        home)
  {
    hide Mapped, PageBytes, PermsOf, Wrap, PageDown, PageUp, EndOf, EndFits;
    EndOfPages(seg);
    home := 0;
    ghost var before := target.pages;
    var start, end := PageDown(seg.vaddr), EndOf(seg);
    MappedStart(before, FromStart(file), seg, start, home);
    var va := start;
    while va < end
      invariant target.failures == old(target.failures)
      invariant start <= va && (EndFits(seg) ==> va <= end) && va % PAGE == 0 && end % PAGE == 0
      invariant old(target.Valid()) ==> target.Valid()
      invariant EndFits(seg) && seg.filesz > 0 && seg.offset >= |file| ==> va == start
      invariant EndFits(seg) ==> Mapped(before, target.pages, FromStart(file), seg, start, va, home)
      decreases end - va
    {
      ghost var mid, last := target.pages, home;
      r, home := LoadPage(file, buf, target, seg, va);
      if r != Loaded { return; }
      if va > 0 { home := last; }
      if EndFits(seg) { MappedStep(before, mid, target.pages, FromStart(file), seg, start, va, last, home); }
      NextPageOrSame(va, end);
      va := va + PAGE;
    }
    r := Loaded;
  }

  // ---------- the whole file ----------

  function WindowBase(h: Header): nat {
    h.entry / MEGA * MEGA
  }

  /** Segments must lie in the 2 MiB around the entry point. */
  predicate InWindow(h: Header, seg: Segment) {
    WindowBase(h) <= seg.vaddr && Wrap(seg.vaddr + seg.memsz - WindowBase(h)) <= MEGA
  }

  /** One PT_LOAD segment: it must lie in the window around the entry point. */
  method InitSegment(file: seq<char>, h: Header, buf: array<char>, target: Target, seg: Segment, top: Word)
    returns (r: Loading, newTop: Word, ghost home: nat)
    requires buf.Length == PAGE && seg.filesz <= seg.memsz
    modifies buf, target
    ensures r == Refused ==> !InWindow(h, seg)
    ensures EndFits(seg) && r == Undefined ==> seg.offset + seg.filesz + seg.vaddr % PAGE > |file|
    ensures target.failures == old(target.failures) + if r == Aborted then 1 else 0
    ensures r == Loaded ==> InWindow(h, seg) && newTop == Highest(top, seg)
    ensures old(target.Valid()) ==> target.Valid()
    ensures EndFits(seg) && r == Loaded ==>
      Mapped(old(target.pages), target.pages, FromStart(file), seg, PageDown(seg.vaddr), PageUp(seg.vaddr + seg.memsz),
        home)
  {
    newTop, home := top, 0;
    if WindowBase(h) > seg.vaddr { return Refused, top, 0; }
    if Wrap(seg.vaddr + seg.memsz - WindowBase(h)) > MEGA { return Refused, top, 0; }
    hide Mapped, PageDown, PageUp;
    r, home := LoadPages(file, buf, target, seg);
    if newTop < EndOf(seg) { newTop := EndOf(seg); }
  }

  function Highest(top: nat, seg: Segment): nat {
    var end := EndOf(seg);
    if top < end then end else top
  }

  /** The main loop over the program headers; `top` is where the highest segment ends. */
  method InitSegments(file: seq<char>, h: Header, target: Target) returns (r: Loading, top: Word, ghost homes: seq<nat>)
    requires VerdictOf(file) == Valid && HeaderOf(file) == Some(h) && |file| < WORD_LIMIT
    modifies target
    ensures r == Refused ==> OutsideWindow(SegmentsOf(file), h)
    ensures EndsFit(SegmentsOf(file)) && r == Undefined ==> TooShort(file, SegmentsOf(file))
    ensures target.failures == old(target.failures) + if r == Aborted then 1 else 0
    ensures r == Loaded ==> TopOf(SegmentsOf(file), h, top)
    ensures old(target.Valid()) ==> target.Valid()
    ensures r == Loaded && EndsFit(SegmentsOf(file)) ==>
      Built(old(target.pages), target.pages, FromStart(file), SegmentsOf(file), homes)
  {
    hide HeaderOf, SegmentAt, HeadersRead, SegmentsOf, VerdictOf, Built, Mapped, Contained, Passes, EndOf, EndFits,
         PageUp, PageDown, InWindow, Highest, TopOf, OutsideWindow;
    ValidIsContained(file);
    CountOf(file);
    TopStart(h);
    ghost var before, segs := target.pages, SegmentsOf(file);
    BuiltStart(before, FromStart(file));
    assert segs[..0] == [];
    var buf := new char[PAGE];
    top, homes := 0, [];
    for i := 0 to h.phnum
      invariant i <= |segs| && target.failures == old(target.failures)
      invariant old(target.Valid()) ==> target.Valid()
      invariant EndsFit(segs) ==> Built(before, target.pages, FromStart(file), segs[..i], homes)
      invariant TopOf(segs[..i], h, top)
    {
      SegmentOf(file, i);
      var seg := SegmentAt(file, h.phoff + PROGRAM_HEADER * i).value;
      assert seg == segs[i] && seg in segs;
      ghost var mid := target.pages;
      if !Loads(seg) {
        if EndsFit(segs) { BuiltSkip(before, mid, FromStart(file), segs[..i], seg, homes, 0); }
        homes := homes + [0];
        TopSkip(segs[..i], h, top, seg);
        continue;
      }
      IsOutside(segs, h, seg);
      TopStep(segs[..i], h, top, seg);
      SizesPass(file, seg);
      ghost var home;
      r, top, home := InitSegment(file, h, buf, target, seg, top);
      if r != Loaded { return; }
      if EndsFit(segs) { BuiltStep(before, mid, target.pages, FromStart(file), segs[..i], seg, homes, home); }
      homes := homes + [home];
    }
    assert segs[..|segs|] == segs;
    r := Loaded;
  }

  /** Every loaded segment lies in the window and ends by `top`, where one of them ends. */
  ghost predicate TopOf(segs: seq<Segment>, h: Header, top: Word) {
    && (forall seg :: seg in segs && Loads(seg) ==> InWindow(h, seg) && EndOf(seg) <= top)
    && (top == 0 || exists seg :: seg in segs && Loads(seg) && top == EndOf(seg))
  }

  /** The page loop would copy bytes from behind the file. */
  ghost predicate TooShort(file: seq<char>, segs: seq<Segment>) {
    exists seg :: seg in segs && Loads(seg) && seg.offset + seg.filesz + seg.vaddr % PAGE > |file|
  }

  ghost predicate OutsideWindow(segs: seq<Segment>, h: Header) {
    exists seg :: seg in segs && Loads(seg) && !InWindow(h, seg)
  }

  /** The first 2 MiB boundary behind the highest segment; 0 when that is 2^64. */
  ghost predicate HeapStart(segs: seq<Segment>, h: Header, heapRoot: nat) {
    heapRoot % MEGA == 0 && exists top: Word :: TopOf(segs, h, top) && Behind(top, heapRoot)
  }

  predicate Behind(top: Word, heapRoot: nat) {
    if top + MEGA <= WORD_LIMIT then top <= heapRoot < top + MEGA else heapRoot == 0
  }

  function UpToMega(n: Word): (r: Word)
    ensures r % MEGA == 0
    ensures if n + MEGA <= WORD_LIMIT then n <= r < n + MEGA else r == 0
  {
    WrapFits(n + MEGA - 1);
    Wrap(n + MEGA - 1) / MEGA * MEGA
  }

  lemma SizesPass(file: seq<char>, seg: Segment)
    requires Passes(file, seg)
    ensures seg.filesz <= seg.memsz
  {
  }

  lemma TopStart(h: Header)
    ensures TopOf([], h, 0)
  {
  }

  lemma TopSkip(segs: seq<Segment>, h: Header, top: Word, seg: Segment)
    requires TopOf(segs, h, top) && !Loads(seg)
    ensures TopOf(segs + [seg], h, top)
  {
    hide EndOf, InWindow;
    if top > 0 {
      var other :| other in segs && Loads(other) && top == EndOf(other);
      assert other in segs + [seg];
    }
  }

  lemma IsOutside(segs: seq<Segment>, h: Header, seg: Segment)
    requires seg in segs && Loads(seg)
    ensures !InWindow(h, seg) ==> OutsideWindow(segs, h)
  {
  }

  lemma TopStep(segs: seq<Segment>, h: Header, top: Word, seg: Segment)
    requires TopOf(segs, h, top) && Loads(seg)
    ensures InWindow(h, seg) ==> TopOf(segs + [seg], h, Highest(top, seg))
  {
    hide EndOf, InWindow;
    var all := segs + [seg];
    assert seg in all;
    if top >= EndOf(seg) && top > 0 {
      var other :| other in segs && Loads(other) && top == EndOf(other);
      assert other in all;
    }
  }

  /** load_elf: the entry point becomes the program counter, and the heap starts at the first
      2 MiB boundary behind the highest segment. */
  method InitLoad(file: seq<char>, target: Target) returns (r: Loading, pc: nat, heapRoot: nat, ghost homes: seq<nat>)
    requires |file| < WORD_LIMIT
    modifies target
    ensures VerdictOf(file) == Invalid ==> r == Refused && target.pages == old(target.pages)
    ensures VerdictOf(file) == Overread ==> r == Undefined
    ensures VerdictOf(file) == Valid && r == Refused ==> OutsideWindow(SegmentsOf(file), HeaderOf(file).value)
    ensures VerdictOf(file) == Valid && EndsFit(SegmentsOf(file)) && r == Undefined ==>
      TooShort(file, SegmentsOf(file))
    ensures target.failures == old(target.failures) + if r == Aborted then 1 else 0
    ensures r == Loaded ==> Executable(file) && VerdictOf(file) == Valid && pc == HeaderOf(file).value.entry
    ensures r == Loaded ==> HeapStart(SegmentsOf(file), HeaderOf(file).value, heapRoot)
    ensures old(target.Valid()) ==> target.Valid()
    ensures r == Loaded && EndsFit(SegmentsOf(file)) ==>
      Built(old(target.pages), target.pages, FromStart(file), SegmentsOf(file), homes)
    ensures r == Loaded && old(target.Valid()) ==>
      (EndsFit(SegmentsOf(file)) <==>
       exists places :: Built(old(target.pages), target.pages, FromStart(file), SegmentsOf(file), places))
  {
    hide HeaderOf, SegmentsOf, VerdictOf, Built, TopOf, InWindow, Passes, Contained, EndsFit;
    HeaderNeeds(file);
    pc, heapRoot, homes := 0, 0, [];
    var verdict := IsValidElfFormat(file);
    if verdict != Valid { return if verdict == Invalid then Refused else Undefined, 0, 0, []; }
    ValidIsContained(file);
    CountOf(file);
    var h := HeaderOf(file).value;
    var top;
    r, top, homes := InitSegments(file, h, target);
    if r != Loaded { return; }
    forall places | old(target.Valid())
      && Built(old(target.pages), target.pages, FromStart(file), SegmentsOf(file), places)
      ensures EndsFit(SegmentsOf(file))
    {
      BuiltEndsFit(old(target.pages), target, FromStart(file), SegmentsOf(file), places);
    }
    heapRoot := UpToMega(top);
    pc := h.entry;
  }

  /** An image below the limit holds the last page of a segment only if that ends below 2^64. */
  lemma BuiltEndsFit(before: Image, target: Target, src: Source, segs: seq<Segment>, homes: seq<nat>)
    requires Built(before, target.pages, src, segs, homes) && target.Valid()
    ensures EndsFit(segs)
  {
    hide PageBytes, PermsOf, Built;
    forall seg | seg in segs && Loads(seg) ensures EndFits(seg) {
      var i :| 0 <= i < |segs| && segs[i] == seg;
      var up := PageUp(seg.vaddr + seg.memsz);
      if up > PageDown(seg.vaddr) {
        NextPageOrSame(PageDown(seg.vaddr), up);
        LastIsPlaced(before, target, src, segs, homes, i, up - PAGE);
      }
      EndIsLow(seg, target.limit);
    }
  }

  lemma LastIsPlaced(before: Image, target: Target, src: Source, segs: seq<Segment>, homes: seq<nat>, i: nat, va: nat)
    requires Built(before, target.pages, src, segs, homes) && target.Valid()
    requires i < |segs| && Loads(segs[i]) && Covers(segs[i], va)
    ensures va + PAGE <= target.limit
  {
    hide PageBytes, PermsOf, Covers;
    assert Placed(before, target.pages, src, segs[i], va, homes[i]);
  }

  // ---------- when the two loaders agree ----------

  /** The init task's loader places the right bytes: the segment starts a page, or its file bytes
      end in the first one. */
  predicate StartsPageOrEndsInIt(seg: Segment) {
    seg.vaddr % PAGE == 0 || seg.vaddr % PAGE + seg.filesz <= PAGE
  }

  /** Exactly then the loader is right for every file that contains the segment. */
  lemma InitIsRightIff(seg: Segment, size: nat)
    requires size >= seg.offset + seg.filesz
    ensures (forall file: seq<char>, x: nat :: |file| == size ==> InitByteAt(file, seg, x) == ByteAt(file, seg, x))
      <==> StartsPageOrEndsInIt(seg)
  {
    if StartsPageOrEndsInIt(seg) {
      forall file: seq<char>, x: nat | |file| == size ensures InitByteAt(file, seg, x) == ByteAt(file, seg, x) {
        InitByteIsRight(file, seg, x);
      }
    } else {
      var x, file := WrongByte(seg), Marked(seg, size);
      MarkedIsWrong(seg, size);
      assert InitByteAt(file, seg, x) != ByteAt(file, seg, x);
    }
  }

  lemma InitByteIsRight(file: seq<char>, seg: Segment, x: nat)
    requires StartsPageOrEndsInIt(seg)
    ensures InitByteAt(file, seg, x) == ByteAt(file, seg, x)
  {
  }

  /** The first byte of the second page, and a file in which it shows. */
  function WrongByte(seg: Segment): nat {
    PageDown(seg.vaddr) + PAGE
  }

  function Marked(seg: Segment, size: nat): (file: seq<char>)
    ensures |file| == size
  {
    seq(size, i => if i == seg.offset + (PAGE - seg.vaddr % PAGE) then '\U{1}' else ZERO)
  }

  lemma MarkedIsWrong(seg: Segment, size: nat)
    requires size >= seg.offset + seg.filesz && !StartsPageOrEndsInIt(seg)
    ensures var x := WrongByte(seg);
      InitByteAt(Marked(seg, size), seg, x) == ZERO && ByteAt(Marked(seg, size), seg, x) == '\U{1}'
  {
  }

  /** On such segments both loaders build the same image, if what was meant for address 0 landed
      at the same addresses. */
  lemma LoadersAgree(before: Image, byApm: Image, byInit: Image, file: seq<char>, segs: seq<Segment>,
      homesApm: seq<nat>, homesInit: seq<nat>)
    requires forall seg :: seg in segs && Loads(seg) ==> StartsPageOrEndsInIt(seg)
    requires Built(before, byApm, Meant(file), segs, homesApm)
      && Built(before, byInit, FromStart(file), segs, homesInit)
    requires SameHomes(segs, homesApm, homesInit)
    ensures byApm == byInit
  {
    InitBuildsWhatIsMeant(before, byInit, file, segs, homesInit);
    BuiltIsUnique(before, byApm, byInit, Meant(file), segs, homesApm, homesInit);
  }

  lemma InitBuildsWhatIsMeant(before: Image, after: Image, file: seq<char>, segs: seq<Segment>, homes: seq<nat>)
    requires forall seg :: seg in segs && Loads(seg) ==> StartsPageOrEndsInIt(seg)
    requires Built(before, after, FromStart(file), segs, homes)
    ensures Built(before, after, Meant(file), segs, homes)
  {
    hide Covers, StartsPageOrEndsInIt, PageBytes, PermsOf, LandsOf;
    var src := Meant(file);
    forall i: nat, va: nat | i < |segs| && Loads(segs[i]) && Covers(segs[i], va)
      ensures Placed(before, after, src, segs[i], va, homes[i])
    {
      assert Placed(before, after, FromStart(file), segs[i], va, homes[i]);
      assert segs[i] in segs;
      SamePageBytes(file, segs[i], va);
    }
  }

  lemma SamePageBytes(file: seq<char>, seg: Segment, va: nat)
    requires StartsPageOrEndsInIt(seg)
    ensures PageBytes(FromStart(file), seg, va) == PageBytes(Meant(file), seg, va)
  {
    var x, y := PageBytes(FromStart(file), seg, va), PageBytes(Meant(file), seg, va);
    forall k: nat | k < PAGE ensures x[k] == y[k] {
      InitByteIsRight(file, seg, va + k);
    }
    assert x == y;
  }

  /** Both loaders run on one file whose segments start pages: same entry point, and the same
      image, if what was meant for address 0 landed at the same addresses. */
  method LoadTwice(file: seq<char>, a: Target, b: Target)
    returns (byApm: Loading, byInit: Loading, pcApm: nat, pcInit: nat, ghost homesApm: seq<nat>,
      ghost homesInit: seq<nat>)
    requires a != b && a.pages == b.pages && |file| < WORD_LIMIT
    requires forall seg :: seg in SegmentsOf(file) && Loads(seg) ==> StartsPageOrEndsInIt(seg)
    modifies a, b
    ensures byApm == Loaded && byInit == Loaded ==> pcApm == pcInit && |homesApm| == |homesInit| == |SegmentsOf(file)|
    ensures byApm == Loaded && byInit == Loaded && SameHomes(SegmentsOf(file), homesApm, homesInit) ==>
      a.pages == b.pages
  {
    hide VerdictOf, HeaderOf, HeadersRead, SegmentsOf, ApmValid, Built, Contained, EndsFit, Loadable,
         StartsPageOrEndsInIt, SegmentAt, Covers;
    ghost var before, segs := a.pages, SegmentsOf(file);
    var heapRoot;
    byApm, pcApm, homesApm := ApmLoad(file, a);
    byInit, pcInit, heapRoot, homesInit := InitLoad(file, b);
    if byApm == Loaded && byInit == Loaded {
      HomesMatch(before, a.pages, Meant(file), segs, homesApm);
      HomesMatch(before, b.pages, FromStart(file), segs, homesInit);
      if SameHomes(segs, homesApm, homesInit) {
        LoadersAgree(before, a.pages, b.pages, file, segs, homesApm, homesInit);
      }
    }
  }

  lemma HomesMatch(before: Image, after: Image, src: Source, segs: seq<Segment>, homes: seq<nat>)
    requires Built(before, after, src, segs, homes)
    ensures |homes| == |segs|
  {
  }
}
