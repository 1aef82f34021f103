/** The two ELF loaders: the application manager's, which reads a stream and fills a page in
    three phases, and the init task's, which copies from memory page by page. */
module ElfLoaders {
  import opened Bytes
  import opened Elf
  import opened Options
  import opened Words

  /** Refused: the loader returns false. Aborted: a mapping failed and the process ends.
      Undefined: bytes beyond the file would be read. */
  datatype Loading = Loaded | Refused | Aborted | Undefined

  function Meant(file: seq<char>): Source {
    Source(file, AsMeant)
  }

  /** A loader gives up exactly at the first mapping that fails. */
  predicate Counted(r: Loading, before: nat, after: nat) {
    after == before + if r in {Refused, Aborted} then 1 else 0
  }

  // ---------- one page ----------

  /** File bytes framed by zeros are the page the segment means, when they start at the page or at
      the segment, and reach to the end of the page or of the file bytes. */
  lemma FramedIsPage(file: seq<char>, seg: Segment, va: nat, from: nat, at: nat, len: nat)
    requires Contained(file, seg) && from + len <= PAGE && at + len <= |file|
    requires va + from >= seg.vaddr && (from == 0 || va + from == seg.vaddr)
    requires at == seg.offset + (va + from - seg.vaddr)
    requires va + from + len == seg.vaddr + seg.filesz
      || (from + len == PAGE && va + from + len <= seg.vaddr + seg.filesz)
    ensures Framed(from, file[at..at + len]) == PageBytes(Source(file, AsMeant), seg, va)
  {
    var data := file[at..at + len];
    forall k: nat | k < PAGE ensures Framed(from, data)[k] == PageBytes(Source(file, AsMeant), seg, va)[k] {
      if from <= k < from + len { assert data[k - from] == file[at + (k - from)]; }
    }
    assert Framed(from, data) == PageBytes(Source(file, AsMeant), seg, va);
  }

  lemma ZerosArePage(file: seq<char>, seg: Segment, va: nat)
    requires Contained(file, seg) && (va >= seg.vaddr + seg.filesz)
    ensures Zeros() == PageBytes(Source(file, AsMeant), seg, va)
  {
    forall k: nat | k < PAGE ensures Zeros()[k] == PageBytes(Source(file, AsMeant), seg, va)[k] { }
    assert Zeros() == PageBytes(Source(file, AsMeant), seg, va);
  }

  // ---------- the application manager ----------

  class InStream {
    const data: seq<char>
    var pos: nat
    var failed: bool

    constructor (data: seq<char>)
      ensures this.data == data && pos == 0 && !failed
    {
      this.data, pos, failed := data, 0, false;
    }

    method Seek(to: nat)
      modifies this
      ensures failed == (old(failed) || to > |data|) && (!failed ==> pos == to <= |data|)
    {
      if !failed {
        pos := to;
        failed := to > |data|;
      }
    }

    /** None when fewer bytes are left; the stream has failed then. */
    method Read(n: nat) returns (r: Option<seq<char>>)
      modifies this
      ensures old(failed) || old(pos) + n > |data| ==> r.None? && failed
      ensures !old(failed) && old(pos) + n <= |data| ==>
        !failed && pos == old(pos) + n && r == Some(data[old(pos)..old(pos) + n])
    {
      if failed || pos + n > |data| {
        failed := true;
        return None;
      }
      r := Some(data[pos..pos + n]);
      pos := pos + n;
    }

    method ReadSegment() returns (r: Option<Segment>)
      requires !failed
      modifies this
      ensures r == SegmentAt(data, old(pos)) && (r.Some? ==> !failed && pos == old(pos) + PROGRAM_HEADER <= |data|)
      ensures r.None? ==> failed
    {
      ghost var at := pos;
      var bytes := Read(PROGRAM_HEADER);
      if bytes.None? { return None; }
      SegmentOfBytes(data, at);
      r := SegmentAt(bytes.value, 0);
    }
  }

  /** The fields of a program header depend on its own bytes alone. */
  lemma SegmentOfBytes(file: seq<char>, at: nat)
    requires at + PROGRAM_HEADER <= |file|
    ensures SegmentAt(file[at..at + PROGRAM_HEADER], 0) == SegmentAt(file, at)
  {
    hide LittleEndian;
    SliceOfSlice(file, at, 0, 4);
    SliceOfSlice(file, at, 4, 8);
    SliceOfSlice(file, at, 8, 16);
    SliceOfSlice(file, at, 16, 24);
    SliceOfSlice(file, at, 32, 40);
    SliceOfSlice(file, at, 40, 48);
  }

  lemma SliceOfSlice(file: seq<char>, at: nat, lo: nat, hi: nat)
    requires at + PROGRAM_HEADER <= |file| && lo <= hi <= PROGRAM_HEADER
    ensures file[at..at + PROGRAM_HEADER][lo..hi] == file[at + lo..at + hi]
  {
    var x, y := file[at..at + PROGRAM_HEADER][lo..hi], file[at + lo..at + hi];
    forall k | 0 <= k < hi - lo ensures x[k] == y[k] {
      assert file[at..at + PROGRAM_HEADER][lo + k] == file[at + (lo + k)];
    }
    assert x == y;
  }

  predicate SizesOk(segs: seq<Segment>) {
    forall seg :: seg in segs && Loads(seg) ==> seg.filesz <= seg.memsz
  }

  /** What is_valid_format accepts. */
  predicate ApmValid(file: seq<char>) {
    && HeaderOf(file).Some?
    && var h := HeaderOf(file).value;
    && h.phoff <= |file|
    && Segments(file, h.phoff, h.phnum).Some? && SizesOk(Segments(file, h.phoff, h.phnum).value)
  }

  method IsValidFormat(s: InStream) returns (ok: bool)
    requires !s.failed
    modifies s
    ensures ok <==> ApmValid(s.data)
    ensures ok ==> !s.failed
  {
    hide HeaderOf, SegmentAt;
    s.Seek(0);
    var bytes := s.Read(HEADER);
    ShortFile(s.data);
    if bytes.None? || HeaderOf(s.data).None? { return false; }
    var h := HeaderOf(s.data).value;
    s.Seek(h.phoff);
    if s.failed { return false; }
    ghost var file := s.data;
    for i := 0 to h.phnum
      invariant !s.failed && s.pos == h.phoff + PROGRAM_HEADER * i && s.data == file
      invariant Segments(file, h.phoff, i).Some? && SizesOk(Segments(file, h.phoff, i).value)
    {
      var seg := s.ReadSegment();
      if seg.None? {
        SegmentsStop(file, h.phoff, i, h.phnum);
        return false;
      }
      SegmentsMore(file, h.phoff, i);
      if Loads(seg.value) && seg.value.filesz > seg.value.memsz {
        SizesStay(file, h.phoff, i + 1, h.phnum);
        return false;
      }
    }
    ok := true;
  }

  lemma ShortFile(file: seq<char>)
    ensures |file| < HEADER ==> HeaderOf(file).None?
  {
  }

  lemma {:induction false} SegmentsStop(file: seq<char>, at: nat, i: nat, n: nat)
    requires i < n && SegmentAt(file, at + PROGRAM_HEADER * i).None?
    ensures Segments(file, at, n).None?
    decreases n
  {
    if n > i + 1 { SegmentsStop(file, at, i, n - 1); }
  }

  lemma SegmentsMore(file: seq<char>, at: nat, i: nat)
    requires Segments(file, at, i).Some? && SegmentAt(file, at + PROGRAM_HEADER * i).Some?
    ensures Segments(file, at, i + 1)
      == Some(Segments(file, at, i).value + [SegmentAt(file, at + PROGRAM_HEADER * i).value])
  {
  }

  lemma {:induction false} SizesStay(file: seq<char>, at: nat, i: nat, n: nat)
    requires i <= n && Segments(file, at, i).Some? && !SizesOk(Segments(file, at, i).value)
    ensures Segments(file, at, n).Some? ==> !SizesOk(Segments(file, at, n).value)
    decreases n
  {
    hide SegmentAt;
    if i < n && Segments(file, at, n).Some? {
      SizesStay(file, at, i, n - 1);
      var bad :| bad in Segments(file, at, n - 1).value && Loads(bad) && bad.filesz > bad.memsz;
      assert bad in Segments(file, at, n).value;
    }
  }

  /** The first page of a segment that starts inside a page. */
  method FirstPage(s: InStream, buf: array<char>, target: Target, seg: Segment) returns (r: Loading, ghost home: nat)
    requires buf.Length == PAGE && !s.failed && s.pos == seg.offset <= |s.data| && seg.filesz <= seg.memsz
      && seg.vaddr % PAGE != 0
    modifies s, buf, target
    ensures r != Aborted && (r == Undefined ==> !Contained(s.data, seg))
    ensures Counted(r, old(target.failures), target.failures)
    ensures old(target.Valid()) ==> target.Valid()
    ensures r == Loaded ==>
      && !s.failed && s.pos == seg.offset + Lesser(PAGE - seg.vaddr % PAGE, seg.filesz) <= |s.data|
      && PageDown(seg.vaddr) + PAGE <= target.limit
    ensures r == Loaded && Contained(s.data, seg) ==>
      Mapped(old(target.pages), target.pages, Meant(s.data), seg, PageDown(seg.vaddr), PageDown(seg.vaddr) + PAGE, home)
  {
    hide Mapped, PageBytes, Framed, PermsOf;
    home := 0;
    var offset, base := seg.vaddr % PAGE, PageDown(seg.vaddr);
    var bytes := s.Read(Lesser(PAGE - offset, seg.filesz));
    if bytes.None? { return Undefined, 0; }
    FillPage(buf, offset, bytes.value);
    ghost var before := target.pages;
    var ok;
    ok, home := target.MapPage(base, PermsOf(seg.flags), Some(buf[..]));
    if !ok { return Refused, 0; }
    if Contained(s.data, seg) {
      FramedIsPage(s.data, seg, base, offset, seg.offset, |bytes.value|);
      MappedStart(before, Meant(s.data), seg, base, home);
      MappedStep(before, before, target.pages, Meant(s.data), seg, base, base, home, home);
    }
    r := Loaded;
  }

  function Lesser(a: nat, b: nat): nat {
    if a < b then a else b
  }

  /** The pages that file bytes reach. */
  method FilePages(s: InStream, buf: array<char>, target: Target, seg: Segment, start: nat, ghost before: Image,
      ghost home0: nat)
    returns (r: Loading, written: nat, ghost home: nat)
    requires buf.Length == PAGE && !s.failed && s.pos == seg.offset + Lesser(start, seg.filesz) <= |s.data|
      && seg.filesz <= seg.memsz
    requires (seg.vaddr + start) % PAGE == 0
    requires Contained(s.data, seg) ==>
      Mapped(before, target.pages, Meant(s.data), seg, PageDown(seg.vaddr), seg.vaddr + start, home0)
    modifies s, buf, target
    ensures r != Aborted && (r == Undefined ==> !Contained(s.data, seg))
    ensures Counted(r, old(target.failures), target.failures)
    ensures old(target.Valid()) ==> target.Valid()
    ensures r == Loaded ==> s.pos == seg.offset + seg.filesz <= |s.data|
    ensures r == Loaded ==> written == start || seg.vaddr + written <= target.limit
    ensures r == Loaded ==> !s.failed && seg.filesz <= written && start <= written && (seg.vaddr + written) % PAGE == 0
    ensures r == Loaded ==> written == start || written < seg.filesz + PAGE
    ensures r == Loaded && Contained(s.data, seg) ==>
      Mapped(before, target.pages, Meant(s.data), seg, PageDown(seg.vaddr), seg.vaddr + written, home)
  {
    hide Mapped, PageBytes, Framed, PermsOf;
    written, home := start, home0;
    while written < seg.filesz
      invariant target.failures == old(target.failures) && (old(target.Valid()) ==> target.Valid())
      invariant written == start || seg.vaddr + written <= target.limit
      invariant start <= written && !s.failed && s.pos == seg.offset + Lesser(written, seg.filesz) <= |s.data|
      invariant (seg.vaddr + written) % PAGE == 0 && (written == start || written < seg.filesz + PAGE)
      invariant Contained(s.data, seg) ==>
        Mapped(before, target.pages, Meant(s.data), seg, PageDown(seg.vaddr), seg.vaddr + written, home)
      decreases seg.filesz + PAGE - written
    {
      var len := Lesser(PAGE, seg.filesz - written);
      var bytes := s.Read(len);
      if bytes.None? { return Undefined, written, home; }
      FillPage(buf, 0, bytes.value);
      var va := seg.vaddr + written;
      if Contained(s.data, seg) { FramedIsPage(s.data, seg, va, 0, seg.offset + written, len); }
      ghost var mid := target.pages;
      ghost var last := home;
      var ok;
      ok, home := target.MapPage(va, PermsOf(seg.flags), Some(buf[..]));
      if !ok { return Refused, written, home; }
      if va > 0 { home := last; }
      if Contained(s.data, seg) {
        MappedStep(before, mid, target.pages, Meant(s.data), seg, PageDown(seg.vaddr), va, last, home);
      }
      written := written + PAGE;
    }
    r := Loaded;
  }

  /** The pages behind the file bytes. */
  method ZeroPages(target: Target, seg: Segment, start: nat, ghost file: seq<char>, ghost before: Image,
      ghost home0: nat)
    returns (r: Loading, written: nat, ghost home: nat)
    requires seg.filesz <= start && (seg.vaddr + start) % PAGE == 0
    requires Contained(file, seg) ==>
      Mapped(before, target.pages, Meant(file), seg, PageDown(seg.vaddr), seg.vaddr + start, home0)
    modifies target
    ensures r in {Loaded, Refused} && Counted(r, old(target.failures), target.failures)
    ensures old(target.Valid()) ==> target.Valid()
    ensures r == Loaded ==> written == start || seg.vaddr + written <= target.limit
    ensures r == Loaded ==>
      seg.memsz <= written && (seg.vaddr + written) % PAGE == 0 && (written == start || written < seg.memsz + PAGE)
    ensures r == Loaded && Contained(file, seg) ==>
      Mapped(before, target.pages, Meant(file), seg, PageDown(seg.vaddr), seg.vaddr + written, home)
  {
    hide Mapped, PageBytes, PermsOf;
    written, home := start, home0;
    while written < seg.memsz
      invariant target.failures == old(target.failures) && (old(target.Valid()) ==> target.Valid())
      invariant written == start || seg.vaddr + written <= target.limit
      invariant start <= written && (seg.vaddr + written) % PAGE == 0
        && (written == start || written < seg.memsz + PAGE)
      invariant Contained(file, seg) ==>
        Mapped(before, target.pages, Meant(file), seg, PageDown(seg.vaddr), seg.vaddr + written, home)
      decreases seg.memsz + PAGE - written
    {
      var va := seg.vaddr + written;
      if Contained(file, seg) { ZerosArePage(file, seg, va); }
      ghost var mid := target.pages;
      ghost var last := home;
      var ok;
      ok, home := target.MapPage(va, PermsOf(seg.flags), None);
      if !ok { return Refused, written, home; }
      if va > 0 { home := last; }
      if Contained(file, seg) {
        MappedStep(before, mid, target.pages, Meant(file), seg, PageDown(seg.vaddr), va, last, home);
      }
      written := written + PAGE;
    }
    r := Loaded;
  }

  /** A segment whose last page lies below the limit, or that has no page, ends below 2^64. */
  lemma EndIsLow(seg: Segment, limit: Word)
    requires PageUp(seg.vaddr + seg.memsz) <= limit || (seg.memsz == 0 && seg.vaddr % PAGE == 0)
    ensures EndFits(seg)
  {
    assert WORD_LIMIT % PAGE == 0;
  }

  /** Where the three phases end. */
  lemma EndOfPhases(seg: Segment, first: nat, second: nat, third: nat)
    requires seg.filesz <= seg.memsz
    requires first == if seg.vaddr % PAGE == 0 then 0 else PAGE - seg.vaddr % PAGE
    requires second == first || second < seg.filesz + PAGE
    requires third == second || third < seg.memsz + PAGE
    requires seg.memsz <= third && first <= second <= third && (seg.vaddr + third) % PAGE == 0
    ensures seg.vaddr + third == PageUp(seg.vaddr + seg.memsz)
  {
    var up := PageUp(seg.vaddr + seg.memsz);
    assert seg.vaddr + third >= up by { SamePage(seg.vaddr + third, up); }
    if third == first {
      FirstPageEnd(seg.vaddr, seg.memsz, first);
    } else {
      SamePage(up, seg.vaddr + third);
    }
  }

  lemma SamePage(a: nat, b: nat)
    requires a % PAGE == 0 && b % PAGE == 0 && a + PAGE > b
    ensures a >= b
  {
  }

  lemma FirstPageEnd(vaddr: nat, memsz: nat, first: nat)
    requires first == (if vaddr % PAGE == 0 then 0 else PAGE - vaddr % PAGE) && memsz <= first
    ensures vaddr + first == PageUp(vaddr + memsz)
  {
  }

  lemma FirstEnds(vaddr: nat)
    ensures if vaddr % PAGE == 0 then PageDown(vaddr) == vaddr
      else vaddr + (PAGE - vaddr % PAGE) == PageDown(vaddr) + PAGE
  {
  }

  /** The first phase: nothing, or the page in which the segment starts. */
  method LoadFirst(s: InStream, buf: array<char>, target: Target, seg: Segment)
      returns (r: Loading, first: nat, ghost home: nat)
    requires buf.Length == PAGE && !s.failed && s.pos == seg.offset <= |s.data| && seg.filesz <= seg.memsz
    modifies s, buf, target
    ensures r != Aborted && (r == Undefined ==> !Contained(s.data, seg))
    ensures Counted(r, old(target.failures), target.failures)
    ensures old(target.Valid()) ==> target.Valid()
    ensures r == Loaded ==>
      && first == (if seg.vaddr % PAGE == 0 then 0 else PAGE - seg.vaddr % PAGE)
      && !s.failed && s.pos == seg.offset + Lesser(first, seg.filesz) <= |s.data|
      && (seg.vaddr + first) % PAGE == 0 && (first == 0 || seg.vaddr + first <= target.limit)
    ensures r == Loaded && Contained(s.data, seg) ==>
      Mapped(old(target.pages), target.pages, Meant(s.data), seg, PageDown(seg.vaddr), seg.vaddr + first, home)
  {
    hide Mapped, PageDown, PageUp, EndFits;
    FirstEnds(seg.vaddr);
    home, first := 0, 0;
    if seg.vaddr % PAGE != 0 {
      r, home := FirstPage(s, buf, target, seg);
      if r != Loaded { return; }
      first := PAGE - seg.vaddr % PAGE;
    } else {
      if Contained(s.data, seg) { MappedStart(target.pages, Meant(s.data), seg, seg.vaddr, home); }
      r := Loaded;
    }
  }

  /** One PT_LOAD segment in three phases: the pages that cover it, with its bytes. */
  method LoadSegment(s: InStream, buf: array<char>, target: Target, seg: Segment) returns (r: Loading, ghost home: nat)
    requires buf.Length == PAGE && !s.failed && seg.filesz <= seg.memsz
    modifies s, buf, target
    ensures r != Aborted && (r == Undefined ==> !Contained(s.data, seg))
    ensures Counted(r, old(target.failures), target.failures)
    ensures old(target.Valid()) ==> target.Valid()
    ensures r == Loaded ==> !s.failed && Contained(s.data, seg) && EndFits(seg)
    ensures r == Loaded ==>
      Mapped(old(target.pages), target.pages, Meant(s.data), seg, PageDown(seg.vaddr), PageUp(seg.vaddr + seg.memsz),
        home)
  {
    hide Mapped, PageDown, PageUp, EndFits, Lesser;
    home := 0;
    ghost var before := target.pages;
    s.Seek(seg.offset);
    if s.failed { return Undefined, 0; }
    var first, second, third;
    r, first, home := LoadFirst(s, buf, target, seg);
    if r != Loaded { return; }
    r, second, home := FilePages(s, buf, target, seg, first, before, home);
    if r != Loaded { return; }
    r, third, home := ZeroPages(target, seg, second, s.data, before, home);
    if r != Loaded { return; }
    EndOfPhases(seg, first, second, third);
    EndIsLow(seg, target.limit);
  }

  /** Every loaded segment has its bytes in the file. */
  predicate Loadable(file: seq<char>, segs: seq<Segment>) {
    forall seg :: seg in segs && Loads(seg) ==> Contained(file, seg)
  }

  predicate EndsFit(segs: seq<Segment>) {
    forall seg :: seg in segs && Loads(seg) ==> EndFits(seg)
  }

  predicate HeadersRead(file: seq<char>) {
    HeaderOf(file).Some? && Segments(file, HeaderOf(file).value.phoff, HeaderOf(file).value.phnum).Some?
  }

  /** The program headers of a file whose header is right and that holds them all. */
  function SegmentsOf(file: seq<char>): seq<Segment> {
    if HeadersRead(file) then Segments(file, HeaderOf(file).value.phoff, HeaderOf(file).value.phnum).value else []
  }

  lemma SegmentOf(file: seq<char>, i: nat)
    requires HeadersRead(file) && i < HeaderOf(file).value.phnum
    ensures |SegmentsOf(file)| == HeaderOf(file).value.phnum
    ensures SegmentAt(file, HeaderOf(file).value.phoff + PROGRAM_HEADER * i) == Some(SegmentsOf(file)[i])
    ensures SegmentsOf(file)[..i + 1] == SegmentsOf(file)[..i] + [SegmentsOf(file)[i]]
    ensures SegmentsOf(file)[i] in SegmentsOf(file)
  {
    hide SegmentAt, HeaderOf;
  }

  lemma ApmFacts(file: seq<char>)
    requires ApmValid(file)
    ensures HeadersRead(file) && HeaderOf(file).value.phoff <= |file|
    ensures forall seg :: seg in SegmentsOf(file) && Loads(seg) ==> seg.filesz <= seg.memsz
  {
    hide SegmentAt, HeaderOf;
  }

  lemma CountOf(file: seq<char>)
    requires HeadersRead(file)
    ensures HeaderOf(file).Some? && |SegmentsOf(file)| == HeaderOf(file).value.phnum
  {
  }

  /** The loader's main loop over the program headers. */
  method LoadSegments(s: InStream, buf: array<char>, target: Target) returns (r: Loading, ghost homes: seq<nat>)
    requires buf.Length == PAGE && !s.failed && ApmValid(s.data) && s.pos == HeaderOf(s.data).value.phoff
    modifies s, buf, target
    ensures r != Aborted && (r == Undefined ==> !Loadable(s.data, SegmentsOf(s.data)))
    ensures Counted(r, old(target.failures), target.failures) && (old(target.Valid()) ==> target.Valid())
    ensures r == Loaded ==>
      && Loadable(s.data, SegmentsOf(s.data)) && EndsFit(SegmentsOf(s.data))
      && Built(old(target.pages), target.pages, Meant(s.data), SegmentsOf(s.data), homes)
  {
    hide ApmValid, HeaderOf, HeadersRead, SegmentsOf, SegmentAt, Built, Mapped, Contained, EndFits, PageDown, PageUp;
    ghost var before, file := target.pages, s.data;
    ghost var segs := SegmentsOf(file);
    ApmFacts(file);
    CountOf(file);
    var h := HeaderOf(s.data).value;
    BuiltStart(before, Meant(file));
    assert segs[..0] == [];
    homes := [];
    for i := 0 to h.phnum
      invariant target.failures == old(target.failures) && (old(target.Valid()) ==> target.Valid())
      invariant !s.failed && s.pos == h.phoff + PROGRAM_HEADER * i && i <= |segs|
      invariant Loadable(file, segs[..i]) && EndsFit(segs[..i])
      invariant Built(before, target.pages, Meant(file), segs[..i], homes)
    {
      SegmentOf(file, i);
      var found := s.ReadSegment();
      var seg := found.value;
      ghost var mid := target.pages;
      if !Loads(seg) {
        BuiltSkip(before, mid, Meant(file), segs[..i], seg, homes, 0);
        homes := homes + [0];
        continue;
      }
      var back := s.pos;
      ghost var home;
      r, home := LoadSegment(s, buf, target, seg);
      if r != Loaded {
        assert seg in segs;
        return;
      }
      BuiltStep(before, mid, target.pages, Meant(file), segs[..i], seg, homes, home);
      homes := homes + [home];
      s.Seek(back);
    }
    assert segs[..|segs|] == segs;
    r := Loaded;
  }

  /** elf_loader::load: the entry point becomes the program counter. What is loaded lies in the file
      and in the address space. */
  method ApmLoad(file: seq<char>, target: Target) returns (r: Loading, pc: nat, ghost homes: seq<nat>)
    modifies target
    ensures !ApmValid(file) ==> r == Refused && target.pages == old(target.pages)
    ensures ApmValid(file) && Loadable(file, SegmentsOf(file)) ==> r in {Loaded, Refused}
    ensures ApmValid(file) ==> Counted(r, old(target.failures), target.failures)
    ensures r == Loaded ==> Executable(file) && ApmValid(file) && pc == HeaderOf(file).value.entry
    ensures old(target.Valid()) ==> target.Valid()
    ensures r == Loaded ==>
      && Loadable(file, SegmentsOf(file)) && EndsFit(SegmentsOf(file))
      && Built(old(target.pages), target.pages, Meant(file), SegmentsOf(file), homes)
  {
    hide ApmValid, HeaderOf, SegmentsOf, Built, Loadable, EndsFit, Executable;
    HeaderNeeds(file);
    pc, homes := 0, [];
    var s := new InStream(file);
    var ok := IsValidFormat(s);
    if !ok { return Refused, 0, []; }
    ApmFacts(file);
    var h := HeaderOf(file).value;
    s.Seek(h.phoff);
    var buf := new char[PAGE];
    r, homes := LoadSegments(s, buf, target);
    if r == Loaded { pc := h.entry; }
  }
}
