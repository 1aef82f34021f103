/** The memory manager's task table: page-table index, recorded pages and quotas of every
    attached task, changed together with the kernel's page-table trees. */
module TaskTables {
  import opened Options
  import opened Paging
  import opened Kernel
  import opened AddressSpace
  import opened SpaceSteps
  import opened Quota
  import opened TaskSteps
  import opened AddressSearch
  import opened SpaceFailures
  import opened PageObjects
  import opened StackBooks
  import opened StackGrowth
  import opened Words

  /** Panic ends the server: a C assertion fails, or a copy leaves its page. */
  datatype Code = Ok | Failure | IllArgs | AlreadyAttached | NotAttached | Overflow | AlreadyMapped | NotMapped | Panic

  /** Subtraction of addresses is modulo 2^64. */
  function Minus(a: int, b: int): Word {
    Wrap(a - b)
  }

  /** The kernel differs only by new objects and by new tables in slots that were empty. */
  ghost predicate OnlyTablesAdded(k0: State, k1: State) {
    && k1.pages == k0.pages
    && (forall key :: key in k0.slots ==> key in k1.slots && k1.slots[key] == k0.slots[key])
    && (forall key :: key in k1.slots && key !in k0.slots ==>
      k1.slots[key].Subtable? && k1.slots[key].table !in k0.tables)
    && (forall t :: t in k0.tables ==> t in k1.tables && k1.tables[t] == k0.tables[t])
  }

  /** Added tables translate nothing, so no address translates differently. */
  lemma {:induction false} AddedTablesAreInvisible(k0: State, k1: State, t: Cap, level: nat, va: nat)
    requires Wf(k0) && OnlyTablesAdded(k0, k1)
    ensures Translate(k1, t, level, va) == if t in k0.tables then Translate(k0, t, level, va) else None
    decreases level
  {
    var key := (t, Index(va, level));
    if key in k0.slots { assert SlotOk(k0, t, Index(va, level)); }
    if key in k1.slots && k1.slots[key].Subtable? && level > 0 {
      AddedTablesAreInvisible(k0, k1, k1.slots[key].table, level - 1, va);
    }
  }

  /** Recorded addresses, quotas and page objects stay; only tables were added. */
  twostate predicate OnlyIndexGrew(t: TaskTable)
    reads t
  {
    && Books(t.table) == Books(old(t.table))
    && IndexGrew(old(t.table), t.table)
    && OnlyTablesAdded(old(t.kernel), t.kernel)
  }

  lemma MoveEffects(k: State, infos: map<Id, TaskInfo>, src: Id, dst: Id, level: nat, srcVa: nat, va: nat,
      perms: Perms, page: Cap, granted: nat)
    requires src in infos && dst in infos && page in k.pages
    requires (level, PageBase(va, level + 1)) in infos[dst].tables
    requires (level, PageBase(srcVa, level + 1)) in infos[src].tables
    requires RemapPage(k, infos[dst].tables[(level, PageBase(va, level + 1))], Index(va, level), perms, page,
                       infos[src].tables[(level, PageBase(srcVa, level + 1))]).Some?
    ensures OnePageChanged(k.pages, AfterMove(k, infos, src, dst, level, srcVa, va, perms, page).pages, page, perms)
    ensures Books(Moved(infos, src, dst, srcVa, va, page, granted, PageSize(level)))
         == Moved(Books(infos), src, dst, srcVa, va, page, granted, PageSize(level))
  {
    BooksOfMove(infos, src, dst, srcVa, va, page, granted, PageSize(level));
  }

  lemma NothingFilled(size: nat)
    ensures TopFilled(size, []) == Zeros(size)
  {
  }

  /** A copy to the end of a page recorded at `here` fills the top of that page alone. */
  lemma StoreFillsTop(k: State, info: TaskInfo, m: Layout, here: nat, data: seq<char>)
    requires Wf(k) && SpaceOk(k, info, m) && here in info.pages && info.pages[here] in k.pages
    requires k.pages[info.pages[here]].bytes == Zeros(PageSize(k.pages[info.pages[here]].level))
    ensures var page := info.pages[here];
      var size := PageSize(k.pages[page].level);
      var stored := Store(k, Root(info, m), m.max, here + (if |data| < size then size - |data| else 0), data);
      && (stored.Some? <==> |data| <= size)
      && (stored.Some? ==> stored.value == k.(pages := k.pages[page := k.pages[page].(bytes := TopFilled(size, data))]))
  {
    var page := info.pages[here];
    var level := k.pages[page].level;
    var size := PageSize(level);
    PageSizeIsPositive(level);
    assert PageEntryOk(k, info, m, here);
    var offset := if |data| < size then size - |data| else 0;
    if data == [] {
      assert TopFilled(size, data) == k.pages[page].bytes;
      assert k.pages[page := k.pages[page].(bytes := TopFilled(size, data))] == k.pages;
    } else {
      RecordedTranslates(k, info, m, here, here + offset);
      InsidePage(here, level, here + offset);
      if |data| <= size {
        assert Overwrite(k.pages[page].bytes, offset, data) == TopFilled(size, data);
      }
    }
  }

  /** The limit of vmap as a number: below zero it wraps around. */
  lemma LimitIs(end: Word, stack: Word, size: nat)
    requires 0 < size <= end
    ensures Minus(Minus(end, stack), size) ==
      if stack + size <= end then end - stack - size else WORD_LIMIT + end - stack - size
  {
    if stack <= end { WrapFits(end - stack); }
  }

  /** Which addresses pass the test of vmap, for every stack quota: where quota and page fit the
      space, those that leave room for both; otherwise nearly all. */
  lemma LimitIsRange(end: Word, stack: Word, size: nat, va: nat)
    requires 0 < size <= end
    ensures va < Minus(Minus(end, stack), size) <==>
      if stack + size <= end then va + size + stack < end else va + size + stack < WORD_LIMIT + end
  {
    LimitIs(end, stack, size);
  }

  /** A search that ran out of candidates yields an address that the limit rejects exactly when
      the stack quota leaves room for the page, or the wrapped limit still lies below. */
  lemma ExhaustedIsTooHigh(end: Word, stack: Word, size: nat, va: nat)
    requires 0 < size <= end <= va + size
    ensures Minus(Minus(end, stack), size) <= va <==> stack + size <= end || WORD_LIMIT + end <= stack + size + va
  {
    LimitIs(end, stack, size);
  }

  /** A space of 256 GiB, a stack quota as large, and a page of 1 GiB: the last candidate passes. */
  lemma ExhaustedPasses()
    ensures var giga := 512 * MEGA_PAGE_SIZE;
      Minus(Minus(256 * giga, 256 * giga), giga) > 255 * giga
  {
  }

  lemma VirtAddrKept(k0: State, k1: State, page: Cap)
    requires Wf(k0) && Wf(k1) && OnlyTablesAdded(k0, k1) && page in k0.pages && k0.pages[page].spot.At?
    ensures VirtAddr(k1, page) == VirtAddr(k0, page)
  {
    assert PageOk(k0, page) && SlotOk(k0, k0.pages[page].spot.table, k0.pages[page].spot.index);
  }

  lemma InsideSpace(m: Layout, va: nat, level: nat)
    requires LayoutOk(m) && level <= m.max && va + PageSize(level) <= m.end
    ensures PageBase(va, m.max + 1) == 0
  {
    PageSizeIsPositive(level);
    ZeroIsAligned(m.max + 1);
    InsidePage(0, m.max + 1, va);
  }

  lemma ExtendByTable(k0: State, k1: State, parent: Cap, index: nat, child: Cap)
    requires OnlyTablesAdded(k0, k1) && MapTable(k1, parent, index, child).Some? && child !in k0.tables
    ensures OnlyTablesAdded(k0, MapTable(k1, parent, index, child).value)
  {
  }

  lemma CreateAddsTables(k: State)
    requires Wf(k)
    ensures OnlyTablesAdded(k, k) && OnlyTablesAdded(k, CreateTable(k))
  {
    assert k.next in k.tables ==> TableOk(k, k.next);
  }

  lemma IndexGrowsByTable(infos: map<Id, TaskInfo>, id: Id, level: nat, base: nat, child: Cap)
    requires id in infos && (level, base) !in infos[id].tables
    ensures IndexGrew(infos, infos) && IndexGrew(infos, infos[id := WithTable(infos[id], level, base, child)])
  {
  }

  // ---------- the stack ----------

  datatype Range = Range(start: nat, end: nat, size: nat)

  /** The range grow_stack fills, in 64-bit arithmetic. */
  function Growth(m: Layout, info: TaskInfo, size: nat): Range {
    var rounded := Minus(size + 4095, 0) / 4096 * 4096;
    var end := Minus(m.end, info.stackCommit);
    Range(Minus(end, rounded), end, rounded)
  }

  lemma GrowthIsSize(m: Layout, info: TaskInfo, size: nat)
    ensures var g := Growth(m, info, size); g.start <= g.end ==> g.end - g.start == g.size
  {
    hide Minus;
    MinusIs(Minus(m.end, info.stackCommit), Minus(size + 4095, 0) / 4096 * 4096);
  }

  /** The range as numbers: it ends below what the stack has committed, and its size is the least
      multiple of 4096 that holds the request, or 0 where that is 2^64. */
  lemma GrowthIs(m: Layout, info: TaskInfo, size: Word)
    requires m.end < WORD_LIMIT
    ensures var n := if size <= WORD_LIMIT - 4096 then (size + 4095) / 4096 * 4096 else 0;
      var g := Growth(m, info, size);
      && g.size == n
      && (info.stackCommit + n <= m.end ==> g == Range(m.end - info.stackCommit - n, m.end - info.stackCommit, n))
  {
    hide Minus;
    MinusIs(m.end, info.stackCommit);
    RoundedIs(size);
    MinusIs(Minus(m.end, info.stackCommit), Minus(size + 4095, 0) / 4096 * 4096);
  }

  lemma RoundedIs(size: Word)
    ensures Minus(size + 4095, 0) / 4096 * 4096 == if size <= WORD_LIMIT - 4096 then (size + 4095) / 4096 * 4096 else 0
  {
    WrapOnce(size + 4095);
  }

  lemma MinusIs(a: Word, b: Word)
    ensures Minus(a, b) == if b <= a then a - b else a - b + WORD_LIMIT
  {
  }

  function NewTask(root: Cap, m: Layout, stack: Word, total: Word, commit: Word): TaskInfo {
    TaskInfo(stack, total, commit, commit, map[(m.max, 0) := root], map[])
  }

  const DEFAULT_STACK: Word := MEGA_PAGE_SIZE
  const DEFAULT_TOTAL: Word := 32 * 512 * MEGA_PAGE_SIZE

  function OrDefault(requested: Word, default_: Word): Word {
    if requested == 0 then default_ else requested
  }

  /** The record has this page at this address. */
  predicate Has(info: TaskInfo, va: nat, page: Cap) {
    va in info.pages && info.pages[va] == page
  }

  function Bytes(data: Option<seq<char>>): seq<char> {
    if data.Some? then data.value else []
  }

  class TaskTable {
    const m: Layout
    const self: Id

    var kernel: State
    var table: map<Id, TaskInfo>
    ghost var internals: set<Id>
    /** Bytes that were charged a second time by the data path of Map, per task. */
    ghost var twice: map<Id, nat>
    /** The total quota of a task as an unbounded number: what it was attached with, and what was
        added since. */
    ghost var quota: map<Id, nat>
    /** How often there was no memory for a page or a table. */
    ghost var denials: nat
    /** How often the server could not map a page of the data path for itself. */
    ghost var refusals: nat

    ghost predicate Valid()
      reads this
    {
      && LayoutOk(m)
      && AllOk(kernel, table, internals, m)
      && QuotasOk(kernel.pages, table, internals, twice, quota, m)
    }

    constructor (m: Layout, self: Id, kernel: State)
      requires LayoutOk(m) && Wf(kernel)
      ensures Valid() && table == map[] && this.m == m && this.self == self && this.kernel == kernel
    {
      this.m := m;
      this.self := self;
      this.kernel := kernel;
      table := map[];
      internals := {};
      twice, quota := map[], map[];
      denials, refusals := 0, 0;
    }

    predicate InRange(level: nat, va: nat) {
      Aligned(va, level) && 0 < va && va + PageSize(level) <= m.end
    }

    /** The bound vmap, vpmap and vpremap test an address against. */
    predicate TooHigh(info: TaskInfo, level: nat, va: nat) {
      Minus(Minus(m.end, info.stackAvailable), PageSize(level)) <= va
    }

    /** The checks of map, and of remap for its destination, in their order. */
    function MapCheck(info: TaskInfo, level: nat, va: nat): Code {
      if !InRange(level, va) then Panic
      else if info.totalAvailable < Wrap(info.totalCommit + PageSize(level)) then Overflow
      else if va in info.pages then AlreadyMapped
      else Ok
    }

    /** The checks of vmap for an address. */
    function VMapCheck(info: TaskInfo, level: nat, va: nat): Code {
      if !Aligned(va, level) || TooHigh(info, level, va) then IllArgs else MapCheck(info, level, va)
    }

    /** The checks of vpmap and vpremap for an address. */
    function VpCheck(info: TaskInfo, level: nat, va: nat): Code {
      if !Aligned(va, level) then IllArgs
      else if va in info.pages then AlreadyMapped
      else if TooHigh(info, level, va) then IllArgs
      else if !InRange(level, va) then Panic
      else Ok
    }

    /** The three checks as conditions on numbers. */
    lemma ChecksInNumbers(info: TaskInfo, level: nat)
      requires LayoutOk(m) && level <= m.max
      ensures PageSize(level) > 0
      ensures forall va: nat {:trigger MapCheck(info, level, va)} ::
        var size := PageSize(level);
        MapCheck(info, level, va) ==
        if va % size != 0 || va == 0 || m.end < va + size then Panic
        else if info.totalAvailable < (info.totalCommit + size) % WORD_LIMIT then Overflow
        else if va in info.pages then AlreadyMapped
        else Ok
      ensures forall va: nat {:trigger TooHigh(info, level, va)} ::
        var size, needed := PageSize(level), info.stackAvailable + PageSize(level);
        TooHigh(info, level, va) <==> (if needed <= m.end then m.end else WORD_LIMIT + m.end) <= va + needed
      ensures forall va: nat {:trigger Aligned(va, level)} :: Aligned(va, level) <==> va % PageSize(level) == 0
    {
      hide PageSize, Aligned, Minus;
      AlignedIsDivisible(0, level);
      PageSizeGrows(level, m.max);
      forall va: nat {:trigger Aligned(va, level)} ensures Aligned(va, level) <==> va % PageSize(level) == 0 {
        AlignedIsDivisible(va, level);
      }
      forall va: nat {:trigger TooHigh(info, level, va)}
        ensures var needed := info.stackAvailable + PageSize(level);
          TooHigh(info, level, va) <==> (if needed <= m.end then m.end else WORD_LIMIT + m.end) <= va + needed
      {
        LimitIsRange(m.end, info.stackAvailable, PageSize(level), va);
      }
    }

    lemma VpCheckInNumbers(info: TaskInfo, level: nat)
      requires Valid() && level <= m.max
      ensures PageSize(level) > 0
      ensures forall va: nat {:trigger VpCheck(info, level, va)} ::
        var size := PageSize(level);
        VpCheck(info, level, va) ==
        if va % size != 0 then IllArgs
        else if va in info.pages then AlreadyMapped
        else if (if info.stackAvailable + size <= m.end then m.end else WORD_LIMIT + m.end)
                <= va + info.stackAvailable + size then IllArgs
        else if va == 0 || m.end < va + size then Panic
        else Ok
    {
      hide TaskTable.Valid, LayoutOk, PageSize, Aligned, TaskTable.TooHigh;
      SpaceEnds();
      ChecksInNumbers(info, level);
    }

    lemma MoveInNumbers(info: TaskInfo, level: nat, srcVa: nat, va: nat, code: Code)
      requires Valid() && level <= m.max
      requires var check := VpCheck(info, level, va);
        if check in {IllArgs, AlreadyMapped} then code == check
        else if !InRange(level, srcVa) then code == Panic
        else if check == Panic then code in {Panic, Failure}
        else code in {Ok, Failure}
      ensures var size := PageSize(level);
        size > 0
        && if va % size != 0 then code == IllArgs
           else if va in info.pages then code == AlreadyMapped
           else if (if info.stackAvailable + size <= m.end then m.end else WORD_LIMIT + m.end)
                   <= va + info.stackAvailable + size then code == IllArgs
           else if srcVa % size != 0 || srcVa == 0 || m.end < srcVa + size then code == Panic
           else if va == 0 || m.end < va + size then code in {Panic, Failure}
           else code in {Ok, Failure}
    {
      hide TaskTable.Valid, TaskTable.InRange, TaskTable.VpCheck, PageSize;
      VpCheckInNumbers(info, level);
      RangeInNumbers(level, srcVa);
    }

    lemma RangeInNumbers(level: nat, va: nat)
      ensures PageSize(level) > 0
      ensures InRange(level, va) <==> !(va % PageSize(level) != 0 || va == 0 || m.end < va + PageSize(level))
    {
      hide PageSize, Aligned;
      AlignedIsDivisible(va, level);
    }

    lemma VMapCheckInNumbers(info: TaskInfo, level: nat, va: nat)
      requires LayoutOk(m) && level <= m.max
      ensures PageSize(level) > 0
      ensures var size, needed := PageSize(level), info.stackAvailable + PageSize(level);
        VMapCheck(info, level, va) ==
        if va % size != 0 || (if needed <= m.end then m.end else WORD_LIMIT + m.end) <= va + needed then IllArgs
        else if va == 0 || m.end < va + size then Panic
        else if info.totalAvailable < (info.totalCommit + size) % WORD_LIMIT then Overflow
        else if va in info.pages then AlreadyMapped
        else Ok
      ensures info.stackAvailable + PageSize(level) <= m.end && va > 0 ==> VMapCheck(info, level, va) != Panic
    {
      hide LayoutOk, PageSize, Aligned, TaskTable.MapCheck, TaskTable.TooHigh;
      ChecksInNumbers(info, level);
      assert Aligned(va, level) <==> va % PageSize(level) == 0;
      MapCheckInNumbers(info, level, va);
    }

    lemma MapCheckInNumbers(info: TaskInfo, level: nat, va: nat)
      requires LayoutOk(m) && level <= m.max
      ensures PageSize(level) > 0
      ensures var size := PageSize(level);
        MapCheck(info, level, va) ==
        if va % size != 0 || va == 0 || m.end < va + size then Panic
        else if info.totalAvailable < (info.totalCommit + size) % WORD_LIMIT then Overflow
        else if va in info.pages then AlreadyMapped
        else Ok
    {
      hide LayoutOk, PageSize, Aligned;
      AlignedIsDivisible(va, level);
    }

    /** A check that fails decides the result; after it only the kernel can refuse. */
    predicate Follows(code: Code, check: Code) {
      if check == Ok then code in {Ok, Failure} else code == check
    }

    /** One new table, hung below the registered table that covers va one level up. */
    method Hang(id: Id, level: nat, va: nat) returns (ok: bool)
      requires Valid() && id in table && level < m.max
      requires (level + 1, PageBase(va, level + 2)) in table[id].tables
      requires (level, PageBase(va, level + 1)) !in table[id].tables
      modifies this`kernel, this`table, this`denials
      ensures Valid() && OnlyIndexGrew(this) && table.Keys == old(table.Keys)
      ensures ok ==> (level, PageBase(va, level + 1)) in table[id].tables
      ensures denials >= old(denials)
      ensures !ok ==> denials > old(denials) || id in internals || !Uncovered(kernel, table[id], va)
    {
      hide AllOk, QuotasOk, SpaceOk, Complete, Wf, Uncovered, OnlyTablesAdded, IndexGrew, PageSize, Wrap;
      TableIsOk(id);
      CreateAddsTables(kernel);
      var base := PageBase(va, level + 1);
      IndexGrowsByTable(table, id, level, base, kernel.next);
      var granted: bool := *;
      if !granted {
        denials := denials + 1;
        return false;
      }
      var child := kernel.next;
      CreateTableKeepsWf(kernel);
      QuietStep(kernel, CreateTable(kernel), table, internals, m);
      kernel := CreateTable(kernel);
      BaseIsAligned(va, level + 1);
      UpperPartKept(va, level + 1, level + 2);
      UpperPartKept(va, level + 1, level + 1);
      var parent := table[id].tables[(level + 1, PageBase(va, level + 2))];
      var mapped := MapTable(kernel, parent, Index(va, level + 1), child);
      if mapped.None? {
        HangIsExplained(id, level, va, child);
        return false;
      }
      NewTableStep(kernel, table, internals, m, id, level, base, child);
      ExtendByTable(old(kernel), kernel, parent, Index(va, level + 1), child);
      NothingMore(twice, id);
      NothingMore(quota, id);
      QuotaOfOne(kernel.pages, table, internals, twice, quota, m, id, WithTable(table[id], level, base, child), 0, 0);
      BooksOfUpdate(table, id, WithTable(table[id], level, base, child));
      kernel := mapped.value;
      table := table[id := WithTable(table[id], level, base, child)];
      ok := true;
    }

    lemma HangIsExplained(id: Id, level: nat, va: nat, child: Cap)
      requires Valid() && id in table && level < m.max
      requires (level + 1, PageBase(va, level + 2)) in table[id].tables
        && (level, PageBase(va, level + 1)) !in table[id].tables
      requires child in kernel.tables && kernel.tables[child].Unplaced?
      requires MapTable(kernel, table[id].tables[(level + 1, PageBase(va, level + 2))], Index(va, level + 1),
        child).None?
      ensures id in internals || !Uncovered(kernel, table[id], va)
    {
      if id !in internals {
        assert SpaceOk(kernel, table[id], m) && Complete(kernel, table[id]);
        HangFails(kernel, table[id], m, level, va, child);
      }
    }

    lemma RootIsRegistered(id: Id)
      requires Valid() && id in table
      ensures LayoutOk(m) && (m.max, 0) in table[id].tables
    {
      assert SpaceOk(kernel, table[id], m);
    }

    /** Grows the table tree down to `level` around va. */
    method Walk(id: Id, level: nat, va: nat) returns (code: Code, found: Cap)
      requires Valid() && id in table
      modifies this`kernel, this`table, this`denials
      ensures Valid() && OnlyIndexGrew(this) && table.Keys == old(table.Keys)
      ensures code in {Ok, Failure, Panic} && (code == Panic <==> !InRange(level, va) || level > m.max)
      ensures code == Ok ==>
        && (level, PageBase(va, level + 1)) in table[id].tables
        && found == table[id].tables[(level, PageBase(va, level + 1))]
      ensures denials >= old(denials)
      ensures code == Failure ==>
        && (denials > old(denials) || id in internals || !Uncovered(kernel, table[id], va))
        && (level, PageBase(va, level + 1)) !in old(table[id].tables)
    {
      hide Wrap, TaskTable.Valid, SpaceOk, Complete, Uncovered, Scale, Books;
      found := 0;
      if !InRange(level, va) || level > m.max { return Panic, 0; }
      RootIsRegistered(id);
      InsideSpace(m, va, level);
      var lv := m.max - 1;
      while lv >= level
        invariant level - 1 <= lv < m.max
        invariant Valid() && OnlyIndexGrew(this) && table.Keys == old(table.Keys)
        invariant id in table && (lv + 1, PageBase(va, lv + 2)) in table[id].tables
        invariant denials >= old(denials)
        invariant (level, PageBase(va, level + 1)) in old(table[id].tables) ==>
          (level, PageBase(va, level + 1)) in table[id].tables
      {
        if (level, PageBase(va, level + 1)) in table[id].tables {
          TableIsOk(id);
          RegisteredAbove(kernel, table[id], m, level, va, lv);
        }
        if (lv, PageBase(va, lv + 1)) !in table[id].tables {
          var ok := Hang(id, lv, va);
          if !ok { return Failure, 0; }
        }
        lv := lv - 1;
      }
      code := Ok;
      found := table[id].tables[(level, PageBase(va, level + 1))];
    }

    /** The search for a free address: every candidate it passes over meets a recorded page. */
    method RandomVa(id: Id, level: nat) returns (va: nat)
      requires Valid() && id in table && level <= m.max
      ensures Searched(kernel, table[id], m, level, va)
    {
      var info := table[id];
      assert SpaceOk(kernel, info, m);
      PageSizeGrows(level, m.max);
      var endAddr := m.end - PageSize(level);
      va := SearchStart(level);
      StartIsAligned(level);
      if level == KILO_PAGE { NothingAcrossStart(kernel, info, m); }
      while va < endAddr && va in info.pages
        invariant SearchStart(level) <= va && Aligned(va, level)
        invariant forall c :: SearchStart(level) <= c < va && Aligned(c, level) ==> Touched(kernel, info, c, level)
        invariant level == KILO_PAGE ==> NothingAcross(kernel, info, va)
        decreases endAddr - va
      {
        assert PageEntryOk(kernel, info, m, va);
        var size := PageSize(kernel.pages[info.pages[va]].level);
        SkipStep(kernel, info, m, va, level);
        va := RoundUp(va + size, PageSize(level));
      }
      if level == KILO_PAGE && va < endAddr { AcrossIsUncovered(kernel, info, va); }
    }

    // ---------- shared steps ----------

    method AddPage(level: nat, perms: Perms) returns (page: Cap)
      requires Valid()
      modifies this`kernel
      ensures Valid() && page !in old(kernel.pages)
      ensures kernel == CreatePage(old(kernel), level, perms)
      ensures kernel.pages == old(kernel.pages)[page := VirtPage(level, perms, Nowhere, Zeros(PageSize(level)))]
    {
      page := kernel.next;
      CreatePageKeepsWf(kernel, level, perms);
      QuietStep(kernel, CreatePage(kernel, level, perms), table, internals, m);
      SizesKeptQuotas(kernel, CreatePage(kernel, level, perms).pages, table, internals, twice, quota, m);
      kernel := CreatePage(kernel, level, perms);
    }

    /** map_page and the record that follows it. */
    method PlacePage(id: Id, level: nat, va: nat, perms: Perms, page: Cap, granted: nat) returns (ok: bool)
      requires Valid() && id in table && level <= m.max && InRange(level, va)
      requires (level, PageBase(va, level + 1)) in table[id].tables && va !in table[id].pages
      requires page in kernel.pages && kernel.pages[page].level == level && kernel.pages[page].spot.Nowhere?
      requires granted >= PageSize(level) || Wrap(table[id].totalCommit + PageSize(level)) <= table[id].totalAvailable
      modifies this`kernel, this`table, this`quota
      ensures Valid() && table.Keys == old(table.Keys)
      ensures ok ==>
        && id in old(quota)
        && Books(table) == Books(old(table))[id := Entered(Books(old(table))[id], va, page, granted, PageSize(level))]
        && OnePageChanged(old(kernel.pages), kernel.pages, page, perms)
        && quota == old(quota)[id := old(quota[id]) + granted]
      ensures !ok ==> table == old(table) && kernel == old(kernel) && quota == old(quota)
      ensures !ok ==> id in internals || InTheWay(kernel, table[id], level, va)
    {
      hide AllOk, QuotasOk, SpaceOk, Complete, Wf, InTheWay, PageSize, Wrap;
      TableIsOk(id);
      var found := table[id].tables[(level, PageBase(va, level + 1))];
      var mapped := MapPage(kernel, found, Index(va, level), perms, page);
      if mapped.None? {
        PlaceIsExplained(id, level, va, perms, page);
        return false;
      }
      EnterStep(kernel, table, internals, twice, quota, m, id, level, va, perms, page, granted);
      BooksOfUpdate(table, id, Entered(table[id], va, page, granted, PageSize(level)));
      kernel := mapped.value;
      quota := quota[id := quota[id] + granted];
      table := table[id := Entered(table[id], va, page, granted, PageSize(level))];
      ok := true;
    }

    lemma PlaceIsExplained(id: Id, level: nat, va: nat, perms: Perms, page: Cap)
      requires Valid() && id in table && level <= m.max && Aligned(va, level) && va !in table[id].pages
      requires (level, PageBase(va, level + 1)) in table[id].tables
      requires page in kernel.pages && kernel.pages[page].level == level && kernel.pages[page].spot.Nowhere?
      requires MapPage(kernel, table[id].tables[(level, PageBase(va, level + 1))], Index(va, level), perms, page).None?
      ensures id in internals || InTheWay(kernel, table[id], level, va)
    {
      if id !in internals {
        assert SpaceOk(kernel, table[id], m) && Complete(kernel, table[id]);
        PlaceFails(kernel, table[id], m, level, va, perms, page);
      }
    }

    /** Both walks, remap_page and the two records that follow it. */
    method MovePage(src: Id, dst: Id, level: nat, perms: Perms, srcVa: nat, va: nat, page: Cap, granted: nat)
        returns (code: Code)
      requires Valid() && src in table && dst in table && level <= m.max && va !in table[dst].pages
      requires page in kernel.pages && kernel.pages[page].level == level && kernel.pages[page].spot.At?
        && VirtAddr(kernel, page) == srcVa
      requires granted >= PageSize(level)
        || (Wrap(table[dst].totalCommit + PageSize(level)) <= table[dst].totalAvailable && srcVa in table[src].pages
          && table[src].pages[srcVa] == page)
      modifies this`kernel, this`table, this`quota, this`denials
      ensures Valid() && table.Keys == old(table.Keys)
      ensures code == Ok ==>
        && Books(table) == Moved(Books(old(table)), src, dst, srcVa, va, page, granted, PageSize(level))
        && OnePageChanged(old(kernel.pages), kernel.pages, page, perms)
        && (src !in internals ==> srcVa in old(table[src].pages) && old(table[src].pages[srcVa]) == page)
        && dst in old(quota) && quota == old(quota)[dst := old(quota[dst]) + granted]
      ensures code != Ok ==>
        Books(table) == Books(old(table)) && kernel.pages == old(kernel.pages) && quota == old(quota)
      ensures code in {Ok, Failure, Panic} && (code == Panic ==> !InRange(level, srcVa) || !InRange(level, va))
      ensures code == Ok ==> InRange(level, va)
      ensures !InRange(level, srcVa) ==> code == Panic
      ensures denials >= old(denials)
      ensures code == Failure ==>
        denials > old(denials) || dst in internals || InTheWay(kernel, table[dst], level, va)
          || !Has(old(table[src]), srcVa, page)
    {
      hide TaskTable.Valid, Moved, Wf, SpaceOk, VirtAddr, PageSize, Wrap, OnePageChanged;
      TableIsOk(src);
      if Has(table[src], srcVa, page) { SourceHolds(src, level, srcVa, page); }
      code := WalkBoth(src, dst, level, srcVa, va);
      if code != Ok { return; }
      TableIsOk(src);
      VirtAddrKept(old(kernel), kernel, page);
      assert Books(table)[dst] == Book(old(table[dst])) && Books(table)[src] == Book(old(table[src]));
      code := MoveLeaf(src, dst, level, perms, srcVa, va, page, granted);
    }

    /** A recorded page hangs in a registered table. */
    lemma SourceHolds(src: Id, level: nat, srcVa: nat, page: Cap)
      requires Valid() && src in table && Has(table[src], srcVa, page) && page in kernel.pages
        && kernel.pages[page].level == level
      ensures (level, PageBase(srcVa, level + 1)) in table[src].tables
      ensures kernel.pages[page].spot.At?
        && kernel.pages[page].spot.table == table[src].tables[(level, PageBase(srcVa, level + 1))]
    {
      assert SpaceOk(kernel, table[src], m);
      assert PageEntryOk(kernel, table[src], m, srcVa);
    }

    method WalkBoth(src: Id, dst: Id, level: nat, srcVa: nat, va: nat) returns (code: Code)
      requires Valid() && src in table && dst in table && level <= m.max
      modifies this`kernel, this`table, this`denials
      ensures Valid() && OnlyIndexGrew(this) && table.Keys == old(table.Keys)
      ensures code in {Ok, Failure, Panic} && (code == Panic ==> !InRange(level, srcVa) || !InRange(level, va))
      ensures !InRange(level, srcVa) ==> code == Panic
      ensures code == Ok ==>
        && InRange(level, va)
        && (level, PageBase(srcVa, level + 1)) in table[src].tables
        && (level, PageBase(va, level + 1)) in table[dst].tables
      ensures denials >= old(denials)
      ensures code == Failure ==>
        denials > old(denials) || dst in internals || !Uncovered(kernel, table[dst], va)
          || (level, PageBase(srcVa, level + 1)) !in old(table[src].tables)
    {
      var found;
      code, found := Walk(src, level, srcVa);
      if code != Ok { return; }
      code, found := Walk(dst, level, va);
    }

    /** remap_page between two registered tables, and the two records that follow it. */
    method MoveLeaf(src: Id, dst: Id, level: nat, perms: Perms, srcVa: nat, va: nat, page: Cap, granted: nat)
        returns (code: Code)
      requires Valid() && src in table && dst in table && level <= m.max && va !in table[dst].pages
        && InRange(level, va)
      requires (level, PageBase(srcVa, level + 1)) in table[src].tables
      requires (level, PageBase(va, level + 1)) in table[dst].tables
      requires page in kernel.pages && kernel.pages[page].level == level && kernel.pages[page].spot.At?
        && VirtAddr(kernel, page) == srcVa
      requires granted >= PageSize(level)
        || (Wrap(table[dst].totalCommit + PageSize(level)) <= table[dst].totalAvailable && srcVa in table[src].pages
          && table[src].pages[srcVa] == page)
      modifies this`kernel, this`table, this`quota
      ensures Valid() && table.Keys == old(table.Keys) && code in {Ok, Failure}
      ensures code == Ok ==>
        && Books(table) == Moved(Books(old(table)), src, dst, srcVa, va, page, granted, PageSize(level))
        && OnePageChanged(old(kernel.pages), kernel.pages, page, perms)
        && (src !in internals ==> srcVa in old(table[src].pages) && old(table[src].pages[srcVa]) == page)
        && dst in old(quota) && quota == old(quota)[dst := old(quota[dst]) + granted]
      ensures code != Ok ==> table == old(table) && kernel == old(kernel) && quota == old(quota)
      ensures code == Failure ==>
        dst in internals || InTheWay(kernel, table[dst], level, va)
        || kernel.pages[page].spot.table != table[src].tables[(level, PageBase(srcVa, level + 1))]
    {
      hide AllOk, QuotasOk, InTheWay, PageSize, VirtAddr, Wrap;
      var srcTable := table[src].tables[(level, PageBase(srcVa, level + 1))];
      var dstTable := table[dst].tables[(level, PageBase(va, level + 1))];
      var remapped := RemapPage(kernel, dstTable, Index(va, level), perms, page, srcTable);
      if remapped.None? {
        MoveIsExplained(dst, level, va, perms, page, srcTable);
        return Failure;
      }
      MoveIsSound(src, dst, level, srcVa, va, perms, page, granted);
      MoveEffects(kernel, table, src, dst, level, srcVa, va, perms, page, granted);
      kernel := remapped.value;
      quota := quota[dst := quota[dst] + granted];
      table := Moved(table, src, dst, srcVa, va, page, granted, PageSize(level));
      code := Ok;
    }

    lemma MoveIsExplained(dst: Id, level: nat, va: nat, perms: Perms, page: Cap, srcTable: Cap)
      requires Valid() && dst in table && level <= m.max && Aligned(va, level) && va !in table[dst].pages
      requires (level, PageBase(va, level + 1)) in table[dst].tables
      requires page in kernel.pages && kernel.pages[page].spot.At? && kernel.pages[page].level == level
      requires RemapPage(kernel, table[dst].tables[(level, PageBase(va, level + 1))], Index(va, level), perms, page,
        srcTable).None?
      ensures dst in internals || InTheWay(kernel, table[dst], level, va) || kernel.pages[page].spot.table != srcTable
    {
      if dst !in internals && kernel.pages[page].spot.table == srcTable {
        assert SpaceOk(kernel, table[dst], m) && Complete(kernel, table[dst]);
        MoveFails(kernel, table[dst], m, level, va, perms, page, srcTable);
      }
    }

    lemma MoveIsSound(src: Id, dst: Id, level: nat, srcVa: nat, va: nat, perms: Perms, page: Cap, granted: nat)
      requires Valid() && CanMove(kernel, table, m, src, dst, level, srcVa, va, perms, page)
      requires kernel.pages[page].spot.At? && VirtAddr(kernel, page) == srcVa
      requires granted >= PageSize(level)
        || (Wrap(table[dst].totalCommit + PageSize(level)) <= table[dst].totalAvailable && srcVa in table[src].pages
          && table[src].pages[srcVa] == page)
      ensures var k' := AfterMove(kernel, table, src, dst, level, srcVa, va, perms, page);
        var t' := Moved(table, src, dst, srcVa, va, page, granted, PageSize(level));
        && dst in quota && AllOk(k', t', internals, m)
        && QuotasOk(k'.pages, t', internals, twice, quota[dst := quota[dst] + granted], m)
      ensures src !in internals ==> srcVa in table[src].pages && table[src].pages[srcVa] == page
    {
      assert SpaceOk(kernel, table[src], m);
      LeafAtAddress(kernel, table[src], m, level, srcVa, page);
      if src !in internals {
        assert Complete(kernel, table[src]);
        HeldLeafIsRecorded(kernel, table[src], m, level, srcVa, page);
      }
      if srcVa in table[src].pages {
        MoveStep(kernel, table, internals, twice, quota, m, src, dst, level, srcVa, va, perms, page, granted);
      } else {
        assert PageOk(kernel, page);
        StrayMoveStep(kernel, table, internals, twice, quota, m, src, dst, level, srcVa, va, perms, page, granted);
      }
    }

    /** What a task has committed is what is recorded for it, within its quota. */
    ghost predicate InQuota(id: Id)
      requires id in table
      reads this
    {
      table[id].totalCommit == Total(kernel.pages, table[id].pages) <= table[id].totalAvailable
    }

    /** A task that was never charged twice is in its quota after the quota was raised for a page
        exactly when it did not wrap around. */
    lemma RaisedQuota(id: Id, available: Word, level: nat, va: nat, page: Cap)
      requires Valid() && id in table && id !in internals && id in twice && twice[id] == 0 && level <= m.max
      requires id in quota && quota[id] == available + PageSize(level)
      requires Has(table[id], va, page) && page in kernel.pages && kernel.pages[page].level == level
      ensures InQuota(id) <==> available + PageSize(level) < WORD_LIMIT
    {
      assert SpaceOk(kernel, table[id], m) && QuotaOk(kernel.pages, table[id], twice[id], quota[id], m);
      RecordedFitsSpace(kernel, table[id], m);
      TotalRemove(kernel.pages, table[id].pages, va);
      PageSizeGrows(level, m.max);
      hide TaskTable.Valid, SpaceOk, PageSize, Total;
      WrapFits(Total(kernel.pages, table[id].pages));
      WrapIsLow(available, PageSize(level));
    }

    lemma AvailableIsQuota(id: Id)
      requires Valid() && id in table && id !in internals
      ensures id in quota && id in twice && (quota[id] < WORD_LIMIT ==> table[id].totalAvailable == quota[id])
    {
      assert QuotaOk(kernel.pages, table[id], twice[id], quota[id], m);
      WrapFits(quota[id]);
    }

    lemma LevelKept(before: map<Cap, VirtPage>, after: map<Cap, VirtPage>, page: Cap, perms: Perms)
      requires OnePageChanged(before, after, page, perms)
      ensures page in before && page in after && after[page].level == before[page].level
    {
    }

    // ---------- requests ----------

    /** Maps a page object that is not mapped yet, and raises the quota by its size. */
    method VpMap(id: Id, perms: Perms, page: Cap, va: nat) returns (code: Code, act: nat)
      requires Valid()
      modifies this`kernel, this`table, this`quota, this`denials
      ensures Valid() && table.Keys == old(table.Keys)
      ensures code == NotAttached <==> id !in old(table)
      ensures id in old(table) && (page !in old(kernel.pages) || old(kernel.pages[page].spot.At?)) ==> code == IllArgs
      ensures id in old(table) && page in old(kernel.pages) && old(kernel.pages[page].spot.Nowhere?)
              && old(kernel.pages[page].level) <= m.max ==>
        && Follows(code, VpCheck(old(table[id]), old(kernel.pages[page].level), act)) && (va != 0 ==> act == va)
        && (va == 0 ==> Searched(old(kernel), old(table[id]), m, old(kernel.pages[page].level), act))
      ensures id in old(table) && page in old(kernel.pages) && old(kernel.pages[page].spot.Nowhere?)
              && old(kernel.pages[page].level) <= m.max ==>
        var info, size := old(table[id]), PageSize(old(kernel.pages[page].level));
        size > 0
        && Follows(code,
          if act % size != 0 then IllArgs
          else if act in info.pages then AlreadyMapped
          else if (if info.stackAvailable + size <= m.end then m.end else WORD_LIMIT + m.end)
                  <= act + info.stackAvailable + size then IllArgs
          else if act == 0 || m.end < act + size then Panic
          else Ok)
      ensures code == Ok ==>
        && page in old(kernel.pages) && old(kernel.pages[page].spot.Nowhere?)
        && (va != 0 ==> act == va)
        && var level := old(kernel.pages[page].level);
        && InRange(level, act) && act !in old(table[id].pages)
        && Books(table) == Books(old(table))[id := Entered(Books(old(table))[id], act, page, PageSize(level),
          PageSize(level))]
        && OnePageChanged(old(kernel.pages), kernel.pages, page, perms)
        && id in old(quota) && quota == old(quota)[id := old(quota[id]) + PageSize(level)]
      ensures code == Ok ==>
        var info, size := old(table[id]), PageSize(old(kernel.pages[page].level));
        && table[id].pages == info.pages[act := page]
        && table[id].totalAvailable == (info.totalAvailable + size) % WORD_LIMIT
        && table[id].totalCommit == (info.totalCommit + size) % WORD_LIMIT
        && forall j :: j in table && j != id ==> table[j] == old(table[j]).(tables := table[j].tables)
      ensures code != Ok ==>
        Books(table) == Books(old(table)) && kernel.pages == old(kernel.pages) && quota == old(quota)
      ensures code == Ok && id !in internals && old(twice[id]) == 0 && old(quota[id]) < WORD_LIMIT ==>
        (InQuota(id) <==> old(table[id].totalAvailable) + PageSize(old(kernel.pages[page].level)) < WORD_LIMIT)
      ensures denials >= old(denials)
      ensures code == Failure ==>
        id in table && page in kernel.pages
        && (denials > old(denials) || id in internals || InTheWay(kernel, table[id], kernel.pages[page].level, act))
    {
      hide Wrap, Searched, OnePageChanged, TaskTable.Valid, TaskTable.InQuota, TaskTable.TooHigh, TaskTable.InRange,
           PageSize, Entered, Books, Book, Aligned, InTheWay;
      if id in table && page in kernel.pages && kernel.pages[page].level <= m.max {
        VpCheckInNumbers(table[id], kernel.pages[page].level);
      }
      code, act := VpMapChecked(id, perms, page, va);
      if code == Ok {
        var size := PageSize(old(kernel.pages[page].level));
        EnteredIs(old(table), table, id, act, page, size, size);
      }
    }

    /** The checks of vpmap, the search for an address, and the mapping. */
    method VpMapChecked(id: Id, perms: Perms, page: Cap, va: nat) returns (code: Code, act: nat)
      requires Valid()
      modifies this`kernel, this`table, this`quota, this`denials
      ensures Valid() && table.Keys == old(table.Keys)
      ensures code == NotAttached <==> id !in old(table)
      ensures id in old(table) && (page !in old(kernel.pages) || old(kernel.pages[page].spot.At?)) ==> code == IllArgs
      ensures id in old(table) && page in old(kernel.pages) && old(kernel.pages[page].spot.Nowhere?)
              && old(kernel.pages[page].level) <= m.max ==>
        && Follows(code, VpCheck(old(table[id]), old(kernel.pages[page].level), act)) && (va != 0 ==> act == va)
        && (va == 0 ==> Searched(old(kernel), old(table[id]), m, old(kernel.pages[page].level), act))
      ensures code == Ok ==>
        && page in old(kernel.pages) && old(kernel.pages[page].spot.Nowhere?)
        && (va != 0 ==> act == va)
        && var level := old(kernel.pages[page].level);
        && InRange(level, act) && act !in old(table[id].pages)
        && Books(table) == Books(old(table))[id := Entered(Books(old(table))[id], act, page, PageSize(level),
          PageSize(level))]
        && OnePageChanged(old(kernel.pages), kernel.pages, page, perms)
        && id in old(quota) && quota == old(quota)[id := old(quota[id]) + PageSize(level)]
      ensures code != Ok ==>
        Books(table) == Books(old(table)) && kernel.pages == old(kernel.pages) && quota == old(quota)
      ensures code == Ok && id !in internals && old(twice[id]) == 0 && old(quota[id]) < WORD_LIMIT ==>
        (InQuota(id) <==> old(table[id].totalAvailable) + PageSize(old(kernel.pages[page].level)) < WORD_LIMIT)
      ensures denials >= old(denials)
      ensures code == Failure ==>
        id in table && page in kernel.pages
        && (denials > old(denials) || id in internals || InTheWay(kernel, table[id], kernel.pages[page].level, act))
    {
      hide Wrap, AllOk, QuotasOk, SpaceOk, Scale, OnePageChanged, Searched, TaskTable.Valid, TaskTable.InQuota,
           PageSize, Entered, Books, Book, Aligned, Minus, LayoutOk, InTheWay;
      act := va;
      if id !in table { return NotAttached, 0; }
      if page !in kernel.pages || kernel.pages[page].spot.At? { return IllArgs, 0; }
      var level := kernel.pages[page].level;
      if va == 0 {
        if level > m.max { return Panic, 0; }
        act := RandomVa(id, level);
      }
      if !Aligned(act, level) { return IllArgs, act; }
      if act in table[id].pages { return AlreadyMapped, act; }
      if TooHigh(table[id], level, act) { return IllArgs, act; }
      code := VpEnter(id, level, perms, page, act);
    }

    /** The walk of vpmap, its mapping and its record. */
    method VpEnter(id: Id, level: nat, perms: Perms, page: Cap, va: nat) returns (code: Code)
      requires Valid() && id in table && va !in table[id].pages
      requires page in kernel.pages && kernel.pages[page].level == level && kernel.pages[page].spot.Nowhere?
      modifies this`kernel, this`table, this`quota, this`denials
      ensures Valid() && table.Keys == old(table.Keys)
      ensures code in {Ok, Failure, Panic} && (code == Panic <==> !InRange(level, va) || level > m.max)
      ensures code == Ok ==>
        && Books(table) == Books(old(table))[id := Entered(Books(old(table))[id], va, page, PageSize(level),
                                                           PageSize(level))]
        && OnePageChanged(old(kernel.pages), kernel.pages, page, perms)
        && id in old(quota) && quota == old(quota)[id := old(quota[id]) + PageSize(level)]
      ensures code != Ok ==>
        Books(table) == Books(old(table)) && kernel.pages == old(kernel.pages) && quota == old(quota)
      ensures code == Ok && id !in internals && old(twice[id]) == 0 && old(quota[id]) < WORD_LIMIT ==>
        (InQuota(id) <==> old(table[id].totalAvailable) + PageSize(level) < WORD_LIMIT)
      ensures denials >= old(denials)
      ensures code == Failure ==> denials > old(denials) || id in internals || InTheWay(kernel, table[id], level, va)
    {
      hide Wrap, OnePageChanged, TaskTable.Valid, TaskTable.InQuota, PageSize, Entered, Books, Book;
      if id !in internals { AvailableIsQuota(id); }
      var found;
      code, found := Walk(id, level, va);
      if code != Ok { return; }
      BookStays(old(table), table, id);
      var ok := PlacePage(id, level, va, perms, page, PageSize(level));
      if !ok { return Failure; }
      if id !in internals && twice[id] == 0 && old(quota[id]) < WORD_LIMIT {
        LevelKept(old(kernel.pages), kernel.pages, page, perms);
        EnteredHas(Books(old(table)), table, id, va, page, PageSize(level));
        RaisedQuota(id, old(table[id].totalAvailable), level, va, page);
      }
    }

    /** Moves a mapped page object to another task, raising the receiver's quota. */
    method VpRemap(src: Id, dst: Id, perms: Perms, page: Cap, va: nat) returns (code: Code, act: nat)
      requires Valid()
      modifies this`kernel, this`table, this`quota, this`denials
      ensures Valid()
      ensures code == NotAttached <==> src !in old(table) || dst !in old(table)
      ensures src in old(table) && dst in old(table)
              && (page !in old(kernel.pages) || old(kernel.pages[page].spot.Nowhere?)) ==>
        code == IllArgs
      ensures src in old(table) && dst in old(table) && page in old(kernel.pages) && old(kernel.pages[page].spot.At?)
              && old(kernel.pages[page].level) <= m.max ==>
        && (va != 0 ==> act == va)
        && (va == 0 ==> Searched(old(kernel), old(table[dst]), m, old(kernel.pages[page].level), act))
      ensures src in old(table) && dst in old(table) && page in old(kernel.pages) && old(kernel.pages[page].spot.At?)
              && old(kernel.pages[page].level) <= m.max ==>
        var info, size, srcVa := old(table[dst]), PageSize(old(kernel.pages[page].level)), old(VirtAddr(kernel, page));
        size > 0
        && if act % size != 0 then code == IllArgs
           else if act in info.pages then code == AlreadyMapped
           else if (if info.stackAvailable + size <= m.end then m.end else WORD_LIMIT + m.end)
                   <= act + info.stackAvailable + size then code == IllArgs
           else if srcVa % size != 0 || srcVa == 0 || m.end < srcVa + size then code == Panic
           else if act == 0 || m.end < act + size then code in {Panic, Failure}
           else code in {Ok, Failure}
      ensures code == Ok ==>
        && page in old(kernel.pages) && old(kernel.pages[page].spot.At?)
        && (va != 0 ==> act == va)
        && var srcVa, size := old(VirtAddr(kernel, page)), PageSize(old(kernel.pages[page].level));
        && Books(table) == Moved(Books(old(table)), src, dst, srcVa, act, page, size, size)
        && OnePageChanged(old(kernel.pages), kernel.pages, page, perms)
        && (src !in internals ==> srcVa in old(table[src].pages) && old(table[src].pages[srcVa]) == page)
        && dst in old(quota) && quota == old(quota)[dst := old(quota[dst]) + size]
      ensures code == Ok ==>
        var from, to, size := old(table[src]), old(table[dst]), PageSize(old(kernel.pages[page].level));
        && table.Keys == old(table.Keys)
        && table[dst].totalAvailable == (to.totalAvailable + size) % WORD_LIMIT
        && (if src == dst then
              && table[dst].pages == to.pages[act := page] - {old(VirtAddr(kernel, page))}
              && table[dst].totalCommit == to.totalCommit
            else
              && table[src].pages == from.pages - {old(VirtAddr(kernel, page))}
              && table[dst].pages == to.pages[act := page]
              && table[src].totalCommit == (from.totalCommit - size) % WORD_LIMIT
              && table[dst].totalCommit == (to.totalCommit + size) % WORD_LIMIT)
      ensures code != Ok ==>
        Books(table) == Books(old(table)) && kernel.pages == old(kernel.pages) && quota == old(quota)
      ensures code == Ok && dst !in internals && old(twice[dst]) == 0 && old(quota[dst]) < WORD_LIMIT ==>
        (InQuota(dst) <==> old(table[dst].totalAvailable) + PageSize(old(kernel.pages[page].level)) < WORD_LIMIT)
      ensures code == Failure ==>
        dst in table && page in kernel.pages && old(kernel.pages[page].spot.At?)
        && (denials > old(denials) || dst in internals || InTheWay(kernel, table[dst], kernel.pages[page].level, act)
            || !Has(old(table[src]), old(VirtAddr(kernel, page)), page))
    {
      hide Wrap, Searched, OnePageChanged, TaskTable.Valid, TaskTable.InQuota, TaskTable.TooHigh, TaskTable.InRange,
           TaskTable.VpCheck, PageSize, Moved, Books, Book, Aligned, InTheWay, VirtAddr;
      ghost var srcVa := 0;
      if dst in table && page in kernel.pages && kernel.pages[page].spot.At? {
        TableIsOk(dst);
        srcVa := VirtAddr(kernel, page);
      }
      code, act := VpRemapChecked(src, dst, perms, page, va);
      if src in old(table) && dst in old(table) && page in old(kernel.pages) && old(kernel.pages[page].spot.At?)
         && old(kernel.pages[page].level) <= m.max {
        MoveInNumbers(old(table[dst]), old(kernel.pages[page].level), srcVa, act, code);
      }
      if code == Ok {
        var size := PageSize(old(kernel.pages[page].level));
        MovedIs(old(table), table, src, dst, srcVa, act, page, size, size);
      }
    }

    /** The checks of vpremap, the search for an address, and the move. */
    method VpRemapChecked(src: Id, dst: Id, perms: Perms, page: Cap, va: nat) returns (code: Code, act: nat)
      requires Valid()
      modifies this`kernel, this`table, this`quota, this`denials
      ensures Valid()
      ensures code == NotAttached <==> src !in old(table) || dst !in old(table)
      ensures src in old(table) && dst in old(table)
              && (page !in old(kernel.pages) || old(kernel.pages[page].spot.Nowhere?)) ==>
        code == IllArgs
      ensures src in old(table) && dst in old(table) && page in old(kernel.pages) && old(kernel.pages[page].spot.At?)
              && old(kernel.pages[page].level) <= m.max ==>
        var level := old(kernel.pages[page].level);
        var check := VpCheck(old(table[dst]), level, act);
        && (va != 0 ==> act == va) && (va == 0 ==> Searched(old(kernel), old(table[dst]), m, level, act))
        && (if check in {IllArgs, AlreadyMapped} then code == check
            else if !InRange(level, old(VirtAddr(kernel, page))) then code == Panic
            else if check == Panic then code in {Panic, Failure}
            else code in {Ok, Failure})
      ensures code == Ok ==>
        && page in old(kernel.pages) && old(kernel.pages[page].spot.At?)
        && (va != 0 ==> act == va)
        && var srcVa, size := old(VirtAddr(kernel, page)), PageSize(old(kernel.pages[page].level));
        && Books(table) == Moved(Books(old(table)), src, dst, srcVa, act, page, size, size)
        && OnePageChanged(old(kernel.pages), kernel.pages, page, perms)
        && (src !in internals ==> srcVa in old(table[src].pages) && old(table[src].pages[srcVa]) == page)
        && dst in old(quota) && quota == old(quota)[dst := old(quota[dst]) + size]
      ensures code != Ok ==>
        Books(table) == Books(old(table)) && kernel.pages == old(kernel.pages) && quota == old(quota)
      ensures code == Ok && dst !in internals && old(twice[dst]) == 0 && old(quota[dst]) < WORD_LIMIT ==>
        (InQuota(dst) <==> old(table[dst].totalAvailable) + PageSize(old(kernel.pages[page].level)) < WORD_LIMIT)
      ensures code == Failure ==>
        dst in table && page in kernel.pages && old(kernel.pages[page].spot.At?)
        && (denials > old(denials) || dst in internals || InTheWay(kernel, table[dst], kernel.pages[page].level, act)
            || !Has(old(table[src]), old(VirtAddr(kernel, page)), page))
    {
      hide Wrap, AllOk, QuotasOk, SpaceOk, Scale, OnePageChanged, Searched, TaskTable.Valid, TaskTable.InQuota,
           PageSize, Books, Book, Moved, InTheWay, VirtAddr;
      act := va;
      if src !in table || dst !in table { return NotAttached, 0; }
      if page !in kernel.pages || kernel.pages[page].spot.Nowhere? { return IllArgs, 0; }
      var level := kernel.pages[page].level;
      TableIsOk(dst);
      var srcVa := VirtAddr(kernel, page);
      if va == 0 {
        if level > m.max { return Panic, 0; }
        act := RandomVa(dst, level);
      }
      if !Aligned(act, level) { return IllArgs, act; }
      if act in table[dst].pages { return AlreadyMapped, act; }
      if TooHigh(table[dst], level, act) { return IllArgs, act; }
      if level > m.max { return Panic, 0; }
      code := VpMove(src, dst, level, perms, srcVa, act, page);
    }

    /** The walks of vpremap, its remapping and its records. */
    method VpMove(src: Id, dst: Id, level: nat, perms: Perms, srcVa: nat, va: nat, page: Cap) returns (code: Code)
      requires Valid() && src in table && dst in table && level <= m.max && va !in table[dst].pages
      requires page in kernel.pages && kernel.pages[page].level == level && kernel.pages[page].spot.At?
        && VirtAddr(kernel, page) == srcVa
      modifies this`kernel, this`table, this`quota, this`denials
      ensures Valid()
      ensures code == Ok ==>
        && Books(table) == Moved(Books(old(table)), src, dst, srcVa, va, page, PageSize(level), PageSize(level))
        && OnePageChanged(old(kernel.pages), kernel.pages, page, perms)
        && (src !in internals ==> srcVa in old(table[src].pages) && old(table[src].pages[srcVa]) == page)
        && dst in old(quota) && quota == old(quota)[dst := old(quota[dst]) + PageSize(level)]
      ensures code != Ok ==>
        Books(table) == Books(old(table)) && kernel.pages == old(kernel.pages) && quota == old(quota)
      ensures dst in table && code in {Ok, Failure, Panic}
      ensures code == Panic ==> !InRange(level, srcVa) || !InRange(level, va)
      ensures (code == Ok ==> InRange(level, va)) && (!InRange(level, srcVa) ==> code == Panic)
      ensures code == Ok && dst !in internals && old(twice[dst]) == 0 && old(quota[dst]) < WORD_LIMIT ==>
        (InQuota(dst) <==> old(table[dst].totalAvailable) + PageSize(level) < WORD_LIMIT)
      ensures denials >= old(denials)
      ensures code == Failure ==>
        || denials > old(denials) || dst in internals || InTheWay(kernel, table[dst], level, va)
        || !Has(old(table[src]), srcVa, page)
    {
      hide Wrap, OnePageChanged, TaskTable.Valid, TaskTable.InQuota, PageSize, Moved, InTheWay, VirtAddr;
      TableIsOk(dst);
      if dst !in internals { AvailableIsQuota(dst); }
      code := MovePage(src, dst, level, perms, srcVa, va, page, PageSize(level));
      if code == Ok && dst !in internals && twice[dst] == 0 && old(quota[dst]) < WORD_LIMIT {
        LevelKept(old(kernel.pages), kernel.pages, page, perms);
        MovedHas(Books(old(table)), table, src, dst, srcVa, va, page, PageSize(level));
        RaisedQuota(dst, old(table[dst].totalAvailable), level, va, page);
      }
    }

    lemma EnteredHas(b0: BookMap, t1: map<Id, TaskInfo>, id: Id, va: nat, page: Cap, size: nat)
      requires id in b0 && id in t1 && Books(t1) == b0[id := Entered(b0[id], va, page, size, size)]
      ensures Has(t1[id], va, page)
    {
      assert Books(t1)[id] == Book(t1[id]);
    }

    lemma BookStays(t0: map<Id, TaskInfo>, t1: map<Id, TaskInfo>, id: Id)
      requires id in t0 && Books(t0) == Books(t1)
      ensures id in t1 && id in Books(t0) && Book(t1[id]) == Book(t0[id]) && t1[id].pages == t0[id].pages
    {
      assert Books(t0)[id] == Book(t0[id]) && Books(t1)[id] == Book(t1[id]);
    }

    /** A page has entered one record: what changed in the records, field by field. */
    lemma EnteredIs(t0: map<Id, TaskInfo>, t1: map<Id, TaskInfo>, id: Id, va: nat, page: Cap, granted: nat,
        charged: nat)
      requires id in t0 && Books(t1) == Books(t0)[id := Entered(Books(t0)[id], va, page, granted, charged)]
      ensures t1.Keys == t0.Keys && id in t1 && t1[id].pages == t0[id].pages[va := page]
      ensures t1[id].totalAvailable == (t0[id].totalAvailable + granted) % WORD_LIMIT
      ensures granted == 0 ==> t1[id].totalAvailable == t0[id].totalAvailable
      ensures t1[id].totalCommit == (t0[id].totalCommit + charged) % WORD_LIMIT
      ensures t1[id].stackAvailable == t0[id].stackAvailable && t1[id].stackCommit == t0[id].stackCommit
      ensures forall j :: j in t0 && j != id ==> j in t1 && t1[j] == t0[j].(tables := t1[j].tables)
    {
      assert t1.Keys == Books(t1).Keys == t0.Keys;
      assert Books(t1)[id] == Book(t1[id]) && Books(t0)[id] == Book(t0[id]);
      forall j | j in t0 && j != id ensures j in t1 && t1[j] == t0[j].(tables := t1[j].tables) {
        assert Books(t1)[j] == Book(t1[j]) && Books(t0)[j] == Book(t0[j]);
      }
    }

    /** A page has moved from one record to another, or within one. */
    lemma MovedIs(t0: map<Id, TaskInfo>, t1: map<Id, TaskInfo>, src: Id, dst: Id, srcVa: nat, va: nat, page: Cap,
        granted: nat, size: nat)
      requires src in t0 && dst in t0 && Books(t1) == Moved(Books(t0), src, dst, srcVa, va, page, granted, size)
      ensures t1.Keys == t0.Keys && src in t1 && dst in t1
      ensures t1[dst].totalAvailable == (t0[dst].totalAvailable + granted) % WORD_LIMIT
      ensures granted == 0 ==> t1[dst].totalAvailable == t0[dst].totalAvailable
      ensures src != dst ==>
        && t1[src].pages == t0[src].pages - {srcVa} && t1[dst].pages == t0[dst].pages[va := page]
        && t1[src].totalCommit == (t0[src].totalCommit - size) % WORD_LIMIT
        && t1[dst].totalCommit == (t0[dst].totalCommit + size) % WORD_LIMIT
      ensures src == dst ==>
        t1[dst].pages == t0[dst].pages[va := page] - {srcVa} && t1[dst].totalCommit == t0[dst].totalCommit
      ensures forall j :: j in t0 && j != src && j != dst ==> j in t1 && t1[j] == t0[j].(tables := t1[j].tables)
    {
      hide Wrap;
      assert t1.Keys == Books(t1).Keys == t0.Keys;
      assert Books(t1)[src] == Book(t1[src]) && Books(t0)[src] == Book(t0[src]);
      assert Books(t1)[dst] == Book(t1[dst]) && Books(t0)[dst] == Book(t0[dst]);
      WrapIsRemainder();
      WrapTwice(t0[dst].totalCommit + size, -(size as int));
      WrapFits(t0[dst].totalCommit);
      WrapFits(t0[dst].totalAvailable);
      forall j | j in t0 && j != src && j != dst ensures j in t1 && t1[j] == t0[j].(tables := t1[j].tables) {
        assert Books(t1)[j] == Book(t1[j]) && Books(t0)[j] == Book(t0[j]);
      }
    }

    lemma WrapIsRemainder()
      ensures forall n: int {:trigger Wrap(n)} :: Wrap(n) == n % WORD_LIMIT
    {
    }

    lemma MovedHas(b0: BookMap, t1: map<Id, TaskInfo>, src: Id, dst: Id, srcVa: nat, va: nat, page: Cap, size: nat)
      requires src in b0 && dst in b0 && Books(t1) == Moved(b0, src, dst, srcVa, va, page, size, size)
      requires va !in b0[dst].pages && (src == dst ==> srcVa in b0[src].pages)
      ensures dst in t1 && Has(t1[dst], va, page)
    {
      assert dst in Books(t1) && Books(t1)[dst] == Book(t1[dst]);
    }

    /** remap: moves a recorded page within the receiver's quota. */
    method Remap(src: Id, dst: Id, level: nat, perms: Perms, srcVa: nat, va: nat) returns (code: Code)
      requires Valid() && src in table && dst in table && srcVa in table[src].pages
      requires table[src].pages[srcVa] in kernel.pages ==> kernel.pages[table[src].pages[srcVa]].level == level
      modifies this`kernel, this`table, this`quota, this`denials
      ensures Valid() && table.Keys == old(table.Keys)
      ensures code == Ok ==> InRange(level, va) && va !in old(table[dst].pages)
      ensures code == Ok ==>
        && Books(table) == Moved(Books(old(table)), src, dst, srcVa, va, old(table[src].pages[srcVa]), 0,
          PageSize(level))
        && OnePageChanged(old(kernel.pages), kernel.pages, old(table[src].pages[srcVa]), perms)
      ensures code != Ok ==> Books(table) == Books(old(table)) && kernel.pages == old(kernel.pages)
      ensures quota == old(quota)
      ensures Follows(code, MapCheck(old(table[dst]), level, va)) && denials >= old(denials)
      ensures var info, size := old(table[dst]), PageSize(level);
        size > 0
        && Follows(code,
          if va % size != 0 || va == 0 || m.end < va + size then Panic
          else if info.totalAvailable < (info.totalCommit + size) % WORD_LIMIT then Overflow
          else if va in info.pages then AlreadyMapped
          else Ok)
      ensures code == Failure ==>
        dst in table && (denials > old(denials) || dst in internals || InTheWay(kernel, table[dst], level, va))
    {
      hide Wrap;
      LevelIsOk(src, srcVa);
      SpaceEnds();
      MapCheckInNumbers(table[dst], level, va);
      if !InRange(level, va) { return Panic; }
      if table[dst].totalAvailable < Wrap(table[dst].totalCommit + PageSize(level)) { return Overflow; }
      if va in table[dst].pages { return AlreadyMapped; }
      assert SpaceOk(kernel, table[src], m);
      assert PageEntryOk(kernel, table[src], m, srcVa);
      RecordedAddress(kernel, table[src], m, srcVa);
      NothingMore(quota, dst);
      code := MovePage(src, dst, level, perms, srcVa, va, table[src].pages[srcVa], 0);
    }

    lemma LevelIsOk(id: Id, va: nat)
      requires Valid() && id in table && va in table[id].pages
      ensures table[id].pages[va] in kernel.pages && kernel.pages[table[id].pages[va]].level <= m.max
    {
      assert SpaceOk(kernel, table[id], m);
      assert PageEntryOk(kernel, table[id], m, va);
    }

    /** Moves a recorded page to another address or task. */
    method VRemap(src: Id, dst: Id, perms: Perms, srcVa: nat, va: nat) returns (code: Code, act: nat)
      requires Valid()
      modifies this`kernel, this`table, this`quota, this`denials
      ensures Valid()
      ensures code == NotAttached <==> src !in old(table) || dst !in old(table)
      ensures src in old(table) && dst in old(table) ==> (code == NotMapped <==> srcVa !in old(table[src].pages))
      ensures src in old(table) && dst in old(table) && srcVa in old(table[src].pages) ==>
        if va in old(table[dst].pages) then code == AlreadyMapped
        else
          && old(table[src].pages[srcVa]) in old(kernel.pages) && (va != 0 ==> act == va)
          && Follows(code, MapCheck(old(table[dst]), old(kernel.pages[table[src].pages[srcVa]].level), act))
          && (va == 0 ==>
            Searched(old(kernel), old(table[dst]), m, old(kernel.pages[table[src].pages[srcVa]].level), act))
          && var info, size := old(table[dst]), PageSize(old(kernel.pages[table[src].pages[srcVa]].level));
          size > 0
          && Follows(code,
            if act % size != 0 || act == 0 || m.end < act + size then Panic
            else if info.totalAvailable < (info.totalCommit + size) % WORD_LIMIT then Overflow
            else if act in info.pages then AlreadyMapped
            else Ok)
      ensures code == Ok ==>
        && (va != 0 ==> act == va) && act !in old(table[dst].pages)
        && old(table[src].pages[srcVa]) in old(kernel.pages)
        && Books(table) == Moved(Books(old(table)), src, dst, srcVa, act, old(table[src].pages[srcVa]), 0,
                                 PageSize(old(kernel.pages[table[src].pages[srcVa]].level)))
        && OnePageChanged(old(kernel.pages), kernel.pages, old(table[src].pages[srcVa]), perms)
      ensures code == Ok ==>
        var from, to, page := old(table[src]), old(table[dst]), old(table[src].pages[srcVa]);
        var size := PageSize(old(kernel.pages[table[src].pages[srcVa]].level));
        && table.Keys == old(table.Keys) && table[dst].totalAvailable == to.totalAvailable
        && (if src == dst then
              table[dst].pages == to.pages[act := page] - {srcVa} && table[dst].totalCommit == to.totalCommit
            else
              && table[src].pages == from.pages - {srcVa} && table[dst].pages == to.pages[act := page]
              && table[src].totalCommit == (from.totalCommit - size) % WORD_LIMIT
              && table[dst].totalCommit == (to.totalCommit + size) % WORD_LIMIT)
      ensures code != Ok ==> Books(table) == Books(old(table)) && kernel.pages == old(kernel.pages)
      ensures quota == old(quota)
      ensures code == Failure ==>
        dst in table && old(table[src].pages[srcVa]) in kernel.pages
        && (denials > old(denials) || dst in internals
          || InTheWay(kernel, table[dst], kernel.pages[old(table[src].pages[srcVa])].level, act))
    {
      hide Wrap, TaskTable.Valid, PageSize, Aligned, Books, Book, Moved, InTheWay, Searched, OnePageChanged, SpaceOk,
           TaskTable.MapCheck, TaskTable.InRange;
      act := va;
      if src !in table || dst !in table { return NotAttached, 0; }
      if srcVa !in table[src].pages { return NotMapped, 0; }
      if va in table[dst].pages { return AlreadyMapped, 0; }
      LevelIsOk(src, srcVa);
      var level := kernel.pages[table[src].pages[srcVa]].level;
      if va == 0 { act := RandomVa(dst, level); }
      code := Remap(src, dst, level, perms, srcVa, act);
      if code == Ok {
        MovedIs(old(table), table, src, dst, srcVa, act, old(table[src].pages[srcVa]), 0, PageSize(level));
      }
    }

    /** Maps a new zeroed page, or with `data` a page whose top bytes are the data. */
    method Map(id: Id, level: nat, perms: Perms, va: nat, data: Option<seq<char>>) returns (code: Code, ghost page: Cap)
      requires Valid() && id in table && level <= m.max
      modifies this`kernel, this`table, this`twice, this`quota, this`denials, this`refusals
      ensures Valid() && id in table
      ensures PagesKept(old(kernel.pages), kernel.pages)
      ensures code == Ok ==> InRange(level, va) && va !in old(table[id].pages)
      ensures MapCheck(old(table[id]), level, va) != Ok ==> code == MapCheck(old(table[id]), level, va)
      ensures PageSize(level) > 0
        && var info, size := old(table[id]), PageSize(level);
        var check :=
          if va % size != 0 || va == 0 || m.end < va + size then Panic
          else if info.totalAvailable < (info.totalCommit + size) % WORD_LIMIT then Overflow
          else if va in info.pages then AlreadyMapped
          else Ok;
        (check != Ok ==> code == check) && (data.None? ==> Follows(code, check))
      ensures data.None? ==>
        && Follows(code, MapCheck(old(table[id]), level, va))
        && twice == old(twice) && quota == old(quota) && refusals == old(refusals)
      ensures data.None? && code == Ok ==>
        && Books(table) == Books(old(table))[id := Entered(Books(old(table))[id], va, page, 0, PageSize(level))]
        && NewPage(old(kernel.pages), kernel.pages, page, level, perms, Zeros(PageSize(level)))
      ensures data.None? && code != Ok ==> Books(table) == Books(old(table))
      ensures data.Some? && code == Ok ==>
        && self in old(table) && |data.value| <= PageSize(level)
        && Books(table) == DataBooks(Books(old(table)), self, id, va, page, PageSize(level))
        && NewPage(old(kernel.pages), kernel.pages, page, level, READ_WRITE, TopFilled(PageSize(level), data.value))
        && twice == old(twice)[id := old(twice[id]) + PageSize(level)]
        && quota == Raised(old(quota), self, PageSize(level), true)
      ensures denials >= old(denials) && refusals >= old(refusals)
      ensures refusals > old(refusals) ==>
        code != Ok && (denials > old(denials) || ServerRefused(old(kernel), old(table), level))
      ensures data.None? && code == Failure ==>
        denials > old(denials) || id in internals || InTheWay(kernel, table[id], level, va)
      ensures data.Some? && code != Ok ==>
        && HalfDone(Books(old(table)), Books(table), old(quota), quota, self, page, PageSize(level))
        && twice == old(twice)
      ensures data.Some? && id != self && MapCheck(old(table[id]), level, va) == Ok
              && |data.value| <= PageSize(level) ==>
        code == Ok || Hindered() > old(Hindered()) || id in internals || InTheWay(kernel, table[id], level, va)
    {
      hide Wrap, Wf, SpaceOk, TaskTable.Valid, TaskTable.MapCheck, TaskTable.InRange, TaskTable.ServerRefused, Books,
           Raised, HalfDone, DataBooks, Entered, PageSize, TopFilled, InTheWay, PagesKept, NewPage, LayoutOk;
      SpaceEnds();
      MapCheckInNumbers(table[id], level, va);
      code, page := MapChecked(id, level, perms, va, data);
    }

    /** The checks of map, and its two paths. */
    method MapChecked(id: Id, level: nat, perms: Perms, va: nat, data: Option<seq<char>>)
      returns (code: Code, ghost page: Cap)
      requires Valid() && id in table && level <= m.max
      modifies this`kernel, this`table, this`twice, this`quota, this`denials, this`refusals
      ensures Valid() && id in table
      ensures PagesKept(old(kernel.pages), kernel.pages)
      ensures code == Ok ==> InRange(level, va) && va !in old(table[id].pages)
      ensures MapCheck(old(table[id]), level, va) != Ok ==> code == MapCheck(old(table[id]), level, va)
      ensures data.None? ==>
        && Follows(code, MapCheck(old(table[id]), level, va))
        && twice == old(twice) && quota == old(quota) && refusals == old(refusals)
      ensures data.None? && code == Ok ==>
        && Books(table) == Books(old(table))[id := Entered(Books(old(table))[id], va, page, 0, PageSize(level))]
        && NewPage(old(kernel.pages), kernel.pages, page, level, perms, Zeros(PageSize(level)))
      ensures data.None? && code != Ok ==> Books(table) == Books(old(table))
      ensures data.Some? && code == Ok ==>
        && self in old(table) && |data.value| <= PageSize(level)
        && Books(table) == DataBooks(Books(old(table)), self, id, va, page, PageSize(level))
        && NewPage(old(kernel.pages), kernel.pages, page, level, READ_WRITE, TopFilled(PageSize(level), data.value))
        && twice == old(twice)[id := old(twice[id]) + PageSize(level)]
        && quota == Raised(old(quota), self, PageSize(level), true)
      ensures denials >= old(denials) && refusals >= old(refusals)
      ensures refusals > old(refusals) ==>
        code != Ok && (denials > old(denials) || ServerRefused(old(kernel), old(table), level))
      ensures data.None? && code == Failure ==>
        denials > old(denials) || id in internals || InTheWay(kernel, table[id], level, va)
      ensures data.Some? && code != Ok ==>
        && HalfDone(Books(old(table)), Books(table), old(quota), quota, self, page, PageSize(level))
        && twice == old(twice)
      ensures data.Some? && id != self && MapCheck(old(table[id]), level, va) == Ok
              && |data.value| <= PageSize(level) ==>
        code == Ok || Hindered() > old(Hindered()) || id in internals || InTheWay(kernel, table[id], level, va)
    {
      hide Wf, SpaceOk, TaskTable.MapCheck, TaskTable.InRange, Wrap, TaskTable.ServerRefused, Books, Raised, HalfDone,
           TaskTable.Valid, DataBooks, Entered, PageSize, TopFilled, InTheWay, PagesKept;
      var added;
      if self in table { TableIsOk(self); }
      code, added := Reserve(id, level, perms, va);
      page := added;
      UnchangedIsHalfDone(Books(old(table)), quota, self, page, PageSize(level));
      if code != Ok { return; }
      CheckedIs(old(table[id]), table[id], level, va);
      CheckOfBook(old(table[id]), table[id], level, va);
      match data
      case None =>
        TableIsOk(id);
        NothingMore(quota, id);
        var ok := PlacePage(id, level, va, perms, added, 0);
        code := if ok then Ok else Failure;
        NewPageKeeps(old(kernel.pages), kernel.pages, added);
      case Some(bytes) =>
        ghost var reserved, mid := table, kernel;
        code := MapThroughSelf(id, level, va, bytes, added);
        NewPageKeeps(old(kernel.pages), kernel.pages, added);
        RefusalStays(old(kernel), mid, old(table), reserved, level);
    }

    lemma NewPageKeeps(before: map<Cap, VirtPage>, after: map<Cap, VirtPage>, page: Cap)
      requires page !in before && PagesKeptBut(before, after, page)
      ensures PagesKept(before, after)
    {
    }

    /** The checks of map, its walk, and the new page object. */
    method Reserve(id: Id, level: nat, perms: Perms, va: nat) returns (code: Code, page: Cap)
      requires Valid() && id in table && level <= m.max
      modifies this`kernel, this`table, this`denials
      ensures Valid() && Books(table) == Books(old(table)) && table.Keys == old(table.Keys)
      ensures Follows(code, MapCheck(old(table[id]), level, va))
      ensures code == Ok ==>
        && id in table && va !in old(table[id].pages) && Book(table[id]) == Book(old(table[id]))
        && (level, PageBase(va, level + 1)) in table[id].tables
        && page !in old(kernel.pages)
        && kernel.pages == old(kernel.pages)[page := VirtPage(level, perms, Nowhere, Zeros(PageSize(level)))]
      ensures code != Ok ==> kernel.pages == old(kernel.pages)
      ensures PagesKept(old(kernel.pages), kernel.pages) && denials >= old(denials)
      ensures code == Failure ==>
        id in table && (denials > old(denials) || id in internals || InTheWay(kernel, table[id], level, va))
    {
      hide Wrap;
      page := 0;
      if !InRange(level, va) { return Panic, 0; }
      if table[id].totalAvailable < Wrap(table[id].totalCommit + PageSize(level)) { return Overflow, 0; }
      if va in table[id].pages { return AlreadyMapped, 0; }
      var walked, found := Walk(id, level, va);
      if walked != Ok { return Failure, 0; }
      assert Books(table)[id] == Book(old(table[id]));
      var granted: bool := *;
      if !granted {
        denials := denials + 1;
        return Failure, 0;
      }
      page := AddPage(level, perms);
      code := Ok;
    }

    ghost function Hindered(): nat
      reads this`denials, this`refusals
    {
      denials + refusals
    }

    /** Why the server cannot map a page for itself although there is memory: the search for an
        address ran out of room or came to one above the limit, or the slot for it is in use. */
    ghost predicate ServerRefuses(k0: State, before: TaskInfo, level: nat, here: nat)
      reads this
    {
      && Searched(k0, before, m, level, here)
      && (m.end <= here + PageSize(level) || TooHigh(before, level, here)
          || (self in table && InTheWay(kernel, table[self], level, here)))
    }

    /** Or it is not attached, or was attached as internal. */
    ghost predicate ServerRefused(k0: State, before: map<Id, TaskInfo>, level: nat)
      reads this
    {
      self !in before || self in internals || exists here: nat :: ServerRefuses(k0, before[self], level, here)
    }

    lemma RefusalStays(k0: State, k1: State, t0: map<Id, TaskInfo>, t1: map<Id, TaskInfo>, level: nat)
      requires Books(t0) == Books(t1) && PagesKept(k0.pages, k1.pages)
      requires self in t0 ==> SpaceOk(k0, t0[self], m)
      ensures ServerRefused(k1, t1, level) ==> ServerRefused(k0, t0, level)
    {
      hide SpaceOk, Searched, PagesKept, InTheWay, PageSize, TaskTable.TooHigh;
      assert self in t1 <==> self in Books(t1);
      if self in t0 && self !in internals && ServerRefused(k1, t1, level) {
        BookStays(t0, t1, self);
        var here: nat :| ServerRefuses(k1, t1[self], level, here);
        SearchStays(k0, k1, t0[self], t1[self], level, here);
        HighStays(t0[self], t1[self], level, here);
        assert ServerRefuses(k0, t0[self], level, here);
      }
    }

    lemma SearchStays(k0: State, k1: State, a: TaskInfo, b: TaskInfo, level: nat, va: nat)
      requires SpaceOk(k0, a, m) && PagesKept(k0.pages, k1.pages) && b.pages == a.pages && Searched(k1, b, m, level, va)
      ensures Searched(k0, a, m, level, va)
    {
      hide SpaceOk, PageSize, Aligned, SearchStart;
      forall at | at in a.pages ensures SizeOf(k1.pages, a.pages[at]) == SizeOf(k0.pages, a.pages[at]) {
        RecordedIsPage(k0, a, at);
      }
      forall c | SearchStart(level) <= c < va && Aligned(c, level) ensures Touched(k0, a, c, level) {
        assert Touched(k1, b, c, level);
      }
    }

    lemma RecordedIsPage(k: State, info: TaskInfo, va: nat)
      requires SpaceOk(k, info, m) && va in info.pages
      ensures info.pages[va] in k.pages
    {
      assert PageEntryOk(k, info, m, va);
    }

    lemma HighStays(a: TaskInfo, b: TaskInfo, level: nat, va: nat)
      requires Book(a) == Book(b)
      ensures TooHigh(a, level, va) == TooHigh(b, level, va)
    {
    }

    lemma SearchedCheck(k: State, info: TaskInfo, level: nat, va: nat)
      requires Searched(k, info, m, level, va) && m.end > va + PageSize(level) && !TooHigh(info, level, va)
      ensures VpCheck(info, level, va) == Ok
    {
      hide Aligned, PageSize, Touched, Uncovered;
    }

    /** First half of the data path: the page is mapped in the server and its top filled. */
    method FillHere(level: nat, bytes: seq<char>, page: Cap) returns (code: Code, here: nat)
      requires Valid() && level <= m.max
      requires page in kernel.pages
        && kernel.pages[page] == VirtPage(level, kernel.pages[page].perms, Nowhere, Zeros(PageSize(level)))
      modifies this`kernel, this`table, this`quota, this`denials, this`refusals
      ensures Valid() && table.Keys == old(table.Keys)
      ensures PagesKeptBut(old(kernel.pages), kernel.pages, page)
      ensures code == Ok ==>
        && self in old(table) && |bytes| <= PageSize(level)
        && here !in old(table[self].pages)
        && Books(table) == Books(old(table))[self := Entered(Books(old(table))[self], here, page, PageSize(level),
          PageSize(level))]
        && page in kernel.pages
          && kernel.pages[page]
          == VirtPage(level, READ_WRITE, kernel.pages[page].spot, TopFilled(PageSize(level), bytes))
        && quota == Raised(old(quota), self, PageSize(level), true)
      ensures code != Ok ==>
        HalfDone(Books(old(table)), Books(table), old(quota), quota, self, page, PageSize(level))
      ensures denials >= old(denials) && refusals >= old(refusals)
      ensures code != Ok ==> denials > old(denials) || |bytes| > PageSize(level) || refusals > old(refusals)
      ensures refusals > old(refusals) ==>
        code != Ok && (denials > old(denials) || ServerRefused(old(kernel), old(table), level))
    {
      hide LayoutOk, AllOk, QuotasOk, TaskTable.VpCheck, TaskTable.TooHigh, Searched, TopFilled, InTheWay, PageSize,
           Wrap;
      code, here := VpMapChecked(self, READ_WRITE, page, 0);
      if code != Ok {
        refusals := refusals + 1;
        if self in old(table) && m.end > here + PageSize(level) && !TooHigh(old(table[self]), level, here) {
          SearchedCheck(old(kernel), old(table[self]), level, here);
        }
        assert self in old(table) && denials == old(denials) && self !in internals ==>
          ServerRefuses(old(kernel), old(table[self]), level, here);
        return;
      }
      assert Books(table)[self].pages[here] == page;
      var size := PageSize(level);
      var stored := StoreAt(here, if |bytes| < size then size - |bytes| else 0, bytes);
      if !stored { return Panic, here; }
    }

    /** memcpy to the end of a zeroed page the server has mapped at `here`. */
    method StoreAt(here: nat, offset: nat, bytes: seq<char>) returns (ok: bool)
      requires Valid() && self in table && here in table[self].pages && table[self].pages[here] in kernel.pages
      requires var page := kernel.pages[table[self].pages[here]];
        page.bytes == Zeros(PageSize(page.level)) && offset == if |bytes| < PageSize(page.level)
          then PageSize(page.level) - |bytes| else 0
      modifies this`kernel
      ensures Valid()
      ensures var page := table[self].pages[here];
        var before := old(kernel.pages[page]);
        && (ok <==> |bytes| <= PageSize(before.level))
        && kernel.pages == if ok
          then old(kernel.pages)[page := before.(bytes := TopFilled(PageSize(before.level), bytes))]
          else old(kernel.pages)
    {
      assert SpaceOk(kernel, table[self], m);
      StoreFillsTop(kernel, table[self], m, here, bytes);
      var stored := Store(kernel, Root(table[self], m), m.max, here + offset, bytes);
      if stored.None? { return false; }
      StoreKeepsWf(kernel, Root(table[self], m), m.max, here + offset, bytes);
      QuietStep(kernel, stored.value, table, internals, m);
      SizesKeptQuotas(kernel, stored.value.pages, table, internals, twice, quota, m);
      kernel := stored.value;
      ok := true;
    }

    /** The second charge of the data path. */
    method ChargeAgain(id: Id, size: nat)
      requires Valid() && id in table
      modifies this`table, this`twice
      ensures Valid() && table.Keys == old(table.Keys)
      ensures Books(table) == Charged(Books(old(table)), id, size)
      ensures twice == old(twice)[id := old(twice[id]) + size]
    {
      var info := table[id].(totalCommit := Wrap(table[id].totalCommit + size));
      Recharge(kernel, table, internals, m, id, info);
      BooksOfUpdate(table, id, info);
      RechargeQuotas(kernel.pages, table, internals, twice, quota, m, id, size);
      table := table[id := info];
      twice := twice[id := twice[id] + size];
    }

    /** The data path: the page is mapped here, filled, and moved to its owner. */
    method MapThroughSelf(id: Id, level: nat, va: nat, bytes: seq<char>, page: Cap) returns (code: Code)
      requires Valid() && id in table && level <= m.max
      requires page in kernel.pages
        && kernel.pages[page] == VirtPage(level, kernel.pages[page].perms, Nowhere, Zeros(PageSize(level)))
      modifies this`kernel, this`table, this`twice, this`quota, this`denials, this`refusals
      ensures Valid() && table.Keys == old(table.Keys)
      ensures PagesKeptBut(old(kernel.pages), kernel.pages, page)
      ensures code == Ok ==>
        && self in old(table) && |bytes| <= PageSize(level)
        && Books(table) == DataBooks(Books(old(table)), self, id, va, page, PageSize(level))
        && page in kernel.pages && kernel.pages[page].spot.At?
        && kernel.pages[page] == VirtPage(level, READ_WRITE, kernel.pages[page].spot, TopFilled(PageSize(level), bytes))
        && twice == old(twice)[id := old(twice[id]) + PageSize(level)]
        && quota == Raised(old(quota), self, PageSize(level), true)
      ensures code != Ok ==>
        && HalfDone(Books(old(table)), Books(table), old(quota), quota, self, page, PageSize(level))
        && twice == old(twice)
      ensures denials >= old(denials) && refusals >= old(refusals)
      ensures refusals > old(refusals) ==>
        code != Ok && (denials > old(denials) || ServerRefused(old(kernel), old(table), level))
      ensures id != self && MapCheck(old(table[id]), level, va) == Ok && |bytes| <= PageSize(level) ==>
        code == Ok || Hindered() > old(Hindered()) || id in internals || InTheWay(kernel, table[id], level, va)
    {
      hide Wrap, TaskTable.MapCheck, TaskTable.ServerRefused, Raised, TaskTable.Valid, DataBooks, Moved, Charged,
           PageSize, TopFilled, InTheWay;
      var here;
      code, here := FillHere(level, bytes, page);
      if code != Ok { return; }
      ghost var b1 := Books(table);
      assert b1[self] == Book(table[self]) && b1[id] == Book(table[id]);
      if id != self { CheckOfBook(old(table[id]), table[id], level, va); }
      code := HandOver(id, level, here, va, page);
      if code == Ok { DataBooksOfMove(Books(old(table)), b1, self, id, here, va, page, PageSize(level)); }
    }

    lemma CheckedIs(a: TaskInfo, b: TaskInfo, level: nat, va: nat)
      requires MapCheck(a, level, va) == Ok && Book(a) == Book(b)
      ensures InRange(level, va) && va !in b.pages && Wrap(b.totalCommit + PageSize(level)) <= b.totalAvailable
    {
    }

    lemma CheckOfBook(a: TaskInfo, b: TaskInfo, level: nat, va: nat)
      requires Book(a) == Book(b)
      ensures MapCheck(a, level, va) == MapCheck(b, level, va)
    {
    }

    /** Second half of the data path: the page moves to its owner, which is charged again. */
    method HandOver(id: Id, level: nat, here: nat, va: nat, page: Cap) returns (code: Code)
      requires Valid() && self in table && id in table && here in table[self].pages && table[self].pages[here] == page
      requires page in kernel.pages && kernel.pages[page].level == level
      modifies this`kernel, this`table, this`twice, this`quota, this`denials
      ensures Valid() && table.Keys == old(table.Keys)
      ensures PagesKeptBut(old(kernel.pages), kernel.pages, page)
      ensures code == Ok ==>
        && va !in old(table[id].pages)
        && OnePageChanged(old(kernel.pages), kernel.pages, page, READ_WRITE)
        && Books(table) == Charged(Moved(Books(old(table)), self, id, here, va, page, 0, PageSize(level)), id,
          PageSize(level))
        && twice == old(twice)[id := old(twice[id]) + PageSize(level)]
      ensures code != Ok ==> Books(table) == Books(old(table)) && twice == old(twice)
      ensures quota == old(quota)
      ensures Follows(code, MapCheck(old(table[id]), level, va)) && denials >= old(denials)
      ensures code == Failure ==> denials > old(denials) || id in internals || InTheWay(kernel, table[id], level, va)
    {
      hide TaskTable.Valid, Moved, Charged, InTheWay, PageSize, Wrap;
      code := Remap(self, id, level, READ_WRITE, here, va);
      if code != Ok { return; }
      ChargeAgain(id, PageSize(level));
    }

    /** Maps a page of the given level for a task, at an address or where one is free. */
    method VMap(id: Id, level: int, perms: Perms, va: nat) returns (code: Code, act: nat, ghost page: Cap)
      requires Valid()
      modifies this`kernel, this`table, this`twice, this`quota, this`denials, this`refusals
      ensures Valid()
      ensures PagesKept(old(kernel.pages), kernel.pages) && twice == old(twice) && quota == old(quota)
      ensures code == NotAttached <==> id !in old(table)
      ensures id in old(table) && !(0 <= level <= m.max) ==> code == IllArgs
      ensures id in old(table) && 0 <= level <= m.max ==>
        && Follows(code, VMapCheck(old(table[id]), level, act)) && (va != 0 ==> act == va)
        && (va == 0 ==> Searched(old(kernel), old(table[id]), m, level, act))
      ensures id in old(table) && 0 <= level <= m.max ==>
        PageSize(level) > 0
        && var info, size, needed := old(table[id]), PageSize(level), old(table[id].stackAvailable) + PageSize(level);
        Follows(code,
          if act % size != 0 || (if needed <= m.end then m.end else WORD_LIMIT + m.end) <= act + needed then IllArgs
          else if act == 0 || m.end < act + size then Panic
          else if info.totalAvailable < (info.totalCommit + size) % WORD_LIMIT then Overflow
          else if act in info.pages then AlreadyMapped
          else Ok)
      ensures id in old(table) && 0 <= level <= m.max && old(table[id].stackAvailable) + PageSize(level) <= m.end ==>
        code != Panic
      ensures id in old(table) && 0 <= level <= m.max && va == 0 && m.end <= act + PageSize(level) ==>
        var needed := old(table[id].stackAvailable) + PageSize(level);
        code == IllArgs <==> needed <= m.end || WORD_LIMIT + m.end <= needed + act
      ensures code == Ok ==>
        0 <= level <= m.max && InRange(level, act) && act !in old(table[id].pages) && (va != 0 ==> act == va)
      ensures code == Ok ==>
        && Books(table) == Books(old(table))[id := Entered(Books(old(table))[id], act, page, 0, PageSize(level))]
        && NewPage(old(kernel.pages), kernel.pages, page, level, perms, Zeros(PageSize(level)))
      ensures code == Ok ==>
        var info := old(table[id]);
        && table.Keys == old(table.Keys) && table[id].pages == info.pages[act := page]
        && table[id].totalAvailable == info.totalAvailable
        && table[id].totalCommit == (info.totalCommit + PageSize(level)) % WORD_LIMIT
        && forall j :: j in table && j != id ==> table[j] == old(table[j]).(tables := table[j].tables)
      ensures id in old(table) && 0 <= level <= m.max && va == 0 ==>
        && 0x140_0000 <= act && act % PageSize(level) == 0
        && forall c :: 0x140_0000 <= c < act && c % PageSize(level) == 0 ==>
          Touched(old(kernel), old(table[id]), c, level)
      ensures code == Ok && va == 0 ==>
        && SearchStart(level) <= act
        && (forall c :: SearchStart(level) <= c < act && Aligned(c, level) ==>
          Touched(old(kernel), old(table[id]), c, level))
        && (level == KILO_PAGE && old(table[id].stackAvailable) + PageSize(level) <= m.end ==>
          Uncovered(old(kernel), old(table[id]), act))
      ensures code != Ok ==> Books(table) == Books(old(table))
      ensures code == Failure ==>
        id in table && level >= 0
          && (denials > old(denials) || id in internals || InTheWay(kernel, table[id], level, act))
    {
      hide Wrap, TaskTable.Valid, TaskTable.VMapCheck, TaskTable.InRange, PageSize, Aligned, Uncovered, Touched,
           InTheWay, Entered, NewPage, Books, Book;
      act, page := va, 0;
      if id !in table { return NotAttached, 0, 0; }
      if level < 0 || level > m.max { return IllArgs, 0, 0; }
      if va == 0 {
        act := RandomVa(id, level);
        SearchedInNumbers(kernel, table[id], m, level, act);
      }
      code, page := VMapAt(id, level, perms, act);
    }

    /** vmap once the address is chosen. */
    method VMapAt(id: Id, level: nat, perms: Perms, va: nat) returns (code: Code, ghost page: Cap)
      requires Valid() && id in table && level <= m.max
      modifies this`kernel, this`table, this`twice, this`quota, this`denials, this`refusals
      ensures Valid()
      ensures PagesKept(old(kernel.pages), kernel.pages) && twice == old(twice) && quota == old(quota)
      ensures code != NotAttached && Follows(code, VMapCheck(old(table[id]), level, va))
      ensures PageSize(level) > 0
        && var info, size, needed := old(table[id]), PageSize(level), old(table[id].stackAvailable) + PageSize(level);
        Follows(code,
          if va % size != 0 || (if needed <= m.end then m.end else WORD_LIMIT + m.end) <= va + needed then IllArgs
          else if va == 0 || m.end < va + size then Panic
          else if info.totalAvailable < (info.totalCommit + size) % WORD_LIMIT then Overflow
          else if va in info.pages then AlreadyMapped
          else Ok)
      ensures old(table[id].stackAvailable) + PageSize(level) <= m.end && va > 0 ==> code != Panic
      ensures code == Ok ==>
        && InRange(level, va) && va !in old(table[id].pages)
        && Books(table) == Books(old(table))[id := Entered(Books(old(table))[id], va, page, 0, PageSize(level))]
        && NewPage(old(kernel.pages), kernel.pages, page, level, perms, Zeros(PageSize(level)))
      ensures code == Ok ==>
        var info := old(table[id]);
        && table.Keys == old(table.Keys) && table[id].pages == info.pages[va := page]
        && table[id].totalAvailable == info.totalAvailable
        && table[id].totalCommit == (info.totalCommit + PageSize(level)) % WORD_LIMIT
        && forall j :: j in table && j != id ==> table[j] == old(table[j]).(tables := table[j].tables)
      ensures code != Ok ==> Books(table) == Books(old(table))
      ensures code == Failure ==>
        id in table && (denials > old(denials) || id in internals || InTheWay(kernel, table[id], level, va))
    {
      hide Wrap, TaskTable.Valid, TaskTable.MapCheck, TaskTable.TooHigh, PageSize, Aligned, InTheWay, Entered,
           NewPage, Minus, Books, Book;
      page := 0;
      SpaceEnds();
      VMapCheckInNumbers(table[id], level, va);
      if !Aligned(va, level) { return IllArgs, 0; }
      if TooHigh(table[id], level, va) { return IllArgs, 0; }
      code, page := Map(id, level, perms, va, None);
      if code == Ok {
        EnteredIs(old(table), table, id, va, page, 0, PageSize(level));
      }
    }

    /** What a growth below 2 MiB needs so that only memory, or data that is too long, can stop
        it: free addresses and quota for the whole range, and an owner other than the server. */
    ghost predicate Ready(id: Id, at: nat, end: nat, given: bool)
      requires id in table
      reads this
    {
      RoomFor(kernel.pages, table[id], at, end, given) && id !in internals && (given ==> id != self)
    }

    ghost predicate RoomFor(objs: map<Cap, VirtPage>, info: TaskInfo, at: nat, end: nat, given: bool) {
      && 0 < at && end <= m.end && Clear(objs, info.pages, at, end)
      && info.totalCommit + (if given then 2 * (end - at) else end - at) <= info.totalAvailable
    }

    lemma RoomIsChecked(id: Id, at: nat, end: nat, given: bool)
      requires Valid() && id in table && Ready(id, at, end, given) && Aligned(at, 0) && at + KILO_PAGE_SIZE <= end
      ensures MapCheck(table[id], 0, at) == Ok && RoomFor(kernel.pages, table[id], at, end, given)
      ensures id !in internals && (given ==> id != self)
    {
      ClearIsFree(kernel, table[id], m, at, end);
    }

    lemma NothingInTheWay(k0: State, k1: State, a: TaskInfo, b: TaskInfo, at: nat, end: nat, given: bool)
      requires SpaceOk(k0, a, m) && SpaceOk(k1, b, m) && RoomFor(k0.pages, a, at, end, given) && at < end
      requires PagesKept(k0.pages, k1.pages) && b.pages == a.pages
      ensures !InTheWay(k1, b, 0, at)
    {
      ClearIsKept(k0, k1, a, b, m, at, end);
      ClearIsFree(k1, b, m, at, end);
    }

    lemma StaysReady(k0: State, a: TaskInfo, seen: Ledger, id: Id, at: nat, end: nat, page: Cap, bytes: seq<char>,
        given: bool)
      requires Valid() && id in table && SpaceOk(k0, a, m) && RoomFor(k0.pages, a, at, end, given)
        && seen.objs == k0.pages
      requires id !in internals && (given ==> id != self) && id in seen.books && seen.books[id] == Book(a)
      requires table[id].pages == a.pages[at := page] && NewPage(k0.pages, kernel.pages, page, 0, READ_WRITE, bytes)
      requires Laid(seen, Seen(), self, id, KILO_PAGE_SIZE, at, given)
      ensures Ready(id, at + KILO_PAGE_SIZE, end, given)
    {
      hide SpaceOk, Clear, Aligned, Grew, TaskTable.Valid;
      GrewOwner(seen.books, Books(table), self, id, KILO_PAGE_SIZE, given);
      assert Books(table)[id] == Book(table[id]);
      ClearStep(k0, kernel, a, table[id], m, at, end, page);
    }

    ghost function Seen(): Ledger
      reads this
    {
      Ledger(kernel.pages, Books(table), twice, quota, Hindered())
    }

    /** One page for a stack: with or without data it holds the data at its top. */
    method LayPage(id: Id, level: nat, va: nat, data: Option<seq<char>>) returns (code: Code, ghost page: Cap)
      requires Valid() && id in table && level <= m.max
      modifies this`kernel, this`table, this`twice, this`quota, this`denials, this`refusals
      ensures Valid() && id in table
      ensures code == Ok ==>
        && Laid(old(Seen()), Seen(), self, id, PageSize(level), va, data.Some?) && |Bytes(data)| <= PageSize(level)
        && va !in old(table[id].pages) && table[id].pages == old(table[id].pages)[va := page]
        && NewPage(old(kernel.pages), kernel.pages, page, level, READ_WRITE, TopFilled(PageSize(level), Bytes(data)))
      ensures code != Ok ==>
        && Halted(old(Seen()), Seen(), self, id, va, data.Some?)
        && ((data.Some? ==> id != self) ==> Book(table[id]) == Book(old(table[id])))
      ensures MapCheck(old(table[id]), level, va) == Ok && (data.Some? ==> id != self)
              && |Bytes(data)| <= PageSize(level) ==>
        code == Ok || Hindered() > old(Hindered()) || id in internals || InTheWay(kernel, table[id], level, va)
    {
      hide Wrap;
      ghost var seen := Seen();
      assert seen.books[id] == Book(table[id]) && id in twice;
      hide TaskTable.Valid, DataBooks, Entered, TopFilled, PagesKept, NewPage, TaskTable.MapCheck, HalfDone, InTheWay,
           Scale, Aligned, Laid, Halted;
      code, page := Map(id, level, READ_WRITE, va, data);
      assert Books(table)[id] == Book(table[id]);
      if code == Ok {
        PageIsLaid(seen, Seen(), id, va, page, level, data);
      } else {
        UnchangedIsHalfDone(seen.books, seen.quota, self, page, PageSize(level));
        PageIsRefused(seen, Seen(), self, id, va, page, PageSize(level), data.Some?);
      }
    }

    lemma PageIsLaid(a: Ledger, b: Ledger, id: Id, va: nat, page: Cap, level: nat, data: Option<seq<char>>)
      requires id in a.books && id in a.twice && va !in a.books[id].pages && |Bytes(data)| <= PageSize(level)
        && (data.Some? ==> self in a.books)
      requires b.books == if data.Some? then DataBooks(a.books, self, id, va, page, PageSize(level))
                          else a.books[id := Entered(a.books[id], va, page, 0, PageSize(level))]
      requires NewPage(a.objs, b.objs, page, level, READ_WRITE, if data.Some?
        then TopFilled(PageSize(level), data.value) else Zeros(PageSize(level)))
      requires b.twice == if data.Some? then a.twice[id := a.twice[id] + PageSize(level)] else a.twice
      requires b.quota == Raised(a.quota, self, PageSize(level), data.Some?)
      requires PagesKept(a.objs, b.objs) && a.hindered <= b.hindered
      ensures Laid(a, b, self, id, PageSize(level), va, data.Some?)
        && b.books[id].pages == a.books[id].pages[va := page]
      ensures NewPage(a.objs, b.objs, page, level, READ_WRITE, TopFilled(PageSize(level), Bytes(data)))
    {
      GrewByPage(a.books, self, id, va, page, PageSize(level), data.Some?);
      PageSizeIsPositive(level);
      hide Grew, PagesKept;
      NothingFilled(PageSize(level));
    }

    /** The same for a task that is ready to grow as far as `end`: with small pages it goes on. */
    method LayNext(id: Id, level: nat, va: nat, ghost end: nat, data: Option<seq<char>>)
        returns (code: Code, ghost page: Cap)
      requires Valid() && id in table && level <= m.max && Aligned(va, level) && va + PageSize(level) <= end
      modifies this`kernel, this`table, this`twice, this`quota, this`denials, this`refusals
      ensures Valid() && id in table
      ensures code == Ok ==>
        && Laid(old(Seen()), Seen(), self, id, PageSize(level), va, data.Some?) && |Bytes(data)| <= PageSize(level)
        && va !in old(table[id].pages) && table[id].pages == old(table[id].pages)[va := page]
        && NewPage(old(kernel.pages), kernel.pages, page, level, READ_WRITE, TopFilled(PageSize(level), Bytes(data)))
      ensures code != Ok ==> Halted(old(Seen()), Seen(), self, id, va, data.Some?)
      ensures level == 0 && old(Ready(id, va, end, data.Some?)) && |Bytes(data)| <= KILO_PAGE_SIZE ==>
        (code == Ok || Hindered() > old(Hindered())) && (code == Ok ==> Ready(id, va + KILO_PAGE_SIZE, end, data.Some?))
    {
      hide TaskTable.Valid, TaskTable.Ready, TaskTable.RoomFor, TaskTable.MapCheck, SpaceOk, NewPage, TopFilled,
           InTheWay, PageSize, Aligned, Laid, Halted, Books, Book, Bytes;
      ghost var k0, info0, seen := kernel, table[id], Seen();
      ghost var ready := level == 0 && Ready(id, va, end, data.Some?) && |Bytes(data)| <= KILO_PAGE_SIZE;
      SmallPageSize();
      TableIsOk(id);
      if ready { RoomIsChecked(id, va, end, data.Some?); }
      code, page := LayPage(id, level, va, data);
      TableIsOk(id);
      if ready {
        if code == Ok {
          StaysReady(k0, info0, seen, id, va, end, page, TopFilled(PageSize(level), Bytes(data)), data.Some?);
        } else {
          HaltedKeepsPages(seen, Seen(), self, id, va, data.Some?);
          NothingInTheWay(k0, kernel, info0, table[id], va, end, data.Some?);
        }
      }
    }

    /** One page of a growing stack, with the piece of the data that belongs to it. */
    method StackPage(id: Id, level: nat, start: nat, size: nat, given: bool, rest: seq<char>, ghost job: Job,
        ghost seen: Ledger, ghost left: int, ghost end: nat)
      returns (code: Code, cut: nat)
      requires Valid() && id in table && level <= m.max && PageSize(level) <= size && (!given ==> rest == [])
      requires Progress(kernel.pages, table[id].pages, job, start, rest, left) && Aligned(start, level)
      requires start + size == end && (job.fits ==> CutRight(size, left, PageSize(level), rest))
      requires job.from <= start && Laid(seen, Seen(), self, id, start - job.from, job.from, given)
      modifies this`kernel, this`table, this`twice, this`quota, this`denials, this`refusals
      ensures Valid() && id in table && Hindered() >= old(Hindered())
      ensures cut == Cut(size, PageSize(level), rest)
      ensures code == Ok ==>
        && cut <= PageSize(level)
        && Progress(kernel.pages, table[id].pages, job, start + PageSize(level), rest[cut..], left - PageSize(level))
        && Laid(seen, Seen(), self, id, start + PageSize(level) - job.from, job.from, given)
        && (cut == 0 ==> ZeroEnd(kernel.pages, table[id].pages, start + PageSize(level)))
      ensures code != Ok ==> Halted(seen, Seen(), self, id, job.from, given)
      ensures level == 0 && old(Ready(id, start, end, given)) && cut <= KILO_PAGE_SIZE ==>
        (code == Ok || Hindered() > old(Hindered())) && (code == Ok ==> Ready(id, start + KILO_PAGE_SIZE, end, given))
    {
      hide TaskTable.Valid, TaskTable.Ready, Progress, SpaceOk, NewPage, Laid, Halted, TopFilled, Aligned, PageSize,
           Books, Book, ZeroEnd, CutRight;
      cut := 0;
      if size - PageSize(level) < |rest| { cut := |rest| - (size - PageSize(level)); }
      ghost var page;
      ghost var k0, info0, now := kernel, table[id], Seen();
      SmallPageSize();
      TableIsOk(id);
      var piece := if given then Some(rest[..cut]) else None;
      code, page := LayNext(id, level, start, end, piece);
      if code == Ok {
        LaidKeepsPages(now, Seen(), self, id, PageSize(level), start, given);
        ProgressStep(k0, kernel, info0, table[id], m, job, start, level, rest, size, left, page);
        if cut == 0 { ZerosLaid(k0.pages, kernel.pages, table[id].pages, start, page, level, rest[..cut]); }
        LaidMore(seen, now, Seen(), self, id, start - job.from, PageSize(level), job.from, start, given);
      } else {
        HaltedKeepsPages(now, Seen(), self, id, start, given);
        HaltedLater(seen, now, Seen(), self, id, start - job.from, job.from, start, given);
      }
    }

    lemma ZerosLaid(objs0: map<Cap, VirtPage>, objs1: map<Cap, VirtPage>, pages: map<nat, Cap>, va: nat, page: Cap,
        level: nat, piece: seq<char>)
      requires va in pages && pages[va] == page && piece == []
      requires NewPage(objs0, objs1, page, level, READ_WRITE, TopFilled(PageSize(level), piece))
      ensures ZeroEnd(objs1, pages, va + PageSize(level))
    {
      NothingFilled(PageSize(level));
      assert EndsWithZeros(objs1, pages[va], va, va + PageSize(level));
    }

    lemma SmallPageSize()
      ensures PageSize(0) == KILO_PAGE_SIZE
    {
    }

    lemma TableIsOk(id: Id)
      requires Valid() && id in table
      ensures SpaceOk(kernel, table[id], m) && Wf(kernel)
      ensures id in Seen().books && Seen().books[id] == Book(table[id]) && Book(table[id]).pages == table[id].pages
        && id in Seen().twice && id in Seen().quota
    {
    }

    /** One pass over the levels; `size` is not recomputed between them. */
    method GrowPass(id: Id, start0: nat, size: nat, given: bool, rest0: seq<char>, ghost job: Job, ghost seen: Ledger)
      returns (code: Code, start: nat, rest: seq<char>)
      requires Valid() && id in table && KILO_PAGE_SIZE <= size && (!given ==> rest0 == [])
      requires job.fits ==>
        && |rest0| <= |job.data|
        && (Pages(m.max, start0, size) <= 1 || PassEnd(m.max, start0, size) + |job.data| <= start0 + size)
      requires Progress(kernel.pages, table[id].pages, job, start0, rest0, size)
      requires job.from <= start0 && Laid(seen, Seen(), self, id, start0 - job.from, job.from, given)
      modifies this`kernel, this`table, this`twice, this`quota, this`denials, this`refusals
      ensures Valid() && id in table && Hindered() >= old(Hindered())
      ensures code == Ok ==>
        && start >= start0 && (!given ==> rest == []) && Poured(m.max, start0, start, size, |rest0|, |rest|)
        && Progress(kernel.pages, table[id].pages, job, start, rest, size - (start - start0))
        && Laid(seen, Seen(), self, id, start - job.from, job.from, given)
        && (Pages(m.max, start0, size) >= 2 ==> ZeroEnd(kernel.pages, table[id].pages, start))
      ensures code != Ok ==> Halted(seen, Seen(), self, id, job.from, given)
      ensures size < MEGA_PAGE_SIZE && old(Ready(id, start0, start0 + size, given)) && |rest0| <= size ==>
        (code == Ok || Hindered() > old(Hindered())) && (code == Ok ==> Ready(id, start, start0 + size, given))
    {
      hide Wrap, TaskTable.Valid, TaskTable.Ready, Progress, Aligned, PageSize, Laid, Halted, Books, Book, ZeroEnd,
           CutRight, Passing, Poured, Pages, PassEnd;
      code, start, rest := Ok, start0, rest0;
      ghost var ready := size < MEGA_PAGE_SIZE && Ready(id, start0, start0 + size, given) && |rest0| <= size;
      ghost var laid: nat, first: nat := 0, 0;
      SmallPageSize();
      PlaceIsAligned(kernel.pages, table[id].pages, job, start0, rest0, size);
      PassStarts(m.max, start0, size, |rest0|);
      var level: int := m.max;
      while level >= 0
        invariant -1 <= level <= m.max && code == Ok
        invariant Valid() && id in table && start0 <= start && (!given ==> rest == []) && Hindered() >= old(Hindered())
        invariant Passing(m.max, level, start0, start, size, |rest0|, |rest|, laid, first)
        invariant Progress(kernel.pages, table[id].pages, job, start, rest, size - (start - start0))
        invariant Laid(seen, Seen(), self, id, start - job.from, job.from, given)
        invariant laid >= 2 ==> ZeroEnd(kernel.pages, table[id].pages, start)
        invariant ready && level >= 0 ==> start == start0 && rest == rest0
        invariant ready ==> Ready(id, start, start0 + size, given)
      {
        if level > 0 { MegaIsLevelOne(level); }
        if size >= PageSize(level) && Aligned(start, level) {
          var cut;
          if job.fits { PassCuts(m.max, level, start0, start, size, |rest0|, rest, laid, first, |job.data|); }
          code, cut := StackPage(id, level, start, size, given, rest, job, seen, size - (start - start0), start + size);
          if code != Ok { return; }
          PassLays(m.max, level, start0, start, size, |rest0|, |rest|, laid, first, cut);
          first := if laid == 0 then PageSize(level) else first;
          laid := laid + 1;
          start := start + PageSize(level);
          rest := rest[cut..];
        } else {
          PassSkips(m.max, level, start0, start, size, |rest0|, |rest|, laid, first);
        }
        level := level - 1;
      }
      PassEnds(m.max, start0, start, size, |rest0|, |rest|, laid, first);
    }

    /** The loop of grow_stack over a range. */
    method FillRange(id: Id, from: nat, end: nat, data: Option<seq<char>>, ghost job: Job) returns (code: Code)
      requires Valid() && id in table && Aligned(from, 0) && Aligned(end, 0) && job.from == from
      requires job.fits ==> job.data == Bytes(data) && Pourable(m.max, from, end, |Bytes(data)|)
      requires Progress(kernel.pages, table[id].pages, job, from, Bytes(data), end - from)
      modifies this`kernel, this`table, this`twice, this`quota, this`denials, this`refusals
      ensures Valid() && id in table
      ensures code == Ok ==>
        && (exists rest, left :: Progress(kernel.pages, table[id].pages, job, Finish(m.max, from, end), rest, left))
        && Laid(old(Seen()), Seen(), self, id, Finish(m.max, from, end) - from, from, data.Some?)
        && (from < end ==> |Bytes(data)| <= end - from)
        && (from < end && !Pourable(m.max, from, end, |Bytes(data)|) ==>
              ZeroEnd(kernel.pages, table[id].pages, Finish(m.max, from, end)))
      ensures code != Ok ==> Halted(old(Seen()), Seen(), self, id, from, data.Some?)
      ensures end < from + MEGA_PAGE_SIZE && old(Ready(id, from, end, data.Some?)) && |Bytes(data)| <= end - from ==>
        code == Ok || Hindered() > old(Hindered())
    {
      hide TaskTable.Valid, TaskTable.Ready, Progress, PassEnd, Pages, Pourable, Poured, Filling, Finish, Aligned,
           Laid, Halted, Books, Book, ZeroEnd, PageSize;
      var start, rest := from, Bytes(data);
      ghost var seen, length, right := Seen(), |Bytes(data)|, from <= end;
      ghost var ready := end < from + MEGA_PAGE_SIZE && Ready(id, from, end, data.Some?) && length <= end - from;
      TableIsOk(id);
      LaidNothing(seen, self, id, from, data.Some?);
      FillStarts(m.max, from, end, length);
      while start < end
        invariant Valid() && id in table && from <= start && (data.None? ==> rest == [])
          && Hindered() >= old(Hindered())
        invariant Filling(m.max, from, end, start, length, |rest|, right) && |rest| <= length
        invariant right || from > end || ZeroEnd(kernel.pages, table[id].pages, start)
        invariant start == from ==> right || from > end
        invariant Progress(kernel.pages, table[id].pages, job, start, rest, end - start)
        invariant Laid(seen, Seen(), self, id, start - from, from, data.Some?)
        invariant ready ==> Ready(id, start, end, data.Some?) && |rest| <= end - start
        decreases end - start
      {
        ghost var at, rest0 := start, |rest|;
        NextPassIs(m.max, from, end, start, length, |rest|, right);
        code, start, rest := GrowPass(id, start, end - start, data.Some?, rest, job, seen);
        if code != Ok { return; }
        FillGoesOn(m.max, from, end, at, start, length, rest0, |rest|, right);
        right := Pages(m.max, at, end - at) <= 1 || start + length <= end;
      }
      FillEnds(m.max, from, end, start, length, |rest|, right);
      code := Ok;
    }

    /** grow_stack reaches its loop. */
    predicate CanGrow(info: TaskInfo, g: Range) {
      Wrap(info.stackCommit + g.size) <= info.stackAvailable && Aligned(g.start, 0) && Aligned(g.end, 0)
    }

    /** The stack of `id` covers the range, or as much as its last page overshoots it, and the
        owner, the server and nobody else have paid for it. */
    ghost predicate Extended(books: BookMap, charged: map<Id, nat>, quotas: map<Id, nat>, id: Id, g: Range, given: bool)
      requires id in books && id in table && Aligned(g.start, 0) && Aligned(g.end, 0)
      reads this
    {
      var last := Finish(m.max, g.start, g.end);
      && Covered(kernel.pages, table[id].pages, books[id].pages, g.start, last)
      && Grew(Committed(books, id, g.size), Books(table), self, id, last - g.start, given)
      && id in charged && twice == Twiced(charged, id, last - g.start, given)
      && quota == Raised(quotas, self, last - g.start, given)
    }

    /** The new pages hold the data at their top, if the loop can place it; otherwise the last page
        is blank. */
    ghost predicate Filled(before: map<nat, Cap>, id: Id, g: Range, bytes: seq<char>)
      requires id in table && Aligned(g.start, 0) && Aligned(g.end, 0) && |bytes| <= g.size
      reads this
    {
      if Pourable(m.max, g.start, g.end, |bytes|)
      then Imaged(kernel.pages, table[id].pages, before, g.start, TopFilled(g.size, bytes))
      else ZeroEnd(kernel.pages, table[id].pages, Finish(m.max, g.start, g.end))
    }

    /** Extends the stack downwards by `size` bytes and places `data` at its top. */
    method GrowStack(id: Id, size: nat, data: Option<seq<char>>) returns (code: Code)
      requires Valid()
      modifies this`kernel, this`table, this`twice, this`quota, this`denials, this`refusals
      ensures Valid() && PagesKept(old(kernel.pages), kernel.pages) && Hindered() >= old(Hindered())
      ensures OthersKept(Books(old(table)), Books(table), self, id, data.Some?)
        && (data.None? ==> twice == old(twice) && quota == old(quota))
      ensures id !in old(table) ==> code == NotAttached
      ensures id in old(table) ==> var g := Growth(m, old(table[id]), size);
        && (if old(table[id].stackAvailable) < Wrap(old(table[id].stackCommit) + g.size) then code == Overflow
            else !CanGrow(old(table[id]), g) ==> code == Panic)
        && (code != Ok ==> Halted(old(Seen()), Seen(), self, id, g.start, data.Some?))
      ensures code == Ok ==> var g := Growth(m, old(table[id]), size);
        && id in table && CanGrow(old(table[id]), g)
        && (g.start < g.end ==> g.start !in old(table[id].pages))
        && Extended(Books(old(table)), old(twice), old(quota), id, g, data.Some?)
      ensures code == Ok ==> var g := Growth(m, old(table[id]), size);
        g.start < g.end ==> |Bytes(data)| <= g.size && Filled(old(table[id].pages), id, g, Bytes(data))
      ensures id in old(table) ==> var g := Growth(m, old(table[id]), size);
        CanGrow(old(table[id]), g) && g.start < g.end && g.size < MEGA_PAGE_SIZE
          && old(Ready(id, g.start, g.end, data.Some?)) ==>
          Hindered() > old(Hindered()) || (code == Ok <==> |Bytes(data)| <= g.size)
      ensures code == Ok ==> var g := Growth(m, old(table[id]), size);
        && table[id].stackCommit == Wrap(old(table[id].stackCommit) + g.size)
        && var n := Finish(m.max, g.start, g.end) - g.start;
        table[id].totalCommit == Wrap(old(table[id].totalCommit) + if data.Some? then 2 * n else n)
    {
      hide Wrap, TaskTable.Valid, TaskTable.Ready, Growth, Finish, Aligned, Laid, Halted, OthersKept, Grew, Twiced,
           Committed, Covered, Imaged, TopFilled, PagesKept, Books, Book;
      ghost var seen := Seen();
      NothingMoves(seen, self, id, data.Some?);
      if id !in table { return NotAttached; }
      TableIsOk(id);
      var g := Growth(m, table[id], size);
      HaltedAtOnce(seen, self, id, g.start, data.Some?);
      GrowthIsSize(m, table[id], size);
      if table[id].stackAvailable < Wrap(table[id].stackCommit + g.size) { return Overflow; }
      if !Aligned(g.start, 0) || !Aligned(g.end, 0) { return Panic; }
      code := FillStack(id, g, data);
      if code != Ok {
        HaltedKeepsOthers(seen, Seen(), self, id, g.start, data.Some?);
        return;
      }
      ghost var laid := Seen();
      TableIsOk(id);
      CommitStack(id, g.size);
      LaidThenCommitted(seen, laid, self, id, Finish(m.max, g.start, g.end) - g.start, g.start, g.size, data.Some?);
      CountersOfGrowth(old(table), table, old(quota), id, g, data.Some?);
    }

    lemma GrowthInNumbers(info: TaskInfo, size: Word)
      requires m.end < WORD_LIMIT
      ensures var n := if size <= WORD_LIMIT - 4096 then (size + 4095) / 4096 * 4096 else 0;
        var g := Growth(m, info, size);
        && g.size == n && Wrap(info.stackCommit + g.size) == (info.stackCommit + n) % WORD_LIMIT
        && (info.stackCommit + n <= m.end ==> g == Range(m.end - info.stackCommit - n, m.end - info.stackCommit, n))
        && (info.stackCommit + n <= m.end && (m.end - info.stackCommit) % 4096 == 0
            && info.stackCommit + n <= info.stackAvailable ==>
              CanGrow(info, g))
    {
      hide Growth, Aligned, PageSize;
      GrowthIs(m, info, size);
      var n := Growth(m, info, size).size;
      if info.stackCommit + n <= m.end {
        AlignedIsDivisible(m.end - info.stackCommit, 0);
        AlignedIsDivisible(m.end - info.stackCommit - n, 0);
        WrapFits(info.stackCommit + n);
      }
    }

    lemma ExtendedInNumbers(before: map<Id, TaskInfo>, charged: map<Id, nat>, quotas: map<Id, nat>, id: Id, g: Range)
      requires id in before && id in table && CanGrow(before[id], g)
      requires Extended(Books(before), charged, quotas, id, g, false)
      ensures Aligned(g.start, 0) && Aligned(g.end, 0)
      ensures Covered(kernel.pages, table[id].pages, before[id].pages, g.start, Finish(m.max, g.start, g.end))
      ensures g.start <= g.end < g.start + 0x20_0000 ==> Finish(m.max, g.start, g.end) == g.end
    {
      hide Finish, Aligned, Covered, Grew;
      if g.start <= g.end < g.start + 0x20_0000 { SmallRangeIsExact(m.max, g.start, g.end); }
      assert Books(before)[id] == Book(before[id]);
    }

    lemma CountersOfGrowth(t0: map<Id, TaskInfo>, t1: map<Id, TaskInfo>, quotas: map<Id, nat>, id: Id, g: Range,
        given: bool)
      requires id in t0 && Aligned(g.start, 0) && Aligned(g.end, 0)
      requires Grew(Committed(Books(t0), id, g.size), Books(t1), self, id, Finish(m.max, g.start, g.end) - g.start,
                    given)
      ensures id in t1 && t1[id].stackCommit == Wrap(t0[id].stackCommit + g.size)
      ensures var n := Finish(m.max, g.start, g.end) - g.start;
        t1[id].totalCommit == Wrap(t0[id].totalCommit + if given then 2 * n else n)
    {
      hide Finish, Aligned, Wrap;
      assert id in Books(t1) && Books(t1)[id] == Book(t1[id]) && Books(t0)[id] == Book(t0[id]);
    }

    /** The request grow_stack. It brings no data, so nothing is charged twice, nobody else is
        touched, and every task that was never charged twice is in its quota, unless that wrapped
        around. */
    method RequestStack(id: Id, size: Word) returns (code: Code)
      requires Valid()
      modifies this`kernel, this`table, this`twice, this`quota, this`denials, this`refusals
      ensures Valid() && twice == old(twice) && quota == old(quota) && table.Keys == old(table.Keys)
      ensures forall j :: j in table && j != id ==> Book(table[j]) == Book(old(table[j]))
      ensures forall j :: j in table && j !in internals && twice[j] == 0 && quota[j] < WORD_LIMIT ==> InQuota(j)
      ensures PagesKept(old(kernel.pages), kernel.pages) && Hindered() >= old(Hindered())
      ensures id !in old(table) ==> code == NotAttached
      ensures id in old(table) ==>
        var info, n := old(table[id]), if size <= WORD_LIMIT - 4096 then (size + 4095) / 4096 * 4096 else 0;
        && (info.stackAvailable < (info.stackCommit + n) % WORD_LIMIT ==> code == Overflow)
        && (code == Ok ==> table[id].stackCommit == (info.stackCommit + n) % WORD_LIMIT)
        && (code == Ok && info.stackCommit + n <= m.end ==>
              var top := m.end - info.stackCommit;
              && Aligned(top - n, 0) && Aligned(top, 0)
              && var last := Finish(m.max, top - n, top);
              && (n < 0x20_0000 ==> last == top)
              && Covered(kernel.pages, table[id].pages, info.pages, top - n, last)
              && table[id].totalCommit == (info.totalCommit + (last - (top - n))) % WORD_LIMIT)
        && (0 < n < 0x20_0000 && info.stackCommit + n < m.end && (m.end - info.stackCommit) % 4096 == 0
            && info.stackCommit + n <= info.stackAvailable
            && old(Ready(id, m.end - info.stackCommit - n, m.end - info.stackCommit, false)) ==>
              code == Ok || Hindered() > old(Hindered()))
    {
      hide TaskTable.Valid, Growth, Halted, TaskTable.Extended, Imaged, Covered, TaskTable.Ready, TaskTable.CanGrow,
           TaskTable.InQuota, OthersKept, PagesKept, Total, Books, Book;
      if id in table { SpaceEnds(); GrowthInNumbers(table[id], size); }
      code := GrowStack(id, size, None);
      if code == Ok {
        ExtendedInNumbers(old(table), old(twice), old(quota), id, Growth(m, old(table[id]), size));
      }
      OwnerStays(old(table), table, id, false);
      OthersStay(old(table), table, id);
      QuotasHold();
    }

    lemma OthersStay(t0: map<Id, TaskInfo>, t1: map<Id, TaskInfo>, id: Id)
      requires OthersKept(Books(t0), Books(t1), self, id, false)
      ensures forall j :: j in t1 && j != id ==> j in t0 && Book(t1[j]) == Book(t0[j])
    {
      OwnerStays(t0, t1, id, false);
      forall j | j in t1 && j != id ensures Book(t1[j]) == Book(t0[j]) {
        assert Books(t1)[j] == Books(t0)[j];
      }
    }

    lemma QuotasHold()
      requires Valid()
      ensures twice.Keys == quota.Keys == table.Keys
      ensures forall j :: j in table && j !in internals && twice[j] == 0 && quota[j] < WORD_LIMIT ==> InQuota(j)
    {
      forall j | j in table && j !in internals && twice[j] == 0 && quota[j] < WORD_LIMIT ensures InQuota(j) {
        assert SpaceOk(kernel, table[j], m) && QuotaOk(kernel.pages, table[j], twice[j], quota[j], m);
        RecordedFitsSpace(kernel, table[j], m);
        WrapFits(Total(kernel.pages, table[j].pages));
        WrapFits(quota[j]);
      }
    }

    method FillStack(id: Id, g: Range, data: Option<seq<char>>) returns (code: Code)
      requires Valid() && id in table && Aligned(g.start, 0) && Aligned(g.end, 0)
        && (g.start <= g.end ==> g.end - g.start == g.size)
      modifies this`kernel, this`table, this`twice, this`quota, this`denials, this`refusals
      ensures Valid() && id in table
      ensures code == Ok ==> var last := Finish(m.max, g.start, g.end);
        && Laid(old(Seen()), Seen(), self, id, last - g.start, g.start, data.Some?)
        && Covered(kernel.pages, table[id].pages, old(table[id].pages), g.start, last)
        && (g.start < g.end ==> |Bytes(data)| <= g.size && Filled(old(table[id].pages), id, g, Bytes(data)))
      ensures code != Ok ==> Halted(old(Seen()), Seen(), self, id, g.start, data.Some?)
      ensures g.start < g.end && g.size < MEGA_PAGE_SIZE && old(Ready(id, g.start, g.end, data.Some?))
              && |Bytes(data)| <= g.size ==>
        code == Ok || Hindered() > old(Hindered())
    {
      hide TaskTable.Valid, TaskTable.Ready, Pourable, Finish, Aligned, Progress, Covered, Imaged, Pouring, Laid,
           Halted, TopFilled, ZeroEnd;
      ghost var fits := |Bytes(data)| <= g.size && Pourable(m.max, g.start, g.end, |Bytes(data)|);
      if fits { PourableIsExact(m.max, g.start, g.end, |Bytes(data)|); }
      ghost var image := if fits then TopFilled(g.size, Bytes(data)) else [];
      ghost var job := Job(table[id].pages, g.start, Bytes(data), image, fits);
      if fits { TopFilledBytes(g.size, Bytes(data)); }
      ProgressStart(kernel.pages, table[id].pages, job, g.end - g.start);
      code := FillRange(id, g.start, g.end, data, job);
      if code == Ok { ProgressEnds(kernel.pages, table[id].pages, job, Finish(m.max, g.start, g.end)); }
    }

    method CommitStack(id: Id, size: nat)
      requires Valid() && id in table
      modifies this`table
      ensures Valid()
      ensures table == old(table)[id := old(table[id]).(stackCommit := Wrap(old(table[id].stackCommit) + size))]
      ensures Books(table) == Committed(Books(old(table)), id, size)
    {
      var info := table[id].(stackCommit := Wrap(table[id].stackCommit + size));
      Recharge(kernel, table, internals, m, id, info);
      NothingMore(twice, id);
      NothingMore(quota, id);
      QuotaOfOne(kernel.pages, table, internals, twice, quota, m, id, info, 0, 0);
      table := table[id := info];
    }

    /** The record of a request to attach, with its defaults filled in. */
    function Requested(root: Cap, stack: Word, total: Word, commit: Word): TaskInfo {
      NewTask(root, m, OrDefault(stack, DEFAULT_STACK), OrDefault(total, DEFAULT_TOTAL), commit)
    }

    /** The range of a first stack. */
    function FirstRange(stackCommit: nat): Range {
      Growth(m, NewTask(0, m, 0, 0, 0), stackCommit)
    }

    /** The quotas cover a first stack below 2 MiB, with the second charge that data brings. */
    predicate FirstFits(stack: nat, total: nat, g: Range, given: bool) {
      && Aligned(m.end, 0) && 0 < g.size < MEGA_PAGE_SIZE && g.size < m.end
      && g.size <= stack && (if given then 2 * g.size else g.size) <= total
    }

    /** Registers a task below its root table and, unless it is internal, lays out its stack.
        A stack that could not be grown does not make the request fail. */
    method Attach(id: Id, root: Cap, stackAvailable: Word, totalAvailable: Word, stackCommit: Word, internal: bool,
        data: Option<seq<char>>)
      returns (code: Code, sp: nat, ghost grown: Code)
      requires Valid() && (id !in table ==> FreshRoot(kernel, table, internal, m, root))
      modifies this
      ensures Valid() && PagesKept(old(kernel.pages), kernel.pages) && Hindered() >= old(Hindered())
      ensures code == AlreadyAttached <==> id in old(table)
      ensures id !in old(table) ==>
        var stack := if stackAvailable == 0 then 0x20_0000 else stackAvailable;
        var total := if totalAvailable == 0 then 32 * 0x4000_0000 else totalAvailable;
        code == IllArgs <==> stack > total || stack < stackCommit
      ensures code in {AlreadyAttached, IllArgs} ==>
        && table == old(table) && kernel == old(kernel) && internals == old(internals)
        && twice == old(twice) && quota == old(quota)
      ensures code == Ok ==> id in table
      ensures internal && code !in {AlreadyAttached, IllArgs} ==> code == Ok
      ensures code !in {AlreadyAttached, IllArgs} ==>
        && internals == (if internal then old(internals) + {id} else old(internals) - {id})
        && var info := Requested(root, stackAvailable, totalAvailable, if internal then stackCommit else 0);
        && (data.None? ==> twice == old(twice)[id := 0] && quota == old(quota)[id := info.totalAvailable])
        && OthersKept(Books(old(table))[id := Book(info)], Books(table), self, id, data.Some?)
      ensures code == Ok && (internal || stackCommit == 0) ==>
        && var info := Requested(root, stackAvailable, totalAvailable, if internal then stackCommit else 0);
        && table == old(table)[id := info]
        && twice == old(twice)[id := 0] && quota == old(quota)[id := info.totalAvailable]
        && table[id].stackAvailable == (if stackAvailable == 0 then 0x20_0000 else stackAvailable)
        && table[id].totalAvailable == (if totalAvailable == 0 then 32 * 0x4000_0000 else totalAvailable)
        && table[id].stackCommit == table[id].totalCommit == (if internal then stackCommit else 0)
        && table[id].tables == map[(m.max, 0) := root] && table[id].pages == map[]
      ensures code == Ok && !internal && grown == Ok ==>
        var g, info := FirstRange(stackCommit), Requested(root, stackAvailable, totalAvailable, 0);
        && Aligned(g.start, 0) && Aligned(g.end, 0)
        && Extended(Books(old(table))[id := Book(info)], old(twice)[id := 0],
                    old(quota)[id := info.totalAvailable], id, g, data.Some?)
        && TopReads(id, g, Bytes(data))
      ensures code == Ok && !internal && grown == Ok && 0 < stackCommit <= WORD_LIMIT - 4096 ==>
        FirstStackIs(id, (stackCommit + 4095) / 4096 * 4096, Bytes(data))
      ensures code == Ok && !internal ==> sp == Minus(m.end, |Bytes(data)|)
      ensures code == Ok && !internal && grown != Ok ==> table[id].stackCommit == 0
      ensures code !in {AlreadyAttached, IllArgs} && !internal && (data.Some? ==> id != self)
              && FirstFits(OrDefault(stackAvailable, DEFAULT_STACK), OrDefault(totalAvailable, DEFAULT_TOTAL),
                FirstRange(stackCommit), data.Some?) ==>
        Hindered() > old(Hindered()) || (grown == Ok <==> |Bytes(data)| <= FirstRange(stackCommit).size)
    {
      hide Wrap, TaskTable.Valid, TaskTable.FirstRange, TaskTable.TopReads, TaskTable.FirstFits, TaskTable.Extended,
           FreshRoot, Aligned, PagesKept, OthersKept, Books, Book;
      sp, grown := 0, Failure;
      NothingMoves(Seen(), self, id, data.Some?);
      if id in table { return AlreadyAttached, 0, Failure; }
      var stack, total := OrDefault(stackAvailable, DEFAULT_STACK), OrDefault(totalAvailable, DEFAULT_TOTAL);
      if stack > total || stack < stackCommit { return IllArgs, 0, Failure; }
      var commit := if internal then stackCommit else 0;
      Register(id, root, stack, total, commit, internal);
      BooksOfUpdate(old(table), id, NewTask(root, m, stack, total, commit));
      NothingMoves(Seen(), self, id, data.Some?);
      if internal { return Ok, 0, Failure; }
      NoFirstStack();
      if stackCommit > 0 {
        var result := FirstStack(id, stackCommit, data);
        grown := result;
        if result == Panic { return Panic, 0, grown; }
      }
      var written: bool := *;
      code, sp := if written then Ok else Failure, Minus(m.end, |Bytes(data)|);
    }

    method FirstStack(id: Id, stackCommit: Word, data: Option<seq<char>>) returns (code: Code)
      requires Valid() && id in table && table[id].stackCommit == 0 && table[id].pages == map[]
      modifies this`kernel, this`table, this`twice, this`quota, this`denials, this`refusals
      ensures Valid() && PagesKept(old(kernel.pages), kernel.pages) && Hindered() >= old(Hindered())
      ensures id in table && OthersKept(Books(old(table)), Books(table), self, id, data.Some?)
        && (data.None? ==> twice == old(twice) && quota == old(quota))
      ensures code != Ok ==> table[id].stackCommit == 0
      ensures code == Ok ==>
        var g := FirstRange(stackCommit);
        && Aligned(g.start, 0) && Aligned(g.end, 0)
        && Extended(Books(old(table)), old(twice), old(quota), id, g, data.Some?) && TopReads(id, g, Bytes(data))
      ensures code == Ok && 0 < stackCommit <= WORD_LIMIT - 4096 ==>
        FirstStackIs(id, (stackCommit + 4095) / 4096 * 4096, Bytes(data))
      ensures id !in internals && (data.Some? ==> id != self) && old(table[id].totalCommit) == 0
              && FirstFits(old(table[id].stackAvailable), old(table[id].totalAvailable), FirstRange(stackCommit),
                data.Some?) ==>
        Hindered() > old(Hindered()) || (code == Ok <==> |Bytes(data)| <= FirstRange(stackCommit).size)
    {
      hide TaskTable.Valid, TaskTable.Ready, TaskTable.FirstRange, TaskTable.TopReads, Growth, Finish, Aligned,
           Halted, OthersKept, Grew, Twiced, Committed, Covered, Imaged, TopFilled, PagesKept, Books, Book;
      FirstRangeIs(table[id], stackCommit);
      if id !in internals && (data.Some? ==> id != self) && table[id].totalCommit == 0
         && FirstFits(table[id].stackAvailable, table[id].totalAvailable, FirstRange(stackCommit), data.Some?) {
        FirstIsReady(id, stackCommit, data.Some?);
      }
      ghost var seen := Seen();
      TableIsOk(id);
      code := GrowStack(id, stackCommit, data);
      OwnerStays(old(table), table, id, data.Some?);
      if code != Ok { StackStays(old(table), table, seen, id, FirstRange(stackCommit).start, data.Some?); }
      if code == Ok {
        StackTop(id, stackCommit, Bytes(data));
        if 0 < stackCommit <= WORD_LIMIT - 4096 {
          FirstInNumbers(old(table), old(twice), old(quota), id, stackCommit, Bytes(data), data.Some?);
        }
      }
    }

    lemma FirstInNumbers(before: map<Id, TaskInfo>, charged: map<Id, nat>, quotas: map<Id, nat>, id: Id,
        stackCommit: Word, bytes: seq<char>, given: bool)
      requires Valid() && id in table && 0 < stackCommit <= WORD_LIMIT - 4096
      requires id in before && before[id].stackCommit == 0 && before[id].pages == map[]
      requires var g := FirstRange(stackCommit);
        && Aligned(g.start, 0) && Aligned(g.end, 0)
        && Extended(Books(before), charged, quotas, id, g, given) && TopReads(id, g, bytes)
        && table[id].stackCommit == Wrap(g.size)
      ensures FirstStackIs(id, (stackCommit + 4095) / 4096 * 4096, bytes)
    {
      hide TaskTable.Valid, TaskTable.ReadByte, Growth, Finish, Pourable, Covered, Grew, Twiced, Raised, Committed,
           Aligned;
      SpaceEnds();
      FirstRangeIs(before[id], stackCommit);
      GrowthIs(m, before[id], stackCommit);
      var n := (stackCommit + 4095) / 4096 * 4096;
      WrapFits(n);
      assert Books(before)[id] == Book(before[id]);
      if n < 0x20_0000 && n <= m.end {
        SmallIsPourable(m.max, m.end - n, m.end, |bytes|);
        if |bytes| <= n { MinusIs(m.end, |bytes|); }
      }
    }

    /** The first n bytes of stack, right below the end of the space, and the data at their top. */
    ghost predicate FirstStackIs(id: Id, n: nat, bytes: seq<char>)
      requires Valid() && id in table
      reads this
    {
      && table[id].stackCommit == n
      && (n <= m.end ==>
        && Aligned(m.end - n, 0) && Aligned(m.end, 0)
        && Covered(kernel.pages, table[id].pages, map[], m.end - n, Finish(m.max, m.end - n, m.end)))
      && (n < 0x20_0000 && n <= m.end ==>
        |bytes| <= n && forall i :: 0 <= i < |bytes| ==> ReadByte(id, m.end - |bytes| + i) == Some(bytes[i]))
    }

    lemma FirstRangeIs(info: TaskInfo, stackCommit: nat)
      requires Valid() && info.stackCommit == 0
      ensures Growth(m, info, stackCommit) == FirstRange(stackCommit)
      ensures var g := FirstRange(stackCommit);
        && g.end == m.end
        && (g.size <= m.end ==> g.start == m.end - g.size)
        && (g.size < m.end && Aligned(m.end, 0) ==> Aligned(g.start, 0))
    {
      hide TaskTable.Valid, LayoutOk, PageSize, Aligned, Minus;
      SpaceEnds();
      var g := FirstRange(stackCommit);
      MinusIs(m.end, 0);
      MinusIs(m.end, g.size);
      AlignedIsDivisible(m.end, 0);
      AlignedIsDivisible(g.start, 0);
    }

    lemma StackStays(t0: map<Id, TaskInfo>, t1: map<Id, TaskInfo>, seen: Ledger, id: Id, first: nat, given: bool)
      requires id in t0 && id in t1 && seen.books == Books(t0) && Seen().books == Books(t1)
        && Halted(seen, Seen(), self, id, first, given)
      ensures t1[id].stackCommit == t0[id].stackCommit
    {
      assert Books(t0)[id] == Book(t0[id]) && Books(t1)[id] == Book(t1[id]);
    }

    lemma NoFirstStack()
      ensures forall stack, total, given :: !FirstFits(stack, total, FirstRange(0), given)
    {
      assert FirstRange(0).size == 0;
    }

    lemma FirstIsReady(id: Id, stackCommit: nat, given: bool)
      requires Valid() && id in table && table[id].pages == map[] && table[id].totalCommit == 0
      requires id !in internals && (given ==> id != self)
      requires FirstFits(table[id].stackAvailable, table[id].totalAvailable, FirstRange(stackCommit), given)
      ensures var g := FirstRange(stackCommit); Ready(id, g.start, g.end, given) && g.start < g.end
    {
      FirstRangeIs(NewTask(0, m, 0, 0, 0), stackCommit);
    }

    lemma OwnerStays(t0: map<Id, TaskInfo>, t1: map<Id, TaskInfo>, id: Id, given: bool)
      requires OthersKept(Books(t0), Books(t1), self, id, given)
      ensures t1.Keys == t0.Keys
    {
      assert t0.Keys == Books(t0).Keys && t1.Keys == Books(t1).Keys;
    }

    /** The data fits the stack. If the loop can place it, the last bytes below user_space_end read
        as the data; if it cannot, although it ends there, the last byte reads as zero. */
    ghost predicate TopReads(id: Id, g: Range, bytes: seq<char>)
      requires Valid() && id in table && Aligned(g.start, 0) && Aligned(g.end, 0)
      reads this
    {
      0 < g.size <= m.end ==>
        && |bytes| <= g.size
        && if Pourable(m.max, g.start, g.end, |bytes|)
           then forall i :: 0 <= i < |bytes| ==> ReadByte(id, Minus(m.end, |bytes|) + i) == Some(bytes[i])
           else Finish(m.max, g.start, g.end) == m.end ==> ReadByte(id, m.end - 1) == Some('\0')
    }

    method Register(id: Id, root: Cap, stack: Word, total: Word, commit: Word, internal: bool)
      requires Valid() && id !in table && FreshRoot(kernel, table, internal, m, root) && (!internal ==> commit == 0)
      modifies this`table, this`internals, this`twice, this`quota
      ensures Valid() && table == old(table)[id := NewTask(root, m, stack, total, commit)]
        && twice == old(twice)[id := 0] && quota == old(quota)[id := total]
      ensures internals == if internal then old(internals) + {id} else old(internals) - {id}
    {
      var info := NewTask(root, m, stack, total, commit);
      AttachStep(kernel, table, internals, m, id, internal, info, root);
      WrapFits(total);
      table := table[id := info];
      twice, quota := twice[id := 0], quota[id := total];
      internals := if internal then internals + {id} else internals - {id};
      assert Total(kernel.pages, map[]) == 0;
    }

    /** The application manager makes the root table of a task before attaching it. */
    method NewRoot() returns (root: Cap)
      requires Valid()
      modifies this`kernel
      ensures Valid() && FreshRoot(kernel, table, false, m, root) && kernel.pages == old(kernel.pages)
    {
      root := kernel.next;
      CreateRootKeepsWf(kernel, m.max);
      forall id | id in table
        ensures (m.max, 0) in table[id].tables && table[id].tables[(m.max, 0)] != root
      {
        assert SpaceOk(kernel, table[id], m);
        assert TableEntryOk(kernel, table[id], m, m.max, 0);
      }
      forall i: nat ensures (root, i) !in kernel.slots {
        if (root, i) in kernel.slots { SlotTableIsPlaced(kernel, root, i); }
      }
      QuietStep(kernel, CreateRoot(kernel, m.max), table, internals, m);
      kernel := CreateRoot(kernel, m.max);
    }

    /** The byte a task reads at an address. */
    ghost function ReadByte(id: Id, va: nat): Option<char>
      requires Valid() && id in table
      reads this
    {
      assert SpaceOk(kernel, table[id], m);
      Load(kernel, Root(table[id], m), m.max, va)
    }

    /** After the first growth of a stack its top reads as TopReads says. */
    lemma StackTop(id: Id, stackCommit: nat, bytes: seq<char>)
      requires Valid() && id in table
      requires var g := FirstRange(stackCommit);
        && Aligned(g.start, 0) && Aligned(g.end, 0)
        && Covered(kernel.pages, table[id].pages, map[], g.start, Finish(m.max, g.start, g.end))
        && (g.start < g.end ==> |bytes| <= g.size && Filled(map[], id, g, bytes))
      ensures TopReads(id, FirstRange(stackCommit), bytes)
    {
      hide TaskTable.Valid, TaskTable.FirstRange, TaskTable.ReadByte, Imaged, Covered, Aligned, Pourable, Finish,
           ZeroEnd, TopFilled, Minus;
      var g := FirstRange(stackCommit);
      FirstRangeIs(NewTask(0, m, 0, 0, 0), stackCommit);
      if 0 < g.size <= m.end {
        if Pourable(m.max, g.start, g.end, |bytes|) {
          PourableIsExact(m.max, g.start, g.end, |bytes|);
          TopBytes(id, g.start, g.size, bytes);
        } else if Finish(m.max, g.start, g.end) == m.end {
          LastByte(id);
        }
      }
    }

    lemma SpaceEnds()
      requires Valid()
      ensures LayoutOk(m) && m.end < WORD_LIMIT
    {
    }

    lemma TopBytes(id: Id, start: nat, size: nat, bytes: seq<char>)
      requires Valid() && id in table && start + size == m.end && |bytes| <= size
      requires Covered(kernel.pages, table[id].pages, map[], start, m.end)
      requires Imaged(kernel.pages, table[id].pages, map[], start, TopFilled(size, bytes))
      ensures forall i :: 0 <= i < |bytes| ==> ReadByte(id, Minus(m.end, |bytes|) + i) == Some(bytes[i])
    {
      hide TaskTable.Valid, TaskTable.ReadByte, Imaged, Covered, TopFilled;
      SpaceEnds();
      assert Minus(m.end, |bytes|) == m.end - |bytes|;
      forall i | 0 <= i < |bytes| ensures ReadByte(id, Minus(m.end, |bytes|) + i) == Some(bytes[i]) {
        TopByte(id, start, size, bytes, i);
      }
    }

    lemma TopByte(id: Id, start: nat, size: nat, bytes: seq<char>, i: nat)
      requires Valid() && id in table && start + size == m.end && |bytes| <= size && i < |bytes|
      requires Covered(kernel.pages, table[id].pages, map[], start, m.end)
      requires Imaged(kernel.pages, table[id].pages, map[], start, TopFilled(size, bytes))
      ensures ReadByte(id, m.end - |bytes| + i) == Some(bytes[i])
    {
      hide Imaged, Covered, SpaceOk, Wf, PageBaseLow, Load;
      TableIsOk(id);
      ImageIsRead(kernel, table[id], m, map[], start, m.end, TopFilled(size, bytes), m.end - |bytes| + i);
    }

    lemma LastByte(id: Id)
      requires Valid() && id in table && ZeroEnd(kernel.pages, table[id].pages, m.end)
      ensures m.end > 0 && ReadByte(id, m.end - 1) == Some('\0')
    {
      hide TaskTable.Valid;
      TableIsOk(id);
      ZeroIsRead(kernel, table[id], m, m.end);
    }
  }
}
