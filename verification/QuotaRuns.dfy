/** Runs of requests in which a 64-bit counter of the task table wraps around. */
module QuotaRuns {
  import opened Paging
  import opened Kernel
  import opened Options
  import AddressSpace
  import SpaceSteps
  import opened AddressSearch
  import opened PageObjects
  import opened StackBooks
  import opened TaskSteps
  import opened TaskTables
  import opened Words

  lemma {:induction false} PageSizeIsWhole(level: nat)
    ensures PageSize(level) % KILO_PAGE_SIZE == 0
  {
    hide PageSize, Aligned;
    if level > 0 {
      AlignedIsDivisible(0, level - 1);
      PageSizeIsWhole(level - 1);
    } else {
      AlignedIsDivisible(0, 0);
    }
  }

  /** No page is so large that one small page more would wrap around. */
  lemma RoomForOneMore(level: nat)
    requires PageSize(level) < WORD_LIMIT
    ensures PageSize(level) + KILO_PAGE_SIZE < WORD_LIMIT
  {
    hide PageSize, Aligned;
    AlignedIsDivisible(0, 0);
    if level > 0 {
      AlignedIsDivisible(0, level - 1);
      PageSizeIsWhole(level - 1);
      var small := PageSize(level - 1) / KILO_PAGE_SIZE;
      assert PageSize(level) == 512 * (KILO_PAGE_SIZE * small);
    }
  }

  lemma EnteredCounters(b0: BookMap, t1: map<AddressSpace.Id, AddressSpace.TaskInfo>, id: AddressSpace.Id, va: nat,
      page: Cap, size: nat)
    requires id in b0 && Books(t1) == b0[id := Entered(b0[id], va, page, size, size)]
    ensures id in t1
    ensures t1[id].totalAvailable == Wrap(b0[id].totalAvailable + size)
    ensures t1[id].totalCommit == Wrap(b0[id].totalCommit + size)
  {
    assert id in Books(t1) && Books(t1)[id] == Book(t1[id]);
  }

  /** Nothing can be mapped within a quota that is exceeded. */
  lemma Exceeded(t: TaskTable, info: AddressSpace.TaskInfo, level: nat, va: nat)
    requires t.Valid() && level <= t.m.max && info.totalAvailable == 4095 && info.totalCommit == 4096
    ensures t.VMapCheck(info, level, va) != Ok
  {
    PageSizeGrows(level, t.m.max);
    PageSizeIsPositive(level);
    RoomForOneMore(level);
    WrapFits(4096 + PageSize(level));
    PageSizeGrows(0, level);
    AlignedIsDivisible(0, 0);
  }

  /** A task attached with the largest quota is given one small page by vpmap. Its quota is then
      4095 bytes, which it exceeds, and every request for another page is refused. */
  method WrapQuota(t: TaskTable, id: AddressSpace.Id, root: Cap, page: Cap, at: nat, level: nat, va: nat)
      returns (attached: Code, given: Code, more: Code)
    requires t.Valid() && id !in t.table && SpaceSteps.FreshRoot(t.kernel, t.table, false, t.m, root)
    requires page in t.kernel.pages && t.kernel.pages[page].level == 0 && t.kernel.pages[page].spot.Nowhere?
    modifies t
    ensures t.Valid() && attached !in {AlreadyAttached, IllArgs}
    ensures attached == given == Ok ==>
      && id in t.table && t.table[id].totalAvailable == 4095 && t.table[id].totalCommit == 4096
      && !t.InQuota(id) && more != Ok
  {
    hide TaskTable.Valid, SpaceSteps.FreshRoot, TaskTable.Extended, TaskTable.TopReads, TaskTable.FirstFits,
         TaskTable.FirstRange, TaskTable.VMapCheck, TaskTable.VpCheck, Entered, Books, Book, PageSize, Aligned, Wrap,
         OthersKept, NewPage, Minus, OnePageChanged, Touched, Uncovered;
    given, more := Failure, Failure;
    AlignedIsDivisible(0, 0);
    var sp;
    ghost var grown, found;
    attached, sp, grown := t.Attach(id, root, 0, WORD_LIMIT - 1, 0, false, None);
    if attached != Ok { return; }
    t.TableIsOk(id);
    ghost var b0 := Books(t.table);
    BookCounters(t.table[id]);
    var act;
    given, act := t.VpMap(id, Perms(true, true, false), page, at);
    if given != Ok { return; }
    EnteredCounters(b0, t.table, id, act, page, 4096);
    WrappedCounters();
    ghost var mid := t.table;
    more, act, found := t.VMap(id, level, Perms(true, true, false), va);
    if level <= t.m.max { Exceeded(t, mid[id], level, act); }
    t.BookStays(mid, t.table, id);
    BookCounters(mid[id]);
    BookCounters(t.table[id]);
  }

  lemma BookCounters(info: AddressSpace.TaskInfo)
    ensures Book(info).totalAvailable == info.totalAvailable && Book(info).totalCommit == info.totalCommit
  {
  }

  lemma WrappedCounters()
    ensures Wrap(WORD_LIMIT - 1 + 4096) == 4095 && Wrap(0 + 4096) == 4096
  {
  }
}
