/** The bookkeeping of the task table as functions on values, and the proof that each keeps
    both the agreement with the kernel and the quota accounting. */
module TaskSteps {
  import opened Paging
  import opened Kernel
  import opened AddressSpace
  import opened SpaceSteps
  import opened Quota
  import opened Words

  /** The counters are the recorded bytes plus `twice` bytes charged a second time, and `quota`,
      both cut to 64 bits. While neither can have wrapped around, what is recorded never exceeds
      the quota. */
  ghost predicate QuotaOk(objs: map<Cap, VirtPage>, info: TaskInfo, twice: nat, quota: nat, m: Layout) {
    && info.totalAvailable == Wrap(quota)
    && info.totalCommit == Wrap(Total(objs, info.pages) + twice)
    && (NeverWrapped(twice, quota, m) ==> Total(objs, info.pages) <= quota)
  }

  predicate NeverWrapped(twice: nat, quota: nat, m: Layout) {
    quota < WORD_LIMIT && m.end + twice < WORD_LIMIT
  }

  ghost predicate QuotasOk(objs: map<Cap, VirtPage>, infos: map<Id, TaskInfo>, internals: set<Id>,
      twice: map<Id, nat>, quota: map<Id, nat>, m: Layout) {
    && twice.Keys == infos.Keys && quota.Keys == infos.Keys
    && forall id {:trigger QuotaOk(objs, infos[id], twice[id], quota[id], m)} :: id in infos && id !in internals ==>
      QuotaOk(objs, infos[id], twice[id], quota[id], m)
  }

  ghost predicate SizesKept(objs: map<Cap, VirtPage>, objs': map<Cap, VirtPage>) {
    forall p :: p in objs ==> p in objs' && objs'[p].level == objs[p].level
  }

  lemma SizesKeptTotal(k: State, objs': map<Cap, VirtPage>, info: TaskInfo, m: Layout)
    requires SpaceOk(k, info, m) && SizesKept(k.pages, objs')
    ensures Total(objs', info.pages) == Total(k.pages, info.pages)
  {
    forall va | va in info.pages ensures SizeOf(k.pages, info.pages[va]) == SizeOf(objs', info.pages[va]) {
      assert PageEntryOk(k, info, m, va);
    }
    TotalFrame(k.pages, objs', info.pages);
  }

  lemma SizesKeptQuotas(k: State, objs': map<Cap, VirtPage>, infos: map<Id, TaskInfo>, internals: set<Id>,
      twice: map<Id, nat>, quota: map<Id, nat>, m: Layout)
    requires AllOk(k, infos, internals, m) && SizesKept(k.pages, objs')
      && QuotasOk(k.pages, infos, internals, twice, quota, m)
    ensures QuotasOk(objs', infos, internals, twice, quota, m)
  {
    forall id | id in infos && id !in internals ensures QuotaOk(objs', infos[id], twice[id], quota[id], m) {
      assert SpaceOk(k, infos[id], m) && QuotaOk(k.pages, infos[id], twice[id], quota[id], m);
      SizesKeptTotal(k, objs', infos[id], m);
    }
  }

  lemma QuotaOfOne(objs: map<Cap, VirtPage>, infos: map<Id, TaskInfo>, internals: set<Id>, twice: map<Id, nat>,
      quota: map<Id, nat>, m: Layout, id: Id, info: TaskInfo, more: nat, raise: nat)
    requires QuotasOk(objs, infos, internals, twice, quota, m) && id in infos
    requires id !in internals && QuotaOk(objs, infos[id], twice[id], quota[id], m) ==>
      QuotaOk(objs, info, twice[id] + more, quota[id] + raise, m)
    ensures QuotasOk(objs, infos[id := info], internals, twice[id := twice[id] + more],
                     quota[id := quota[id] + raise], m)
  {
    var infos', twice', quota' := infos[id := info], twice[id := twice[id] + more], quota[id := quota[id] + raise];
    forall j | j in infos && j !in internals ensures QuotaOk(objs, infos'[j], twice'[j], quota'[j], m) {
      assert QuotaOk(objs, infos[j], twice[j], quota[j], m);
    }
  }

  lemma NothingMore(counts: map<Id, nat>, id: Id)
    requires id in counts
    ensures counts[id := counts[id] + 0] == counts
  {
  }

  lemma RechargeQuotas(objs: map<Cap, VirtPage>, infos: map<Id, TaskInfo>, internals: set<Id>, twice: map<Id, nat>,
      quota: map<Id, nat>, m: Layout, id: Id, size: nat)
    requires QuotasOk(objs, infos, internals, twice, quota, m) && id in infos
    ensures var info := infos[id].(totalCommit := Wrap(infos[id].totalCommit + size));
      QuotasOk(objs, infos[id := info], internals, twice[id := twice[id] + size], quota, m)
  {
    var info := infos[id].(totalCommit := Wrap(infos[id].totalCommit + size));
    NothingMore(quota, id);
    WrapTwice(Total(objs, infos[id].pages) + twice[id], size);
    QuotaOfOne(objs, infos, internals, twice, quota, m, id, info, size, 0);
  }

  /** Only the quota counters of one record change. */
  lemma Recharge(k: State, infos: map<Id, TaskInfo>, internals: set<Id>, m: Layout, id: Id, info: TaskInfo)
    requires AllOk(k, infos, internals, m) && id in infos
    requires info.tables == infos[id].tables && info.pages == infos[id].pages
    ensures AllOk(k, infos[id := info], internals, m)
  {
    var old' := infos[id];
    assert SpaceOk(k, old', m);
    forall l, b | (l, b) in info.tables
      ensures TableEntryOk(k, info, m, l, b)
    {
      assert TableEntryOk(k, old', m, l, b);
    }
    forall va | va in info.pages ensures PageEntryOk(k, info, m, va) { assert PageEntryOk(k, old', m, va); }
    if id !in internals {
      assert Complete(k, old');
      forall l, b, i | (l, b) in info.tables && (info.tables[(l, b)], i) in k.slots
        ensures SlotRecorded(k, info, l, b, i)
      {
        assert SlotRecorded(k, old', l, b, i);
      }
    }
    OneTaskStep(k, k, infos, internals, m, id, info);
  }

  // ---------- a page enters one task ----------

  function Entered(info: TaskInfo, va: nat, page: Cap, granted: nat, charged: nat): TaskInfo {
    info.(pages := info.pages[va := page],
          totalAvailable := Wrap(info.totalAvailable + granted),
          totalCommit := Wrap(info.totalCommit + charged))
  }

  /** The quota of a task has room for a page: it comes with its own, the check of map passed, or
      the recorded bytes leave room. */
  ghost predicate RoomInQuota(objs: map<Cap, VirtPage>, info: TaskInfo, twice: nat, quota: nat, m: Layout, size: nat,
      granted: nat) {
    || granted >= size
    || Wrap(info.totalCommit + size) <= info.totalAvailable
    || (NeverWrapped(twice, quota, m) ==> Total(objs, info.pages) + size <= quota)
  }

  lemma EnterStep(k: State, infos: map<Id, TaskInfo>, internals: set<Id>, twice: map<Id, nat>, quota: map<Id, nat>,
      m: Layout, id: Id, level: nat, va: nat, perms: Perms, page: Cap, granted: nat)
    requires AllOk(k, infos, internals, m) && QuotasOk(k.pages, infos, internals, twice, quota, m)
    requires id in infos && CanMap(k, infos[id], m, level, va, perms, page)
    requires id !in internals ==>
      RoomInQuota(k.pages, infos[id], twice[id], quota[id], m, PageSize(level), granted)
    ensures var k' := Mapped(k, infos[id], level, va, perms, page);
      var infos' := infos[id := Entered(infos[id], va, page, granted, PageSize(level))];
      && AllOk(k', infos', internals, m)
      && QuotasOk(k'.pages, infos', internals, twice, quota[id := quota[id] + granted], m)
  {
    var info := infos[id];
    var k' := Mapped(k, info, level, va, perms, page);
    var info' := Entered(info, va, page, granted, PageSize(level));
    NewPageStep(k, infos, internals, m, id, level, va, perms, page);
    var mid := infos[id := WithPage(info, va, page)];
    Recharge(k', mid, internals, m, id, info');
    var infos' := infos[id := info'];
    assert mid[id := info'] == infos';
    SizesKeptQuotas(k, k'.pages, infos, internals, twice, quota, m);
    TotalInsert(k'.pages, info.pages, va, page);
    if id !in internals {
      assert SpaceOk(k, info, m) && SpaceOk(k', infos'[id], m);
      SizesKeptTotal(k, k'.pages, info, m);
      RecordedFitsSpace(k', info', m);
      assert QuotaOk(k'.pages, info, twice[id], quota[id], m);
      EnteredQuota(k.pages, k'.pages, info, info', m, twice[id], quota[id], PageSize(level), granted);
    }
    NothingMore(twice, id);
    QuotaOfOne(k'.pages, infos, internals, twice, quota, m, id, info', 0, granted);
  }

  lemma EnteredQuota(objs: map<Cap, VirtPage>, objs': map<Cap, VirtPage>, info: TaskInfo, info': TaskInfo, m: Layout,
      twice: nat, quota: nat, size: nat, granted: nat)
    requires info'.totalAvailable == Wrap(info.totalAvailable + granted)
    requires info'.totalCommit == Wrap(info.totalCommit + size)
    requires Total(objs', info'.pages) == size + Total(objs', info.pages) <= m.end
    requires Total(objs', info.pages) == Total(objs, info.pages)
    requires RoomInQuota(objs, info, twice, quota, m, size, granted) && QuotaOk(objs', info, twice, quota, m)
    ensures QuotaOk(objs', info', twice, quota + granted, m)
  {
    hide Total, Wrap;
    var total := Total(objs', info.pages);
    WrapTwice(total + twice, size);
    WrapTwice(quota, granted);
    WrapFits(total + twice + size);
    WrapFits(quota);
  }

  // ---------- a page moves between tasks ----------

  /** The destination gains the page first, then the source loses it, on the same record
      when both are one task. */
  function Moved(infos: map<Id, TaskInfo>, src: Id, dst: Id, srcVa: nat, va: nat, page: Cap, granted: nat,
      size: nat): map<Id, TaskInfo>
    requires src in infos && dst in infos
  {
    var gained := infos[dst := Entered(infos[dst], va, page, granted, size)];
    gained[src := gained[src].(pages := gained[src].pages - {srcVa},
      totalCommit := Wrap(gained[src].totalCommit - size))]
  }

  ghost predicate CanMove(k: State, infos: map<Id, TaskInfo>, m: Layout, src: Id, dst: Id, level: nat, srcVa: nat,
      va: nat, perms: Perms, page: Cap) {
    && src in infos && dst in infos
    && level <= m.max && Aligned(va, level) && 0 < va && va + PageSize(level) <= m.end
    && va !in infos[dst].pages
    && page in k.pages && k.pages[page].level == level
    && (level, PageBase(va, level + 1)) in infos[dst].tables
    && (level, PageBase(srcVa, level + 1)) in infos[src].tables
    && RemapPage(k, infos[dst].tables[(level, PageBase(va, level + 1))], Index(va, level), perms, page,
                 infos[src].tables[(level, PageBase(srcVa, level + 1))]).Some?
  }

  function AfterMove(k: State, infos: map<Id, TaskInfo>, src: Id, dst: Id, level: nat, srcVa: nat, va: nat,
      perms: Perms, page: Cap): State
    requires src in infos && dst in infos
    requires (level, PageBase(va, level + 1)) in infos[dst].tables
    requires (level, PageBase(srcVa, level + 1)) in infos[src].tables
    requires RemapPage(k, infos[dst].tables[(level, PageBase(va, level + 1))], Index(va, level), perms, page,
                       infos[src].tables[(level, PageBase(srcVa, level + 1))]).Some?
  {
    RemapPage(k, infos[dst].tables[(level, PageBase(va, level + 1))], Index(va, level), perms, page,
              infos[src].tables[(level, PageBase(srcVa, level + 1))]).value
  }

  function Dropped(info: TaskInfo, va: nat, size: nat): TaskInfo {
    info.(pages := info.pages - {va}, totalCommit := Wrap(info.totalCommit - size))
  }

  /** Losing a recorded page keeps agreement and accounting. */
  lemma DropStep(k: State, infos: map<Id, TaskInfo>, internals: set<Id>, twice: map<Id, nat>, quota: map<Id, nat>,
      m: Layout, src: Id, srcVa: nat)
    requires AllOk(k, infos, internals, m) && QuotasOk(k.pages, infos, internals, twice, quota, m)
    requires src in infos && srcVa in infos[src].pages
    ensures var page := infos[src].pages[srcVa];
      page in k.pages && k.pages[page].spot.At?
      && var infos' := infos[src := Dropped(infos[src], srcVa, PageSize(k.pages[page].level))];
      && AllOk(Unmapped(k, page), infos', internals, m)
      && QuotasOk(Unmapped(k, page).pages, infos', internals, twice, quota, m)
  {
    var info := infos[src];
    var page := info.pages[srcVa];
    RemovalStep(k, infos, internals, m, src, srcVa);
    var k' := Unmapped(k, page);
    var size := PageSize(k.pages[page].level);
    var mid := infos[src := WithoutPage(info, srcVa)];
    var info' := Dropped(info, srcVa, size);
    Recharge(k', mid, internals, m, src, info');
    assert mid[src := info'] == infos[src := info'];
    SizesKeptQuotas(k, k'.pages, infos, internals, twice, quota, m);
    TotalRemove(k'.pages, info.pages, srcVa);
    WrapTwice(Total(k'.pages, info.pages) + twice[src], -(size as int));
    NothingMore(twice, src);
    NothingMore(quota, src);
    QuotaOfOne(k'.pages, infos, internals, twice, quota, m, src, info', 0, 0);
  }

  /** Moving a recorded page keeps agreement and accounting, also within one task. */
  lemma MoveStep(k: State, infos: map<Id, TaskInfo>, internals: set<Id>, twice: map<Id, nat>, quota: map<Id, nat>,
      m: Layout, src: Id, dst: Id, level: nat, srcVa: nat, va: nat, perms: Perms, page: Cap, granted: nat)
    requires AllOk(k, infos, internals, m) && QuotasOk(k.pages, infos, internals, twice, quota, m)
    requires CanMove(k, infos, m, src, dst, level, srcVa, va, perms, page)
    requires srcVa in infos[src].pages && infos[src].pages[srcVa] == page
    requires dst !in internals ==>
      RoomInQuota(k.pages, infos[dst], twice[dst], quota[dst], m, PageSize(level), granted)
    ensures var k' := AfterMove(k, infos, src, dst, level, srcVa, va, perms, page);
      var infos' := Moved(infos, src, dst, srcVa, va, page, granted, PageSize(level));
      AllOk(k', infos', internals, m)
        && QuotasOk(k'.pages, infos', internals, twice, quota[dst := quota[dst] + granted], m)
  {
    var size := PageSize(level);
    DropStep(k, infos, internals, twice, quota, m, src, srcVa);
    var k1, infos1 := Unmapped(k, page), infos[src := Dropped(infos[src], srcVa, size)];
    RemapIsUnmapThenMap(k, infos[dst].tables[(level, PageBase(va, level + 1))], Index(va, level), perms, page,
                        infos[src].tables[(level, PageBase(srcVa, level + 1))]);
    if src == dst && src !in internals {
      assert SpaceOk(k, infos[src], m) && QuotaOk(k.pages, infos[src], twice[src], quota[src], m);
      SizesKeptTotal(k, k1.pages, infos[src], m);
      TotalRemove(k1.pages, infos[src].pages, srcVa);
    } else if src != dst && dst !in internals {
      assert SpaceOk(k, infos[dst], m);
      SizesKeptTotal(k, k1.pages, infos[dst], m);
    }
    EnterStep(k1, infos1, internals, twice, quota, m, dst, level, va, perms, page, granted);
    MoveOrder(infos, src, dst, srcVa, va, page, granted, size);
  }

  /** A remap conserves what two tasks have committed together, in 64 bits, and outright when the
      source has committed the page and the destination's counter has room for it. */
  lemma MoveConserves(infos: map<Id, TaskInfo>, src: Id, dst: Id, srcVa: nat, va: nat, page: Cap, granted: nat,
      size: nat)
    requires src in infos && dst in infos
    ensures var after := Moved(infos, src, dst, srcVa, va, page, granted, size);
      && after.Keys == infos.Keys
      && (src == dst ==> after[src].totalCommit == infos[src].totalCommit)
      && (src != dst ==>
            Wrap(after[src].totalCommit + after[dst].totalCommit)
              == Wrap(infos[src].totalCommit + infos[dst].totalCommit))
      && (src != dst && size <= infos[src].totalCommit && infos[dst].totalCommit + size < WORD_LIMIT ==>
            after[src].totalCommit + after[dst].totalCommit == infos[src].totalCommit + infos[dst].totalCommit)
      && (forall id :: id in infos && id != src && id != dst ==> after[id] == infos[id])
  {
    hide Wrap;
    var a, b := infos[src].totalCommit, infos[dst].totalCommit;
    WrapTwice(b + size, -(size as int));
    WrapFits(b);
    WrapSum(a - size, b + size);
    WrapFits(a - size);
    WrapFits(b + size);
  }

  lemma WrapSum(a: int, b: int)
    ensures Wrap(Wrap(a) + Wrap(b)) == Wrap(a + b)
  {
    WrapTwice(a, Wrap(b));
    WrapTwice(b, a);
  }

  /** Gaining before losing gives the same records as losing before gaining. */
  lemma MoveOrder(infos: map<Id, TaskInfo>, src: Id, dst: Id, srcVa: nat, va: nat, page: Cap, granted: nat, size: nat)
    requires src in infos && dst in infos && va !in infos[dst].pages && srcVa in infos[src].pages
    ensures var dropped := infos[src := Dropped(infos[src], srcVa, size)];
      Moved(infos, src, dst, srcVa, va, page, granted, size)
      == dropped[dst := Entered(dropped[dst], va, page, granted, size)]
  {
    if src == dst {
      var c := infos[src].totalCommit;
      WrapTwice(c + size, -(size as int));
      WrapTwice(c - size, size);
      assert infos[src].pages[va := page] - {srcVa} == (infos[src].pages - {srcVa})[va := page];
    }
  }

  // ---------- a leaf the source never recorded ----------

  /** Whatever sits at srcVa in the source's table is the only page it can have recorded there. */
  lemma LeafAtAddress(k: State, info: TaskInfo, m: Layout, level: nat, srcVa: nat, page: Cap)
    requires Wf(k) && SpaceOk(k, info, m) && level <= m.max
    requires (level, PageBase(srcVa, level + 1)) in info.tables
    requires page in k.pages && k.pages[page].spot.At?
    requires k.pages[page].spot.table == info.tables[(level, PageBase(srcVa, level + 1))]
    requires VirtAddr(k, page) == srcVa
    ensures k.pages[page].level == level && k.pages[page].spot.index == Index(srcVa, level)
    ensures srcVa in info.pages ==> info.pages[srcVa] == page
  {
    var base := PageBase(srcVa, level + 1);
    assert TableEntryOk(k, info, m, level, base) && PageOk(k, page);
    assert SlotOk(k, k.pages[page].spot.table, k.pages[page].spot.index);
    BaseIsAligned(srcVa, level + 1);
    JoinAddress(base, level, k.pages[page].spot.index);
    if srcVa in info.pages {
      assert PageEntryOk(k, info, m, srcVa);
      PageSizeIsPositive(k.pages[info.pages[srcVa]].level);
      RecordedTranslates(k, info, m, srcVa, srcVa);
      WalkReaches(k, info, m, level, srcVa);
    }
  }

  /** A complete record contains every leaf its tables hold. */
  lemma HeldLeafIsRecorded(k: State, info: TaskInfo, m: Layout, level: nat, srcVa: nat, page: Cap)
    requires Wf(k) && SpaceOk(k, info, m) && Complete(k, info) && level <= m.max
    requires (level, PageBase(srcVa, level + 1)) in info.tables
    requires page in k.pages && k.pages[page].spot.At?
    requires k.pages[page].spot.table == info.tables[(level, PageBase(srcVa, level + 1))]
    requires VirtAddr(k, page) == srcVa
    ensures srcVa in info.pages && info.pages[srcVa] == page
  {
    var base := PageBase(srcVa, level + 1);
    LeafAtAddress(k, info, m, level, srcVa, page);
    assert TableEntryOk(k, info, m, level, base) && PageOk(k, page);
    assert SlotRecorded(k, info, level, base, k.pages[page].spot.index);
  }

  /** Taking out a leaf that an internal task holds but never recorded. */
  lemma StrayStep(k: State, infos: map<Id, TaskInfo>, internals: set<Id>, m: Layout, src: Id, srcVa: nat, page: Cap)
    requires AllOk(k, infos, internals, m) && src in infos && src in internals && srcVa !in infos[src].pages
    requires page in k.pages && k.pages[page].spot.At? && VirtAddr(k, page) == srcVa
    requires k.pages[page].spot.table in infos[src].tables.Values
    ensures AllOk(Unmapped(k, page), infos, internals, m)
  {
    var info := infos[src];
    var k' := Unmapped(k, page);
    UnmapKeepsWf(k, page);
    assert SpaceOk(k, info, m) && PageOk(k, page);
    forall l, b | (l, b) in info.tables ensures TableEntryOk(k', info, m, l, b) {
      assert TableEntryOk(k, info, m, l, b);
    }
    forall va | va in info.pages ensures PageEntryOk(k', info, m, va) {
      assert PageEntryOk(k, info, m, va);
      RecordedAddress(k, info, m, va);
    }
    forall j | j in infos && j != src ensures SameFor(k, k', infos[j]) {
      TasksShareNothing(k, infos, internals, m, src, j);
      assert SpaceOk(k, infos[j], m);
      LeafNotShared(k, infos[j], m, page);
    }
    OneTaskStep(k, k', infos, internals, m, src, info);
    assert infos[src := info] == infos;
  }

  lemma LeafNotShared(k: State, info: TaskInfo, m: Layout, page: Cap)
    requires SpaceOk(k, info, m) && page in k.pages && k.pages[page].spot.At?
    requires k.pages[page].spot.table !in info.tables.Values
    ensures page !in info.pages.Values
  {
    if page in info.pages.Values {
      PageOwner(k, info, m, page);
    }
  }

  /** Moving such a leaf: the source's counter drops although it recorded nothing. */
  lemma StrayMoveStep(k: State, infos: map<Id, TaskInfo>, internals: set<Id>, twice: map<Id, nat>,
      quota: map<Id, nat>, m: Layout, src: Id, dst: Id, level: nat, srcVa: nat, va: nat, perms: Perms, page: Cap,
      granted: nat)
    requires AllOk(k, infos, internals, m) && QuotasOk(k.pages, infos, internals, twice, quota, m)
    requires CanMove(k, infos, m, src, dst, level, srcVa, va, perms, page)
    requires src in internals && srcVa !in infos[src].pages && VirtAddr(k, page) == srcVa
      && (src == dst ==> srcVa != va)
    requires granted >= PageSize(level)
    ensures var k' := AfterMove(k, infos, src, dst, level, srcVa, va, perms, page);
      var infos' := Moved(infos, src, dst, srcVa, va, page, granted, PageSize(level));
      AllOk(k', infos', internals, m)
        && QuotasOk(k'.pages, infos', internals, twice, quota[dst := quota[dst] + granted], m)
  {
    var size := PageSize(level);
    var table := infos[src].tables[(level, PageBase(srcVa, level + 1))];
    assert table in infos[src].tables.Values;
    StrayStep(k, infos, internals, m, src, srcVa, page);
    var k1 := Unmapped(k, page);
    SizesKeptQuotas(k, k1.pages, infos, internals, twice, quota, m);
    RemapIsUnmapThenMap(k, infos[dst].tables[(level, PageBase(va, level + 1))], Index(va, level), perms, page, table);
    EnterStep(k1, infos, internals, twice, quota, m, dst, level, va, perms, page, granted);
    var infos1 := infos[dst := Entered(infos[dst], va, page, granted, size)];
    var k' := AfterMove(k, infos, src, dst, level, srcVa, va, perms, page);
    var info2 := infos1[src].(totalCommit := Wrap(infos1[src].totalCommit - size));
    assert infos1[src].pages - {srcVa} == infos1[src].pages;
    Recharge(k', infos1, internals, m, src, info2);
    assert Moved(infos, src, dst, srcVa, va, page, granted, size) == infos1[src := info2];
  }

  // ---------- the books, without the table index ----------

  function Book(info: TaskInfo): TaskInfo {
    info.(tables := map[])
  }

  function Books(infos: map<Id, TaskInfo>): map<Id, TaskInfo> {
    map id | id in infos :: Book(infos[id])
  }

  /** The table index only grows. */
  ghost predicate IndexGrew(a: map<Id, TaskInfo>, b: map<Id, TaskInfo>) {
    forall id :: id in a ==> id in b && forall key :: key in a[id].tables ==>
      key in b[id].tables && b[id].tables[key] == a[id].tables[key]
  }

  lemma BooksOfUpdate(infos: map<Id, TaskInfo>, id: Id, info: TaskInfo)
    ensures Books(infos[id := info]) == Books(infos)[id := Book(info)]
  {
  }

  lemma BooksOfMove(infos: map<Id, TaskInfo>, src: Id, dst: Id, srcVa: nat, va: nat, page: Cap, granted: nat, size: nat)
    requires src in infos && dst in infos
    ensures Books(Moved(infos, src, dst, srcVa, va, page, granted, size))
         == Moved(Books(infos), src, dst, srcVa, va, page, granted, size)
  {
  }
}
