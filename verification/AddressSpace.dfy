/** What the memory manager records about one task, and how the record of every task
    agrees with the page-table trees the kernel holds. */
module AddressSpace {
  import opened Options
  import opened Paging
  import opened Kernel
  import opened Words

  type Id = nat

  /** page_table_caps[level][base] is `tables[(level, base)]`; virt_page_caps is `pages`. */
  datatype TaskInfo = TaskInfo(
    stackAvailable: Word,
    totalAvailable: Word,
    stackCommit: Word,
    totalCommit: Word,
    tables: map<(nat, nat), Cap>,
    pages: map<nat, Cap>)

  /** max_page and user_space_end. */
  datatype Layout = Layout(max: nat, end: nat)

  ghost predicate LayoutOk(m: Layout) {
    PageSize(m.max) <= m.end <= PageSize(m.max + 1) && m.end < WORD_LIMIT
  }

  /** A registered table sits where its key says, and its parent is registered too and
      points at it: the index is a closed tree. */
  ghost predicate TableEntryOk(k: State, info: TaskInfo, m: Layout, level: nat, base: nat)
    requires (level, base) in info.tables
  {
    var t := info.tables[(level, base)];
    && level <= m.max
    && (m.max, 0) in info.tables
    && t in k.tables
    && k.tables[t] == Placed(info.tables[(m.max, 0)], level, base)
    && (level == m.max ==> base == 0)
    && (level < m.max ==>
          var up := (level + 1, PageBase(base, level + 2));
          && up in info.tables
          && (info.tables[up], Index(base, level + 1)) in k.slots
          && k.slots[(info.tables[up], Index(base, level + 1))] == Subtable(t))
  }

  /** A recorded page is the leaf the kernel holds for its address. */
  ghost predicate PageEntryOk(k: State, info: TaskInfo, m: Layout, va: nat)
    requires va in info.pages
  {
    var p := info.pages[va];
    && p in k.pages
    && var level := k.pages[p].level;
    && level <= m.max
    && Aligned(va, level)
    && 0 < va && va + PageSize(level) <= m.end
    && var t := (level, PageBase(va, level + 1));
    && t in info.tables
    && k.pages[p].spot == At(info.tables[t], Index(va, level))
  }

  /** Whatever sits in a slot of a registered table is itself recorded. */
  ghost predicate SlotRecorded(k: State, info: TaskInfo, level: nat, base: nat, index: nat)
    requires (level, base) in info.tables && (info.tables[(level, base)], index) in k.slots
  {
    var va := SlotAddress(base, level, index);
    match k.slots[(info.tables[(level, base)], index)]
    case Subtable(child) => level > 0 && (level - 1, va) in info.tables && info.tables[(level - 1, va)] == child
    case Leaf(page) => va in info.pages && info.pages[va] == page
  }

  /** The record is right: holds for every attached task. */
  ghost predicate SpaceOk(k: State, info: TaskInfo, m: Layout) {
    && (m.max, 0) in info.tables
    && (forall l, b {:trigger TableEntryOk(k, info, m, l, b)} :: (l, b) in info.tables ==>
      TableEntryOk(k, info, m, l, b))
    && (forall va {:trigger PageEntryOk(k, info, m, va)} :: va in info.pages ==> PageEntryOk(k, info, m, va))
  }

  /** The record is complete: holds for every task that was not attached as internal. */
  ghost predicate Complete(k: State, info: TaskInfo) {
    forall l, b, i {:trigger SlotRecorded(k, info, l, b, i)} ::
      (l, b) in info.tables && (info.tables[(l, b)], i) in k.slots ==> SlotRecorded(k, info, l, b, i)
  }

  function Root(info: TaskInfo, m: Layout): Cap
    requires (m.max, 0) in info.tables
  {
    info.tables[(m.max, 0)]
  }

  ghost predicate RootsDiffer(infos: map<Id, TaskInfo>, m: Layout, a: Id, b: Id)
    requires a in infos && b in infos
  {
    (m.max, 0) in infos[a].tables && (m.max, 0) in infos[b].tables && Root(infos[a], m) != Root(infos[b], m)
  }

  /** Every task's record agrees with the kernel. */
  ghost predicate AllOk(k: State, infos: map<Id, TaskInfo>, internals: set<Id>, m: Layout) {
    && Wf(k)
    && (forall id {:trigger SpaceOk(k, infos[id], m)} :: id in infos ==> SpaceOk(k, infos[id], m))
    && (forall id {:trigger Complete(k, infos[id])} :: id in infos && id !in internals ==> Complete(k, infos[id]))
    && (forall a, b {:trigger RootsDiffer(infos, m, a, b)} :: a in infos && b in infos && a != b ==>
      RootsDiffer(infos, m, a, b))
  }

  // ---------- the record agrees with translation ----------

  /** The walk from the root passes through every registered table around va. */
  lemma {:induction false} WalkReaches(k: State, info: TaskInfo, m: Layout, level: nat, va: nat)
    requires Wf(k) && SpaceOk(k, info, m) && level <= m.max
    requires (level, PageBase(va, level + 1)) in info.tables
    ensures Translate(k, Root(info, m), m.max, va)
         == Translate(k, info.tables[(level, PageBase(va, level + 1))], level, va)
    decreases m.max - level
  {
    var base := PageBase(va, level + 1);
    assert TableEntryOk(k, info, m, level, base);
    if level < m.max {
      UpperPartKept(va, level + 1, level + 2);
      UpperPartKept(va, level + 1, level + 1);
      WalkReaches(k, info, m, level + 1, va);
    }
  }

  /** A recorded page translates each of its addresses, in every task. */
  lemma RecordedTranslates(k: State, info: TaskInfo, m: Layout, base: nat, va: nat)
    requires Wf(k) && SpaceOk(k, info, m) && base in info.pages
    requires info.pages[base] in k.pages
    requires base <= va < base + PageSize(k.pages[info.pages[base]].level)
    ensures Translate(k, Root(info, m), m.max, va)
         == Some(Hit(info.pages[base], k.pages[info.pages[base]].level))
  {
    assert PageEntryOk(k, info, m, base);
    var p := info.pages[base];
    var level := k.pages[p].level;
    InsidePage(base, level, va);
    BaseOfPage(base, level);
    UpperPartKept(va, level, level + 1);
    UpperPartKept(va, level, level);
    WalkReaches(k, info, m, level, va);
    assert PageOk(k, p);
  }

  /** In a complete record, whatever the walk finds below a registered table is recorded. */
  lemma {:induction false} FoundIsRecorded(k: State, info: TaskInfo, m: Layout, level: nat, va: nat)
    requires Wf(k) && SpaceOk(k, info, m) && Complete(k, info) && level <= m.max
    requires (level, PageBase(va, level + 1)) in info.tables
    requires Translate(k, info.tables[(level, PageBase(va, level + 1))], level, va).Some?
    ensures var hit := Translate(k, info.tables[(level, PageBase(va, level + 1))], level, va).value;
      && PageBase(va, hit.level) in info.pages && info.pages[PageBase(va, hit.level)] == hit.page
      && hit.page in k.pages && k.pages[hit.page].level == hit.level
    decreases level
  {
    var base := PageBase(va, level + 1);
    var t := info.tables[(level, base)];
    var index := Index(va, level);
    assert TableEntryOk(k, info, m, level, base) && SlotRecorded(k, info, level, base, index) && SlotOk(k, t, index);
    SplitAddress(va, level);
    if k.slots[(t, index)].Subtable? {
      FoundIsRecorded(k, info, m, level - 1, va);
    }
  }

  /** Both directions: translating from the root finds a page exactly when that page is
      recorded at its base, for any mix of page sizes. */
  lemma RecordIsTranslation(k: State, info: TaskInfo, m: Layout, va: nat, page: Cap, level: nat)
    requires LayoutOk(m) && Wf(k) && SpaceOk(k, info, m) && Complete(k, info) && va < m.end
    ensures Translate(k, Root(info, m), m.max, va) == Some(Hit(page, level))
      <==> PageBase(va, level) in info.pages && info.pages[PageBase(va, level)] == page
           && page in k.pages && k.pages[page].level == level
  {
    ZeroIsAligned(m.max + 1);
    InsidePage(0, m.max + 1, va);
    BaseOfPage(va, level);
    if Translate(k, Root(info, m), m.max, va) == Some(Hit(page, level)) {
      FoundIsRecorded(k, info, m, m.max, va);
    }
    if PageBase(va, level) in info.pages && info.pages[PageBase(va, level)] == page
       && page in k.pages && k.pages[page].level == level {
      RecordedTranslates(k, info, m, PageBase(va, level), va);
    }
  }

  /** A recorded page starts at the address its table slot stands for. */
  lemma RecordedAddress(k: State, info: TaskInfo, m: Layout, va: nat)
    requires Wf(k) && SpaceOk(k, info, m) && va in info.pages
    ensures info.pages[va] in k.pages && k.pages[info.pages[va]].spot.At?
    ensures VirtAddr(k, info.pages[va]) == va
  {
    assert PageEntryOk(k, info, m, va);
    var level := k.pages[info.pages[va]].level;
    assert TableEntryOk(k, info, m, level, PageBase(va, level + 1));
    SplitAddress(va, level);
  }

  /** Recorded pages of any sizes never overlap, and no page object is recorded twice. */
  lemma RecordedPagesAreDisjoint(k: State, info: TaskInfo, m: Layout, a: nat, b: nat)
    requires Wf(k) && SpaceOk(k, info, m)
    requires a in info.pages && b in info.pages && a < b
    ensures info.pages[a] in k.pages && a + PageSize(k.pages[info.pages[a]].level) <= b
    ensures info.pages[a] != info.pages[b]
  {
    RecordedAddress(k, info, m, a);
    RecordedAddress(k, info, m, b);
    if b < a + PageSize(k.pages[info.pages[a]].level) {
      PageSizeIsPositive(k.pages[info.pages[b]].level);
      RecordedTranslates(k, info, m, a, b);
      RecordedTranslates(k, info, m, b, b);
    }
  }

  lemma TableOwner(k: State, info: TaskInfo, m: Layout, t: Cap)
    requires SpaceOk(k, info, m) && t in info.tables.Values
    ensures t in k.tables && k.tables[t].Placed? && k.tables[t].root == Root(info, m)
  {
    var key :| key in info.tables && info.tables[key] == t;
    assert TableEntryOk(k, info, m, key.0, key.1);
  }

  lemma PageOwner(k: State, info: TaskInfo, m: Layout, p: Cap)
    requires SpaceOk(k, info, m) && p in info.pages.Values
    ensures p in k.pages && k.pages[p].spot.At? && k.pages[p].spot.table in info.tables.Values
  {
    var va :| va in info.pages && info.pages[va] == p;
    assert PageEntryOk(k, info, m, va);
  }

  /** No page is recorded by two tasks, nor is a table. */
  lemma TasksShareNothing(k: State, infos: map<Id, TaskInfo>, internals: set<Id>, m: Layout, a: Id, b: Id)
    requires AllOk(k, infos, internals, m) && a in infos && b in infos && a != b
    ensures infos[a].tables.Values !! infos[b].tables.Values
    ensures infos[a].pages.Values !! infos[b].pages.Values
  {
    assert RootsDiffer(infos, m, a, b);
    forall t | t in infos[a].tables.Values ensures t !in infos[b].tables.Values {
      if t in infos[b].tables.Values {
        TableOwner(k, infos[a], m, t);
        TableOwner(k, infos[b], m, t);
      }
    }
    forall p | p in infos[a].pages.Values ensures p !in infos[b].pages.Values {
      if p in infos[b].pages.Values {
        PageOwner(k, infos[a], m, p);
        PageOwner(k, infos[b], m, p);
      }
    }
  }
}
