/** Why the kernel refuses a table or a page: what stands in the way is in the record. */
module SpaceFailures {
  import opened Paging
  import opened Kernel
  import opened AddressSpace
  import opened AddressSearch

  /** A recorded page holds the address, or a table of smaller pages hangs in its place. */
  ghost predicate InTheWay(k: State, info: TaskInfo, level: nat, va: nat) {
    !Uncovered(k, info, va) || (level > 0 && (level - 1, va) in info.tables)
  }

  /** A slot in use is recorded, at the address it translates. */
  lemma SlotInUse(k: State, info: TaskInfo, m: Layout, level: nat, va: nat)
    requires Wf(k) && SpaceOk(k, info, m) && Complete(k, info) && level <= m.max
    requires (level, PageBase(va, level + 1)) in info.tables
    requires (info.tables[(level, PageBase(va, level + 1))], Index(va, level)) in k.slots
    ensures match k.slots[(info.tables[(level, PageBase(va, level + 1))], Index(va, level))]
      case Subtable(child) => level > 0 && (level - 1, PageBase(va, level)) in info.tables
      case Leaf(page) => PageBase(va, level) in info.pages && !Uncovered(k, info, va)
  {
    var base := PageBase(va, level + 1);
    var t := info.tables[(level, base)];
    assert TableEntryOk(k, info, m, level, base) && SlotOk(k, t, Index(va, level));
    assert SlotRecorded(k, info, level, base, Index(va, level));
    SplitAddress(va, level);
    BaseOfPage(va, level);
  }

  /** A table is refused only where a larger recorded page covers the address. */
  lemma HangFails(k: State, info: TaskInfo, m: Layout, level: nat, va: nat, child: Cap)
    requires Wf(k) && SpaceOk(k, info, m) && Complete(k, info) && level < m.max
    requires (level + 1, PageBase(va, level + 2)) in info.tables && (level, PageBase(va, level + 1)) !in info.tables
    requires child in k.tables && k.tables[child].Unplaced?
    requires MapTable(k, info.tables[(level + 1, PageBase(va, level + 2))], Index(va, level + 1), child).None?
    ensures !Uncovered(k, info, va)
  {
    assert TableEntryOk(k, info, m, level + 1, PageBase(va, level + 2));
    SlotInUse(k, info, m, level + 1, va);
  }

  /** A page is refused only where a table of smaller pages hangs, unless one is recorded there. */
  lemma PlaceFails(k: State, info: TaskInfo, m: Layout, level: nat, va: nat, perms: Perms, page: Cap)
    requires Wf(k) && SpaceOk(k, info, m) && Complete(k, info) && level <= m.max && Aligned(va, level)
    requires (level, PageBase(va, level + 1)) in info.tables && va !in info.pages
    requires page in k.pages && k.pages[page].spot.Nowhere? && k.pages[page].level == level
    requires MapPage(k, info.tables[(level, PageBase(va, level + 1))], Index(va, level), perms, page).None?
    ensures level > 0 && (level - 1, va) in info.tables
  {
    assert TableEntryOk(k, info, m, level, PageBase(va, level + 1));
    SlotInUse(k, info, m, level, va);
  }

  lemma MoveFails(k: State, info: TaskInfo, m: Layout, level: nat, va: nat, perms: Perms, page: Cap, src: Cap)
    requires Wf(k) && SpaceOk(k, info, m) && Complete(k, info) && level <= m.max && Aligned(va, level)
    requires (level, PageBase(va, level + 1)) in info.tables && va !in info.pages
    requires page in k.pages && k.pages[page].spot.At? && k.pages[page].spot.table == src
      && k.pages[page].level == level
    requires RemapPage(k, info.tables[(level, PageBase(va, level + 1))], Index(va, level), perms, page, src).None?
    ensures level > 0 && (level - 1, va) in info.tables
  {
    assert TableEntryOk(k, info, m, level, PageBase(va, level + 1));
    SlotInUse(k, info, m, level, va);
  }

  /** Above a registered table every table on the way to the root is registered. */
  lemma {:induction false} RegisteredAbove(k: State, info: TaskInfo, m: Layout, level: nat, va: nat, lv: nat)
    requires SpaceOk(k, info, m) && level <= lv <= m.max && (level, PageBase(va, level + 1)) in info.tables
    ensures (lv, PageBase(va, lv + 1)) in info.tables
    decreases lv - level
  {
    if level < lv {
      RegisteredAbove(k, info, m, level, va, lv - 1);
      assert TableEntryOk(k, info, m, lv - 1, PageBase(va, lv));
      UpperPartKept(va, lv, lv + 1);
    }
  }
}
