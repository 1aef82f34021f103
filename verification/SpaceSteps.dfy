/** Every step the memory manager takes keeps all task records in agreement with the
    kernel: one lemma for each pair of a kernel call and the bookkeeping that follows it. */
module SpaceSteps {
  import opened Paging
  import opened Kernel
  import opened AddressSpace

  /** k' shows a task the same tables, slots and pages as k. */
  ghost predicate SameFor(k: State, k': State, info: TaskInfo) {
    && (forall t :: t in info.tables.Values ==> t in k.tables ==> t in k'.tables && k'.tables[t] == k.tables[t])
    && (forall t, i :: t in info.tables.Values ==> SameSlot(k, k', t, i))
    && (forall p :: p in info.pages.Values ==> p in k.pages ==>
          p in k'.pages && k'.pages[p].level == k.pages[p].level && k'.pages[p].spot == k.pages[p].spot)
  }

  predicate SameSlot(k: State, k': State, t: Cap, i: nat) {
    && ((t, i) in k.slots <==> (t, i) in k'.slots)
    && ((t, i) in k.slots ==> k'.slots[(t, i)] == k.slots[(t, i)])
  }

  lemma SameKeepsSpace(k: State, k': State, info: TaskInfo, m: Layout)
    requires SpaceOk(k, info, m) && SameFor(k, k', info)
    ensures SpaceOk(k', info, m)
  {
    forall l, b | (l, b) in info.tables ensures TableEntryOk(k', info, m, l, b) {
      assert TableEntryOk(k, info, m, l, b);
      var t := info.tables[(l, b)];
      assert t in info.tables.Values;
      if l < m.max {
        var up := info.tables[(l + 1, PageBase(b, l + 2))];
        assert up in info.tables.Values;
        assert SameSlot(k, k', up, Index(b, l + 1));
      }
    }
    forall va | va in info.pages ensures PageEntryOk(k', info, m, va) {
      assert PageEntryOk(k, info, m, va);
      assert info.pages[va] in info.pages.Values;
    }
  }

  lemma SameKeepsComplete(k: State, k': State, info: TaskInfo)
    requires Complete(k, info) && SameFor(k, k', info)
    ensures Complete(k', info)
  {
    forall l, b, i | (l, b) in info.tables && (info.tables[(l, b)], i) in k'.slots
      ensures SlotRecorded(k', info, l, b, i)
    {
      assert info.tables[(l, b)] in info.tables.Values;
      assert SameSlot(k, k', info.tables[(l, b)], i);
      assert SlotRecorded(k, info, l, b, i);
    }
  }

  /** Changing one task's record and, in the kernel, only what that task can see. */
  lemma OneTaskStep(k: State, k': State, infos: map<Id, TaskInfo>, internals: set<Id>, m: Layout, id: Id,
      info': TaskInfo)
    requires AllOk(k, infos, internals, m) && Wf(k') && id in infos && SpaceOk(k, infos[id], m)
    requires SpaceOk(k', info', m) && (id !in internals ==> Complete(k', info'))
    requires Root(info', m) == Root(infos[id], m)
    requires forall j :: j in infos && j != id ==> SameFor(k, k', infos[j])
    ensures AllOk(k', infos[id := info'], internals, m)
  {
    var infos' := infos[id := info'];
    forall j | j in infos' ensures SpaceOk(k', infos'[j], m) {
      if j != id { SameKeepsSpace(k, k', infos[j], m); }
    }
    forall j | j in infos' && j !in internals ensures Complete(k', infos'[j]) {
      if j != id { SameKeepsComplete(k, k', infos[j]); }
    }
    forall a, b | a in infos' && b in infos' && a != b ensures RootsDiffer(infos', m, a, b) {
      assert RootsDiffer(infos, m, a, b);
    }
  }

  // ---------- a new table in the tree ----------

  function WithTable(info: TaskInfo, level: nat, base: nat, child: Cap): TaskInfo {
    info.(tables := info.tables[(level, base) := child])
  }

  function WithPage(info: TaskInfo, va: nat, page: Cap): TaskInfo {
    info.(pages := info.pages[va := page])
  }

  function WithoutPage(info: TaskInfo, va: nat): TaskInfo {
    info.(pages := info.pages - {va})
  }

  ghost predicate CanHang(k: State, info: TaskInfo, m: Layout, level: nat, base: nat, child: Cap) {
    && level < m.max && Aligned(base, level + 1) && (level, base) !in info.tables
    && (level + 1, PageBase(base, level + 2)) in info.tables
    && MapTable(k, info.tables[(level + 1, PageBase(base, level + 2))], Index(base, level + 1), child).Some?
  }

  function Hung(k: State, info: TaskInfo, level: nat, base: nat, child: Cap): State
    requires (level + 1, PageBase(base, level + 2)) in info.tables
    requires MapTable(k, info.tables[(level + 1, PageBase(base, level + 2))], Index(base, level + 1), child).Some?
  {
    MapTable(k, info.tables[(level + 1, PageBase(base, level + 2))], Index(base, level + 1), child).value
  }

  /** An unplaced table is in nobody's index. */
  lemma UnplacedIsUnregistered(k: State, info: TaskInfo, m: Layout, child: Cap)
    requires SpaceOk(k, info, m) && child in k.tables && k.tables[child].Unplaced?
    ensures child !in info.tables.Values
  {
    if child in info.tables.Values {
      TableOwner(k, info, m, child);
    }
  }

  lemma NewTableKeepsSpace(k: State, info: TaskInfo, m: Layout, level: nat, base: nat, child: Cap)
    requires Wf(k) && SpaceOk(k, info, m) && CanHang(k, info, m, level, base, child)
    ensures SpaceOk(Hung(k, info, level, base, child), WithTable(info, level, base, child), m)
  {
    var k', info' := Hung(k, info, level, base, child), WithTable(info, level, base, child);
    UnplacedIsUnregistered(k, info, m, child);
    var up := (level + 1, PageBase(base, level + 2));
    forall l, b | (l, b) in info'.tables ensures TableEntryOk(k', info', m, l, b) {
      if (l, b) == (level, base) {
        assert TableEntryOk(k, info, m, level + 1, PageBase(base, level + 2));
        SplitAddress(base, level + 1);
      } else {
        assert TableEntryOk(k, info, m, l, b);
        assert info.tables[(l, b)] in info.tables.Values;
      }
    }
    forall va | va in info'.pages ensures PageEntryOk(k', info', m, va) {
      assert PageEntryOk(k, info, m, va);
    }
  }

  lemma NewTableSlot(k: State, info: TaskInfo, m: Layout, level: nat, base: nat, child: Cap, l: nat, b: nat, i: nat)
    requires Wf(k) && SpaceOk(k, info, m) && CanHang(k, info, m, level, base, child)
    requires (l, b) in WithTable(info, level, base, child).tables
    requires (l, b) in info.tables && (info.tables[(l, b)], i) in k.slots ==> SlotRecorded(k, info, l, b, i)
    requires (WithTable(info, level, base, child).tables[(l, b)], i) in Hung(k, info, level, base, child).slots
    ensures SlotRecorded(Hung(k, info, level, base, child), WithTable(info, level, base, child), l, b, i)
  {
    UnplacedIsUnregistered(k, info, m, child);
    var up := (level + 1, PageBase(base, level + 2));
    assert info.tables[up] in info.tables.Values;
    assert TableEntryOk(k, info, m, up.0, up.1);
    if (l, b) == (level, base) {
      UnplacedIsEmpty(k, child, i);
    } else {
      assert TableEntryOk(k, info, m, l, b);
      if info.tables[(l, b)] == info.tables[up] && i == Index(base, level + 1) {
        SplitAddress(base, level + 1);
      }
    }
  }

  lemma NewTableKeepsComplete(k: State, info: TaskInfo, m: Layout, level: nat, base: nat, child: Cap)
    requires Wf(k) && SpaceOk(k, info, m) && CanHang(k, info, m, level, base, child) && Complete(k, info)
    ensures Complete(Hung(k, info, level, base, child), WithTable(info, level, base, child))
  {
    var k', info' := Hung(k, info, level, base, child), WithTable(info, level, base, child);
    forall l, b, i | (l, b) in info'.tables && (info'.tables[(l, b)], i) in k'.slots
      ensures SlotRecorded(k', info', l, b, i)
    {
      NewTableSlot(k, info, m, level, base, child, l, b, i);
    }
  }

  /** walk's step: the new table is registered and every record still agrees. */
  lemma NewTableStep(k: State, infos: map<Id, TaskInfo>, internals: set<Id>, m: Layout, id: Id, level: nat, base: nat,
      child: Cap)
    requires AllOk(k, infos, internals, m) && id in infos && CanHang(k, infos[id], m, level, base, child)
    ensures AllOk(Hung(k, infos[id], level, base, child), infos[id := WithTable(infos[id], level, base, child)],
      internals, m)
  {
    var info := infos[id];
    var k' := Hung(k, info, level, base, child);
    var parent := info.tables[(level + 1, PageBase(base, level + 2))];
    MapTableKeepsWf(k, parent, Index(base, level + 1), child);
    NewTableKeepsSpace(k, info, m, level, base, child);
    if id !in internals { NewTableKeepsComplete(k, info, m, level, base, child); }
    assert parent in info.tables.Values;
    forall j | j in infos && j != id ensures SameFor(k, k', infos[j]) {
      TasksShareNothing(k, infos, internals, m, id, j);
      UnplacedIsUnregistered(k, infos[j], m, child);
    }
    OneTaskStep(k, k', infos, internals, m, id, WithTable(info, level, base, child));
  }

  // ---------- a page enters a task ----------

  ghost predicate CanMap(k: State, info: TaskInfo, m: Layout, level: nat, va: nat, perms: Perms, page: Cap) {
    && level <= m.max && Aligned(va, level) && 0 < va && va + PageSize(level) <= m.end
    && va !in info.pages
    && (level, PageBase(va, level + 1)) in info.tables
    && page in k.pages && k.pages[page].level == level
    && MapPage(k, info.tables[(level, PageBase(va, level + 1))], Index(va, level), perms, page).Some?
  }

  function Mapped(k: State, info: TaskInfo, level: nat, va: nat, perms: Perms, page: Cap): State
    requires (level, PageBase(va, level + 1)) in info.tables
    requires MapPage(k, info.tables[(level, PageBase(va, level + 1))], Index(va, level), perms, page).Some?
  {
    MapPage(k, info.tables[(level, PageBase(va, level + 1))], Index(va, level), perms, page).value
  }

  /** An unmapped page is in nobody's record. */
  lemma NowhereIsUnrecorded(k: State, info: TaskInfo, m: Layout, page: Cap)
    requires SpaceOk(k, info, m) && page in k.pages && k.pages[page].spot.Nowhere?
    ensures page !in info.pages.Values
  {
    if page in info.pages.Values {
      PageOwner(k, info, m, page);
    }
  }

  lemma NewPageKeepsSpace(k: State, info: TaskInfo, m: Layout, level: nat, va: nat, perms: Perms, page: Cap)
    requires Wf(k) && SpaceOk(k, info, m) && CanMap(k, info, m, level, va, perms, page)
    ensures SpaceOk(Mapped(k, info, level, va, perms, page), WithPage(info, va, page), m)
  {
    var k', info' := Mapped(k, info, level, va, perms, page), WithPage(info, va, page);
    NowhereIsUnrecorded(k, info, m, page);
    forall l, b | (l, b) in info'.tables ensures TableEntryOk(k', info', m, l, b) {
      assert TableEntryOk(k, info, m, l, b);
    }
    forall v | v in info'.pages ensures PageEntryOk(k', info', m, v) {
      if v != va {
        assert PageEntryOk(k, info, m, v);
        assert info.pages[v] in info.pages.Values;
      }
    }
  }

  lemma NewPageSlot(k: State, info: TaskInfo, m: Layout, level: nat, va: nat, perms: Perms, page: Cap, l: nat, b: nat,
      i: nat)
    requires Wf(k) && SpaceOk(k, info, m) && CanMap(k, info, m, level, va, perms, page)
    requires (l, b) in info.tables
    requires (info.tables[(l, b)], i) in k.slots ==> SlotRecorded(k, info, l, b, i)
    requires (info.tables[(l, b)], i) in Mapped(k, info, level, va, perms, page).slots
    ensures SlotRecorded(Mapped(k, info, level, va, perms, page), WithPage(info, va, page), l, b, i)
  {
    assert TableEntryOk(k, info, m, level, PageBase(va, level + 1));
    assert TableEntryOk(k, info, m, l, b);
    if (info.tables[(l, b)], i) !in k.slots {
      SplitAddress(va, level);
    }
  }

  lemma NewPageKeepsComplete(k: State, info: TaskInfo, m: Layout, level: nat, va: nat, perms: Perms, page: Cap)
    requires Wf(k) && SpaceOk(k, info, m) && CanMap(k, info, m, level, va, perms, page) && Complete(k, info)
    ensures Complete(Mapped(k, info, level, va, perms, page), WithPage(info, va, page))
  {
    var k', info' := Mapped(k, info, level, va, perms, page), WithPage(info, va, page);
    forall l, b, i | (l, b) in info'.tables && (info'.tables[(l, b)], i) in k'.slots
      ensures SlotRecorded(k', info', l, b, i)
    {
      NewPageSlot(k, info, m, level, va, perms, page, l, b, i);
    }
  }

  lemma NewPageUnseen(k: State, info: TaskInfo, other: TaskInfo, m: Layout, level: nat, va: nat, perms: Perms,
      page: Cap)
    requires Wf(k) && SpaceOk(k, other, m) && CanMap(k, info, m, level, va, perms, page)
    requires info.tables.Values !! other.tables.Values
    ensures SameFor(k, Mapped(k, info, level, va, perms, page), other)
  {
    assert info.tables[(level, PageBase(va, level + 1))] in info.tables.Values;
    NowhereIsUnrecorded(k, other, m, page);
  }

  lemma NewPageStep(k: State, infos: map<Id, TaskInfo>, internals: set<Id>, m: Layout, id: Id, level: nat, va: nat,
      perms: Perms, page: Cap)
    requires AllOk(k, infos, internals, m) && id in infos && CanMap(k, infos[id], m, level, va, perms, page)
    ensures AllOk(Mapped(k, infos[id], level, va, perms, page), infos[id := WithPage(infos[id], va, page)], internals,
      m)
  {
    var info := infos[id];
    var k' := Mapped(k, info, level, va, perms, page);
    MapPageKeepsWf(k, info.tables[(level, PageBase(va, level + 1))], Index(va, level), perms, page);
    NewPageKeepsSpace(k, info, m, level, va, perms, page);
    if id !in internals { NewPageKeepsComplete(k, info, m, level, va, perms, page); }
    forall j | j in infos && j != id ensures SameFor(k, k', infos[j]) {
      TasksShareNothing(k, infos, internals, m, id, j);
      NewPageUnseen(k, info, infos[j], m, level, va, perms, page);
    }
    OneTaskStep(k, k', infos, internals, m, id, WithPage(info, va, page));
  }

  // ---------- a page leaves a task ----------

  /** The first half of the kernel's remap: the leaf is taken out of its slot. */
  function Unmapped(k: State, page: Cap): State
    requires page in k.pages && k.pages[page].spot.At?
  {
    var spot := k.pages[page].spot;
    k.(slots := k.slots - {(spot.table, spot.index)}, pages := k.pages[page := k.pages[page].(spot := Nowhere)])
  }

  lemma UnmapKeepsWf(k: State, page: Cap)
    requires Wf(k) && page in k.pages && k.pages[page].spot.At?
    ensures Wf(Unmapped(k, page))
  {
    var k' := Unmapped(k, page);
    assert PageOk(k, page);
    forall t, i | (t, i) in k'.slots ensures SlotOk(k', t, i) { assert SlotOk(k, t, i); }
    forall p | p in k'.pages ensures PageOk(k', p) { assert PageOk(k, p); }
    forall t | t in k'.tables ensures TableOk(k', t) { assert TableOk(k, t); }
  }

  /** A remap is a removal followed by an ordinary map. */
  lemma RemapIsUnmapThenMap(k: State, dst: Cap, index: nat, perms: Perms, page: Cap, src: Cap)
    requires Wf(k) && RemapPage(k, dst, index, perms, page, src).Some?
    ensures page in k.pages && k.pages[page].spot.At?
    ensures RemapPage(k, dst, index, perms, page, src) == MapPage(Unmapped(k, page), dst, index, perms, page)
  {
    var k' := RemapPage(k, dst, index, perms, page, src).value;
    var k'' := MapPage(Unmapped(k, page), dst, index, perms, page).value;
    assert k'.pages == k''.pages;
  }

  lemma RemovalKeepsSpace(k: State, info: TaskInfo, m: Layout, va: nat)
    requires Wf(k) && SpaceOk(k, info, m) && va in info.pages
    requires info.pages[va] in k.pages && k.pages[info.pages[va]].spot.At?
    ensures SpaceOk(Unmapped(k, info.pages[va]), WithoutPage(info, va), m)
  {
    var page := info.pages[va];
    var k', info' := Unmapped(k, page), WithoutPage(info, va);
    assert PageOk(k, page);
    forall l, b | (l, b) in info'.tables ensures TableEntryOk(k', info', m, l, b) {
      assert TableEntryOk(k, info, m, l, b);
    }
    forall v | v in info'.pages ensures PageEntryOk(k', info', m, v) {
      assert PageEntryOk(k, info, m, v);
      if v < va { RecordedPagesAreDisjoint(k, info, m, v, va); } else { RecordedPagesAreDisjoint(k, info, m, va, v); }
    }
  }

  lemma RemovalSlot(k: State, info: TaskInfo, va: nat, l: nat, b: nat, i: nat)
    requires Wf(k) && va in info.pages
    requires info.pages[va] in k.pages && k.pages[info.pages[va]].spot.At?
    requires (l, b) in info.tables && (info.tables[(l, b)], i) in Unmapped(k, info.pages[va]).slots
    requires SlotRecorded(k, info, l, b, i)
    ensures SlotRecorded(Unmapped(k, info.pages[va]), WithoutPage(info, va), l, b, i)
  {
    assert SlotOk(k, info.tables[(l, b)], i);
  }

  lemma RemovalKeepsComplete(k: State, info: TaskInfo, va: nat)
    requires Wf(k) && va in info.pages && Complete(k, info)
    requires info.pages[va] in k.pages && k.pages[info.pages[va]].spot.At?
    ensures Complete(Unmapped(k, info.pages[va]), WithoutPage(info, va))
  {
    var k', info' := Unmapped(k, info.pages[va]), WithoutPage(info, va);
    forall l, b, i | (l, b) in info'.tables && (info'.tables[(l, b)], i) in k'.slots
      ensures SlotRecorded(k', info', l, b, i)
    {
      assert SlotRecorded(k, info, l, b, i);
      RemovalSlot(k, info, va, l, b, i);
    }
  }

  lemma RemovalStep(k: State, infos: map<Id, TaskInfo>, internals: set<Id>, m: Layout, id: Id, va: nat)
    requires AllOk(k, infos, internals, m) && id in infos && va in infos[id].pages
    ensures infos[id].pages[va] in k.pages && k.pages[infos[id].pages[va]].spot.At?
    ensures AllOk(Unmapped(k, infos[id].pages[va]), infos[id := WithoutPage(infos[id], va)], internals, m)
  {
    var info := infos[id];
    var page := info.pages[va];
    assert page in info.pages.Values;
    PageOwner(k, info, m, page);
    var k' := Unmapped(k, page);
    UnmapKeepsWf(k, page);
    RemovalKeepsSpace(k, info, m, va);
    if id !in internals { RemovalKeepsComplete(k, info, va); }
    forall j | j in infos && j != id ensures SameFor(k, k', infos[j]) {
      TasksShareNothing(k, infos, internals, m, id, j);
    }
    OneTaskStep(k, k', infos, internals, m, id, WithoutPage(info, va));
  }

  // ---------- steps that change no record ----------

  /** New kernel objects and stored bytes are invisible to every record. */
  lemma QuietStep(k: State, k': State, infos: map<Id, TaskInfo>, internals: set<Id>, m: Layout)
    requires AllOk(k, infos, internals, m) && Wf(k')
    requires k'.slots == k.slots
    requires forall t :: t in k.tables ==> t in k'.tables && k'.tables[t] == k.tables[t]
    requires forall p :: p in k.pages ==>
      p in k'.pages && k'.pages[p].level == k.pages[p].level && k'.pages[p].spot == k.pages[p].spot
    ensures AllOk(k', infos, internals, m)
  {
    forall j | j in infos ensures SpaceOk(k', infos[j], m) { SameKeepsSpace(k, k', infos[j], m); }
    forall j | j in infos && j !in internals ensures Complete(k', infos[j]) { SameKeepsComplete(k, k', infos[j]); }
  }

  // ---------- a new task ----------

  /** A root table nobody else uses; empty unless the task is internal. */
  ghost predicate FreshRoot(k: State, infos: map<Id, TaskInfo>, internal: bool, m: Layout, root: Cap) {
    && root in k.tables && k.tables[root] == Placed(root, m.max, 0)
    && (forall id :: id in infos ==> (m.max, 0) in infos[id].tables && infos[id].tables[(m.max, 0)] != root)
    && (!internal ==> forall i :: (root, i) !in k.slots)
  }

  lemma AttachStep(k: State, infos: map<Id, TaskInfo>, internals: set<Id>, m: Layout, id: Id, internal: bool,
      info: TaskInfo, root: Cap)
    requires AllOk(k, infos, internals, m) && id !in infos && FreshRoot(k, infos, internal, m, root)
    requires info.tables == map[(m.max, 0) := root] && info.pages == map[]
    ensures AllOk(k, infos[id := info], if internal then internals + {id} else internals - {id}, m)
  {
    var infos' := infos[id := info];
    forall j | j in infos' ensures SpaceOk(k, infos'[j], m) { if j != id { assert SpaceOk(k, infos[j], m); } }
    if !internal {
      assert Complete(k, info);
    }
    forall a, b | a in infos' && b in infos' && a != b ensures RootsDiffer(infos', m, a, b) {
      if a != id && b != id { assert RootsDiffer(infos, m, a, b); }
    }
  }
}
