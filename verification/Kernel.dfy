/** The kernel rules the memory manager relies on. The kernel is not part of this
    repository, so its page-table system calls are stated here as functions on a value:
    a slot that is occupied refuses a table and a page, a page is mapped at most once, and
    a remap moves a leaf only from the table that holds it. */
module Kernel {
  import opened Options
  import opened Paging

  type Cap = nat

  datatype Perms = Perms(readable: bool, writable: bool, executable: bool)

  datatype Slot = Subtable(table: Cap) | Leaf(page: Cap)

  /** Where a page-table object sits: unplaced, or in the tree below a root. */
  datatype Placement = Unplaced | Placed(root: Cap, level: nat, base: nat)

  datatype Spot = Nowhere | At(table: Cap, index: nat)

  datatype VirtPage = VirtPage(level: nat, perms: Perms, spot: Spot, bytes: seq<char>)

  datatype State = State(
    next: Cap,
    slots: map<(Cap, nat), Slot>,
    tables: map<Cap, Placement>,
    pages: map<Cap, VirtPage>)

  // ---------- what the kernel keeps ----------

  ghost predicate SlotOk(k: State, table: Cap, index: nat)
    requires (table, index) in k.slots
  {
    && index < ENTRIES
    && table in k.tables && k.tables[table].Placed?
    && match k.slots[(table, index)]
       case Subtable(child) =>
         && k.tables[table].level > 0
         && child in k.tables
         && k.tables[child] == ChildPlacement(k.tables[table], index)
       case Leaf(page) =>
         && page in k.pages
         && k.pages[page].spot == At(table, index)
         && k.pages[page].level == k.tables[table].level
  }

  function ChildPlacement(parent: Placement, index: nat): Placement
    requires parent.Placed? && parent.level > 0
  {
    Placed(parent.root, parent.level - 1, SlotAddress(parent.base, parent.level, index))
  }

  ghost predicate PageOk(k: State, page: Cap)
    requires page in k.pages
  {
    var p := k.pages[page];
    && page < k.next
    && |p.bytes| == PageSize(p.level)
    && (p.spot.At? ==>
          && (p.spot.table, p.spot.index) in k.slots
          && k.slots[(p.spot.table, p.spot.index)] == Leaf(page))
  }

  ghost predicate TableOk(k: State, table: Cap)
    requires table in k.tables
  {
    && table < k.next
    && (k.tables[table].Placed? ==> Aligned(k.tables[table].base, k.tables[table].level + 1))
  }

  ghost predicate Wf(k: State) {
    && (forall t, i {:trigger SlotOk(k, t, i)} :: (t, i) in k.slots ==> SlotOk(k, t, i))
    && (forall p {:trigger PageOk(k, p)} :: p in k.pages ==> PageOk(k, p))
    && (forall t {:trigger TableOk(k, t)} :: t in k.tables ==> TableOk(k, t))
  }

  // ---------- address translation ----------

  datatype Hit = Hit(page: Cap, level: nat)

  /** What the hardware finds for va, walking down from a table of the given level. */
  function Translate(k: State, table: Cap, level: nat, va: nat): Option<Hit>
    decreases level
  {
    var key := (table, Index(va, level));
    if key !in k.slots then None
    else match k.slots[key]
         case Leaf(page) => Some(Hit(page, level))
         case Subtable(child) => if level == 0 then None else Translate(k, child, level - 1, va)
  }

  /** The byte a task reads at va. */
  function Load(k: State, root: Cap, max: nat, va: nat): Option<char> {
    match Translate(k, root, max, va)
    case None => None
    case Some(hit) =>
      var offset := va - PageBaseLow(va, hit.level);
      if hit.page in k.pages && offset < |k.pages[hit.page].bytes|
      then Some(k.pages[hit.page].bytes[offset])
      else None
  }

  function PageBaseLow(va: nat, level: nat): (base: nat)
    ensures base == PageBase(va, level) <= va
  {
    BaseOfPage(va, level);
    PageBase(va, level)
  }

  // ---------- system calls ----------

  function CreateTable(k: State): State {
    k.(next := k.next + 1, tables := k.tables[k.next := Unplaced])
  }

  /** A root table is placed as soon as the task object that owns it exists. */
  function CreateRoot(k: State, max: nat): State {
    k.(next := k.next + 1, tables := k.tables[k.next := Placed(k.next, max, 0)])
  }

  /** New pages read as zero. */
  function CreatePage(k: State, level: nat, perms: Perms): State {
    k.(next := k.next + 1,
       pages := k.pages[k.next := VirtPage(level, perms, Nowhere, Zeros(PageSize(level)))])
  }

  function Zeros(n: nat): (s: seq<char>)
    ensures |s| == n && forall i :: 0 <= i < n ==> s[i] == '\0'
  {
    seq(n, _ => '\0')
  }

  function MapTable(k: State, parent: Cap, index: nat, child: Cap): Option<State> {
    if parent in k.tables && k.tables[parent].Placed? && k.tables[parent].level > 0
       && index < ENTRIES && (parent, index) !in k.slots
       && child in k.tables && k.tables[child].Unplaced?
    then Some(k.(slots := k.slots[(parent, index) := Subtable(child)],
                 tables := k.tables[child := ChildPlacement(k.tables[parent], index)]))
    else None
  }

  function MapPage(k: State, table: Cap, index: nat, perms: Perms, page: Cap): Option<State> {
    if table in k.tables && k.tables[table].Placed?
       && index < ENTRIES && (table, index) !in k.slots
       && page in k.pages && k.pages[page].spot.Nowhere?
       && k.pages[page].level == k.tables[table].level
    then Some(k.(slots := k.slots[(table, index) := Leaf(page)],
                 pages := k.pages[page := k.pages[page].(perms := perms, spot := At(table, index))]))
    else None
  }

  function RemapPage(k: State, dst: Cap, index: nat, perms: Perms, page: Cap, src: Cap): Option<State> {
    if dst in k.tables && k.tables[dst].Placed?
       && index < ENTRIES && (dst, index) !in k.slots
       && page in k.pages && k.pages[page].spot.At? && k.pages[page].spot.table == src
       && k.pages[page].level == k.tables[dst].level
    then
      var from := (src, k.pages[page].spot.index);
      Some(k.(slots := (k.slots - {from})[(dst, index) := Leaf(page)],
              pages := k.pages[page := k.pages[page].(perms := perms, spot := At(dst, index))]))
    else None
  }

  /** The virtual address a mapped page object reports. */
  function VirtAddr(k: State, page: Cap): nat
    requires Wf(k) && page in k.pages && k.pages[page].spot.At?
  {
    var spot := k.pages[page].spot;
    assert PageOk(k, page) && SlotOk(k, spot.table, spot.index);
    SlotAddress(k.tables[spot.table].base, k.tables[spot.table].level, spot.index)
  }

  /** A copy into one page of the space below `root`; None when the page is not mapped or
      the bytes would leave it. */
  function Store(k: State, root: Cap, max: nat, va: nat, data: seq<char>): Option<State> {
    if data == [] then Some(k)
    else match Translate(k, root, max, va)
         case None => None
         case Some(hit) =>
           var offset := va - PageBaseLow(va, hit.level);
           if hit.page in k.pages && offset + |data| <= |k.pages[hit.page].bytes| then
             var p := k.pages[hit.page];
             Some(k.(pages := k.pages[hit.page := p.(bytes := Overwrite(p.bytes, offset, data))]))
           else None
  }

  function Overwrite(s: seq<char>, offset: nat, data: seq<char>): (r: seq<char>)
    requires offset + |data| <= |s|
    ensures |r| == |s|
    ensures forall i :: 0 <= i < |s| ==> r[i] == if offset <= i < offset + |data| then data[i - offset] else s[i]
  {
    s[..offset] + data + s[offset + |data|..]
  }

  // ---------- every system call keeps the kernel's own rules ----------

  lemma CapIsOld(k: State, cap: Cap)
    requires Wf(k) && (cap in k.tables || cap in k.pages)
    ensures cap < k.next
  {
    if cap in k.tables { assert TableOk(k, cap); } else { assert PageOk(k, cap); }
  }

  lemma NextIsFresh(k: State)
    requires Wf(k)
    ensures k.next !in k.tables && k.next !in k.pages
  {
    if k.next in k.tables || k.next in k.pages { CapIsOld(k, k.next); }
  }

  lemma CreateTableKeepsWf(k: State)
    requires Wf(k)
    ensures Wf(CreateTable(k)) && k.next !in k.tables && k.next !in k.pages
  {
    var k' := CreateTable(k);
    NextIsFresh(k);
    forall t, i | (t, i) in k'.slots ensures SlotOk(k', t, i) { assert SlotOk(k, t, i); }
    forall p | p in k'.pages ensures PageOk(k', p) { if p in k.pages { assert PageOk(k, p); } }
    forall t | t in k'.tables ensures TableOk(k', t) { if t in k.tables { assert TableOk(k, t); } }
  }

  lemma CreateRootKeepsWf(k: State, max: nat)
    requires Wf(k)
    ensures Wf(CreateRoot(k, max)) && k.next !in k.tables && k.next !in k.pages
  {
    var k' := CreateRoot(k, max);
    NextIsFresh(k);
    forall t, i | (t, i) in k'.slots ensures SlotOk(k', t, i) { assert SlotOk(k, t, i); }
    forall p | p in k'.pages ensures PageOk(k', p) { if p in k.pages { assert PageOk(k, p); } }
    forall t | t in k'.tables
      ensures TableOk(k', t) { if t in k.tables { assert TableOk(k, t); } else
    {
      ZeroIsAligned(max + 1); }
    }
  }

  lemma CreatePageKeepsWf(k: State, level: nat, perms: Perms)
    requires Wf(k)
    ensures Wf(CreatePage(k, level, perms)) && k.next !in k.tables && k.next !in k.pages
  {
    var k' := CreatePage(k, level, perms);
    NextIsFresh(k);
    forall t, i | (t, i) in k'.slots ensures SlotOk(k', t, i) { assert SlotOk(k, t, i); }
    forall p | p in k'.pages ensures PageOk(k', p) { if p in k.pages { assert PageOk(k, p); } }
    forall t | t in k'.tables ensures TableOk(k', t) { if t in k.tables { assert TableOk(k, t); } }
  }

  lemma MapTableKeepsWf(k: State, parent: Cap, index: nat, child: Cap)
    requires Wf(k) && MapTable(k, parent, index, child).Some?
    ensures Wf(MapTable(k, parent, index, child).value)
  {
    var k' := MapTable(k, parent, index, child).value;
    forall t, i | (t, i) in k'.slots ensures SlotOk(k', t, i) {
      if (t, i) in k.slots { assert SlotOk(k, t, i); }
    }
    forall p | p in k'.pages ensures PageOk(k', p) { assert PageOk(k, p); }
    forall t | t in k'.tables ensures TableOk(k', t) {
      assert TableOk(k, t);
      if t == child {
        assert TableOk(k, parent);
        JoinAddress(k.tables[parent].base, k.tables[parent].level, index);
      }
    }
  }

  lemma MapPageKeepsWf(k: State, table: Cap, index: nat, perms: Perms, page: Cap)
    requires Wf(k) && MapPage(k, table, index, perms, page).Some?
    ensures Wf(MapPage(k, table, index, perms, page).value)
  {
    var k' := MapPage(k, table, index, perms, page).value;
    forall t, i | (t, i) in k'.slots ensures SlotOk(k', t, i) {
      if (t, i) in k.slots { assert SlotOk(k, t, i); }
    }
    forall p | p in k'.pages ensures PageOk(k', p) { assert PageOk(k, p); }
    forall t | t in k'.tables ensures TableOk(k', t) { assert TableOk(k, t); }
  }

  lemma StoreKeepsWf(k: State, root: Cap, max: nat, va: nat, data: seq<char>)
    requires Wf(k) && Store(k, root, max, va, data).Some?
    ensures Wf(Store(k, root, max, va, data).value)
  {
    var k' := Store(k, root, max, va, data).value;
    forall t, i | (t, i) in k'.slots ensures SlotOk(k', t, i) { assert SlotOk(k, t, i); }
    forall p | p in k'.pages ensures PageOk(k', p) { assert PageOk(k, p); }
    forall t | t in k'.tables ensures TableOk(k', t) { assert TableOk(k, t); }
  }

  // ---------- translation under the system calls ----------

  /** Translation depends on the slots alone. */
  lemma {:induction false} SameSlotsSameTranslation(k: State, k': State, table: Cap, level: nat, va: nat)
    requires k.slots == k'.slots
    ensures Translate(k', table, level, va) == Translate(k, table, level, va)
    decreases level
  {
    var key := (table, Index(va, level));
    if key in k.slots && k.slots[key].Subtable? && level > 0 {
      SameSlotsSameTranslation(k, k', k.slots[key].table, level - 1, va);
    }
  }

  lemma SlotTableIsPlaced(k: State, table: Cap, index: nat)
    requires Wf(k) && (table, index) in k.slots
    ensures table in k.tables && k.tables[table].Placed?
  {
    assert SlotOk(k, table, index);
  }

  lemma UnplacedIsEmpty(k: State, table: Cap, index: nat)
    requires Wf(k) && table in k.tables && k.tables[table].Unplaced?
    ensures (table, index) !in k.slots
  {
    if (table, index) in k.slots { SlotTableIsPlaced(k, table, index); }
  }
}
