/** Runs of requests that lay out stack: each growth begins where the one before it ended. */
module StackRuns {
  import opened Paging
  import opened Kernel
  import opened Options
  import opened AddressSpace
  import SpaceSteps
  import opened PageObjects
  import opened StackGrowth
  import opened TaskTables
  import opened Words

  lemma CoveredJoin(k: map<Cap, VirtPage>, k': map<Cap, VirtPage>, before: map<nat, Cap>, mid: map<nat, Cap>,
      after: map<nat, Cap>, low: nat, middle: nat, top: nat)
    requires Covered(k, mid, before, middle, top) && Covered(k', after, mid, low, middle) && low <= middle <= top
    requires PagesKept(k, k') && forall va :: va in mid && va !in before ==> mid[va] in k
    ensures Covered(k', after, before, low, top)
  {
    forall x | low <= x < top ensures CoveredAt(k', after, before, x) {
      if x < middle {
        assert CoveredAt(k', after, mid, x);
        var va :| va in after && NewAround(k', after, mid, va, x);
        assert va in before ==> va in mid;
        assert NewAround(k', after, before, va, x);
      } else {
        assert CoveredAt(k, mid, before, x);
        var va :| va in mid && NewAround(k, mid, before, va, x);
        assert NewAround(k', after, before, va, x);
      }
    }
  }

  lemma RecordedExist(t: TaskTable, id: Id)
    requires t.Valid() && id in t.table
    ensures forall va :: va in t.table[id].pages ==> t.table[id].pages[va] in t.kernel.pages
  {
    t.TableIsOk(id);
    forall va | va in t.table[id].pages ensures t.table[id].pages[va] in t.kernel.pages {
      t.RecordedIsPage(t.kernel, t.table[id], va);
    }
  }

  /** One growth, for a request that is n bytes in whole small pages. */
  method GrowOnce(t: TaskTable, id: Id, size: Word, ghost n: nat) returns (code: Code)
    requires t.Valid() && id in t.table && size <= WORD_LIMIT - 4096 && n == (size + 4095) / 4096 * 4096
    modifies t`kernel, t`table, t`twice, t`quota, t`denials, t`refusals
    ensures t.Valid() && t.table.Keys == old(t.table.Keys) && PagesKept(old(t.kernel.pages), t.kernel.pages)
    ensures code == Ok && old(t.table[id].stackCommit) + n <= t.m.end ==>
      var top := t.m.end - old(t.table[id].stackCommit);
      && t.table[id].stackCommit == old(t.table[id].stackCommit) + n
      && Aligned(top - n, 0) && Aligned(top, 0) && (n < 0x20_0000 ==> Finish(t.m.max, top - n, top) == top)
      && Covered(t.kernel.pages, t.table[id].pages, old(t.table[id].pages), top - n, Finish(t.m.max, top - n, top))
  {
    hide TaskTable.Valid, TaskTable.InQuota, TaskTable.Ready, Finish, Aligned, Covered, PagesKept;
    t.SpaceEnds();
    code := t.RequestStack(id, size);
    if t.table[id].stackCommit + n <= t.m.end { WrapFits(t.table[id].stackCommit + n); }
    if old(t.table[id].stackCommit) + n <= t.m.end { WrapFits(old(t.table[id].stackCommit) + n); }
  }

  /** Two growths in a row: together their pages cover one range below what was committed before,
      and the stack is longer by both. */
  method GrowTwice(t: TaskTable, id: Id, size1: Word, size2: Word) returns (first: Code, second: Code)
    requires t.Valid() && id in t.table && size1 <= WORD_LIMIT - 4096 && size2 <= WORD_LIMIT - 4096
    modifies t`kernel, t`table, t`twice, t`quota, t`denials, t`refusals
    ensures t.Valid() && t.table.Keys == old(t.table.Keys)
    ensures first == second == Ok ==>
      var c, n1, n2 := old(t.table[id].stackCommit), (size1 + 4095) / 4096 * 4096, (size2 + 4095) / 4096 * 4096;
      c + n1 + n2 <= t.m.end ==>
        && t.table[id].stackCommit == c + n1 + n2
        && var top := t.m.end - c;
        && Aligned(top, 0) && Aligned(top - n1, 0) && Aligned(top - n1 - n2, 0)
        && (Finish(t.m.max, top - n1, top) == top && Finish(t.m.max, top - n1 - n2, top - n1) == top - n1 ==>
              Covered(t.kernel.pages, t.table[id].pages, old(t.table[id].pages), top - n1 - n2, top))
        && (n1 < 0x20_0000 && n2 < 0x20_0000 ==>
              Covered(t.kernel.pages, t.table[id].pages, old(t.table[id].pages), top - n1 - n2, top))
  {
    hide TaskTable.Valid, Finish, Aligned, Covered, PagesKept;
    ghost var n1, n2 := (size1 + 4095) / 4096 * 4096, (size2 + 4095) / 4096 * 4096;
    second := Failure;
    first := GrowOnce(t, id, size1, n1);
    if first != Ok { return; }
    RecordedExist(t, id);
    ghost var k, mid, top := t.kernel.pages, t.table[id].pages, t.m.end - old(t.table[id].stackCommit);
    second := GrowOnce(t, id, size2, n2);
    if second == Ok && n1 + n2 <= top && Finish(t.m.max, top - n1, top) == top
       && Finish(t.m.max, top - n1 - n2, top - n1) == top - n1 {
      CoveredJoin(k, t.kernel.pages, old(t.table[id].pages), mid, t.table[id].pages, top - n1 - n2, top - n1, top);
    }
  }

  /** The start of the memory manager itself: it is attached with one committed page and then asks
      for four more. They go below that page. */
  method OwnStack(t: TaskTable, root: Cap) returns (attached: Code, grown: Code)
    requires t.Valid() && t.self !in t.table && SpaceSteps.FreshRoot(t.kernel, t.table, true, t.m, root)
    requires 20480 <= t.m.end
    modifies t
    ensures t.Valid() && attached == Ok && t.self in t.table
    ensures grown == Ok ==>
      && t.table[t.self].stackCommit == 20480
      && Covered(t.kernel.pages, t.table[t.self].pages, map[], t.m.end - 20480, t.m.end - 4096)
  {
    hide TaskTable.Valid, TaskTable.InQuota, TaskTable.Ready, TaskTable.Extended, TaskTable.TopReads, Finish, Aligned,
         Covered, SpaceSteps.FreshRoot, PagesKept;
    var sp;
    ghost var none;
    attached, sp, none := t.Attach(t.self, root, 0, 0, 4096, true, None);
    if attached != Ok { return attached, Failure; }
    grown := t.RequestStack(t.self, 4 * 4096);
  }
}
