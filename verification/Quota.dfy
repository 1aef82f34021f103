/** The bytes a task's recorded pages occupy, against which its quota is kept. */
module Quota {
  import opened Paging
  import opened Kernel
  import opened AddressSpace

  ghost function SizeOf(objs: map<Cap, VirtPage>, page: Cap): nat {
    if page in objs then PageSize(objs[page].level) else 0
  }

  ghost function Pick(pages: map<nat, Cap>): nat
    requires pages != map[]
    ensures Pick(pages) in pages
  {
    var va :| va in pages;
    va
  }

  /** The sum of the sizes of all recorded pages. */
  ghost function Total(objs: map<Cap, VirtPage>, pages: map<nat, Cap>): nat
    decreases |pages|
  {
    if pages == map[] then 0
    else SizeOf(objs, pages[Pick(pages)]) + Total(objs, pages - {Pick(pages)})
  }

  lemma {:induction false} TotalRemove(objs: map<Cap, VirtPage>, pages: map<nat, Cap>, va: nat)
    requires va in pages
    ensures Total(objs, pages) == SizeOf(objs, pages[va]) + Total(objs, pages - {va})
    decreases |pages|
  {
    var x := Pick(pages);
    if x != va {
      TotalRemove(objs, pages - {x}, va);
      TotalRemove(objs, pages - {va}, x);
      assert pages - {x} - {va} == pages - {va} - {x};
    }
  }

  lemma TotalInsert(objs: map<Cap, VirtPage>, pages: map<nat, Cap>, va: nat, page: Cap)
    requires va !in pages
    ensures Total(objs, pages[va := page]) == SizeOf(objs, page) + Total(objs, pages)
  {
    TotalRemove(objs, pages[va := page], va);
    assert pages[va := page] - {va} == pages;
  }

  lemma {:induction false} TotalFrame(objs: map<Cap, VirtPage>, objs': map<Cap, VirtPage>, pages: map<nat, Cap>)
    requires forall va :: va in pages ==> SizeOf(objs, pages[va]) == SizeOf(objs', pages[va])
    ensures Total(objs, pages) == Total(objs', pages)
    decreases |pages|
  {
    if pages != map[] {
      TotalFrame(objs, objs', pages - {Pick(pages)});
    }
  }

  lemma {:induction false} LastKey(keys: set<nat>) returns (last: nat)
    requires keys != {}
    ensures last in keys && forall x :: x in keys ==> x <= last
    decreases |keys|
  {
    var x :| x in keys;
    if keys == {x} {
      last := x;
    } else {
      var y := LastKey(keys - {x});
      last := if x < y then y else x;
      assert forall z :: z in keys ==> z == x || z in keys - {x};
    }
  }

  /** Pages that do not overlap and end below a limit cannot occupy more than the limit. */
  lemma {:induction false} TotalFits(objs: map<Cap, VirtPage>, pages: map<nat, Cap>, limit: nat)
    requires forall a :: a in pages ==> a + SizeOf(objs, pages[a]) <= limit
    requires forall a, b :: a in pages && b in pages && a < b ==> a + SizeOf(objs, pages[a]) <= b
    ensures Total(objs, pages) <= limit
    decreases |pages|
  {
    if pages != map[] {
      var last := LastKey(pages.Keys);
      TotalRemove(objs, pages, last);
      TotalFits(objs, pages - {last}, last);
    }
  }

  /** A task never records more bytes than its address space has. */
  lemma RecordedFitsSpace(k: State, info: TaskInfo, m: Layout)
    requires Wf(k) && SpaceOk(k, info, m)
    ensures Total(k.pages, info.pages) <= m.end
  {
    forall a | a in info.pages ensures a + SizeOf(k.pages, info.pages[a]) <= m.end {
      assert PageEntryOk(k, info, m, a);
    }
    forall a, b | a in info.pages && b in info.pages && a < b ensures a + SizeOf(k.pages, info.pages[a]) <= b {
      RecordedPagesAreDisjoint(k, info, m, a, b);
    }
    TotalFits(k.pages, info.pages, m.end);
  }
}
