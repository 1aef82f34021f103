/** random_va's search for a free address, as facts about the recorded pages of one task. */
module AddressSearch {
  import opened Paging
  import opened Kernel
  import opened AddressSpace
  import opened Quota

  function SearchStart(level: nat): nat {
    PageSizeIsPositive(level);
    RoundUp(MEGA_PAGE_SIZE * 10, PageSize(level))
  }

  /** The page of the given level at c meets a recorded page. */
  ghost predicate Touched(k: State, info: TaskInfo, c: nat, level: nat) {
    exists b :: b in info.pages && b < c + PageSize(level) && c < b + SizeOf(k.pages, info.pages[b])
  }

  /** No recorded page contains va. */
  ghost predicate Uncovered(k: State, info: TaskInfo, va: nat) {
    forall b :: b in info.pages ==> !(b <= va < b + SizeOf(k.pages, info.pages[b]))
  }

  /** What the search comes to: every candidate before it meets a recorded page, and it is not
      recorded itself unless the search ran out of room. */
  ghost predicate Searched(k: State, info: TaskInfo, m: Layout, level: nat, va: nat) {
    && SearchStart(level) <= va && Aligned(va, level)
    && (va + PageSize(level) < m.end ==> va !in info.pages)
    && (forall c :: SearchStart(level) <= c < va && Aligned(c, level) ==> Touched(k, info, c, level))
    && (level == KILO_PAGE && va + PageSize(level) < m.end ==> Uncovered(k, info, va))
  }

  /** The search as numbers: it starts at 20 MiB and passes over no candidate that is free. */
  lemma SearchedInNumbers(k: State, info: TaskInfo, m: Layout, level: nat, va: nat)
    requires Searched(k, info, m, level, va)
    ensures PageSize(level) > 0 && 0x140_0000 <= va && va % PageSize(level) == 0
    ensures forall c :: 0x140_0000 <= c < va && c % PageSize(level) == 0 ==> Touched(k, info, c, level)
  {
    hide PageSize, Aligned, Touched, Uncovered;
    AlignedIsDivisible(va, level);
    StartIsFirst(level);
    forall c | 0x140_0000 <= c < va && c % PageSize(level) == 0 ensures Touched(k, info, c, level) {
      AlignedIsDivisible(c, level);
      AlignedIsDivisible(SearchStart(level), level);
      if c < SearchStart(level) { RoundUpIsLeast(0x140_0000, PageSize(level), c); }
    }
  }

  lemma StartIsFirst(level: nat)
    ensures PageSize(level) > 0 && SearchStart(level) == RoundUp(0x140_0000, PageSize(level))
  {
    PageSizeIsPositive(level);
  }

  /** Every recorded page that starts below va ends by va. */
  ghost predicate NothingAcross(k: State, info: TaskInfo, va: nat) {
    forall b :: b in info.pages && b < va ==> b + SizeOf(k.pages, info.pages[b]) <= va
  }

  lemma AcrossIsUncovered(k: State, info: TaskInfo, va: nat)
    requires NothingAcross(k, info, va) && va !in info.pages
    ensures Uncovered(k, info, va)
  {
  }

  lemma StartIsAligned(level: nat)
    ensures Aligned(SearchStart(level), level)
  {
    AlignedIsDivisible(SearchStart(level), level);
  }

  lemma GigaIsLarge(b: nat)
    requires Aligned(b, 2) && b > 0
    ensures b >= 512 * MEGA_PAGE_SIZE
  {
    var n := PageNumber(b, 2);
    assert Scale(n, 2) == Scale(512 * n, 1) == Scale(512 * (512 * n), 0);
  }

  lemma NothingAcrossStart(k: State, info: TaskInfo, m: Layout)
    requires SpaceOk(k, info, m)
    ensures NothingAcross(k, info, SearchStart(KILO_PAGE))
  {
    var start := MEGA_PAGE_SIZE * 10;
    RoundUpOfMultiple(5120, 4096);
    forall b | b in info.pages && b < start ensures b + SizeOf(k.pages, info.pages[b]) <= start {
      assert PageEntryOk(k, info, m, b);
      var level := k.pages[info.pages[b]].level;
      assert PageNumber(start, 0) == 5120 && PageNumber(start, 1) == 10 && Scale(10, 1) == Scale(5120, 0);
      if level >= 2 {
        AlignedBelow(b, 2, level);
        GigaIsLarge(b);
      } else {
        AlignedGap(b, start, level);
      }
    }
  }

  /** What is skipped at a recorded page overlaps that page. */
  lemma SkipStep(k: State, info: TaskInfo, m: Layout, va: nat, level: nat)
    requires Wf(k) && SpaceOk(k, info, m) && va in info.pages && info.pages[va] in k.pages && Aligned(va, level)
    ensures PageSize(level) > 0 && PageSize(k.pages[info.pages[va]].level) > 0
    ensures var next := RoundUp(va + PageSize(k.pages[info.pages[va]].level), PageSize(level));
      && Aligned(next, level)
      && (forall c :: va <= c < next && Aligned(c, level) ==> Touched(k, info, c, level))
      && (level == KILO_PAGE && NothingAcross(k, info, va) ==> NothingAcross(k, info, next))
  {
    var size := PageSize(k.pages[info.pages[va]].level);
    PageSizeIsPositive(level);
    PageSizeIsPositive(k.pages[info.pages[va]].level);
    var next := RoundUp(va + size, PageSize(level));
    AlignedIsDivisible(next, level);
    forall c | va <= c < next && Aligned(c, level) ensures Touched(k, info, c, level) {
      AlignedGap(c, next, level);
    }
    if level == KILO_PAGE && NothingAcross(k, info, va) {
      KiloStep(k, info, m, va);
    }
  }

  lemma NextIsKiloAligned(va: nat, level: nat)
    requires Aligned(va, level)
    ensures RoundUp(va + PageSize(level), 4096) == va + PageSize(level)
  {
    var next := va + PageSize(level);
    NextPage(va, level);
    AlignedBelow(next, 0, level);
    RoundUpOfMultiple(next / 4096, 4096);
  }

  lemma KiloStep(k: State, info: TaskInfo, m: Layout, va: nat)
    requires Wf(k) && SpaceOk(k, info, m) && va in info.pages && info.pages[va] in k.pages && NothingAcross(k, info, va)
    ensures var next := va + PageSize(k.pages[info.pages[va]].level);
      RoundUp(next, 4096) == next && NothingAcross(k, info, next)
  {
    assert PageEntryOk(k, info, m, va);
    NextIsKiloAligned(va, k.pages[info.pages[va]].level);
    forall b | b in info.pages && b > va ensures va + PageSize(k.pages[info.pages[va]].level) <= b {
      RecordedPagesAreDisjoint(k, info, m, va, b);
    }
  }
}
