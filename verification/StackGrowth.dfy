/** How grow_stack cuts its range into pages, and what the new pages hold. */
module StackGrowth {
  import opened Options
  import opened Paging
  import opened Kernel
  import opened AddressSearch
  import opened AddressSpace
  import opened Quota
  import opened PageObjects

  // ---------- the order in which pages are laid down ----------

  /** Where one pass over the levels ends. The size is the one computed before the pass:
      after a large page the smaller levels are still tried against it. */
  function PassEnd(level: nat, start: nat, size: nat): (next: nat)
    ensures start <= next
    decreases level
  {
    var next := if size >= PageSize(level) && Aligned(start, level) then start + PageSize(level) else start;
    if level == 0 then next else PassEnd(level - 1, next, size)
  }

  lemma {:induction false} PassAdvances(level: nat, start: nat, size: nat)
    requires Aligned(start, 0) && size >= KILO_PAGE_SIZE
    ensures PassEnd(level, start, size) >= start + KILO_PAGE_SIZE && Aligned(PassEnd(level, start, size), 0)
    decreases level
  {
    if size >= PageSize(level) && Aligned(start, level) {
      NextPage(start, level);
      AlignedBelow(start + PageSize(level), 0, level);
      PageSizeIsPositive(level);
      if level > 0 { PassAdvances(level - 1, start + PageSize(level), size); }
    } else if level > 0 {
      PassAdvances(level - 1, start, size);
    }
  }

  /** Where the whole loop ends: past `end` when the last pass overshoots. */
  function Finish(max: nat, start: nat, end: nat): (last: nat)
    requires Aligned(start, 0) && Aligned(end, 0)
    ensures start <= last && (start <= end ==> end <= last)
    decreases end - start
  {
    if start >= end then start
    else
      AlignedGap(start, end, 0);
      PassAdvances(max, start, end - start);
      Finish(max, PassEnd(max, start, end - start), end)
  }

  /** Below MEGA_PAGE_SIZE a pass lays down exactly one small page. */
  lemma {:induction false} SmallPass(level: nat, start: nat, size: nat)
    requires Aligned(start, 0) && KILO_PAGE_SIZE <= size < MEGA_PAGE_SIZE
    ensures PassEnd(level, start, size) == start + KILO_PAGE_SIZE
    decreases level
  {
    if level > 0 {
      MegaIsLevelOne(level);
      SmallPass(level - 1, start, size);
    }
  }

  lemma MegaIsLevelOne(level: nat)
    requires level >= 1
    ensures MEGA_PAGE_SIZE <= PageSize(level) && PageSize(1) == MEGA_PAGE_SIZE
    ensures level >= 2 ==> 512 * MEGA_PAGE_SIZE <= PageSize(level)
  {
    assert Scale(1, 1) == Scale(512, 0);
    PageSizeGrows(1, level);
    if level >= 2 {
      assert Scale(1, 2) == Scale(512, 1) == Scale(512 * 512, 0);
      PageSizeGrows(2, level);
    }
  }

  /** Where large pages are first possible. */
  function FirstMega(start: nat): nat {
    RoundUp(start, MEGA_PAGE_SIZE)
  }

  /** Below a gigabyte the loop overshoots exactly when the range ends on a 2 MiB boundary an
      odd number of 2 MiB after the first boundary it meets. */
  predicate Overshoots(start: nat, end: nat) {
    end % MEGA_PAGE_SIZE == 0 && FirstMega(start) <= end && (end - FirstMega(start)) / MEGA_PAGE_SIZE % 2 == 1
  }

  lemma PassBelowGiga(max: nat, start: nat, size: nat)
    requires max >= 1 && Aligned(start, 0) && KILO_PAGE_SIZE <= size < 512 * MEGA_PAGE_SIZE
    ensures PassEnd(max, start, size) ==
      if size >= MEGA_PAGE_SIZE && start % MEGA_PAGE_SIZE == 0 then start + MEGA_PAGE_SIZE + KILO_PAGE_SIZE
      else start + KILO_PAGE_SIZE
    decreases max
  {
    MegaIsLevelOne(max);
    if max >= 2 {
      PassBelowGiga(max - 1, start, size);
    } else {
      AlignedIsDivisible(start, 1);
      NextPage(start, 0);
      if start % MEGA_PAGE_SIZE == 0 {
        NextPage(start, 1);
        AlignedBelow(start + MEGA_PAGE_SIZE, 0, 1);
      }
    }
  }

  /** The exact condition, for every range below a gigabyte. */
  lemma {:induction false} ExactUnlessOvershoot(max: nat, start: nat, end: nat)
    requires max >= 1 && Aligned(start, 0) && Aligned(end, 0) && start <= end && end - start < 512 * MEGA_PAGE_SIZE
    ensures Finish(max, start, end) == end <==> !Overshoots(start, end)
    decreases end - start
  {
    AlignedIsDivisible(start, 0);
    AlignedIsDivisible(end, 0);
    if start < end {
      AlignedGap(start, end, 0);
      PassBelowGiga(max, start, end - start);
      NextPage(start, 0);
      PassAdvances(max, start, end - start);
      var next := PassEnd(max, start, end - start);
      if next <= end {
        ExactUnlessOvershoot(max, next, end);
        OvershootStep(start, end);
      } else {
        OvershootNow(start, end);
      }
    }
  }

  /** The data can be placed, as a condition on start, end and length alone: no pass lays down two
      pages, or the data fits behind the last pass that does. */
  predicate FitsBehind(start: nat, end: nat, length: nat) {
    start <= end && FitsFrom(FirstMega(start), end, length)
  }

  predicate FitsFrom(mega: nat, end: nat, length: nat) {
    end < mega + MEGA_PAGE_SIZE || length + KILO_PAGE_SIZE <= LastPass(end - mega)
  }

  /** The bytes behind the last pass of two pages that starts on a boundary, without their small page:
      `left` bytes lie between the first boundary and the end. */
  function LastPass(left: int): int {
    (left - MEGA_PAGE_SIZE) % (2 * MEGA_PAGE_SIZE)
  }

  /** Below a gigabyte this is exactly the condition under which the loop can place the data. */
  lemma {:induction false} PourableBelowGiga(max: nat, start: nat, end: nat, length: nat)
    requires max >= 1 && Aligned(start, 0) && Aligned(end, 0) && start <= end && end - start < 512 * MEGA_PAGE_SIZE
    ensures Pourable(max, start, end, length) <==> FitsBehind(start, end, length)
    decreases end - start
  {
    hide FirstMega, FitsBehind;
    AlignedIsDivisible(start, 0);
    AlignedIsDivisible(end, 0);
    if start < end {
      AlignedGap(start, end, 0);
      PassBelowGiga(max, start, end - start);
      PagesBelowGiga(max, start, end - start);
      NextPage(start, 0);
      PassAdvances(max, start, end - start);
      var next := PassEnd(max, start, end - start);
      FitsBehindStep(start, end, length);
      if next <= end { PourableBelowGiga(max, next, end, length); }
    } else {
      FitsAtEnd(start, length);
    }
  }

  lemma FitsAtEnd(start: nat, length: nat)
    ensures FitsBehind(start, start, length)
  {
    FirstMegaIs(start);
  }

  lemma PagesBelowGiga(max: nat, start: nat, size: nat)
    requires max >= 1 && Aligned(start, 0) && KILO_PAGE_SIZE <= size < 512 * MEGA_PAGE_SIZE
    ensures Pages(max, start, size) == if size >= MEGA_PAGE_SIZE && start % MEGA_PAGE_SIZE == 0 then 2 else 1
    decreases max
  {
    MegaIsLevelOne(max);
    if max >= 2 {
      PagesBelowGiga(max - 1, start, size);
    } else {
      AlignedIsDivisible(start, 1);
      if start % MEGA_PAGE_SIZE == 0 {
        NextPage(start, 1);
        AlignedBelow(start + MEGA_PAGE_SIZE, 0, 1);
      }
    }
  }

  lemma FitsBehindStep(start: nat, end: nat, length: nat)
    requires start % 4096 == 0 && end % 4096 == 0 && start < end
    ensures var large := end - start >= MEGA_PAGE_SIZE && start % MEGA_PAGE_SIZE == 0;
      var next := if large then start + MEGA_PAGE_SIZE + 4096 else start + 4096;
      FitsBehind(start, end, length) <==>
      (large ==> next + length <= end) && next <= end && FitsBehind(next, end, length)
  {
    hide FirstMega, FitsFrom;
    var large := end - start >= MEGA_PAGE_SIZE && start % MEGA_PAGE_SIZE == 0;
    var next := if large then start + MEGA_PAGE_SIZE + 4096 else start + 4096;
    NextMega(start, next);
    if start % MEGA_PAGE_SIZE == 0 {
      LargeStep(start, end, length);
    }
    SmallGap(start, end);
  }

  lemma SmallGap(start: nat, end: nat)
    requires start % 4096 == 0 && end % 4096 == 0 && start < end
    ensures start + 4096 <= end
  {
  }

  /** The first 2 MiB boundary behind one small page or behind a pass of two pages. */
  lemma NextMega(start: nat, next: nat)
    requires start % 4096 == 0
    requires next == start + 4096 || (start % MEGA_PAGE_SIZE == 0 && next == start + MEGA_PAGE_SIZE + 4096)
    ensures start % MEGA_PAGE_SIZE == 0 <==> FirstMega(start) == start
    ensures start <= FirstMega(start) < start + MEGA_PAGE_SIZE
    ensures FirstMega(next) == if next == start + 4096 && start % MEGA_PAGE_SIZE != 0 then FirstMega(start)
      else if next == start + 4096 then start + MEGA_PAGE_SIZE else start + 2 * MEGA_PAGE_SIZE
  {
    hide FirstMega;
    var k, later := FirstMega(start) / MEGA_PAGE_SIZE, FirstMega(next) / MEGA_PAGE_SIZE;
    FirstMegaIs(start);
    FirstMegaIs(next);
    BoundaryIsOwn(start, k);
    BoundariesApart(start / 4096, k, later, next != start + 4096);
  }

  /** In units of small pages. */
  lemma BoundariesApart(s: nat, k: nat, later: nat, large: bool)
    requires s <= 512 * k < s + 512
    requires var next := if large then s + 513 else s + 1; next <= 512 * later < next + 512
    requires large ==> s == 512 * k
    ensures later == if large then k + 2 else if s == 512 * k then k + 1 else k
  {
  }

  /** Behind a pass that starts on a boundary. */
  lemma LargeStep(start: nat, end: nat, length: nat)
    requires start < end
    ensures end < start + MEGA_PAGE_SIZE ==>
      FitsFrom(start, end, length) && FitsFrom(start + MEGA_PAGE_SIZE, end, length)
    ensures end >= start + MEGA_PAGE_SIZE ==>
      (FitsFrom(start, end, length) <==>
       start + MEGA_PAGE_SIZE + KILO_PAGE_SIZE + length <= end && FitsFrom(start + 2 * MEGA_PAGE_SIZE, end, length))
  {
    var left := end - start;
    assert left >= 3 * MEGA_PAGE_SIZE ==> LastPass(left) == LastPass(left - 2 * MEGA_PAGE_SIZE);
  }

  lemma OvershootStep(start: nat, end: nat)
    requires start % 4096 == 0 && end % 4096 == 0 && start < end
    ensures var next := if end - start >= MEGA_PAGE_SIZE && start % MEGA_PAGE_SIZE == 0
      then start + MEGA_PAGE_SIZE + 4096 else start + 4096;
      next <= end ==> (Overshoots(start, end) <==> Overshoots(next, end))
  {
    hide FirstMega, Overshoots;
    var next := if end - start >= MEGA_PAGE_SIZE && start % MEGA_PAGE_SIZE == 0 then start + MEGA_PAGE_SIZE + 4096
      else start + 4096;
    if end % MEGA_PAGE_SIZE != 0 {
      NeverOvershoots(start, end);
      NeverOvershoots(next, end);
    } else if next <= end {
      var k, later, e := FirstMega(start) / MEGA_PAGE_SIZE, FirstMega(next) / MEGA_PAGE_SIZE, end / MEGA_PAGE_SIZE;
      FirstMegaIs(start);
      FirstMegaIs(next);
      OvershootsIs(start, end, k, e);
      OvershootsIs(next, end, later, e);
      var s := start / 4096;
      BoundaryIsOwn(start, k);
      BoundariesPassed(s, if s == 512 * k && 512 * e - s >= 512 then s + 513 else s + 1, k, later, e);
    }
  }

  lemma NeverOvershoots(start: nat, end: nat)
    requires end % MEGA_PAGE_SIZE != 0
    ensures !Overshoots(start, end)
  {
  }

  lemma BoundaryIsOwn(start: nat, k: nat)
    requires start <= k * MEGA_PAGE_SIZE < start + MEGA_PAGE_SIZE
    ensures start % MEGA_PAGE_SIZE == 0 <==> start == k * MEGA_PAGE_SIZE
  {
  }

  /** In units of small pages: a pass from a boundary skips two boundaries, any other none. */
  lemma BoundariesPassed(s: nat, next: nat, k: nat, later: nat, e: nat)
    requires s < next <= 512 * e && next == if s == 512 * k && 512 * e - s >= 512 then s + 513 else s + 1
    requires s <= 512 * k < s + 512 && next <= 512 * later < next + 512
    ensures later == k || (later == k + 2 && k + 2 <= e)
  {
  }

  lemma OvershootsIs(start: nat, end: nat, k: nat, e: nat)
    requires FirstMega(start) == k * MEGA_PAGE_SIZE && end == e * MEGA_PAGE_SIZE
    ensures Overshoots(start, end) <==> k <= e && (e - k) % 2 == 1
  {
    hide FirstMega;
    if k <= e { assert end - FirstMega(start) == (e - k) * MEGA_PAGE_SIZE; }
  }

  /** The first 2 MiB boundary from an address on, as a number of 2 MiB. */
  lemma FirstMegaIs(start: nat)
    ensures var k := FirstMega(start) / MEGA_PAGE_SIZE;
      FirstMega(start) == k * MEGA_PAGE_SIZE && start <= k * MEGA_PAGE_SIZE < start + MEGA_PAGE_SIZE
  {
  }

  lemma OvershootNow(start: nat, end: nat)
    requires start % 4096 == 0 && end % 4096 == 0 && start < end
    requires end - start >= MEGA_PAGE_SIZE && start % MEGA_PAGE_SIZE == 0 && start + MEGA_PAGE_SIZE + 4096 > end
    ensures Overshoots(start, end)
  {
    RoundUpOfMultiple(start / MEGA_PAGE_SIZE, MEGA_PAGE_SIZE);
    assert end == start + MEGA_PAGE_SIZE;
  }

  // ---------- which data the loop can place ----------

  /** How many pages one pass lays down. */
  function Pages(level: nat, start: nat, size: nat): nat
    decreases level
  {
    var laid := size >= PageSize(level) && Aligned(start, level);
    var next := if laid then start + PageSize(level) else start;
    (if laid then 1 else 0) + if level == 0 then 0 else Pages(level - 1, next, size)
  }

  /** Only the first page of a pass gets data, so none of the last `length` bytes of the range may
      belong to a later page of a pass. */
  predicate Pourable(max: nat, start: nat, end: nat, length: nat)
    requires Aligned(start, 0) && Aligned(end, 0)
    decreases end - start
  {
    if start >= end then start == end
    else
      AlignedGap(start, end, 0);
      PassAdvances(max, start, end - start);
      var next := PassEnd(max, start, end - start);
      (Pages(max, start, end - start) <= 1 || next + length <= end) && Pourable(max, next, end, length)
  }

  lemma {:induction false} PourableIsExact(max: nat, start: nat, end: nat, length: nat)
    requires Aligned(start, 0) && Aligned(end, 0) && Pourable(max, start, end, length)
    ensures start <= end && Finish(max, start, end) == end
    decreases end - start
  {
    if start < end {
      AlignedGap(start, end, 0);
      PassAdvances(max, start, end - start);
      PourableIsExact(max, PassEnd(max, start, end - start), end, length);
    }
  }

  /** Below MEGA_PAGE_SIZE every pass lays down one page, and all data can be placed. */
  lemma {:induction false} SmallIsPourable(max: nat, start: nat, end: nat, length: nat)
    requires Aligned(start, 0) && Aligned(end, 0) && start <= end < start + MEGA_PAGE_SIZE
    ensures Pourable(max, start, end, length)
    decreases end - start
  {
    if start < end {
      AlignedGap(start, end, 0);
      SmallPass(max, start, end - start);
      OnePageBelowMega(max, start, end - start);
      NextPage(start, 0);
      SmallIsPourable(max, start + KILO_PAGE_SIZE, end, length);
    }
  }

  lemma SmallRangeIsExact(max: nat, start: nat, end: nat)
    requires Aligned(start, 0) && Aligned(end, 0) && start <= end < start + MEGA_PAGE_SIZE
    ensures Finish(max, start, end) == end
  {
    SmallIsPourable(max, start, end, 0);
    PourableIsExact(max, start, end, 0);
  }

  lemma {:induction false} OnePageBelowMega(level: nat, start: nat, size: nat)
    requires size < MEGA_PAGE_SIZE
    ensures Pages(level, start, size) <= 1
    decreases level
  {
    if level > 0 {
      MegaIsLevelOne(level);
      OnePageBelowMega(level - 1, start, size);
    }
  }

  function Least(a: int, b: int): int {
    if a < b then a else b
  }

  /** A pass before its level `level`: `laid` pages so far, the first of size `first`; of the data
      of length `rest0` the length `rest` is left. */
  predicate Passing(max: nat, level: int, start0: nat, start: nat, size: nat, rest0: nat, rest: nat, laid: nat,
      first: nat) {
    && start0 <= start
    && (if level >= 0 then PassEnd(level, start, size) else start) == PassEnd(max, start0, size)
    && laid + (if level >= 0 then Pages(level, start, size) else 0) == Pages(max, start0, size)
    && (laid == 0 ==> start == start0 && rest == rest0)
    && (laid == 1 ==> first == start - start0)
    && (laid >= 2 ==> first < start - start0)
    && (laid > 0 ==> rest0 <= size && first <= size && rest == Least(rest0, size - first))
    && (laid > 0 && level >= 0 ==> PageSize(level) < first)
  }

  lemma PassStarts(max: nat, start: nat, size: nat, rest: nat)
    ensures Passing(max, max, start, start, size, rest, rest, 0, 0)
  {
  }

  lemma PassSkips(max: nat, level: nat, start0: nat, start: nat, size: nat, rest0: nat, rest: nat, laid: nat,
      first: nat)
    requires Passing(max, level, start0, start, size, rest0, rest, laid, first)
    requires size < PageSize(level) || !Aligned(start, level)
    ensures Passing(max, level - 1, start0, start, size, rest0, rest, laid, first)
  {
    if level > 0 { PageSizeGrows(level - 1, level); }
  }

  lemma PassLays(max: nat, level: nat, start0: nat, start: nat, size: nat, rest0: nat, rest: nat, laid: nat,
      first: nat, cut: nat)
    requires Passing(max, level, start0, start, size, rest0, rest, laid, first)
    requires size >= PageSize(level) && Aligned(start, level)
    requires cut == (if size - PageSize(level) < rest then rest - (size - PageSize(level)) else 0) <= PageSize(level)
    ensures laid > 0 ==> cut == 0
    ensures Passing(max, level - 1, start0, start + PageSize(level), size, rest0, rest - cut, laid + 1,
                    if laid == 0 then PageSize(level) else first)
  {
    PageSizeIsPositive(level);
    if level > 0 { SmallerBelow(level); }
  }

  lemma SmallerBelow(level: nat)
    requires level > 0
    ensures PageSize(level - 1) < PageSize(level)
  {
    PageSizeIsPositive(level - 1);
    AlignedIsDivisible(0, level - 1);
  }

  /** When no data belongs to later pages of the pass, every page gets what belongs on it. */
  lemma PassCuts(max: nat, level: nat, start0: nat, start: nat, size: nat, rest0: nat, rest: seq<char>, laid: nat,
      first: nat, length: nat)
    requires Passing(max, level, start0, start, size, rest0, |rest|, laid, first)
    requires size >= PageSize(level) && Aligned(start, level) && rest0 <= length
    requires Pages(max, start0, size) <= 1 || PassEnd(max, start0, size) + length <= start0 + size
    ensures CutRight(size, size - (start - start0), PageSize(level), rest)
  {
  }

  /** What a whole pass does with the data. */
  predicate Poured(max: nat, start: nat, next: nat, size: nat, rest0: nat, rest: nat) {
    && next == PassEnd(max, start, size) && rest <= rest0 <= size
    && (Pages(max, start, size) <= 1 ==> next <= start + size && rest == Least(rest0, start + size - next))
    && (Pages(max, start, size) >= 2 ==> rest == rest0 || rest > start + size - next)
  }

  lemma PassEnds(max: nat, start0: nat, start: nat, size: nat, rest0: nat, rest: nat, laid: nat, first: nat)
    requires Passing(max, -1, start0, start, size, rest0, rest, laid, first)
    requires Aligned(start0, 0) && size >= KILO_PAGE_SIZE
    ensures Poured(max, start0, start, size, rest0, rest) && laid == Pages(max, start0, size) > 0
    ensures size < MEGA_PAGE_SIZE ==> rest <= size - KILO_PAGE_SIZE
  {
    PassAdvances(max, start0, size);
    if size < MEGA_PAGE_SIZE { OnePageBelowMega(max, start0, size); }
  }

  /** The loop over the range before the pass at `start`; `right` while every pass could place its
      share of the data. */
  predicate Filling(max: nat, from: nat, end: nat, start: nat, length: nat, rest: nat, right: bool)
    requires Aligned(from, 0) && Aligned(end, 0)
  {
    && from <= start && Aligned(start, 0) && Finish(max, start, end) == Finish(max, from, end)
    && (start > from ==> length <= end - from)
    && (if right then
          && start <= end && rest == (if start == from then length else Least(length, end - start))
          && (Pourable(max, from, end, length) <==> Pourable(max, start, end, length))
        else rest > end - start && !Pourable(max, from, end, length))
  }

  lemma FillStarts(max: nat, from: nat, end: nat, length: nat)
    requires Aligned(from, 0) && Aligned(end, 0)
    ensures Filling(max, from, end, from, length, length, from <= end)
  {
  }

  lemma FillGoesOn(max: nat, from: nat, end: nat, start: nat, next: nat, length: nat, rest0: nat, rest: nat,
      right: bool)
    requires Aligned(from, 0) && Aligned(end, 0) && Filling(max, from, end, start, length, rest0, right) && start < end
    requires Poured(max, start, next, end - start, rest0, rest)
    ensures right && next > start && rest <= rest0
    ensures Filling(max, from, end, next, length, rest, Pages(max, start, end - start) <= 1 || next + length <= end)
    ensures end < from + MEGA_PAGE_SIZE ==> rest <= end - next
  {
    AlignedGap(start, end, 0);
    PassAdvances(max, start, end - start);
    if end < from + MEGA_PAGE_SIZE { OnePageBelowMega(max, start, end - start); }
  }

  /** What the next pass may rely on. */
  lemma NextPassIs(max: nat, from: nat, end: nat, start: nat, length: nat, rest: nat, right: bool)
    requires Aligned(from, 0) && Aligned(end, 0) && Filling(max, from, end, start, length, rest, right) && start < end
    ensures end - start >= KILO_PAGE_SIZE && Aligned(start, 0)
    ensures Pourable(max, from, end, length) ==>
      Pages(max, start, end - start) <= 1 || PassEnd(max, start, end - start) + length <= end
    ensures PassEnd(max, start, end - start) > start
  {
    AlignedGap(start, end, 0);
    PassAdvances(max, start, end - start);
  }

  lemma FillEnds(max: nat, from: nat, end: nat, start: nat, length: nat, rest: nat, right: bool)
    requires Aligned(from, 0) && Aligned(end, 0) && Filling(max, from, end, start, length, rest, right) && start >= end
    ensures start == Finish(max, from, end) && (Pourable(max, from, end, length) <==> right)
    ensures from < end ==> length <= end - from
  {
  }

  /** 2 MiB and 4 KiB from a boundary on are laid down exactly, but no byte of data can be placed. */
  lemma OnePassLosesData(max: nat, start: nat, length: nat)
    requires max >= 1 && start % MEGA_PAGE_SIZE == 0 && length > 0
    ensures var end := start + MEGA_PAGE_SIZE + KILO_PAGE_SIZE;
      Aligned(start, 0) && Aligned(end, 0) && Finish(max, start, end) == end && !Pourable(max, start, end, length)
  {
    hide PageSize, Aligned, Finish, Pourable, FirstMega, Overshoots, FitsBehind;
    var end := start + MEGA_PAGE_SIZE + KILO_PAGE_SIZE;
    MegaIsAligned(start);
    AlignedIsDivisible(end, 0);
    NothingBehind(start, end, length);
    ExactUnlessOvershoot(max, start, end);
    PourableBelowGiga(max, start, end, length);
  }

  lemma NothingBehind(start: nat, end: nat, length: nat)
    requires start % MEGA_PAGE_SIZE == 0 && end == start + MEGA_PAGE_SIZE + KILO_PAGE_SIZE && length > 0
    ensures end % KILO_PAGE_SIZE == 0 && !Overshoots(start, end) && !FitsBehind(start, end, length)
  {
    hide FirstMega, Overshoots, FitsFrom;
    OnePassEnd(start / MEGA_PAGE_SIZE);
    NeverOvershoots(start, end);
    LargeStep(start, end, length);
    MegaIsOwn(start);
  }

  lemma OnePassEnd(k: nat)
    ensures var end := k * MEGA_PAGE_SIZE + MEGA_PAGE_SIZE + KILO_PAGE_SIZE;
      end % MEGA_PAGE_SIZE == KILO_PAGE_SIZE && end % KILO_PAGE_SIZE == 0
  {
    var end := k * MEGA_PAGE_SIZE + MEGA_PAGE_SIZE + KILO_PAGE_SIZE;
    DivisionIsUnique(end, MEGA_PAGE_SIZE, k + 1, KILO_PAGE_SIZE);
    DivisionIsUnique(end, KILO_PAGE_SIZE, 512 * k + 513, 0);
  }

  lemma MegaIsOwn(start: nat)
    requires start % MEGA_PAGE_SIZE == 0
    ensures FirstMega(start) == start
  {
    RoundUpOfMultiple(start / MEGA_PAGE_SIZE, MEGA_PAGE_SIZE);
  }

  lemma MegaIsAligned(va: nat)
    requires va % MEGA_PAGE_SIZE == 0
    ensures Aligned(va, 0)
  {
    hide PageSize, Aligned;
    MegaIsLevelOne(1);
    AlignedIsDivisible(va, 1);
    AlignedBelow(va, 0, 1);
  }

  // ---------- what the new pages hold ----------

  /** Every new page is readable and writable and holds its slice of the image. */
  ghost predicate Imaged(objs: map<Cap, VirtPage>, pages: map<nat, Cap>, before: map<nat, Cap>, from: nat,
      image: seq<char>) {
    forall va {:trigger Holds(objs, pages[va], image, from, va)} :: va in pages && va !in before ==>
      Holds(objs, pages[va], image, from, va)
  }

  ghost predicate Holds(objs: map<Cap, VirtPage>, page: Cap, image: seq<char>, from: nat, va: nat) {
    && from <= va && page in objs && objs[page].perms == Perms(true, true, false)
    && var size := PageSize(objs[page].level);
    va - from + size <= |image| && objs[page].bytes == image[va - from..va - from + size]
  }

  lemma ImagedStep(k0: State, k1: State, a: TaskInfo, b: TaskInfo, m: Layout, before: map<nat, Cap>, from: nat,
      at: nat, image: seq<char>, page: Cap)
    requires Imaged(k0.pages, a.pages, before, from, image) && from <= at && PagesKept(k0.pages, k1.pages)
    requires b.pages == a.pages[at := page] && Holds(k1.pages, page, image, from, at)
    ensures Imaged(k1.pages, b.pages, before, from, image)
  {
    forall va | va in b.pages && va !in before ensures Holds(k1.pages, b.pages[va], image, from, va) {
      if va != at { assert Holds(k0.pages, a.pages[va], image, from, va); }
    }
  }

  /** The part of the data not yet placed, with `left` bytes of the image still to build. */
  ghost predicate Pouring(data: seq<char>, image: seq<char>, rest: seq<char>, done: nat, left: int) {
    && |data| <= |image| && image == TopFilled(|image|, data)
    && left >= 0 && done + left == |image|
    && |rest| == (if |data| <= left then |data| else left)
    && rest == data[|data| - |rest|..]
  }

  lemma TopFilledBytes(size: nat, data: seq<char>)
    requires |data| <= size
    ensures |TopFilled(size, data)| == size
    ensures forall k :: 0 <= k < size ==> TopFilled(size, data)[k] == FilledByte(size, data, k)
  {
  }

  function FilledByte(size: nat, data: seq<char>, k: nat): char
    requires |data| <= size && k < size
  {
    if k < size - |data| then '\0' else data[k - (size - |data|)]
  }

  lemma SliceByte(size: nat, data: seq<char>, rest: seq<char>, done: nat, page: nat, k: nat)
    requires |data| <= size && done + page <= size && k < page
    requires |rest| == (if |data| <= size - done then |data| else size - done) && rest == data[|data| - |rest|..]
    ensures var cut := Cut(size - done, page, rest);
      cut <= page && FilledByte(page, rest[..cut], k) == FilledByte(size, data, done + k)
  {
  }

  /** The page that receives the next piece of the data holds the next slice of the image. */
  lemma NextSlice(image: seq<char>, data: seq<char>, rest: seq<char>, done: nat, size: nat)
    requires done + size <= |image| && Pouring(data, image, rest, done, |image| - done)
    ensures var left := |image| - done;
      var cut := Cut(left, size, rest);
      && cut <= size
      && TopFilled(size, rest[..cut]) == image[done..done + size]
      && Pouring(data, image, rest[cut..], done + size, left - size)
  {
    hide TopFilled;
    var left := |image| - done;
    var cut := Cut(left, size, rest);
    var page := TopFilled(size, rest[..cut]);
    TopFilledBytes(size, rest[..cut]);
    TopFilledBytes(|image|, data);
    var slice := image[done..done + size];
    forall k | 0 <= k < size ensures page[k] == slice[k] {
      SliceByte(|image|, data, rest, done, size, k);
      assert slice[k] == image[done + k] == FilledByte(|image|, data, done + k);
    }
    assert |page| == |slice| && page == slice;
  }

  /** In the end each address of the grown range reads its byte of the image. */
  lemma ImageIsRead(k: State, info: TaskInfo, m: Layout, before: map<nat, Cap>, from: nat, to: nat, image: seq<char>,
      va: nat)
    requires Wf(k) && SpaceOk(k, info, m) && Imaged(k.pages, info.pages, before, from, image)
    requires Covered(k.pages, info.pages, before, from, to) && from <= va < to && to - from <= |image|
    ensures Load(k, Root(info, m), m.max, va) == Some(image[va - from])
  {
    hide Wf, PageSize;
    assert CoveredAt(k.pages, info.pages, before, va);
    var base :| base in info.pages && NewAround(k.pages, info.pages, before, base, va);
    assert Holds(k.pages, info.pages[base], image, from, base);
    assert PageEntryOk(k, info, m, base);
    InsidePage(base, k.pages[info.pages[base]].level, va);
    RecordedTranslates(k, info, m, base, va);
  }

  lemma ZeroIsRead(k: State, info: TaskInfo, m: Layout, to: nat)
    requires Wf(k) && SpaceOk(k, info, m) && ZeroEnd(k.pages, info.pages, to)
    ensures to > 0 && Load(k, Root(info, m), m.max, to - 1) == Some('\0')
  {
    var va :| va in info.pages && EndsWithZeros(k.pages, info.pages[va], va, to);
    assert PageEntryOk(k, info, m, va);
    PageSizeIsPositive(k.pages[info.pages[va]].level);
    InsidePage(va, k.pages[info.pages[va]].level, to - 1);
    RecordedTranslates(k, info, m, va, to - 1);
  }

  /** The page that ends at `to` holds zeros. */
  ghost predicate ZeroEnd(objs: map<Cap, VirtPage>, pages: map<nat, Cap>, to: nat) {
    exists va :: va in pages && EndsWithZeros(objs, pages[va], va, to)
  }

  ghost predicate EndsWithZeros(objs: map<Cap, VirtPage>, page: Cap, va: nat, to: nat) {
    && page in objs && va + PageSize(objs[page].level) == to
    && objs[page].bytes == Zeros(PageSize(objs[page].level))
  }

  // ---------- which addresses are covered ----------

  /** New pages, of whatever sizes, cover exactly [from, to). */
  ghost predicate Covered(objs: map<Cap, VirtPage>, pages: map<nat, Cap>, before: map<nat, Cap>, from: nat, to: nat) {
    && (forall va :: va in before ==> va in pages && pages[va] == before[va])
    && (forall va :: va in pages && va !in before ==> from <= va && va + SizeOf(objs, pages[va]) <= to)
    && (forall x :: from <= x < to ==> CoveredAt(objs, pages, before, x))
  }

  ghost predicate CoveredAt(objs: map<Cap, VirtPage>, pages: map<nat, Cap>, before: map<nat, Cap>, x: nat) {
    exists va :: va in pages && NewAround(objs, pages, before, va, x)
  }

  ghost predicate NewAround(objs: map<Cap, VirtPage>, pages: map<nat, Cap>, before: map<nat, Cap>, va: nat, x: nat)
    requires va in pages
  {
    va !in before && va <= x < va + SizeOf(objs, pages[va])
  }

  /** Recorded pages end inside the address space, so a first stack that overshoots the end of
      the space can never be completed. */
  lemma CoveredStaysInside(k: State, info: TaskInfo, m: Layout, before: map<nat, Cap>, from: nat, to: nat)
    requires SpaceOk(k, info, m) && Covered(k.pages, info.pages, before, from, to) && from < to
    ensures to <= m.end
  {
    assert CoveredAt(k.pages, info.pages, before, to - 1);
    var va :| va in info.pages && NewAround(k.pages, info.pages, before, va, to - 1);
    assert PageEntryOk(k, info, m, va);
  }

  /** In particular the default stack, asked for in full, overshoots. */
  lemma FullDefaultStackOvershoots(end: nat)
    requires end % MEGA_PAGE_SIZE == 0 && end >= MEGA_PAGE_SIZE
    ensures Overshoots(end - MEGA_PAGE_SIZE, end)
  {
    RoundUpOfMultiple(end / MEGA_PAGE_SIZE - 1, MEGA_PAGE_SIZE);
  }

  lemma CoveredStep(k0: State, k1: State, a: TaskInfo, b: TaskInfo, m: Layout, before: map<nat, Cap>, from: nat,
      to: nat, page: Cap)
    requires SpaceOk(k0, a, m) && Covered(k0.pages, a.pages, before, from, to) && from <= to
      && PagesKept(k0.pages, k1.pages)
    requires to !in a.pages && b.pages == a.pages[to := page] && page in k1.pages
    ensures Covered(k1.pages, b.pages, before, from, to + PageSize(k1.pages[page].level))
  {
    forall va | va in a.pages ensures SizeOf(k1.pages, a.pages[va]) == SizeOf(k0.pages, a.pages[va]) {
      assert PageEntryOk(k0, a, m, va);
    }
    forall x | from <= x < to + PageSize(k1.pages[page].level) ensures CoveredAt(k1.pages, b.pages, before, x) {
      if x < to {
        assert CoveredAt(k0.pages, a.pages, before, x);
        var va :| va in a.pages && NewAround(k0.pages, a.pages, before, va, x);
        assert NewAround(k1.pages, b.pages, before, va, x);
      } else {
        assert NewAround(k1.pages, b.pages, before, to, x);
      }
    }
  }

  // ---------- room for small pages ----------

  /** No recorded page meets [at, end). */
  ghost predicate Clear(objs: map<Cap, VirtPage>, pages: map<nat, Cap>, at: nat, end: nat) {
    forall va :: va in pages ==> va + SizeOf(objs, pages[va]) <= at || end <= va
  }

  lemma ClearIsFree(k: State, info: TaskInfo, m: Layout, at: nat, end: nat)
    requires SpaceOk(k, info, m) && Clear(k.pages, info.pages, at, end) && at < end
    ensures at !in info.pages && Uncovered(k, info, at)
  {
    if at in info.pages {
      assert PageEntryOk(k, info, m, at);
      PageSizeIsPositive(k.pages[info.pages[at]].level);
    }
  }

  lemma ClearIsKept(k0: State, k1: State, a: TaskInfo, b: TaskInfo, m: Layout, at: nat, end: nat)
    requires SpaceOk(k0, a, m) && Clear(k0.pages, a.pages, at, end) && PagesKept(k0.pages, k1.pages)
      && b.pages == a.pages
    ensures Clear(k1.pages, b.pages, at, end)
  {
    forall va | va in a.pages ensures SizeOf(k1.pages, a.pages[va]) == SizeOf(k0.pages, a.pages[va]) {
      assert PageEntryOk(k0, a, m, va);
    }
  }

  lemma ClearStep(k0: State, k1: State, a: TaskInfo, b: TaskInfo, m: Layout, at: nat, end: nat, page: Cap)
    requires SpaceOk(k0, a, m) && Clear(k0.pages, a.pages, at, end) && PagesKept(k0.pages, k1.pages)
    requires b.pages == a.pages[at := page] && page in k1.pages && k1.pages[page].level == 0
    ensures Clear(k1.pages, b.pages, at + KILO_PAGE_SIZE, end)
  {
    forall va | va in a.pages ensures SizeOf(k1.pages, a.pages[va]) == SizeOf(k0.pages, a.pages[va]) {
      assert PageEntryOk(k0, a, m, va);
    }
  }

  // ---------- the loop's progress ----------

  /** One grow_stack request: the pages before it, where its range starts, its data, and
      whether the data can be placed. */
  datatype Job = Job(before: map<nat, Cap>, from: nat, data: seq<char>, image: seq<char>, fits: bool)

  ghost predicate Progress(objs: map<Cap, VirtPage>, pages: map<nat, Cap>, job: Job, at: nat, rest: seq<char>,
      left: int) {
    && job.from <= at && Aligned(at, 0) && Aligned(job.from, 0)
    && Covered(objs, pages, job.before, job.from, at)
    && (job.fits ==>
          && Imaged(objs, pages, job.before, job.from, job.image)
          && Pouring(job.data, job.image, rest, at - job.from, left))
  }

  /** How much of the data a page gets, where `left` bytes of the range are thought to remain. */
  function Cut(left: int, pageSize: nat, rest: seq<char>): (cut: nat)
    requires pageSize <= left
    ensures cut <= |rest|
  {
    if left - pageSize < |rest| then |rest| - (left - pageSize) else 0
  }

  /** The page gets what belongs on it: the size is the true one, or no data belongs there. */
  predicate CutRight(size: nat, left: int, pageSize: nat, rest: seq<char>) {
    pageSize <= left <= size && (left == size || |rest| <= left - pageSize)
  }

  lemma ProgressStep(k0: State, k1: State, a: TaskInfo, b: TaskInfo, m: Layout, job: Job, at: nat, level: nat,
      rest: seq<char>, size: nat, left: int, page: Cap)
    requires Progress(k0.pages, a.pages, job, at, rest, left) && SpaceOk(k0, a, m) && PagesKept(k0.pages, k1.pages)
    requires Aligned(at, level) && PageSize(level) <= size && (job.fits ==> CutRight(size, left, PageSize(level), rest))
    requires at !in a.pages && b.pages == a.pages[at := page]
    requires Cut(size, PageSize(level), rest) <= PageSize(level)
    requires NewPage(k0.pages, k1.pages, page, level, READ_WRITE,
                     TopFilled(PageSize(level), rest[..Cut(size, PageSize(level), rest)]))
    ensures var cut := Cut(size, PageSize(level), rest);
      Progress(k1.pages, b.pages, job, at + PageSize(level), rest[cut..], left - PageSize(level))
  {
    hide Covered, Imaged, Pouring, SpaceOk, PagesKept, TopFilled, PageSize, Aligned;
    CoveredStep(k0, k1, a, b, m, job.before, job.from, at, page);
    NextPage(at, level);
    AlignedBelow(at + PageSize(level), 0, level);
    if job.fits {
      SliceStep(job, rest, at, PageSize(level), left);
      ImagedStep(k0, k1, a, b, m, job.before, job.from, at, job.image, page);
    }
  }

  lemma SliceStep(job: Job, rest: seq<char>, at: nat, size: nat, left: int)
    requires job.from <= at && Pouring(job.data, job.image, rest, at - job.from, left) && size <= left
    ensures var cut := Cut(left, size, rest);
      && cut <= size && at - job.from + size <= |job.image|
      && TopFilled(size, rest[..cut]) == job.image[at - job.from..at - job.from + size]
      && Pouring(job.data, job.image, rest[cut..], at + size - job.from, left - size)
  {
    hide TopFilled;
    NextSlice(job.image, job.data, rest, at - job.from, size);
  }

  lemma PlaceIsAligned(objs: map<Cap, VirtPage>, pages: map<nat, Cap>, job: Job, at: nat, rest: seq<char>, left: int)
    requires Progress(objs, pages, job, at, rest, left)
    ensures Aligned(at, 0)
  {
  }

  lemma ProgressEnds(objs: map<Cap, VirtPage>, pages: map<nat, Cap>, job: Job, at: nat)
    requires exists rest, left :: Progress(objs, pages, job, at, rest, left)
    ensures Covered(objs, pages, job.before, job.from, at)
    ensures job.fits ==> Imaged(objs, pages, job.before, job.from, job.image)
  {
  }

  /** Before the first page nothing has been laid down. */
  lemma ProgressStart(objs: map<Cap, VirtPage>, pages: map<nat, Cap>, job: Job, left: int)
    requires Aligned(job.from, 0) && job.before == pages
    requires job.fits ==> |job.data| <= left == |job.image| && job.image == TopFilled(left, job.data)
    ensures Progress(objs, pages, job, job.from, job.data, left)
  {
  }
}
