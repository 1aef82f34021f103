/** Page sizes and the way a virtual address is cut into table indices.
    Level 0 is a 4 KiB page and every level above it is 512 times larger,
    as in Sv39 (section 4.4 of the RISC-V Privileged Specification v1.12).
    Everything is built from division by the constants 4096 and 512. */
module Paging {
  const KILO_PAGE: nat := 0
  const KILO_PAGE_SIZE: nat := 4096
  const MEGA_PAGE_SIZE: nat := 0x20_0000
  const ENTRIES: nat := 512

  /** The size of n pages of a level. */
  function Scale(n: nat, level: nat): nat
    decreases level
  {
    if level == 0 then 4096 * n else Scale(512 * n, level - 1)
  }

  function PageSize(level: nat): nat {
    Scale(1, level)
  }

  function PageNumber(va: nat, level: nat): nat {
    if level == 0 then va / 4096 else PageNumber(va, level - 1) / 512
  }

  /** The start of the page of the given level around va. A table of level l covers
      one page of level l + 1, so its base is PageBase(va, l + 1). */
  function PageBase(va: nat, level: nat): nat {
    Scale(PageNumber(va, level), level)
  }

  predicate Aligned(va: nat, level: nat) {
    PageBase(va, level) == va
  }

  /** The slot that va uses in a table of the given level. */
  function Index(va: nat, level: nat): (index: nat)
    ensures index < ENTRIES
  {
    PageNumber(va, level) % 512
  }

  /** The address that slot `index` of a table at `base` translates. */
  function SlotAddress(base: nat, level: nat, index: nat): nat {
    base + Scale(index, level)
  }

  lemma {:induction false} ScaleAdds(a: nat, b: nat, level: nat)
    ensures Scale(a + b, level) == Scale(a, level) + Scale(b, level)
    decreases level
  {
    if level > 0 {
      ScaleAdds(512 * a, 512 * b, level - 1);
    }
  }

  lemma {:induction false} PageSizeIsPositive(level: nat)
    ensures PageSize(level) >= KILO_PAGE_SIZE
    ensures PageSize(level + 1) == Scale(512, level)
  {
    if level > 0 {
      ScaleAdds(511, 1, level - 1);
      PageSizeIsPositive(level - 1);
    }
  }

  /** Different page numbers are a whole page apart. */
  lemma ScaleGap(a: nat, b: nat, level: nat)
    requires a < b
    ensures Scale(a, level) + PageSize(level) <= Scale(b, level)
  {
    ScaleAdds(a, 1, level);
    ScaleAdds(a + 1, b - a - 1, level);
  }

  lemma {:induction false} BaseOfPage(va: nat, level: nat)
    ensures PageBase(va, level) <= va < PageBase(va, level) + PageSize(level)
  {
    PageSizeIsPositive(level);
    if level > 0 {
      BaseOfPage(va, level - 1);
      var n, c := PageNumber(va, level), PageNumber(va, level - 1) % 512;
      ScaleAdds(512 * n, c, level - 1);
      ScaleGap(c, 512, level - 1);
    }
  }

  /** The page number is the one whose page holds the address. */
  lemma PageNumberIsUnique(n: nat, level: nat, va: nat)
    requires Scale(n, level) <= va < Scale(n, level) + PageSize(level)
    ensures PageNumber(va, level) == n
  {
    BaseOfPage(va, level);
    var q := PageNumber(va, level);
    if q < n {
      ScaleGap(q, n, level);
    } else if n < q {
      ScaleGap(n, q, level);
    }
  }

  lemma InsidePage(base: nat, level: nat, va: nat)
    requires Aligned(base, level) && base <= va < base + PageSize(level)
    ensures PageBase(va, level) == base
    ensures PageNumber(va, level) == PageNumber(base, level)
  {
    PageNumberIsUnique(PageNumber(base, level), level, va);
  }

  lemma BaseIsAligned(va: nat, level: nat)
    ensures Aligned(PageBase(va, level), level)
  {
    PageSizeIsPositive(level);
    PageNumberIsUnique(PageNumber(va, level), level, PageBase(va, level));
  }

  lemma ZeroIsAligned(level: nat)
    ensures Aligned(0, level)
  {
    ScaleAdds(0, 0, level);
    PageSizeIsPositive(level);
    PageNumberIsUnique(0, level, 0);
  }

  /** Splitting: the base at one level is the base one level up plus the slot's offset. */
  lemma SplitAddress(va: nat, level: nat)
    ensures PageBase(va, level) == SlotAddress(PageBase(va, level + 1), level, Index(va, level))
  {
    var n, c := PageNumber(va, level + 1), Index(va, level);
    ScaleAdds(512 * n, c, level);
  }

  /** Joining: the address of a slot is cut back into that slot and that base. */
  lemma JoinAddress(base: nat, level: nat, index: nat)
    requires Aligned(base, level + 1) && index < ENTRIES
    ensures var va := SlotAddress(base, level, index);
      && Index(va, level) == index
      && PageBase(va, level + 1) == base
      && Aligned(va, level)
      && va + PageSize(level) <= base + PageSize(level + 1)
  {
    var n := PageNumber(base, level + 1);
    ScaleAdds(512 * n, index, level);
    PageSizeIsPositive(level);
    PageNumberIsUnique(512 * n + index, level, SlotAddress(base, level, index));
    ScaleGap(index, 512, level);
  }

  /** Addresses in one page share every upper page. */
  lemma {:induction false} SameUpperPage(a: nat, b: nat, level: nat, up: nat)
    requires level <= up && PageNumber(a, level) == PageNumber(b, level)
    ensures PageNumber(a, up) == PageNumber(b, up)
  {
    if level < up {
      SameUpperPage(a, b, level, up - 1);
    }
  }

  lemma UpperPartKept(va: nat, level: nat, up: nat)
    requires level <= up
    ensures PageBase(PageBase(va, level), up) == PageBase(va, up)
    ensures Index(PageBase(va, level), up) == Index(va, up)
  {
    BaseIsAligned(va, level);
    BaseOfPage(va, level);
    PageSizeIsPositive(level);
    PageNumberIsUnique(PageNumber(va, level), level, PageBase(va, level));
    SameUpperPage(PageBase(va, level), va, level, up);
  }

  lemma {:induction false} AlignedBelow(va: nat, level: nat, up: nat)
    requires level <= up && Aligned(va, up)
    ensures Aligned(va, level)
    decreases up
  {
    if level < up {
      var n := PageNumber(va, up);
      PageSizeIsPositive(up - 1);
      PageNumberIsUnique(512 * n, up - 1, va);
      AlignedBelow(va, level, up - 1);
    }
  }

  lemma {:induction false} PageSizeGrows(level: nat, up: nat)
    requires level <= up
    ensures PageSize(level) <= PageSize(up)
  {
    if level < up {
      PageSizeGrows(level, up - 1);
      ScaleAdds(511, 1, up - 1);
    }
  }

  lemma NextPage(base: nat, level: nat)
    requires Aligned(base, level)
    ensures Aligned(base + PageSize(level), level)
  {
    var n := PageNumber(base, level);
    ScaleAdds(n, 1, level);
    PageSizeIsPositive(level);
    PageNumberIsUnique(n + 1, level, base + PageSize(level));
  }

  lemma AlignedGap(a: nat, b: nat, level: nat)
    requires Aligned(a, level) && Aligned(b, level) && a < b
    ensures a + PageSize(level) <= b
  {
    if PageNumber(a, level) < PageNumber(b, level) {
      ScaleGap(PageNumber(a, level), PageNumber(b, level), level);
    } else if PageNumber(b, level) < PageNumber(a, level) {
      ScaleGap(PageNumber(b, level), PageNumber(a, level), level);
    }
  }

  // ---------- the same notions in the usual arithmetic ----------

  lemma {:induction false} ScaleIsProduct(n: nat, level: nat)
    ensures Scale(n, level) == n * PageSize(level)
  {
    if n > 0 {
      ScaleIsProduct(n - 1, level);
      ScaleAdds(n - 1, 1, level);
    } else {
      ScaleAdds(0, 0, level);
    }
  }

  /** Alignment is divisibility by the page size, and 512 pages make the next size. */
  lemma AlignedIsDivisible(va: nat, level: nat)
    ensures PageSize(level) > 0 && (Aligned(va, level) <==> va % PageSize(level) == 0)
    ensures PageSize(level + 1) == 512 * PageSize(level) && PageSize(0) == 4096
  {
    var p := PageSize(level);
    PageSizeIsPositive(level);
    ScaleIsProduct(512, level);
    ScaleIsProduct(PageNumber(va, level), level);
    ScaleIsProduct(va / p, level);
    if va % p == 0 {
      PageNumberIsUnique(va / p, level, va);
    } else if Aligned(va, level) {
      DivisionIsUnique(va, p, PageNumber(va, level), 0);
    }
  }

  /** Cutting an address is division by the page size. */
  lemma CutIsDivision(va: nat, level: nat)
    ensures PageSize(level) > 0 && PageSize(level) == Scale(1, level)
    ensures PageBase(va, level) == va - va % PageSize(level) && Index(va, level) == va / PageSize(level) % 512
  {
    hide PageNumber;
    var p := PageSize(level);
    PageSizeIsPositive(level);
    ScaleIsProduct(va / p, level);
    PageNumberIsUnique(va / p, level, va);
  }

  // ---------- rounding ----------

  function RoundUp(value: nat, align: nat): (r: nat)
    requires align > 0
    ensures value <= r < value + align && r % align == 0
  {
    RoundingIsTight(value, align);
    (value + align - 1) / align * align
  }

  lemma RoundingIsTight(value: nat, align: nat)
    requires align > 0
    ensures value <= (value + align - 1) / align * align < value + align
    ensures (value + align - 1) / align * align % align == 0
  {
    var q := (value + align - 1) / align;
    assert q * align + (value + align - 1) % align == value + align - 1;
    DivisionIsUnique(q * align, align, q, 0);
  }

  lemma RoundUpIsLeast(value: nat, align: nat, c: nat)
    requires align > 0 && c % align == 0 && value <= c
    ensures RoundUp(value, align) <= c
  {
    var r := RoundUp(value, align);
    if c < r {
      assert c == c / align * align && r == r / align * align;
      Gap(c / align, r / align, align);
    }
  }

  lemma RoundUpOfMultiple(n: nat, align: nat)
    requires align > 0
    ensures RoundUp(n * align, align) == n * align
  {
    DivisionIsUnique(n * align + align - 1, align, n, align - 1);
  }

  lemma Gap(a: int, b: int, d: nat)
    requires a < b
    ensures a * d + d <= b * d
  {
    var gap := b - a - 1;
    assert 0 <= gap * d;
    assert (a + 1 + gap) * d == a * d + d + gap * d;
  }

  lemma DivisionIsUnique(x: nat, d: nat, q: nat, r: nat)
    requires r < d && x == q * d + r
    ensures x / d == q && x % d == r
  {
    var q' := x / d;
    assert x == d * q' + x % d;
    assert d * q' == q' * d;
    if q' < q {
      Gap(q', q, d);
    } else if q' > q {
      Gap(q, q', d);
    }
  }
}
