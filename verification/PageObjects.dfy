/** Page objects before and after an operation. */
module PageObjects {
  import opened Kernel

  ghost predicate PagesKeptBut(before: map<Cap, VirtPage>, after: map<Cap, VirtPage>, page: Cap) {
    forall p :: p in before && p != page ==> p in after && after[p] == before[p]
  }

  ghost predicate PagesKept(before: map<Cap, VirtPage>, after: map<Cap, VirtPage>) {
    forall p :: p in before ==> p in after && after[p] == before[p]
  }

  /** Only `page` changed, and of it only where it is mapped and with what permissions. */
  ghost predicate OnePageChanged(before: map<Cap, VirtPage>, after: map<Cap, VirtPage>, page: Cap, perms: Perms) {
    && page in before && page in after && after[page].spot.At?
    && after == before[page := before[page].(perms := perms, spot := after[page].spot)]
  }

  ghost predicate NewPage(before: map<Cap, VirtPage>, after: map<Cap, VirtPage>, page: Cap, level: nat, perms: Perms,
      bytes: seq<char>) {
    && page !in before && page in after && after[page].spot.At?
    && after[page] == VirtPage(level, perms, after[page].spot, bytes)
  }

  const READ_WRITE := Perms(true, true, false)

  /** A page of zeros whose last bytes are the data. */
  function TopFilled(size: nat, data: seq<char>): seq<char>
    requires |data| <= size
  {
    Zeros(size - |data|) + data
  }
}
