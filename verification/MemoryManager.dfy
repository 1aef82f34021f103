/** Physical memory: registered regions and the best-fit choice of the one that serves a
    request. The kernel hands out memory from a region front to back. */
module MemoryManagers {
  import opened Paging

  type Cap = nat

  datatype Region = Region(cap: Cap, addr: nat, size: nat)

  datatype Grant = Grant(region: Region, base: nat, size: nat, alignment: nat)

  datatype Fetched = NoMemory | Granted(grant: Grant)

  /** Where the kernel would place the next object of a region. */
  function Base(r: Region, used: nat, alignment: nat): (base: nat)
    requires alignment > 0
    ensures r.addr + used <= base && base % alignment == 0
  {
    RoundUp(r.addr + used, alignment)
  }

  predicate Fits(r: Region, used: map<Cap, nat>, size: nat, alignment: nat)
    requires alignment > 0
  {
    r.cap in used
    && var base := Base(r, used[r.cap], alignment);
    base < r.addr + r.size && base + size <= r.addr + r.size
  }

  /** Regions are kept in the order of their addresses. */
  predicate Ordered(a: Region, b: Region) {
    a.addr < b.addr && a.cap != b.cap
  }

  predicate Disjoint(a: Region, b: Region) {
    a.addr + a.size <= b.addr || b.addr + b.size <= a.addr
  }

  predicate Apart(a: Grant, b: Grant) {
    a.base + a.size <= b.base || b.base + b.size <= a.base
  }

  /** Two grants are apart, unless they come from two regions that overlap. */
  predicate Separate(a: Grant, b: Grant) {
    a.region == b.region || Disjoint(a.region, b.region) ==> Apart(a, b)
  }

  /** `best` is the smallest region that fits, and the lowest of those. */
  ghost predicate BestFit(ram: seq<Region>, used: map<Cap, nat>, size: nat, alignment: nat, best: nat)
    requires alignment > 0
  {
    && best < |ram|
    && Fits(ram[best], used, size, alignment)
    && forall i :: 0 <= i < |ram| && i != best && Fits(ram[i], used, size, alignment) ==>
         ram[best].size < ram[i].size || (ram[best].size == ram[i].size && ram[best].addr < ram[i].addr)
  }

  lemma OneRegionPerCap(ram: seq<Region>, r: Region)
    requires r in ram && forall i, j :: 0 <= i < j < |ram| ==> Ordered(ram[i], ram[j])
    ensures forall other :: other in ram && other.cap == r.cap ==> other == r
  {
    forall other | other in ram && other.cap == r.cap ensures other == r {
      var i :| 0 <= i < |ram| && ram[i] == r;
      var j :| 0 <= j < |ram| && ram[j] == other;
      CapsDiffer(ram, i, j);
    }
  }

  lemma CapsDiffer(ram: seq<Region>, i: nat, j: nat)
    requires i < |ram| && j < |ram| && forall i, j :: 0 <= i < j < |ram| ==> Ordered(ram[i], ram[j])
    ensures ram[i].cap == ram[j].cap ==> i == j
  {
    if i != j { assert Ordered(ram[if i < j then i else j], ram[if i < j then j else i]); }
  }

  lemma BestFitFits(ram: seq<Region>, used: map<Cap, nat>, size: nat, alignment: nat, best: nat)
    requires alignment > 0 && BestFit(ram, used, size, alignment, best)
    ensures best < |ram| && ram[best].cap in used
    ensures Base(ram[best], used[ram[best].cap], alignment) + size <= ram[best].addr + ram[best].size
  {
  }

  /** A region with a place for the request is one that fits. */
  lemma AllPlaces(ram: seq<Region>, used: map<Cap, nat>, size: nat, align: nat)
    requires align > 0
    ensures forall h: Grant | h.region in ram && h.region.cap in used && h.base % align == 0
      && h.region.addr + used[h.region.cap] <= h.base < h.region.addr + h.region.size
      && h.base + size <= h.region.addr + h.region.size ::
        Fits(h.region, used, size, align) && exists i :: 0 <= i < |ram| && ram[i] == h.region
  {
    forall h: Grant | h.region in ram && h.region.cap in used && h.base % align == 0
      && h.region.addr + used[h.region.cap] <= h.base < h.region.addr + h.region.size
      && h.base + size <= h.region.addr + h.region.size
      ensures Fits(h.region, used, size, align)
    {
      RoundUpIsLeast(h.region.addr + used[h.region.cap], align, h.base);
    }
  }

  lemma BestInNumbers(ram: seq<Region>, used: map<Cap, nat>, size: nat, align: nat, best: nat)
    requires align > 0 && BestFit(ram, used, size, align, best)
    ensures best < |ram| && ram[best] in ram && ram[best].cap in used
    ensures var r := ram[best];
      var base := Base(r, used[r.cap], align);
      && r.addr + used[r.cap] <= base < r.addr + used[r.cap] + align && base < r.addr + r.size
    ensures forall i :: 0 <= i < |ram| && Fits(ram[i], used, size, align) ==>
      ram[best].size < ram[i].size || (ram[best].size == ram[i].size && ram[best].addr <= ram[i].addr)
  {
  }

  function Insert(ram: seq<Region>, at: nat, r: Region): (after: seq<Region>)
    requires at <= |ram|
    ensures |after| == |ram| + 1
    ensures forall i :: 0 <= i < |after| ==> after[i] == if i < at then ram[i] else if i == at then r else ram[i - 1]
  {
    ram[..at] + [r] + ram[at..]
  }

  lemma InsertKeepsOrder(ram: seq<Region>, at: nat, r: Region)
    requires at <= |ram| && forall i, j :: 0 <= i < j < |ram| ==> Ordered(ram[i], ram[j])
    requires forall i :: 0 <= i < at ==> Ordered(ram[i], r)
    requires forall i :: at <= i < |ram| ==> Ordered(r, ram[i])
    ensures forall i, j :: 0 <= i < j < |ram| + 1 ==> Ordered(Insert(ram, at, r)[i], Insert(ram, at, r)[j])
  {
  }

  lemma InsertAddsOne(ram: seq<Region>, at: nat, r: Region)
    requires at <= |ram|
    ensures multiset(Insert(ram, at, r)) == multiset(ram) + multiset{r}
    ensures forall x :: x in Insert(ram, at, r) <==> x in ram || x == r
  {
    assert ram == ram[..at] + ram[at..];
    assert forall x :: x in Insert(ram, at, r) <==> x in multiset(Insert(ram, at, r));
  }

  class MemoryManager {
    /** ram_mem_caps in the order of its keys. */
    var ram: seq<Region>
    var dev: seq<Region>
    /** used_size of every region, kept by the kernel. */
    var used: map<Cap, nat>
    ghost var grants: seq<Grant>

    ghost predicate Valid()
      reads this
    {
      && (forall i, j :: 0 <= i < j < |ram| ==> Ordered(ram[i], ram[j]))
      && (forall r :: r in ram ==> r.cap in used && used[r.cap] <= r.size && r.cap != 0)
      && (forall g :: g in grants ==> GrantOk(g))
      && (forall i, j :: 0 <= i < j < |grants| ==> Separate(grants[i], grants[j]))
    }

    /** Aligned, inside a registered region, and below what the kernel counts as used. */
    ghost predicate GrantOk(g: Grant)
      reads this
    {
      && g.region in ram && g.region.cap in used
      && g.alignment > 0 && g.base % g.alignment == 0
      && g.region.addr <= g.base && g.base + g.size <= g.region.addr + used[g.region.cap]
    }

    constructor ()
      ensures Valid() && ram == [] && dev == [] && grants == []
    {
      ram, dev, used, grants := [], [], map[], [];
    }

    predicate Starts(regions: seq<Region>, addr: nat) {
      exists i :: 0 <= i < |regions| && regions[i].addr == addr
    }

    /** Registers a region the kernel reports under a new capability; an assertion stops a second
        region with the same start. */
    method Register(r: Region, device: bool) returns (ok: bool)
      requires Valid() && r.cap != 0 && forall i :: 0 <= i < |ram| ==> ram[i].cap != r.cap
      modifies this`ram, this`dev, this`used
      ensures Valid()
      ensures device ==> (ok <==> forall x :: x in old(dev) ==> x.addr != r.addr)
      ensures !device ==> (ok <==> forall x :: x in old(ram) ==> x.addr != r.addr)
      ensures !ok ==> ram == old(ram) && dev == old(dev) && used == old(used)
      ensures ok && device ==> ram == old(ram) && used == old(used) && dev == old(dev) + [r]
      ensures ok && !device ==>
        dev == old(dev) && multiset(ram) == multiset(old(ram)) + multiset{r} && used == old(used)[r.cap := 0]
    {
      hide Separate, Fits, BestFit, Ordered;
      ok := !Starts(if device then dev else ram, r.addr);
      if !ok { return; }
      if device {
        dev := dev + [r];
        return;
      }
      AddRam(r);
    }

    /** ram_mem_caps gains a region, at its place in the order of addresses. */
    method AddRam(r: Region)
      requires Valid() && r.cap != 0 && !Starts(ram, r.addr) && forall i :: 0 <= i < |ram| ==> ram[i].cap != r.cap
      modifies this`ram, this`used
      ensures Valid() && multiset(ram) == multiset(old(ram)) + multiset{r} && used == old(used)[r.cap := 0]
    {
      hide Insert, Separate, Disjoint, Apart, Fits, BestFit;
      var at := 0;
      while at < |ram| && ram[at].addr < r.addr
        invariant 0 <= at <= |ram|
        invariant forall i :: 0 <= i < at ==> ram[i].addr < r.addr
      {
        at := at + 1;
      }
      forall i | at <= i < |ram| ensures Ordered(r, ram[i]) {
        if at < i { assert Ordered(ram[at], ram[i]); }
      }
      InsertKeepsOrder(ram, at, r);
      InsertAddsOne(ram, at, r);
      ghost var all := ram;
      ram := Insert(ram, at, r);
      assert forall x :: x in all ==> x in ram;
      used := used[r.cap := 0];
      forall g | g in grants ensures GrantOk(g) {
        assert old(GrantOk(g));
      }
    }

    /** The scan of fetch_mem_cap. */
    method Choose(size: nat, align: nat) returns (found: bool, best: nat)
      requires Valid() && align > 0
      ensures found ==> BestFit(ram, used, size, align, best)
      ensures !found ==> forall i :: 0 <= i < |ram| ==> !Fits(ram[i], used, size, align)
    {
      var bestSize: nat := 0;
      best := |ram|;
      for i := 0 to |ram|
        invariant bestSize == 0 ==> forall j :: 0 <= j < i ==> !Fits(ram[j], used, size, align)
        invariant bestSize > 0 ==> best < i && bestSize == ram[best].size && Fits(ram[best], used, size, align)
        invariant bestSize > 0 ==> forall j :: 0 <= j < i && j != best && Fits(ram[j], used, size, align) ==>
          bestSize < ram[j].size || (bestSize == ram[j].size && ram[best].addr < ram[j].addr)
      {
        var r := ram[i];
        if r.size < size { continue; }
        var base := Base(r, used[r.cap], align);
        if base >= r.addr + r.size { continue; }
        var rem := r.size - (base - r.addr);
        if rem >= size && (bestSize == 0 || bestSize > r.size) {
          best, bestSize := i, r.size;
        }
      }
      found := bestSize > 0;
    }

    /** fetch_mem_cap: the best fit is chosen, and the kernel places the object in it. */
    method Fetch(size: nat, alignment: nat) returns (result: Fetched)
      requires Valid()
      modifies this`used, this`grants
      ensures Valid()
      ensures var align := if alignment == 0 then 1 else alignment;
        match result
        case NoMemory =>
          && (forall i :: 0 <= i < |ram| ==> !Fits(ram[i], old(used), size, align))
          && used == old(used) && grants == old(grants)
        case Granted(g) =>
          && g.region.cap in old(used)
          && (exists best: nat :: BestFit(ram, old(used), size, align, best) && g.region == ram[best])
          && g == Grant(g.region, Base(g.region, old(used)[g.region.cap], align), size, align)
          && used == old(used)[g.region.cap := g.base + g.size - g.region.addr]
          && grants == old(grants) + [g]
      // The same in numbers: the grant lies at the first multiple of the alignment behind what the
      // region has handed out, and no place is possible in a smaller region.
      ensures var align := if alignment == 0 then 1 else alignment;
        match result
        case NoMemory =>
          forall h: Grant | h.region in ram && h.region.cap in old(used) && h.base % align == 0
            && h.region.addr + old(used)[h.region.cap] <= h.base < h.region.addr + h.region.size ::
              h.base + size > h.region.addr + h.region.size
        case Granted(g) =>
          && g.region in ram && g.region.cap in old(used) && g.size == size && g.alignment == align
          && g.base % align == 0
          && g.region.addr + old(used)[g.region.cap] <= g.base < g.region.addr + old(used)[g.region.cap] + align
          && g.base < g.region.addr + g.region.size && g.base + size <= g.region.addr + g.region.size
          && forall h: Grant | h.region in ram && h.region.cap in old(used) && h.base % align == 0
            && h.region.addr + old(used)[h.region.cap] <= h.base < h.region.addr + h.region.size
            && h.base + size <= h.region.addr + h.region.size ::
              g.region.size < h.region.size
              || (g.region.size == h.region.size && g.region.addr <= h.region.addr)
    {
      hide BestFit, Fits, Ordered, Base;
      var align := if alignment == 0 then 1 else alignment;
      var found, best := Choose(size, align);
      AllPlaces(ram, used, size, align);
      if !found { return NoMemory; }
      BestFitFits(ram, used, size, align, best);
      BestInNumbers(ram, used, size, align, best);
      var r := ram[best];
      var g := Grant(r, Base(r, used[r.cap], align), size, align);
      GrantIsApart(g);
      HandOut(r, g);
      result := Granted(g);
    }

    /** The kernel places the object and remembers how much of the region is used. */
    method HandOut(r: Region, g: Grant)
      requires Valid() && r in ram && g.region == r && g.alignment > 0 && g.base % g.alignment == 0
      requires r.addr + used[r.cap] <= g.base && g.base + g.size <= r.addr + r.size
      requires forall h :: h in grants ==> Separate(h, g) && (h.region.cap == r.cap ==> h.region == r)
      modifies this`used, this`grants
      ensures Valid() && used == old(used)[r.cap := g.base + g.size - r.addr] && grants == old(grants) + [g]
    {
      hide Separate;
      OneRegionPerCap(ram, r);
      hide Ordered;
      used := used[r.cap := g.base + g.size - r.addr];
      forall h | h in grants ensures GrantOk(h) {
        assert old(GrantOk(h));
      }
      grants := grants + [g];
    }

    /** What the kernel hands out next lies beyond everything it handed out of the region before,
        and apart from what it handed out of regions that do not overlap this one. */
    lemma GrantIsApart(g: Grant)
      requires Valid() && g.region in ram && g.alignment > 0
      requires g.region.addr + used[g.region.cap] <= g.base && g.base + g.size <= g.region.addr + g.region.size
      ensures forall h :: h in grants ==> Separate(h, g) && (h.region.cap == g.region.cap ==> h.region == g.region)
    {
      forall h | h in grants ensures Separate(h, g) && (h.region.cap == g.region.cap ==> h.region == g.region) {
        assert GrantOk(h);
        var i :| 0 <= i < |ram| && ram[i] == h.region;
        var j :| 0 <= j < |ram| && ram[j] == g.region;
        if i < j { assert Ordered(ram[i], ram[j]); } else if j < i { assert Ordered(ram[j], ram[i]); }
      }
    }
  }
}
