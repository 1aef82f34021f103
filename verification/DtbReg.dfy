/** The `reg` property: pairs of an address and a size, each a number of cells. */
module DtbReg {
  import opened Bytes
  import opened Dtb
  import opened DtbFlattening
  import opened Options
  import Paging

  const REGISTER: nat := 0x1_0000_0000_0000_0000

  /** n cells of four bytes in 64-bit arithmetic: what no longer fits is shifted out. */
  function CellsAt(a: seq<char>, at: nat, n: nat): nat
    requires at + 4 * n <= |a|
  {
    if n == 0 then 0 else CellsAt(a, at, n - 1) * WRAP % REGISTER + U32At(a, at + 4 * (n - 1)).value
  }

  /** The regions from word i on; None where the loop would not end or leave the value. */
  function RegionsFrom(a: seq<char>, i: nat, addressCells: nat, sizeCells: nat): Option<seq<(nat, nat)>>
    decreases |a| / 4 - i
  {
    if i >= |a| / 4 then Some([])
    else if addressCells + sizeCells == 0 || i + addressCells + sizeCells > |a| / 4 then None
    else
      var first := (CellsAt(a, 4 * i, addressCells), CellsAt(a, 4 * (i + addressCells), sizeCells));
      match RegionsFrom(a, i + addressCells + sizeCells, addressCells, sizeCells)
      case None => None
      case Some(rest) => Some([first] + rest)
  }

  method ReadCells(a: seq<char>, at: nat, n: nat) returns (v: nat)
    requires at + 4 * n <= |a|
    ensures v == CellsAt(a, at, n)
  {
    v := 0;
    for j := 0 to n
      invariant v == CellsAt(a, at, j)
    {
      v := v * WRAP % REGISTER + U32At(a, at + 4 * j).value;
    }
  }

  /** to_reg */
  method ToReg(a: seq<char>, addressCells: nat, sizeCells: nat) returns (r: Option<seq<(nat, nat)>>)
    ensures r == RegionsFrom(a, 0, addressCells, sizeCells)
  {
    hide CellsAt;
    var length, i, regions := |a| / 4, 0, [];
    ghost var all := RegionsFrom(a, 0, addressCells, sizeCells);
    if all.Some? { assert [] + all.value == all.value; }
    while i < length
      invariant var later := RegionsFrom(a, i, addressCells, sizeCells);
        all == if later.None? then None else Some(regions + later.value)
      decreases length - i
    {
      if addressCells + sizeCells == 0 || i + addressCells + sizeCells > length { return None; }
      var address := ReadCells(a, 4 * i, addressCells);
      var size := ReadCells(a, 4 * (i + addressCells), sizeCells);
      ghost var later := RegionsFrom(a, i + addressCells + sizeCells, addressCells, sizeCells);
      if later.Some? {
        assert regions + ([(address, size)] + later.value) == (regions + [(address, size)]) + later.value;
      }
      regions := regions + [(address, size)];
      i := i + addressCells + sizeCells;
    }
    assert regions + [] == regions;
    r := Some(regions);
  }

  /** There is a list exactly when the words of the value are whole regions; it has one entry for
      each of them. */
  lemma {:induction false} RegionsIff(a: seq<char>, i: nat, addressCells: nat, sizeCells: nat)
    requires i <= |a| / 4
    ensures var left, d, r := |a| / 4 - i, addressCells + sizeCells, RegionsFrom(a, i, addressCells, sizeCells);
      && (r.Some? <==> left == 0 || (d > 0 && left % d == 0))
      && (r.Some? && left > 0 ==> |r.value| == left / d)
    decreases |a| / 4 - i
  {
    hide CellsAt;
    var left, d := |a| / 4 - i, addressCells + sizeCells;
    if left > 0 && d > 0 {
      if d <= left {
        RegionsIff(a, i + d, addressCells, sizeCells);
        OneLess(left, d);
      } else {
        Remains(left, d);
      }
    }
  }

  lemma OneLess(left: nat, d: nat)
    requires 0 < d <= left
    ensures (left - d) % d == left % d && left / d == (left - d) / d + 1
  {
    var q, r := left / d, left % d;
    assert left == q * d + r;
    assert (q - 1) * d == q * d - d;
    Paging.DivisionIsUnique(left - d, d, q - 1, r);
  }

  lemma Remains(left: nat, d: nat)
    requires 0 < left < d
    ensures left % d != 0
  {
    Paging.DivisionIsUnique(left, d, 0, left);
  }

  // ---------- a writer ----------

  function WriteCells(v: nat, n: nat): (s: string)
    ensures |s| == 4 * n
  {
    if n == 0 then "" else WriteCells(v / 0x1_0000_0000, n - 1) + Be32(v % 0x1_0000_0000)
  }

  function WriteRegions(regions: seq<(nat, nat)>, addressCells: nat, sizeCells: nat): (s: string)
    ensures |s| % 4 == 0
  {
    if regions == [] then ""
    else
      var later := WriteRegions(regions[1..], addressCells, sizeCells);
      WholeWords(addressCells, sizeCells, |later|);
      WriteCells(regions[0].0, addressCells) + WriteCells(regions[0].1, sizeCells) + later
  }

  lemma WholeWords(a: nat, b: nat, n: nat)
    requires n % 4 == 0
    ensures (4 * a + 4 * b + n) % 4 == 0
  {
  }

  function PowerWrap(n: nat): nat {
    if n == 0 then 1 else 0x1_0000_0000 * PowerWrap(n - 1)
  }

  lemma ShiftedIn(v: nat)
    ensures v / WRAP % REGISTER * WRAP % REGISTER + v % WRAP == v % REGISTER
  {
    var high, q := v / WRAP, v / WRAP / REGISTER;
    var kept := high % REGISTER;
    assert high == q * REGISTER + kept;
    var top, low := kept / WRAP, kept % WRAP;
    RemainderIs(kept * WRAP, top, low * WRAP);
    RemainderIs(v, q * WRAP + top, low * WRAP + v % WRAP);
  }

  lemma RemainderIs(v: nat, q: nat, r: nat)
    requires v == q * REGISTER + r && r < REGISTER
    ensures v % REGISTER == r
  {
  }

  /** Cells are read back, cut to 64 bits. */
  lemma {:induction false} CellsRoundTrip(a: seq<char>, at: nat, v: nat, n: nat)
    requires v < PowerWrap(n) && PieceAt(a, at, WriteCells(v, n))
    ensures CellsAt(a, at, n) == v % 0x1_0000_0000_0000_0000
    decreases n
  {
    if n > 0 {
      hide U32At, Be32;
      PieceSplit(a, at, WriteCells(v / WRAP, n - 1), Be32(v % WRAP));
      U32Reads(a, at + 4 * (n - 1), v % WRAP);
      CellsRoundTrip(a, at, v / WRAP, n - 1);
      ShiftedIn(v);
    }
  }

  predicate RegionsFit(regions: seq<(nat, nat)>, addressCells: nat, sizeCells: nat) {
    forall r :: r in regions ==>
      && r.0 < PowerWrap(addressCells) && r.1 < PowerWrap(sizeCells)
      && r.0 < 0x1_0000_0000_0000_0000 && r.1 < 0x1_0000_0000_0000_0000
  }

  /** to_reg undoes the writer, for every number of cells. */
  lemma {:induction false} RegionsRoundTrip(a: seq<char>, i: nat, regions: seq<(nat, nat)>, addressCells: nat,
      sizeCells: nat)
    requires addressCells + sizeCells > 0 && RegionsFit(regions, addressCells, sizeCells)
    requires |a| == 4 * i + |WriteRegions(regions, addressCells, sizeCells)|
    requires PieceAt(a, 4 * i, WriteRegions(regions, addressCells, sizeCells))
    ensures RegionsFrom(a, i, addressCells, sizeCells) == Some(regions)
    decreases |regions|
  {
    hide CellsAt, WriteCells, PieceAt;
    if regions != [] {
      var r, next := regions[0], i + addressCells + sizeCells;
      FirstRegion(a, i, r, addressCells, sizeCells, WriteRegions(regions[1..], addressCells, sizeCells));
      RegionsRoundTrip(a, next, regions[1..], addressCells, sizeCells);
      RegionStep(a, i, addressCells, sizeCells);
      assert [r] + regions[1..] == regions;
    }
  }

  lemma RegionStep(a: seq<char>, i: nat, addressCells: nat, sizeCells: nat)
    requires addressCells + sizeCells > 0 && 4 * (i + addressCells + sizeCells) <= |a|
    requires RegionsFrom(a, i + addressCells + sizeCells, addressCells, sizeCells).Some?
    ensures RegionsFrom(a, i, addressCells, sizeCells) ==
      Some([(CellsAt(a, 4 * i, addressCells), CellsAt(a, 4 * (i + addressCells), sizeCells))]
           + RegionsFrom(a, i + addressCells + sizeCells, addressCells, sizeCells).value)
  {
    hide CellsAt;
  }

  lemma FirstRegion(a: seq<char>, i: nat, r: (nat, nat), addressCells: nat, sizeCells: nat, later: string)
    requires RegionsFit([r], addressCells, sizeCells)
    requires PieceAt(a, 4 * i, WriteCells(r.0, addressCells) + WriteCells(r.1, sizeCells) + later)
    ensures 4 * (i + addressCells + sizeCells) <= |a| && PieceAt(a, 4 * (i + addressCells + sizeCells), later)
    ensures CellsAt(a, 4 * i, addressCells) == r.0 && CellsAt(a, 4 * (i + addressCells), sizeCells) == r.1
  {
    hide CellsAt, WriteCells;
    assert r in [r];
    PieceSplit(a, 4 * i, WriteCells(r.0, addressCells) + WriteCells(r.1, sizeCells), later);
    PieceSplit(a, 4 * i, WriteCells(r.0, addressCells), WriteCells(r.1, sizeCells));
    CellsRoundTrip(a, 4 * i, r.0, addressCells);
    CellsRoundTrip(a, 4 * (i + addressCells), r.1, sizeCells);
  }
}
