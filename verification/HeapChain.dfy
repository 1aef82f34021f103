/** The C library heap as a list of blocks: what one allocation or release does to it, and
    what every list of blocks keeps. */
module HeapChain {
  import opened Words

  const HEADER: nat := 16
  const ALIGN: nat := 16
  const ARENA: nat := 0x20_0000

  datatype Block = Block(addr: nat, size: nat, used: bool)

  datatype Arena = Arena(start: nat, size: nat)

  /** Rounding up to the alignment, in 64-bit arithmetic. */
  function Rounded(size: nat): nat {
    Wrap(size + ALIGN - 1) / ALIGN * ALIGN
  }

  lemma RoundedIsAligned(size: nat)
    ensures Rounded(size) % ALIGN == 0 && Rounded(size) < WORD_LIMIT
  {
  }

  /** Rounding wraps around for the last 15 sizes, down to 0. */
  lemma RoundedHoldsIff(size: nat)
    ensures Rounded(size) >= size <==> size <= WORD_LIMIT - ALIGN
    ensures WORD_LIMIT - ALIGN < size < WORD_LIMIT ==> Rounded(size) == 0
  {
  }

  lemma RoundedInNumbers(size: nat)
    requires size <= WORD_LIMIT - 16
    ensures Rounded(size) == (size + 15) / 16 * 16
  {
    WrapFits(size + 15);
  }

  function Payload(b: Block): nat {
    b.addr + HEADER
  }

  function End(b: Block): nat {
    b.addr + HEADER + b.size
  }

  // ---------- the shape every heap keeps ----------

  predicate InArena(b: Block, arenas: seq<Arena>) {
    exists a :: a in arenas && a.start <= b.addr && End(b) <= a.start + a.size
  }

  predicate BlockOk(b: Block, arenas: seq<Arena>) {
    b.addr > 0 && b.addr % ALIGN == 0 && b.size % ALIGN == 0 && End(b) <= WORD_LIMIT && InArena(b, arenas)
  }

  predicate Apart(a: Block, b: Block) {
    End(a) <= b.addr || End(b) <= a.addr
  }

  ghost predicate ChainOk(chain: seq<Block>, arenas: seq<Arena>) {
    && |chain| > 0
    && (forall i :: 0 <= i < |chain| ==> BlockOk(chain[i], arenas))
    && (forall i, j :: 0 <= i < j < |chain| ==> Apart(chain[i], chain[j]))
  }

  // ---------- allocation ----------

  predicate Fits(b: Block, size: nat) {
    !b.used && b.size >= size
  }

  /** The first free block in list order that is large enough; the length if there is none. */
  function FirstFit(chain: seq<Block>, size: nat): (i: nat)
    ensures i <= |chain|
    ensures i < |chain| ==> Fits(chain[i], size)
    ensures forall j :: 0 <= j < i ==> !Fits(chain[j], size)
  {
    if chain == [] then 0
    else if Fits(chain[0], size) then 0
    else 1 + FirstFit(chain[1..], size)
  }

  /** A free block taken from the list: its tail is split off when it can hold a header and
      one unit; otherwise what is left over is dropped from the block. */
  function Carve(b: Block, size: nat): seq<Block>
    requires size <= b.size
  {
    if b.size - size >= HEADER + ALIGN
    then [Block(b.addr, size, true), Block(b.addr + HEADER + size, b.size - size - HEADER, false)]
    else [Block(b.addr, size, true)]
  }

  /** A fresh arena: split in the same way, but an unsplit block keeps its whole size. */
  function CarveArena(start: nat, size: nat): seq<Block>
    requires size <= ARENA - HEADER
  {
    if ARENA - HEADER - size >= HEADER + ALIGN then Carve(Block(start, ARENA - HEADER, false), size)
    else [Block(start, ARENA - HEADER, true)]
  }

  function TakeFrom(chain: seq<Block>, i: nat, size: nat): seq<Block>
    requires i < |chain| && size <= chain[i].size
  {
    chain[..i] + Carve(chain[i], size) + chain[i + 1..]
  }

  function Release(chain: seq<Block>, i: nat): seq<Block>
    requires i < |chain|
  {
    chain[i := chain[i].(used := false)]
  }

  // ---------- the shape is kept ----------

  /** Blocks that replace one block lie inside it and apart from each other. */
  ghost predicate Within(pieces: seq<Block>, b: Block) {
    && 1 <= |pieces| <= 2 && pieces[0].addr == b.addr
    && (forall p :: p in pieces ==> b.addr <= p.addr && End(p) <= End(b) && p.addr % ALIGN == 0 && p.size % ALIGN == 0)
    && (|pieces| == 2 ==> End(pieces[0]) <= pieces[1].addr)
  }

  lemma CarveIsWithin(b: Block, size: nat)
    requires size <= b.size && b.addr % ALIGN == 0 && b.size % ALIGN == 0 && size % ALIGN == 0
    ensures Within(Carve(b, size), b)
  {
    if b.size - size >= HEADER + ALIGN { AlignedParts(b.addr, size, b.size); }
  }

  lemma AlignedParts(addr: nat, size: nat, total: nat)
    requires addr % ALIGN == 0 && size % ALIGN == 0 && total % ALIGN == 0 && size + HEADER <= total
    ensures (addr + HEADER + size) % ALIGN == 0 && (total - size - HEADER) % ALIGN == 0
  {
  }

  lemma PieceOk(p: Block, b: Block, arenas: seq<Arena>)
    requires BlockOk(b, arenas) && b.addr <= p.addr && End(p) <= End(b) && p.addr % ALIGN == 0 && p.size % ALIGN == 0
    ensures BlockOk(p, arenas)
  {
    var a :| a in arenas && a.start <= b.addr && End(b) <= a.start + a.size;
    assert a in arenas && a.start <= p.addr && End(p) <= a.start + a.size;
  }

  lemma ReplaceKeepsShape(chain: seq<Block>, i: nat, pieces: seq<Block>, arenas: seq<Arena>)
    requires ChainOk(chain, arenas) && i < |chain| && Within(pieces, chain[i])
    ensures ChainOk(chain[..i] + pieces + chain[i + 1..], arenas)
  {
    var after := chain[..i] + pieces + chain[i + 1..];
    var grown := |pieces| - 1;
    forall j | 0 <= j < |after| ensures BlockOk(after[j], arenas) {
      if i <= j <= i + grown { PieceOk(after[j], chain[i], arenas); }
      else { assert after[j] == chain[if j < i then j else j - grown]; }
    }
    forall j, k | 0 <= j < k < |after| ensures Apart(after[j], after[k]) {
      var oj := if j < i then j else if j <= i + grown then i else j - grown;
      var ok := if k < i then k else if k <= i + grown then i else k - grown;
      assert after[j] in pieces || after[j] == chain[oj];
      assert after[k] in pieces || after[k] == chain[ok];
      if oj != ok { assert Apart(chain[oj], chain[ok]); }
    }
  }

  lemma TakeKeepsShape(chain: seq<Block>, i: nat, size: nat, arenas: seq<Arena>)
    requires ChainOk(chain, arenas) && i < |chain| && size <= chain[i].size && size % ALIGN == 0
    ensures ChainOk(TakeFrom(chain, i, size), arenas)
  {
    CarveIsWithin(chain[i], size);
    ReplaceKeepsShape(chain, i, Carve(chain[i], size), arenas);
  }

  /** A new arena that meets none of the old ones brings blocks that meet none of the old. */
  ghost predicate FreshArena(arenas: seq<Arena>, start: nat) {
    && start > 0 && start % ARENA == 0 && start + ARENA <= WORD_LIMIT
    && forall a :: a in arenas ==> a.start + a.size <= start || start + ARENA <= a.start
  }

  function WholeArena(start: nat): Block {
    Block(start, ARENA - HEADER, false)
  }

  lemma BesideArena(b: Block, arenas: seq<Arena>, start: nat)
    requires BlockOk(b, arenas) && FreshArena(arenas, start)
    ensures BlockOk(b, arenas + [Arena(start, ARENA)]) && Apart(b, WholeArena(start))
  {
    var a :| a in arenas && a.start <= b.addr && End(b) <= a.start + a.size;
    assert a in arenas + [Arena(start, ARENA)];
  }

  lemma WholeArenaOk(arenas: seq<Arena>, start: nat)
    requires start > 0 && start % ARENA == 0 && start + ARENA <= WORD_LIMIT
    ensures BlockOk(WholeArena(start), arenas + [Arena(start, ARENA)])
  {
    assert start == 16 * (131072 * (start / ARENA));
    assert Arena(start, ARENA) in arenas + [Arena(start, ARENA)];
    assert InArena(WholeArena(start), arenas + [Arena(start, ARENA)]);
  }

  lemma WholeArenaKeepsShape(chain: seq<Block>, start: nat, arenas: seq<Arena>)
    requires ChainOk(chain, arenas) && FreshArena(arenas, start)
    ensures ChainOk(chain + [WholeArena(start)], arenas + [Arena(start, ARENA)])
  {
    WholeArenaOk(arenas, start);
    forall i | 0 <= i < |chain|
      ensures BlockOk(chain[i], arenas + [Arena(start, ARENA)]) && Apart(chain[i], WholeArena(start))
    {
      BesideArena(chain[i], arenas, start);
    }
  }

  lemma CarveArenaIsWithin(start: nat, size: nat)
    requires size <= ARENA - HEADER && start % ALIGN == 0 && size % ALIGN == 0
    ensures Within(CarveArena(start, size), WholeArena(start))
  {
    CarveIsWithin(WholeArena(start), size);
  }

  lemma ArenaKeepsShape(chain: seq<Block>, start: nat, size: nat, arenas: seq<Arena>)
    requires ChainOk(chain, arenas) && FreshArena(arenas, start) && size <= ARENA - HEADER && size % ALIGN == 0
    ensures ChainOk(chain + CarveArena(start, size), arenas + [Arena(start, ARENA)])
  {
    hide ChainOk, CarveArena, Within;
    WholeArenaOk(arenas, start);
    CarveArenaIsWithin(start, size);
    WholeArenaKeepsShape(chain, start, arenas);
    var mid := chain + [WholeArena(start)];
    var pieces := CarveArena(start, size);
    ReplaceKeepsShape(mid, |chain|, pieces, arenas + [Arena(start, ARENA)]);
    assert mid[..|chain|] + pieces + mid[|chain| + 1..] == chain + pieces;
  }

  lemma ReleaseKeepsShape(chain: seq<Block>, i: nat, arenas: seq<Arena>)
    requires ChainOk(chain, arenas) && i < |chain|
    ensures ChainOk(Release(chain, i), arenas)
  {
    var pieces := [chain[i].(used := false)];
    ReplaceKeepsShape(chain, i, pieces, arenas);
    assert chain[..i] + pieces + chain[i + 1..] == Release(chain, i);
  }

  // ---------- conservation ----------

  /** Headers and blocks together. */
  function Extent(chain: seq<Block>): nat {
    if chain == [] then 0 else HEADER + chain[0].size + Extent(chain[1..])
  }

  lemma {:induction false} ExtentAppend(a: seq<Block>, b: seq<Block>)
    ensures Extent(a + b) == Extent(a) + Extent(b)
  {
    if a == [] {
      assert a + b == b;
    } else {
      assert (a + b)[1..] == a[1..] + b;
      ExtentAppend(a[1..], b);
    }
  }

  lemma ExtentOfOne(b: Block)
    ensures Extent([b]) == HEADER + b.size
  {
    assert [b][1..] == [];
  }

  lemma ExtentOfReplace(chain: seq<Block>, i: nat, pieces: seq<Block>)
    requires i < |chain|
    ensures Extent(chain[..i] + pieces + chain[i + 1..]) == Extent(chain) - HEADER - chain[i].size + Extent(pieces)
  {
    assert chain == chain[..i] + ([chain[i]] + chain[i + 1..]);
    assert chain[..i] + pieces + chain[i + 1..] == chain[..i] + (pieces + chain[i + 1..]);
    ExtentAppend(chain[..i], [chain[i]] + chain[i + 1..]);
    ExtentAppend([chain[i]], chain[i + 1..]);
    ExtentAppend(chain[..i], pieces + chain[i + 1..]);
    ExtentAppend(pieces, chain[i + 1..]);
  }

  lemma ExtentOfPair(a: Block, b: Block)
    ensures Extent([a]) == HEADER + a.size
    ensures Extent([a, b]) == HEADER + a.size + HEADER + b.size
  {
    assert [a, b][1..] == [b];
    assert [b][1..] == [] && [a][1..] == [];
  }

  lemma ExtentOfCarve(b: Block, size: nat)
    requires size <= b.size
    ensures Extent(Carve(b, size)) == if b.size - size >= HEADER + ALIGN then HEADER + b.size else HEADER + size
  {
    ExtentOfPair(Block(b.addr, size, true), Block(b.addr + HEADER + size, b.size - size - if b.size - size >= HEADER
      then HEADER else 0, false));
  }

  /** An allocation from the list loses nothing, or exactly one alignment unit for ever. */
  lemma TakeLosesAtMostOneUnit(chain: seq<Block>, i: nat, size: nat)
    requires i < |chain| && size <= chain[i].size && size % ALIGN == 0 && chain[i].size % ALIGN == 0
    ensures Extent(TakeFrom(chain, i, size)) == Extent(chain) - (if chain[i].size - size == ALIGN then ALIGN else 0)
  {
    hide Extent, Carve;
    ExtentOfReplace(chain, i, Carve(chain[i], size));
    ExtentOfCarve(chain[i], size);
  }

  lemma ReleaseLosesNothing(chain: seq<Block>, i: nat)
    requires i < |chain|
    ensures Extent(Release(chain, i)) == Extent(chain)
  {
    hide Extent;
    ExtentOfReplace(chain, i, [chain[i].(used := false)]);
    ExtentOfOne(chain[i]);
    ExtentOfOne(chain[i].(used := false));
    assert chain[..i] + [chain[i].(used := false)] + chain[i + 1..] == Release(chain, i);
  }

  /** A new arena adds its whole size. */
  lemma ArenaAddsItself(chain: seq<Block>, start: nat, size: nat)
    requires size <= ARENA - HEADER
    ensures Extent(chain + CarveArena(start, size)) == Extent(chain) + ARENA
  {
    ExtentAppend(chain, CarveArena(start, size));
    ExtentOfCarve(Block(start, ARENA - HEADER, false), size);
    ExtentOfPair(Block(start, ARENA - HEADER, true), Block(start, ARENA - HEADER, true));
  }

  // ---------- whole runs ----------

  /** What a run of requests does to the list: a block is taken, an arena is added and its front
      taken, or a block is released. */
  datatype Step = Take(i: nat, size: nat) | Grow(start: nat, size: nat) | Free(i: nat)

  /** `lost` counts the bytes that belong to no block any more. */
  datatype State = State(chain: seq<Block>, arenas: seq<Arena>, lost: nat)

  ghost predicate Possible(s: State, step: Step) {
    match step
    case Take(i, size) => i < |s.chain| && Fits(s.chain[i], size) && size % ALIGN == 0
    case Grow(start, size) => FreshArena(s.arenas, start) && size <= ARENA - HEADER && size % ALIGN == 0
    case Free(i) => i < |s.chain| && s.chain[i].used
  }

  function After(s: State, step: Step): State
    requires Possible(s, step)
  {
    match step
    case Take(i, size) =>
      State(TakeFrom(s.chain, i, size), s.arenas, s.lost + if s.chain[i].size - size == ALIGN then ALIGN else 0)
    case Grow(start, size) => State(s.chain + CarveArena(start, size), s.arenas + [Arena(start, ARENA)], s.lost)
    case Free(i) => s.(chain := Release(s.chain, i))
  }

  /** The states a run of steps goes through. */
  ghost predicate Runs(states: seq<State>, steps: seq<Step>) {
    && |states| == |steps| + 1
    && forall k {:trigger steps[k]} :: 0 <= k < |steps| ==>
      Possible(states[k], steps[k]) && states[k + 1] == After(states[k], steps[k])
  }

  function ArenaBytes(arenas: seq<Arena>): nat {
    if arenas == [] then 0 else ArenaBytes(arenas[..|arenas| - 1]) + arenas[|arenas| - 1].size
  }

  /** Blocks are aligned, inside their arenas and apart, and headers, blocks and what was lost
      make up the arenas. */
  ghost predicate Sound(s: State) {
    ChainOk(s.chain, s.arenas) && Extent(s.chain) + s.lost == ArenaBytes(s.arenas)
  }

  lemma StepKeepsSound(s: State, step: Step)
    requires Sound(s) && Possible(s, step)
    ensures Sound(After(s, step))
  {
    hide Extent, TakeFrom, CarveArena, Release;
    match step
    case Take(i, size) =>
      TakeKeepsShape(s.chain, i, size, s.arenas);
      assert BlockOk(s.chain[i], s.arenas);
      TakeLosesAtMostOneUnit(s.chain, i, size);
    case Grow(start, size) =>
      ArenaKeepsShape(s.chain, start, size, s.arenas);
      ArenaAddsItself(s.chain, start, size);
      assert (s.arenas + [Arena(start, ARENA)])[..|s.arenas|] == s.arenas;
    case Free(i) =>
      ReleaseKeepsShape(s.chain, i, s.arenas);
      ReleaseLosesNothing(s.chain, i);
  }

  /** How many blocks were taken from the list in the first k steps. */
  function Taken(steps: seq<Step>, k: nat): nat
    requires k <= |steps|
  {
    if k == 0 then 0 else Taken(steps, k - 1) + if steps[k - 1].Take? then 1 else 0
  }

  /** Over every run: the shape holds, no byte of an arena goes missing but what is counted, and
      that is at most one unit for each block taken from the list. */
  lemma {:induction false} RunKeepsSound(states: seq<State>, steps: seq<Step>, k: nat)
    requires Runs(states, steps) && Sound(states[0]) && k < |states|
    ensures Sound(states[k])
    ensures states[0].lost <= states[k].lost <= states[0].lost + ALIGN * Taken(steps, k)
  {
    hide Sound, Possible;
    if k > 0 {
      RunKeepsSound(states, steps, k - 1);
      assert states[k] == After(states[k - 1], steps[k - 1]);
      StepKeepsSound(states[k - 1], steps[k - 1]);
    }
  }

  // ---------- live payloads ----------

  /** Two payloads never overlap, and no payload overlaps a header. */
  lemma PayloadsAreDisjoint(chain: seq<Block>, arenas: seq<Arena>, i: nat, j: nat)
    requires ChainOk(chain, arenas) && i < |chain| && j < |chain| && i != j
    ensures Payload(chain[i]) % ALIGN == 0
    ensures End(chain[i]) <= chain[j].addr || End(chain[j]) <= chain[i].addr
    ensures End(chain[i]) <= Payload(chain[j]) || End(chain[j]) <= Payload(chain[i])
  {
    assert Apart(chain[if i < j then i else j], chain[if i < j then j else i]);
    assert BlockOk(chain[i], arenas);
    NextUnit(chain[i].addr);
  }

  lemma NextUnit(n: nat)
    requires n % ALIGN == 0
    ensures (n + HEADER) % ALIGN == 0
  {
  }

  /** Blocks in use elsewhere are untouched by an allocation or a release. */
  lemma OthersSurvive(chain: seq<Block>, i: nat, size: nat, b: Block)
    requires i < |chain| && size <= chain[i].size && b in chain && b != chain[i]
    ensures b in TakeFrom(chain, i, size) && b in Release(chain, i)
  {
    var k :| 0 <= k < |chain| && chain[k] == b;
    assert if k < i then chain[..i][k] == b else chain[i + 1..][k - i - 1] == b;
    assert Release(chain, i)[k] == b;
  }
}
