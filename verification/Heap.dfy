/** The C library heap: first fit over a circular list of blocks whose headers sit in the
    memory they describe. A header is two words: the next header, and the size with the
    allocated bit in its lowest bit. */
module Heaps {
  import opened HeapChain
  import opened Options
  import opened Words

  /** Eight-byte words by address. */
  type Memory = map<nat, nat>

  function WordAt(mem: Memory, a: nat): nat {
    if a in mem then mem[a] else 0
  }

  function BlockAt(mem: Memory, h: nat): Block {
    Block(h, WordAt(mem, h + 8) / 2 * 2, WordAt(mem, h + 8) % 2 == 1)
  }

  /** The test the search makes on a header's second word. */
  lemma FitsInMemory(mem: Memory, h: nat, size: nat)
    ensures Fits(BlockAt(mem, h), size) <==> WordAt(mem, h + 8) % 2 == 0 && WordAt(mem, h + 8) >= size
  {
  }

  function SizeWord(size: nat, used: bool): nat {
    size + if used then 1 else 0
  }

  /** The list of blocks whose headers are at the given addresses. */
  ghost function ChainOf(mem: Memory, blocks: seq<nat>): (chain: seq<Block>)
    ensures |chain| == |blocks| && forall i :: 0 <= i < |blocks| ==> chain[i] == BlockAt(mem, blocks[i])
  {
    seq(|blocks|, i requires 0 <= i < |blocks| => BlockAt(mem, blocks[i]))
  }

  function Following(i: nat, n: nat): (j: nat)
    requires i < n
    ensures j < n
  {
    if i + 1 == n then 0 else i + 1
  }

  /** The links form one cycle through every block. */
  ghost predicate Ring(mem: Memory, blocks: seq<nat>) {
    |blocks| > 0 && forall i :: 0 <= i < |blocks| ==> WordAt(mem, blocks[i]) == blocks[Following(i, |blocks|)]
  }

  ghost predicate HeapOk(mem: Memory, blocks: seq<nat>, arenas: seq<Arena>) {
    Ring(mem, blocks) && ChainOk(ChainOf(mem, blocks), arenas)
  }

  // ---------- what a write to a header changes ----------

  /** No header word of block j lies below the end of block i and above its start. */
  lemma HeadersApart(mem: Memory, blocks: seq<nat>, arenas: seq<Arena>, i: nat, j: nat)
    requires HeapOk(mem, blocks, arenas) && i < |blocks| && j < |blocks| && i != j
    ensures blocks[j] >= End(BlockAt(mem, blocks[i])) || blocks[i] >= blocks[j] + HEADER
  {
    var chain := ChainOf(mem, blocks);
    assert Apart(chain[if i < j then i else j], chain[if i < j then j else i]);
  }

  lemma FirstBlock(mem: Memory, start: nat, size: nat)
    requires start > 0 && start % ALIGN == 0 && size % ALIGN == 0 && size >= HEADER && start + size <= WORD_LIMIT
    requires mem == map[start := start, start + 8 := size - HEADER]
    ensures HeapOk(mem, [start], [Arena(start, size)])
    ensures ChainOf(mem, [start]) == [Block(start, size - HEADER, false)]
  {
    EvenSize(size);
    var chain := ChainOf(mem, [start]);
    assert chain[0] == Block(start, size - HEADER, false);
    assert Arena(start, size) in [Arena(start, size)];
    assert InArena(chain[0], [Arena(start, size)]);
  }

  lemma EvenSize(size: nat)
    requires size % ALIGN == 0 && size >= HEADER
    ensures (size - HEADER) / 2 * 2 == size - HEADER && (size - HEADER) % 2 == 0 && (size - HEADER) % ALIGN == 0
  {
    var n := size / ALIGN;
    assert size == ALIGN * n;
    Halves(size - HEADER, 8 * (n - 1));
    Units(size - HEADER, n - 1);
  }

  lemma Units(x: nat, n: nat)
    requires x == ALIGN * n
    ensures x % ALIGN == 0
  {
  }

  lemma Halves(x: nat, n: nat)
    requires x == 2 * n
    ensures x % 2 == 0 && x / 2 * 2 == x
  {
  }

  lemma HeadersDiffer(mem: Memory, blocks: seq<nat>, arenas: seq<Arena>, i: nat)
    requires HeapOk(mem, blocks, arenas) && 0 < i < |blocks|
    ensures blocks[i] != blocks[0]
  {
    HeadersApart(mem, blocks, arenas, 0, i);
  }

  lemma AllHeadersApart(mem: Memory, blocks: seq<nat>, arenas: seq<Arena>, i: nat)
    requires HeapOk(mem, blocks, arenas) && i < |blocks|
    ensures forall j :: 0 <= j < |blocks| && j != i ==>
      blocks[j] >= End(BlockAt(mem, blocks[i])) || blocks[i] >= blocks[j] + HEADER
  {
    forall j | 0 <= j < |blocks| && j != i
      ensures blocks[j] >= End(BlockAt(mem, blocks[i])) || blocks[i] >= blocks[j] + HEADER
    {
      HeadersApart(mem, blocks, arenas, i, j);
    }
  }

  /** header->size := size, with the allocated bit, where the block does not grow. */
  lemma SizeWrite(mem: Memory, blocks: seq<nat>, arenas: seq<Arena>, i: nat, size: nat, used: bool)
    requires HeapOk(mem, blocks, arenas) && i < |blocks| && size % ALIGN == 0 && size <= BlockAt(mem, blocks[i]).size
    ensures var mem' := mem[blocks[i] + 8 := SizeWord(size, used)];
      && HeapOk(mem', blocks, arenas)
      && ChainOf(mem', blocks) == ChainOf(mem, blocks)[i := Block(blocks[i], size, used)]
  {
    var chain, b := ChainOf(mem, blocks), Block(blocks[i], size, used);
    var mem' := mem[blocks[i] + 8 := SizeWord(size, used)];
    AllHeadersApart(mem, blocks, arenas, i);
    assert BlockOk(chain[i], arenas);
    hide ChainOk;
    assert ChainOf(mem', blocks) == chain[i := b];
    ReplaceKeepsShape(chain, i, [b], arenas);
    assert chain[..i] + [b] + chain[i + 1..] == chain[i := b];
  }

  function SplitMemory(mem: Memory, h: nat, size: nat): Memory
    requires size + HEADER <= WordAt(mem, h + 8)
  {
    var tail := h + HEADER + size;
    mem[tail := WordAt(mem, h)][tail + 8 := WordAt(mem, h + 8) - size - HEADER][h := tail][h + 8 := size]
  }

  /** Where a split puts the header of the tail. */
  function TailOf(h: nat, size: nat): nat {
    Wrap(h + HEADER + size)
  }

  /** The writes of __heap_split, in 64-bit arithmetic. */
  function SplitHeader(mem: Memory, h: nat, size: nat): Memory {
    if Wrap(WordAt(mem, h + 8) - size) >= HEADER + ALIGN then
      var tail := TailOf(h, size);
      mem[tail := WordAt(mem, h)][tail + 8 := Wrap(WordAt(mem, h + 8) - size - HEADER)][h := tail][h + 8 := size]
    else mem
  }

  /** On a free block that holds the request nothing wraps around. */
  lemma SplitHeaderFits(mem: Memory, h: nat, size: nat)
    requires !BlockAt(mem, h).used && size <= BlockAt(mem, h).size && End(BlockAt(mem, h)) <= WORD_LIMIT
    ensures SplitHeader(mem, h, size)
         == if BlockAt(mem, h).size - size >= HEADER + ALIGN then SplitMemory(mem, h, size) else mem
  {
    var word := WordAt(mem, h + 8);
    assert word == BlockAt(mem, h).size && h + HEADER + word <= WORD_LIMIT;
    assert Wrap(word - size) == word - size;
    if word - size >= HEADER + ALIGN {
      assert TailOf(h, size) == h + HEADER + size;
      assert Wrap(word - size - HEADER) == word - size - HEADER;
    }
  }

  // ---------- requests that do not fit an arena ----------

  /** header->size |= 1 */
  function MarkedUsed(mem: Memory, h: nat): Memory {
    mem[h + 8 := WordAt(mem, h + 8) / 2 * 2 + 1]
  }

  predicate InsideAnArena(tail: nat, arenas: seq<Arena>) {
    exists a :: a in arenas && a.start <= tail && tail + HEADER <= a.start + a.size
  }

  /** A fresh arena that is too small is split all the same: the subtraction wraps around, a
      header is written behind the arena, and the block handed out ends outside of it. */
  lemma OversizedSplit(mem: Memory, start: nat, size: nat)
    requires start % ALIGN == 0 && start + ARENA <= WORD_LIMIT && WordAt(mem, start + 8) == ARENA - HEADER
    requires size % ALIGN == 0 && ARENA - HEADER < size < WORD_LIMIT
    ensures var tail, split := TailOf(start, size), SplitHeader(mem, start, size);
      && BlockAt(MarkedUsed(split, start), start) == Block(start, size, true)
      && tail in split && (tail != start ==> split[tail] == WordAt(mem, start) && WordAt(split, start) == tail)
      && (start <= tail && tail + HEADER <= start + ARENA <==> size == WORD_LIMIT - ALIGN)
  {
    hide Wrap, TailOf;
    WrapOnce(WordAt(mem, start + 8) - size);
    OversizedTail(start, size);
  }

  lemma OversizedTail(start: nat, size: nat)
    requires start % ALIGN == 0 && start + ARENA <= WORD_LIMIT && size % ALIGN == 0
      && ARENA - HEADER < size < WORD_LIMIT
    ensures var tail := TailOf(start, size);
      tail != start + 8 && (start <= tail && tail + HEADER <= start + ARENA <==> size == WORD_LIMIT - ALIGN)
  {
    hide Wrap;
    WrapOnce(start + HEADER + size);
    var s, n := start / ALIGN, size / ALIGN;
    assert start == ALIGN * s && size == ALIGN * n;
  }

  /** A request for 2 MiB on a heap whose first arena lies at 2 MiB and whose second is granted
      at 6 MiB: the tail header is written to 8 MiB + 16, outside of both. */
  lemma TailOutsideArenas(mem: Memory)
    requires WordAt(mem, 3 * ARENA + 8) == ARENA - HEADER
    ensures Rounded(ARENA) == ARENA && TailOf(3 * ARENA, ARENA) == 4 * ARENA + HEADER
    ensures SplitHeader(mem, 3 * ARENA, ARENA)[3 * ARENA] == 4 * ARENA + HEADER
    ensures (4 * ARENA + HEADER) in SplitHeader(mem, 3 * ARENA, ARENA)
    ensures !InsideAnArena(4 * ARENA + HEADER, [Arena(ARENA, ARENA), Arena(3 * ARENA, ARENA)])
  {
    OversizedSplit(mem, 3 * ARENA, ARENA);
  }

  /** A split touches no header of another block. */
  lemma SplitFrame(mem: Memory, blocks: seq<nat>, arenas: seq<Arena>, i: nat, size: nat, j: nat)
    requires HeapOk(mem, blocks, arenas) && i < |blocks| && j < |blocks| && j != i
    requires size + HEADER + ALIGN <= BlockAt(mem, blocks[i]).size
    ensures var mem' := SplitMemory(mem, blocks[i], size);
      BlockAt(mem', blocks[j]) == BlockAt(mem, blocks[j]) && WordAt(mem', blocks[j]) == WordAt(mem, blocks[j])
  {
    HeadersApart(mem, blocks, arenas, i, j);
  }

  function SplitPieces(b: Block, size: nat): seq<Block>
    requires size + HEADER <= b.size
  {
    [Block(b.addr, size, false), Block(b.addr + HEADER + size, b.size - size - HEADER, false)]
  }

  lemma SplitOwnHeaders(mem: Memory, h: nat, size: nat)
    requires !BlockAt(mem, h).used && size + HEADER + ALIGN <= BlockAt(mem, h).size && size % ALIGN == 0
    ensures var mem' := SplitMemory(mem, h, size);
      && [BlockAt(mem', h), BlockAt(mem', h + HEADER + size)] == SplitPieces(BlockAt(mem, h), size)
      && WordAt(mem', h) == h + HEADER + size && WordAt(mem', h + HEADER + size) == WordAt(mem, h)
  {
  }

  lemma SplitRing(mem: Memory, blocks: seq<nat>, arenas: seq<Arena>, i: nat, size: nat)
    requires HeapOk(mem, blocks, arenas) && i < |blocks| && !BlockAt(mem, blocks[i]).used && size % ALIGN == 0
    requires size + HEADER + ALIGN <= BlockAt(mem, blocks[i]).size
    ensures Ring(SplitMemory(mem, blocks[i], size), SplitBlocks(blocks, i, size))
  {
    var mem', blocks' := SplitMemory(mem, blocks[i], size), SplitBlocks(blocks, i, size);
    RingAfterInsert(blocks, blocks', i, blocks[i] + HEADER + size);
    SplitOwnHeaders(mem, blocks[i], size);
    forall k | 0 <= k < |blocks'| ensures WordAt(mem', blocks'[k]) == blocks'[Following(k, |blocks'|)] {
      if k != i && k != i + 1 {
        var j := if k < i then k else k - 1;
        SplitFrame(mem, blocks, arenas, i, size, j);
        assert blocks'[k] == blocks[j];
      }
    }
  }

  function SplitBlocks(blocks: seq<nat>, i: nat, size: nat): seq<nat>
    requires i < |blocks|
  {
    blocks[..i + 1] + [blocks[i] + HEADER + size] + blocks[i + 1..]
  }

  lemma SplitChain(mem: Memory, blocks: seq<nat>, arenas: seq<Arena>, i: nat, size: nat)
    requires HeapOk(mem, blocks, arenas) && i < |blocks| && !BlockAt(mem, blocks[i]).used && size % ALIGN == 0
    requires size + HEADER + ALIGN <= BlockAt(mem, blocks[i]).size
    ensures ChainOf(SplitMemory(mem, blocks[i], size), SplitBlocks(blocks, i, size))
         == ChainOf(mem, blocks)[..i] + SplitPieces(BlockAt(mem, blocks[i]), size) + ChainOf(mem, blocks)[i + 1..]
  {
    var mem', blocks' := SplitMemory(mem, blocks[i], size), SplitBlocks(blocks, i, size);
    var expected := ChainOf(mem, blocks)[..i] + SplitPieces(BlockAt(mem, blocks[i]), size)
      + ChainOf(mem, blocks)[i + 1..];
    SplitOwnHeaders(mem, blocks[i], size);
    hide SplitMemory, HeapOk;
    forall k | 0 <= k < |blocks'| ensures BlockAt(mem', blocks'[k]) == expected[k] {
      if k != i && k != i + 1 {
        var j := if k < i then k else k - 1;
        SplitFrame(mem, blocks, arenas, i, size, j);
        assert blocks'[k] == blocks[j] && expected[k] == BlockAt(mem, blocks[j]);
      }
    }
  }

  /** The four header writes of a split. */
  lemma SplitWrite(mem: Memory, blocks: seq<nat>, arenas: seq<Arena>, i: nat, size: nat)
    requires HeapOk(mem, blocks, arenas) && i < |blocks| && !BlockAt(mem, blocks[i]).used && size % ALIGN == 0
    requires size + HEADER + ALIGN <= BlockAt(mem, blocks[i]).size
    ensures HeapOk(SplitMemory(mem, blocks[i], size), SplitBlocks(blocks, i, size), arenas)
    ensures ChainOf(SplitMemory(mem, blocks[i], size), SplitBlocks(blocks, i, size))
         == ChainOf(mem, blocks)[..i] + SplitPieces(BlockAt(mem, blocks[i]), size) + ChainOf(mem, blocks)[i + 1..]
  {
    SplitRing(mem, blocks, arenas, i, size);
    SplitChain(mem, blocks, arenas, i, size);
    SplitIsWithin(BlockAt(mem, blocks[i]), size);
    assert BlockOk(ChainOf(mem, blocks)[i], arenas);
    ReplaceKeepsShape(ChainOf(mem, blocks), i, SplitPieces(BlockAt(mem, blocks[i]), size), arenas);
  }

  lemma SplitIsWithin(b: Block, size: nat)
    requires size + HEADER + ALIGN <= b.size && size % ALIGN == 0 && b.addr % ALIGN == 0 && b.size % ALIGN == 0
    ensures Within(SplitPieces(b, size), b)
  {
  }

  /** Following the links of a ring into which one block was inserted after the i-th. */
  lemma RingAfterInsert(before: seq<nat>, after: seq<nat>, i: nat, tail: nat)
    requires i < |before| && after == before[..i + 1] + [tail] + before[i + 1..]
    ensures forall j :: 0 <= j < |before| && j != i ==>
      after[if j < i then j else j + 1] == before[j]
        && after[Following(if j < i then j else j + 1, |after|)] == before[Following(j, |before|)]
    ensures after[i] == before[i] && after[i + 1] == tail
      && after[Following(i + 1, |after|)] == before[Following(i, |before|)]
  {
  }

  function ArenaMemory(mem: Memory, head: nat, prev: nat, start: nat): Memory {
    mem[start := head][start + 8 := ARENA - HEADER][prev := start]
  }

  lemma ArenaFrame(mem: Memory, blocks: seq<nat>, arenas: seq<Arena>, start: nat, j: nat)
    requires HeapOk(mem, blocks, arenas) && FreshArena(arenas, start) && j < |blocks|
    ensures var mem' := ArenaMemory(mem, blocks[0], blocks[|blocks| - 1], start);
      && BlockAt(mem', blocks[j]) == BlockAt(mem, blocks[j])
      && WordAt(mem', blocks[j]) == if j == |blocks| - 1 then start else WordAt(mem, blocks[j])
  {
    assert BlockOk(ChainOf(mem, blocks)[j], arenas);
    BesideArena(ChainOf(mem, blocks)[j], arenas, start);
    if j != |blocks| - 1 { HeadersApart(mem, blocks, arenas, j, |blocks| - 1); }
    assert BlockOk(ChainOf(mem, blocks)[|blocks| - 1], arenas);
    BesideArena(ChainOf(mem, blocks)[|blocks| - 1], arenas, start);
  }

  lemma ArenaRing(mem: Memory, blocks: seq<nat>, arenas: seq<Arena>, start: nat)
    requires HeapOk(mem, blocks, arenas) && FreshArena(arenas, start)
    ensures Ring(ArenaMemory(mem, blocks[0], blocks[|blocks| - 1], start), blocks + [start])
  {
    var mem', blocks' := ArenaMemory(mem, blocks[0], blocks[|blocks| - 1], start), blocks + [start];
    ArenaFrame(mem, blocks, arenas, start, |blocks| - 1);
    forall k | 0 <= k < |blocks'| ensures WordAt(mem', blocks'[k]) == blocks'[Following(k, |blocks'|)] {
      if k < |blocks| { ArenaFrame(mem, blocks, arenas, start, k); }
      else { NotTheLast(mem, blocks, arenas, start); }
    }
  }

  lemma NotTheLast(mem: Memory, blocks: seq<nat>, arenas: seq<Arena>, start: nat)
    requires HeapOk(mem, blocks, arenas) && FreshArena(arenas, start)
    ensures blocks[|blocks| - 1] + HEADER <= start || start + ARENA <= blocks[|blocks| - 1]
  {
    assert BlockOk(ChainOf(mem, blocks)[|blocks| - 1], arenas);
    BesideArena(ChainOf(mem, blocks)[|blocks| - 1], arenas, start);
  }

  /** A fresh arena is linked behind the last block as one free block. */
  lemma ArenaWrite(mem: Memory, blocks: seq<nat>, arenas: seq<Arena>, start: nat)
    requires HeapOk(mem, blocks, arenas) && FreshArena(arenas, start)
    ensures var mem' := ArenaMemory(mem, blocks[0], blocks[|blocks| - 1], start);
      && HeapOk(mem', blocks + [start], arenas + [Arena(start, ARENA)])
      && ChainOf(mem', blocks + [start]) == ChainOf(mem, blocks) + [WholeArena(start)]
  {
    var mem' := ArenaMemory(mem, blocks[0], blocks[|blocks| - 1], start);
    ArenaRing(mem, blocks, arenas, start);
    NotTheLast(mem, blocks, arenas, start);
    forall j | 0 <= j < |blocks| ensures BlockAt(mem', blocks[j]) == BlockAt(mem, blocks[j]) {
      ArenaFrame(mem, blocks, arenas, start, j);
    }
    assert ChainOf(mem', blocks + [start]) == ChainOf(mem, blocks) + [WholeArena(start)];
    WholeArenaKeepsShape(ChainOf(mem, blocks), start, arenas);
  }

  /** A word of a payload is no header word. */
  lemma PayloadWrite(mem: Memory, blocks: seq<nat>, arenas: seq<Arena>, i: nat, a: nat, value: nat)
    requires HeapOk(mem, blocks, arenas) && i < |blocks|
    requires Payload(BlockAt(mem, blocks[i])) <= a && a + 8 <= End(BlockAt(mem, blocks[i])) && a % 8 == 0
    ensures HeapOk(mem[a := value], blocks, arenas) && ChainOf(mem[a := value], blocks) == ChainOf(mem, blocks)
  {
    AllHeadersApart(mem, blocks, arenas, i);
    assert ChainOf(mem[a := value], blocks) == ChainOf(mem, blocks);
  }

  // ---------- payloads are left alone ----------

  ghost predicate SameOutside(mem: Memory, mem': Memory, from: nat, to: nat) {
    forall a: nat :: a < from || to <= a ==> WordAt(mem', a) == WordAt(mem, a)
  }

  /** Every word of every payload in use reads as before. */
  ghost predicate PayloadsKept(mem: Memory, mem': Memory, chain: seq<Block>) {
    forall i, a: nat :: 0 <= i < |chain| && chain[i].used && Payload(chain[i]) <= a < End(chain[i]) ==>
      WordAt(mem', a) == WordAt(mem, a)
  }

  lemma OutsideKeepsPayloads(mem: Memory, mem': Memory, blocks: seq<nat>, arenas: seq<Arena>, i: nat)
    requires HeapOk(mem, blocks, arenas) && i < |blocks| && !BlockAt(mem, blocks[i]).used
    requires SameOutside(mem, mem', blocks[i], End(BlockAt(mem, blocks[i])))
    ensures PayloadsKept(mem, mem', ChainOf(mem, blocks))
  {
    var chain := ChainOf(mem, blocks);
    forall j, a: nat | 0 <= j < |chain| && chain[j].used && Payload(chain[j]) <= a < End(chain[j])
      ensures WordAt(mem', a) == WordAt(mem, a)
    {
      assert Apart(chain[if i < j then i else j], chain[if i < j then j else i]);
    }
  }

  lemma HeaderKeepsPayloads(mem: Memory, mem': Memory, blocks: seq<nat>, arenas: seq<Arena>, i: nat)
    requires HeapOk(mem, blocks, arenas) && i < |blocks|
    requires SameOutside(mem, mem', blocks[i], blocks[i] + HEADER)
    ensures PayloadsKept(mem, mem', ChainOf(mem, blocks))
  {
    var chain := ChainOf(mem, blocks);
    forall j, a: nat | 0 <= j < |chain| && chain[j].used && Payload(chain[j]) <= a < End(chain[j])
      ensures WordAt(mem', a) == WordAt(mem, a)
    {
      if i != j { assert Apart(chain[if i < j then i else j], chain[if i < j then j else i]); }
    }
  }

  lemma ArenaKeepsPayloads(mem: Memory, mem': Memory, blocks: seq<nat>, arenas: seq<Arena>, start: nat)
    requires HeapOk(mem, blocks, arenas) && FreshArena(arenas, start)
    requires var prev := blocks[|blocks| - 1];
      forall a: nat :: !(start <= a < start + ARENA) && !(prev <= a < prev + HEADER) ==>
        WordAt(mem', a) == WordAt(mem, a)
    ensures PayloadsKept(mem, mem', ChainOf(mem, blocks))
  {
    var chain := ChainOf(mem, blocks);
    forall j, a: nat | 0 <= j < |chain| && chain[j].used && Payload(chain[j]) <= a < End(chain[j])
      ensures WordAt(mem', a) == WordAt(mem, a)
    {
      assert BlockOk(chain[j], arenas);
      BesideArena(chain[j], arenas, start);
      if j < |blocks| - 1 { assert Apart(chain[j], chain[|blocks| - 1]); }
    }
  }

  // ---------- the allocator ----------

  class Heap {
    var mem: Memory
    /** __heap_block_free_list */
    var head: nat
    /** Header addresses in the order of the `next` links. */
    ghost var blocks: seq<nat>
    ghost var arenas: seq<Arena>

    ghost function Chain(): seq<Block>
      reads this`mem, this`blocks
    {
      ChainOf(mem, blocks)
    }

    ghost predicate Valid()
      reads this
    {
      HeapOk(mem, blocks, arenas) && blocks[0] == head
    }

    /** __heap_init over the memory from `start` on. */
    constructor (start: nat, size: nat)
      requires start > 0 && start % ALIGN == 0 && size % ALIGN == 0 && size >= HEADER && start + size <= WORD_LIMIT
      ensures Valid() && arenas == [Arena(start, size)] && Chain() == [Block(start, size - HEADER, false)]
    {
      head := start;
      mem := map[start := start, start + 8 := size - HEADER];
      blocks := [start];
      arenas := [Arena(start, size)];
      new;
      FirstBlock(mem, start, size);
    }

    /** header->size := size, with the allocated bit. */
    method SetSize(h: nat, size: nat, used: bool, ghost i: nat)
      requires Valid() && i < |blocks| && blocks[i] == h && size % ALIGN == 0 && size <= BlockAt(mem, h).size
      modifies this`mem
      ensures Valid() && Chain() == old(Chain())[i := Block(h, size, used)]
      ensures SameOutside(old(mem), mem, h, h + HEADER) && mem == old(mem)[h + 8 := SizeWord(size, used)]
    {
      SizeWrite(mem, blocks, arenas, i, size, used);
      mem := mem[h + 8 := SizeWord(size, used)];
    }

    /** __heap_split. A block that holds the request is cut in two, or left alone. */
    method Split(h: nat, size: nat, ghost i: nat)
      requires Valid() && i < |blocks| && blocks[i] == h && !BlockAt(mem, h).used && size % ALIGN == 0
      modifies this`mem, this`blocks
      ensures mem == SplitHeader(old(mem), h, size)
      ensures size > old(BlockAt(mem, h).size) ==> blocks == old(blocks)
      ensures size <= old(BlockAt(mem, h).size) ==>
        && Valid()
        && SameOutside(old(mem), mem, h, old(End(BlockAt(mem, h))))
        && var b := old(BlockAt(mem, h));
        if b.size - size >= HEADER + ALIGN then
          && blocks == SplitBlocks(old(blocks), i, size)
          && Chain() == old(Chain())[..i] + SplitPieces(b, size) + old(Chain())[i + 1..]
        else blocks == old(blocks) && mem == old(mem)
    {
      ghost var b := BlockAt(mem, h);
      BlockEnds(i);
      if size <= b.size {
        SplitHeaderFits(mem, h, size);
        if b.size - size >= HEADER + ALIGN {
          SplitWrite(mem, blocks, arenas, i, size);
          blocks := SplitBlocks(blocks, i, size);
        }
      }
      mem := SplitHeader(mem, h, size);
    }

    lemma BlockEnds(i: nat)
      requires Valid() && i < |blocks|
      ensures End(BlockAt(mem, blocks[i])) <= WORD_LIMIT
    {
      assert BlockOk(Chain()[i], arenas);
    }

    /** A fresh arena becomes one free block at the end of the list. */
    method AddArena(prev: nat, start: nat)
      requires Valid() && FreshArena(arenas, start) && prev == blocks[|blocks| - 1]
      modifies this`mem, this`blocks, this`arenas
      ensures Valid() && blocks == old(blocks) + [start] && arenas == old(arenas) + [Arena(start, ARENA)]
      ensures Chain() == old(Chain()) + [WholeArena(start)]
      ensures forall a: nat :: !(start <= a < start + ARENA) && !(prev <= a < prev + HEADER) ==>
        WordAt(mem, a) == WordAt(old(mem), a)
    {
      ArenaWrite(mem, blocks, arenas, start);
      mem := ArenaMemory(mem, head, prev, start);
      blocks := blocks + [start];
      arenas := arenas + [Arena(start, ARENA)];
    }

    /** The request is served from the list, or from a fresh arena that can hold it. */
    ghost predicate Servable(size: nat, arena: Option<nat>)
      reads this`mem, this`blocks
    {
      FirstFit(Chain(), Rounded(size)) < |blocks| || arena.None? || Rounded(size) <= ARENA - HEADER
    }

    /** __heap_alloc. `arena` is what __heap_sbrk would return. */
    method Alloc(size: nat, arena: Option<nat>) returns (ptr: nat, ghost at: nat)
      requires Valid() && (arena.Some? ==> FreshArena(arenas, arena.value))
      modifies this`mem, this`blocks, this`arenas
      ensures size == 0 || old(Servable(size, arena)) ==>
        && Valid() && PayloadsKept(old(mem), mem, old(Chain()))
        && var chain, s := old(Chain()), Rounded(size);
        var i := FirstFit(chain, s);
        if size == 0 then ptr == 0 && Chain() == chain && arenas == old(arenas)
        else if i < |chain| then ptr == Payload(chain[i]) && Chain() == TakeFrom(chain, i, s) && arenas == old(arenas)
        else if arena.None? then ptr == 0 && Chain() == chain && arenas == old(arenas)
        else
          && ptr == arena.value + HEADER && Chain() == chain + CarveArena(arena.value, s)
          && arenas == old(arenas) + [Arena(arena.value, ARENA)]
      // The same in numbers: block `at` is the first free one of n bytes or more; it is taken, and
      // what is left over becomes a free block if it has room for a header and 16 bytes.
      ensures 0 < size <= WORD_LIMIT - 16 ==>
        var c, n := old(Chain()), (size + 15) / 16 * 16;
        && (at < |c| ==> !c[at].used && c[at].size >= n)
        && at <= |c| && (forall j :: 0 <= j < at ==> c[j].used || c[j].size < n)
      ensures 0 < size <= WORD_LIMIT - 16 && at < old(|Chain()|) ==>
        var c, n := old(Chain()), (size + 15) / 16 * 16;
        && ptr == c[at].addr + 16 && arenas == old(arenas)
        && Chain() == c[..at] + [Block(c[at].addr, n, true)]
          + (if c[at].size >= n + 32 then [Block(c[at].addr + 16 + n, c[at].size - n - 16, false)] else [])
          + c[at + 1..]
      ensures 0 < size <= WORD_LIMIT - 16 && at == old(|Chain()|) && arena.None? ==>
        ptr == 0 && Chain() == old(Chain()) && arenas == old(arenas)
      ensures 0 < size <= WORD_LIMIT - 16 && at == old(|Chain()|) && arena.Some? ==>
        var n, start := (size + 15) / 16 * 16, arena.value;
        && ptr == start + 16 && arenas == old(arenas) + [Arena(start, 0x20_0000)]
        && BlockAt(mem, start) == Block(start, if 0x20_0000 - 48 < n <= 0x20_0000 - 16 then 0x20_0000 - 16 else n, true)
        && (n <= 0x20_0000 - 48 ==>
          Chain() == old(Chain()) + [Block(start, n, true), Block(start + 16 + n, 0x20_0000 - 32 - n, false)])
        && (0x20_0000 - 48 < n <= 0x20_0000 - 16 ==> Chain() == old(Chain()) + [Block(start, 0x20_0000 - 16, true)])
      ensures ptr != 0 && old(Servable(size, arena)) ==>
        && at < |Chain()| && ptr == Payload(Chain()[at]) && Chain()[at].used
        && (Chain()[at].size >= size <==> size <= WORD_LIMIT - ALIGN)
      ensures size > 0 && !old(Servable(size, arena)) ==>
        && ptr == arena.value + HEADER && BlockAt(mem, arena.value) == Block(arena.value, Rounded(size), true)
        && !InArena(BlockAt(mem, arena.value), arenas) && arenas == old(arenas) + [Arena(arena.value, ARENA)]
    {
      hide BlockAt, HeapOk, FreshArena, CarveArena, Carve, TakeFrom, PayloadsKept, Rounded, InArena, FirstFit;
      at := 0;
      if size == 0 {
        NothingWritten(mem, Chain());
        return 0, 0;
      }
      if size <= WORD_LIMIT - 16 { RoundedInNumbers(size); }
      RoundedIsAligned(size);
      RoundedHoldsIff(size);
      var found, header, prev;
      ghost var i;
      found, header, prev, i := Search(Rounded(size));
      at := i;
      if found {
        TakeFirst(header, Rounded(size), i);
        OutsideKeepsPayloads(old(mem), mem, old(blocks), old(arenas), i);
        TakenIsUsed(old(Chain()), i, Rounded(size));
        TakenInNumbers(old(Chain()), Rounded(size), i);
        BlockAddress(old(mem), header);
        return header + HEADER, i;
      }
      NothingWritten(mem, Chain());
      if arena.None? { return 0, i; }
      TakeArena(prev, arena.value, Rounded(size));
      if Rounded(size) <= ARENA - HEADER {
        ArenaKeepsPayloads(old(mem), mem, old(blocks), old(arenas), arena.value);
        CarvedIsUsed(old(Chain()), arena.value, Rounded(size));
        CarvedInNumbers(arena.value, Rounded(size));
        CarvedBlock(mem, blocks, old(Chain()), arena.value, Rounded(size));
      }
      ptr := arena.value + HEADER;
    }

    /** The walk around the list: it stops at the first fit, or back at the head. */
    method Search(size: nat) returns (found: bool, header: nat, prev: nat, ghost i: nat)
      requires Valid()
      ensures i == FirstFit(Chain(), size) && (found <==> i < |blocks|)
      ensures found ==> header == blocks[i]
      ensures !found ==> prev == blocks[|blocks| - 1]
    {
      hide ChainOk, FirstFit, Fits, BlockAt;
      header, prev, i := head, 0, 0;
      while true
        invariant i < |blocks| && header == blocks[i] && (i > 0 ==> prev == blocks[i - 1])
        invariant forall j :: 0 <= j < i ==> !Fits(Chain()[j], size)
        decreases |blocks| - i
      {
        FitsInMemory(mem, header, size);
        if WordAt(mem, header + 8) % 2 == 0 && WordAt(mem, header + 8) >= size {
          FirstFitIs(Chain(), size, i);
          return true, header, prev, i;
        }
        prev := header;
        header := WordAt(mem, header);
        i := i + 1;
        if i < |blocks| { HeadersDiffer(mem, blocks, arenas, i); }
        if header == head { break; }
      }
      NoFit(Chain(), size);
      found := false;
    }

    /** A fresh arena is linked in, split and marked. */
    method TakeArena(prev: nat, start: nat, size: nat)
      requires Valid() && FreshArena(arenas, start) && prev == blocks[|blocks| - 1]
      requires size % ALIGN == 0 && size < WORD_LIMIT
      modifies this`mem, this`blocks, this`arenas
      ensures arenas == old(arenas) + [Arena(start, ARENA)]
      ensures size <= ARENA - HEADER ==>
        && Valid() && Chain() == old(Chain()) + CarveArena(start, size)
        && forall a: nat :: !(start <= a < start + ARENA) && !(prev <= a < prev + HEADER) ==>
          WordAt(mem, a) == WordAt(old(mem), a)
      ensures size > ARENA - HEADER ==>
        BlockAt(mem, start) == Block(start, size, true) && !InArena(BlockAt(mem, start), arenas)
    {
      hide HeapOk, CarveArena, FreshArena, SplitHeader, MarkedUsed, InArena, Heap.Valid;
      ghost var chain := Chain();
      ArenaPlace(arenas, start);
      ghost var prior := arenas;
      AddArena(prev, start);
      ghost var linked, i := mem, |chain|;
      assert Chain()[i] == WholeArena(start) && blocks[i] == start;
      Split(start, size, i);
      MarkUsed(start, i);
      if size <= ARENA - HEADER {
        CarveArenaInSteps(chain, Chain(), start, size);
      } else {
        OversizedSplit(linked, start, size);
        BeyondArenas(prior, start, size);
      }
    }

    /** header->size |= 1 */
    method MarkUsed(h: nat, ghost i: nat)
      modifies this`mem
      ensures mem == MarkedUsed(old(mem), h)
      ensures old(Valid()) && i < |blocks| && blocks[i] == h ==>
        && Valid() && Chain() == old(Chain())[i := old(BlockAt(mem, h)).(used := true)]
        && SameOutside(old(mem), mem, h, h + HEADER)
    {
      hide HeapOk;
      if Valid() && i < |blocks| && blocks[i] == h {
        BlockIsAligned(i);
        SizeWrite(mem, blocks, arenas, i, BlockAt(mem, h).size, true);
      }
      mem := MarkedUsed(mem, h);
    }

    lemma BlockIsAligned(i: nat)
      requires Valid() && i < |blocks|
      ensures BlockAt(mem, blocks[i]).size % ALIGN == 0
    {
      assert BlockOk(Chain()[i], arenas);
    }

    /** The first fitting block is split and marked. */
    method TakeFirst(header: nat, size: nat, ghost i: nat)
      requires Valid() && i < |blocks| && blocks[i] == header && size % ALIGN == 0 && Fits(BlockAt(mem, header), size)
      modifies this`mem, this`blocks
      ensures Valid() && Chain() == TakeFrom(old(Chain()), i, size)
      ensures SameOutside(old(mem), mem, header, old(End(BlockAt(mem, header))))
    {
      ghost var chain := Chain();
      hide HeapOk;
      Split(header, size, i);
      ghost var mid := Chain();
      SetSize(header, size, true, i);
      TakeInSteps(chain, mid, Chain(), i, size);
    }

    /** __heap_free. The pointer came from Alloc; a second release of it aborts. */
    method Free(ptr: nat, ghost i: nat) returns (aborted: bool)
      requires Valid() && (ptr != 0 ==> i < |blocks| && ptr == Payload(Chain()[i]))
      modifies this`mem
      ensures Valid()
      ensures aborted <==> ptr == 0 || !old(Chain()[i]).used
      ensures Chain() == if aborted then old(Chain()) else Release(old(Chain()), i)
      ensures PayloadsKept(old(mem), mem, old(Chain()))
      ensures aborted ==> mem == old(mem)
      ensures !aborted ==>
        && mem == old(mem)[ptr - 8 := old(WordAt(mem, ptr - 8)) - 1]
        && !Chain()[i].used && Chain()[i].addr == ptr - 16 && Chain()[i].size == old(Chain()[i]).size
        && |Chain()| == old(|Chain()|) && forall j :: 0 <= j < |Chain()| && j != i ==> Chain()[j] == old(Chain()[j])
    {
      if ptr == 0 { return true; }
      var header := ptr - HEADER;
      if WordAt(mem, header + 8) % 2 == 0 { return true; }
      SetSize(header, WordAt(mem, header + 8) / 2 * 2, false, i);
      HeaderKeepsPayloads(old(mem), mem, blocks, arenas, i);
      aborted := false;
    }

    /** A block that was released is free, and releasing it again aborts. */
    method FreeTwice(ptr: nat, ghost i: nat) returns (first: bool, second: bool)
      requires Valid() && i < |blocks| && ptr == Payload(Chain()[i])
      modifies this`mem
      ensures Valid() && (first <==> !old(Chain()[i].used)) && second
      ensures !Chain()[i].used && Chain()[i].addr == ptr - 16 && Chain()[i].size == old(Chain()[i].size)
    {
      hide HeapOk;
      first := Free(ptr, i);
      second := Free(ptr, i);
    }

    /** A program writes a word of a payload: no header changes. */
    method Write(a: nat, value: nat, ghost i: nat)
      requires Valid() && i < |blocks| && a % 8 == 0
      requires Payload(Chain()[i]) <= a && a + 8 <= End(Chain()[i])
      modifies this`mem
      ensures Valid() && Chain() == old(Chain()) && mem == old(mem)[a := value]
    {
      PayloadWrite(mem, blocks, arenas, i, a, value);
      mem := mem[a := value];
    }
  }

  lemma {:induction false} FirstFitIs(chain: seq<Block>, size: nat, i: nat)
    requires i < |chain| && Fits(chain[i], size) && forall j :: 0 <= j < i ==> !Fits(chain[j], size)
    ensures FirstFit(chain, size) == i
  {
    if i > 0 { FirstFitIs(chain[1..], size, i - 1); }
  }

  lemma NoFit(chain: seq<Block>, size: nat)
    requires forall j :: 0 <= j < |chain| ==> !Fits(chain[j], size)
    ensures FirstFit(chain, size) == |chain|
  {
  }

  lemma TakenInNumbers(c: seq<Block>, n: nat, i: nat)
    requires i < |c| && n <= c[i].size
    ensures TakeFrom(c, i, n) == c[..i] + [Block(c[i].addr, n, true)]
      + (if c[i].size >= n + 32 then [Block(c[i].addr + 16 + n, c[i].size - n - 16, false)] else []) + c[i + 1..]
  {
    assert c[..i] + [Block(c[i].addr, n, true)] + [] == c[..i] + [Block(c[i].addr, n, true)];
    if c[i].size >= n + 32 {
      var x, y := Block(c[i].addr, n, true), Block(c[i].addr + 16 + n, c[i].size - n - 16, false);
      assert [x, y] == [x] + [y];
      assert c[..i] + ([x] + [y]) == c[..i] + [x] + [y];
    }
  }

  lemma BlockAddress(mem: Memory, h: nat)
    ensures BlockAt(mem, h).addr == h
  {
  }

  lemma CarvedBlock(mem: Memory, blocks: seq<nat>, chain: seq<Block>, start: nat, n: nat)
    requires n <= ARENA - HEADER && ChainOf(mem, blocks) == chain + CarveArena(start, n)
    ensures |CarveArena(start, n)| > 0 && BlockAt(mem, start) == CarveArena(start, n)[0]
  {
    assert ChainOf(mem, blocks)[|chain|] == BlockAt(mem, blocks[|chain|]) == CarveArena(start, n)[0];
  }

  lemma CarvedInNumbers(start: nat, n: nat)
    requires n <= ARENA - HEADER
    ensures CarveArena(start, n) == if n <= 0x20_0000 - 48
      then [Block(start, n, true), Block(start + 16 + n, 0x20_0000 - 32 - n, false)]
      else [Block(start, 0x20_0000 - 16, true)]
  {
  }

  lemma NothingWritten(mem: Memory, chain: seq<Block>)
    ensures PayloadsKept(mem, mem, chain)
  {
  }

  lemma ArenaPlace(arenas: seq<Arena>, start: nat)
    requires FreshArena(arenas, start)
    ensures start % ALIGN == 0 && start + ARENA <= WORD_LIMIT
  {
    assert start == 16 * (131072 * (start / ARENA));
  }

  lemma BeyondArenas(arenas: seq<Arena>, start: nat, size: nat)
    requires FreshArena(arenas, start) && size > ARENA - HEADER
    ensures !InArena(Block(start, size, true), arenas + [Arena(start, ARENA)])
  {
  }

  lemma TakenIsUsed(chain: seq<Block>, i: nat, size: nat)
    requires i < |chain| && size <= chain[i].size
    ensures i < |TakeFrom(chain, i, size)| && TakeFrom(chain, i, size)[i] == Block(chain[i].addr, size, true)
  {
  }

  lemma CarvedIsUsed(chain: seq<Block>, start: nat, size: nat)
    requires size <= ARENA - HEADER
    ensures |CarveArena(start, size)| > 0
    ensures var b := (chain + CarveArena(start, size))[|chain|];
      b.addr == start && b.used && (b.size == size || b.size == ARENA - HEADER)
  {
  }

  /** A split and the allocated bit together take the block. */
  lemma TakeInSteps(chain: seq<Block>, mid: seq<Block>, after: seq<Block>, i: nat, size: nat)
    requires i < |chain| && Fits(chain[i], size)
    requires mid == if chain[i].size - size >= HEADER + ALIGN
      then chain[..i] + SplitPieces(chain[i], size) + chain[i + 1..] else chain
    requires after == mid[i := Block(chain[i].addr, size, true)]
    ensures after == TakeFrom(chain, i, size)
  {
  }

  lemma CarveArenaInSteps(chain: seq<Block>, after: seq<Block>, start: nat, size: nat)
    requires size <= ARENA - HEADER
    requires after == if ARENA - HEADER - size >= HEADER + ALIGN
      then chain + [Block(start, size, true), Block(start + HEADER + size, ARENA - HEADER - size - HEADER, false)]
      else chain + [Block(start, ARENA - HEADER, true)]
    ensures after == chain + CarveArena(start, size)
  {
  }
}
