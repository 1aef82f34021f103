/** A program's arguments from the launcher's message to the new task's own memory. */
module Launch {
  import opened Options
  import opened Paging
  import opened AddressSpace
  import opened Kernel
  import opened Bytes
  import SpaceSteps
  import opened Argv
  import opened StackBooks
  import opened StackGrowth
  import opened TaskSteps
  import opened TaskTables
  import opened Words

  /** The task reads these bytes from an address on. */
  ghost predicate Reads(t: TaskTable, id: Id, at: nat, bytes: seq<char>)
    requires t.Valid() && id in t.table
    reads t
  {
    forall k: nat :: k < |bytes| ==> t.ReadByte(id, at + k) == Some(bytes[k])
  }

  /** The pointer word of argument i holds an address at which the task reads the argument with
      its NUL. */
  ghost predicate Found(t: TaskTable, id: Id, indexRoot: nat, arg: string, i: nat)
    requires t.Valid() && id in t.table
    reads t
  {
    exists w: seq<char> :: |w| == WORD && Reads(t, id, indexRoot + WORD * i, w)
      && Reads(t, id, LittleEndian(w), arg + [NUL])
  }

  lemma ReadsPart(t: TaskTable, id: Id, at: nat, bytes: seq<char>, from: nat, part: seq<char>)
    requires t.Valid() && id in t.table && Reads(t, id, at, bytes)
    requires from + |part| <= |bytes| && bytes[from..from + |part|] == part
    ensures Reads(t, id, at + from, part)
  {
    forall k: nat | k < |part| ensures t.ReadByte(id, at + from + k) == Some(part[k]) {
      assert part[k] == bytes[from + k];
      assert t.ReadByte(id, at + (from + k)) == Some(bytes[from + k]);
    }
  }

  lemma FoundAt(t: TaskTable, id: Id, image: seq<char>, arg: string, i: nat, p: nat)
    requires t.Valid() && id in t.table && |image| <= t.m.end && Reads(t, id, t.m.end - |image|, image)
    requires var from := p - (t.m.end - |image|);
      && from >= 0 && from + |arg| + 1 <= |image| && WORD * i + WORD <= |image|
      && LittleEndian(image[WORD * i..WORD * i + WORD]) == p
      && image[from..from + |arg| + 1] == arg + [NUL]
    ensures Found(t, id, t.m.end - |image|, arg, i)
  {
    hide TaskTable.Valid, Reads, LittleEndian;
    var root := t.m.end - |image|;
    ReadsPart(t, id, root, image, WORD * i, image[WORD * i..WORD * i + WORD]);
    ReadsPart(t, id, root, image, p - root, arg + [NUL]);
  }

  /** A block that the task reads right below the end of its space gives it every argument. */
  lemma FoundFromImage(t: TaskTable, id: Id, image: seq<char>, args: seq<string>, i: nat)
    requires t.Valid() && id in t.table && i < |args| && |image| <= t.m.end < Power256(WORD)
    requires Pointed(image, args, t.m.end, i) && Reads(t, id, t.m.end - |image|, image)
    ensures Found(t, id, t.m.end - |image|, args[i], i)
  {
    hide TaskTable.Valid, Reads, Found, Pointed;
    PointedParts(image, args, t.m.end, i);
    FoundAt(t, id, image, args[i], i, ArgAddress(args, t.m.end, i));
  }

  /** The requested stack is a whole number of small pages, so the first growth takes it as it is. */
  lemma FirstGrowthIsCommit(t: TaskTable, args: seq<string>)
    requires StackCommit(args) < MEGA_PAGE_SIZE
    ensures t.FirstRange(StackCommit(args)).size == StackCommit(args) && StackCommit(args) > 0
  {
    assert StackCommit(args) % PAGE == 0;
  }

  /** The requested stack is below 2 MiB and inside the address space. */
  predicate SmallStack(t: TaskTable, args: seq<string>) {
    Aligned(t.m.end, 0) && StackCommit(args) < MEGA_PAGE_SIZE && StackCommit(args) < t.m.end
  }

  lemma CommitInNumbers(t: TaskTable, args: seq<string>, starts: seq<nat>)
    requires Starts(args, starts)
    ensures var text := starts[|args|] - 8 * |args|;
      var n := if text <= 16384 then 16384 else (text + 4095) / 4096 * 4096;
      && TotalLength(args) == (starts[|args|] + 7) / 8 * 8
      && (text <= 0x1_0000_0000 ==>
        && StackCommit(args) == n == (StackCommit(args) + 4095) / 4096 * 4096 && 0 < n <= WORD_LIMIT - 4096
        && (StackCommit(args) > MEGA_PAGE_SIZE <==> text > 0x20_0000)
        && (SmallStack(t, args) <==> n < 0x20_0000 && n < t.m.end && t.m.end % 4096 == 0))
  {
    hide Aligned, PageSize, TextLength, TotalLength, StackCommit;
    StartsAre(args);
    OnlyStarts(args, starts, StartsOf(args), |args|);
    TotalIs(args, starts[|args|]);
    if TextLength(args) <= 0x1_0000_0000 { StackCommitIs(args); }
    AlignedIsDivisible(t.m.end, 0);
  }

  lemma {:induction false} OnlyStarts(args: seq<string>, a: seq<nat>, b: seq<nat>, i: nat)
    requires Starts(args, a) && Starts(args, b) && i <= |args|
    ensures a[i] == b[i]
  {
    if i > 0 {
      OnlyStarts(args, a, b, i - 1);
      assert |args[i - 1]| >= 0;
    }
  }

  /** The default quotas pay for a first stack below 2 MiB, twice. */
  lemma DefaultsFit(t: TaskTable, args: seq<string>)
    requires SmallStack(t, args)
    ensures t.FirstFits(OrDefault(0, DEFAULT_STACK), OrDefault(0, DEFAULT_TOTAL), t.FirstRange(StackCommit(args)), true)
  {
    FirstGrowthIsCommit(t, args);
  }

  lemma FullRange(m: Layout)
    requires LayoutOk(m) && m.max >= 1
    ensures m.end >= MEGA_PAGE_SIZE
    ensures Growth(m, NewTask(0, m, 0, 0, 0), MEGA_PAGE_SIZE) == Range(m.end - MEGA_PAGE_SIZE, m.end, MEGA_PAGE_SIZE)
  {
    hide PageSize;
    MegaIsLevelOne(m.max);
  }

  /** The loop over the full default stack would end outside the space. */
  lemma FullStackIsNotCovered(k: State, info: TaskInfo, m: Layout, before: map<nat, Cap>, start: nat)
    requires LayoutOk(m) && SpaceOk(k, info, m) && m.max >= 1
    requires m.end % MEGA_PAGE_SIZE == 0 && start == m.end - MEGA_PAGE_SIZE
    ensures Aligned(start, 0) && Aligned(m.end, 0) && start < m.end
    ensures !Covered(k.pages, info.pages, before, start, Finish(m.max, start, m.end))
  {
    hide LayoutOk, SpaceOk, Finish, Covered, Aligned, PageSize, Overshoots, FirstMega;
    MegaIsAligned(start);
    MegaIsAligned(m.end);
    FullDefaultStackOvershoots(m.end);
    ExactUnlessOvershoot(m.max, start, m.end);
    if Covered(k.pages, info.pages, before, start, Finish(m.max, start, m.end)) {
      CoveredStaysInside(k, info, m, before, start, Finish(m.max, start, m.end));
    }
  }

  /** The full default stack of a new task is never laid out. */
  lemma FullStackNotExtended(t: TaskTable, books: BookMap, charged: map<Id, nat>, quotas: map<Id, nat>, id: Id)
    requires t.Valid() && id in t.table && id in books
    requires t.m.max >= 1 && t.m.end % MEGA_PAGE_SIZE == 0
    ensures var g := t.FirstRange(MEGA_PAGE_SIZE);
      Aligned(g.start, 0) && Aligned(g.end, 0) && !t.Extended(books, charged, quotas, id, g, true)
  {
    hide TaskTable.Valid, LayoutOk, SpaceOk, Growth, Finish, Covered, Grew, Twiced, Raised, Committed, Aligned,
         PageSize, Books;
    t.TableIsOk(id);
    t.SpaceEnds();
    FullRange(t.m);
    FullStackIsNotCovered(t.kernel, t.table[id], t.m, books[id].pages, t.m.end - MEGA_PAGE_SIZE);
  }

  /** The task constructor hands its block to the memory manager as the data of the new stack;
      the requested size counts the text alone. The stack is laid out exactly when the block,
      pointers included, fits that size. */
  method Launch(t: TaskTable, id: Id, root: nat, args: seq<string>)
    returns (code: Code, sp: nat, indexRoot: nat, ghost grown: Code, ghost starts: seq<nat>)
    requires t.Valid() && (id !in t.table ==> SpaceSteps.FreshRoot(t.kernel, t.table, false, t.m, root))
    requires TotalLength(args) <= t.m.end < Power256(WORD)
    modifies t
    ensures t.Valid() && indexRoot == t.m.end - TotalLength(args)
    ensures id !in old(t.table) ==> (code == IllArgs <==> StackCommit(args) > MEGA_PAGE_SIZE)
    ensures code == Ok ==> id in t.table && sp == indexRoot && (grown != Ok ==> t.table[id].stackCommit == 0)
    ensures code == Ok && grown == Ok && StackCommit(args) < MEGA_PAGE_SIZE && StackCommit(args) <= t.m.end ==>
      TotalLength(args) <= StackCommit(args) && forall i: nat :: i < |args| ==> Found(t, id, indexRoot, args[i], i)
    ensures code == Ok && StackCommit(args) == MEGA_PAGE_SIZE && t.m.max >= 1 && t.m.end % MEGA_PAGE_SIZE == 0 ==>
      grown != Ok
    ensures id !in old(t.table) && id != t.self && SmallStack(t, args) ==>
      t.Hindered() > old(t.Hindered()) || (grown == Ok <==> TotalLength(args) <= StackCommit(args))
    // In numbers: the requested size counts the text, the block the pointers too.
    ensures Starts(args, starts) && indexRoot == t.m.end - (starts[|args|] + 7) / 8 * 8
    ensures var text := starts[|args|] - 8 * |args|;
      id !in old(t.table) && text <= 0x1_0000_0000 ==> (code == IllArgs <==> text > 0x20_0000)
    ensures var text := starts[|args|] - 8 * |args|;
      var n := if text <= 16384 then 16384 else (text + 4095) / 4096 * 4096;
      id !in old(t.table) && id != t.self && n < 0x20_0000 && n < t.m.end && t.m.end % 4096 == 0 ==>
        && (t.Hindered() > old(t.Hindered()) || (grown == Ok <==> (starts[|args|] + 7) / 8 * 8 <= n))
        && (code == Ok && grown == Ok ==> t.table[id].stackCommit == n)
  {
    hide TaskTable.Valid, SpaceSteps.FreshRoot, StackCommit, TotalLength, Pointed, Found, SmallStack;
    var image: array<char>;
    image, indexRoot, starts := BuildStack(args, t.m.end);
    CommitInNumbers(t, args, starts);
    code, sp, grown := AttachBlock(t, id, root, args, image);
  }

  /** The request to the memory manager, with the block as its data. */
  method AttachBlock(t: TaskTable, id: Id, root: nat, args: seq<string>, image: array<char>)
    returns (code: Code, sp: nat, ghost grown: Code)
    requires t.Valid() && (id !in t.table ==> SpaceSteps.FreshRoot(t.kernel, t.table, false, t.m, root))
    requires image.Length == TotalLength(args) <= t.m.end < Power256(WORD)
    requires forall i: nat :: i < |args| ==> Pointed(image[..], args, t.m.end, i)
    modifies t
    ensures t.Valid()
    ensures id !in old(t.table) ==> (code == IllArgs <==> StackCommit(args) > MEGA_PAGE_SIZE)
    ensures code == Ok ==>
      id in t.table && sp == t.m.end - TotalLength(args) && (grown != Ok ==> t.table[id].stackCommit == 0)
    ensures code == Ok && grown == Ok && StackCommit(args) < MEGA_PAGE_SIZE && StackCommit(args) <= t.m.end ==>
      TotalLength(args) <= StackCommit(args) && forall i: nat :: i < |args| ==>
        Found(t, id, t.m.end - TotalLength(args), args[i], i)
    ensures code == Ok && StackCommit(args) == MEGA_PAGE_SIZE && t.m.max >= 1 && t.m.end % MEGA_PAGE_SIZE == 0 ==>
      grown != Ok
    ensures id !in old(t.table) && id != t.self && SmallStack(t, args) ==>
      t.Hindered() > old(t.Hindered()) || (grown == Ok <==> TotalLength(args) <= StackCommit(args))
    ensures code == Ok && grown == Ok && (StackCommit(args) + 4095) / 4096 * 4096 == StackCommit(args)
            && 0 < StackCommit(args) <= WORD_LIMIT - 4096 ==>
      t.table[id].stackCommit == StackCommit(args)
  {
    hide PageSize, OthersKept, TaskTable.Valid, TaskTable.FirstRange, TaskTable.FirstFits, TaskTable.TopReads,
         TaskTable.Extended, SpaceSteps.FreshRoot, Growth, Reads, StackCommit, TotalLength, Pointed, Found, Aligned;
    ghost var bytes := image[..];
    if SmallStack(t, args) { DefaultsFit(t, args); }
    if StackCommit(args) < MEGA_PAGE_SIZE { FirstGrowthIsCommit(t, args); }
    code, sp, grown := t.Attach(id, root, 0, 0, StackCommit(args), false, Some(image[..]));
    if code == Ok && StackCommit(args) == MEGA_PAGE_SIZE && t.m.max >= 1 && t.m.end % MEGA_PAGE_SIZE == 0 {
      ghost var info := t.Requested(root, 0, 0, 0);
      FullStackNotExtended(t, old(Books(t.table))[id := Book(info)], old(t.twice)[id := 0],
                           old(t.quota)[id := info.totalAvailable], id);
    }
    if code == Ok && grown == Ok && StackCommit(args) < MEGA_PAGE_SIZE && StackCommit(args) <= t.m.end {
      AllFound(t, id, bytes, args);
    }
  }

  lemma AllFound(t: TaskTable, id: Id, image: seq<char>, args: seq<string>)
    requires t.Valid() && id in t.table && |image| == TotalLength(args) <= t.m.end < Power256(WORD)
    requires forall i: nat :: i < |args| ==> Pointed(image, args, t.m.end, i)
    requires var g := t.FirstRange(StackCommit(args));
      Aligned(g.start, 0) && Aligned(g.end, 0) && t.TopReads(id, g, image)
    requires StackCommit(args) < MEGA_PAGE_SIZE && StackCommit(args) <= t.m.end
    ensures TotalLength(args) <= StackCommit(args)
    ensures forall i: nat :: i < |args| ==> Found(t, id, t.m.end - |image|, args[i], i)
  {
    hide TaskTable.Valid, TaskTable.FirstRange, Found, Pointed, StackCommit, TotalLength;
    FirstGrowthIsCommit(t, args);
    var g := t.FirstRange(StackCommit(args));
    t.FirstRangeIs(NewTask(0, t.m, 0, 0, 0), StackCommit(args));
    SmallIsPourable(t.m.max, g.start, g.end, |image|);
    assert Minus(t.m.end, |image|) == t.m.end - |image|;
    assert Reads(t, id, t.m.end - |image|, image);
    forall i: nat | i < |args| ensures Found(t, id, t.m.end - |image|, args[i], i) {
      FoundFromImage(t, id, image, args, i);
    }
  }

  /** A program started with one argument of 16383 characters is attached without a stack. */
  method LaunchLongArgument(t: TaskTable, id: Id, root: nat, arg: string)
      returns (code: Code, ghost grown: Code)
    requires t.Valid() && id !in t.table && SpaceSteps.FreshRoot(t.kernel, t.table, false, t.m, root)
    requires |arg| == 4 * PAGE - 1 && TotalLength([arg]) <= t.m.end < Power256(WORD)
    modifies t
    ensures t.Valid() && code != IllArgs
    ensures code == Ok ==> id in t.table && grown != Ok && t.table[id].stackCommit == 0
  {
    hide TaskTable.Valid, SpaceSteps.FreshRoot, StackCommit, TotalLength, Aligned, Found;
    LongArgumentDoesNotFit(arg);
    var sp, indexRoot;
    ghost var starts;
    code, sp, indexRoot, grown, starts := Launch(t, id, root, [arg]);
  }
}
