/** newc archives: the loader that fills the file system, the scan that looks for one name,
    and a writer. Names are flat. Bytes are characters. */
module Cpio {
  import opened Bytes
  import opened Digits
  import opened Options
  import opened Words
  import Ramfs

  const HEADER: nat := 110

  /** What starts a header, the name that ends the archive, and how numbers are read and written. */
  datatype Format = Format(magic: string, mark: string, number: string -> nat, digits: nat -> string)

  const NEWC := Format("070701", "TRAILER!!!", s => Strtoull(s), (n: nat) => HexDigits(n, 8))

  function RoundUp4(n: nat): nat {
    (n + 3) / 4 * 4
  }

  // ---------- one header ----------

  /** What stands at a position: not a header, bytes beyond the archive, the end mark, or a
      member. The name is what strcmp sees, up to its NUL. */
  datatype Scan = NotMagic | Beyond | EndMark | Member(name: string, nameSize: nat, dataSize: nat, dataAt: nat,
      next: nat)

  /** The header fields both programs read, in the same way. The comparison of the magic ends at
      the first byte that differs. */
  function ScanAt(f: Format, a: string, at: nat): (r: Scan)
    ensures r.Member? ==> r.next > at
  {
    if at > |a| then Beyond
    else if !(a[at..if at + 6 <= |a| then at + 6 else |a|] <= f.magic) then NotMagic
    else if at + HEADER > |a| then Beyond
    else Classify(f, at, CString(a, at + HEADER), f.number(a[at + 94..at + 102]), f.number(a[at + 54..at + 62]))
  }

  function Classify(f: Format, at: nat, name: Option<string>, nameSize: nat, dataSize: nat): (r: Scan)
    ensures r.Member? ==> r.next > at
  {
    if name.None? then Beyond
    else if name.value == f.mark then EndMark
    else
      var dataAt := at + RoundUp4(HEADER + nameSize);
      Member(name.value, nameSize, dataSize, dataAt, dataAt + RoundUp4(dataSize))
  }

  // ---------- the scan for one name ----------

  /** Endless: the program never comes back. */
  datatype Found = Missing | Crash | Endless | Found(at: nat, size: nat)

  /** Where the data of a member and the next header are, from the start of the archive on, in
      64-bit arithmetic. */
  function DataOf(at: nat, nameSize: nat): Word {
    Wrap(at + Wrap(Wrap(HEADER + nameSize) + 3) / 4 * 4)
  }

  function NextOf(at: nat, nameSize: nat, dataSize: nat): Word {
    Wrap(DataOf(at, nameSize) + Wrap(dataSize + 3) / 4 * 4)
  }

  /** The loop has come to a position, or it has ended. */
  datatype Stage = At(at: nat) | End(r: Found)

  /** One round of cpio_find_file for an archive that lies at `base`: a pointer behind the archive
      ends the loop, and one in front of it is followed. */
  function Round(f: Format, a: string, base: Word, at: nat, name: string): (stage: Stage)
    ensures stage.At? ==> at < |a|
    ensures stage.End? ==> stage.r != Endless
  {
    if Wrap(base + at) >= base + |a| then End(Missing)
    else if at >= |a| then End(Crash)
    else match ScanAt(f, a, at)
         case Beyond => End(Crash)
         case NotMagic => End(Missing)
         case EndMark => End(Missing)
         case Member(n, nameSize, dataSize, _, _) =>
           if n == name then End(Found(DataOf(at, nameSize), dataSize)) else At(NextOf(at, nameSize, dataSize))
  }

  /** Where the loop is after n rounds. */
  function Rounds(f: Format, a: string, base: Word, name: string, n: nat): Stage {
    if n == 0 then At(0)
    else match Rounds(f, a, base, name, n - 1)
         case End(r) => End(r)
         case At(at) => Round(f, a, base, at, name)
  }

  lemma {:induction false} SeenFits(seen: set<nat>, n: nat)
    requires forall x :: x in seen ==> x < n
    ensures |seen| <= n
    decreases n
  {
    if n > 0 {
      SeenFits(seen - {n - 1}, n - 1);
    } else {
      assert seen == {};
    }
  }

  /** What the search comes to; it goes round in circles when it comes back to a position. */
  function Search(f: Format, a: string, base: Word, at: nat, name: string, seen: set<nat>): Found
    requires forall x :: x in seen ==> x < |a|
    decreases |a| - |seen|
  {
    if at in seen then Endless
    else match Round(f, a, base, at, name)
         case End(r) => r
         case At(next) =>
           SeenFits(seen + {at}, |a|);
           Search(f, a, base, next, name, seen + {at})
  }

  /** Data that does not start with the magic number is no archive. */
  lemma NoMagic(a: string, base: Word, name: string)
    ensures |a| >= 6 && a[..6] != "070701" ==> ScanAt(NEWC, a, 0) == NotMagic
    ensures |a| >= 6 && a[..6] != "070701" && base + |a| <= WORD_LIMIT ==> Search(NEWC, a, base, 0, name, {}) == Missing
    ensures |a| == 0 && base + |a| < WORD_LIMIT ==> Search(NEWC, a, base, 0, name, {}) == Missing
  {
    WrapFits(base);
  }

  /** cpio_find_file, with Endless in place of a loop that never ends. */
  method FindFile(a: string, base: Word, name: string) returns (r: Found)
    ensures r == Search(NEWC, a, base, 0, name, {})
    ensures |a| >= 6 && a[..6] != "070701" && base + |a| <= WORD_LIMIT ==> r == Missing
    ensures |a| == 0 && base + |a| < WORD_LIMIT ==> r == Missing
  {
    NoMagic(a, base, name);
    var at: nat, seen: set<nat> := 0, {};
    while at !in seen
      invariant forall x :: x in seen ==> x < |a|
      invariant Search(NEWC, a, base, 0, name, {}) == Search(NEWC, a, base, at, name, seen)
      decreases |a| - |seen|
    {
      match Round(NEWC, a, base, at, name) {
        case End(found) => return found;
        case At(next) =>
          SeenFits(seen + {at}, |a|);
          at, seen := next, seen + {at};
      }
    }
    r := Endless;
  }

  /** The result is Endless exactly when every round leads to another, and otherwise it is what a
      round ends with. */
  lemma SearchIsRun(f: Format, a: string, base: Word, name: string)
    ensures var r := Search(f, a, base, 0, name, {});
      if r == Endless then forall n: nat :: Rounds(f, a, base, name, n).At?
      else exists n: nat :: Rounds(f, a, base, name, n) == End(r)
  {
    RunFrom(f, a, base, name, 0, {});
  }

  ghost predicate SeenAre(f: Format, a: string, base: Word, name: string, k: nat, seen: set<nat>) {
    && (forall x :: x in seen ==> x < |a|)
    && (forall i: nat :: i < k ==> Rounds(f, a, base, name, i).At? && Rounds(f, a, base, name, i).at in seen)
    && (forall x :: x in seen ==> exists i: nat :: i < k && Rounds(f, a, base, name, i) == At(x))
  }

  lemma {:induction false} RunFrom(f: Format, a: string, base: Word, name: string, k: nat, seen: set<nat>)
    requires SeenAre(f, a, base, name, k, seen) && Rounds(f, a, base, name, k).At?
    ensures var r := Search(f, a, base, Rounds(f, a, base, name, k).at, name, seen);
      if r == Endless then forall n: nat :: Rounds(f, a, base, name, n).At?
      else exists n: nat :: Rounds(f, a, base, name, n) == End(r)
    decreases |a| - |seen|
  {
    hide Round, Rounds, SeenAre;
    var at := Rounds(f, a, base, name, k).at;
    SeenBefore(f, a, base, name, k, seen);
    if at !in seen {
      NextRound(f, a, base, name, k + 1);
      if Round(f, a, base, at, name).At? {
        SeenFits(seen + {at}, |a|);
        SeenGrows(f, a, base, name, k, seen);
        RunFrom(f, a, base, name, k + 1, seen + {at});
      }
    }
  }

  /** Coming back to a position that was seen, the loop never ends. */
  lemma SeenBefore(f: Format, a: string, base: Word, name: string, k: nat, seen: set<nat>)
    requires SeenAre(f, a, base, name, k, seen) && Rounds(f, a, base, name, k).At?
    ensures forall x :: x in seen ==> x < |a|
    ensures Rounds(f, a, base, name, k).at in seen ==> forall n: nat :: Rounds(f, a, base, name, n).At?
  {
    hide Round, Rounds, SeenAre;
    SeenFit(f, a, base, name, k, seen);
    if Rounds(f, a, base, name, k).at in seen {
      var i := SeenAt(f, a, base, name, k, seen);
      forall n: nat ensures Rounds(f, a, base, name, n).At? { Circle(f, a, base, name, i, k, n); }
    }
  }

  lemma SeenFit(f: Format, a: string, base: Word, name: string, k: nat, seen: set<nat>)
    requires SeenAre(f, a, base, name, k, seen)
    ensures forall x :: x in seen ==> x < |a|
  {
    hide Round, Rounds;
  }

  lemma SeenAt(f: Format, a: string, base: Word, name: string, k: nat, seen: set<nat>) returns (i: nat)
    requires SeenAre(f, a, base, name, k, seen) && Rounds(f, a, base, name, k).At?
    requires Rounds(f, a, base, name, k).at in seen
    ensures i < k && Rounds(f, a, base, name, i) == Rounds(f, a, base, name, k)
    ensures forall j: nat :: j <= k ==> Rounds(f, a, base, name, j).At?
  {
    hide Round, Rounds;
    i :| i < k && Rounds(f, a, base, name, i) == At(Rounds(f, a, base, name, k).at);
  }

  lemma SeenGrows(f: Format, a: string, base: Word, name: string, k: nat, seen: set<nat>)
    requires SeenAre(f, a, base, name, k, seen) && Rounds(f, a, base, name, k).At?
    requires Rounds(f, a, base, name, k).at < |a|
    ensures SeenAre(f, a, base, name, k + 1, seen + {Rounds(f, a, base, name, k).at})
  {
    hide Rounds, Round;
    var at := Rounds(f, a, base, name, k).at;
    forall x | x in seen + {at} ensures exists i: nat :: i < k + 1 && Rounds(f, a, base, name, i) == At(x) {
      if x in seen {
        var i: nat :| i < k && Rounds(f, a, base, name, i) == At(x);
      } else {
        assert Rounds(f, a, base, name, k) == At(x);
      }
    }
  }

  /** Two rounds at one position: the loop never ends. */
  lemma {:induction false} Circle(f: Format, a: string, base: Word, name: string, i: nat, k: nat, n: nat)
    requires i < k && Rounds(f, a, base, name, i) == Rounds(f, a, base, name, k)
    requires forall j: nat :: j <= k ==> Rounds(f, a, base, name, j).At?
    ensures Rounds(f, a, base, name, n).At?
    decreases n
  {
    hide Rounds;
    if n > k {
      Circle(f, a, base, name, i, k, n - (k - i));
      SameRounds(f, a, base, name, i, k, n - k);
    }
  }

  lemma {:induction false} SameRounds(f: Format, a: string, base: Word, name: string, i: nat, k: nat, d: nat)
    requires Rounds(f, a, base, name, i) == Rounds(f, a, base, name, k)
    ensures Rounds(f, a, base, name, i + d) == Rounds(f, a, base, name, k + d)
  {
    hide Round;
    if d > 0 {
      SameRounds(f, a, base, name, i, k, d - 1);
      NextRound(f, a, base, name, i + d);
      NextRound(f, a, base, name, k + d);
      assert i + d - 1 == i + (d - 1) && k + d - 1 == k + (d - 1);
    }
  }

  lemma NextRound(f: Format, a: string, base: Word, name: string, n: nat)
    requires n > 0
    ensures var before := Rounds(f, a, base, name, n - 1);
      Rounds(f, a, base, name, n) == if before.End? then before else Round(f, a, base, before.at, name)
  {
    hide Round;
  }

  /** A member whose data size is read as 2^64 - 112: the next header is its own, and the search for
      any other name never ends. */
  lemma EndlessArchive(a: string, base: Word, name: string)
    requires PieceAt(a, 0, "070701") && PieceAt(a, 54, "-0000070") && PieceAt(a, 94, "00000002")
    requires PieceAt(a, HEADER, "x") && PieceAt(a, HEADER + 1, [NUL]) && name != "x" && base + |a| <= WORD_LIMIT
    ensures Search(NEWC, a, base, 0, name, {}) == Endless
  {
    hide ScanAt, Strtoull, NextOf, DataOf;
    SignedField();
    CStringReads(a, HEADER, "x");
    ScanIsClassify(NEWC, a, 0, Some("x"), 2, WORD_LIMIT - 112);
    BackToItself();
    WrapFits(base);
    assert Round(NEWC, a, base, 0, name) == At(0);
    var seen: set<nat> := {};
    SeenFits(seen + {0}, |a|);
    assert Search(NEWC, a, base, 0, name, seen + {0}) == Endless;
  }

  lemma BackToItself()
    ensures NextOf(0, 2, WORD_LIMIT - 112) == 0
  {
    assert DataOf(0, 2) == 112;
  }

  lemma SignedField()
    ensures Strtoull("-0000070") == WORD_LIMIT - 112 && Strtoull("00000002") == 2
  {
    hide Value, HexPrefix;
    HexPrefixOfHex("0000070");
    HexPrefixOfHex("00000002");
    assert "-0000070"[1..] == "0000070";
    SixteenTimesSeven();
    OnlyTwo();
  }

  lemma SixteenTimesSeven()
    ensures Value("0000070", Sixteen) == 112
  {
    var s := "0000070";
    assert Value("00000", Sixteen) == 0 by { ZerosAreZero(5); assert "00000" == seq(5, _ => '0'); }
    assert s[..6] == "000007" && "000007"[..5] == "00000";
    assert Value("000007", Sixteen) == 7;
  }

  lemma OnlyTwo()
    ensures Value("00000002", Sixteen) == 2
  {
    ZerosAreZero(7);
    assert "00000002"[..7] == seq(7, _ => '0');
  }

  lemma {:induction false} ZerosAreZero(n: nat)
    ensures AllHex(seq(n, _ => '0')) && Value(seq(n, _ => '0'), Sixteen) == 0
  {
    if n > 0 {
      ZerosAreZero(n - 1);
      assert seq(n, _ => '0')[..n - 1] == seq(n - 1, _ => '0');
    }
  }

  lemma {:induction false} HexPrefixOfHex(s: string)
    requires AllHex(s)
    ensures HexPrefix(s) == s
  {
    if s != "" { HexPrefixOfHex(s[1..]); }
  }

  // ---------- archives on which the search advances ----------

  const SIZE_LIMIT: nat := 0x1_0000_0000

  /** The first member of a name, as a function of the archive. */
  function Lookup(f: Format, a: string, at: nat, name: string): Found
    decreases |a| - at
  {
    if at >= |a| then Missing
    else match ScanAt(f, a, at)
         case Beyond => Crash
         case NotMagic => Missing
         case EndMark => Missing
         case Member(n, _, dataSize, dataAt, next) =>
           if n == name then Found(dataAt, dataSize) else Lookup(f, a, next, name)
  }

  /** No size that the search meets stands for 2^32 or more: eight characters without a sign. */
  predicate Advances(f: Format, a: string, at: nat, name: string)
    decreases |a| - at
  {
    if at >= |a| then true
    else match ScanAt(f, a, at)
         case Member(n, nameSize, dataSize, _, next) =>
           nameSize < SIZE_LIMIT && dataSize < SIZE_LIMIT && (n == name || Advances(f, a, next, name))
         case _ => true
  }

  lemma StepAdvances(at: nat, nameSize: nat, dataSize: nat)
    requires nameSize < SIZE_LIMIT && dataSize < SIZE_LIMIT && at + 4 * SIZE_LIMIT <= WORD_LIMIT
    ensures DataOf(at, nameSize) == at + RoundUp4(HEADER + nameSize)
    ensures NextOf(at, nameSize, dataSize) == at + RoundUp4(HEADER + nameSize) + RoundUp4(dataSize)
  {
    WrapFits(HEADER + nameSize);
    WrapFits(HEADER + nameSize + 3);
    WrapFits(dataSize + 3);
    WrapFits(at + RoundUp4(HEADER + nameSize));
    WrapFits(at + RoundUp4(HEADER + nameSize) + RoundUp4(dataSize));
  }

  /** There the search ends, with the first member of the name. */
  lemma {:induction false} SearchIsLookup(f: Format, a: string, base: Word, at: nat, name: string, seen: set<nat>)
    requires base + |a| + 4 * SIZE_LIMIT < WORD_LIMIT && at <= |a| + 4 * SIZE_LIMIT
    requires Advances(f, a, at, name) && forall x :: x in seen ==> x < at && x < |a|
    ensures Search(f, a, base, at, name, seen) == Lookup(f, a, at, name)
    decreases |a| - at
  {
    hide ScanAt, DataOf, NextOf, RoundUp4, Wrap;
    WrapFits(base + at);
    if at < |a| {
      match ScanAt(f, a, at)
      case Member(n, nameSize, dataSize, dataAt, next) =>
        StepAdvances(at, nameSize, dataSize);
        MemberIs(f, a, at);
        if n != name {
          SeenFits(seen + {at}, |a|);
          SearchIsLookup(f, a, base, next, name, seen + {at});
        }
      case _ =>
    }
  }

  lemma MemberIs(f: Format, a: string, at: nat)
    ensures var r := ScanAt(f, a, at);
      r.Member? ==>
        r.dataAt == at + RoundUp4(HEADER + r.nameSize) && r.next == r.dataAt + RoundUp4(r.dataSize) && r.next > at
        && (r.nameSize < SIZE_LIMIT && r.dataSize < SIZE_LIMIT ==> r.next <= at + 4 * SIZE_LIMIT)
  {
  }

  // ---------- the loader ----------

  datatype Loading = Loaded | Refused | Crashed | Nested

  type Contents = map<string, seq<char>>

  datatype LoadStep = Stop(r: Loading) | Go(name: string, data: seq<char>, next: nat)

  /** What one position of the archive makes load_cpio do. */
  function StepOf(scan: Scan, a: string, at: nat): (step: LoadStep)
    requires scan.Member? ==> scan.next > at
    ensures step.Go? ==> step.next > at && '/' !in step.name
  {
    match scan
    case Beyond => Stop(Crashed)
    case NotMagic => Stop(Refused)
    case EndMark => Stop(Loaded)
    case Member(_, nameSize, dataSize, dataAt, next) =>
      if nameSize == 0 || at + HEADER + nameSize - 1 > |a| || dataAt + dataSize > |a| then Stop(Crashed)
      else
        var name := a[at + HEADER..at + HEADER + nameSize - 1];
        if '/' in name then Stop(Nested) else Go(name, a[dataAt..dataAt + dataSize], next)
  }

  /** load_cpio as a function: the members in order, refused at the first name that is taken. */
  function LoadFrom(f: Format, a: string, at: nat, files: Contents): (Loading, Contents)
    decreases |a| - at
  {
    match StepOf(ScanAt(f, a, at), a, at)
    case Stop(r) => (r, files)
    case Go(name, data, next) =>
      if name == "" || name in files then (Refused, files)
      else LoadFrom(f, a, next, files[name := data])
  }

  ghost function ContentsOf(fs: Ramfs.FileSystem): (m: Contents)
    reads fs, fs.files.Values
    ensures m.Keys == fs.files.Keys && forall name :: name in m ==> m[name] == fs.files[name].data
  {
    map name | name in fs.files :: fs.files[name].data
  }

  /** create_file as the loader uses it. */
  method AddMember(fs: Ramfs.FileSystem, name: string, data: seq<char>) returns (made: bool)
    requires fs.Valid() && '/' !in name
    modifies fs`files
    ensures fs.Valid() && (made <==> name != "" && name !in old(ContentsOf(fs)))
    ensures ContentsOf(fs) == if made then old(ContentsOf(fs))[name := data] else old(ContentsOf(fs))
  {
    made := fs.CreateFile(name, data);
  }

  /** load_cpio into a file system. */
  method Load(fs: Ramfs.FileSystem, a: string) returns (r: Loading)
    requires fs.Valid()
    modifies fs`files
    ensures fs.Valid()
    ensures (r, ContentsOf(fs)) == LoadFrom(NEWC, a, 0, old(ContentsOf(fs)))
    ensures |a| >= 6 && a[..6] != "070701" ==> r == Refused && ContentsOf(fs) == old(ContentsOf(fs))
  {
    NoMagic(a, 0, "");
    var at := 0;
    while true
      invariant fs.Valid()
      invariant LoadFrom(NEWC, a, at, ContentsOf(fs)) == LoadFrom(NEWC, a, 0, old(ContentsOf(fs)))
      decreases |a| - at
    {
      match StepOf(ScanAt(NEWC, a, at), a, at) {
        case Stop(stop) => return stop;
        case Go(name, data, next) =>
          var made := AddMember(fs, name, data);
          if !made { return Refused; }
          at := next;
      }
    }
  }

  // ---------- a writer ----------

  /** What goes into one member besides its name and data: the header fields nobody reads, and
      the padding. */
  datatype Entry = Entry(name: string, data: seq<char>, front: string, middle: string, check: string, namePad: string,
      dataPad: string)

  predicate Plain(f: Format, name: string) {
    name != "" && NUL !in name && '/' !in name && name != f.mark
  }

  predicate Framed(e: Entry) {
    && |e.front| == 48 && |e.middle| == 32 && |e.check| == 8
    && |e.name| + 1 < 0x1_0000_0000 && |e.data| < 0x1_0000_0000
    && (110 + |e.name| + 1 + |e.namePad|) % 4 == 0 && |e.namePad| < 4
    && (|e.data| + |e.dataPad|) % 4 == 0 && |e.dataPad| < 4
  }

  function Header(f: Format, e: Entry): string {
    f.magic + e.front + f.digits(|e.data|) + e.middle + f.digits(|e.name| + 1) + e.check
  }

  function WriteEntry(f: Format, e: Entry): string {
    Header(f, e) + e.name + [NUL] + e.namePad + e.data + e.dataPad
  }

  /** The members in order, an end mark, and whatever follows it. */
  function Archive(f: Format, entries: seq<Entry>, end: Entry, rest: string): string {
    if entries == [] then WriteEntry(f, end) + rest else WriteEntry(f, entries[0]) + Archive(f, entries[1..], end, rest)
  }

  predicate WellFormed(f: Format, entries: seq<Entry>, end: Entry) {
    |f.magic| == 6 && (forall i :: 0 <= i < |entries| ==> Plain(f, entries[i].name) && Framed(entries[i]))
      && NUL !in end.name && end.name == f.mark && Framed(end)
  }

  // ---------- scanning what was written ----------

  function DataOffset(e: Entry): nat {
    RoundUp4(HEADER + |e.name| + 1)
  }

  function EntryLength(e: Entry): nat {
    DataOffset(e) + RoundUp4(|e.data|)
  }

  /** Eight characters that convert to n. */
  predicate FieldIs(f: Format, a: string, at: nat, n: nat) {
    at + 8 <= |a| && f.number(a[at..at + 8]) == n
  }

  /** The fields of a member that the two programs read. */
  ghost predicate EntryAt(f: Format, a: string, at: nat, e: Entry) {
    && |f.magic| == 6 && PieceAt(a, at, f.magic)
    && FieldIs(f, a, at + 54, |e.data|)
    && FieldIs(f, a, at + 94, |e.name| + 1)
    && PieceAt(a, at + HEADER, e.name)
    && PieceAt(a, at + HEADER + |e.name|, [NUL])
    && PieceAt(a, at + DataOffset(e), e.data)
  }

  ghost predicate ReadsFields(f: Format) {
    forall n: nat :: n < 0x1_0000_0000 ==> |f.digits(n)| == 8 && f.number(f.digits(n)) == n
  }

  lemma FieldReads(f: Format, a: string, at: nat, n: nat)
    requires n < 0x1_0000_0000 && PieceAt(a, at, f.digits(n)) && ReadsFields(f)
    ensures FieldIs(f, a, at, n)
  {
  }

  lemma HeaderFields(f: Format, e: Entry, a: string, at: nat)
    requires |f.magic| == 6 && ReadsFields(f) && Framed(e) && PieceAt(a, at, Header(f, e))
    ensures |Header(f, e)| == HEADER
    ensures PieceAt(a, at, f.magic) && FieldIs(f, a, at + 54, |e.data|) && FieldIs(f, a, at + 94, |e.name| + 1)
  {
    var s, n := f.digits(|e.data|), f.digits(|e.name| + 1);
    PieceSplit(a, at, f.magic + e.front + s + e.middle + n, e.check);
    PieceSplit(a, at, f.magic + e.front + s + e.middle, n);
    PieceSplit(a, at, f.magic + e.front + s, e.middle);
    PieceSplit(a, at, f.magic + e.front, s);
    PieceSplit(a, at, f.magic, e.front);
    FieldReads(f, a, at + 54, |e.data|);
    FieldReads(f, a, at + 94, |e.name| + 1);
  }

  lemma FramedIs(e: Entry)
    requires Framed(e)
    ensures HEADER + |e.name| + 1 + |e.namePad| == RoundUp4(HEADER + |e.name| + 1)
    ensures |e.data| + |e.dataPad| == RoundUp4(|e.data|)
  {
    PaddedIs(HEADER + |e.name| + 1, |e.namePad|);
    PaddedIs(|e.data|, |e.dataPad|);
  }

  lemma PaddedIs(n: nat, pad: nat)
    requires (n + pad) % 4 == 0 && pad < 4
    ensures n + pad == RoundUp4(n)
  {
  }

  lemma WrittenEntry(f: Format, e: Entry, a: string, at: nat)
    requires |f.magic| == 6 && ReadsFields(f) && Framed(e) && PieceAt(a, at, WriteEntry(f, e))
    ensures EntryAt(f, a, at, e) && |WriteEntry(f, e)| == EntryLength(e)
  {
    hide Framed, RoundUp4;
    FramedIs(e);
    PieceSplit(a, at, Header(f, e) + e.name + [NUL] + e.namePad + e.data, e.dataPad);
    PieceSplit(a, at, Header(f, e) + e.name + [NUL] + e.namePad, e.data);
    PieceSplit(a, at, Header(f, e) + e.name + [NUL], e.namePad);
    PieceSplit(a, at, Header(f, e) + e.name, [NUL]);
    PieceSplit(a, at, Header(f, e), e.name);
    HeaderFields(f, e, a, at);
  }

  /** The scan of a written member finds its name, its data and the next position. */
  lemma ScanFinds(f: Format, e: Entry, a: string, at: nat)
    requires NUL !in e.name && EntryAt(f, a, at, e)
    ensures ScanAt(f, a, at) == (if e.name == f.mark then EndMark
      else Member(e.name, |e.name| + 1, |e.data|, at + DataOffset(e), at + EntryLength(e)))
  {
    CStringReads(a, at + HEADER, e.name);
    ScanIsClassify(f, a, at, Some(e.name), |e.name| + 1, |e.data|);
  }

  lemma ScanIsClassify(f: Format, a: string, at: nat, name: Option<string>, nameSize: nat, dataSize: nat)
    requires at + HEADER <= |a| && |f.magic| == 6 && PieceAt(a, at, f.magic)
    requires CString(a, at + HEADER) == name
    requires f.number(a[at + 94..at + 102]) == nameSize && f.number(a[at + 54..at + 62]) == dataSize
    ensures ScanAt(f, a, at) == Classify(f, at, name, nameSize, dataSize)
  {
  }

  /** A well-formed archive as a relation: members one after the other, then the end mark. */
  ghost predicate ArchiveAt(f: Format, a: string, at: nat, entries: seq<Entry>, end: Entry)
    decreases |entries|
  {
    if entries == [] then EntryAt(f, a, at, end)
    else EntryAt(f, a, at, entries[0]) && ArchiveAt(f, a, at + EntryLength(entries[0]), entries[1..], end)
  }

  lemma WrittenFirst(f: Format, e: Entry, later: string, a: string, at: nat)
    requires |f.magic| == 6 && ReadsFields(f) && Framed(e) && PieceAt(a, at, WriteEntry(f, e) + later)
    ensures EntryAt(f, a, at, e) && PieceAt(a, at + EntryLength(e), later)
  {
    PieceSplit(a, at, WriteEntry(f, e), later);
    WrittenEntry(f, e, a, at);
  }

  /** What the writer produces is such an archive. */
  lemma {:induction false} WrittenArchive(f: Format, entries: seq<Entry>, end: Entry, rest: string, a: string, at: nat)
    requires WellFormed(f, entries, end) && ReadsFields(f) && PieceAt(a, at, Archive(f, entries, end, rest))
    ensures ArchiveAt(f, a, at, entries, end)
    decreases |entries|
  {
    hide EntryAt, PieceAt, WriteEntry;
    if entries == [] {
      WrittenFirst(f, end, rest, a, at);
    } else {
      WrittenFirst(f, entries[0], Archive(f, entries[1..], end, rest), a, at);
      WrittenArchive(f, entries[1..], end, rest, a, at + EntryLength(entries[0]));
    }
  }

  // ---------- both programs recover what was written ----------

  /** The members as a table; the first of a name counts. */
  function FirstOf(entries: seq<Entry>, name: string): Option<seq<char>> {
    if entries == [] then None
    else if entries[0].name == name then Some(entries[0].data)
    else FirstOf(entries[1..], name)
  }

  predicate NamesDistinct(entries: seq<Entry>, files: Contents) {
    (forall i :: 0 <= i < |entries| ==> entries[i].name !in files)
    && (forall i, j :: 0 <= i < j < |entries| ==> entries[i].name != entries[j].name)
  }

  function Added(files: Contents, entries: seq<Entry>): Contents
    decreases |entries|
  {
    if entries == [] then files
    else Added(files[entries[0].name := entries[0].data], entries[1..])
  }

  /** A search result that is exactly the given data, or its absence. */
  ghost predicate Finds(a: string, r: Found, data: Option<seq<char>>) {
    match data
    case None => r == Missing
    case Some(d) => r.Found? && r.size == |d| && PieceAt(a, r.at, d)
  }

  lemma LookupStep(f: Format, a: string, at: nat, e: Entry, name: string)
    requires NUL !in e.name && EntryAt(f, a, at, e)
    ensures Lookup(f, a, at, name) ==
      if e.name == f.mark then Missing
      else if e.name == name then Found(at + DataOffset(e), |e.data|)
      else Lookup(f, a, at + EntryLength(e), name)
  {
    ScanFinds(f, e, a, at);
  }

  lemma LookupHit(f: Format, a: string, at: nat, e: Entry, name: string)
    requires NUL !in e.name && e.name != f.mark && EntryAt(f, a, at, e) && e.name == name
    ensures Finds(a, Lookup(f, a, at, name), Some(e.data))
  {
    LookupStep(f, a, at, e, name);
  }

  lemma LookupMiss(f: Format, a: string, at: nat, e: Entry, name: string, found: Option<seq<char>>)
    requires NUL !in e.name && e.name != f.mark && EntryAt(f, a, at, e) && e.name != name
    requires Finds(a, Lookup(f, a, at + EntryLength(e), name), found)
    ensures Finds(a, Lookup(f, a, at, name), found)
  {
    LookupStep(f, a, at, e, name);
  }

  /** The linear scan finds exactly the first member of a name. */
  lemma {:induction false} LookupRecovers(f: Format, entries: seq<Entry>, end: Entry, a: string, at: nat, name: string)
    requires WellFormed(f, entries, end) && ArchiveAt(f, a, at, entries, end)
    ensures Finds(a, Lookup(f, a, at, name), FirstOf(entries, name))
    decreases |entries|
  {
    hide Lookup, EntryAt, Plain, Framed;
    if entries == [] {
      LookupStep(f, a, at, end, name);
    } else {
      RestIsWellFormed(f, entries, end);
      if entries[0].name == name {
        LookupHit(f, a, at, entries[0], name);
      } else {
        LookupRecovers(f, entries[1..], end, a, at + EntryLength(entries[0]), name);
        LookupMiss(f, a, at, entries[0], name, FirstOf(entries[1..], name));
      }
    }
  }

  /** What the writer produces is an archive on which the search advances. */
  lemma {:induction false} WrittenAdvances(f: Format, entries: seq<Entry>, end: Entry, a: string, at: nat, name: string)
    requires WellFormed(f, entries, end) && ArchiveAt(f, a, at, entries, end)
    ensures Advances(f, a, at, name)
    decreases |entries|
  {
    hide EntryAt, ScanAt;
    if entries == [] {
      ScanFinds(f, end, a, at);
    } else {
      RestIsWellFormed(f, entries, end);
      ScanFinds(f, entries[0], a, at);
      WrittenAdvances(f, entries[1..], end, a, at + EntryLength(entries[0]), name);
    }
  }

  /** So cpio_find_file finds exactly the first member of a name in a written archive. */
  lemma SearchRecovers(f: Format, entries: seq<Entry>, end: Entry, a: string, base: Word, name: string)
    requires WellFormed(f, entries, end) && ArchiveAt(f, a, 0, entries, end)
    requires base + |a| + 4 * SIZE_LIMIT < WORD_LIMIT
    ensures Finds(a, Search(f, a, base, 0, name, {}), FirstOf(entries, name))
  {
    WrittenAdvances(f, entries, end, a, 0, name);
    SearchIsLookup(f, a, base, 0, name, {});
    LookupRecovers(f, entries, end, a, 0, name);
  }

  lemma RestIsWellFormed(f: Format, entries: seq<Entry>, end: Entry)
    requires WellFormed(f, entries, end) && entries != []
    ensures WellFormed(f, entries[1..], end)
    ensures Plain(f, entries[0].name) && Framed(entries[0])
  {
  }

  /** The loader succeeds exactly when every name is new, and then has added all members. */
  lemma {:induction false} LoadRecovers(f: Format, entries: seq<Entry>, end: Entry, a: string, at: nat, files: Contents)
    requires WellFormed(f, entries, end) && ArchiveAt(f, a, at, entries, end)
    ensures LoadFrom(f, a, at, files).0 == if NamesDistinct(entries, files) then Loaded else Refused
    ensures NamesDistinct(entries, files) ==> LoadFrom(f, a, at, files).1 == Added(files, entries)
    decreases |entries|
  {
    hide EntryAt, ScanAt, Framed;
    if entries == [] {
      ScanFinds(f, end, a, at);
    } else {
      var e := entries[0];
      assert Plain(f, e.name);
      WrittenStep(f, a, at, e);
      if e.name !in files {
        LoadRecovers(f, entries[1..], end, a, at + EntryLength(e), files[e.name := e.data]);
        DistinctStep(entries, files);
      }
    }
  }

  lemma WrittenStep(f: Format, a: string, at: nat, e: Entry)
    requires Plain(f, e.name) && Framed(e) && EntryAt(f, a, at, e)
    ensures StepOf(ScanAt(f, a, at), a, at) == Go(e.name, e.data, at + EntryLength(e))
  {
    ScanFinds(f, e, a, at);
    StepOfMember(f, ScanAt(f, a, at), a, at, e);
  }

  lemma StepOfMember(f: Format, scan: Scan, a: string, at: nat, e: Entry)
    requires Plain(f, e.name) && EntryAt(f, a, at, e)
    requires scan == Member(e.name, |e.name| + 1, |e.data|, at + DataOffset(e), at + EntryLength(e))
    ensures StepOf(scan, a, at) == Go(e.name, e.data, at + EntryLength(e))
  {
  }

  lemma DistinctStep(entries: seq<Entry>, files: Contents)
    requires entries != [] && entries[0].name !in files
    ensures NamesDistinct(entries, files) <==> NamesDistinct(entries[1..], files[entries[0].name := entries[0].data])
  {
    var rest, files' := entries[1..], files[entries[0].name := entries[0].data];
    if NamesDistinct(rest, files') {
      forall i | 0 <= i < |entries| ensures entries[i].name !in files {
        if i > 0 { assert entries[i] == rest[i - 1]; }
      }
      forall i, j | 0 <= i < j < |entries| ensures entries[i].name != entries[j].name {
        assert entries[j] == rest[j - 1];
        if i > 0 { assert entries[i] == rest[i - 1]; }
      }
    }
  }

  lemma {:induction false} AddedHolds(files: Contents, entries: seq<Entry>, name: string)
    requires NamesDistinct(entries, files)
    ensures var after := Added(files, entries);
      match FirstOf(entries, name)
      case None => (name in after <==> name in files) && (name in files ==> after[name] == files[name])
      case Some(data) => name in after && after[name] == data
    decreases |entries|
  {
    if entries != [] {
      DistinctStep(entries, files);
      AddedHolds(files[entries[0].name := entries[0].data], entries[1..], name);
      if entries[0].name == name { NotAgain(entries[1..], name); }
    }
  }

  lemma NotAgain(entries: seq<Entry>, name: string)
    requires forall i :: 0 <= i < |entries| ==> entries[i].name != name
    ensures FirstOf(entries, name) == None
  {
  }

  /** The newc format reads its numbers back, so what holds of such formats holds of it. */
  lemma NewcReadsFields()
    ensures ReadsFields(NEWC)
  {
    forall n: nat | n < 0x1_0000_0000
      ensures |NEWC.digits(n)| == 8 && NEWC.number(NEWC.digits(n)) == n
    {
      Hex8RoundTrip(n);
    }
  }

  /** Once an archive is loaded into an empty file system, looking a name up in the file system
      and scanning the archive for it agree, on presence and on every byte. */
  lemma LoadAgreesWithLookup(f: Format, entries: seq<Entry>, end: Entry, rest: string, name: string, base: Word)
    requires ReadsFields(f) && WellFormed(f, entries, end)
    requires LoadFrom(f, Archive(f, entries, end, rest), 0, map[]).0 == Loaded
    requires base + |Archive(f, entries, end, rest)| + 4 * SIZE_LIMIT < WORD_LIMIT
    ensures var a := Archive(f, entries, end, rest);
      Agrees(a, Search(f, a, base, 0, name, {}), LoadFrom(f, a, 0, map[]).1, FirstOf(entries, name), name)
  {
    hide ReadsFields, WellFormed, LoadFrom, Search, Archive, FirstOf, Added, ArchiveAt;
    var a := Archive(f, entries, end, rest);
    WrittenArchive(f, entries, end, rest, a, 0);
    LoadRecovers(f, entries, end, a, 0, map[]);
    SearchRecovers(f, entries, end, a, base, name);
    AddedHolds(map[], entries, name);
  }

  // ---------- the newc format itself ----------

  /** A newc member: the magic number, eight characters for each of thirteen fields, of which the
      seventh is the size of the data and the twelfth the size of the name with its NUL. */
  function WriteNewc(e: Entry): string {
    "070701" + e.front + HexDigits(|e.data|, 8) + e.middle + HexDigits(|e.name| + 1, 8) + e.check
      + e.name + [NUL] + e.namePad + e.data + e.dataPad
  }

  function NewcArchive(entries: seq<Entry>, end: Entry, rest: string): string {
    if entries == [] then WriteNewc(end) + rest else WriteNewc(entries[0]) + NewcArchive(entries[1..], end, rest)
  }

  lemma {:induction false} NewcIsArchive(entries: seq<Entry>, end: Entry, rest: string)
    ensures NewcArchive(entries, end, rest) == Archive(NEWC, entries, end, rest)
  {
    if entries != [] { NewcIsArchive(entries[1..], end, rest); }
  }

  /** Of a newc archive that ends with "TRAILER!!!" the search finds exactly the first member of a
      name, and the loader adds every member if the names are new; then both agree. */
  lemma NewcRecovers(entries: seq<Entry>, end: Entry, rest: string, name: string, base: Word)
    requires end.name == "TRAILER!!!" && Framed(end)
    requires forall i :: 0 <= i < |entries| ==>
      && Framed(entries[i]) && entries[i].name !in {"", "TRAILER!!!"}
      && '\0' !in entries[i].name && '/' !in entries[i].name
    requires base + |NewcArchive(entries, end, rest)| + 4 * SIZE_LIMIT < WORD_LIMIT
    ensures var a := NewcArchive(entries, end, rest);
      && Finds(a, Search(NEWC, a, base, 0, name, {}), FirstOf(entries, name))
      && var loaded := LoadFrom(NEWC, a, 0, map[]);
      && (loaded.0 == Loaded <==> NamesDistinct(entries, map[]))
      && (loaded.0 == Loaded ==> Agrees(a, Search(NEWC, a, base, 0, name, {}), loaded.1, FirstOf(entries, name), name))
  {
    hide ReadsFields, LoadFrom, Search, Archive, NewcArchive, FirstOf, Added, ArchiveAt, Framed, Agrees, Finds;
    var a := NewcArchive(entries, end, rest);
    NewcIsArchive(entries, end, rest);
    NewcReadsFields();
    WrittenArchive(NEWC, entries, end, rest, a, 0);
    SearchRecovers(NEWC, entries, end, a, base, name);
    LoadRecovers(NEWC, entries, end, a, 0, map[]);
    if LoadFrom(NEWC, a, 0, map[]).0 == Loaded { LoadAgreesWithLookup(NEWC, entries, end, rest, name, base); }
  }

  /** The scan and the loaded files say the same about a name, and it is what was written. */
  predicate Agrees(a: string, found: Found, files: Contents, written: Option<seq<char>>, name: string) {
    match found
    case Missing => name !in files && written == None
    case Crash => false
    case Endless => false
    case Found(at, size) =>
      name in files && size == |files[name]| && PieceAt(a, at, files[name]) && written == Some(files[name])
  }
}
