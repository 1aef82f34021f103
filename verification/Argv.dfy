/** Command-line arguments on their way to a new program: the client's message, the server's
    decoding of it, and the block of pointers and strings placed on top of the new stack. */
module Argv {
  import opened Bytes
  import opened Options
  import opened Words

  const WORD: nat := 8
  const PAGE: nat := 4096

  function RoundUp8(n: nat): (r: nat)
    ensures n <= r < n + 8 && r % 8 == 0
  {
    (n + 7) / 8 * 8
  }

  predicate CLike(s: string) {
    NUL !in s
  }

  predicate AllCLike(strs: seq<string>) {
    forall i :: 0 <= i < |strs| ==> CLike(strs[i])
  }

  // ---------- strings in a buffer of words ----------

  /** The words a string with its NUL occupies, in bytes. */
  function Slot(s: string): nat {
    RoundUp8(|s| + 1)
  }

  function Slots(strs: seq<string>): nat {
    if strs == [] then 0 else Slot(strs[0]) + Slots(strs[1..])
  }

  predicate StringAt(b: seq<char>, at: nat, s: string) {
    at + |s| < |b| && b[at..at + |s|] == s && b[at + |s|] == NUL
  }

  /** The strings stand one after the other, each from a word boundary on. */
  ghost predicate Laid(b: seq<char>, at: nat, strs: seq<string>)
    decreases |strs|
  {
    strs == [] || (StringAt(b, at, strs[0]) && Laid(b, at + Slot(strs[0]), strs[1..]))
  }

  // ---------- the client ----------

  /** The message of apm_create: three words, then the strings. */
  class Message {
    var flags: int
    var argc: nat
    var body: array<char>

    constructor (flags: int, argc: nat, size: nat)
      ensures this.flags == flags && this.argc == argc && fresh(body) && body.Length == size
    {
      this.flags, this.argc := flags, argc;
      body := new char[size];
    }
  }

  /** set_ipc_data_array: copies a string with its NUL into the body. */
  method PutString(body: array<char>, at: nat, s: string)
    requires at + |s| < body.Length
    modifies body
    ensures StringAt(body[..], at, s)
    ensures forall i :: 0 <= i < body.Length && !(at <= i <= at + |s|) ==> body[i] == old(body[i])
  {
    for i := 0 to |s|
      invariant forall j :: 0 <= j < i ==> body[at + j] == s[j]
      invariant forall j :: 0 <= j < body.Length && !(at <= j < at + i) ==> body[j] == old(body[j])
    {
      body[at + i] := s[i];
    }
    body[at + |s|] := NUL;
  }

  lemma {:induction false} SlotsAppend(a: seq<string>, b: seq<string>)
    ensures Slots(a + b) == Slots(a) + Slots(b)
  {
    if a == [] {
      assert a + b == b;
    } else {
      assert (a + b)[1..] == a[1..] + b;
      SlotsAppend(a[1..], b);
    }
  }

  /** Laying one more string behind strings that are laid already. */
  lemma {:induction false} LaidExtend(b: seq<char>, b': seq<char>, at: nat, strs: seq<string>, s: string)
    requires Laid(b, at, strs) && |b| == |b'| && StringAt(b', at + Slots(strs), s)
    requires forall i :: 0 <= i < |b| && i < at + Slots(strs) ==> b'[i] == b[i]
    ensures Laid(b', at, strs + [s])
    decreases |strs|
  {
    if strs == [] {
      assert strs + [s] == [s];
      assert [s][1..] == [];
    } else {
      assert (strs + [s])[1..] == strs[1..] + [s];
      assert b'[at..at + |strs[0]|] == b[at..at + |strs[0]|];
      LaidExtend(b, b', at + Slot(strs[0]), strs[1..], s);
    }
  }

  function ArgsOf(argv: Option<seq<string>>): seq<string> {
    if argv.Some? then argv.value else []
  }

  function NameOf(name: Option<string>): string {
    if name.Some? then name.value else ""
  }

  /** The space for the arguments; one unused word when there is no argument vector. */
  function ArgvLength(argv: Option<seq<string>>): nat {
    match argv case None => WORD case Some(args) => Slots(args)
  }

  /** Writing one more string behind those already in the body; the index moves past its words. */
  method PutNext(body: array<char>, at: nat, s: string, ghost laid: seq<string>) returns (next: nat)
    requires Laid(body[..], 0, laid) && at == Slots(laid) && at + |s| < body.Length
    modifies body
    ensures Laid(body[..], 0, laid + [s]) && next == Slots(laid + [s]) == at + Slot(s)
  {
    ghost var before := body[..];
    PutString(body, at, s);
    LaidExtend(before, body[..], 0, laid, s);
    SlotsAppend(laid, [s]);
    assert [s][1..] == [];
    next := at + Slot(s);
  }

  /** The argument loop of apm_create. */
  method PutAll(body: array<char>, start: nat, args: seq<string>, ghost laid: seq<string>)
    requires Laid(body[..], 0, laid) && start == Slots(laid) && start + Slots(args) <= body.Length
    modifies body
    ensures Laid(body[..], 0, laid + args)
  {
    var at := start;
    assert laid + args[..0] == laid;
    for i := 0 to |args|
      invariant at == Slots(laid + args[..i]) && at + Slots(args[i..]) <= body.Length
      invariant Laid(body[..], 0, laid + args[..i])
    {
      assert args[i..][1..] == args[i + 1..];
      assert laid + args[..i] + [args[i]] == laid + args[..i + 1];
      at := PutNext(body, at, args[i], laid + args[..i]);
    }
    assert args[..|args|] == args;
  }

  /** Where strings that stand one after the other start, and where the last one's words end. */
  ghost function PlacesOf(at: nat, strs: seq<string>): (places: seq<nat>)
    ensures |places| == |strs| + 1 && places[0] == at
    decreases |strs|
  {
    if strs == [] then [at] else [at] + PlacesOf(at + Slot(strs[0]), strs[1..])
  }

  lemma SlotIs(s: string)
    ensures Slot(s) == 8 * (|s| / 8 + 1)
  {
  }

  lemma {:induction false} PlacesAre(b: seq<char>, at: nat, strs: seq<string>, i: nat)
    requires Laid(b, at, strs) && i < |strs|
    ensures var places := PlacesOf(at, strs);
      && places[i + 1] == places[i] + 8 * (|strs[i]| / 8 + 1)
      && places[i] + |strs[i]| < |b| && b[places[i]..places[i] + |strs[i]|] == strs[i]
      && b[places[i] + |strs[i]|] == '\0'
    decreases |strs|
  {
    hide RoundUp8;
    SlotIs(strs[0]);
    if i > 0 { PlacesAre(b, at + Slot(strs[0]), strs[1..], i - 1); }
  }

  lemma {:induction false} PlacesEnd(at: nat, strs: seq<string>)
    ensures PlacesOf(at, strs)[|strs|] == at + Slots(strs)
    decreases |strs|
  {
    if strs != [] { PlacesEnd(at + Slot(strs[0]), strs[1..]); }
  }

  /** apm_create: sizes are summed first, then every string is written at its index. A missing
      name is sent as the empty one. Each string and its NUL take whole words. */
  method Marshal(path: string, name: Option<string>, flags: int, argv: Option<seq<string>>)
      returns (msg: Message, ghost places: seq<nat>)
    ensures fresh(msg) && msg.flags == flags && msg.argc == |ArgsOf(argv)|
    ensures Laid(msg.body[..], 0, [path, NameOf(name)] + ArgsOf(argv))
    ensures StandAt(msg.body[..], [path, NameOf(name)] + ArgsOf(argv), places)
    ensures msg.body.Length == places[2 + |ArgsOf(argv)|] + if argv.Some? then 0 else 8
  {
    var args := ArgsOf(argv);
    msg := new Message(flags, |args|, Slot(path) + Slot(NameOf(name)) + ArgvLength(argv));
    assert [] + [path] == [path] && [path] + [NameOf(name)] == [path, NameOf(name)];
    var at := PutNext(msg.body, 0, path, []);
    at := PutNext(msg.body, at, NameOf(name), [path]);
    PutAll(msg.body, at, args, [path, NameOf(name)]);
    places := PlacesOf(0, [path, NameOf(name)] + args);
    BodyLength(path, NameOf(name), args);
    AllPlaces(msg.body[..], [path, NameOf(name)] + args);
  }

  /** The strings stand at these places, each with its NUL in whole words of eight bytes. */
  ghost predicate StandAt(b: seq<char>, strs: seq<string>, places: seq<nat>) {
    && |places| == |strs| + 1 && places[0] == 0
    && forall i {:trigger strs[i]} :: 0 <= i < |strs| ==>
      && places[i + 1] == places[i] + 8 * (|strs[i]| / 8 + 1)
      && places[i] + |strs[i]| < |b| && b[places[i]..places[i] + |strs[i]|] == strs[i]
      && b[places[i] + |strs[i]|] == '\0'
  }

  lemma AllPlaces(b: seq<char>, strs: seq<string>)
    requires Laid(b, 0, strs)
    ensures StandAt(b, strs, PlacesOf(0, strs))
  {
    hide PlacesOf, Laid;
    var places := PlacesOf(0, strs);
    forall i {:trigger strs[i]} | 0 <= i < |strs|
      ensures places[i + 1] == places[i] + 8 * (|strs[i]| / 8 + 1)
        && places[i] + |strs[i]| < |b| && b[places[i]..places[i] + |strs[i]|] == strs[i]
        && b[places[i] + |strs[i]|] == '\0'
    {
      PlacesAre(b, 0, strs, i);
    }
  }

  lemma BodyLength(path: string, name: string, args: seq<string>)
    ensures var strs := [path, name] + args;
      PlacesOf(0, strs)[|strs|] == Slot(path) + Slot(name) + Slots(args)
    ensures Slots([]) == 0
  {
    hide PlacesOf;
    PlacesEnd(0, [path, name] + args);
    SlotsAppend([path, name], args);
    assert [path, name][1..] == [name] && [name][1..] == [];
  }

  // ---------- the server ----------

  /** `count` strings from an index on; the index moves past each string's words. */
  function DecodeStrings(b: seq<char>, at: nat, count: nat): Option<seq<string>>
    decreases count
  {
    if count == 0 then Some([])
    else match CString(b, at)
         case None => None
         case Some(s) =>
           match DecodeStrings(b, at + RoundUp8(|s| + 1), count - 1)
           case None => None
           case Some(rest) => Some([s] + rest)
  }

  datatype Request = Request(path: string, name: string, flags: int, args: seq<string>)

  /** The decoding half of create: path, name, then argc arguments. */
  method Unmarshal(msg: Message) returns (r: Option<Request>)
    ensures match DecodeStrings(msg.body[..], 0, msg.argc + 2)
      case None => r == None
      case Some(strs) => |strs| == msg.argc + 2 && r == Some(Request(strs[0], strs[1], msg.flags, strs[2..]))
  {
    var b := msg.body[..];
    var strs: seq<string> := [];
    var at: nat := 0;
    ghost var all := DecodeStrings(b, 0, msg.argc + 2);
    if all.Some? { assert [] + all.value == all.value; }
    for i := 0 to msg.argc + 2
      invariant |strs| == i
      invariant match DecodeStrings(b, at, msg.argc + 2 - i)
        case None => DecodeStrings(b, 0, msg.argc + 2) == None
        case Some(rest) => DecodeStrings(b, 0, msg.argc + 2) == Some(strs + rest)
    {
      var s := CString(b, at);
      if s.None? { return None; }
      ghost var later := DecodeStrings(b, at + RoundUp8(|s.value| + 1), msg.argc + 2 - i - 1);
      if later.Some? { assert strs + ([s.value] + later.value) == (strs + [s.value]) + later.value; }
      strs := strs + [s.value];
      at := at + RoundUp8(|s.value| + 1);
    }
    assert strs + [] == strs;
    r := Some(Request(strs[0], strs[1], msg.flags, strs[2..]));
  }

  /** Decoding undoes laying out. */
  lemma {:induction false} DecodeRecovers(b: seq<char>, at: nat, strs: seq<string>)
    requires Laid(b, at, strs) && AllCLike(strs)
    ensures DecodeStrings(b, at, |strs|) == Some(strs)
    decreases |strs|
  {
    if strs != [] {
      CStringReads(b, at, strs[0]);
      DecodeRecovers(b, at + Slot(strs[0]), strs[1..]);
      assert [strs[0]] + strs[1..] == strs;
    }
  }

  /** And what is decoded stands in the message like that; a message without it is not decoded. */
  lemma {:induction false} DecodedIff(b: seq<char>, at: nat, strs: seq<string>)
    ensures DecodeStrings(b, at, |strs|) == Some(strs) <==> Laid(b, at, strs) && AllCLike(strs)
    decreases |strs|
  {
    if strs != [] {
      DecodedIff(b, at + Slot(strs[0]), strs[1..]);
      if Laid(b, at, strs) && AllCLike(strs) { DecodeRecovers(b, at, strs); }
      if DecodeStrings(b, at, |strs|) == Some(strs) {
        CStringStands(b, at);
        var rest := DecodeStrings(b, at + Slot(strs[0]), |strs| - 1);
        assert strs == [strs[0]] + rest.value;
        assert rest.value == strs[1..];
      }
    }
  }

  /** The server decodes exactly what the client encoded. */
  method SendAndReceive(path: string, name: Option<string>, flags: int, argv: Option<seq<string>>)
      returns (r: Option<Request>)
    requires CLike(path) && CLike(NameOf(name)) && AllCLike(ArgsOf(argv))
    ensures r == Some(Request(path, if name.Some? then name.value else "", flags,
                              if argv.Some? then argv.value else []))
  {
    hide StandAt, Laid, DecodeStrings;
    var msg;
    ghost var places;
    msg, places := Marshal(path, name, flags, argv);
    var strs := [path, NameOf(name)] + ArgsOf(argv);
    forall i | 0 <= i < |strs| ensures CLike(strs[i]) { if i >= 2 { assert strs[i] == ArgsOf(argv)[i - 2]; } }
    DecodeRecovers(msg.body[..], 0, strs);
    r := Unmarshal(msg);
    assert strs[2..] == ArgsOf(argv);
  }

  // ---------- the stack block ----------

  /** The bytes of all arguments with their NULs. */
  function TextLength(args: seq<string>): nat {
    if args == [] then 0 else |args[0]| + 1 + TextLength(args[1..])
  }

  function TotalLength(args: seq<string>): nat {
    RoundUp8(TextLength(args)) + WORD * |args|
  }

  lemma {:induction false} TextLengthAppend(a: seq<string>, b: seq<string>)
    ensures TextLength(a + b) == TextLength(a) + TextLength(b)
  {
    if a == [] {
      assert a + b == b;
    } else {
      assert (a + b)[1..] == a[1..] + b;
      TextLengthAppend(a[1..], b);
    }
  }

  lemma TextPrefix(args: seq<string>, i: nat)
    requires i < |args|
    ensures TextLength(args[..i + 1]) == TextLength(args[..i]) + |args[i]| + 1
    ensures TextLength(args[..i + 1]) <= TextLength(args)
  {
    assert args[..i + 1] == args[..i] + [args[i]] && [args[i]][1..] == [];
    TextLengthAppend(args[..i], [args[i]]);
    assert args == args[..i + 1] + args[i + 1..];
    TextLengthAppend(args[..i + 1], args[i + 1..]);
  }

  /** Where argument i stands once the block ends at `end`. */
  function ArgAddress(args: seq<string>, end: nat, i: nat): int
    requires i <= |args|
  {
    end - TotalLength(args) + WORD * |args| + TextLength(args[..i])
  }

  /** Argument i of a block is reachable: its pointer word holds its address, and there the
      argument stands with its NUL. */
  ghost predicate Pointed(image: seq<char>, args: seq<string>, end: nat, i: nat)
    requires i < |args|
  {
    var root := end - TotalLength(args);
    var p := ArgAddress(args, end, i);
    && |image| == TotalLength(args)
    && WORD * i + WORD <= |image| && WordBytesAt(image, WORD * i, p)
    && p >= root && StringAt(image, p - root, args[i])
  }

  predicate WordBytesAt(image: seq<char>, at: nat, v: int) {
    v >= 0 && at + WORD <= |image| && image[at..at + WORD] == LittleEndianBytes(v, WORD)
  }

  method PutWord(image: array<char>, at: nat, v: nat)
    requires at + WORD <= image.Length
    modifies image
    ensures WordBytesAt(image[..], at, v)
    ensures forall i :: 0 <= i < image.Length && !(at <= i < at + WORD) ==> image[i] == old(image[i])
  {
    var bytes := LittleEndianBytes(v, WORD);
    for i := 0 to WORD
      invariant forall j :: 0 <= j < i ==> image[at + j] == bytes[j]
      invariant forall j :: 0 <= j < image.Length && !(at <= j < at + i) ==> image[j] == old(image[j])
    {
      image[at + i] := bytes[i];
    }
    assert image[..][at..at + WORD] == bytes;
  }

  lemma {:induction false} TextPrefixOrder(args: seq<string>, i: nat, j: nat)
    requires i < j <= |args|
    ensures TextLength(args[..i]) + |args[i]| + 1 <= TextLength(args[..j])
    decreases j - i
  {
    TextPrefix(args, i);
    if i + 1 < j { TextPrefixOrder(args, i + 1, j); }
  }

  /** Writing argument i leaves earlier arguments reachable and makes its own so. */
  lemma PointedKept(b0: seq<char>, b1: seq<char>, args: seq<string>, end: nat, i: nat, j: nat)
    requires j <= i < |args| && |b0| == |b1| == TotalLength(args) <= end
    requires j < i ==> Pointed(b0, args, end, j)
    requires var at := WORD * |args| + TextLength(args[..i]);
      && StringAt(b1, at, args[i])
      && (forall k :: 0 <= k < |b0| && !(at <= k <= at + |args[i]|) && !(WORD * i <= k < WORD * i + WORD) ==>
        b1[k] == b0[k])
    requires WordBytesAt(b1, WORD * i, ArgAddress(args, end, i))
    ensures Pointed(b1, args, end, j)
  {
    if j < i {
      TextPrefixOrder(args, j, i);
      assert b1[WORD * j..WORD * j + WORD] == b0[WORD * j..WORD * j + WORD];
      var p := WORD * |args| + TextLength(args[..j]);
      assert b1[p..p + |args[j]|] == b0[p..p + |args[j]|];
    }
  }

  /** One round of the task constructor's loop: the text and its pointer. */
  method PutArgument(image: array<char>, args: seq<string>, end: nat, i: nat, pos: nat)
    requires i < |args| && image.Length == TotalLength(args) <= end && pos == TextLength(args[..i])
    requires forall j: nat :: j < i ==> Pointed(image[..], args, end, j)
    modifies image
    ensures forall j: nat :: j <= i ==> Pointed(image[..], args, end, j)
  {
    TextPrefix(args, i);
    ghost var before := image[..];
    PutString(image, WORD * |args| + pos, args[i]);
    PutWord(image, WORD * i, end - TotalLength(args) + WORD * |args| + pos);
    forall j: nat | j <= i ensures Pointed(image[..], args, end, j) {
      PointedKept(before, image[..], args, end, i, j);
    }
  }

  /** The task constructor's loop: text and pointers are written side by side. */
  method BuildStack(args: seq<string>, end: nat)
      returns (image: array<char>, indexRoot: nat, ghost starts: seq<nat>)
    requires TotalLength(args) <= end
    ensures image.Length == TotalLength(args) && indexRoot == end - TotalLength(args)
    ensures forall i: nat :: i < |args| ==> Pointed(image[..], args, end, i)
    ensures Starts(args, starts) && image.Length == (starts[|args|] + 7) / 8 * 8
    ensures PointsAt(image[..], indexRoot, args, starts)
  {
    hide Pointed, TextLength, TotalLength, LittleEndianBytes;
    NoText(args);
    image := new char[TotalLength(args)];
    indexRoot := end - TotalLength(args);
    var pos := 0;
    for i := 0 to |args|
      invariant pos == TextLength(args[..i])
      invariant forall j: nat :: j < i ==> Pointed(image[..], args, end, j)
    {
      PutArgument(image, args, end, i, pos);
      TextPrefix(args, i);
      pos := pos + |args[i]| + 1;
    }
    starts := StartsOf(args);
    StartsAre(args);
    TotalIs(args, starts[|args|]);
    AllPointed(image[..], args, end);
  }

  /** Word i of the block holds the address of argument i. */
  ghost predicate PointsAt(image: seq<char>, indexRoot: nat, args: seq<string>, starts: seq<nat>)
    requires |starts| == |args| + 1
  {
    forall i {:trigger args[i]} :: 0 <= i < |args| ==>
      && 8 * i + 8 <= |image| && image[8 * i..8 * i + 8] == LittleEndianBytes(indexRoot + starts[i], 8)
      && starts[i] + |args[i]| < |image| && image[starts[i]..starts[i] + |args[i]|] == args[i]
      && image[starts[i] + |args[i]|] == '\0'
  }

  lemma AllPointed(image: seq<char>, args: seq<string>, end: nat)
    requires TotalLength(args) <= end && forall i: nat :: i < |args| ==> Pointed(image, args, end, i)
    ensures PointsAt(image, end - TotalLength(args), args, StartsOf(args))
  {
    hide Pointed, TotalLength, StartsOf, TextLength, LittleEndianBytes;
    forall i | 0 <= i < |args|
      ensures 8 * i + 8 <= |image|
        && image[8 * i..8 * i + 8] == LittleEndianBytes(end - TotalLength(args) + StartsOf(args)[i], 8)
        && StartsOf(args)[i] + |args[i]| < |image|
        && image[StartsOf(args)[i]..StartsOf(args)[i] + |args[i]|] == args[i]
        && image[StartsOf(args)[i] + |args[i]|] == '\0'
    {
      OnePointed(image, args, end, i);
    }
  }

  lemma OnePointed(image: seq<char>, args: seq<string>, end: nat, i: nat)
    requires i < |args| && TotalLength(args) <= end && Pointed(image, args, end, i)
    ensures var root, start := end - TotalLength(args), WORD * |args| + TextLength(args[..i]);
      && 8 * i + 8 <= |image| && image[8 * i..8 * i + 8] == LittleEndianBytes(root + start, 8)
      && start + |args[i]| < |image| && image[start..start + |args[i]|] == args[i] && image[start + |args[i]|] == '\0'
  {
    hide TotalLength, TextLength, LittleEndianBytes;
  }

  /** The pointers come first, eight bytes each; then every argument stands behind the one before
      it, with its NUL. */
  ghost predicate Starts(args: seq<string>, starts: seq<nat>) {
    && |starts| == |args| + 1 && starts[0] == 8 * |args|
    && forall i {:trigger args[i]} :: 0 <= i < |args| ==> starts[i + 1] == starts[i] + |args[i]| + 1
  }

  ghost function StartsOf(args: seq<string>): (starts: seq<nat>)
    ensures |starts| == |args| + 1
    ensures forall i {:trigger starts[i]} :: 0 <= i <= |args| ==> starts[i] == WORD * |args| + TextLength(args[..i])
  {
    seq(|args| + 1, i requires 0 <= i <= |args| => WORD * |args| + TextLength(args[..i]))
  }

  lemma StartsAre(args: seq<string>)
    ensures Starts(args, StartsOf(args))
    ensures StartsOf(args)[|args|] == 8 * |args| + TextLength(args)
  {
    hide TextLength, StartsOf;
    assert args[..|args|] == args;
    forall i {:trigger args[i]} | 0 <= i < |args| ensures StartsOf(args)[i + 1] == StartsOf(args)[i] + |args[i]| + 1 {
      TextPrefix(args, i);
    }
    NoText(args);
  }

  lemma TotalIs(args: seq<string>, last: nat)
    requires last == 8 * |args| + TextLength(args)
    ensures TotalLength(args) == (last + 7) / 8 * 8
  {
    hide TextLength;
    RoundedWords(TextLength(args), |args|, last);
  }

  lemma NoText(args: seq<string>)
    ensures TextLength(args[..0]) == 0
  {
  }

  lemma RoundedWords(text: nat, n: nat, last: nat)
    requires last == 8 * n + text
    ensures RoundUp8(text) + 8 * n == (last + 7) / 8 * 8
  {
  }

  /** The requested stack in numbers: four pages, or the text in whole pages if that is more. */
  lemma StackCommitIs(args: seq<string>)
    requires TextLength(args) <= WORD_LIMIT - 4096
    ensures StackCommit(args) ==
      if TextLength(args) <= 16384 then 16384 else (TextLength(args) + 4095) / 4096 * 4096
  {
    WrapFits(TextLength(args) + 4095);
  }

  /** The pointer word and the string it points at, as parts of the block. */
  lemma PointedParts(image: seq<char>, args: seq<string>, end: nat, i: nat)
    requires i < |args| && |image| <= end < Power256(WORD) && Pointed(image, args, end, i)
    ensures var p := ArgAddress(args, end, i);
      var from := p - (end - |image|);
      && p >= 0 && from >= 0 && from + |args[i]| + 1 <= |image| && WORD * i + WORD <= |image|
      && LittleEndian(image[WORD * i..WORD * i + WORD]) == p
      && image[from..from + |args[i]| + 1] == args[i] + [NUL]
  {
    hide LittleEndianBytes, LittleEndian, Power256, TextLength, TotalLength;
    TextPrefix(args, i);
    LittleEndianRoundTrip(ArgAddress(args, end, i), WORD);
  }

  // ---------- the stack that is asked for ----------

  /** Rounding up to a page, in 64-bit arithmetic. */
  function RoundUpPage(n: nat): Word {
    Wrap(n + PAGE - 1) / PAGE * PAGE
  }

  /** The stack size the constructor requests: it counts the text, not the pointers. */
  function StackCommit(args: seq<string>): Word {
    var text := RoundUpPage(TextLength(args));
    if text > 4 * PAGE then text else 4 * PAGE
  }

  /** One argument of 16383 characters leaves no room for its own pointer. */
  lemma LongArgumentDoesNotFit(arg: string)
    requires |arg| == 4 * PAGE - 1
    ensures TotalLength([arg]) > StackCommit([arg]) == 4 * PAGE
  {
    assert [arg][1..] == [];
    assert TextLength([arg]) == 4 * PAGE;
  }
}
