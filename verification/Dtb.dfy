/** Flattened device trees (section 5.4 of the Devicetree Specification v0.4): the parser over a
    seekable stream, as methods and as functions of the blob. */
module Dtb {
  import opened Bytes
  import opened Digits
  import opened Options

  const MAGIC: nat := 0xd00dfeed
  const HEADER: nat := 40
  const BEGIN_NODE: nat := 1
  const END_NODE: nat := 2
  const PROP: nat := 3
  const NOP: nat := 4
  const DEFAULT_ADDRESS_CELLS: nat := 2
  const DEFAULT_SIZE_CELLS: nat := 1
  const WRAP: nat := 0x1_0000_0000

  /** The two property names the parser knows, and how a unit address is read. */
  datatype Rules = Rules(addressKey: string, sizeKey: string, unit: string -> Option<nat>)

  const FDT := Rules("#address-cells", "#size-cells", s => Stoull(s))

  datatype Blob = Blob(data: seq<char>, strings: nat, rules: Rules)

  datatype Property = Property(name: string, value: seq<char>)

  datatype Node = Node(name: string, address: nat, addressCells: nat, sizeCells: nat, fullName: string,
                       properties: map<string, Property>, children: map<string, Node>)

  // ---------- reading, as functions ----------

  /** A big-endian number of four bytes. */
  function U32At(a: seq<char>, at: nat): Option<nat> {
    if at + 4 > |a| then None else Some(BigEndian(a[at..at + 4]))
  }

  function AlignUp(n: nat): (r: nat)
    ensures n <= r < n + 4 && r % 4 == 0
    decreases (4 - n % 4) % 4
  {
    if n % 4 == 0 then n else AlignUp(n + 1)
  }

  function IndexOf(s: string, c: char, from: nat): (i: nat)
    requires from <= |s|
    ensures from <= i <= |s| && (i < |s| ==> s[i] == c) && forall j :: from <= j < i ==> s[j] != c
    decreases |s| - from
  {
    if from == |s| || s[from] == c then from else IndexOf(s, c, from + 1)
  }

  /** A node name and the unit address behind its first '@'; None when that is no number. */
  function NameParts(rules: Rules, raw: string): Option<(string, nat)> {
    var i := IndexOf(raw, '@', 0);
    if i == |raw| then Some((raw, 0))
    else match rules.unit(raw[i + 1..])
         case None => None
         case Some(address) => Some((raw[..i], address))
  }

  /** The first tag that is no NOP, and the position behind it. */
  function FirstTag(a: seq<char>, at: nat): (r: Option<(nat, nat)>)
    ensures r.Some? ==> at + 4 <= r.value.1 <= |a|
    decreases |a| - at
  {
    match U32At(a, at)
    case None => None
    case Some(tag) => if tag == NOP then FirstTag(a, at + 4) else Some((tag, at + 4))
  }

  /** std::map::emplace: a key that is taken keeps its value. */
  function Emplace<V>(m: map<string, V>, key: string, v: V): map<string, V> {
    if key in m then m else m[key := v]
  }

  /** A property from behind its tag on, and the position behind it. */
  function PropAt(b: Blob, at: nat): (r: Option<(Property, nat)>)
    ensures r.Some? ==> at < r.value.1 <= |b.data|
  {
    match U32At(b.data, at)
    case None => None
    case Some(len) =>
      match U32At(b.data, at + 4)
      case None => None
      case Some(nameoff) =>
        Valued(b.data, at + 8, len, CString(b.data, NameOffset(b, nameoff)))
  }

  /** Offsets into the strings block are 32-bit numbers. */
  function NameOffset(b: Blob, nameoff: nat): nat {
    (b.strings + nameoff) % WRAP
  }

  function Valued(a: seq<char>, at: nat, len: nat, name: Option<string>): (r: Option<(Property, nat)>)
    ensures r.Some? ==> at <= r.value.1 <= |a|
  {
    if name.None? || AlignUp(at + len) > |a| then None
    else Some((Property(name.value, a[at..at + len]), AlignUp(at + len)))
  }

  function CellOr(properties: map<string, Property>, key: string, default_: nat): Option<nat> {
    if key in properties then U32At(properties[key].value, 0) else Some(default_)
  }

  /** The cell counts a node states for its children. */
  function ChildCells(rules: Rules, properties: map<string, Property>): Option<(nat, nat)> {
    match CellOr(properties, rules.addressKey, DEFAULT_ADDRESS_CELLS)
    case None => None
    case Some(address) =>
      match CellOr(properties, rules.sizeKey, DEFAULT_SIZE_CELLS)
      case None => None
      case Some(size) => Some((address, size))
  }

  /** The root is called "/", and its children do not repeat the slash. */
  function ChildDir(fullName: string): string {
    if fullName == "/" then "" else fullName
  }

  function NewNode(parts: (string, nat), dir: string, addressCells: nat, sizeCells: nat): Node {
    Node(parts.0, parts.1, addressCells, sizeCells, dir + "/" + parts.0, map[], map[])
  }

  function WithProperty(node: Node, prop: Property): Node {
    node.(properties := Emplace(node.properties, prop.name, prop))
  }

  function WithChild(node: Node, child: Node): Node {
    node.(children := Emplace(node.children, child.name, child))
  }

  /** Broken: the parser aborts, throws, or runs out of bytes. */
  datatype Parse = Broken | Parsed(node: Node, next: nat)

  function NodeFrom(b: Blob, at: nat, dir: string, addressCells: nat, sizeCells: nat): (r: Parse)
    ensures r.Parsed? ==> at < r.next <= |b.data|
    decreases |b.data| - at, 0
  {
    match FirstTag(b.data, at)
    case None => Broken
    case Some((tag, p)) =>
      if tag != BEGIN_NODE then Broken
      else match CString(b.data, p)
           case None => Broken
           case Some(raw) =>
             match NameParts(b.rules, raw)
             case None => Broken
             case Some(parts) =>
               var q := AlignUp(p + |raw| + 1);
               if q > |b.data| then Broken else BodyFrom(b, q, NewNode(parts, dir, addressCells, sizeCells))
  }

  function BodyFrom(b: Blob, at: nat, node: Node): (r: Parse)
    ensures r.Parsed? ==> at < r.next <= |b.data|
    decreases |b.data| - at, 1
  {
    match U32At(b.data, at)
    case None => Broken
    case Some(tag) =>
      if tag == PROP then
        match PropAt(b, at + 4)
        case None => Broken
        case Some((prop, next)) => BodyFrom(b, next, WithProperty(node, prop))
      else if tag == BEGIN_NODE then
        match ChildCells(b.rules, node.properties)
        case None => Broken
        case Some((address, size)) =>
          match NodeFrom(b, at, ChildDir(node.fullName), address, size)
          case Broken => Broken
          case Parsed(child, next) => BodyFrom(b, next, WithChild(node, child))
      else if tag == NOP then BodyFrom(b, at + 4, node)
      else if tag == END_NODE && AlignUp(at + 4) <= |b.data| then Parsed(node, AlignUp(at + 4))
      else Broken
  }

  // ---------- one step of the parser ----------

  lemma BodyNop(b: Blob, at: nat, node: Node)
    requires U32At(b.data, at) == Some(NOP)
    ensures BodyFrom(b, at, node) == BodyFrom(b, at + 4, node)
  {
    hide U32At;
  }

  lemma BodyProp(b: Blob, at: nat, node: Node)
    requires U32At(b.data, at) == Some(PROP)
    ensures var r := PropAt(b, at + 4);
      BodyFrom(b, at, node) == if r.None? then Broken else BodyFrom(b, r.value.1, WithProperty(node, r.value.0))
  {
    hide U32At, PropAt;
  }

  lemma BodyChild(b: Blob, at: nat, node: Node)
    requires U32At(b.data, at) == Some(BEGIN_NODE)
    ensures var cells := ChildCells(b.rules, node.properties);
      if cells.None? then BodyFrom(b, at, node) == Broken
      else
        var r := NodeFrom(b, at, ChildDir(node.fullName), cells.value.0, cells.value.1);
        BodyFrom(b, at, node) == if r.Broken? then Broken else BodyFrom(b, r.next, WithChild(node, r.node))
  {
    hide U32At, ChildCells, ChildDir, NodeFrom;
  }

  lemma BodyEnd(b: Blob, at: nat, node: Node)
    requires U32At(b.data, at) == Some(END_NODE)
    ensures BodyFrom(b, at, node) == if AlignUp(at + 4) <= |b.data| then Parsed(node, AlignUp(at + 4)) else Broken
  {
    hide U32At, AlignUp;
  }

  lemma BodyBroken(b: Blob, at: nat, node: Node)
    requires U32At(b.data, at).None? || U32At(b.data, at).value !in {BEGIN_NODE, END_NODE, PROP, NOP}
    ensures BodyFrom(b, at, node) == Broken
  {
    hide U32At;
  }

  lemma NodeHead(b: Blob, at: nat, dir: string, addressCells: nat, sizeCells: nat, raw: string, parts: (string, nat))
    requires U32At(b.data, at) == Some(BEGIN_NODE) && CString(b.data, at + 4) == Some(raw)
    requires NameParts(b.rules, raw) == Some(parts) && AlignUp(at + 4 + |raw| + 1) <= |b.data|
    ensures NodeFrom(b, at, dir, addressCells, sizeCells)
         == BodyFrom(b, AlignUp(at + 4 + |raw| + 1), NewNode(parts, dir, addressCells, sizeCells))
  {
    hide BodyFrom, NameParts, CString, U32At, AlignUp;
  }

  // ---------- the stream and the parser ----------

  /** std::istringstream: a failed read shows in the result. */
  class Stream {
    const data: seq<char>
    var pos: nat

    constructor (data: seq<char>)
      ensures this.data == data && pos == 0
    {
      this.data, pos := data, 0;
    }

    method ReadU32() returns (r: Option<nat>)
      modifies this`pos
      ensures r == U32At(data, old(pos)) && (r.Some? ==> pos == old(pos) + 4 <= |data|)
    {
      r := U32At(data, pos);
      if r.Some? { pos := pos + 4; }
    }

    method ReadStr() returns (r: Option<string>)
      modifies this`pos
      ensures r == CString(data, old(pos)) && (r.Some? ==> pos == old(pos) + |r.value| + 1 <= |data|)
    {
      var str := "";
      ghost var all := CString(data, pos);
      if all.Some? { assert str + all.value == all.value; }
      while pos < |data| && data[pos] != NUL
        invariant pos == old(pos) + |str|
        invariant CString(data, old(pos)) == match CString(data, pos) case None => None case Some(s) => Some(str + s)
        decreases |data| - pos
      {
        ghost var later := CString(data, pos + 1);
        if later.Some? { assert str + ([data[pos]] + later.value) == (str + [data[pos]]) + later.value; }
        str := str + [data[pos]];
        pos := pos + 1;
      }
      if pos >= |data| { return None; }
      pos := pos + 1;
      assert str + "" == str;
      r := Some(str);
    }

    /** Reads a string elsewhere and comes back. */
    method ReadStrAt(offset: nat) returns (r: Option<string>)
      modifies this`pos
      ensures r == CString(data, offset) && pos == old(pos)
    {
      var here := pos;
      pos := offset;
      r := ReadStr();
      pos := here;
    }

    method Align() returns (ok: bool)
      requires pos <= |data|
      modifies this`pos
      ensures ok <==> AlignUp(old(pos)) <= |data|
      ensures ok ==> pos == AlignUp(old(pos))
    {
      while pos % 4 != 0
        invariant old(pos) <= pos <= |data| && AlignUp(pos) == AlignUp(old(pos))
        decreases |data| - pos
      {
        if pos >= |data| { return false; }
        pos := pos + 1;
      }
      ok := true;
    }

    method BackU32()
      requires pos >= 4
      modifies this`pos
      ensures pos == old(pos) - 4
    {
      pos := pos - 4;
    }
  }

  method ReadProperty(s: Stream, strings: nat, rules: Rules) returns (r: Option<Property>)
    modifies s
    ensures match PropAt(Blob(s.data, strings, rules), old(s.pos))
      case None => r == None
      case Some((prop, next)) => r == Some(prop) && s.pos == next
  {
    var len := s.ReadU32();
    if len.None? { return None; }
    var nameoff := s.ReadU32();
    if nameoff.None? { return None; }
    var name := s.ReadStrAt((strings + nameoff.value) % WRAP);
    if name.None? || s.pos + len.value > |s.data| { return None; }
    var value := s.data[s.pos..s.pos + len.value];
    s.pos := s.pos + len.value;
    var ok := s.Align();
    r := if ok then Some(Property(name.value, value)) else None;
  }

  /** The head of parse_node: tag, name and unit address. */
  method ReadHead(s: Stream, rules: Rules) returns (r: Option<(string, nat)>)
    modifies s
    ensures match FirstTag(s.data, old(s.pos))
      case None => r == None
      case Some((tag, p)) =>
        if tag != BEGIN_NODE then r == None
        else match CString(s.data, p)
             case None => r == None
             case Some(raw) =>
               if AlignUp(p + |raw| + 1) > |s.data| then r == None
               else r == NameParts(rules, raw) && s.pos == AlignUp(p + |raw| + 1)
  {
    var tag := s.ReadU32();
    while tag == Some(NOP)
      invariant FirstTag(s.data, old(s.pos)) ==
        if tag.None? then None else if tag.value == NOP then FirstTag(s.data, s.pos) else Some((tag.value, s.pos))
      decreases if tag.Some? then 1 else 0, |s.data| - s.pos
    {
      tag := s.ReadU32();
    }
    if tag != Some(BEGIN_NODE) { return None; }
    var raw := s.ReadStr();
    if raw.None? { return None; }
    var parts := NameParts(rules, raw.value);
    var ok := s.Align();
    r := if ok then parts else None;
  }

  /** A new node behind its head. */
  method StartNode(s: Stream, strings: nat, rules: Rules, dir: string, addressCells: nat, sizeCells: nat)
      returns (node: Option<Node>)
    modifies s
    ensures NodeFrom(Blob(s.data, strings, rules), old(s.pos), dir, addressCells, sizeCells) ==
      if node.None? then Broken else BodyFrom(Blob(s.data, strings, rules), s.pos, node.value)
    ensures node.Some? ==> old(s.pos) < s.pos <= |s.data|
  {
    hide BodyFrom, NameParts, CString, U32At, AlignUp;
    var parts := ReadHead(s, rules);
    node := if parts.None? then None else Some(NewNode(parts.value, dir, addressCells, sizeCells));
  }

  /** parse_node. The stream is never at its end unless a read has failed. */
  method ParseNode(s: Stream, strings: nat, rules: Rules, dir: string, addressCells: nat, sizeCells: nat)
      returns (r: Option<Node>)
    modifies s
    ensures match NodeFrom(Blob(s.data, strings, rules), old(s.pos), dir, addressCells, sizeCells)
      case Broken => r == None
      case Parsed(node, next) => r == Some(node) && s.pos == next
    decreases |s.data| - s.pos
  {
    hide BodyFrom, NodeFrom, PropAt, ChildCells, U32At, AlignUp, WithProperty, WithChild, ChildDir;
    ghost var b, start := Blob(s.data, strings, rules), s.pos;
    var head := StartNode(s, strings, rules, dir, addressCells, sizeCells);
    if head.None? { return None; }
    var node := head.value;
    while true
      invariant start < s.pos <= |s.data|
      invariant NodeFrom(b, start, dir, addressCells, sizeCells) == BodyFrom(b, s.pos, node)
      decreases |s.data| - s.pos
    {
      ghost var at := s.pos;
      var tag := s.ReadU32();
      if tag == Some(PROP) {
        BodyProp(b, at, node);
        var property := ReadProperty(s, strings, rules);
        if property.None? { return None; }
        node := WithProperty(node, property.value);
      } else if tag == Some(BEGIN_NODE) {
        BodyChild(b, at, node);
        s.BackU32();
        var cells := ChildCells(rules, node.properties);
        if cells.None? { return None; }
        var child := ParseNode(s, strings, rules, ChildDir(node.fullName), cells.value.0, cells.value.1);
        if child.None? { return None; }
        node := WithChild(node, child.value);
      } else if tag == Some(END_NODE) {
        BodyEnd(b, at, node);
        break;
      } else if tag == Some(NOP) {
        BodyNop(b, at, node);
        continue;
      } else {
        BodyBroken(b, at, node);
        return None;
      }
    }
    var ok := s.Align();
    r := if ok then Some(node) else None;
  }

  /** The blob's header fields; None where load aborts. */
  function HeaderOf(data: seq<char>): Option<(nat, nat)> {
    if |data| < HEADER || U32At(data, 0) != Some(MAGIC) || U32At(data, 4).value > |data| then None
    else Some((U32At(data, 8).value, U32At(data, 12).value))
  }

  function LoadOf(data: seq<char>, rules: Rules): Parse {
    match HeaderOf(data)
    case None => Broken
    case Some((structure, strings)) =>
      NodeFrom(Blob(data, strings, rules), structure, "", DEFAULT_ADDRESS_CELLS, DEFAULT_SIZE_CELLS)
  }

  lemma HeaderIsRefused(data: seq<char>)
    ensures |data| < 40 ==> HeaderOf(data) == None
    ensures |data| >= 4 && (data[0] as nat % 256 != 0xd0 || data[1] as nat % 256 != 0x0d
              || data[2] as nat % 256 != 0xfe || data[3] as nat % 256 != 0xed) ==>
      HeaderOf(data) == None
    ensures |data| >= 8 && 0x100_0000 * (data[4] as nat % 256) + 0x1_0000 * (data[5] as nat % 256)
              + 0x100 * (data[6] as nat % 256) + data[7] as nat % 256 > |data| ==>
      HeaderOf(data) == None
  {
    hide BigEndian;
    if |data| >= 40 {
      BigEndianOfFour(data[0..4]);
      BigEndianOfFour(data[4..8]);
    }
  }

  method ReadHeader(s: Stream) returns (r: Option<(nat, nat)>)
    requires s.pos == 0
    modifies s
    ensures r == HeaderOf(s.data)
  {
    if |s.data| < HEADER { return None; }
    var magic := s.ReadU32();
    var total := s.ReadU32();
    var structure := s.ReadU32();
    var strings := s.ReadU32();
    if magic != Some(MAGIC) || total.value > |s.data| { return None; }
    r := Some((structure.value, strings.value));
  }

  method Load(data: seq<char>) returns (root: Option<Node>)
    ensures root == match LoadOf(data, FDT) case Broken => None case Parsed(node, _) => Some(node)
    ensures |data| < 40 ==> root == None
    ensures |data| >= 4 && (data[0] as nat % 256 != 0xd0 || data[1] as nat % 256 != 0x0d
              || data[2] as nat % 256 != 0xfe || data[3] as nat % 256 != 0xed) ==>
      root == None
    ensures |data| >= 8 && 0x100_0000 * (data[4] as nat % 256) + 0x1_0000 * (data[5] as nat % 256)
              + 0x100 * (data[6] as nat % 256) + data[7] as nat % 256 > |data| ==>
      root == None
  {
    HeaderIsRefused(data);
    var s := new Stream(data);
    var header := ReadHeader(s);
    if header.None? { return None; }
    s.pos := header.value.0;
    root := ParseNode(s, header.value.1, FDT, "", DEFAULT_ADDRESS_CELLS, DEFAULT_SIZE_CELLS);
  }
}
