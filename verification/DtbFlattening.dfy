/** A writer of flattened device trees, and the proof that parsing undoes it. */
module DtbFlattening {
  import opened Bytes
  import opened Digits
  import opened Dtb
  import opened Options

  /** A property before it is written, behind some NOPs; its name stands in the strings block. */
  datatype Prop = Prop(nops: nat, nameoff: nat, name: string, value: seq<char>)

  /** A node before it is written: NOPs may stand before every token. */
  datatype Tree = Tree(nops: nat, raw: string, props: seq<Prop>, children: seq<Tree>, tail: nat)

  // ---------- the writer ----------

  /** Tags, sizes and offsets are numbers of four bytes, the most significant first. */
  function Be32(n: nat): (s: string)
    ensures |s| == 4
  {
    [(n / 0x100_0000 % 256) as char, (n / 0x1_0000 % 256) as char, (n / 0x100 % 256) as char, (n % 256) as char]
  }

  /** The number that the first four bytes of a value denote. */
  function Number4(v: string): nat
    requires |v| >= 4
  {
    0x100_0000 * (v[0] as nat % 256) + 0x1_0000 * (v[1] as nat % 256) + 0x100 * (v[2] as nat % 256) + v[3] as nat % 256
  }

  function Zeros(k: nat): (s: string)
    ensures |s| == k
  {
    seq(k, _ => NUL)
  }

  /** What is missing to a multiple of four. */
  function Padding(n: nat): (s: string)
    ensures |s| == AlignUp(n) - n
  {
    Zeros((4 - n % 4) % 4)
  }

  function NopRun(k: nat): (s: string)
    ensures |s| == 4 * k
  {
    if k == 0 then "" else Be32(4) + NopRun(k - 1)
  }

  function WriteProp(p: Prop): string {
    NopRun(p.nops) + (Be32(3) + Be32(|p.value|) + Be32(p.nameoff) + (p.value + Padding(|p.value|)))
  }

  function WriteProps(ps: seq<Prop>): string {
    if ps == [] then "" else WriteProp(ps[0]) + WriteProps(ps[1..])
  }

  function WriteHead(raw: string): string {
    Be32(1) + (raw + [NUL] + Padding(|raw| + 1))
  }

  function WriteTree(t: Tree): string
    decreases t, 1
  {
    NopRun(t.nops) + WriteBare(t)
  }

  function WriteBare(t: Tree): string
    decreases t, 0
  {
    WriteHead(t.raw) + (WriteProps(t.props) + (WriteTrees(t, 0) + (NopRun(t.tail) + Be32(2))))
  }

  /** The children from number i on. */
  function WriteTrees(t: Tree, i: nat): string
    requires i <= |t.children|
    decreases t, 0, |t.children| - i
  {
    if i == |t.children| then "" else WriteTree(t.children[i]) + WriteTrees(t, i + 1)
  }

  // ---------- what is written and what should be read ----------

  /** The name a node is found by: what stands before the unit address. */
  function Called(rules: Rules, t: Tree): string {
    var parts := NameParts(rules, t.raw);
    if parts.Some? then parts.value.0 else ""
  }

  /** The name of a property stands in the strings block; the numbers fit their words. */
  predicate Stored(b: Blob, p: Prop) {
    var at := (b.strings + p.nameoff) % 0x1_0000_0000;
    && |p.value| < 0x1_0000_0000 && p.nameoff < 0x1_0000_0000 && NUL !in p.name
    && PieceAt(b.data, at, p.name) && PieceAt(b.data, at + |p.name|, [NUL])
    && (p.name in {b.rules.addressKey, b.rules.sizeKey} ==> |p.value| >= 4)
  }

  predicate PropsOk(b: Blob, ps: seq<Prop>) {
    (forall p :: p in ps ==> Stored(b, p)) && forall i, j :: 0 <= i < j < |ps| ==> ps[i].name != ps[j].name
  }

  /** Names are C strings with readable unit addresses, and siblings differ without them. */
  ghost predicate WellFormed(b: Blob, t: Tree) {
    && NUL !in t.raw && NameParts(b.rules, t.raw).Some?
    && PropsOk(b, t.props)
    && (forall i, j :: 0 <= i < j < |t.children| ==> Called(b.rules, t.children[i]) != Called(b.rules, t.children[j]))
    && (forall i {:trigger WellFormed(b, t.children[i])} :: 0 <= i < |t.children| ==> WellFormed(b, t.children[i]))
  }

  ghost predicate PropsMatch(ps: seq<Prop>, m: map<string, Property>) {
    && m.Keys == (set p | p in ps :: p.name)
    && forall p :: p in ps ==> m[p.name] == Property(p.name, p.value)
  }

  /** A parsed node is the written one: name, address, paths, cell counts, properties, and the
      same of every child, with no others. */
  ghost predicate Matches(rules: Rules, t: Tree, node: Node, dir: string, addressCells: nat, sizeCells: nat)
    decreases t, 1
  {
    && NameParts(rules, t.raw) == Some((node.name, node.address))
    && node.fullName == dir + "/" + node.name
    && node.addressCells == addressCells && node.sizeCells == sizeCells
    && PropsMatch(t.props, node.properties)
    && node.children.Keys == (set c | c in t.children :: Called(rules, c))
    && forall i: nat {:trigger ChildMatches(rules, t, node, i)} :: i < |t.children| ==> ChildMatches(rules, t, node, i)
  }

  /** The number a property states, or the default. */
  ghost function Stated(ps: seq<Prop>, key: string, default_: nat): nat {
    if ps == [] then default_
    else if ps[0].name == key && |ps[0].value| >= 4 then Number4(ps[0].value)
    else Stated(ps[1..], key, default_)
  }

  /** The cell counts a node states for its children; by default 2 and 1. */
  ghost function CellsOf(rules: Rules, t: Tree): (nat, nat) {
    (Stated(t.props, rules.addressKey, 2), Stated(t.props, rules.sizeKey, 1))
  }

  /** The child has the cell counts its parent states, or the defaults, and the path of the parent;
      the root's is empty. */
  ghost predicate ChildMatches(rules: Rules, t: Tree, node: Node, i: nat)
    requires i < |t.children|
    decreases t, 0
  {
    var c, cells, dir := t.children[i], CellsOf(rules, t), if node.fullName == "/" then "" else node.fullName;
    Called(rules, c) in node.children && Matches(rules, c, node.children[Called(rules, c)], dir, cells.0, cells.1)
  }

  // ---------- tokens ----------

  lemma U32Reads(a: seq<char>, at: nat, n: nat)
    requires n < WRAP && PieceAt(a, at, Be32(n))
    ensures U32At(a, at) == Some(n)
  {
    BigEndianOfFour(Be32(n));
    FourBytes(n);
  }

  lemma FourBytes(n: nat)
    requires n < 0x1_0000_0000
    ensures Number4(Be32(n)) == n
  {
    hide Number4;
    var a, b, c := n / 0x100, n / 0x1_0000, n / 0x100_0000;
    DividedAgain(n);
    FourDigits(c, b % 256, a % 256, n % 256);
  }

  lemma DividedAgain(n: nat)
    requires n < 0x1_0000_0000
    ensures n / 0x1_0000 == n / 0x100 / 256 && n / 0x100_0000 == n / 0x1_0000 / 256 < 256
  {
  }

  lemma FourDigits(w: nat, x: nat, y: nat, z: nat)
    requires w < 256 && x < 256 && y < 256 && z < 256
    ensures Number4([w as char, x as char, y as char, z as char]) == 0x100_0000 * w + 0x1_0000 * x + 0x100 * y + z
  {
  }

  lemma {:induction false} NopsSkipped(b: Blob, at: nat, k: nat, node: Node)
    requires PieceAt(b.data, at, NopRun(k))
    ensures BodyFrom(b, at, node) == BodyFrom(b, at + 4 * k, node)
    decreases k
  {
    hide BodyFrom;
    if k > 0 {
      PieceSplit(b.data, at, Be32(4), NopRun(k - 1));
      U32Reads(b.data, at, NOP);
      BodyNop(b, at, node);
      NopsSkipped(b, at + 4, k - 1, node);
    }
  }

  lemma {:induction false} NopsBeforeTag(a: seq<char>, at: nat, k: nat)
    requires PieceAt(a, at, NopRun(k))
    ensures FirstTag(a, at) == FirstTag(a, at + 4 * k)
    decreases k
  {
    if k > 0 {
      PieceSplit(a, at, Be32(4), NopRun(k - 1));
      U32Reads(a, at, NOP);
      NopsBeforeTag(a, at + 4, k - 1);
    }
  }

  lemma AlignedSum(at: nat, n: nat)
    requires at % 4 == 0
    ensures AlignUp(at + n) == at + AlignUp(n)
  {
    hide AlignUp;
    OneMultiple(AlignUp(at + n), at + AlignUp(n));
  }

  lemma OneMultiple(a: nat, b: nat)
    requires a % 4 == 0 && b % 4 == 0 && a < b + 4 && b < a + 4
    ensures a == b
  {
  }

  lemma AlignedAlready(n: nat)
    requires n % 4 == 0
    ensures AlignUp(n) == n
  {
  }

  // ---------- properties ----------

  function PropLength(p: Prop): nat {
    4 * p.nops + 12 + AlignUp(|p.value|)
  }

  /** A property as it is read: NOPs, three words and the value, padded to a word. */
  ghost predicate PropTokens(a: seq<char>, at: nat, p: Prop) {
    && PieceAt(a, at, NopRun(p.nops))
    && var tag := at + 4 * p.nops;
    && U32At(a, tag) == Some(PROP) && U32At(a, tag + 4) == Some(|p.value|) && U32At(a, tag + 8) == Some(p.nameoff)
    && PieceAt(a, tag + 12, p.value) && tag + 12 + AlignUp(|p.value|) <= |a|
  }

  lemma FiveParts(a: seq<char>, at: nat, nops: string, x: string, y: string, z: string, value: string, pad: string)
    requires PieceAt(a, at, nops + (x + y + z + (value + pad)))
    ensures PieceAt(a, at, nops) && PieceAt(a, at + |nops|, x) && PieceAt(a, at + |nops| + |x|, y)
    ensures PieceAt(a, at + |nops| + |x| + |y|, z) && PieceAt(a, at + |nops| + |x| + |y| + |z|, value)
    ensures at + |nops| + |x| + |y| + |z| + |value| + |pad| <= |a|
  {
    PieceSplit(a, at, nops, x + y + z + (value + pad));
    PieceSplit(a, at + |nops|, x + y + z, value + pad);
    PieceSplit(a, at + |nops|, x + y, z);
    PieceSplit(a, at + |nops|, x, y);
    PieceSplit(a, at + |nops| + |x + y + z|, value, pad);
  }

  lemma PropWritten(a: seq<char>, at: nat, p: Prop)
    requires |p.value| < WRAP && p.nameoff < WRAP && PieceAt(a, at, WriteProp(p))
    ensures PropTokens(a, at, p) && |WriteProp(p)| == PropLength(p)
  {
    FiveParts(a, at, NopRun(p.nops), Be32(3), Be32(|p.value|), Be32(p.nameoff), p.value, Padding(|p.value|));
    var tag := at + 4 * p.nops;
    U32Reads(a, tag, PROP);
    U32Reads(a, tag + 4, |p.value|);
    U32Reads(a, tag + 8, p.nameoff);
  }

  lemma PropRead(b: Blob, at: nat, p: Prop)
    requires at % 4 == 0 && Stored(b, p)
    requires U32At(b.data, at) == Some(|p.value|) && U32At(b.data, at + 4) == Some(p.nameoff)
    requires PieceAt(b.data, at + 8, p.value) && at + 8 + AlignUp(|p.value|) <= |b.data|
    ensures PropAt(b, at) == Some((Property(p.name, p.value), at + 8 + AlignUp(|p.value|)))
  {
    hide U32At, AlignUp, CString, BigEndian;
    AlignedSum(at + 8, |p.value|);
    NameRead(b, p);
  }

  lemma NameRead(b: Blob, p: Prop)
    requires Stored(b, p)
    ensures CString(b.data, NameOffset(b, p.nameoff)) == Some(p.name)
  {
    CStringReads(b.data, NameOffset(b, p.nameoff), p.name);
  }

  lemma PropStep(b: Blob, at: nat, node: Node, p: Prop)
    requires at % 4 == 0 && Stored(b, p) && PropTokens(b.data, at, p)
    ensures BodyFrom(b, at, node) == BodyFrom(b, at + PropLength(p), WithProp(node, p))
  {
    hide BodyFrom, U32At, AlignUp, NopRun, PropAt, Stored, WithProperty;
    NopsSkipped(b, at, p.nops, node);
    var tag := at + 4 * p.nops;
    PropRead(b, tag + 4, p);
    BodyProp(b, tag, node);
  }

  function WithProp(node: Node, p: Prop): Node {
    WithProperty(node, Property(p.name, p.value))
  }

  function AddProps(m: map<string, Property>, ps: seq<Prop>): map<string, Property>
    decreases |ps|
  {
    if ps == [] then m else AddProps(Emplace(m, ps[0].name, Property(ps[0].name, ps[0].value)), ps[1..])
  }

  lemma {:induction false} PropsRead(b: Blob, at: nat, node: Node, ps: seq<Prop>)
    requires at % 4 == 0 && (forall p :: p in ps ==> Stored(b, p)) && PieceAt(b.data, at, WriteProps(ps))
    ensures BodyFrom(b, at, node)
      == BodyFrom(b, at + |WriteProps(ps)|, node.(properties := AddProps(node.properties, ps)))
    ensures |WriteProps(ps)| % 4 == 0
    decreases |ps|
  {
    hide BodyFrom, WriteProp, PropLength, Stored, Emplace;
    if ps != [] {
      var p := ps[0];
      FirstProp(b, at, node, p, WriteProps(ps[1..]));
      PropsRead(b, at + PropLength(p), WithProp(node, p), ps[1..]);
    }
  }

  lemma PropNumbers(b: Blob, p: Prop)
    requires Stored(b, p)
    ensures |p.value| < WRAP && p.nameoff < WRAP && PropLength(p) % 4 == 0
  {
    hide AlignUp;
  }

  lemma FirstProp(b: Blob, at: nat, node: Node, p: Prop, later: string)
    requires at % 4 == 0 && Stored(b, p) && PieceAt(b.data, at, WriteProp(p) + later)
    ensures BodyFrom(b, at, node) == BodyFrom(b, at + PropLength(p), WithProp(node, p))
    ensures |WriteProp(p)| == PropLength(p) && PropLength(p) % 4 == 0 && PieceAt(b.data, at + PropLength(p), later)
  {
    hide BodyFrom, WriteProp, PropTokens, Emplace, CString, AlignUp, Stored, U32At, WithProperty, PieceAt;
    PieceSplit(b.data, at, WriteProp(p), later);
    PropNumbers(b, p);
    PropWritten(b.data, at, p);
    PropStep(b, at, node, p);
  }

  lemma {:induction false} PropsAdded(m: map<string, Property>, ps: seq<Prop>)
    requires forall i, j :: 0 <= i < j < |ps| ==> ps[i].name != ps[j].name
    requires forall p :: p in ps ==> p.name !in m
    ensures AddProps(m, ps).Keys == m.Keys + (set p | p in ps :: p.name)
    ensures forall p :: p in ps ==> AddProps(m, ps)[p.name] == Property(p.name, p.value)
    ensures forall k :: k in m ==> AddProps(m, ps)[k] == m[k]
    decreases |ps|
  {
    if ps != [] {
      var p := ps[0];
      var m' := Emplace(m, p.name, Property(p.name, p.value));
      PropsAdded(m', ps[1..]);
      assert ps == [p] + ps[1..];
      forall q | q in ps ensures AddProps(m, ps)[q.name] == Property(q.name, q.value) {
        if q != p { assert q in ps[1..]; }
      }
    }
  }

  /** Of two properties with one name the first counts, and of two children. */
  lemma FirstCounts(ps: seq<Prop>, i: nat, node: Node, a: Node, b: Node)
    requires i < |ps| && forall j :: 0 <= j < i ==> ps[j].name != ps[i].name
    ensures ps[i].name in AddProps(map[], ps)
    ensures AddProps(map[], ps)[ps[i].name] == Property(ps[i].name, ps[i].value)
    ensures a.name == b.name && a.name !in node.children ==>
      WithChild(WithChild(node, a), b).children == node.children[a.name := a]
  {
    FirstAdded(map[], ps, i);
  }

  lemma {:induction false} FirstAdded(m: map<string, Property>, ps: seq<Prop>, i: nat)
    requires i < |ps| && ps[i].name !in m && forall j :: 0 <= j < i ==> ps[j].name != ps[i].name
    ensures ps[i].name in AddProps(m, ps) && AddProps(m, ps)[ps[i].name] == Property(ps[i].name, ps[i].value)
    decreases |ps|
  {
    var m' := Emplace(m, ps[0].name, Property(ps[0].name, ps[0].value));
    if i > 0 { FirstAdded(m', ps[1..], i - 1); } else { KeptByMore(m', ps[1..], ps[0].name); }
  }

  lemma {:induction false} KeptByMore(m: map<string, Property>, ps: seq<Prop>, k: string)
    requires k in m
    ensures k in AddProps(m, ps) && AddProps(m, ps)[k] == m[k]
    decreases |ps|
  {
    if ps != [] { KeptByMore(Emplace(m, ps[0].name, Property(ps[0].name, ps[0].value)), ps[1..], k); }
  }

  lemma PropsAreMatched(ps: seq<Prop>)
    requires forall i, j :: 0 <= i < j < |ps| ==> ps[i].name != ps[j].name
    ensures PropsMatch(ps, AddProps(map[], ps))
  {
    PropsAdded(map[], ps);
  }

  // ---------- nodes ----------

  function HeadLength(raw: string): nat {
    4 + AlignUp(|raw| + 1)
  }

  lemma HeadWritten(a: seq<char>, at: nat, raw: string, later: string)
    requires PieceAt(a, at, WriteHead(raw) + later)
    ensures U32At(a, at) == Some(BEGIN_NODE) && PieceAt(a, at + 4, raw) && PieceAt(a, at + 4 + |raw|, [NUL])
    ensures PieceAt(a, at + HeadLength(raw), later) && |WriteHead(raw)| == HeadLength(raw)
  {
    PieceSplit(a, at, WriteHead(raw), later);
    PieceSplit(a, at, Be32(1), raw + [NUL] + Padding(|raw| + 1));
    PieceSplit(a, at + 4, raw + [NUL], Padding(|raw| + 1));
    PieceSplit(a, at + 4, raw, [NUL]);
    U32Reads(a, at, BEGIN_NODE);
  }

  lemma HeadFits(a: seq<char>, at: nat, raw: string, later: string)
    requires PieceAt(a, at, WriteHead(raw) + later)
    ensures at + HeadLength(raw) <= |a|
  {
    hide WriteHead;
    HeadWritten(a, at, raw, later);
  }

  lemma HeadRead(b: Blob, at: nat, dir: string, addressCells: nat, sizeCells: nat, raw: string, parts: (string, nat),
      later: string)
    requires at % 4 == 0 && NUL !in raw && NameParts(b.rules, raw) == Some(parts)
      && PieceAt(b.data, at, WriteHead(raw) + later)
    ensures NodeFrom(b, at, dir, addressCells, sizeCells)
         == BodyFrom(b, at + HeadLength(raw), NewNode(parts, dir, addressCells, sizeCells))
    ensures PieceAt(b.data, at + HeadLength(raw), later) && HeadLength(raw) % 4 == 0
      && |WriteHead(raw)| == HeadLength(raw)
  {
    hide BodyFrom, NodeFrom, NameParts, WriteHead, CString, U32At, AlignUp, NewNode, PieceAt;
    HeadFits(b.data, at, raw, later);
    HeadWritten(b.data, at, raw, later);
    CStringReads(b.data, at + 4, raw);
    AlignedSum(at + 4, |raw| + 1);
    NodeHead(b, at, dir, addressCells, sizeCells, raw, parts);
  }

  lemma TailRead(b: Blob, at: nat, k: nat, node: Node)
    requires at % 4 == 0 && PieceAt(b.data, at, NopRun(k) + Be32(2))
    ensures BodyFrom(b, at, node) == Parsed(node, at + 4 * k + 4)
  {
    hide BodyFrom, U32At, Be32, NopRun, AlignUp;
    AlignedAlready(at + 4 * k + 4);
    PieceSplit(b.data, at, NopRun(k), Be32(2));
    NopsSkipped(b, at, k, node);
    U32Reads(b.data, at + 4 * k, END_NODE);
    BodyEnd(b, at + 4 * k, node);
  }

  /** The cell counts for the children are those that are stated in the written properties. */
  lemma CellsReadable(b: Blob, t: Tree, properties: map<string, Property>)
    requires PropsOk(b, t.props) && PropsMatch(t.props, properties)
    ensures ChildCells(b.rules, properties) == Some(CellsOf(b.rules, t))
  {
    hide BigEndian, U32At, Stated, PropsOk, PropsMatch;
    StoredCell(b, t.props, properties, b.rules.addressKey, 2);
    StoredCell(b, t.props, properties, b.rules.sizeKey, 1);
  }

  lemma StoredCell(b: Blob, ps: seq<Prop>, properties: map<string, Property>, key: string, default_: nat)
    requires PropsOk(b, ps) && PropsMatch(ps, properties) && key in {b.rules.addressKey, b.rules.sizeKey}
    ensures CellOr(properties, key, default_) == Some(Stated(ps, key, default_))
  {
    hide U32At, Number4, Stated, Stored;
    if key in properties {
      var i :| 0 <= i < |ps| && ps[i].name == key;
      assert properties[key].value == ps[i].value;
      CellIsWhole(b, ps[i]);
      StatedAt(ps, i, default_);
      CellIsRead(ps[i].value);
    } else {
      NothingStated(ps, key, default_);
    }
  }

  lemma CellIsWhole(b: Blob, p: Prop)
    requires Stored(b, p) && p.name in {b.rules.addressKey, b.rules.sizeKey}
    ensures |p.value| >= 4
  {
  }

  lemma CellIsRead(v: string)
    requires |v| >= 4
    ensures U32At(v, 0) == Some(Number4(v))
  {
    hide BigEndian;
    assert v[0..4] == v[..4];
    BigEndianOfFour(v[..4]);
  }

  lemma {:induction false} StatedAt(ps: seq<Prop>, i: nat, default_: nat)
    requires i < |ps| && |ps[i].value| >= 4 && forall j, k :: 0 <= j < k < |ps| ==> ps[j].name != ps[k].name
    ensures Stated(ps, ps[i].name, default_) == Number4(ps[i].value)
    decreases i
  {
    if i > 0 { StatedAt(ps[1..], i - 1, default_); }
  }

  lemma {:induction false} NothingStated(ps: seq<Prop>, key: string, default_: nat)
    requires forall p :: p in ps ==> p.name != key
    ensures Stated(ps, key, default_) == default_
  {
    if ps != [] { NothingStated(ps[1..], key, default_); }
  }

  /** The children that have been read are those numbered below i. */
  ghost predicate ReadSoFar(rules: Rules, t: Tree, i: nat, children: map<string, Node>, dir: string, cells: (nat, nat))
    requires i <= |t.children|
  {
    && (forall k :: k in children ==> exists j: nat :: j < i && Called(rules, t.children[j]) == k)
    && (forall j: nat {:trigger t.children[j]} :: j < i ==>
          var key := Called(rules, t.children[j]);
          key in children && Matches(rules, t.children[j], children[key], dir, cells.0, cells.1))
  }

  lemma NoneRead(rules: Rules, t: Tree, dir: string, cells: (nat, nat))
    ensures ReadSoFar(rules, t, 0, map[], dir, cells)
  {
  }

  lemma ReadOneMore(b: Blob, t: Tree, i: nat, children: map<string, Node>, dir: string, cells: (nat, nat), child: Node)
    requires WellFormed(b, t) && i < |t.children| && ReadSoFar(b.rules, t, i, children, dir, cells)
    requires child.name == Called(b.rules, t.children[i])
    requires Matches(b.rules, t.children[i], child, dir, cells.0, cells.1)
    ensures child.name !in children
    ensures ReadSoFar(b.rules, t, i + 1, children[child.name := child], dir, cells)
  {
    hide Matches, Called;
  }

  /** One node, its tag first: parsing gives the node that was written and stops behind it. */
  lemma {:induction false} TreeRead(b: Blob, at: nat, t: Tree, dir: string, addressCells: nat, sizeCells: nat)
      returns (node: Node)
    requires at % 4 == 0 && WellFormed(b, t) && PieceAt(b.data, at, WriteBare(t))
    ensures NodeFrom(b, at, dir, addressCells, sizeCells) == Parsed(node, at + |WriteBare(t)|)
    ensures Matches(b.rules, t, node, dir, addressCells, sizeCells)
    ensures |WriteBare(t)| % 4 == 0 && U32At(b.data, at) == Some(BEGIN_NODE)
    decreases t, |t.children| + 1
  {
    hide NodeFrom, BodyFrom, WellFormed, Matches, WriteHead, WriteProps, WriteTrees, NopRun, U32At, NameParts,
         AlignUp, Be32, PropsMatch, PropsOk, ReadSoFar, ChildCells, CellsOf, ChildDir, HeadLength, Stored, PieceAt,
         Called;
    var rest := WriteProps(t.props) + (WriteTrees(t, 0) + (NopRun(t.tail) + Be32(2)));
    var parts := WellNamed(b, t);
    HeadWritten(b.data, at, t.raw, rest);
    HeadRead(b, at, dir, addressCells, sizeCells, t.raw, parts, rest);
    var n0, p0 := NewNode(parts, dir, addressCells, sizeCells), at + HeadLength(t.raw);
    var n1, cells := BodyProps(b, p0, t, n0);
    NoneRead(b.rules, t, ChildDir(n1.fullName), cells);
    var p1 := p0 + |WriteProps(t.props)|;
    var after := ChildrenRead(b, p1, t, 0, n1, cells, NopRun(t.tail) + Be32(2));
    node := n1.(children := after);
    TailRead(b, p1 + |WriteTrees(t, 0)|, t.tail, node);
    AllMatch(b, t, node, dir, addressCells, sizeCells, cells);
  }

  lemma WellNamed(b: Blob, t: Tree) returns (parts: (string, nat))
    requires WellFormed(b, t)
    ensures NUL !in t.raw && NameParts(b.rules, t.raw) == Some(parts) && PropsOk(b, t.props)
  {
    parts := NameParts(b.rules, t.raw).value;
  }

  /** All properties of a node, from an empty table on. */
  lemma BodyProps(b: Blob, at: nat, t: Tree, node: Node) returns (n1: Node, cells: (nat, nat))
    requires at % 4 == 0 && PropsOk(b, t.props) && node.properties == map[]
    requires PieceAt(b.data, at, WriteProps(t.props) + (WriteTrees(t, 0) + (NopRun(t.tail) + Be32(2))))
    ensures BodyFrom(b, at, node) == BodyFrom(b, at + |WriteProps(t.props)|, n1)
    ensures n1 == node.(properties := n1.properties) && PropsMatch(t.props, n1.properties)
    ensures cells == CellsOf(b.rules, t) && ChildCells(b.rules, n1.properties) == Some(cells)
    ensures |WriteProps(t.props)| % 4 == 0
    ensures PieceAt(b.data, at + |WriteProps(t.props)|, WriteTrees(t, 0) + (NopRun(t.tail) + Be32(2)))
  {
    hide BodyFrom, Stored, WriteProps, WriteTrees, NopRun, ChildCells;
    PieceSplit(b.data, at, WriteProps(t.props), WriteTrees(t, 0) + (NopRun(t.tail) + Be32(2)));
    PropsRead(b, at, node, t.props);
    n1 := node.(properties := AddProps(map[], t.props));
    PropsAreMatched(t.props);
    CellsReadable(b, t, n1.properties);
    cells := CellsOf(b.rules, t);
  }

  /** The children from number i on. */
  lemma {:induction false} ChildrenRead(b: Blob, at: nat, t: Tree, i: nat, node: Node, cells: (nat, nat),
      later: string) returns (after: map<string, Node>)
    requires at % 4 == 0 && WellFormed(b, t) && i <= |t.children| && PieceAt(b.data, at, WriteTrees(t, i) + later)
    requires ChildCells(b.rules, node.properties) == Some(cells)
    requires ReadSoFar(b.rules, t, i, node.children, ChildDir(node.fullName), cells)
    ensures BodyFrom(b, at, node) == BodyFrom(b, at + |WriteTrees(t, i)|, node.(children := after))
    ensures ReadSoFar(b.rules, t, |t.children|, after, ChildDir(node.fullName), cells)
    ensures |WriteTrees(t, i)| % 4 == 0 && PieceAt(b.data, at + |WriteTrees(t, i)|, later)
    decreases t, |t.children| - i
  {
    hide BodyFrom, WellFormed, ReadSoFar, WriteTree, ChildCells, ChildDir;
    if i == |t.children| {
      PieceSplit(b.data, at, "", later);
      after := node.children;
    } else {
      assert WriteTree(t.children[i]) + WriteTrees(t, i + 1) + later == WriteTree(t.children[i])
        + (WriteTrees(t, i + 1) + later);
      var child := ChildRead(b, at, t, i, node, cells, WriteTrees(t, i + 1) + later);
      ReadOneMore(b, t, i, node.children, ChildDir(node.fullName), cells, child);
      var n1 := node.(children := node.children[child.name := child]);
      after := ChildrenRead(b, at + |WriteTree(t.children[i])|, t, i + 1, n1, cells, later);
    }
  }

  /** Child number i: its NOPs are skipped by the parent. */
  lemma {:induction false} ChildRead(b: Blob, at: nat, t: Tree, i: nat, node: Node, cells: (nat, nat), later: string)
      returns (child: Node)
    requires at % 4 == 0 && WellFormed(b, t) && i < |t.children|
      && PieceAt(b.data, at, WriteTree(t.children[i]) + later)
    requires ChildCells(b.rules, node.properties) == Some(cells)
    requires ReadSoFar(b.rules, t, i, node.children, ChildDir(node.fullName), cells)
    ensures BodyFrom(b, at, node) ==
      BodyFrom(b, at + |WriteTree(t.children[i])|, node.(children := node.children[child.name := child]))
    ensures child.name == Called(b.rules, t.children[i])
    ensures Matches(b.rules, t.children[i], child, ChildDir(node.fullName), cells.0, cells.1)
    ensures |WriteTree(t.children[i])| % 4 == 0 && PieceAt(b.data, at + |WriteTree(t.children[i])|, later)
    decreases t, |t.children| - i, 0
  {
    hide NodeFrom, BodyFrom, ReadSoFar, WriteBare, NopRun, U32At, ChildCells, ChildDir, NameParts;
    var c := t.children[i];
    assert WellFormed(b, c);
    PieceSplit(b.data, at, WriteTree(c), later);
    PieceSplit(b.data, at, NopRun(c.nops), WriteBare(c));
    NopsSkipped(b, at, c.nops, node);
    var p := at + 4 * c.nops;
    child := TreeRead(b, p, c, ChildDir(node.fullName), cells.0, cells.1);
    ReadOneMore(b, t, i, node.children, ChildDir(node.fullName), cells, child);
    BodyChild(b, p, node);
  }

  lemma AllMatch(b: Blob, t: Tree, node: Node, dir: string, addressCells: nat, sizeCells: nat, cells: (nat, nat))
    requires NameParts(b.rules, t.raw) == Some((node.name, node.address)) && node.fullName == dir + "/" + node.name
    requires node.addressCells == addressCells && node.sizeCells == sizeCells && PropsMatch(t.props, node.properties)
    requires cells == CellsOf(b.rules, t)
    requires ReadSoFar(b.rules, t, |t.children|, node.children, ChildDir(node.fullName), cells)
    ensures Matches(b.rules, t, node, dir, addressCells, sizeCells)
  {
    hide CellsOf, NameParts, Called;
    assert node.children.Keys == (set c | c in t.children :: Called(b.rules, c));
    forall i: nat | i < |t.children| ensures ChildMatches(b.rules, t, node, i) { }
  }

  lemma NodeNops(b: Blob, at: nat, k: nat, dir: string, addressCells: nat, sizeCells: nat)
    requires PieceAt(b.data, at, NopRun(k))
    ensures NodeFrom(b, at, dir, addressCells, sizeCells) == NodeFrom(b, at + 4 * k, dir, addressCells, sizeCells)
  {
    hide FirstTag, BodyFrom, CString;
    NopsBeforeTag(b.data, at, k);
  }

  /** Parsing undoes flattening: the tree comes back, and the cursor stops behind its end tag. */
  lemma ParseRecovers(b: Blob, at: nat, t: Tree, dir: string, addressCells: nat, sizeCells: nat)
    requires at % 4 == 0 && WellFormed(b, t) && PieceAt(b.data, at, WriteTree(t))
    ensures var r := NodeFrom(b, at, dir, addressCells, sizeCells);
      r.Parsed? && r.next == at + |WriteTree(t)| && Matches(b.rules, t, r.node, dir, addressCells, sizeCells)
  {
    hide NodeFrom, WellFormed, Matches, WriteBare, NopRun;
    PieceSplit(b.data, at, NopRun(t.nops), WriteBare(t));
    NodeNops(b, at, t.nops, dir, addressCells, sizeCells);
    var node := TreeRead(b, at + 4 * t.nops, t, dir, addressCells, sizeCells);
  }

  /** The header: its magic number, the size of the blob, where the structure block and the strings
      block start, and 24 bytes that nobody reads. */
  function WriteHeader(total: nat, structure: nat, strings: nat, rest: string): string {
    Be32(0xd00d_feed) + Be32(total) + Be32(structure) + Be32(strings) + rest
  }

  lemma HeaderRead(data: seq<char>, total: nat, structure: nat, strings: nat, rest: string)
    requires total <= |data| && total < 0x1_0000_0000 && structure < 0x1_0000_0000 && strings < 0x1_0000_0000
    requires |rest| == 24 && PieceAt(data, 0, WriteHeader(total, structure, strings, rest))
    ensures HeaderOf(data) == Some((structure, strings))
  {
    hide U32At, Be32;
    PieceSplit(data, 0, Be32(0xd00d_feed) + Be32(total) + Be32(structure) + Be32(strings), rest);
    PieceSplit(data, 0, Be32(0xd00d_feed) + Be32(total) + Be32(structure), Be32(strings));
    PieceSplit(data, 0, Be32(0xd00d_feed) + Be32(total), Be32(structure));
    PieceSplit(data, 0, Be32(0xd00d_feed), Be32(total));
    U32Reads(data, 0, 0xd00d_feed);
    U32Reads(data, 4, total);
    U32Reads(data, 8, structure);
    U32Reads(data, 12, strings);
  }

  /** A written blob: the header, a strings block with the names, and the tree in the structure block. */
  ghost predicate BlobOf(data: seq<char>, total: nat, structure: nat, strings: nat, rest: string, t: Tree,
      rules: Rules) {
    && total <= |data| && total < 0x1_0000_0000 && structure < 0x1_0000_0000 && strings < 0x1_0000_0000
    && |rest| == 24 && PieceAt(data, 0, WriteHeader(total, structure, strings, rest))
    && structure % 4 == 0 && WellFormed(Blob(data, strings, rules), t) && PieceAt(data, structure, WriteTree(t))
  }

  /** Loading a written blob gives the tree back; the cell counts of the root are 2 and 1. */
  lemma LoadRecovers(data: seq<char>, total: nat, structure: nat, strings: nat, rest: string, t: Tree, rules: Rules)
    requires BlobOf(data, total, structure, strings, rest, t, rules)
    ensures HeaderOf(data) == Some((structure, strings))
    ensures var r := LoadOf(data, rules); r.Parsed? && Matches(rules, t, r.node, "", 2, 1)
  {
    hide WellFormed, Matches, NodeFrom, WriteTree, WriteHeader, HeaderOf;
    HeaderRead(data, total, structure, strings, rest);
    ParseRecovers(Blob(data, strings, rules), structure, t, "", 2, 1);
  }

  /** A unit address written in hexadecimal is read back, and the name is what precedes it. */
  lemma UnitAddressRoundTrip(base: string, n: nat, k: nat)
    requires '@' !in base && 0 < k <= 16 && n < Power16(k)
    ensures NameParts(FDT, base + "@" + HexDigits(n, k)) == Some((base, n))
    ensures NameParts(FDT, base) == Some((base, 0))
  {
    var digits := HexDigits(n, k);
    var raw := base + "@" + digits;
    var i := IndexOf(raw, '@', 0);
    assert raw[|base|] == '@' && raw[..|base|] == base && raw[|base| + 1..] == digits;
    assert i == |base| by {
      forall j | 0 <= j < |base| ensures raw[j] != '@' { assert raw[j] == base[j]; }
    }
    HexRoundTrip(n, k);
    PlainDigits(digits);
    SixteenDigitsFit(n, k);
  }

  lemma {:induction false} SixteenDigitsFit(n: nat, k: nat)
    requires k <= 16 && n < Power16(k)
    ensures n < ULL_LIMIT
    decreases 16 - k
  {
    if k < 16 {
      assert Power16(k) <= Power16(k + 1);
      SixteenDigitsFit(n, k + 1);
    } else {
      assert Power16(8) == 0x1_0000_0000;
      assert Power16(12) == 0x1_0000_0000_0000;
      assert Power16(16) == ULL_LIMIT;
    }
  }
}
