/** Flattened device trees: the tree, its token stream (Devicetree Specification v0.3,
    sections 5.2, 5.4 and 5.5), and the bytes that hold a token stream. */
module FdtFormat {
  import opened Wrappers
  import opened Bits

  type Name = s: seq<byte> | 0 !in s

  datatype Property = Property(name: Name, data: seq<byte>)
  datatype Node = Node(name: Name, props: seq<Property>, children: seq<Node>)

  datatype Token = BeginNode(name: Name) | Prop(prop: Property) | EndNode | Nop | End

  const FDT_BEGIN_NODE: u32 := 1
  const FDT_END_NODE: u32 := 2
  const FDT_PROP: u32 := 3
  const FDT_NOP: u32 := 4
  const FDT_END: u32 := 9
  const FDT_TAGSIZE: nat := 4

  // ---- Looking a property up in the tree itself ----

  function FirstNamed(props: seq<Property>, name: Name): Option<seq<byte>> {
    if props == [] then None
    else if props[0].name == name then Some(props[0].data)
    else FirstNamed(props[1..], name)
  }

  /** The first property named `propName`, in pre-order, of a node named `nodeName`. */
  function Lookup(node: Node, nodeName: Name, propName: Name): Option<seq<byte>>
    decreases node, 1
  {
    var own := if node.name == nodeName then FirstNamed(node.props, propName) else None;
    if own.Some? then own else LookupAll(node.children, nodeName, propName)
  }

  function LookupAll(nodes: seq<Node>, nodeName: Name, propName: Name): Option<seq<byte>>
    decreases nodes, 0
  {
    if nodes == [] then None
    else
      var first := Lookup(nodes[0], nodeName, propName);
      if first.Some? then first else LookupAll(nodes[1..], nodeName, propName)
  }

  // ---- Flattening ----

  function PropTokens(props: seq<Property>): seq<Token> {
    if props == [] then [] else [Prop(props[0])] + PropTokens(props[1..])
  }

  /** Properties before subnodes, as the specification asks. */
  function Flatten(node: Node): seq<Token>
    decreases node, 1
  {
    [BeginNode(node.name)] + (PropTokens(node.props) + (FlattenAll(node.children) + [EndNode]))
  }

  function FlattenAll(nodes: seq<Node>): seq<Token>
    decreases nodes, 0
  {
    if nodes == [] then [] else Flatten(nodes[0]) + FlattenAll(nodes[1..])
  }

  function WithoutNops(ts: seq<Token>): seq<Token> {
    if ts == [] then []
    else if ts[0].Nop? then WithoutNops(ts[1..])
    else [ts[0]] + WithoutNops(ts[1..])
  }

  /** A structure block for `root`: its flattening with NOPs anywhere, then END. */
  predicate Encodes(ts: seq<Token>, root: Node) {
    WithoutNops(ts) == Flatten(root) + [End]
  }

  // ---- Walking the token stream ----

  /** The flat state machine: one flag, set by a matching BEGIN_NODE and cleared by any
      other BEGIN_NODE and by every END_NODE. */
  function Walk(ts: seq<Token>, found: bool, nodeName: Name, propName: Name): Option<seq<byte>>
    decreases |ts|
  {
    if ts == [] then None
    else
      match ts[0]
      case BeginNode(name) => Walk(ts[1..], name == nodeName, nodeName, propName)
      case Prop(prop) =>
        if found && prop.name == propName then Some(prop.data)
        else Walk(ts[1..], found, nodeName, propName)
      case EndNode => Walk(ts[1..], false, nodeName, propName)
      case Nop => Walk(ts[1..], found, nodeName, propName)
      case End => None
  }

  lemma {:induction false} WalkIgnoresNops(ts: seq<Token>, found: bool, nodeName: Name, propName: Name)
    ensures Walk(ts, found, nodeName, propName) == Walk(WithoutNops(ts), found, nodeName, propName)
    decreases |ts|
  {
    if ts != [] {
      var found' := match ts[0] case BeginNode(name) => name == nodeName case EndNode => false case _ => found;
      WalkIgnoresNops(ts[1..], found', nodeName, propName);
    }
  }

  // ---- Trees with properties and subnodes in any order ----

  datatype Item = Own(prop: Property) | Sub(node: Mixed)
  datatype Mixed = Mixed(name: Name, items: seq<Item>)

  function FlattenMixed(node: Mixed): seq<Token>
    decreases node, 1
  {
    [BeginNode(node.name)] + (FlattenItems(node.items) + [EndNode])
  }

  function FlattenItems(items: seq<Item>): seq<Token>
    decreases items, 0
  {
    if items == [] then [] else FlattenItem(items[0]) + FlattenItems(items[1..])
  }

  function FlattenItem(item: Item): seq<Token>
    decreases item, 2
  {
    match item
    case Own(prop) => [Prop(prop)]
    case Sub(node) => FlattenMixed(node)
  }

  /** A property with the name of the node it belongs to; `early` if it stands before the
      first subnode of that node. */
  datatype Entry = Entry(owner: Name, prop: Property, early: bool)

  /** All properties of the tree, in the order of the stream. */
  function Entries(node: Mixed): seq<Entry>
    decreases node, 1
  {
    ItemEntries(node.items, node.name, true)
  }

  function ItemEntries(items: seq<Item>, owner: Name, early: bool): seq<Entry>
    decreases items, 0
  {
    if items == [] then []
    else EntriesOf(items[0], owner, early) + ItemEntries(items[1..], owner, early && items[0].Own?)
  }

  function EntriesOf(item: Item, owner: Name, early: bool): seq<Entry>
    decreases item, 2
  {
    match item
    case Own(prop) => [Entry(owner, prop, early)]
    case Sub(node) => Entries(node)
  }

  predicate Matches(e: Entry, nodeName: Name, propName: Name) {
    e.owner == nodeName && e.prop.name == propName
  }

  /** The first property of that name, in the order of the stream, in a node of that name. */
  function FirstMatch(es: seq<Entry>, nodeName: Name, propName: Name): Option<Entry> {
    if es == [] then None
    else if Matches(es[0], nodeName, propName) then Some(es[0])
    else FirstMatch(es[1..], nodeName, propName)
  }

  function EarlyOnly(es: seq<Entry>): seq<Entry> {
    if es == [] then [] else (if es[0].early then [es[0]] else []) + EarlyOnly(es[1..])
  }

  function DataOf(e: Option<Entry>): Option<seq<byte>> {
    if e.None? then None else Some(e.value.prop.data)
  }

  lemma {:induction false} EarlyOfConcat(es: seq<Entry>, fs: seq<Entry>)
    ensures EarlyOnly(es + fs) == EarlyOnly(es) + EarlyOnly(fs)
  {
    if es == [] {
      assert es + fs == fs;
    } else {
      assert (es + fs)[1..] == es[1..] + fs;
      EarlyOfConcat(es[1..], fs);
    }
  }

  lemma {:induction false} FirstOfConcat(es: seq<Entry>, fs: seq<Entry>, nodeName: Name, propName: Name)
    ensures FirstMatch(es + fs, nodeName, propName)
         == if FirstMatch(es, nodeName, propName).Some? then FirstMatch(es, nodeName, propName)
            else FirstMatch(fs, nodeName, propName)
  {
    if es == [] {
      assert es + fs == fs;
    } else {
      assert (es + fs)[1..] == es[1..] + fs;
      FirstOfConcat(es[1..], fs, nodeName, propName);
    }
  }

  /** The early match of a subtree, or of what follows it. */
  function EarlyMatch(es: seq<Entry>, nodeName: Name, propName: Name): Option<seq<byte>> {
    DataOf(FirstMatch(EarlyOnly(es), nodeName, propName))
  }

  lemma EarlyMatchOfConcat(es: seq<Entry>, fs: seq<Entry>, nodeName: Name, propName: Name)
    ensures EarlyMatch(es + fs, nodeName, propName)
         == if EarlyMatch(es, nodeName, propName).Some? then EarlyMatch(es, nodeName, propName)
            else EarlyMatch(fs, nodeName, propName)
  {
    EarlyOfConcat(es, fs);
    FirstOfConcat(EarlyOnly(es), EarlyOnly(fs), nodeName, propName);
  }

  lemma EarlyMatchOfOne(e: Entry, nodeName: Name, propName: Name)
    ensures EarlyMatch([e], nodeName, propName)
         == if e.early && Matches(e, nodeName, propName) then Some(e.prop.data) else None
  {
    assert EarlyOnly([e][1..]) == [];
    assert FirstMatch([], nodeName, propName) == None;
    assert [e][1..] == [];
  }

  lemma {:induction false} WalkItems(items: seq<Item>, rest: seq<Token>, owner: Name, early: bool,
                                     nodeName: Name, propName: Name)
    requires rest != [] && rest[0] == EndNode
    ensures Walk(FlattenItems(items) + rest, early && owner == nodeName, nodeName, propName)
         == if EarlyMatch(ItemEntries(items, owner, early), nodeName, propName).Some?
            then EarlyMatch(ItemEntries(items, owner, early), nodeName, propName)
            else Walk(rest, false, nodeName, propName)
    decreases items, 0
  {
    hide EarlyMatch, Matches;
    if items == [] {
      assert FlattenItems(items) + rest == rest;
      NoEarlyMatch(nodeName, propName);
    } else {
      var tail, later := FlattenItems(items[1..]) + rest, early && items[0].Own?;
      assert FlattenItems(items) + rest == FlattenItem(items[0]) + tail;
      WalkItem(items[0], tail, owner, early, nodeName, propName);
      WalkItems(items[1..], rest, owner, later, nodeName, propName);
      EarlyMatchOfConcat(EntriesOf(items[0], owner, early), ItemEntries(items[1..], owner, later), nodeName, propName);
    }
  }

  lemma {:induction false} WalkItem(item: Item, tail: seq<Token>, owner: Name, early: bool, nodeName: Name, propName: Name)
    ensures Walk(FlattenItem(item) + tail, early && owner == nodeName, nodeName, propName)
         == if EarlyMatch(EntriesOf(item, owner, early), nodeName, propName).Some?
            then EarlyMatch(EntriesOf(item, owner, early), nodeName, propName)
            else Walk(tail, early && item.Own? && owner == nodeName, nodeName, propName)
    decreases item, 2
  {
    hide EarlyMatch, Matches, Walk;
    match item
    case Own(prop) => WalkOwn(prop, tail, owner, early, nodeName, propName);
    case Sub(node) => WalkMixed(node, tail, early && owner == nodeName, nodeName, propName);
  }

  lemma NoEarlyMatch(nodeName: Name, propName: Name)
    ensures EarlyMatch([], nodeName, propName) == None
  {
  }

  lemma WalkOwn(prop: Property, tail: seq<Token>, owner: Name, early: bool, nodeName: Name, propName: Name)
    ensures var e := Entry(owner, prop, early);
      Walk([Prop(prop)] + tail, early && owner == nodeName, nodeName, propName)
      == if EarlyMatch([e], nodeName, propName).Some? then EarlyMatch([e], nodeName, propName)
         else Walk(tail, early && owner == nodeName, nodeName, propName)
  {
    EarlyMatchOfOne(Entry(owner, prop, early), nodeName, propName);
    assert ([Prop(prop)] + tail)[1..] == tail;
  }

  /** What one flag sees of any tree: walking its flattening stops at the first matching
      property, in the order of the stream, that stands before the first subnode of its
      node, and else leaves the flag clear for whatever follows. */
  lemma {:induction false} WalkMixed(node: Mixed, rest: seq<Token>, found: bool, nodeName: Name, propName: Name)
    ensures Walk(FlattenMixed(node) + rest, found, nodeName, propName)
         == if EarlyMatch(Entries(node), nodeName, propName).Some? then EarlyMatch(Entries(node), nodeName, propName)
            else Walk(rest, false, nodeName, propName)
    decreases node, 1
  {
    hide EarlyMatch, FlattenItems, ItemEntries;
    var tail := FlattenItems(node.items) + ([EndNode] + rest);
    assert FlattenMixed(node) + rest == [BeginNode(node.name)] + tail;
    assert ([BeginNode(node.name)] + tail)[1..] == tail;
    WalkItems(node.items, [EndNode] + rest, node.name, true, nodeName, propName);
    assert ([EndNode] + rest)[1..] == rest;
    WalkEnd(rest, nodeName, propName);
  }

  lemma WalkEnd(rest: seq<Token>, nodeName: Name, propName: Name)
    ensures Walk([EndNode] + rest, false, nodeName, propName) == Walk(rest, false, nodeName, propName)
  {
    assert ([EndNode] + rest)[1..] == rest;
  }

  /** A structure block for `root`: its flattening with NOPs anywhere, then END. */
  predicate EncodesMixed(ts: seq<Token>, root: Mixed) {
    WithoutNops(ts) == FlattenMixed(root) + [End]
  }

  /** The exact condition for the walk to agree with lookup in the tree: of all matching
      properties in the order of the stream, the first stands before the first subnode of
      its node, or the first one that does has the same data, or there is none. */
  lemma WalkAgrees(ts: seq<Token>, root: Mixed, nodeName: Name, propName: Name)
    requires EncodesMixed(ts, root)
    ensures var first, seen := FirstMatch(Entries(root), nodeName, propName),
                               FirstMatch(EarlyOnly(Entries(root)), nodeName, propName);
      && Walk(ts, false, nodeName, propName) == DataOf(seen)
      && (Walk(ts, false, nodeName, propName) == DataOf(first)
          <==> first.None? || first.value.early || (seen.Some? && seen.value.prop.data == first.value.prop.data))
  {
    hide FlattenMixed, Entries, Matches;
    WalkIgnoresNops(ts, false, nodeName, propName);
    WalkMixed(root, [End], false, nodeName, propName);
    FirstIsSeen(Entries(root), nodeName, propName);
  }

  lemma {:induction false} FirstIsSeen(es: seq<Entry>, nodeName: Name, propName: Name)
    ensures var first, seen := FirstMatch(es, nodeName, propName), FirstMatch(EarlyOnly(es), nodeName, propName);
      (first.None? ==> seen.None?) && (first.Some? && first.value.early ==> seen == first)
  {
    if es != [] {
      FirstIsSeen(es[1..], nodeName, propName);
      FirstOfConcat(if es[0].early then [es[0]] else [], EarlyOnly(es[1..]), nodeName, propName);
      assert es[0].early ==> [es[0]][1..] == [];
    }
  }

  /** So where no property stands behind a subnode, the walk is lookup, for all names. */
  lemma WalkAgreesIfEarly(ts: seq<Token>, root: Mixed, nodeName: Name, propName: Name)
    requires EncodesMixed(ts, root) && forall e :: e in Entries(root) ==> e.early
    ensures Walk(ts, false, nodeName, propName) == DataOf(FirstMatch(Entries(root), nodeName, propName))
  {
    hide FlattenMixed, Entries, Matches;
    WalkAgrees(ts, root, nodeName, propName);
    MatchIsEntry(Entries(root), nodeName, propName);
  }

  lemma {:induction false} MatchIsEntry(es: seq<Entry>, nodeName: Name, propName: Name)
    ensures FirstMatch(es, nodeName, propName).Some? ==> FirstMatch(es, nodeName, propName).value in es
  {
    if es != [] {
      MatchIsEntry(es[1..], nodeName, propName);
    }
  }

  // ---- Trees with properties before subnodes ----

  /** The tree as the specification orders it. */
  function Sorted(node: Node): Mixed
    decreases node, 1
  {
    Mixed(node.name, OwnItems(node.props) + SubItems(node.children))
  }

  function OwnItems(props: seq<Property>): seq<Item> {
    if props == [] then [] else [Own(props[0])] + OwnItems(props[1..])
  }

  function SubItems(nodes: seq<Node>): seq<Item>
    decreases nodes, 0
  {
    if nodes == [] then [] else [Sub(Sorted(nodes[0]))] + SubItems(nodes[1..])
  }

  lemma {:induction false} FlattenOwn(props: seq<Property>, items: seq<Item>)
    ensures FlattenItems(OwnItems(props) + items) == PropTokens(props) + FlattenItems(items)
  {
    if props == [] {
      assert OwnItems(props) + items == items;
    } else {
      assert OwnItems(props) + items == [Own(props[0])] + (OwnItems(props[1..]) + items);
      FlattenOwn(props[1..], items);
    }
  }

  lemma {:induction false} FlattenSorted(node: Node)
    ensures FlattenMixed(Sorted(node)) == Flatten(node)
    decreases node, 1
  {
    FlattenOwn(node.props, SubItems(node.children));
    FlattenSubs(node.children);
  }

  lemma {:induction false} FlattenSubs(nodes: seq<Node>)
    ensures FlattenItems(SubItems(nodes)) == FlattenAll(nodes)
    decreases nodes, 0
  {
    if nodes != [] {
      FlattenSorted(nodes[0]);
      FlattenSubs(nodes[1..]);
    }
  }

  predicate AllEarly(es: seq<Entry>) {
    forall e :: e in es ==> e.early
  }

  /** Own properties come first and early, then what the subnodes hold. */
  lemma {:induction false} OwnEntries(props: seq<Property>, nodes: seq<Node>, owner: Name, nodeName: Name, propName: Name)
    requires AllEarly(ItemEntries(SubItems(nodes), owner, true))
    requires DataOf(FirstMatch(ItemEntries(SubItems(nodes), owner, true), nodeName, propName))
          == LookupAll(nodes, nodeName, propName)
    ensures var es := ItemEntries(OwnItems(props) + SubItems(nodes), owner, true);
      && AllEarly(es)
      && DataOf(FirstMatch(es, nodeName, propName))
         == if owner == nodeName && FirstNamed(props, propName).Some? then FirstNamed(props, propName)
            else LookupAll(nodes, nodeName, propName)
    decreases |props|
  {
    hide SubItems, LookupAll;
    if props == [] {
      assert OwnItems(props) + SubItems(nodes) == SubItems(nodes);
    } else {
      assert OwnItems(props) + SubItems(nodes) == [Own(props[0])] + (OwnItems(props[1..]) + SubItems(nodes));
      OwnEntries(props[1..], nodes, owner, nodeName, propName);
      var e, es := Entry(owner, props[0], true), ItemEntries(OwnItems(props[1..]) + SubItems(nodes), owner, true);
      assert ([e] + es)[1..] == es;
    }
  }

  lemma {:induction false} SortedEntries(node: Node, nodeName: Name, propName: Name)
    ensures AllEarly(Entries(Sorted(node)))
    ensures DataOf(FirstMatch(Entries(Sorted(node)), nodeName, propName)) == Lookup(node, nodeName, propName)
    decreases node, 1
  {
    hide FirstMatch, ItemEntries;
    SubEntries(node.children, node.name, true, nodeName, propName);
    OwnEntries(node.props, node.children, node.name, nodeName, propName);
  }

  lemma {:induction false} SubEntries(nodes: seq<Node>, owner: Name, early: bool, nodeName: Name, propName: Name)
    ensures AllEarly(ItemEntries(SubItems(nodes), owner, early))
    ensures DataOf(FirstMatch(ItemEntries(SubItems(nodes), owner, early), nodeName, propName))
         == LookupAll(nodes, nodeName, propName)
    decreases nodes, 0
  {
    hide Lookup, Matches, Entries;
    if nodes != [] {
      var es := Entries(Sorted(nodes[0]));
      SortedEntries(nodes[0], nodeName, propName);
      SubEntries(nodes[1..], owner, false, nodeName, propName);
      FirstOfConcat(es, ItemEntries(SubItems(nodes[1..]), owner, false), nodeName, propName);
      assert SubItems(nodes)[1..] == SubItems(nodes[1..]);
    }
  }

  /** On every encoding of every tree with properties before subnodes, the flat walk is
      lookup in the tree. */
  lemma WalkIsLookup(ts: seq<Token>, root: Node, nodeName: Name, propName: Name)
    requires Encodes(ts, root)
    ensures Walk(ts, false, nodeName, propName) == Lookup(root, nodeName, propName)
  {
    hide FlattenMixed, Flatten, Entries, FirstMatch, Lookup, Sorted;
    FlattenSorted(root);
    SortedEntries(root, nodeName, propName);
    WalkAgreesIfEarly(ts, Sorted(root), nodeName, propName);
  }

  /** The order matters: where it is the only property, one behind a subnode is missed. */
  lemma PropertyAfterSubnodeMissed(name: Name, child: Mixed, prop: Property, ts: seq<Token>)
    requires EncodesMixed(ts, Mixed(name, [Sub(child), Own(prop)])) && Entries(child) == []
    ensures Walk(ts, false, name, prop.name) == None
    ensures DataOf(FirstMatch(Entries(Mixed(name, [Sub(child), Own(prop)])), name, prop.name)) == Some(prop.data)
  {
    var root := Mixed(name, [Sub(child), Own(prop)]);
    var late := Entry(name, prop, false);
    assert root.items[1..] == [Own(prop)] && root.items[1..][1..] == [];
    assert ItemEntries([Own(prop)], name, false) == [late] + ItemEntries([], name, false) == [late];
    assert ItemEntries(root.items, name, true) == EntriesOf(Sub(child), name, true) + [late] == [late];
    EarlyMatchOfOne(late, name, prop.name);
    WalkAgrees(ts, root, name, prop.name);
  }

  // ---- Bytes ----

  function BigEndian32(mem: seq<byte>, at: nat): u32
    requires at + 4 <= |mem|
  {
    ((mem[at] as int * 256 + mem[at + 1]) * 256 + mem[at + 2]) * 256 + mem[at + 3]
  }

  predicate CStringAt(mem: seq<byte>, at: nat, s: Name) {
    at + |s| < |mem| && mem[at..at + |s|] == s && mem[at + |s|] == 0
  }

  function Align4(n: nat): (r: nat)
    ensures n <= r < n + 4 && r % 4 == 0
  {
    (n + 3) / 4 * 4
  }

  function Tag(t: Token): u32 {
    match t
    case BeginNode(_) => FDT_BEGIN_NODE
    case Prop(_) => FDT_PROP
    case EndNode => FDT_END_NODE
    case Nop => FDT_NOP
    case End => FDT_END
  }

  /** Where the next token starts, relative to the structure block. */
  function NextToken(offset: nat, t: Token): (r: nat)
    ensures offset + 4 <= r
  {
    match t
    case BeginNode(name) => Align4(offset + 4 + |name| + 1)
    case Prop(prop) => Align4(offset + 12 + |prop.data|)
    case _ => offset + 4
  }

  /** The blob `mem` holds token `t` at `offset` of the structure block at `structure`;
      padding bytes are arbitrary. */
  predicate TokenAt(mem: seq<byte>, structure: nat, strings: nat, offset: nat, t: Token) {
    var at := structure + offset;
    && at + 4 <= |mem| && BigEndian32(mem, at) == Tag(t)
    && match t
       case BeginNode(name) => CStringAt(mem, at + 4, name)
       case Prop(prop) =>
         && at + 12 + |prop.data| <= |mem|
         && BigEndian32(mem, at + 4) == |prop.data|
         && mem[at + 12..at + 12 + |prop.data|] == prop.data
         && CStringAt(mem, strings + BigEndian32(mem, at + 8), prop.name)
       case _ => true
  }

  /** The bytes of a token, as sections 5.4.1 and 5.4.2 of the specification give them: the
      tag; a node's name and its NUL; a property's length, where its name stands in the
      strings block, and its data. */
  lemma TokenMeaning(mem: seq<byte>, structure: nat, strings: nat, offset: nat, t: Token)
    requires structure + offset <= |mem|
    ensures var b := mem[structure + offset..];
      TokenAt(mem, structure, strings, offset, t)
      <==> match t
           case BeginNode(name) => [0, 0, 0, 1] + name + [0] <= b
           case EndNode => [0, 0, 0, 2] <= b
           case Prop(prop) =>
             && [0, 0, 0, 3] <= b && |b| >= 12 && BigEndian32(b, 4) == |prop.data|
             && prop.data <= b[12..] && CStringAt(mem, strings + BigEndian32(b, 8), prop.name)
           case Nop => [0, 0, 0, 4] <= b
           case End => [0, 0, 0, 9] <= b
  {
    hide CStringAt, BigEndian32;
    var at, b := structure + offset, mem[structure + offset..];
    if |b| >= 4 {
      TagBytes(mem, at, Tag(t));
    }
    match t
    case BeginNode(name) =>
      TagAndName(mem, at, name);
    case Prop(prop) =>
      if |b| >= 12 {
        DataBytes(mem, at, prop.data);
      }
    case _ =>
  }

  lemma TagAndName(mem: seq<byte>, at: nat, name: Name)
    requires at <= |mem|
    ensures [0, 0, 0, 1] + name + [0] <= mem[at..] <==> [0, 0, 0, 1] <= mem[at..] && CStringAt(mem, at + 4, name)
  {
    var tag: seq<byte>, b := [0, 0, 0, 1], mem[at..];
    var s := tag + name + [0];
    if s <= b {
      assert b[..4] == s[..4] == tag;
      assert mem[at + 4..at + 4 + |name|] == b[..|s|][4..4 + |name|] == name;
      assert mem[at + 4 + |name|] == s[4 + |name|];
    }
    if tag <= b && CStringAt(mem, at + 4, name) {
      assert b[4..4 + |name|] == name;
      assert b[..|s|] == s;
    }
  }

  lemma DataBytes(mem: seq<byte>, at: nat, data: seq<byte>)
    requires at + 12 <= |mem|
    ensures BigEndian32(mem, at + 4) == BigEndian32(mem[at..], 4) && BigEndian32(mem, at + 8) == BigEndian32(mem[at..], 8)
    ensures data <= mem[at..][12..] <==> at + 12 + |data| <= |mem| && mem[at + 12..at + 12 + |data|] == data
  {
    if at + 12 + |data| <= |mem| {
      assert mem[at + 12..at + 12 + |data|] == mem[at..][12..][..|data|];
    }
  }

  /** The next token starts at the first multiple of four after this one. */
  lemma NextTokenMeaning(offset: nat, t: Token)
    requires offset % 4 == 0
    ensures var size := if t.BeginNode? then |t.name| + 5 else if t.Prop? then |t.prop.data| + 12 else 4;
      NextToken(offset, t) % 4 == 0 && offset + size <= NextToken(offset, t) < offset + size + 4
  {
  }

  lemma TagBytes(mem: seq<byte>, at: nat, tag: byte)
    requires at + 4 <= |mem|
    ensures BigEndian32(mem, at) == tag <==> [0, 0, 0, tag] <= mem[at..]
  {
    assert mem[at..][..4] == [mem[at], mem[at + 1], mem[at + 2], mem[at + 3]];
  }

  predicate TokensAt(mem: seq<byte>, structure: nat, strings: nat, offset: nat, ts: seq<Token>)
    decreases |ts|
  {
    ts != [] ==>
      && TokenAt(mem, structure, strings, offset, ts[0])
      && TokensAt(mem, structure, strings, NextToken(offset, ts[0]), ts[1..])
  }

  function EndOffset(offset: nat, ts: seq<Token>): (r: nat)
    ensures offset <= r
    decreases |ts|
  {
    if ts == [] then offset else EndOffset(NextToken(offset, ts[0]), ts[1..])
  }

  const TOTALSIZE: nat := 4
  const OFF_DT_STRUCT: nat := 8
  const OFF_DT_STRINGS: nat := 12
  const VERSION: nat := 20
  const LAST_COMP_VERSION: nat := 24
  const HEADER_SIZE: nat := 40

  /** The END token closes the stream and is nowhere else. */
  predicate EndsOnce(ts: seq<Token>) {
    ts != [] && ts[|ts| - 1] == End && forall i :: 0 <= i < |ts| - 1 ==> ts[i] != End
  }

  /** A well-formed blob: the header leads to a structure block holding `ts`, and
      everything lies within `totalsize`. */
  predicate Holds(mem: seq<byte>, ts: seq<Token>) {
    && HEADER_SIZE <= |mem| == BigEndian32(mem, TOTALSIZE)
    && EndsOnce(ts)
    && TokensAt(mem, BigEndian32(mem, OFF_DT_STRUCT), BigEndian32(mem, OFF_DT_STRINGS), 0, ts)
    && BigEndian32(mem, OFF_DT_STRUCT) + EndOffset(0, ts) <= |mem|
  }

  lemma {:induction false} EncodingEndsOnce(ts: seq<Token>, root: Node)
    requires Encodes(ts, root) && ts != [] && ts[|ts| - 1] == End
    ensures EndsOnce(ts)
  {
    FlattenHasNoEnd(root);
    OnlyLastIsEnd(ts, Flatten(root));
  }

  predicate NoEnd(ts: seq<Token>) {
    forall i :: 0 <= i < |ts| ==> ts[i] != End
  }

  lemma {:induction false} FlattenHasNoEnd(node: Node)
    ensures NoEnd(Flatten(node))
    decreases node, 1
  {
    PropTokensHaveNoEnd(node.props);
    FlattenAllHasNoEnd(node.children);
  }

  lemma {:induction false} FlattenAllHasNoEnd(nodes: seq<Node>)
    ensures NoEnd(FlattenAll(nodes))
    decreases nodes, 0
  {
    if nodes != [] {
      FlattenHasNoEnd(nodes[0]);
      FlattenAllHasNoEnd(nodes[1..]);
    }
  }

  lemma {:induction false} PropTokensHaveNoEnd(props: seq<Property>)
    ensures NoEnd(PropTokens(props))
  {
    if props != [] {
      PropTokensHaveNoEnd(props[1..]);
    }
  }

  lemma {:induction false} OnlyLastIsEnd(ts: seq<Token>, body: seq<Token>)
    requires ts != [] && NoEnd(body) && WithoutNops(ts) == body + [End] && ts[|ts| - 1] == End
    ensures NoEnd(ts[..|ts| - 1])
    decreases |ts|
  {
    if ts[0].Nop? {
      OnlyLastIsEnd(ts[1..], body);
      assert ts[..|ts| - 1] == [ts[0]] + ts[1..][..|ts| - 2];
    } else if body == [] {
      assert ([ts[0]] + WithoutNops(ts[1..]))[1..] == (body + [End])[1..] == [];
      AllNops(ts[1..]);
    } else {
      assert ts[0] == (body + [End])[0] == body[0];
      assert ([ts[0]] + WithoutNops(ts[1..]))[1..] == (body + [End])[1..] == body[1..] + [End];
      OnlyLastIsEnd(ts[1..], body[1..]);
      assert ts[..|ts| - 1] == [ts[0]] + ts[1..][..|ts| - 2];
    }
  }

  lemma {:induction false} AllNops(ts: seq<Token>)
    requires WithoutNops(ts) == []
    ensures ts == [] || ts[|ts| - 1] == Nop
    decreases |ts|
  {
    if |ts| > 1 {
      AllNops(ts[1..]);
    }
  }
}
