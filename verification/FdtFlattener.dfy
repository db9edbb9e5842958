/** A flattener: the bytes of a token stream, with header and strings block. It shows
    that every tree has a blob, so that the reader's contract is about something. */
module FdtFlattener {
  import opened Bits
  import opened FdtFormat

  function Put32(x: u32): (s: seq<byte>)
    ensures |s| == 4 && BigEndian32(s, 0) == x
  {
    var high, low := x / 0x1_0000, x % 0x1_0000;
    [high / 0x100, high % 0x100, low / 0x100, low % 0x100]
  }

  function Zeros(n: nat): (s: seq<byte>)
    ensures |s| == n
  {
    seq(n, _ => 0)
  }

  /** The strings block: the property names in order, each terminated. */
  function Strings(ts: seq<Token>): seq<byte> {
    if ts == [] then []
    else if ts[0].Prop? then ts[0].prop.name + [0] + Strings(ts[1..])
    else Strings(ts[1..])
  }

  function StringsUsed(t: Token): nat {
    if t.Prop? then |t.prop.name| + 1 else 0
  }

  function EmitToken(t: Token, nameoff: u32): (s: seq<byte>)
    requires t.Prop? ==> |t.prop.data| < TWO_32
    ensures |s| == NextToken(0, t)
  {
    Put32(Tag(t)) +
    match t
    case BeginNode(name) => name + [0] + Zeros(Align4(|name| + 5) - (|name| + 5))
    case Prop(prop) =>
      Put32(|prop.data|) + Put32(nameoff) + prop.data + Zeros(Align4(12 + |prop.data|) - (12 + |prop.data|))
    case _ => []
  }

  /** Offsets and lengths fit the 32-bit fields that carry them. */
  predicate Fits(ts: seq<Token>, nameoff: nat) {
    ts != [] ==>
      && nameoff < TWO_32
      && (ts[0].Prop? ==> |ts[0].prop.data| < TWO_32)
      && Fits(ts[1..], nameoff + StringsUsed(ts[0]))
  }

  function Emit(ts: seq<Token>, nameoff: nat): seq<byte>
    requires Fits(ts, nameoff)
  {
    if ts == [] then []
    else EmitToken(ts[0], nameoff) + Emit(ts[1..], nameoff + StringsUsed(ts[0]))
  }

  /** Header, structure block, strings block; no memory reservations are read. */
  function Blob(ts: seq<Token>): seq<byte>
    requires Fits(ts, 0) && HEADER_SIZE + |Emit(ts, 0)| + |Strings(ts)| < TWO_32
  {
    var structure := Emit(ts, 0);
    Put32(0xd00d_feed) + Put32(HEADER_SIZE + |structure| + |Strings(ts)|) +
    Put32(HEADER_SIZE) + Put32(HEADER_SIZE + |structure|) + Put32(HEADER_SIZE) +
    Put32(0x11) + Put32(0x10) + Put32(0) + Put32(|Strings(ts)|) + Put32(|structure|) +
    structure + Strings(ts)
  }

  lemma NextTokenShifts(offset: nat, t: Token)
    requires offset % 4 == 0
    ensures NextToken(offset, t) == offset + NextToken(0, t) && NextToken(offset, t) % 4 == 0
  {
    match t
    case BeginNode(name) => AlignShifts(offset, |name| + 5);
    case Prop(prop) => AlignShifts(offset, 12 + |prop.data|);
    case _ =>
  }

  lemma AlignShifts(offset: nat, n: nat)
    requires offset % 4 == 0
    ensures Align4(offset + n) == offset + Align4(n) && Align4(offset + n) % 4 == 0
  {
  }

  lemma BigEndianOfSlice(mem: seq<byte>, at: nat, s: seq<byte>, k: nat)
    requires at + |s| <= |mem| && mem[at..at + |s|] == s && k + 4 <= |s|
    ensures BigEndian32(mem, at + k) == BigEndian32(s, k)
  {
    assert forall i :: 0 <= i < |s| ==> mem[at + i] == mem[at..at + |s|][i] == s[i];
  }

  lemma Put32Within(a: seq<byte>, x: u32, b: seq<byte>)
    ensures BigEndian32(a + Put32(x) + b, |a|) == x
  {
    var s := a + Put32(x) + b;
    assert s[|a|..|a| + 4] == Put32(x);
    BigEndianOfSlice(s, |a|, Put32(x), 0);
  }

  lemma EmittedToken(mem: seq<byte>, structure: nat, strings: nat, offset: nat, t: Token, nameoff: u32)
    requires t.Prop? ==> |t.prop.data| < TWO_32
    requires structure + offset + |EmitToken(t, nameoff)| <= |mem|
    requires mem[structure + offset..structure + offset + |EmitToken(t, nameoff)|] == EmitToken(t, nameoff)
    requires t.Prop? ==> CStringAt(mem, strings + nameoff, t.prop.name)
    ensures TokenAt(mem, structure, strings, offset, t)
  {
    hide BigEndian32, EmitToken;
    var at, s := structure + offset, EmitToken(t, nameoff);
    EmittedParts(t, nameoff);
    BigEndianOfSlice(mem, at, s, 0);
    match t
    case BeginNode(name) =>
      SliceOfSlice(mem, at, s, 4, 4 + |name|);
      SliceOfSlice(mem, at, s, 4 + |name|, 5 + |name|);
    case Prop(prop) =>
      BigEndianOfSlice(mem, at, s, 4);
      BigEndianOfSlice(mem, at, s, 8);
      SliceOfSlice(mem, at, s, 12, 12 + |prop.data|);
    case _ =>
  }

  /** What a written token's bytes spell. */
  lemma EmittedParts(t: Token, nameoff: u32)
    requires t.Prop? ==> |t.prop.data| < TWO_32
    ensures var s := EmitToken(t, nameoff);
      && BigEndian32(s, 0) == Tag(t)
      && (t.BeginNode? ==> |s| >= 5 + |t.name| && s[4..4 + |t.name|] == t.name && s[4 + |t.name|..5 + |t.name|] == [0])
      && (t.Prop? ==>
            && |s| >= 12 + |t.prop.data|
            && BigEndian32(s, 4) == |t.prop.data| && BigEndian32(s, 8) == nameoff
            && s[12..12 + |t.prop.data|] == t.prop.data)
  {
    hide BigEndian32, Put32;
    var s := EmitToken(t, nameoff);
    PartAt([], Tag(t), s[4..], s);
    if t.Prop? {
      PartAt(s[..4], |t.prop.data|, s[8..], s);
      PartAt(s[..8], nameoff, s[12..], s);
    }
  }

  lemma PartAt(a: seq<byte>, x: u32, b: seq<byte>, s: seq<byte>)
    requires s == a + Put32(x) + b
    ensures BigEndian32(s, |a|) == x
  {
    Put32Within(a, x, b);
  }

  lemma SliceOfSlice(mem: seq<byte>, at: nat, s: seq<byte>, from: nat, to: nat)
    requires at + |s| <= |mem| && mem[at..at + |s|] == s && from <= to <= |s|
    ensures mem[at + from..at + to] == s[from..to]
  {
    forall i | 0 <= i < to - from
      ensures mem[at + from..at + to][i] == s[from..to][i]
    {
      assert mem[at + (from + i)] == mem[at..at + |s|][from + i];
    }
  }

  lemma LeadingName(mem: seq<byte>, at: nat, name: Name, rest: seq<byte>)
    requires at <= |mem| && mem[at..] == name + [0] + rest
    ensures CStringAt(mem, at, name)
  {
    var s := name + [0] + rest;
    SliceOfSlice(mem, at, s, 0, |name|);
    assert s[0..|name|] == name;
    assert mem[at + |name|] == mem[at..][|name|] == 0;
  }

  lemma SplitSlice(mem: seq<byte>, at: nat, s: seq<byte>, rest: seq<byte>)
    requires at + |s + rest| <= |mem| && mem[at..at + |s + rest|] == s + rest
    ensures mem[at..at + |s|] == s && mem[at + |s|..at + |s| + |rest|] == rest
  {
    SliceOfSlice(mem, at, s + rest, 0, |s|);
    assert (s + rest)[0..|s|] == s;
    SliceOfSlice(mem, at, s + rest, |s|, |s + rest|);
    assert (s + rest)[|s|..|s + rest|] == rest;
  }

  /** The strings block starts with the first property's name and goes on with the rest's. */
  lemma StringsStep(mem: seq<byte>, at: nat, ts: seq<Token>)
    requires ts != [] && at <= |mem| && mem[at..] == Strings(ts)
    ensures at + StringsUsed(ts[0]) <= |mem| && mem[at + StringsUsed(ts[0])..] == Strings(ts[1..])
    ensures ts[0].Prop? ==> CStringAt(mem, at, ts[0].prop.name)
  {
    var used := StringsUsed(ts[0]);
    assert Strings(ts)[used..] == Strings(ts[1..]);
    assert mem[at..][used..] == mem[at + used..];
    if ts[0].Prop? {
      LeadingName(mem, at, ts[0].prop.name, Strings(ts[1..]));
    }
  }

  lemma {:induction false} EmittedTokens(mem: seq<byte>, structure: nat, strings: nat, offset: nat, ts: seq<Token>, nameoff: nat)
    requires Fits(ts, nameoff) && offset % 4 == 0
    requires structure + offset + |Emit(ts, nameoff)| <= |mem| == strings + nameoff + |Strings(ts)|
    requires mem[structure + offset..structure + offset + |Emit(ts, nameoff)|] == Emit(ts, nameoff)
    requires mem[strings + nameoff..] == Strings(ts)
    ensures TokensAt(mem, structure, strings, offset, ts)
    ensures EndOffset(offset, ts) == offset + |Emit(ts, nameoff)|
    decreases |ts|
  {
    hide TokenAt, EmitToken, NextToken, Tag, BigEndian32, CStringAt, StringsUsed;
    if ts != [] {
      var t, s, all := ts[0], EmitToken(ts[0], nameoff), Emit(ts, nameoff);
      var used := StringsUsed(t);
      var rest := Emit(ts[1..], nameoff + used);
      NextTokenShifts(offset, t);
      SplitSlice(mem, structure + offset, s, rest);
      StringsStep(mem, strings + nameoff, ts);
      EmittedToken(mem, structure, strings, offset, t, nameoff);
      EmittedTokens(mem, structure, strings, NextToken(offset, t), ts[1..], nameoff + used);
    }
  }

  lemma {:induction false} NothingToDrop(ts: seq<Token>)
    requires Nop !in ts
    ensures WithoutNops(ts) == ts
  {
    if ts != [] {
      assert Nop !in ts[1..];
      NothingToDrop(ts[1..]);
      assert ts == [ts[0]] + ts[1..];
    }
  }

  lemma {:induction false} FlattenHasNoNop(node: Node)
    ensures Nop !in Flatten(node)
    decreases node, 1
  {
    PropTokensHaveNoNop(node.props);
    FlattenAllHasNoNop(node.children);
  }

  lemma {:induction false} FlattenAllHasNoNop(nodes: seq<Node>)
    ensures Nop !in FlattenAll(nodes)
    decreases nodes, 0
  {
    if nodes != [] {
      FlattenHasNoNop(nodes[0]);
      FlattenAllHasNoNop(nodes[1..]);
    }
  }

  lemma {:induction false} PropTokensHaveNoNop(props: seq<Property>)
    ensures Nop !in PropTokens(props)
  {
    if props != [] {
      PropTokensHaveNoNop(props[1..]);
    }
  }

  /** Every tree whose sizes fit has a blob that the reader's contract speaks of. */
  lemma TreeHasBlob(root: Node)
    requires var ts := Flatten(root) + [End];
      Fits(ts, 0) && HEADER_SIZE + |Emit(ts, 0)| + |Strings(ts)| < TWO_32
    ensures var ts := Flatten(root) + [End]; Encodes(ts, root) && Holds(Blob(ts), ts)
  {
    hide Flatten, Emit, Strings, Blob, Holds;
    var ts := Flatten(root) + [End];
    FlattenHasNoNop(root);
    NothingToDrop(ts);
    EncodingEndsOnce(ts, root);
    BlobHolds(ts);
  }

  /** The flattener's blob holds the token stream it was made from. */
  lemma BlobHolds(ts: seq<Token>)
    requires Fits(ts, 0) && HEADER_SIZE + |Emit(ts, 0)| + |Strings(ts)| < TWO_32 && EndsOnce(ts)
    ensures Holds(Blob(ts), ts)
  {
    hide Put32, Emit, Strings, BigEndian32, TokensAt, EndOffset;
    var mem, structure, strings := Blob(ts), Emit(ts, 0), Strings(ts);
    var magic, body := Put32(0xd00d_feed), structure + strings;
    var total, off, offStrings := HEADER_SIZE + |structure| + |strings|, HEADER_SIZE, HEADER_SIZE + |structure|;
    var tail := Put32(HEADER_SIZE) + Put32(0x11) + Put32(0x10) + Put32(0) + Put32(|strings|) + Put32(|structure|) + body;
    assert mem == magic + Put32(total) + (Put32(off) + Put32(offStrings) + tail);
    Put32Within(magic, total, Put32(off) + Put32(offStrings) + tail);
    assert mem == (magic + Put32(total)) + Put32(off) + (Put32(offStrings) + tail);
    Put32Within(magic + Put32(total), off, Put32(offStrings) + tail);
    assert mem == (magic + Put32(total) + Put32(off)) + Put32(offStrings) + tail;
    Put32Within(magic + Put32(total) + Put32(off), offStrings, tail);
    assert mem[HEADER_SIZE..HEADER_SIZE + |structure|] == structure;
    assert mem[HEADER_SIZE + |structure|..] == strings;
    EmittedTokens(mem, HEADER_SIZE, HEADER_SIZE + |structure|, 0, ts, 0);
  }
}
