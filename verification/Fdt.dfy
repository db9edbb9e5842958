/** The flattened-tree reader: byte access, C strings, the header check and the walker. */
module Fdt {
  import opened Wrappers
  import opened Bits
  import opened FdtFormat

  const FDT_MAGIC: u32 := 0xd00d_feed
  const FDT_FIRST_SUPPORTED_VERSION: u32 := 0x10
  const FDT_LAST_SUPPORTED_VERSION: u32 := 0x11

  /** What a little-endian processor loads from four bytes. */
  function LittleEndian32(b0: byte, b1: byte, b2: byte, b3: byte): u32 {
    b0 as int + b1 as int * 0x100 + b2 as int * 0x1_0000 + b3 as int * 0x100_0000
  }

  /** `high` followed by `n` bytes of `d`, its lowest byte first. */
  function TakeBytes(d: nat, high: nat, n: nat): nat
    decreases n
  {
    if n == 0 then high else TakeBytes(d / 0x100, high * 0x100 + d % 0x100, n - 1)
  }

  /** The word with its bytes in the opposite order. */
  function Swap32(d: u32): nat {
    TakeBytes(d, 0, 4)
  }

  /** The two steps of one round: `res |= d & 0xFF` and `res <<= 8`. */
  lemma TakeByte(res: nat, d: u32)
    requires res < 0x100_0000
    ensures BitAnd(d, 0xFF) == d % 0x100
    ensures BitOr(res * 0x100, BitAnd(d, 0xFF)) == res * 0x100 + d % 0x100
    ensures Shl32(res, 8) == res * 0x100
    ensures Shr(d, 8) == d / 0x100
  {
    assert Pow2(8) == 0x100;
    AndMaskIsMod(d, 8);
    OrLow(res, 8, d % 0x100);
    ShrIsDiv(d, 8);
  }

  method Ntohl(d0: u32) returns (res: u32)
    ensures res == Swap32(d0)
  {
    hide BitAnd, BitOr, Shl32, Shr, TakeBytes;
    res := 0;
    var d: u32, a, high: nat := d0, 0, 0;
    while a < 3
      invariant 0 <= a <= 3 && res == high * 0x100
      invariant high < if a == 0 then 1 else if a == 1 then 0x100 else if a == 2 then 0x1_0000 else 0x100_0000
      invariant TakeBytes(d, high, 4 - a) == Swap32(d0)
    {
      TakeStep(d, high, 4 - a);
      TakeByte(high, d);
      res := BitOr(res, BitAnd(d, 0xFF));
      high := res;
      TakeByte(res, d);
      res, d := Shl32(res, 8), Shr(d, 8);
      a := a + 1;
    }
    TakeStep(d, high, 1);
    NothingMore(d / 0x100, high * 0x100 + d % 0x100);
    TakeByte(high, d);
    res := BitOr(res, BitAnd(d, 0xFF));
  }

  lemma TakeStep(d: nat, high: nat, n: nat)
    requires n > 0
    ensures TakeBytes(d, high, n) == TakeBytes(d / 0x100, high * 0x100 + d % 0x100, n - 1)
  {
  }

  /** `ntohl` undoes big-endian writing: loading the four bytes of a number and swapping
      them gives the number back. */
  lemma SwapOfLoad(b0: byte, b1: byte, b2: byte, b3: byte)
    ensures Swap32(LittleEndian32(b0, b1, b2, b3)) == BigEndian32([b0, b1, b2, b3], 0)
  {
    hide TakeBytes;
    TakeLowByte(b0, b1 as int + b2 as int * 0x100 + b3 as int * 0x1_0000, 0, 4);
    TakeLowByte(b1, b2 as int + b3 as int * 0x100, b0, 3);
    TakeLowByte(b2, b3, b0 as int * 0x100 + b1, 2);
    TakeLowByte(b3, 0, (b0 as int * 0x100 + b1) * 0x100 + b2, 1);
    NothingMore(0, ((b0 as int * 0x100 + b1) * 0x100 + b2) * 0x100 + b3);
  }

  lemma TakeLowByte(low: byte, rest: nat, high: nat, n: nat)
    requires n > 0
    ensures TakeBytes(rest * 0x100 + low, high, n) == TakeBytes(rest, high * 0x100 + low, n - 1)
  {
  }

  lemma NothingMore(d: nat, high: nat)
    ensures TakeBytes(d, high, 0) == high
  {
  }

  /** `ntohl(*(u32*)(data + at))` */
  method Load(data: seq<byte>, at: nat) returns (word: u32)
    requires at + 4 <= |data|
    ensures word == BigEndian32(data, at)
  {
    SwapOfLoad(data[at], data[at + 1], data[at + 2], data[at + 3]);
    word := Ntohl(LittleEndian32(data[at], data[at + 1], data[at + 2], data[at + 3]));
  }

  lemma CStringChar(s: seq<byte>, p: nat, a: Name, k: nat)
    requires CStringAt(s, p, a) && k <= |a|
    ensures s[p + k] == if k < |a| then a[k] else 0
    ensures k < |a| ==> a[k] != 0
  {
    if k < |a| {
      assert s[p + k] == s[p..p + |a|][k] && a[k] in a;
    }
  }

  method FdtStreq(s1: seq<byte>, p1: nat, s2: seq<byte>, p2: nat, ghost a: Name, ghost b: Name) returns (equal: bool)
    requires CStringAt(s1, p1, a) && CStringAt(s2, p2, b)
    ensures equal <==> a == b
  {
    var k := 0;
    CStringChar(s1, p1, a, 0);
    CStringChar(s2, p2, b, 0);
    while s1[p1 + k] != 0 && s2[p2 + k] != 0
      invariant k <= |a| && k <= |b| && a[..k] == b[..k]
      invariant s1[p1 + k] == (if k < |a| then a[k] else 0) && s2[p2 + k] == if k < |b| then b[k] else 0
      decreases |a| - k
    {
      if s1[p1 + k] != s2[p2 + k] {
        return false;
      }
      k := k + 1;
      CStringChar(s1, p1, a, k);
      CStringChar(s2, p2, b, k);
    }
    CStringChar(s1, p1, a, k);
    CStringChar(s2, p2, b, k);
    assert a[..|a|] == a && b[..|b|] == b;
    return s1[p1 + k] == 0 && s2[p2 + k] == 0;
  }

  method FdtStrlen(s: seq<byte>, p: nat, ghost a: Name) returns (len: nat)
    requires CStringAt(s, p, a)
    ensures len == |a|
  {
    len := 0;
    while s[p + len] != 0
      invariant len <= |a|
      decreases |a| - len
    {
      CStringChar(s, p, a, len);
      len := len + 1;
    }
    CStringChar(s, p, a, len);
  }

  /** The six demands on a header. */
  predicate HeaderTest(data: seq<byte>, dataSize: u32, test: int)
    requires |data| >= HEADER_SIZE
  {
    match test
    case 1 => BigEndian32(data, 0) == FDT_MAGIC
    case 2 => BigEndian32(data, TOTALSIZE) <= dataSize
    case 3 => BigEndian32(data, VERSION) >= FDT_FIRST_SUPPORTED_VERSION
    case 4 => BigEndian32(data, LAST_COMP_VERSION) <= FDT_LAST_SUPPORTED_VERSION
    case 5 => 0 < BigEndian32(data, OFF_DT_STRUCT) < BigEndian32(data, TOTALSIZE)
    case 6 => 0 < BigEndian32(data, OFF_DT_STRINGS) < BigEndian32(data, TOTALSIZE)
    case _ => true
  }

  /** What the demands say, in their order and by the numbers of the header's 32-bit words. */
  lemma HeaderMeaning(data: seq<byte>, dataSize: u32)
    requires |data| >= 40
    ensures HeaderTest(data, dataSize, 1) <==> [0xd0, 0x0d, 0xfe, 0xed] <= data
    ensures HeaderTest(data, dataSize, 2) <==> BigEndian32(data, 4 * 1) <= dataSize
    ensures HeaderTest(data, dataSize, 3) <==> BigEndian32(data, 4 * 5) >= 16
    ensures HeaderTest(data, dataSize, 4) <==> BigEndian32(data, 4 * 6) <= 17
    ensures HeaderTest(data, dataSize, 5) <==> 0 < BigEndian32(data, 4 * 2) < BigEndian32(data, 4 * 1)
    ensures HeaderTest(data, dataSize, 6) <==> 0 < BigEndian32(data, 4 * 3) < BigEndian32(data, 4 * 1)
  {
    assert data[..4] == [data[0], data[1], data[2], data[3]];
  }

  /** 0 where all six demands are met, else the negated number of the first that is not. */
  method FdtCheckHeader(data: seq<byte>, dataSize: u32) returns (code: int)
    requires |data| >= HEADER_SIZE
    ensures -6 <= code <= 0
    ensures code == 0 ==> forall test :: 1 <= test <= 6 ==> HeaderTest(data, dataSize, test)
    ensures code < 0 ==> !HeaderTest(data, dataSize, -code)
    ensures code < 0 ==> forall test :: 1 <= test < -code ==> HeaderTest(data, dataSize, test)
  {
    var magic := Load(data, 0);
    var totalsize := Load(data, TOTALSIZE);
    var version := Load(data, VERSION);
    var offDtStruct := Load(data, OFF_DT_STRUCT);
    var offDtStrings := Load(data, OFF_DT_STRINGS);
    var lastCompVersion := Load(data, LAST_COMP_VERSION);
    if magic != FDT_MAGIC {
      return -1;
    }
    if dataSize < totalsize {
      return -2;
    }
    if version < FDT_FIRST_SUPPORTED_VERSION {
      return -3;
    }
    if lastCompVersion > FDT_LAST_SUPPORTED_VERSION {
      return -4;
    }
    if offDtStruct == 0 || offDtStruct >= totalsize {
      return -5;
    }
    if offDtStrings == 0 || offDtStrings >= totalsize {
      return -6;
    }
    return 0;
  }

  /** FDT_TAGALIGN: `(x + 3) & ~3` on a 32-bit word. */
  function TagAlign(x: u32): nat {
    BitAnd((x + 3) % 0x1_0000_0000, 0xFFFF_FFFC)
  }

  lemma TagAlignIsAlign4(x: u32)
    requires x + 3 < 0x1_0000_0000
    ensures TagAlign(x) == Align4(x)
  {
    hide BitAnd;
    var y := (x + 3) / 4;
    AndOfQuadruples(x + 3, 0x3FFF_FFFF);
    ThirtyOnes(y);
  }

  lemma ThirtyOnes(y: nat)
    requires y < 0x4000_0000
    ensures BitAnd(y, 0x3FFF_FFFF) == y
  {
    hide BitAnd, Pow2;
    SmallPowers();
    Pow2Add(8, 8);
    Pow2Add(16, 8);
    Pow2Add(24, 6);
    AndMaskIsMod(y, 30);
  }

  lemma AndOfDoubles(a: nat, b: nat)
    ensures BitAnd(a, 2 * b) == 2 * BitAnd(a / 2, b)
  {
  }

  lemma AndOfQuadruples(a: nat, b: nat)
    ensures BitAnd(a, 4 * b) == 4 * BitAnd(a / 4, b)
  {
    hide BitAnd;
    var half, twice := a / 2, 2 * b;
    AndOfDoubles(a, twice);
    AndOfDoubles(half, b);
    assert half / 2 == a / 4 && 2 * twice == 4 * b;
  }

  lemma BlockNonEmpty(ts: seq<Token>)
    requires EndsOnce(ts)
    ensures ts != []
  {
  }

  /** Reading one token of a block leaves a block one token shorter. */
  lemma BlockStep(mem: seq<byte>, structure: nat, strings: nat, offset: nat, ts: seq<Token>)
    requires EndsOnce(ts) && TokensAt(mem, structure, strings, offset, ts)
    ensures TokenAt(mem, structure, strings, offset, ts[0])
    ensures NextToken(offset, ts[0]) <= EndOffset(offset, ts)
    ensures ts[0] != End ==> |ts| > 1 && EndsOnce(ts[1..])
    ensures ts[0] != End ==> TokensAt(mem, structure, strings, NextToken(offset, ts[0]), ts[1..])
    ensures ts[0] != End
        ==> NextToken(offset, ts[0]) + 4 <= EndOffset(NextToken(offset, ts[0]), ts[1..]) == EndOffset(offset, ts)
  {
    if ts[0] != End {
      assert |ts| > 1;
      assert ts[1..][|ts| - 2] == End;
    }
  }

  /** Lines 113 to 121: the range tests, which a well-formed blob passes, and whether the
      property at `fdtProp` has the wanted name. */
  method IsWantedProp(data: seq<byte>, fdtProp: nat, strings: nat, totalsize: nat, propName: seq<byte>,
                      ghost pn: Name, ghost prop: Property)
    returns (inRange: bool, same: bool)
    requires fdtProp + 16 + |prop.data| <= |data| == totalsize && CStringAt(propName, 0, pn)
    requires CStringAt(data, strings + BigEndian32(data, fdtProp + 8), prop.name)
    ensures inRange && (same <==> prop.name == pn)
  {
    if fdtProp + 12 >= totalsize {
      return false, false;
    }
    var nameoff := Load(data, fdtProp + 8);
    if strings + nameoff >= totalsize {
      return false, false;
    }
    inRange := true;
    same := FdtStreq(propName, 0, data, strings + nameoff, pn, prop.name);
  }

  lemma WalkStep(ts: seq<Token>, found: bool, nn: Name, pn: Name)
    requires ts != []
    ensures ts[0].BeginNode? ==> Walk(ts, found, nn, pn) == Walk(ts[1..], ts[0].name == nn, nn, pn)
    ensures ts[0].Prop? ==> (Walk(ts, found, nn, pn)
      == if found && ts[0].prop.name == pn then Some(ts[0].prop.data) else Walk(ts[1..], found, nn, pn))
    ensures ts[0].EndNode? ==> Walk(ts, found, nn, pn) == Walk(ts[1..], false, nn, pn)
    ensures ts[0].Nop? ==> Walk(ts, found, nn, pn) == Walk(ts[1..], found, nn, pn)
    ensures ts[0].End? ==> Walk(ts, found, nn, pn) == None
  {
  }

  /** Where the token ends, before alignment. */
  function TokenEnd(offset: nat, t: Token): nat {
    match t
    case BeginNode(name) => offset + 4 + |name| + 1
    case Prop(prop) => offset + 12 + |prop.data|
    case _ => offset + 4
  }

  /** Aligning the end of a token gives the start of the next, with no wrap-around. */
  lemma AlignToNext(offset: nat, t: Token)
    requires offset % 4 == 0 && NextToken(offset, t) < TWO_32
    ensures TokenEnd(offset, t) + 3 < TWO_32 && TagAlign(TokenEnd(offset, t)) == NextToken(offset, t)
    ensures NextToken(offset, t) % 4 == 0 && TokenEnd(offset, t) <= NextToken(offset, t)
  {
    hide TagAlign;
    TagAlignIsAlign4(if NextToken(offset, t) == Align4(TokenEnd(offset, t)) then TokenEnd(offset, t) else 0);
  }

  /** A data offset and length, or nothing and length 0, for the property `found`. */
  predicate Located(data: seq<byte>, prop: Option<nat>, len: u32, found: Option<seq<byte>>) {
    match found
    case None => prop.None? && len == 0
    case Some(value) =>
      prop.Some? && len == |value| && prop.value + len <= |data| && data[prop.value..prop.value + len] == value
  }

  /** What one round of the loop comes to. */
  datatype Round = Stop | Found(at: nat, len: u32) | Next(offset: nat, isNodeFound: bool)

  /** What the round must come to on token `t`, by the walk's state machine. */
  predicate FollowsToken(r: Round, data: seq<byte>, next: nat, t: Token, isNodeFound: bool, nn: Name, pn: Name) {
    match t
    case BeginNode(name) => r == Next(next, name == nn)
    case Prop(prop) =>
      if isNodeFound && prop.name == pn then
        r.Found? && r.len == |prop.data| && r.at + r.len <= |data| && data[r.at..r.at + r.len] == prop.data
      else r == Next(next, isNodeFound)
    case EndNode => r == Next(next, false)
    case Nop => r == Next(next, isNodeFound)
    case End => r == Stop
  }

  /** Lines 91 to 138: one token. */
  method ReadToken(data: seq<byte>, structure: nat, strings: nat, totalsize: u32, offset0: nat, isNodeFound0: bool,
                   nodeName: seq<byte>, propName: seq<byte>, ghost t: Token, ghost nn: Name, ghost pn: Name)
    returns (r: Round)
    requires |data| == totalsize && offset0 % 4 == 0 && TokenAt(data, structure, strings, offset0, t)
    requires structure + NextToken(offset0, t) <= totalsize
    requires t != End ==> structure + NextToken(offset0, t) + FDT_TAGSIZE <= totalsize
    requires CStringAt(nodeName, 0, nn) && CStringAt(propName, 0, pn)
    ensures FollowsToken(r, data, NextToken(offset0, t), t, isNodeFound0, nn, pn)
  {
    hide NextToken, TagAlign, BigEndian32;
    AlignToNext(offset0, t);
    var offset, isNodeFound := offset0, isNodeFound0;
    var tagp := structure + offset;
    var tag := Load(data, tagp);
    if tagp + FDT_TAGSIZE >= totalsize {
      return Stop;
    }
    offset := offset + FDT_TAGSIZE;
    if tag == FDT_END {
      return Stop;
    }
    if tag == FDT_BEGIN_NODE {
      isNodeFound := FdtStreq(nodeName, 0, data, structure + offset, nn, t.name);
      var nameLen := FdtStrlen(data, structure + offset, t.name);
      offset := offset + nameLen + 1;
    } else if tag == FDT_PROP {
      if isNodeFound {
        var fdtProp := structure + offset - FDT_TAGSIZE;
        var inRange, same := IsWantedProp(data, fdtProp, strings, totalsize, propName, pn, t.prop);
        if !inRange {
          return Stop;
        }
        if same {
          var len := Load(data, structure + offset);
          return Found(fdtProp + 12, len);
        }
      }
      var propLen := Load(data, structure + offset);
      offset := offset + 12 - FDT_TAGSIZE + propLen;
    } else if tag == FDT_END_NODE {
      isNodeFound := false;
    } else if tag != FDT_NOP {
      return Stop;
    }
    return Next(TagAlign(offset), isNodeFound);
  }

  /** Locates what walking the token stream finds, for every token stream that the blob
      holds; so (`WalkIsLookup`) what looking it up in the tree finds, if properties come
      before subnodes, and else what `WalkAgrees` says. `nodeName` and `propName` are C
      strings. */
  method FdtGetProp(data: seq<byte>, nodeName: seq<byte>, propName: seq<byte>,
                    ghost ts: seq<Token>, ghost nn: Name, ghost pn: Name)
    returns (prop: Option<nat>, len: u32)
    requires Holds(data, ts)
    requires CStringAt(nodeName, 0, nn) && CStringAt(propName, 0, pn)
    ensures Located(data, prop, len, Walk(ts, false, nn, pn))
    ensures forall root :: Encodes(ts, root) ==> Located(data, prop, len, Lookup(root, nn, pn))
  {
    hide Lookup, Walk, Encodes, EndsOnce, TokensAt, TokenAt, EndOffset, BigEndian32, NextToken;
    forall root | Encodes(ts, root)
      ensures Walk(ts, false, nn, pn) == Lookup(root, nn, pn)
    {
      WalkIsLookup(ts, root, nn, pn);
    }
    BlockNonEmpty(ts);
    var structure := Load(data, OFF_DT_STRUCT);
    var strings := Load(data, OFF_DT_STRINGS);
    var totalsize := Load(data, TOTALSIZE);
    var offset, isNodeFound := 0, false;
    ghost var rest := ts;
    while true
      invariant rest != [] && offset % 4 == 0
      invariant EndsOnce(rest) && TokensAt(data, structure, strings, offset, rest)
      invariant structure + EndOffset(offset, rest) <= totalsize == |data|
      invariant Walk(rest, isNodeFound, nn, pn) == Walk(ts, false, nn, pn)
      decreases |rest|
    {
      ghost var t := rest[0];
      BlockStep(data, structure, strings, offset, rest);
      WalkStep(rest, isNodeFound, nn, pn);
      AlignToNext(offset, t);
      var r := ReadToken(data, structure, strings, totalsize, offset, isNodeFound, nodeName, propName, t, nn, pn);
      match r {
        case Stop => return None, 0;
        case Found(at, length) => return Some(at), length;
        case Next(next, found) =>
          offset, isNodeFound := next, found;
          rest := rest[1..];
      }
    }
  }
}
