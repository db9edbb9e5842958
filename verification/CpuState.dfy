/** The processor as the cache code sees it, and every run of enabling caches, writing,
    reading and cleaning up: when no write is lost, and when one is. */
module CpuState {
  import opened Bits
  import opened CacheHardware
  import opened CacheMaintenance

  const CR_M: u32 := 0x1
  const CR_C: u32 := 0x4
  const CR_I: u32 := 0x1000
  const M_BIT: nat := 0
  const C_BIT: nat := 2
  const I_BIT: nat := 12
  const CACHE_SETUP: u32 := 0x1e
  const UNCACHED_SETUP: u32 := 0x12

  // ---- Bits of the control register ----

  predicate IsSet(x: nat, k: nat) {
    Shr(x, k) % 2 == 1
  }

  function Not32(x: u32): u32 {
    0xFFFF_FFFF - x
  }

  lemma {:induction false} BitOfOr(a: nat, b: nat, k: nat)
    ensures IsSet(BitOr(a, b), k) <==> IsSet(a, k) || IsSet(b, k)
  {
    if k > 0 {
      ShrOfHalf(BitOr(a, b), k);
      ShrOfHalf(a, k);
      ShrOfHalf(b, k);
      assert BitOr(a, b) / 2 == BitOr(a / 2, b / 2);
      BitOfOr(a / 2, b / 2, k - 1);
    }
  }

  lemma {:induction false} BitOfAnd(a: nat, b: nat, k: nat)
    ensures IsSet(BitAnd(a, b), k) <==> IsSet(a, k) && IsSet(b, k)
  {
    if k > 0 {
      ShrOfHalf(BitAnd(a, b), k);
      ShrOfHalf(a, k);
      ShrOfHalf(b, k);
      assert BitAnd(a, b) / 2 == BitAnd(a / 2, b / 2);
      BitOfAnd(a / 2, b / 2, k - 1);
    } else {
      assert BitAnd(a, b) % 2 == if a % 2 == 1 && b % 2 == 1 then 1 else 0;
    }
  }

  lemma {:induction false} BitOfComplement(x: nat, width: nat, k: nat)
    requires k < width && x < Pow2(width)
    ensures IsSet(Pow2(width) - 1 - x, k) <==> !IsSet(x, k)
  {
    if k > 0 {
      ShrOfHalf(Pow2(width) - 1 - x, k);
      ShrOfHalf(x, k);
      assert (Pow2(width) - 1 - x) / 2 == Pow2(width - 1) - 1 - x / 2;
      BitOfComplement(x / 2, width - 1, k - 1);
    }
  }

  lemma BitOfNot(x: u32, k: nat)
    requires k < 32
    ensures IsSet(Not32(x), k) <==> !IsSet(x, k)
  {
    Pow2Of32();
    BitOfComplement(x, 32, k);
  }

  lemma {:induction false} BitOfPow2(j: nat, k: nat)
    ensures IsSet(Pow2(j), k) <==> j == k
  {
    if k > 0 {
      ShrOfHalf(Pow2(j), k);
      if j > 0 {
        BitOfPow2(j - 1, k - 1);
      } else {
        ShrOfZero(k - 1);
      }
    }
  }

  lemma {:induction false} ShrOfZero(k: nat)
    ensures Shr(0, k) == 0
  {
    if k > 0 {
      ShrOfZero(k - 1);
    }
  }

  /** The three bits of the control register that this code sets and clears. */
  lemma ControlBits(k: nat)
    ensures IsSet(CR_M, k) <==> k == 0 == M_BIT
    ensures IsSet(CR_C, k) <==> k == 2 == C_BIT
    ensures IsSet(CR_I, k) <==> k == 12 == I_BIT
  {
    hide IsSet;
    SmallPowers();
    Pow2Add(8, 4);
    BitOfPow2(0, k);
    BitOfPow2(2, k);
    BitOfPow2(12, k);
  }

  function SetBits(cr: u32, bits: u32): (r: u32) {
    OrBelow32(cr, bits);
    BitOr(cr, bits)
  }

  function ClearBits(cr: u32, bits: u32): (r: u32) {
    AndBelow(cr, Not32(bits));
    BitAnd(cr, Not32(bits))
  }

  lemma OrBelow32(a: u32, b: u32)
    ensures BitOr(a, b) < TWO_32
  {
    Pow2Of32();
    OrBelow(32, TWO_32, a, b);
  }

  lemma {:induction false} AndBelow(a: nat, b: nat)
    ensures BitAnd(a, b) <= a
  {
    if a != 0 && b != 0 {
      AndBelow(a / 2, b / 2);
    }
  }

  lemma SetBitsEffect(cr: u32, bits: u32, k: nat)
    ensures IsSet(SetBits(cr, bits), k) <==> IsSet(cr, k) || IsSet(bits, k)
  {
    BitOfOr(cr, bits, k);
  }

  lemma ClearBitsEffect(cr: u32, bits: u32, k: nat)
    requires k < 32
    ensures IsSet(ClearBits(cr, bits), k) <==> IsSet(cr, k) && !IsSet(bits, k)
  {
    BitOfAnd(cr, Not32(bits), k);
    BitOfNot(bits, k);
  }

  // ---- The page table: 4096 sections of 1 MB ----

  /** `i << 20 | (3 << 10) | setup` */
  function SectionEntry(i: nat, setup: u32): nat
    requires i < 4096
  {
    BitOr(BitOr(Shl32(i, 20), Shl32(3, 10)), setup)
  }

  lemma SectionEntryIsSum(i: nat, setup: u32)
    requires i < 4096 && setup < 0x400
    ensures SectionEntry(i, setup) == i * 0x10_0000 + 0xC00 + setup
  {
    hide BitOr, Pow2;
    SmallPowers();
    Pow2Add(8, 2);
    Pow2Add(10, 10);
    OrLow(i, 20, 3 * 0x400);
    OrLow(i * 0x400 + 3, 10, setup);
  }

  function SectionAddress(entry: nat): nat {
    entry / 0x10_0000
  }

  /** The C and B bits of a section entry. */
  predicate SectionCacheable(entry: nat) {
    entry / 8 % 2 == 1 && entry / 4 % 2 == 1
  }

  /** The sections of `[start, start + size)`, the end computed on 32 bits. */
  predicate InDram(start: u32, size: u32, i: nat) {
    start / 0x10_0000 <= i < (start + size) % 0x1_0000_0000 / 0x10_0000
  }

  function TableEntry(start: u32, size: u32, tableAddress: u32, i: nat): nat
    requires i < 4096
  {
    SectionEntry(i, if InDram(start, size, i) && i != tableAddress / 0x10_0000 then CACHE_SETUP else UNCACHED_SETUP)
  }

  function PageTable(start: u32, size: u32, tableAddress: u32): (table: seq<nat>)
    ensures |table| == 4096
  {
    seq(4096, i requires 0 <= i < 4096 => TableEntry(start, size, tableAddress, i))
  }

  /** The loop's 32-bit bound: a region that stays below 4 GB makes those sections DRAM
      whose last byte lies in it, so also a section that it starts within; a region that
      reaches 4 GB wraps to no section at all. */
  lemma InDramMeaning(start: u32, size: u32, i: nat)
    ensures InDram(start, size, i) <==> start + size < TWO_32 && start < (i + 1) * 0x10_0000 <= start + size
  {
  }

  /** What the processor reads from a section descriptor (ARM DDI 0406C, section B3.5.1)
      besides the address and the cache policy: bits 1-0 say that it is a section, bit 4
      that nothing is executed from it, bits 11-10 that all code may read and write it;
      the domain (8-5) is 0, and so are bit 9 and the attributes in bits 19-12. */
  predicate OpenSection(entry: nat) {
    && entry % 4 == 2
    && entry / 0x10 % 2 == 1
    && entry / 0x20 % 0x20 == 0
    && entry / 0x400 % 4 == 3
    && entry / 0x1000 % 0x100 == 0
  }

  /** Every entry maps its section to itself, open to all code but not for execution. It is
      cacheable, with bits C and B both set and not both clear, exactly if the DRAM region
      lies below 4 GB and holds the section's last byte, and it is not the section of the
      table itself; so the last section never is. */
  lemma PageTableMeaning(start: u32, size: u32, tableAddress: u32, i: nat)
    requires i < 4096
    ensures var entry := PageTable(start, size, tableAddress)[i];
      && entry < TWO_32 && entry / 0x10_0000 == i == SectionAddress(entry) && OpenSection(entry)
      && entry / 4 % 4 == (if SectionCacheable(entry) then 3 else 0)
      && (SectionCacheable(entry)
          <==> start + size < TWO_32 && start < (i + 1) * 0x10_0000 <= start + size && i != tableAddress / 0x10_0000)
      && (SectionCacheable(entry) ==> i < 4095)
  {
    hide SectionEntry, InDram, SectionCacheable, OpenSection;
    SectionEntryIsSum(i, CACHE_SETUP);
    SectionEntryIsSum(i, UNCACHED_SETUP);
    EntryMeaning(i);
    InDramMeaning(start, size, i);
  }

  lemma EntryMeaning(i: nat)
    requires i < 4096
    ensures var e := i * 0x10_0000 + 0xC00 + CACHE_SETUP;
      e < TWO_32 && SectionAddress(e) == i && OpenSection(e) && SectionCacheable(e) && e / 4 % 4 == 3
    ensures var e := i * 0x10_0000 + 0xC00 + UNCACHED_SETUP;
      e < TWO_32 && SectionAddress(e) == i && OpenSection(e) && !SectionCacheable(e) && e / 4 % 4 == 0
  {
    hide SectionCacheable, OpenSection;
    CachedIsOpen(i);
    CachedBits(i);
    UncachedIsOpen(i);
    UncachedBits(i);
  }

  lemma CachedIsOpen(i: nat)
    ensures OpenSection(i * 0x10_0000 + 0xC00 + CACHE_SETUP)
  {
    var e := i * 0x10_0000 + 0xC00 + CACHE_SETUP;
    assert e / 0x10 == i * 0x1_0000 + 0xC1;
    assert e / 0x20 == i * 0x8000 + 0x60;
    assert e / 0x400 == i * 0x400 + 3;
    assert e / 0x1000 == i * 0x100;
  }

  lemma CachedBits(i: nat)
    ensures var e := i * 0x10_0000 + 0xC00 + CACHE_SETUP; SectionCacheable(e) && e / 4 % 4 == 3
  {
    var e := i * 0x10_0000 + 0xC00 + CACHE_SETUP;
    assert e / 4 == i * 0x4_0000 + 0x307;
    assert e / 8 == i * 0x2_0000 + 0x183;
  }

  lemma UncachedIsOpen(i: nat)
    ensures OpenSection(i * 0x10_0000 + 0xC00 + UNCACHED_SETUP)
  {
    var e := i * 0x10_0000 + 0xC00 + UNCACHED_SETUP;
    assert e / 0x10 == i * 0x1_0000 + 0xC1;
    assert e / 0x20 == i * 0x8000 + 0x60;
    assert e / 0x400 == i * 0x400 + 3;
    assert e / 0x1000 == i * 0x100;
  }

  lemma UncachedBits(i: nat)
    ensures var e := i * 0x10_0000 + 0xC00 + UNCACHED_SETUP; !SectionCacheable(e) && e / 4 % 4 == 0
  {
    var e := i * 0x10_0000 + 0xC00 + UNCACHED_SETUP;
    assert e / 4 == i * 0x4_0000 + 0x304;
    assert e / 8 == i * 0x2_0000 + 0x182;
  }

  // ---- States and events ----

  datatype State = State(hw: Hardware, cr: u32, table: seq<nat>, tableAddress: u32, dramStart: u32, dramSize: u32)

  /** In `Cleanup`, lines arrive between the flush's instructions, and `late` ones after
      it, before the data cache goes off. */
  datatype Event =
    | SetRanges(start: u32, size: u32)
    | EnableCaches
    | Write(address: u32, value: byte)
    | Read(fill: Filled)
    | Cleanup(arrivals: Arrivals, late: seq<Filled>)

  predicate WfState(s: State) {
    Wf(s.hw) && |s.table| == 4096
  }

  /** The section that the block lies in; line sizes divide section sizes. */
  function BlockSection(lineBits: nat, b: nat): nat {
    if lineBits <= 20 then Shr(b, 20 - lineBits) else 0
  }

  lemma BlockInSection(hw: Hardware, a: nat)
    requires hw.lineBits <= 20
    ensures BlockSection(hw.lineBits, BlockOf(hw, a)) == a / 0x10_0000
  {
    hide Shr, Pow2;
    ShrTwice(a, hw.lineBits, 20 - hw.lineBits);
    ShrIsDiv(a, 20);
    SmallPowers();
    Pow2Add(8, 8);
    Pow2Add(16, 4);
  }

  predicate Cacheable(s: State, b: nat)
    requires |s.table| == 4096
  {
    BlockSection(s.hw.lineBits, b) < 4096 && SectionCacheable(s.table[BlockSection(s.hw.lineBits, b)])
  }

  /** A table could make the block cacheable. */
  predicate Usable(s: State, b: nat) {
    BlockSection(s.hw.lineBits, b) < 4095 && BlockSection(s.hw.lineBits, b) != s.tableAddress / 0x10_0000
  }

  lemma CacheableIsUsable(s: State, b: nat)
    requires |s.table| == 4096 && s.table == PageTable(s.dramStart, s.dramSize, s.tableAddress) && Cacheable(s, b)
    ensures Usable(s, b)
  {
    hide PageTable, BlockSection, SectionCacheable;
    PageTableMeaning(s.dramStart, s.dramSize, s.tableAddress, BlockSection(s.hw.lineBits, b));
  }

  function EnableControl(s: State, bit: u32): State {
    if bit == CR_C && !IsSet(s.cr, M_BIT) then
      s.(table := PageTable(s.dramStart, s.dramSize, s.tableAddress), cr := SetBits(SetBits(s.cr, CR_M), bit))
    else s.(cr := SetBits(s.cr, bit))
  }

  ghost function DisableControl(s: State, bit: u32, arrivals: Arrivals, late: seq<Filled>): (r: State)
    requires |s.hw.levels| == LEVELS
    ensures |r.hw.levels| == LEVELS
  {
    if bit == CR_C then
      if IsSet(s.cr, C_BIT) then
        s.(hw := DoFills(MaintFrom(s.hw, CLEAN_INVAL_ALL, 0, arrivals), late), cr := ClearBits(s.cr, CR_C + CR_M))
      else s
    else s.(cr := ClearBits(s.cr, bit))
  }

  ghost function CleanupControl(s: State, arrivals: Arrivals, late: seq<Filled>): (r: State)
    requires |s.hw.levels| == LEVELS
    ensures |r.hw.levels| == LEVELS
  {
    var off := DisableControl(DisableControl(s, CR_I, [], []), CR_C, arrivals, late);
    off.(hw := MaintFrom(off.hw, INVAL_ALL, 0, []))
  }

  ghost function Step(s: State, e: Event): (r: State)
    requires WfState(s)
    ensures |r.hw.levels| == LEVELS && |r.table| == 4096
  {
    match e
    case SetRanges(start, size) => s.(dramStart := start, dramSize := size)
    case EnableCaches => EnableControl(EnableControl(s, CR_I), CR_C)
    case Write(a, v) =>
      if IsSet(s.cr, C_BIT) && Cacheable(s, BlockOf(s.hw, a)) then s.(hw := CachedWrite(s.hw, a, v))
      else s.(hw := UncachedWrite(s.hw, a, v))
    case Read(fill) =>
      if IsSet(s.cr, C_BIT) && Cacheable(s, fill.block) then s.(hw := DoFill(s.hw, fill)) else s
    case Cleanup(arrivals, late) => CleanupControl(s, arrivals, late)
  }

  /** The table that is enabled is that of the region set last: its first argument is the
      start, its second the size. Where the MMU runs already, the table stays. */
  lemma TableOfRanges(s: State, start: u32, size: u32)
    requires WfState(s)
    ensures WfState(Step(s, SetRanges(start, size)))
    ensures Step(Step(s, SetRanges(start, size)), EnableCaches).table
         == if IsSet(s.cr, 0) then s.table else PageTable(start, size, s.tableAddress)
  {
    hide PageTable, IsSet, SetBits, Wf;
    SetBitsEffect(s.cr, CR_I, 0);
    ControlBits(0);
  }

  /** The byte that the processor reads. */
  function ReadValue(s: State, a: u32): byte
    requires WfState(s)
  {
    if IsSet(s.cr, C_BIT) && Cacheable(s, BlockOf(s.hw, a))
    then ByteOf(View(s.hw, 0, BlockOf(s.hw, a)), OffsetOf(s.hw, a))
    else MemoryAt(s.hw, a)
  }

  // ---- What holds between events ----

  /** A byte for every address. */
  type Image = nat -> byte

  function MemoryImage(hw: Hardware): Image {
    a => MemoryAt(hw, a)
  }

  /** The last byte written to each address. */
  function Writes(last: Image, e: Event): Image {
    match e
    case Write(a, v) => x => if x == a then v else last(x)
    case _ => last
  }

  function NewestAt(hw: Hardware, a: nat): byte
    requires |hw.levels| == LEVELS
  {
    ByteOf(Newest(hw, 0, BlockOf(hw, a)), OffsetOf(hw, a))
  }

  ghost predicate Current(hw: Hardware, last: Image)
    requires |hw.levels| == LEVELS
  {
    forall a: nat {:trigger NewestAt(hw, a)} :: NewestAt(hw, a) == last(a)
  }

  /** Only cacheable blocks are dirty, only they have copies among the blocks that could
      ever be used, and their clean copies agree with what lies below. */
  predicate BlockSafe(s: State, b: nat)
    requires WfState(s)
  {
    && (DirtyFrom(s.hw, 0, b) ==> Cacheable(s, b))
    && (HasLine(s.hw, 0, b) && Usable(s, b) ==> IsSet(s.cr, C_BIT) && Cacheable(s, b))
    && (IsSet(s.cr, C_BIT) && Cacheable(s, b) ==> Coherent(s.hw, 0, b))
  }

  ghost predicate Safe(s: State, last: Image) {
    && WfState(s)
    && (IsSet(s.cr, M_BIT) <==> IsSet(s.cr, C_BIT))
    && (!IsSet(s.cr, C_BIT) ==> NoDirty(s.hw))
    && Current(s.hw, last)
    && forall b :: BlockSafe(s, b)
  }

  /** In a safe state the processor reads, of every address, the byte last written. */
  lemma ReadsCurrent(s: State, a: u32, last: Image)
    requires Safe(s, last)
    ensures ReadValue(s, a) == last(a)
  {
    hide WfCaches, IsSet, Newest, View, DirtyFrom, HasLine, Coherent, Cacheable, Usable, LineSize;
    var b := BlockOf(s.hw, a);
    assert BlockSafe(s, b);
    assert NewestAt(s.hw, a) == last(a);
    if IsSet(s.cr, C_BIT) && Cacheable(s, b) {
      ViewIsNewest(s.hw, 0, b);
    } else {
      CleanIsMemory(s.hw, 0, b);
    }
  }

  // ---- Writes ----

  lemma SameByte(hw: Hardware, a: nat, x: nat)
    requires BlockOf(hw, a) == BlockOf(hw, x) && OffsetOf(hw, a) == OffsetOf(hw, x)
    ensures a == x
  {
    hide Shr, LineSize, Pow2;
    ShrIsDiv(a, hw.lineBits);
    ShrIsDiv(x, hw.lineBits);
    assert LineSize(hw.lineBits) == Pow2(hw.lineBits) by {
      LineSizeIs(hw.lineBits);
    }
  }

  lemma LineSizeIs(lineBits: nat)
    ensures LineSize(lineBits) == Pow2(lineBits)
  {
    hide Pow2;
  }

  /** Merging a byte into its block changes that byte and no other. */
  lemma MergedByte(hw: Hardware, data: seq<byte>, a: nat, v: byte, x: nat)
    requires |data| == LineSize(hw.lineBits) && BlockOf(hw, x) == BlockOf(hw, a)
    ensures ByteOf(WithByte(data, OffsetOf(hw, a), v), OffsetOf(hw, x))
         == if x == a then v else ByteOf(data, OffsetOf(hw, x))
  {
    hide LineSize, Shr;
    if OffsetOf(hw, x) == OffsetOf(hw, a) {
      SameByte(hw, a, x);
    }
  }

  /** What a write does to newest bytes when its block's newest bytes are merged with it. */
  lemma WriteIsCurrent(r: Hardware, hw: Hardware, a: nat, v: byte, last: Image)
    requires Wf(hw) && SameShape(r, hw) && Current(hw, last)
    requires KeepsOthers(r, hw, 0, BlockOf(hw, a))
    requires Newest(r, 0, BlockOf(hw, a)) == WithByte(Newest(hw, 0, BlockOf(hw, a)), OffsetOf(hw, a), v)
    ensures Current(r, x => if x == a then v else last(x))
  {
    hide WfCaches, Newest, DirtyFrom, HasLine, Coherent, LineSize, Shr;
    var b := BlockOf(hw, a);
    BlockSizes(hw, 0, b);
    forall x: nat
      ensures NewestAt(r, x) == if x == a then v else last(x)
    {
      assert NewestAt(hw, x) == last(x);
      if BlockOf(hw, x) == b {
        MergedByte(hw, Newest(hw, 0, b), a, v, x);
      } else {
        assert Kept(r, hw, 0, BlockOf(hw, x));
      }
    }
  }

  lemma CachedWriteSafe(s: State, a: u32, v: byte, last: Image)
    requires Safe(s, last) && IsSet(s.cr, C_BIT) && Cacheable(s, BlockOf(s.hw, a))
    ensures Safe(s.(hw := CachedWrite(s.hw, a, v)), x => if x == a then v else last(x))
  {
    hide WfCaches, IsSet, View, Newest, DirtyFrom, HasLine, Coherent, Push, SectionCacheable, LineSize, Shr, NoDirty;
    var b := BlockOf(s.hw, a);
    var data := WithByte(View(s.hw, 0, b), OffsetOf(s.hw, a), v);
    assert BlockSafe(s, b);
    ViewIsNewest(s.hw, 0, b);
    BlockSizes(s.hw, 0, b);
    PushEffect(s.hw, 0, b, data);
    var r := s.(hw := CachedWrite(s.hw, a, v));
    WriteIsCurrent(r.hw, s.hw, a, v, last);
    forall c
      ensures BlockSafe(r, c)
    {
      assert BlockSafe(s, c);
      assert c != b ==> Kept(r.hw, s.hw, 0, c);
    }
  }

  lemma {:induction false} AfterStore(hw: Hardware, k: nat, a: nat, v: byte, c: nat)
    requires |hw.levels| == LEVELS && (c == BlockOf(hw, a) ==> !DirtyFrom(hw, k, c))
    ensures var r := UncachedWrite(hw, a, v);
      && DirtyFrom(r, k, c) == DirtyFrom(hw, k, c) && HasLine(r, k, c) == HasLine(hw, k, c)
      && (c != BlockOf(hw, a) ==> Newest(r, k, c) == Newest(hw, k, c) && Coherent(r, k, c) == Coherent(hw, k, c))
      && (c == BlockOf(hw, a) ==> Newest(r, k, c) == WithByte(Newest(hw, k, c), OffsetOf(hw, a), v))
    decreases LEVELS - k
  {
    hide LineSize, Shr;
    if k < LEVELS {
      AfterStore(hw, k + 1, a, v, c);
    }
  }

  /** When a write past the caches leaves a stale copy behind: where all copies of a clean
      block agreed, they still do if and only if there is none or the byte did not change. */
  lemma {:induction false} StaleAfterStore(hw: Hardware, k: nat, a: nat, v: byte)
    requires |hw.levels| == LEVELS && !DirtyFrom(hw, k, BlockOf(hw, a)) && Coherent(hw, k, BlockOf(hw, a))
    ensures var b := BlockOf(hw, a);
      Coherent(UncachedWrite(hw, a, v), k, b)
      <==> !HasLine(hw, k, b) || WithByte(MemoryBlock(hw, b), OffsetOf(hw, a), v) == MemoryBlock(hw, b)
    decreases LEVELS - k
  {
    hide LineSize, Shr, WithByte;
    var b := BlockOf(hw, a);
    if k < LEVELS {
      StaleAfterStore(hw, k + 1, a, v);
      CleanIsMemory(hw, k + 1, b);
      AfterStore(hw, k + 1, a, v, b);
    }
  }

  lemma StoreKeepsWf(hw: Hardware, a: nat, v: byte)
    requires Wf(hw)
    ensures Wf(UncachedWrite(hw, a, v))
  {
    hide WfLevel, LineSize, Shr, CacheType;
  }

  lemma UncachedWriteSafe(s: State, a: u32, v: byte, last: Image)
    requires Safe(s, last) && !(IsSet(s.cr, C_BIT) && Cacheable(s, BlockOf(s.hw, a)))
    ensures Safe(s.(hw := UncachedWrite(s.hw, a, v)), x => if x == a then v else last(x))
  {
    hide WfCaches, IsSet, Newest, DirtyFrom, HasLine, Coherent, SectionCacheable, LineSize, Shr, UncachedWrite;
    var b, r := BlockOf(s.hw, a), s.(hw := UncachedWrite(s.hw, a, v));
    assert BlockSafe(s, b) && !DirtyFrom(s.hw, 0, b);
    StoreKeepsWf(s.hw, a, v);
    StoreShape(s.hw, a, v);
    forall c
      ensures BlockSafe(r, c) && (c != b ==> Kept(r.hw, s.hw, 0, c)) && DirtyFrom(r.hw, 0, c) == DirtyFrom(s.hw, 0, c)
    {
      assert BlockSafe(s, c);
      AfterStore(s.hw, 0, a, v, c);
    }
    AfterStore(s.hw, 0, a, v, b);
    WriteIsCurrent(r.hw, s.hw, a, v, last);
  }

  lemma StoreShape(hw: Hardware, a: nat, v: byte)
    requires |hw.levels| == LEVELS
    ensures SameShape(UncachedWrite(hw, a, v), hw)
  {
    hide LineSize, Shr;
  }

  /** A write, cached or not, becomes the newest byte of its address, and of no other. */
  lemma WriteSafe(s: State, a: u32, v: byte, last: Image)
    requires Safe(s, last)
    ensures Safe(Step(s, Write(a, v)), x => if x == a then v else last(x))
  {
    hide BlockSafe, Current, NoDirty, IsSet, Cacheable, CachedWrite, UncachedWrite, WfCaches;
    if IsSet(s.cr, C_BIT) && Cacheable(s, BlockOf(s.hw, a)) {
      CachedWriteSafe(s, a, v, last);
    } else {
      UncachedWriteSafe(s, a, v, last);
    }
  }

  // ---- Enabling ----

  lemma {:induction false} NoLineIsCoherent(hw: Hardware, k: nat, b: nat)
    requires |hw.levels| == LEVELS && !HasLine(hw, k, b)
    ensures Coherent(hw, k, b)
    decreases LEVELS - k
  {
    if k < LEVELS {
      NoLineIsCoherent(hw, k + 1, b);
    }
  }

  lemma EnabledBits(cr: u32)
    ensures var withI := SetBits(cr, CR_I);
      && (IsSet(withI, M_BIT) <==> IsSet(cr, M_BIT)) && (IsSet(withI, C_BIT) <==> IsSet(cr, C_BIT)) && IsSet(withI, I_BIT)
    ensures var r := SetBits(cr, CR_C);
      IsSet(r, C_BIT) && (IsSet(r, M_BIT) <==> IsSet(cr, M_BIT)) && (IsSet(r, I_BIT) <==> IsSet(cr, I_BIT))
    ensures var r := SetBits(SetBits(cr, CR_M), CR_C);
      IsSet(r, C_BIT) && IsSet(r, M_BIT) && (IsSet(r, I_BIT) <==> IsSet(cr, I_BIT))
  {
    hide IsSet, SetBits;
    EnabledBit(cr, M_BIT);
    EnabledBit(cr, C_BIT);
    EnabledBit(cr, I_BIT);
  }

  lemma EnabledBit(cr: u32, k: nat)
    ensures IsSet(SetBits(cr, CR_I), k) <==> IsSet(cr, k) || k == I_BIT
    ensures IsSet(SetBits(cr, CR_C), k) <==> IsSet(cr, k) || k == C_BIT
    ensures IsSet(SetBits(SetBits(cr, CR_M), CR_C), k) <==> IsSet(cr, k) || k == M_BIT || k == C_BIT
  {
    hide IsSet, SetBits;
    ControlBits(k);
    SetBitsEffect(cr, CR_I, k);
    SetBitsEffect(cr, CR_C, k);
    SetBitsEffect(cr, CR_M, k);
    SetBitsEffect(SetBits(cr, CR_M), CR_C, k);
  }

  /** Enabling sets I, C and M; no stale copy comes into use. */
  lemma EnableSafe(s: State, last: Image)
    requires Safe(s, last)
    ensures Safe(Step(s, EnableCaches), last)
    ensures var r := Step(s, EnableCaches); IsSet(r.cr, I_BIT) && IsSet(r.cr, C_BIT) && IsSet(r.cr, M_BIT)
  {
    hide WfCaches, IsSet, SetBits, Newest, DirtyFrom, HasLine, Coherent, PageTable, BlockSection, SectionCacheable, LineSize, Shr;
    var r := Step(s, EnableCaches);
    EnabledBits(s.cr);
    EnabledBits(SetBits(s.cr, CR_I));
    forall b
      ensures BlockSafe(r, b)
    {
      assert BlockSafe(s, b);
      if !IsSet(s.cr, M_BIT) && Cacheable(r, b) {
        CacheableIsUsable(r, b);
        NoLineIsCoherent(s.hw, 0, b);
      }
    }
  }

  // ---- Cleaning up ----

  lemma ClearedControl(cr: u32, k: nat)
    requires k < 32
    ensures IsSet(ClearBits(ClearBits(cr, CR_I), CR_C + CR_M), k)
        <==> IsSet(cr, k) && k != I_BIT && k != C_BIT && k != M_BIT
    ensures IsSet(ClearBits(cr, CR_I), k) <==> IsSet(cr, k) && k != I_BIT
  {
    hide IsSet, ClearBits, BitOr;
    ControlBits(k);
    ClearBitsEffect(cr, CR_I, k);
    ClearBitsEffect(ClearBits(cr, CR_I), CR_C + CR_M, k);
    BitOfOr(CR_C, CR_M, k);
    OrOfControlBits();
  }

  lemma OrOfControlBits()
    ensures BitOr(CR_C, CR_M) == CR_C + CR_M
  {
  }

  lemma MemoryOfClean(hw: Hardware, b: nat)
    requires |hw.levels| == LEVELS && NoDirty(hw)
    ensures MemoryBlock(hw, b) == Newest(hw, 0, b)
  {
    hide DirtyFrom, Newest, LineSize;
    assert !DirtyFrom(hw, 0, b);
    CleanIsMemory(hw, 0, b);
  }

  lemma FlushedHardware(hw: Hardware, arrivals: Arrivals, late: seq<Filled>)
    requires Wf(hw)
    ensures var r := DoFills(MaintFrom(hw, CLEAN_INVAL_ALL, 0, arrivals), late);
      Wf(r) && NoDirty(r) && forall b :: MemoryBlock(r, b) == Newest(hw, 0, b)
  {
    hide WfCaches, Newest, DirtyFrom, Coherent, MaintFrom, DoFills, LineSize;
    var flushed := MaintFrom(hw, CLEAN_INVAL_ALL, 0, arrivals);
    CleanAllReachesMemory(hw, arrivals);
    FillsKeepWf(flushed, late);
    var r := DoFills(flushed, late);
    forall b
      ensures !DirtyFrom(r, 0, b) && MemoryBlock(r, b) == Newest(hw, 0, b)
    {
      assert Same(r, flushed, 0, b);
      assert !DirtyFrom(flushed, 0, b);
      CleanIsMemory(r, 0, b);
    }
  }

  /** When the final invalidation starts, nothing is dirty and memory is current. */
  lemma FlushedBeforeInvalidate(s: State, arrivals: Arrivals, late: seq<Filled>)
    requires WfState(s) && (!IsSet(s.cr, C_BIT) ==> NoDirty(s.hw))
    ensures var off := DisableControl(DisableControl(s, CR_I, [], []), CR_C, arrivals, late);
      Wf(off.hw) && NoDirty(off.hw) && forall b :: MemoryBlock(off.hw, b) == Newest(s.hw, 0, b)
  {
    hide WfCaches, Newest, DirtyFrom, NoDirty, IsSet, ClearBits, MaintFrom, DoFills, LineSize;
    ClearedControl(s.cr, C_BIT);
    if IsSet(s.cr, C_BIT) {
      FlushedHardware(s.hw, arrivals, late);
    } else {
      forall b
        ensures MemoryBlock(s.hw, b) == Newest(s.hw, 0, b)
      {
        MemoryOfClean(s.hw, b);
      }
    }
  }

  /** From any state, cleaning up empties the caches and leaves in memory the newest bytes,
      even where a stale copy had made them wrong. */
  lemma CleanupEffect(s: State, arrivals: Arrivals, late: seq<Filled>)
    requires WfState(s) && (!IsSet(s.cr, C_BIT) ==> NoDirty(s.hw))
    ensures var r := Step(s, Cleanup(arrivals, late));
      && WfState(r) && SameShape(r.hw, s.hw) && EmptyBelow(r.hw, LEVELS) && NoDirty(r.hw)
      && (forall b :: MemoryBlock(r.hw, b) == Newest(s.hw, 0, b))
  {
    hide WfCaches, Newest, DirtyFrom, NoDirty, IsSet, ClearBits, MaintFrom, DoFills, LineSize;
    FlushedBeforeInvalidate(s, arrivals, late);
    var off := DisableControl(DisableControl(s, CR_I, [], []), CR_C, arrivals, late).hw;
    InvalidateAllDiscards(off);
    var r := Step(s, Cleanup(arrivals, late));
    forall b
      ensures MemoryBlock(r.hw, b) == Newest(s.hw, 0, b)
    {
      SameMemory(r.hw, off, b);
    }
  }

  lemma SameMemory(r: Hardware, hw: Hardware, b: nat)
    requires r.memory == hw.memory && r.lineBits == hw.lineBits
    ensures MemoryBlock(r, b) == MemoryBlock(hw, b)
  {
    hide LineSize;
  }

  /** Cleaning up turns I, C and M off, touches no other control bit, leaves the caches
      empty, and leaves in memory the last byte written to every address. */
  lemma CleanupSafe(s: State, arrivals: Arrivals, late: seq<Filled>, last: Image)
    requires Safe(s, last)
    ensures var r := Step(s, Cleanup(arrivals, late));
      && Safe(r, last)
      && EmptyBelow(r.hw, LEVELS)
      && (forall a: nat :: MemoryAt(r.hw, a) == last(a))
      && (forall k | 0 <= k < 32 :: IsSet(r.cr, k) <==> IsSet(s.cr, k) && k != I_BIT && k != C_BIT && k != M_BIT)
  {
    hide WfCaches, Newest, DirtyFrom, HasLine, Coherent, IsSet, ClearBits, MaintFrom, DoFills, LineSize, Shr, EmptyBelow, BlockSection;
    var r := Step(s, Cleanup(arrivals, late));
    CleanupEffect(s, arrivals, late);
    forall k | 0 <= k < 32
      ensures IsSet(r.cr, k) <==> IsSet(s.cr, k) && k != I_BIT && k != C_BIT && k != M_BIT
    {
      ClearedControl(s.cr, k);
      ClearedControl(s.cr, C_BIT);
    }
    forall b
      ensures BlockSafe(r, b) && Newest(r.hw, 0, b) == Newest(s.hw, 0, b)
    {
      EmptyIsMemory(r.hw, 0, b);
    }
    forall a: nat
      ensures MemoryAt(r.hw, a) == last(a) && NewestAt(r.hw, a) == last(a)
    {
      assert NewestAt(s.hw, a) == last(a);
    }
  }

  // ---- The other events ----

  lemma ReadSafe(s: State, fill: Filled, last: Image)
    requires Safe(s, last)
    ensures Safe(Step(s, Read(fill)), last)
  {
    hide WfCaches, IsSet, Newest, DirtyFrom, HasLine, Coherent, SectionCacheable, BlockSection, LineSize, Shr, Fill;
    if IsSet(s.cr, C_BIT) && Cacheable(s, fill.block) && fill.level < LEVELS {
      FillEffect(s.hw, fill.level, fill.block);
      var r := Step(s, Read(fill));
      forall b
        ensures BlockSafe(r, b) && Newest(r.hw, 0, b) == Newest(s.hw, 0, b)
      {
        assert BlockSafe(s, b);
        assert b != fill.block ==> Kept(r.hw, s.hw, 0, b);
      }
      forall a: nat
        ensures NewestAt(r.hw, a) == last(a)
      {
        assert NewestAt(s.hw, a) == last(a);
      }
    }
  }

  lemma SetRangesSafe(s: State, e: Event, last: Image)
    requires Safe(s, last) && e.SetRanges?
    ensures Safe(Step(s, e), last)
  {
    hide WfCaches, IsSet, Newest, DirtyFrom, HasLine, Coherent, SectionCacheable, BlockSection, LineSize, Shr;
    forall b
      ensures BlockSafe(Step(s, e), b)
    {
      assert BlockSafe(s, b);
    }
  }

  lemma StepSafe(s: State, e: Event, last: Image)
    requires Safe(s, last)
    ensures Safe(Step(s, e), Writes(last, e))
  {
    hide WfCaches, IsSet, Step, BlockSafe, Current, NoDirty;
    match e
    case SetRanges(_, _) => SetRangesSafe(s, e, last);
    case EnableCaches => EnableSafe(s, last);
    case Write(a, v) => WriteSafe(s, a, v, last);
    case Read(fill) => ReadSafe(s, fill, last);
    case Cleanup(arrivals, late) => CleanupSafe(s, arrivals, late, last);
  }

  // ---- Runs ----

  lemma StepWf(s: State, e: Event)
    requires WfState(s)
    ensures WfState(Step(s, e)) && SameShape(Step(s, e).hw, s.hw)
  {
    hide WfCaches, IsSet, SetBits, ClearBits, PageTable, Cacheable, Push, View, Fill, MaintFrom, DoFills, LineSize, Shr, UncachedWrite;
    match e
    case Write(a, v) =>
      BlockSizes(s.hw, 0, BlockOf(s.hw, a));
      PushEffect(s.hw, 0, BlockOf(s.hw, a), WithByte(View(s.hw, 0, BlockOf(s.hw, a)), OffsetOf(s.hw, a), v));
      StoreKeepsWf(s.hw, a, v);
      StoreShape(s.hw, a, v);
    case Read(fill) =>
      if fill.level < LEVELS {
        FillEffect(s.hw, fill.level, fill.block);
      }
    case Cleanup(arrivals, late) => CleanupWf(s, arrivals, late);
    case _ =>
  }

  lemma CleanupWf(s: State, arrivals: Arrivals, late: seq<Filled>)
    requires WfState(s)
    ensures WfState(CleanupControl(s, arrivals, late)) && SameShape(CleanupControl(s, arrivals, late).hw, s.hw)
  {
    hide WfCaches, IsSet, ClearBits, MaintFrom, DoFills, NoDirty, Newest, LineSize;
    FlushedHardware(s.hw, arrivals, late);
    var off := DisableControl(DisableControl(s, CR_I, [], []), CR_C, arrivals, late).hw;
    InvalidateAllDiscards(off);
  }

  ghost function Run(s: State, es: seq<Event>): (r: State)
    requires WfState(s)
    ensures WfState(r)
    decreases |es|
  {
    if es == [] then s
    else
      StepWf(s, es[0]);
      Run(Step(s, es[0]), es[1..])
  }

  function AllWrites(last: Image, es: seq<Event>): Image
    decreases |es|
  {
    if es == [] then last else AllWrites(Writes(last, es[0]), es[1..])
  }

  lemma {:induction false} RunSafe(s: State, es: seq<Event>, last: Image)
    requires Safe(s, last)
    ensures Safe(Run(s, es), AllWrites(last, es))
    decreases |es|
  {
    hide Step, Current, BlockSafe, IsSet, NoDirty, WfCaches;
    if es != [] {
      StepSafe(s, es[0], last);
      RunSafe(Step(s, es[0]), es[1..], Writes(last, es[0]));
    }
  }

  /** Caches and MMU off and nothing dirty, whatever clean lines remain. */
  ghost predicate Off(s: State) {
    WfState(s) && NoDirty(s.hw) && !IsSet(s.cr, C_BIT) && !IsSet(s.cr, M_BIT)
  }

  /** No level holds a copy of a block that a page table could make cacheable. */
  ghost predicate NoUsableLine(s: State)
    requires WfState(s)
  {
    forall b :: HasLine(s.hw, 0, b) ==> !Usable(s, b)
  }

  /** After the run and a cleanup, memory holds the last byte written to every address. */
  ghost predicate KeepsWrites(s: State, es: seq<Event>, arrivals: Arrivals, late: seq<Filled>)
    requires WfState(s)
  {
    var r := Step(Run(s, es), Cleanup(arrivals, late));
    forall a: nat :: MemoryAt(r.hw, a) == AllWrites(MemoryImage(s.hw), es)(a)
  }

  lemma StartSafe(s: State)
    requires Off(s) && NoUsableLine(s)
    ensures Safe(s, MemoryImage(s.hw))
  {
    hide WfCaches, IsSet, Newest, DirtyFrom, HasLine, Coherent, SectionCacheable, BlockSection, LineSize, Shr;
    forall b
      ensures BlockSafe(s, b) && Newest(s.hw, 0, b) == MemoryBlock(s.hw, b)
    {
      assert !DirtyFrom(s.hw, 0, b);
      MemoryOfClean(s.hw, b);
    }
  }

  /** From caches off without a usable line: after any run of events and a cleanup, memory
      holds the last byte written to every address, no cache holds anything, and caches
      and MMU are off; and in every state on the way, reads give the last byte written. */
  lemma RunKeepsWrites(s: State, es: seq<Event>, arrivals: Arrivals, late: seq<Filled>)
    requires Off(s) && NoUsableLine(s)
    ensures Safe(Run(s, es), AllWrites(MemoryImage(s.hw), es))
    ensures forall a: u32 :: ReadValue(Run(s, es), a) == AllWrites(MemoryImage(s.hw), es)(a)
    ensures KeepsWrites(s, es, arrivals, late)
    ensures var r := Step(Run(s, es), Cleanup(arrivals, late));
      EmptyBelow(r.hw, LEVELS) && !IsSet(r.cr, I_BIT) && !IsSet(r.cr, C_BIT) && !IsSet(r.cr, M_BIT)
  {
    hide Step, Run, IsSet, BlockSafe, Current, NoDirty, MemoryAt, EmptyBelow, WfCaches, ReadValue, NoUsableLine, AllWrites;
    var last := AllWrites(MemoryImage(s.hw), es);
    StartSafe(s);
    RunSafe(s, es, MemoryImage(s.hw));
    CleanupSafe(Run(s, es), arrivals, late, last);
    forall a: u32
      ensures ReadValue(Run(s, es), a) == last(a)
    {
      ReadsCurrent(Run(s, es), a, last);
    }
  }

  // ---- The start condition is needed ----

  lemma {:induction false} ViewOfLine(r: Hardware, hw: Hardware, k: nat, b: nat)
    requires |hw.levels| == |r.levels| == LEVELS && r.levels == hw.levels && HasLine(hw, k, b)
    ensures View(r, k, b) == View(hw, k, b)
    decreases LEVELS - k
  {
    hide LineSize;
    if b !in hw.levels[k].lines {
      ViewOfLine(r, hw, k + 1, b);
    }
  }

  lemma LineBitsBound(hw: Hardware)
    requires Wf(hw)
    ensures 4 <= hw.lineBits <= 11
  {
    hide WfLevel, CacheType, LineSize;
  }

  /** The first byte of a block, and the one after it. */
  lemma FirstBytes(hw: Hardware, b: nat)
    requires 4 <= hw.lineBits <= 11
    ensures var x := Shl(b, hw.lineBits);
      && BlockOf(hw, x) == BlockOf(hw, x + 1) == b
      && OffsetOf(hw, x) == 0 && OffsetOf(hw, x + 1) == 1
      && x / 0x10_0000 == BlockSection(hw.lineBits, b)
  {
    hide Shr, Shl, Pow2, BlockSection;
    var x, size := Shl(b, hw.lineBits), Pow2(hw.lineBits);
    SmallPowers();
    Pow2Monotone(4, hw.lineBits);
    ShrOfShl(b, hw.lineBits, 0);
    ShrOfShl(b, hw.lineBits, 1);
    ShlIsMul(b, hw.lineBits);
    DivModUnique(x, size, b, 0);
    DivModUnique(x + 1, size, b, 1);
    BlockInSection(hw, x);
  }

  function OtherByte(v: byte): byte {
    (v + 1) % 0x100
  }

  /** The losing run: a byte of the block is written while the caches are off, they are
      enabled over the stale copy, and the next byte of the block is written. */
  function LosingRun(s: State, b: nat): (es: seq<Event>)
    requires WfState(s) && Usable(s, b)
    ensures |es| == 4
  {
    FirstBytes(s.hw, b);
    var x := Shl(b, s.hw.lineBits);
    var section := BlockSection(s.hw.lineBits, b);
    [ Write(x, OtherByte(ByteOf(View(s.hw, 0, b), 0))),
      Event.SetRanges(section * 0x10_0000, 0x10_0000),
      EnableCaches,
      Write(x + 1, 0) ]
  }

  /** After the first three events the caches are on, over the stale copy. */
  lemma StaleEnabled(s: State, b: nat)
    requires Off(s) && HasLine(s.hw, 0, b) && Usable(s, b)
    ensures var es := LosingRun(s, b);
      var x := Shl(b, s.hw.lineBits);
      var s1 := s.(hw := UncachedWrite(s.hw, x, OtherByte(ByteOf(View(s.hw, 0, b), 0))));
      var s3 := Step(Step(s1, es[1]), es[2]);
      && Step(s, es[0]) == s1 && WfState(s1) && s3.hw == s1.hw
      && IsSet(s3.cr, C_BIT) && |s3.table| == 4096 && Cacheable(s3, b)
      && View(s3.hw, 0, b) == View(s.hw, 0, b) && s3.hw.lineBits == s.hw.lineBits
  {
    hide IsSet, SetBits, PageTable, SectionCacheable, WfCaches, View, HasLine, LineSize, Shr, Shl, NoDirty;
    LineBitsBound(s.hw);
    FirstBytes(s.hw, b);
    var es, x := LosingRun(s, b), Shl(b, s.hw.lineBits);
    var v := OtherByte(ByteOf(View(s.hw, 0, b), 0));
    StoreKeepsWf(s.hw, x, v);
    var s1 := s.(hw := UncachedWrite(s.hw, x, v));
    ViewOfLine(s1.hw, s.hw, 0, b);
    EnabledBits(s.cr);
    EnabledBits(SetBits(s.cr, CR_I));
    var section := BlockSection(s.hw.lineBits, b);
    PageTableMeaning(section * 0x10_0000, 0x10_0000, s.tableAddress, section);
  }

  /** A write that is lost: after the losing run and a cleanup, memory holds at the first
      byte of the block what the stale copy held, not what was written there. */
  lemma StaleLineLosesWrite(s: State, b: nat)
    requires Off(s) && HasLine(s.hw, 0, b) && Usable(s, b)
    ensures var es, x := LosingRun(s, b), Shl(b, s.hw.lineBits);
      && AllWrites(MemoryImage(s.hw), es)(x) == OtherByte(ByteOf(View(s.hw, 0, b), 0))
      && MemoryAt(Step(Run(s, es), Cleanup([], [])).hw, x) == ByteOf(View(s.hw, 0, b), 0)
      && !KeepsWrites(s, es, [], [])
  {
    hide IsSet, Step, WfCaches, View, HasLine, Newest, LineSize, Shr, Shl, NoDirty, UncachedWrite, Cacheable, MemoryBlock;
    LineBitsBound(s.hw);
    FirstBytes(s.hw, b);
    var es, x := LosingRun(s, b), Shl(b, s.hw.lineBits);
    StaleEnabled(s, b);
    RunOfFour(s, es);
    var s1 := Step(s, es[0]);
    var s3 := Step(Step(s1, es[1]), es[2]);
    StaleWritten(s3, b, x + 1);
    var s4 := Step(s3, es[3]);
    CleanupEffect(s4, [], []);
    WritesOfFour(MemoryImage(s.hw), es, x);
    var r := Step(Run(s, es), Cleanup([], []));
    assert BlockOf(r.hw, x) == b && OffsetOf(r.hw, x) == 0;
    assert MemoryAt(r.hw, x) == ByteOf(View(s.hw, 0, b), 0);
    assert AllWrites(MemoryImage(s.hw), es)(x) != MemoryAt(r.hw, x);
  }

  /** Writing the second byte of the block makes the stale copy the newest. */
  lemma StaleWritten(s: State, b: nat, y: u32)
    requires WfState(s) && IsSet(s.cr, C_BIT) && Cacheable(s, b) && BlockOf(s.hw, y) == b && OffsetOf(s.hw, y) == 1
    ensures var r := Step(s, Write(y, 0));
      && WfState(r) && IsSet(r.cr, C_BIT) && SameShape(r.hw, s.hw)
      && ByteOf(Newest(r.hw, 0, b), 0) == ByteOf(View(s.hw, 0, b), 0)
  {
    hide IsSet, WfCaches, View, Newest, LineSize, Shr, Cacheable, Push;
    BlockSizes(s.hw, 0, b);
    PushEffect(s.hw, 0, b, WithByte(View(s.hw, 0, b), 1, 0));
  }

  lemma RunOfFour(s: State, es: seq<Event>)
    requires WfState(s) && |es| == 4
    ensures WfState(Step(s, es[0])) && WfState(Step(Step(s, es[0]), es[1]))
    ensures WfState(Step(Step(Step(s, es[0]), es[1]), es[2]))
    ensures Run(s, es) == Step(Step(Step(Step(s, es[0]), es[1]), es[2]), es[3])
  {
    hide Step, WfCaches;
    RunOfCons(s, es[0], [es[1], es[2], es[3]]);
    var s1 := Step(s, es[0]);
    RunOfCons(s1, es[1], [es[2], es[3]]);
    var s2 := Step(s1, es[1]);
    RunOfCons(s2, es[2], [es[3]]);
    RunOfCons(Step(s2, es[2]), es[3], []);
    assert es == [es[0]] + [es[1], es[2], es[3]];
    assert [es[1], es[2], es[3]] == [es[1]] + [es[2], es[3]];
    assert [es[2], es[3]] == [es[2]] + [es[3]];
    assert [es[3]] == [es[3]] + [];
  }

  lemma RunOfCons(s: State, e: Event, es: seq<Event>)
    requires WfState(s)
    ensures WfState(Step(s, e)) && Run(s, [e] + es) == Run(Step(s, e), es)
    ensures es == [] ==> Run(s, [e] + es) == Step(s, e)
  {
    hide Step, WfCaches;
    StepWf(s, e);
    assert ([e] + es)[1..] == es;
  }

  lemma WritesOfFour(last: Image, es: seq<Event>, x: nat)
    requires |es| == 4 && es[0].Write? && !es[1].Write? && !es[2].Write? && es[3].Write?
    requires x == es[0].address != es[3].address
    ensures AllWrites(last, es)(x) == es[0].value
  {
    var last1 := Writes(last, es[0]);
    assert es[1..] == [es[1], es[2], es[3]];
    assert es[1..][1..] == [es[2], es[3]];
    assert [es[2], es[3]][1..] == [es[3]];
    assert AllWrites(last1, [es[1], es[2], es[3]]) == AllWrites(last1, [es[2], es[3]]);
    assert AllWrites(last1, [es[2], es[3]]) == AllWrites(last1, [es[3]]);
    assert AllWrites(last1, [es[3]]) == Writes(last1, es[3]);
  }

  /** When no write is lost: exactly if, before the caches are first enabled, no level
      holds a copy of a block that a page table could make cacheable. Empty caches, as a
      cleanup leaves them, meet this. */
  lemma NoWriteLost(s: State)
    requires Off(s)
    ensures NoUsableLine(s)
        <==> forall es: seq<Event>, arrivals: Arrivals, late: seq<Filled> :: KeepsWrites(s, es, arrivals, late)
  {
    hide KeepsWrites, Usable, HasLine, IsSet, NoDirty, WfCaches;
    if NoUsableLine(s) {
      forall es: seq<Event>, arrivals: Arrivals, late: seq<Filled>
        ensures KeepsWrites(s, es, arrivals, late)
      {
        RunKeepsWrites(s, es, arrivals, late);
      }
    } else {
      var b :| HasLine(s.hw, 0, b) && Usable(s, b);
      StaleLineLosesWrite(s, b);
    }
  }

  /** A cleanup leaves a state from which nothing can be lost. */
  lemma CleanupLeavesNoLine(s: State, arrivals: Arrivals, late: seq<Filled>, last: Image)
    requires Safe(s, last)
    ensures Off(Step(s, Cleanup(arrivals, late))) && NoUsableLine(Step(s, Cleanup(arrivals, late)))
  {
    hide WfCaches, Step, IsSet, BlockSafe, Current, HasLine, Usable, EmptyBelow;
    CleanupSafe(s, arrivals, late, last);
    var r := Step(s, Cleanup(arrivals, late));
    forall b
      ensures !HasLine(r.hw, 0, b)
    {
      EmptyIsMemory(r.hw, 0, b);
    }
  }
}
