/** A multi-level write-back data cache whose lines hold the bytes of their block. A
    line written back from one level is allocated in the next, where it may push out
    another; where it lands is up to the hardware. */
module CacheHardware {
  import opened Wrappers
  import opened Bits
  import opened SetWay

  const LEVELS: nat := 7
  const INVAL_ALL: nat := 1
  const CLEAN_INVAL_ALL: nat := 2

  datatype Line = Line(slot: Slot, data: seq<byte>, dirty: bool)
  datatype Level = Level(ccsidr: u32, lines: map<nat, Line>)

  /** Lines and memory are kept by block number, the address without its `lineBits` low
      bits. `choices` are the hardware's replacement decisions, used up one per `tick`. */
  datatype Hardware = Hardware(clidr: u32, lineBits: nat, levels: seq<Level>, memory: map<nat, seq<byte>>,
                               choices: map<nat, Slot>, tick: nat)

  // ---- Bytes and blocks ----

  function LineSize(lineBits: nat): (size: nat)
    ensures size > 0
  {
    Pow2(lineBits)
  }

  function Zeros(size: nat): (s: seq<byte>)
    ensures |s| == size
  {
    seq(size, _ => 0)
  }

  function BlockOf(hw: Hardware, a: nat): nat {
    Shr(a, hw.lineBits)
  }

  function OffsetOf(hw: Hardware, a: nat): (i: nat)
    ensures i < LineSize(hw.lineBits)
  {
    a % LineSize(hw.lineBits)
  }

  function ByteOf(data: seq<byte>, i: nat): byte {
    if i < |data| then data[i] else 0
  }

  function WithByte(data: seq<byte>, i: nat, v: byte): (r: seq<byte>)
    ensures |r| == |data|
  {
    if i < |data| then data[i := v] else data
  }

  function MemoryBlock(hw: Hardware, b: nat): seq<byte> {
    if b in hw.memory then hw.memory[b] else Zeros(LineSize(hw.lineBits))
  }

  function MemoryAt(hw: Hardware, a: nat): byte {
    ByteOf(MemoryBlock(hw, BlockOf(hw, a)), OffsetOf(hw, a))
  }

  // ---- Well-formed caches ----

  function CacheType(clidr: u32, k: nat): nat {
    Shr(clidr, 3 * k) % 8
  }

  /** The level has a data or unified cache. */
  predicate HasData(hw: Hardware, k: nat) {
    CacheType(hw.clidr, k) == 2 || CacheType(hw.clidr, k) == 3 || CacheType(hw.clidr, k) == 4
  }

  /** CLIDR has three bits a level: 2 for a data cache alone, 3 for one beside an instruction
      cache, 4 for a unified one. */
  lemma HasDataMeaning(hw: Hardware, k: nat)
    ensures HasData(hw, k) <==> 2 <= hw.clidr / Pow2(3 * k) % 8 <= 4
  {
    hide Shr, Pow2;
    ShrIsDiv(hw.clidr, 3 * k);
  }

  predicate WfLevel(l: Level, size: nat) {
    && Addressable(l.ccsidr)
    && (forall b :: b in l.lines ==> InGeometry(l.ccsidr, l.lines[b].slot) && |l.lines[b].data| == size)
    && (forall b, c :: b in l.lines && c in l.lines && b != c ==> l.lines[b].slot != l.lines[c].slot)
  }

  predicate Wf(hw: Hardware) {
    |hw.levels| == LEVELS && WfCaches(hw)
  }

  /** All data caches have the same line size, the one that CCSIDR gives. */
  predicate WfCaches(hw: Hardware)
    requires |hw.levels| == LEVELS
  {
    && 4 <= hw.lineBits <= 11
    && (forall b :: b in hw.memory ==> |hw.memory[b]| == LineSize(hw.lineBits))
    && (forall k :: 0 <= k < LEVELS ==> WfLevel(hw.levels[k], LineSize(hw.lineBits)))
    && (forall k :: 0 <= k < LEVELS && HasData(hw, k) ==> LineBits(hw.levels[k].ccsidr) == hw.lineBits)
    && (forall k :: 0 <= k < LEVELS && !HasData(hw, k) ==> hw.levels[k].lines == map[])
  }

  // ---- What a block holds ----

  /** What the processor sees of a block: the first copy from level `k` down, else memory. */
  function View(hw: Hardware, k: nat, b: nat): seq<byte>
    requires |hw.levels| == LEVELS
    decreases LEVELS - k
  {
    if k >= LEVELS then MemoryBlock(hw, b)
    else if b in hw.levels[k].lines then hw.levels[k].lines[b].data
    else View(hw, k + 1, b)
  }

  /** What cleaning would leave in memory: the first dirty copy, else memory. */
  function Newest(hw: Hardware, k: nat, b: nat): seq<byte>
    requires |hw.levels| == LEVELS
    decreases LEVELS - k
  {
    if k >= LEVELS then MemoryBlock(hw, b)
    else if b in hw.levels[k].lines && hw.levels[k].lines[b].dirty then hw.levels[k].lines[b].data
    else Newest(hw, k + 1, b)
  }

  predicate HasLine(hw: Hardware, k: nat, b: nat)
    requires |hw.levels| == LEVELS
    decreases LEVELS - k
  {
    k < LEVELS && (b in hw.levels[k].lines || HasLine(hw, k + 1, b))
  }

  predicate DirtyFrom(hw: Hardware, k: nat, b: nat)
    requires |hw.levels| == LEVELS
    decreases LEVELS - k
  {
    k < LEVELS && ((b in hw.levels[k].lines && hw.levels[k].lines[b].dirty) || DirtyFrom(hw, k + 1, b))
  }

  /** Every clean copy of the block, from level `k` down, agrees with what lies below it. */
  predicate Coherent(hw: Hardware, k: nat, b: nat)
    requires |hw.levels| == LEVELS
    decreases LEVELS - k
  {
    k < LEVELS ==>
      && (b in hw.levels[k].lines && !hw.levels[k].lines[b].dirty
          ==> hw.levels[k].lines[b].data == Newest(hw, k + 1, b))
      && Coherent(hw, k + 1, b)
  }

  ghost predicate NoDirty(hw: Hardware)
    requires |hw.levels| == LEVELS
  {
    forall b {:trigger DirtyFrom(hw, 0, b)} :: !DirtyFrom(hw, 0, b)
  }

  /** Where clean copies agree, the processor sees what cleaning would leave. */
  lemma {:induction false} ViewIsNewest(hw: Hardware, k: nat, b: nat)
    requires |hw.levels| == LEVELS && Coherent(hw, k, b)
    ensures View(hw, k, b) == Newest(hw, k, b)
    decreases LEVELS - k
  {
    if k < LEVELS {
      ViewIsNewest(hw, k + 1, b);
    }
  }

  lemma {:induction false} BlockSizes(hw: Hardware, k: nat, b: nat)
    requires Wf(hw)
    ensures |View(hw, k, b)| == |Newest(hw, k, b)| == LineSize(hw.lineBits)
    decreases LEVELS - k
  {
    hide LineSize, HasData, Addressable, InGeometry;
    if k < LEVELS {
      assert WfLevel(hw.levels[k], LineSize(hw.lineBits));
      BlockSizes(hw, k + 1, b);
    }
  }

  // ---- What the hardware does ----

  function WithLines(hw: Hardware, k: nat, lines: map<nat, Line>): (r: Hardware)
    requires k < |hw.levels|
    ensures |r.levels| == |hw.levels| && r.levels[k].lines == lines
  {
    hw.(levels := hw.levels[k := hw.levels[k].(lines := lines)])
  }

  ghost function Occupant(lines: map<nat, Line>, slot: Slot): (r: Option<nat>)
    ensures r.Some? ==> r.value in lines && lines[r.value].slot == slot
    ensures r.None? ==> forall b :: b in lines ==> lines[b].slot != slot
  {
    if b :| b in lines && lines[b].slot == slot then Some(b) else None
  }

  /** The slot that the hardware picks next at level `k`. */
  function Place(hw: Hardware, k: nat): (slot: Slot)
    requires k < |hw.levels|
    ensures InGeometry(hw.levels[k].ccsidr, slot)
  {
    var choice := if hw.tick in hw.choices then hw.choices[hw.tick] else (0, 0);
    (choice.0 % Sets(hw.levels[k].ccsidr), choice.1 % Ways(hw.levels[k].ccsidr))
  }

  predicate SameShape(a: Hardware, b: Hardware) {
    && |a.levels| == |b.levels| == LEVELS && a.clidr == b.clidr && a.lineBits == b.lineBits
    && forall k :: 0 <= k < LEVELS ==> a.levels[k].ccsidr == b.levels[k].ccsidr
  }

  /** A whole dirty line arrives at level `k`, or at memory beyond the last level. */
  ghost function Push(hw: Hardware, k: nat, b: nat, data: seq<byte>): (r: Hardware)
    requires |hw.levels| == LEVELS && k <= LEVELS
    ensures SameShape(r, hw)
    decreases LEVELS - k, 1
  {
    if k == LEVELS then hw.(memory := hw.memory[b := data])
    else if !HasData(hw, k) then Push(hw, k + 1, b, data)
    else if b in hw.levels[k].lines then
      WithLines(hw, k, hw.levels[k].lines[b := Line(hw.levels[k].lines[b].slot, data, true)])
    else Allocate(hw, k, b, data, true)
  }

  ghost function Allocate(hw: Hardware, k: nat, b: nat, data: seq<byte>, dirty: bool): (r: Hardware)
    requires |hw.levels| == LEVELS && k < LEVELS
    ensures SameShape(r, hw)
    decreases LEVELS - k, 0, 1
  {
    var slot := Place(hw, k);
    var free := Evict(hw.(tick := hw.tick + 1), k, slot);
    WithLines(free, k, free.levels[k].lines[b := Line(slot, data, dirty)])
  }

  /** Clean and invalidate one slot: its line leaves, dirty data going down a level. */
  ghost function Evict(hw: Hardware, k: nat, slot: Slot): (r: Hardware)
    requires |hw.levels| == LEVELS && k < LEVELS
    ensures SameShape(r, hw)
    decreases LEVELS - k, 0, 0
  {
    match Occupant(hw.levels[k].lines, slot)
    case None => hw
    case Some(b) =>
      var removed := WithLines(hw, k, hw.levels[k].lines - {b});
      if hw.levels[k].lines[b].dirty then Push(removed, k + 1, b, hw.levels[k].lines[b].data) else removed
  }

  /** Invalidate one slot: its line is lost, dirty or not. */
  ghost function Invalidate(hw: Hardware, k: nat, slot: Slot): (r: Hardware)
    requires |hw.levels| == LEVELS && k < LEVELS
    ensures SameShape(r, hw)
  {
    match Occupant(hw.levels[k].lines, slot)
    case None => hw
    case Some(b) => WithLines(hw, k, hw.levels[k].lines - {b})
  }

  /** A clean line is brought into level `k`, by a read or speculatively, with what the
      levels below show of its block. */
  ghost function Fill(hw: Hardware, k: nat, b: nat): (r: Hardware)
    requires |hw.levels| == LEVELS && k < LEVELS
    ensures SameShape(r, hw)
  {
    if !HasData(hw, k) || b in hw.levels[k].lines then hw else Allocate(hw, k, b, View(hw, k + 1, b), false)
  }

  /** A byte is written through the caches: the line is filled with what the processor
      sees of the block, and the byte merged into it. */
  ghost function CachedWrite(hw: Hardware, a: nat, v: byte): (r: Hardware)
    requires |hw.levels| == LEVELS
    ensures SameShape(r, hw)
  {
    Push(hw, 0, BlockOf(hw, a), WithByte(View(hw, 0, BlockOf(hw, a)), OffsetOf(hw, a), v))
  }

  /** A byte is written past the caches. */
  function UncachedWrite(hw: Hardware, a: nat, v: byte): Hardware {
    var b := BlockOf(hw, a);
    hw.(memory := hw.memory[b := WithByte(MemoryBlock(hw, b), OffsetOf(hw, a), v)])
  }

  // ---- What these operations keep ----

  /** Seen from level `k`, the block's newest bytes are the same, it is no dirtier, and
      its clean copies agree if they did. */
  ghost predicate Same(r: Hardware, hw: Hardware, k: nat, b: nat)
    requires |r.levels| == |hw.levels| == LEVELS
  {
    && Newest(r, k, b) == Newest(hw, k, b)
    && (DirtyFrom(r, k, b) ==> DirtyFrom(hw, k, b))
    && (Coherent(hw, k, b) ==> Coherent(r, k, b))
  }

  /** Besides, the block has no copy if it had none. */
  ghost predicate Kept(r: Hardware, hw: Hardware, k: nat, b: nat)
    requires |r.levels| == |hw.levels| == LEVELS
  {
    Same(r, hw, k, b) && (HasLine(r, k, b) ==> HasLine(hw, k, b))
  }

  ghost predicate KeepsFrom(r: Hardware, hw: Hardware, k: nat)
    requires |r.levels| == |hw.levels| == LEVELS
  {
    forall b :: Kept(r, hw, k, b)
  }

  ghost predicate KeepsOthers(r: Hardware, hw: Hardware, k: nat, b: nat)
    requires |r.levels| == |hw.levels| == LEVELS
  {
    forall c :: c != b ==> Kept(r, hw, k, c)
  }

  predicate SameAbove(r: Hardware, hw: Hardware, k: nat)
    requires |r.levels| == |hw.levels| == LEVELS
  {
    forall j :: 0 <= j < LEVELS && j < k ==> r.levels[j] == hw.levels[j]
  }

  lemma {:induction false} SameLift(r: Hardware, hw: Hardware, j: nat, k: nat, b: nat)
    requires |r.levels| == |hw.levels| == LEVELS && j <= k <= LEVELS
    requires SameAbove(r, hw, k) && Same(r, hw, k, b)
    ensures Same(r, hw, j, b)
    decreases k - j
  {
    if j < k {
      SameLift(r, hw, j + 1, k, b);
    }
  }

  lemma {:induction false} LineLift(r: Hardware, hw: Hardware, j: nat, k: nat, b: nat)
    requires |r.levels| == |hw.levels| == LEVELS && j <= k <= LEVELS
    requires SameAbove(r, hw, k) && (HasLine(r, k, b) ==> HasLine(hw, k, b))
    ensures HasLine(r, j, b) ==> HasLine(hw, j, b)
    decreases k - j
  {
    if j < k {
      LineLift(r, hw, j + 1, k, b);
    }
  }

  lemma KeptLift(r: Hardware, hw: Hardware, j: nat, k: nat, b: nat)
    requires |r.levels| == |hw.levels| == LEVELS && j <= k <= LEVELS
    requires SameAbove(r, hw, k) && Kept(r, hw, k, b)
    ensures Kept(r, hw, j, b)
  {
    hide Same, SameAbove;
    SameLift(r, hw, j, k, b);
    LineLift(r, hw, j, k, b);
  }

  lemma KeepsLift(r: Hardware, hw: Hardware, k: nat)
    requires |r.levels| == |hw.levels| == LEVELS && k <= LEVELS
    requires SameAbove(r, hw, k) && KeepsFrom(r, hw, k)
    ensures KeepsFrom(r, hw, 0)
  {
    hide Kept, SameAbove;
    forall b
      ensures Kept(r, hw, 0, b)
    {
      KeptLift(r, hw, 0, k, b);
    }
  }

  lemma {:induction false} EqualBelow(r: Hardware, hw: Hardware, k: nat, b: nat)
    requires |r.levels| == |hw.levels| == LEVELS && r.memory == hw.memory && r.lineBits == hw.lineBits
    requires forall j :: k <= j < LEVELS ==> r.levels[j] == hw.levels[j]
    ensures Newest(r, k, b) == Newest(hw, k, b) && DirtyFrom(r, k, b) == DirtyFrom(hw, k, b)
    ensures HasLine(r, k, b) == HasLine(hw, k, b) && Coherent(r, k, b) == Coherent(hw, k, b)
    decreases LEVELS - k
  {
    hide LineSize;
    if k < LEVELS {
      EqualBelow(r, hw, k + 1, b);
    }
  }

  /** Changing level `k` alone, seen from level `k`. */
  lemma AfterWithLines(hw: Hardware, k: nat, lines: map<nat, Line>, b: nat)
    requires |hw.levels| == LEVELS && k < LEVELS
    ensures var r := WithLines(hw, k, lines);
      && Newest(r, k, b) == (if b in lines && lines[b].dirty then lines[b].data else Newest(hw, k + 1, b))
      && (DirtyFrom(r, k, b) <==> (b in lines && lines[b].dirty) || DirtyFrom(hw, k + 1, b))
      && (HasLine(r, k, b) <==> b in lines || HasLine(hw, k + 1, b))
      && (Coherent(r, k, b)
          <==> (b in lines && !lines[b].dirty ==> lines[b].data == Newest(hw, k + 1, b)) && Coherent(hw, k + 1, b))
  {
    hide LineSize;
    EqualBelow(WithLines(hw, k, lines), hw, k + 1, b);
  }

  /** A block that the change does not touch. */
  lemma UntouchedByWithLines(hw: Hardware, k: nat, lines: map<nat, Line>, b: nat)
    requires |hw.levels| == LEVELS && k < LEVELS
    requires (b in lines <==> b in hw.levels[k].lines) && (b in lines ==> lines[b] == hw.levels[k].lines[b])
    ensures Kept(WithLines(hw, k, lines), hw, k, b)
  {
    hide LineSize;
    AfterWithLines(hw, k, lines, b);
  }

  lemma WfWithLines(hw: Hardware, k: nat, lines: map<nat, Line>)
    requires Wf(hw) && k < LEVELS && (lines != map[] ==> HasData(hw, k))
    requires WfLevel(hw.levels[k].(lines := lines), LineSize(hw.lineBits))
    ensures Wf(WithLines(hw, k, lines))
  {
    hide WfLevel, CacheType, LineSize;
  }

  lemma WfMinus(l: Level, size: nat, b: nat)
    requires WfLevel(l, size)
    ensures WfLevel(l.(lines := l.lines - {b}), size)
  {
    hide Addressable, InGeometry;
  }

  lemma WfPlus(l: Level, size: nat, b: nat, line: Line)
    requires WfLevel(l, size) && InGeometry(l.ccsidr, line.slot) && |line.data| == size
    requires forall c :: c in l.lines && c != b ==> l.lines[c].slot != line.slot
    ensures WfLevel(l.(lines := l.lines[b := line]), size)
  {
    hide Addressable, InGeometry;
  }

  /** A line pushed into level `k` is the newest of its block there; no other is lost. */
  lemma {:induction false} PushEffect(hw: Hardware, k: nat, b: nat, data: seq<byte>)
    requires Wf(hw) && k <= LEVELS && |data| == LineSize(hw.lineBits)
    ensures var r := Push(hw, k, b, data);
      && Wf(r) && SameAbove(r, hw, k) && KeepsOthers(r, hw, k, b)
      && Newest(r, k, b) == data && (Coherent(hw, k, b) ==> Coherent(r, k, b))
    decreases LEVELS - k, 1
  {
    hide LineSize, CacheType, WfLevel, Allocate, Kept;
    if k == LEVELS {
      PushToMemory(hw, b, data);
    } else if !HasData(hw, k) {
      PushEffect(hw, k + 1, b, data);
      PushPastLevel(hw, k, b, data);
    } else if b in hw.levels[k].lines {
      PushHit(hw, k, b, data);
    } else {
      AllocateEffect(hw, k, b, data, true);
    }
  }

  lemma PushToMemory(hw: Hardware, b: nat, data: seq<byte>)
    requires Wf(hw) && |data| == LineSize(hw.lineBits)
    ensures var r := hw.(memory := hw.memory[b := data]);
      Wf(r) && KeepsOthers(r, hw, LEVELS, b) && Newest(r, LEVELS, b) == data && Coherent(r, LEVELS, b)
  {
    hide LineSize, CacheType, WfLevel;
  }

  /** A level without a data cache shows what the level below it does. */
  lemma PushPastLevel(hw: Hardware, k: nat, b: nat, data: seq<byte>)
    requires Wf(hw) && k < LEVELS && !HasData(hw, k) && |data| == LineSize(hw.lineBits)
    requires var r := Push(hw, k + 1, b, data);
      && Wf(r) && SameAbove(r, hw, k + 1) && KeepsOthers(r, hw, k + 1, b)
      && Newest(r, k + 1, b) == data && (Coherent(hw, k + 1, b) ==> Coherent(r, k + 1, b))
    ensures var r := Push(hw, k + 1, b, data);
      && KeepsOthers(r, hw, k, b)
      && Newest(r, k, b) == data && (Coherent(hw, k, b) ==> Coherent(r, k, b))
  {
    hide LineSize, CacheType, WfLevel, Push, Kept;
    var r := Push(hw, k + 1, b, data);
    forall c | c != b
      ensures Kept(r, hw, k, c)
    {
      assert Kept(r, hw, k + 1, c);
      KeptLift(r, hw, k, k + 1, c);
    }
  }

  lemma PushHit(hw: Hardware, k: nat, b: nat, data: seq<byte>)
    requires Wf(hw) && k < LEVELS && HasData(hw, k) && b in hw.levels[k].lines && |data| == LineSize(hw.lineBits)
    ensures var r := WithLines(hw, k, hw.levels[k].lines[b := Line(hw.levels[k].lines[b].slot, data, true)]);
      && Wf(r) && SameAbove(r, hw, k) && KeepsOthers(r, hw, k, b)
      && Newest(r, k, b) == data && (Coherent(hw, k, b) ==> Coherent(r, k, b))
  {
    hide LineSize, CacheType, WfLevel, Kept;
    var line := Line(hw.levels[k].lines[b].slot, data, true);
    var lines := hw.levels[k].lines[b := line];
    SlotsApart(hw.levels[k], LineSize(hw.lineBits), b);
    WfPlus(hw.levels[k], LineSize(hw.lineBits), b, line);
    WfWithLines(hw, k, lines);
    AfterWithLines(hw, k, lines, b);
    forall c | c != b
      ensures Kept(WithLines(hw, k, lines), hw, k, c)
    {
      UntouchedByWithLines(hw, k, lines, c);
    }
  }

  lemma SlotsApart(l: Level, size: nat, b: nat)
    requires WfLevel(l, size) && b in l.lines
    ensures InGeometry(l.ccsidr, l.lines[b].slot) && |l.lines[b].data| == size
    ensures forall c :: c in l.lines && c != b ==> l.lines[c].slot != l.lines[b].slot
  {
    hide Addressable, InGeometry;
  }

  /** A line allocated dirty is the newest of its block; allocated clean with what lies
      below it, it changes nothing that counts. */
  lemma {:induction false} AllocateEffect(hw: Hardware, k: nat, b: nat, data: seq<byte>, dirty: bool)
    requires Wf(hw) && k < LEVELS && HasData(hw, k) && b !in hw.levels[k].lines && |data| == LineSize(hw.lineBits)
    ensures var r := Allocate(hw, k, b, data, dirty);
      && Wf(r) && SameAbove(r, hw, k) && KeepsOthers(r, hw, k, b)
      && (dirty ==> Newest(r, k, b) == data)
      && (!dirty ==> Newest(r, k, b) == Newest(hw, k, b) && (DirtyFrom(r, k, b) ==> DirtyFrom(hw, k, b)))
      && (Coherent(hw, k, b) && (dirty || data == Newest(hw, k, b)) ==> Coherent(r, k, b))
    decreases LEVELS - k, 0, 1
  {
    hide LineSize, CacheType, WfLevel, Evict, Kept, Place;
    var slot, start := Place(hw, k), hw.(tick := hw.tick + 1);
    WfTicked(hw);
    var free := Evict(start, k, slot);
    EvictEffect(start, k, slot);
    AllocateIntoFree(hw, free, k, b, Line(slot, data, dirty));
  }

  lemma WfTicked(hw: Hardware)
    requires Wf(hw)
    ensures Wf(hw.(tick := hw.tick + 1))
  {
    hide WfLevel, CacheType;
  }

  lemma AllocateIntoFree(hw: Hardware, free: Hardware, k: nat, b: nat, line: Line)
    requires Wf(hw) && Wf(free) && SameShape(free, hw) && k < LEVELS && HasData(hw, k) && b !in hw.levels[k].lines
    requires |line.data| == LineSize(hw.lineBits) && InGeometry(hw.levels[k].ccsidr, line.slot)
    requires SameAbove(free, hw, k) && LeavesOthers(free.levels[k].lines, hw.levels[k].lines, line.slot)
    requires KeepsFrom(free, hw.(tick := hw.tick + 1), k)
    ensures var r := WithLines(free, k, free.levels[k].lines[b := line]);
      && Wf(r) && SameAbove(r, hw, k) && KeepsOthers(r, hw, k, b)
      && (line.dirty ==> Newest(r, k, b) == line.data)
      && (!line.dirty ==> Newest(r, k, b) == Newest(hw, k, b) && (DirtyFrom(r, k, b) ==> DirtyFrom(hw, k, b)))
      && (Coherent(hw, k, b) && (line.dirty || line.data == Newest(hw, k, b)) ==> Coherent(r, k, b))
  {
    hide LineSize, WfLevel, Kept, CacheType;
    var lines := free.levels[k].lines[b := line];
    WfPlus(free.levels[k], LineSize(free.lineBits), b, line);
    WfWithLines(free, k, lines);
    forall c | c != b
      ensures Kept(WithLines(free, k, lines), hw, k, c)
    {
      AllocateOther(hw, free, k, b, line, c);
    }
    AllocateOwn(hw, free, k, b, line);
  }

  lemma AllocateOther(hw: Hardware, free: Hardware, k: nat, b: nat, line: Line, c: nat)
    requires |free.levels| == |hw.levels| == LEVELS && k < LEVELS && c != b
    requires Kept(free, hw.(tick := hw.tick + 1), k, c)
    ensures Kept(WithLines(free, k, free.levels[k].lines[b := line]), hw, k, c)
  {
    hide LineSize;
    EqualBelow(hw.(tick := hw.tick + 1), hw, k, c);
    hide Newest, DirtyFrom, HasLine, Coherent;
    UntouchedByWithLines(free, k, free.levels[k].lines[b := line], c);
  }

  lemma AllocateOwn(hw: Hardware, free: Hardware, k: nat, b: nat, line: Line)
    requires |free.levels| == |hw.levels| == LEVELS && k < LEVELS
    requires b !in hw.levels[k].lines && b !in free.levels[k].lines
    requires Kept(free, hw.(tick := hw.tick + 1), k, b)
    ensures var r := WithLines(free, k, free.levels[k].lines[b := line]);
      && (line.dirty ==> Newest(r, k, b) == line.data)
      && (!line.dirty ==> Newest(r, k, b) == Newest(hw, k, b) && (DirtyFrom(r, k, b) ==> DirtyFrom(hw, k, b)))
      && (Coherent(hw, k, b) && (line.dirty || line.data == Newest(hw, k, b)) ==> Coherent(r, k, b))
  {
    hide LineSize;
    EqualBelow(hw.(tick := hw.tick + 1), hw, k, b);
    AfterWithLines(free, k, free.levels[k].lines[b := line], b);
  }

  /** Cleaning a slot empties it, moves no other line of the level, and loses nothing. */
  lemma {:induction false} EvictEffect(hw: Hardware, k: nat, slot: Slot)
    requires Wf(hw) && k < LEVELS
    ensures var r := Evict(hw, k, slot);
      && Wf(r) && SameAbove(r, hw, k) && KeepsFrom(r, hw, k)
      && LeavesOthers(r.levels[k].lines, hw.levels[k].lines, slot)
    decreases LEVELS - k, 0, 0
  {
    hide LineSize, CacheType, WfLevel, Kept, Push;
    match Occupant(hw.levels[k].lines, slot)
    case None =>
      forall c
        ensures Kept(hw, hw, k, c)
      {
        KeptItself(hw, k, c);
      }
    case Some(b) =>
      var removed := WithLines(hw, k, hw.levels[k].lines - {b});
      RemoveEffect(hw, k, b);
      if hw.levels[k].lines[b].dirty {
        PushEffect(removed, k + 1, b, hw.levels[k].lines[b].data);
        EvictDirty(hw, k, b, Push(removed, k + 1, b, hw.levels[k].lines[b].data));
      }
  }

  lemma KeptItself(hw: Hardware, k: nat, b: nat)
    requires |hw.levels| == LEVELS
    ensures Kept(hw, hw, k, b)
  {
  }

  /** Taking a line out of level `k` keeps every other block, and its own if it was clean. */
  lemma RemoveEffect(hw: Hardware, k: nat, b: nat)
    requires Wf(hw) && k < LEVELS && b in hw.levels[k].lines
    ensures var r := WithLines(hw, k, hw.levels[k].lines - {b});
      && Wf(r) && SameAbove(r, hw, k) && KeepsOthers(r, hw, k, b)
      && (!hw.levels[k].lines[b].dirty ==> KeepsFrom(r, hw, k))
      && LeavesOthers(r.levels[k].lines, hw.levels[k].lines, hw.levels[k].lines[b].slot)
      && |hw.levels[k].lines[b].data| == LineSize(hw.lineBits)
  {
    hide LineSize, CacheType, WfLevel, Kept;
    var lines := hw.levels[k].lines - {b};
    assert WfLevel(hw.levels[k], LineSize(hw.lineBits));
    SlotsApart(hw.levels[k], LineSize(hw.lineBits), b);
    WfMinus(hw.levels[k], LineSize(hw.lineBits), b);
    WfWithLines(hw, k, lines);
    forall c | c != b || !hw.levels[k].lines[b].dirty
      ensures Kept(WithLines(hw, k, lines), hw, k, c)
    {
      RemovedBlock(hw, k, b, c);
    }
  }

  lemma RemovedBlock(hw: Hardware, k: nat, b: nat, c: nat)
    requires |hw.levels| == LEVELS && k < LEVELS && b in hw.levels[k].lines
    requires c != b || !hw.levels[k].lines[b].dirty
    ensures Kept(WithLines(hw, k, hw.levels[k].lines - {b}), hw, k, c)
  {
    hide LineSize;
    AfterWithLines(hw, k, hw.levels[k].lines - {b}, c);
  }

  /** A dirty line that went from level `k` into the level below. */
  lemma EvictDirty(hw: Hardware, k: nat, b: nat, r: Hardware)
    requires |hw.levels| == |r.levels| == LEVELS && k < LEVELS && b in hw.levels[k].lines && hw.levels[k].lines[b].dirty
    requires var removed := WithLines(hw, k, hw.levels[k].lines - {b});
      && KeepsOthers(removed, hw, k, b) && SameAbove(r, removed, k + 1) && KeepsOthers(r, removed, k + 1, b)
      && Newest(r, k + 1, b) == hw.levels[k].lines[b].data
      && (Coherent(removed, k + 1, b) ==> Coherent(r, k + 1, b))
    ensures SameAbove(r, hw, k) && KeepsFrom(r, hw, k) && r.levels[k].lines == hw.levels[k].lines - {b}
  {
    hide LineSize, Kept;
    var removed := WithLines(hw, k, hw.levels[k].lines - {b});
    forall c | c != b
      ensures Kept(r, hw, k, c)
    {
      assert Kept(r, removed, k + 1, c) && Kept(removed, hw, k, c);
      KeptLift(r, removed, k, k + 1, c);
      KeptTwice(r, removed, hw, k, c);
    }
    EvictedOwn(hw, k, b, r);
  }

  lemma KeptTwice(r: Hardware, mid: Hardware, hw: Hardware, k: nat, b: nat)
    requires |r.levels| == |mid.levels| == |hw.levels| == LEVELS
    requires Kept(r, mid, k, b) && Kept(mid, hw, k, b)
    ensures Kept(r, hw, k, b)
  {
  }

  lemma EvictedOwn(hw: Hardware, k: nat, b: nat, r: Hardware)
    requires |hw.levels| == |r.levels| == LEVELS && k < LEVELS && b in hw.levels[k].lines && hw.levels[k].lines[b].dirty
    requires b !in r.levels[k].lines && Newest(r, k + 1, b) == hw.levels[k].lines[b].data
    requires Coherent(WithLines(hw, k, hw.levels[k].lines - {b}), k + 1, b) ==> Coherent(r, k + 1, b)
    ensures Kept(r, hw, k, b)
  {
    hide LineSize;
    EqualBelow(WithLines(hw, k, hw.levels[k].lines - {b}), hw, k + 1, b);
  }

  /** The lines that are not in `slot` stay as they are; the slot is empty. */
  ghost predicate LeavesOthers(now: map<nat, Line>, before: map<nat, Line>, slot: Slot) {
    && (forall b :: b in now ==> b in before && now[b] == before[b] && before[b].slot != slot)
    && (forall b :: b in before && before[b].slot != slot ==> b in now)
  }

  /** A fill changes nothing that counts; it may bring in a copy of its own block. */
  lemma FillEffect(hw: Hardware, k: nat, b: nat)
    requires Wf(hw) && k < LEVELS
    ensures var r := Fill(hw, k, b);
      && Wf(r) && SameAbove(r, hw, k) && KeepsOthers(r, hw, 0, b) && Same(r, hw, 0, b)
  {
    hide LineSize, CacheType, WfLevel, Allocate, Kept, Same;
    var r := Fill(hw, k, b);
    if HasData(hw, k) && b !in hw.levels[k].lines {
      BlockSizes(hw, k + 1, b);
      AllocateEffect(hw, k, b, View(hw, k + 1, b), false);
      FilledOwn(hw, k, b, r);
      forall c | c != b
        ensures Kept(r, hw, 0, c)
      {
        assert Kept(r, hw, k, c);
        KeptLift(r, hw, 0, k, c);
      }
    } else {
      forall c
        ensures Kept(r, hw, 0, c)
      {
        KeptItself(hw, 0, c);
      }
      SameOfKept(r, hw, 0, b);
    }
  }

  lemma SameOfKept(r: Hardware, hw: Hardware, k: nat, b: nat)
    requires |r.levels| == |hw.levels| == LEVELS && Kept(r, hw, k, b)
    ensures Same(r, hw, k, b)
  {
  }

  lemma FilledOwn(hw: Hardware, k: nat, b: nat, r: Hardware)
    requires |hw.levels| == |r.levels| == LEVELS && k < LEVELS && b !in hw.levels[k].lines && SameAbove(r, hw, k)
    requires Newest(r, k, b) == Newest(hw, k, b) && (DirtyFrom(r, k, b) ==> DirtyFrom(hw, k, b))
    requires Coherent(hw, k, b) && View(hw, k + 1, b) == Newest(hw, k, b) ==> Coherent(r, k, b)
    ensures Same(r, hw, 0, b)
  {
    hide LineSize;
    if Coherent(hw, k, b) {
      ViewIsNewest(hw, k + 1, b);
    }
    SameLift(r, hw, 0, k, b);
  }
}
