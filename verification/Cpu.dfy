/** The cache code as the source writes it: nested countdown loops that issue set/way
    words, and control-register updates around them. The caches themselves are ghost:
    only instructions reach them. */
module Cpu {
  import opened Bits
  import opened SetWay
  import opened CacheHardware
  import opened CacheMaintenance
  import opened CpuState

  lemma {:induction false} AndOfPredecessor(n: nat)
    requires n > 0
    ensures BitAnd(n, n - 1) == 0 <==> n == LeadingPower(n)
  {
    if n % 2 == 0 {
      AndOfPredecessor(n / 2);
      assert (n - 1) / 2 == n / 2 - 1;
    } else if n > 1 {
      AndWithItself(n / 2);
      assert BitAnd(n, n - 1) == 2 * BitAnd(n / 2, (n - 1) / 2);
    }
  }

  lemma {:induction false} AndWithItself(n: nat)
    ensures BitAnd(n, n) == n
  {
    if n > 0 {
      AndWithItself(n / 2);
    }
  }

  /** The greatest power of two that does not exceed `n`. */
  function LeadingPower(n: nat): (p: nat)
    requires n > 0
    ensures 0 < p <= n
  {
    if n == 1 then 1 else 2 * LeadingPower(n / 2)
  }

  lemma {:induction false} LeadingPowerIs(n: nat, k: nat)
    requires Pow2(k) <= n < Pow2(k + 1)
    ensures LeadingPower(n) == Pow2(k)
  {
    if k > 0 {
      LeadingPowerIs(n / 2, k - 1);
    } else {
      assert Pow2(1) == 2;
    }
  }

  lemma HalveAgain(n: nat, k: nat)
    requires Shr(n, k) != 0
    ensures Pow2(k) <= n
  {
    ShrIsDiv(n, k);
    if n < Pow2(k) {
      DivModUnique(n, Pow2(k), 0, n);
    }
  }

  lemma AllShiftedOut(n: nat, k: nat)
    requires Shr(n, k) == 0
    ensures n < Pow2(k)
  {
    ShlOfShr(n, k);
    ShlIsMul(0, k);
  }

  /** The ceiling of log2 for every n >= 1, and -1 for 0. */
  method Log2NRoundUp(n: u32) returns (log2: int)
    ensures log2 == if n == 0 then -1 else CeilLog2(n)
  {
    hide BitAnd, Pow2, CeilLog2;
    var log2n, temp: nat := -1, n;
    while temp != 0
      invariant -1 <= log2n && temp == Shr(n, log2n + 1)
      invariant log2n >= 0 ==> Pow2(log2n) <= n
      invariant log2n == -1 ==> temp == n
      decreases temp
    {
      HalveAgain(n, log2n + 1);
      ShrTwice(n, log2n + 1, 1);
      log2n := log2n + 1;
      temp := Shr(temp, 1);
    }
    AllShiftedOut(n, log2n + 1);
    SmallPowers();
    if n == 0 {
      NothingToAnd();
    } else {
      RoundUp(n, log2n);
    }
    if BitAnd(n, (n - 1) % 0x1_0000_0000) != 0 {
      return log2n + 1;
    } else {
      return log2n;
    }
  }

  lemma NothingToAnd()
    ensures BitAnd(0, 0xFFFF_FFFF) == 0
  {
  }

  lemma RoundUp(n: nat, k: nat)
    requires n > 0 && Pow2(k) <= n < Pow2(k + 1)
    ensures CeilLog2(n) == if BitAnd(n, n - 1) != 0 then k + 1 else k
  {
    hide BitAnd, CeilLog2;
    AndOfPredecessor(n);
    LeadingPowerIs(n, k);
    if n == Pow2(k) {
      if k > 0 {
        Pow2Step(k);
      }
      CeilLog2Unique(n, k);
    } else {
      CeilLog2Unique(n, k + 1);
    }
  }

  lemma {:induction false} ShrOfAnd(a: nat, b: nat, k: nat)
    ensures Shr(BitAnd(a, b), k) == BitAnd(Shr(a, k), Shr(b, k))
  {
    if k > 0 {
      ShrOfAnd(a, b, k - 1);
      HalfOfAnd(Shr(a, k - 1), Shr(b, k - 1));
    }
  }

  lemma HalfOfAnd(a: nat, b: nat)
    ensures BitAnd(a, b) / 2 == BitAnd(a / 2, b / 2)
  {
  }

  /** `(x & (mask << at)) >> at` where the mask is `width` ones. */
  lemma MaskedField(x: nat, at: nat, width: nat)
    ensures Shr(BitAnd(x, Shl(Pow2(width) - 1, at)), at) == Shr(x, at) % Pow2(width)
  {
    hide BitAnd;
    ShrOfAnd(x, Shl(Pow2(width) - 1, at), at);
    ShrOfShl(Pow2(width) - 1, at, 0);
    AndMaskIsMod(Shr(x, at), width);
  }

  class Cpu {
    const clidr: u32
    const ccsidrs: seq<u32>
    const tableAddress: u32
    const pageTable: array<nat>

    ghost var hw: Hardware
    var cr: u32
    var dramStart: u32
    var dramSize: u32

    constructor (clidr: u32, ccsidrs: seq<u32>, pageTable: array<nat>, tableAddress: u32, cr: u32, ghost hw: Hardware)
      requires Wf(hw) && hw.clidr == clidr && pageTable.Length == 4096
      requires |ccsidrs| == LEVELS && forall k :: 0 <= k < LEVELS ==> ccsidrs[k] == hw.levels[k].ccsidr
      ensures Valid() && Now() == State(hw, cr, pageTable[..], tableAddress, 0, 0)
      ensures this.pageTable == pageTable
    {
      this.clidr, this.ccsidrs, this.pageTable, this.tableAddress := clidr, ccsidrs, pageTable, tableAddress;
      this.cr, this.hw := cr, hw;
      dramStart, dramSize := 0, 0;
    }

    /** bi_dram_0_set_ranges */
    method SetRanges(start: u32, size: u32)
      requires Valid()
      modifies this`dramStart, this`dramSize
      ensures Valid() && Now() == Step(old(Now()), Event.SetRanges(start, size))
    {
      dramStart, dramSize := start, size;
    }

    ghost predicate Valid()
      reads this, pageTable
    {
      && Wf(hw) && hw.clidr == clidr && pageTable.Length == 4096
      && |ccsidrs| == LEVELS && forall k :: 0 <= k < LEVELS ==> ccsidrs[k] == hw.levels[k].ccsidr
    }

    ghost function Now(): State
      reads this, pageTable
    {
      State(hw, cr, pageTable[..], tableAddress, dramStart, dramSize)
    }

    /** `(x >> 3 * level) & 0x7` of CLIDR, with a data or unified cache. */
    lemma CacheTypeBits(level: nat)
      ensures BitAnd(Shr(clidr, 3 * level), 7) == CacheType(clidr, level)
    {
      assert Pow2(3) == 8;
      AndMaskIsMod(Shr(clidr, 3 * level), 3);
    }

    lemma CcsidrFields(ccsidr: u32)
      ensures BitAnd(ccsidr, 7) + 2 + 2 == LineBits(ccsidr)
      ensures Shr(BitAnd(ccsidr, Shl(0x3FF, 3)), 3) + 1 == Ways(ccsidr)
      ensures Shr(BitAnd(ccsidr, Shl(0x7FFF, 13)), 13) + 1 == Sets(ccsidr)
    {
      hide BitAnd, Pow2, Shl;
      SmallPowers();
      Pow2Add(5, 5);
      Pow2Add(8, 5);
      Pow2Add(8, 7);
      AndMaskIsMod(ccsidr, 3);
      MaskedField(ccsidr, 3, 10);
      MaskedField(ccsidr, 13, 15);
      ShrIsDiv(ccsidr, 3);
      ShrIsDiv(ccsidr, 13);
    }

    /** A maintenance instruction by set and way, after the lines that arrive before it. */
    ghost method Issue(op: nat, word: nat, arrived: seq<Filled>)
      requires |hw.levels| == LEVELS
      modifies this`hw
      ensures hw == MaintWord(DoFills(old(hw), arrived), op, word)
    {
      hw := MaintWord(DoFills(hw, arrived), op, word);
    }

    /** The loops of both set/way functions, which differ in the instruction they issue:
        ways and sets count down. `arrivals` are lines that the hardware brings in. */
    method DcacheLevelSetway(op: nat, level: nat, numSets: nat, numWays: nat, wayShift: nat, log2LineLen: nat,
                             ghost arrivals: Arrivals)
      requires |hw.levels| == LEVELS && level < LEVELS
      requires var c := hw.levels[level].ccsidr;
        numSets == Sets(c) && numWays == Ways(c) && wayShift == WayShift(c) && log2LineLen == LineBits(c)
      modifies this`hw
      ensures hw == MaintWords(old(hw), op, LevelWords(old(hw).levels[level].ccsidr, level), arrivals)
    {
      hide MaintWord, DoFills, NextArrivals, LaterArrivals;
      ghost var c, rest := hw.levels[level].ccsidr, arrivals;
      ghost var result := MaintWords(hw, op, LevelWords(c, level), arrivals);
      var way := numWays - 1;
      while way >= 0
        invariant -1 <= way < numWays && |hw.levels| == LEVELS
        invariant MaintWords(hw, op, WayWords(c, level, way + 1), rest) == result
        decreases way
      {
        var setIndex := numSets - 1;
        assert WayWords(c, level, way + 1) == SetWords(c, level, way, setIndex + 1) + WayWords(c, level, way);
        while setIndex >= 0
          invariant -1 <= setIndex < numSets && |hw.levels| == LEVELS
          invariant MaintWords(hw, op, SetWords(c, level, way, setIndex + 1) + WayWords(c, level, way), rest) == result
          decreases setIndex
        {
          var setway := BitOr(BitOr(Shl32(level, 1), Shl32(setIndex, log2LineLen)), Shl32(way, wayShift));
          NextWord(c, level, way, setIndex);
          Issue(op, setway, NextArrivals(rest));
          rest := LaterArrivals(rest, 1);
          setIndex := setIndex - 1;
        }
        assert SetWords(c, level, way, 0) + WayWords(c, level, way) == WayWords(c, level, way);
        way := way - 1;
      }
    }

    lemma NextWord(ccsidr: u32, level: nat, way: nat, setIndex: nat)
      requires level < 7 && way < 1024 && setIndex < 32768
      ensures var ws := SetWords(ccsidr, level, way, setIndex + 1) + WayWords(ccsidr, level, way);
        && ws[0] == Word(level, setIndex, way, LineBits(ccsidr), WayShift(ccsidr))
        && ws[1..] == SetWords(ccsidr, level, way, setIndex) + WayWords(ccsidr, level, way)
    {
      hide Word, Sets, WayShift, LineBits, WayWords;
      var first, rest := Word(level, setIndex, way, LineBits(ccsidr), WayShift(ccsidr)), SetWords(ccsidr, level, way, setIndex);
      assert SetWords(ccsidr, level, way, setIndex + 1) == [first] + rest;
      hide SetWords;
      assert [first] + rest + WayWords(ccsidr, level, way) == [first] + (rest + WayWords(ccsidr, level, way));
    }

    method MaintDcacheLevelSetway(level: nat, operation: nat, ghost arrivals: Arrivals)
      requires Valid() && level < LEVELS
      modifies this`hw
      ensures hw == MaintLevel(old(hw), operation, level, arrivals)
    {
      hide BitAnd, WfCaches, MaintWords, LevelWords;
      NoInstruction(hw, operation, arrivals);
      var ccsidr := ccsidrs[level];
      CcsidrFields(ccsidr);
      var log2LineLen := BitAnd(ccsidr, 7) + 2;
      log2LineLen := log2LineLen + 2;
      var numWays := Shr(BitAnd(ccsidr, Shl(0x3FF, 3)), 3) + 1;
      var numSets := Shr(BitAnd(ccsidr, Shl(0x7FFF, 13)), 13) + 1;
      var log2NumWays := Log2NRoundUp(numWays);
      WayBits(ccsidr);
      var wayShift := 32 - log2NumWays;
      if operation == INVAL_ALL || operation == CLEAN_INVAL_ALL {
        DcacheLevelSetway(operation, level, numSets, numWays, wayShift, log2LineLen, arrivals);
      }
    }

    lemma NoInstruction(hw: Hardware, op: nat, arrivals: Arrivals)
      requires |hw.levels| == LEVELS
      ensures MaintWords(hw, op, [], arrivals) == hw
    {
    }

    method MaintDcacheAll(operation: nat, ghost arrivals: Arrivals)
      requires Valid()
      modifies this`hw
      ensures Valid() && hw == MaintFrom(old(hw), operation, 0, arrivals)
    {
      hide BitAnd, WfCaches, MaintLevel, MaintFrom, AfterLevel, CacheType, Shr;
      var level, levelStartBit := 0, 0;
      ghost var rest := arrivals;
      ghost var result := MaintFrom(hw, operation, 0, arrivals);
      while level < 7
        invariant level <= 7 && levelStartBit == 3 * level
        invariant Valid()
        invariant MaintFrom(hw, operation, level, rest) == result
      {
        CacheTypeBits(level);
        MaintFromStep(hw, operation, level, rest);
        ghost var later := AfterLevel(hw, operation, level, rest);
        var cacheType := BitAnd(Shr(clidr, levelStartBit), 7);
        if cacheType == 2 || cacheType == 3 || cacheType == 4 {
          MaintDcacheLevelSetway(level, operation, rest);
        }
        rest := later;
        levelStartBit := levelStartBit + 3;
        level := level + 1;
      }
      NothingAbove(hw, operation, rest);
    }

    lemma NothingAbove(hw: Hardware, op: nat, arrivals: Arrivals)
      requires |hw.levels| == LEVELS
      ensures MaintFrom(hw, op, LEVELS, arrivals) == hw
    {
    }

    /** Identity mapping of all 4 GB, then the DRAM sections made cacheable. */
    method MmuSetup()
      requires Valid()
      modifies this`cr, pageTable
      ensures pageTable[..] == PageTable(dramStart, dramSize, tableAddress)
      ensures cr == SetBits(old(cr), CR_M)
    {
      hide SectionEntry, SetBits;
      var i := 0;
      while i < 4096
        invariant 0 <= i <= 4096 && cr == old(cr)
        invariant forall j :: 0 <= j < i ==> pageTable[j] == SectionEntry(j, UNCACHED_SETUP)
      {
        pageTable[i] := SectionEntry(i, UNCACHED_SETUP);
        i := i + 1;
      }
      DramBankMmuSetup();
      cr := SetBits(cr, CR_M);
    }

    method DramBankMmuSetup()
      requires pageTable.Length == 4096
      requires forall j :: 0 <= j < 4096 ==> pageTable[j] == SectionEntry(j, UNCACHED_SETUP)
      modifies pageTable
      ensures pageTable[..] == PageTable(dramStart, dramSize, tableAddress)
    {
      hide SectionEntry;
      var skip := tableAddress / 0x10_0000;
      var i := dramStart / 0x10_0000;
      var end := (dramStart + dramSize) % 0x1_0000_0000 / 0x10_0000;
      ghost var first := i;
      while i < end
        invariant first <= i && (i <= end || i == first) && i <= 4096
        invariant forall j | 0 <= j < 4096 ::
          pageTable[j] == SectionEntry(j, if first <= j < i && j != skip then CACHE_SETUP else UNCACHED_SETUP)
      {
        if i != skip {
          pageTable[i] := SectionEntry(i, CACHE_SETUP);
        }
        i := i + 1;
      }
    }

    method CacheEnable(cacheBit: u32)
      requires Valid() && (cacheBit == CR_C || cacheBit == CR_I)
      modifies this`cr, pageTable
      ensures Valid() && Now() == EnableControl(old(Now()), cacheBit)
    {
      hide SetBits, PageTable, IsSet, WfCaches;
      TestBit(cr, M_BIT, CR_M);
      if cacheBit == CR_C && BitAnd(cr, CR_M) == 0 {
        MmuSetup();
      }
      var reg := cr;
      cr := SetBits(reg, cacheBit);
    }

    lemma TestBit(x: u32, k: nat, mask: u32)
      requires mask == Pow2(k)
      ensures BitAnd(x, mask) == (if IsSet(x, k) then mask else 0)
    {
      AndSingleBit(x, k);
      ShrIsDiv(x, k);
    }

    method EnableCaches()
      requires Valid()
      modifies this`cr, pageTable
      ensures Valid() && Now() == Step(old(Now()), Event.EnableCaches)
    {
      CacheEnable(CR_I);
      CacheEnable(CR_C);
    }

    method FlushDcacheAll(ghost arrivals: Arrivals)
      requires Valid()
      modifies this`hw
      ensures Valid() && hw == MaintFrom(old(hw), CLEAN_INVAL_ALL, 0, arrivals)
    {
      MaintDcacheAll(CLEAN_INVAL_ALL, arrivals);
    }

    method InvalidateDcacheAll()
      requires Valid()
      modifies this`hw
      ensures Valid() && hw == MaintFrom(old(hw), INVAL_ALL, 0, [])
    {
      MaintDcacheAll(INVAL_ALL, []);
    }

    /** `arrivals` and `late` are the lines that the hardware brings in during the flush
        and after it. */
    method CacheDisable(cacheBit: u32, ghost arrivals: Arrivals, ghost late: seq<Filled>)
      requires Valid() && (cacheBit == CR_C || cacheBit == CR_I)
      modifies this`hw, this`cr
      ensures Valid() && Now() == DisableControl(old(Now()), cacheBit, arrivals, late)
    {
      hide ClearBits, IsSet, MaintFrom, DoFills, WfCaches;
      var reg := cr;
      var bits := cacheBit;
      if cacheBit == CR_C {
        assert Pow2(2) == 4;
        TestBit(reg, C_BIT, CR_C);
        if BitAnd(reg, CR_C) != CR_C {
          return;
        }
        OrOfControlBits();
        bits := BitOr(bits, CR_M);
        FlushDcacheAll(arrivals);
        FillsKeepWf(hw, late);
        hw := DoFills(hw, late);
      }
      cr := ClearBits(reg, bits);
    }

    /** Caches off, and, by `CleanupSafe` from any safe state, memory current. */
    method CleanupBeforeLinux(ghost arrivals: Arrivals, ghost late: seq<Filled>, ghost last: Image)
      requires Valid()
      modifies this`hw, this`cr
      ensures Valid() && Now() == Step(old(Now()), Cleanup(arrivals, late))
      ensures Safe(old(Now()), last) ==> forall a: nat :: MemoryAt(hw, a) == last(a)
    {
      hide DisableControl, Safe, MaintFrom, NoDirty, WfCaches, PageTable, MemoryAt;
      if Safe(Now(), last) {
        CleanupSafe(Now(), arrivals, late, last);
      }
      CacheDisable(CR_I, [], []);
      CacheDisable(CR_C, arrivals, late);
      InvalidateDcacheAll();
    }
  }
}
