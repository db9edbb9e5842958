/** Set/way maintenance of the whole hierarchy: word by word, level by level upwards,
    with clean lines arriving between any two instructions. */
module CacheMaintenance {
  import opened Wrappers
  import opened Bits
  import opened SetWay
  import opened CacheHardware

  predicate IsOperation(op: nat) {
    op == INVAL_ALL || op == CLEAN_INVAL_ALL
  }

  /** One maintenance instruction: the hardware takes the word apart. */
  ghost function MaintWord(hw: Hardware, op: nat, word: nat): (r: Hardware)
    requires |hw.levels| == LEVELS
    ensures SameShape(r, hw)
  {
    var k := WordLevel(word);
    if k >= LEVELS then hw
    else if op == INVAL_ALL then Invalidate(hw, k, WordSlot(hw.levels[k].ccsidr, word))
    else Evict(hw, k, WordSlot(hw.levels[k].ccsidr, word))
  }

  /** A line that the hardware brings in on its own. */
  datatype Filled = Filled(level: nat, block: nat)

  ghost function DoFill(hw: Hardware, f: Filled): (r: Hardware)
    requires |hw.levels| == LEVELS
    ensures SameShape(r, hw)
  {
    if f.level < LEVELS then Fill(hw, f.level, f.block) else hw
  }

  ghost function DoFills(hw: Hardware, fs: seq<Filled>): (r: Hardware)
    requires |hw.levels| == LEVELS
    ensures SameShape(r, hw)
    decreases |fs|
  {
    if fs == [] then hw else DoFills(DoFill(hw, fs[0]), fs[1..])
  }

  /** `arrivals[i]` comes in before instruction `i`; nothing comes in after the list. */
  type Arrivals = seq<seq<Filled>>

  function NextArrivals(arrivals: Arrivals): seq<Filled> {
    if arrivals == [] then [] else arrivals[0]
  }

  function LaterArrivals(arrivals: Arrivals, n: nat): Arrivals {
    if n <= |arrivals| then arrivals[n..] else []
  }

  ghost function MaintWords(hw: Hardware, op: nat, ws: seq<nat>, arrivals: Arrivals): (r: Hardware)
    requires |hw.levels| == LEVELS
    ensures SameShape(r, hw)
    decreases |ws|
  {
    if ws == [] then hw
    else MaintWords(MaintWord(DoFills(hw, NextArrivals(arrivals)), op, ws[0]), op, ws[1..], LaterArrivals(arrivals, 1))
  }

  /** Any other operation code issues no instruction. */
  function OperationWords(op: nat, ccsidr: u32, k: nat): seq<nat>
    requires k < LEVELS
  {
    if IsOperation(op) then LevelWords(ccsidr, k) else []
  }

  ghost function MaintLevel(hw: Hardware, op: nat, k: nat, arrivals: Arrivals): (r: Hardware)
    requires |hw.levels| == LEVELS && k < LEVELS
    ensures SameShape(r, hw)
  {
    MaintWords(hw, op, OperationWords(op, hw.levels[k].ccsidr, k), arrivals)
  }

  /** What is left to arrive after level `k` is done. */
  function AfterLevel(hw: Hardware, op: nat, k: nat, arrivals: Arrivals): Arrivals
    requires |hw.levels| == LEVELS && k < LEVELS
  {
    if HasData(hw, k) then LaterArrivals(arrivals, |OperationWords(op, hw.levels[k].ccsidr, k)|) else arrivals
  }

  /** The levels from `k` up that have a data cache, in ascending order. */
  ghost function MaintFrom(hw: Hardware, op: nat, k: nat, arrivals: Arrivals): (r: Hardware)
    requires |hw.levels| == LEVELS
    ensures SameShape(r, hw)
    decreases LEVELS - k
  {
    if k >= LEVELS then hw
    else MaintFrom(if HasData(hw, k) then MaintLevel(hw, op, k, arrivals) else hw, op, k + 1, AfterLevel(hw, op, k, arrivals))
  }

  // ---- Nothing arrives: maintenance empties the caches ----

  /** Invalidating a slot empties it and moves no other line of the level. */
  lemma InvalidateEffect(hw: Hardware, k: nat, slot: Slot)
    requires Wf(hw) && k < LEVELS
    ensures var r := Invalidate(hw, k, slot);
      && Wf(r) && SameAbove(r, hw, k) && r.memory == hw.memory
      && LeavesOthers(r.levels[k].lines, hw.levels[k].lines, slot)
  {
    hide WfLevel, CacheType, Kept;
    match Occupant(hw.levels[k].lines, slot)
    case None =>
    case Some(b) => RemoveEffect(hw, k, b);
  }

  lemma MaintWordEffect(hw: Hardware, op: nat, k: nat, word: nat)
    requires Wf(hw) && IsOperation(op) && k < LEVELS && IsSlotWord(hw.levels[k].ccsidr, k, word)
    ensures var r := MaintWord(hw, op, word);
      && Wf(r) && SameAbove(r, hw, k) && (op == INVAL_ALL ==> r.memory == hw.memory)
      && (op == CLEAN_INVAL_ALL ==> KeepsFrom(r, hw, k))
      && LeavesOthers(r.levels[k].lines, hw.levels[k].lines, WordSlot(hw.levels[k].ccsidr, word))
  {
    hide WfCaches, KeepsFrom, SameAbove, LeavesOthers, Evict, Invalidate, WordSlot, WordLevel, SlotWord;
    var slot := WordSlot(hw.levels[k].ccsidr, word);
    if op == INVAL_ALL {
      InvalidateEffect(hw, k, slot);
    } else {
      EvictEffect(hw, k, slot);
    }
  }

  /** What is left of level `k` after the words `ws`: untouched lines of other slots. */
  ghost predicate OnlyOthersLeft(now: Level, before: Level, k: nat, ws: seq<nat>)
    requires k < LEVELS && forall b :: b in before.lines ==> InGeometry(before.ccsidr, before.lines[b].slot)
  {
    forall b :: b in now.lines
      ==> b in before.lines && now.lines[b] == before.lines[b] && SlotWord(before.ccsidr, k, before.lines[b].slot) !in ws
  }

  lemma LinesInGeometry(hw: Hardware, k: nat)
    requires Wf(hw) && k < LEVELS
    ensures Addressable(hw.levels[k].ccsidr)
    ensures forall b :: b in hw.levels[k].lines ==> InGeometry(hw.levels[k].ccsidr, hw.levels[k].lines[b].slot)
  {
    hide InGeometry, Addressable, CacheType;
    assert WfLevel(hw.levels[k], LineSize(hw.lineBits));
  }

  lemma {:induction false} MaintWordsEffect(hw: Hardware, op: nat, k: nat, ws: seq<nat>)
    requires Wf(hw) && IsOperation(op) && k < LEVELS
    requires forall w :: w in ws ==> IsSlotWord(hw.levels[k].ccsidr, k, w)
    requires forall b :: b in hw.levels[k].lines ==> InGeometry(hw.levels[k].ccsidr, hw.levels[k].lines[b].slot)
    ensures var r := MaintWords(hw, op, ws, []);
      && Wf(r) && SameAbove(r, hw, k) && (op == INVAL_ALL ==> r.memory == hw.memory)
      && OnlyOthersLeft(r.levels[k], hw.levels[k], k, ws)
    decreases |ws|
  {
    hide WfCaches, KeepsFrom, MaintWord, WordSlot, WordLevel, SlotWord, InGeometry, Addressable, IsSlotWord;
    if ws != [] {
      var next := MaintWord(hw, op, ws[0]);
      MaintWordEffect(hw, op, k, ws[0]);
      LinesInGeometry(hw, k);
      MaintWordsEffect(next, op, k, ws[1..]);
      var r := MaintWords(hw, op, ws, []);
      assert r == MaintWords(next, op, ws[1..], []);
      forall b | b in r.levels[k].lines
        ensures b in hw.levels[k].lines && r.levels[k].lines[b] == hw.levels[k].lines[b]
        ensures SlotWord(hw.levels[k].ccsidr, k, hw.levels[k].lines[b].slot) !in ws
      {
        OtherWord(hw.levels[k].ccsidr, k, ws[0], hw.levels[k].lines[b].slot);
        assert ws == [ws[0]] + ws[1..];
      }
    }
  }

  lemma OtherWord(ccsidr: u32, k: nat, word: nat, slot: Slot)
    requires k < LEVELS && IsSlotWord(ccsidr, k, word) && InGeometry(ccsidr, slot) && Addressable(ccsidr)
    requires slot != WordSlot(ccsidr, word)
    ensures SlotWord(ccsidr, k, slot) != word
  {
    hide SlotWord, WordSlot, Addressable;
    SlotWordRoundTrip(ccsidr, k, slot);
  }

  /** Maintaining a level undisturbed empties it. */
  lemma MaintLevelEffect(hw: Hardware, op: nat, k: nat)
    requires Wf(hw) && IsOperation(op) && k < LEVELS
    ensures var r := MaintLevel(hw, op, k, []);
      Wf(r) && SameAbove(r, hw, k) && (op == INVAL_ALL ==> r.memory == hw.memory) && r.levels[k].lines == map[]
  {
    hide WfCaches, SlotWord, LevelWords, MaintWords, IsSlotWord, SameAbove, Addressable;
    var l, ws := hw.levels[k], LevelWords(hw.levels[k].ccsidr, k);
    LinesInGeometry(hw, k);
    LoopsCoverSlots(l.ccsidr, k);
    MaintWordsEffect(hw, op, k, ws);
    var now := MaintLevel(hw, op, k, []).levels[k].lines;
    forall b
      ensures b !in now
    {
      if b in l.lines {
        assert SlotWord(l.ccsidr, k, l.lines[b].slot) in ws;
      }
    }
    assert now.Keys == {};
  }

  predicate EmptyBelow(hw: Hardware, k: nat)
    requires |hw.levels| == LEVELS
  {
    forall j :: 0 <= j < LEVELS && j < k ==> hw.levels[j].lines == map[]
  }

  lemma {:induction false} MaintFromEffect(hw: Hardware, op: nat, k: nat)
    requires Wf(hw) && IsOperation(op) && k <= LEVELS && EmptyBelow(hw, k)
    ensures var r := MaintFrom(hw, op, k, []);
      Wf(r) && EmptyBelow(r, LEVELS) && (op == INVAL_ALL ==> r.memory == hw.memory)
    decreases LEVELS - k
  {
    hide MaintLevel, WfCaches, HasData, OperationWords;
    if k < LEVELS {
      var next := if HasData(hw, k) then MaintLevel(hw, op, k, []) else hw;
      if HasData(hw, k) {
        MaintLevelEffect(hw, op, k);
      } else {
        EmptyWithoutData(hw, k);
      }
      MaintFromEffect(next, op, k + 1);
    }
  }

  lemma EmptyWithoutData(hw: Hardware, k: nat)
    requires Wf(hw) && k < LEVELS && !HasData(hw, k)
    ensures hw.levels[k].lines == map[]
  {
  }

  lemma {:induction false} EmptyIsMemory(hw: Hardware, k: nat, b: nat)
    requires |hw.levels| == LEVELS && EmptyBelow(hw, LEVELS)
    ensures Newest(hw, k, b) == MemoryBlock(hw, b) && !DirtyFrom(hw, k, b)
    ensures !HasLine(hw, k, b) && Coherent(hw, k, b)
    decreases LEVELS - k
  {
    if k < LEVELS {
      EmptyIsMemory(hw, k + 1, b);
    }
  }

  lemma {:induction false} CleanIsMemory(hw: Hardware, k: nat, b: nat)
    requires |hw.levels| == LEVELS && !DirtyFrom(hw, k, b)
    ensures Newest(hw, k, b) == MemoryBlock(hw, b)
    decreases LEVELS - k
  {
    if k < LEVELS {
      CleanIsMemory(hw, k + 1, b);
    }
  }

  /** Invalidating all levels leaves every cache empty and memory as it was: it discards
      the newest bytes of a block exactly where memory does not hold them already. */
  lemma InvalidateAllDiscards(hw: Hardware)
    requires Wf(hw)
    ensures var r := MaintFrom(hw, INVAL_ALL, 0, []);
      && Wf(r) && EmptyBelow(r, LEVELS) && NoDirty(r) && r.memory == hw.memory
      && forall b :: Newest(r, 0, b) == Newest(hw, 0, b) <==> MemoryBlock(hw, b) == Newest(hw, 0, b)
  {
    hide WfCaches, Newest, DirtyFrom, LineSize;
    MaintFromEffect(hw, INVAL_ALL, 0);
    var r := MaintFrom(hw, INVAL_ALL, 0, []);
    forall b
      ensures Newest(r, 0, b) == MemoryBlock(hw, b) && !DirtyFrom(r, 0, b)
    {
      EmptyIsMemory(r, 0, b);
    }
  }

  // ---- Lines arrive meanwhile: cleaning still loses nothing ----

  /** No newest byte anywhere is lost. */
  ghost predicate SameEverywhere(r: Hardware, hw: Hardware)
    requires |r.levels| == |hw.levels| == LEVELS
  {
    forall b :: Same(r, hw, 0, b)
  }

  lemma SameItself(hw: Hardware)
    requires |hw.levels| == LEVELS
    ensures SameEverywhere(hw, hw)
  {
  }

  lemma SameThrough(r: Hardware, mid: Hardware, hw: Hardware)
    requires |r.levels| == |mid.levels| == |hw.levels| == LEVELS
    requires SameEverywhere(r, mid) && SameEverywhere(mid, hw)
    ensures SameEverywhere(r, hw)
  {
    hide Newest, DirtyFrom, Coherent;
    forall b
      ensures Same(r, hw, 0, b)
    {
      assert Same(r, mid, 0, b) && Same(mid, hw, 0, b);
    }
  }

  /** No level above `k` holds a dirty line. */
  predicate CleanAbove(hw: Hardware, k: nat)
    requires |hw.levels| == LEVELS
  {
    forall j, b :: 0 <= j < LEVELS && j < k && b in hw.levels[j].lines ==> !hw.levels[j].lines[b].dirty
  }

  /** The slots of level `k` that the words `done` name hold no dirty line. */
  ghost predicate Settled(hw: Hardware, k: nat, done: seq<nat>)
    requires |hw.levels| == LEVELS && k < LEVELS
    requires forall b :: b in hw.levels[k].lines ==> InGeometry(hw.levels[k].ccsidr, hw.levels[k].lines[b].slot)
  {
    forall b :: b in hw.levels[k].lines && hw.levels[k].lines[b].dirty
      ==> SlotWord(hw.levels[k].ccsidr, k, hw.levels[k].lines[b].slot) !in done
  }

  /** Every dirty line of `now` was the same dirty line before. */
  predicate NoNewDirty(now: map<nat, Line>, before: map<nat, Line>) {
    forall b :: b in now && now[b].dirty ==> b in before && now[b] == before[b]
  }

  lemma EvictClean(hw: Hardware, k: nat, slot: Slot)
    requires |hw.levels| == LEVELS && k < LEVELS
    requires forall b :: b in hw.levels[k].lines ==> !hw.levels[k].lines[b].dirty
    ensures forall j :: 0 <= j < LEVELS && j != k ==> Evict(hw, k, slot).levels[j] == hw.levels[j]
    ensures forall b :: b in Evict(hw, k, slot).levels[k].lines ==> !Evict(hw, k, slot).levels[k].lines[b].dirty
  {
    hide Push;
  }

  /** An arrival makes no line dirty in any level up to `k` if those above `k` are clean. */
  lemma FillNoNewDirty(hw: Hardware, f: Filled, k: nat)
    requires Wf(hw) && k < LEVELS && CleanAbove(hw, k)
    ensures var r := DoFill(hw, f);
      && Wf(r) && SameEverywhere(r, hw) && CleanAbove(r, k)
      && NoNewDirty(r.levels[k].lines, hw.levels[k].lines)
  {
    hide WfCaches, Same, Kept, Evict, HasData, Place;
    if f.level < LEVELS {
      FillSame(hw, f);
      if f.level < k {
        EvictClean(hw.(tick := hw.tick + 1), f.level, Place(hw, f.level));
      } else {
        FillAtOrBelow(hw, f, k);
      }
    } else {
      SameItself(hw);
    }
  }

  lemma FillSame(hw: Hardware, f: Filled)
    requires Wf(hw) && f.level < LEVELS
    ensures Wf(DoFill(hw, f)) && SameEverywhere(DoFill(hw, f), hw)
  {
    hide WfCaches, Same, Fill;
    FillEffect(hw, f.level, f.block);
    var r := DoFill(hw, f);
    forall b
      ensures Same(r, hw, 0, b)
    {
      if b != f.block {
        assert Kept(r, hw, 0, b);
      }
    }
  }

  lemma FillAtOrBelow(hw: Hardware, f: Filled, k: nat)
    requires Wf(hw) && k <= f.level < LEVELS && CleanAbove(hw, k)
    ensures CleanAbove(DoFill(hw, f), k) && NoNewDirty(DoFill(hw, f).levels[k].lines, hw.levels[k].lines)
  {
    hide WfCaches, Same, Kept, KeepsFrom, KeepsOthers, Evict, HasData, Place;
    FillEffect(hw, f.level, f.block);
    if f.level == k && HasData(hw, k) && f.block !in hw.levels[k].lines {
      WfTicked(hw);
      EvictEffect(hw.(tick := hw.tick + 1), k, Place(hw, k));
    }
  }

  lemma SettledByNoNewDirty(r: Hardware, hw: Hardware, k: nat, done: seq<nat>)
    requires Wf(r) && Wf(hw) && SameShape(r, hw) && k < LEVELS
    requires forall b :: b in hw.levels[k].lines ==> InGeometry(hw.levels[k].ccsidr, hw.levels[k].lines[b].slot)
    requires Settled(hw, k, done) && NoNewDirty(r.levels[k].lines, hw.levels[k].lines)
    ensures forall b :: b in r.levels[k].lines ==> InGeometry(r.levels[k].ccsidr, r.levels[k].lines[b].slot)
    ensures Settled(r, k, done)
  {
    hide WfCaches, InGeometry, SlotWord;
    LinesInGeometry(r, k);
  }

  /** The state in the middle of cleaning level `k`. */
  ghost predicate MidClean(hw: Hardware, k: nat, done: seq<nat>)
    requires |hw.levels| == LEVELS && k < LEVELS
  {
    && Wf(hw) && CleanAbove(hw, k)
    && (forall b :: b in hw.levels[k].lines ==> InGeometry(hw.levels[k].ccsidr, hw.levels[k].lines[b].slot))
    && Settled(hw, k, done)
  }

  lemma {:induction false} FillsMidClean(hw: Hardware, fs: seq<Filled>, k: nat, done: seq<nat>)
    requires |hw.levels| == LEVELS && k < LEVELS && MidClean(hw, k, done)
    ensures MidClean(DoFills(hw, fs), k, done) && SameEverywhere(DoFills(hw, fs), hw)
    decreases |fs|
  {
    hide WfCaches, SameEverywhere, CleanAbove, Settled, InGeometry, DoFill, NoNewDirty;
    if fs == [] {
      SameItself(hw);
    } else {
      var next := DoFill(hw, fs[0]);
      FillNoNewDirty(hw, fs[0], k);
      SettledByNoNewDirty(next, hw, k, done);
      FillsMidClean(next, fs[1..], k, done);
      SameThrough(DoFills(hw, fs), next, hw);
    }
  }

  lemma WordMidClean(hw: Hardware, k: nat, word: nat, done: seq<nat>)
    requires |hw.levels| == LEVELS && k < LEVELS && MidClean(hw, k, done) && IsSlotWord(hw.levels[k].ccsidr, k, word)
    ensures var r := MaintWord(hw, CLEAN_INVAL_ALL, word); MidClean(r, k, done + [word]) && SameEverywhere(r, hw)
  {
    hide WfCaches, Kept, Same, MaintWord, SlotWord, WordSlot, WordLevel, InGeometry, Addressable, IsSlotWord;
    var r := MaintWord(hw, CLEAN_INVAL_ALL, word);
    MaintWordEffect(hw, CLEAN_INVAL_ALL, k, word);
    LinesInGeometry(hw, k);
    LinesInGeometry(r, k);
    KeepsIsSame(r, hw, k);
    forall b | b in r.levels[k].lines && r.levels[k].lines[b].dirty
      ensures SlotWord(r.levels[k].ccsidr, k, r.levels[k].lines[b].slot) !in done + [word]
    {
      OtherWord(hw.levels[k].ccsidr, k, word, hw.levels[k].lines[b].slot);
    }
  }

  lemma KeepsIsSame(r: Hardware, hw: Hardware, k: nat)
    requires |r.levels| == |hw.levels| == LEVELS && k <= LEVELS && SameAbove(r, hw, k) && KeepsFrom(r, hw, k)
    ensures SameEverywhere(r, hw)
  {
    hide Same, SameAbove;
    KeepsLift(r, hw, k);
    forall b
      ensures Same(r, hw, 0, b)
    {
      assert Kept(r, hw, 0, b);
    }
  }

  lemma {:induction false} WordsMidClean(hw: Hardware, k: nat, ws: seq<nat>, done: seq<nat>, arrivals: Arrivals)
    requires |hw.levels| == LEVELS && k < LEVELS && MidClean(hw, k, done)
    requires forall w :: w in ws ==> IsSlotWord(hw.levels[k].ccsidr, k, w)
    ensures var r := MaintWords(hw, CLEAN_INVAL_ALL, ws, arrivals); MidClean(r, k, done + ws) && SameEverywhere(r, hw)
    decreases |ws|
  {
    hide MidClean, SameEverywhere, MaintWord, DoFills, IsSlotWord;
    if ws == [] {
      SameItself(hw);
      assert done + ws == done;
    } else {
      var filled := DoFills(hw, NextArrivals(arrivals));
      var next := MaintWord(filled, CLEAN_INVAL_ALL, ws[0]);
      FillsMidClean(hw, NextArrivals(arrivals), k, done);
      WordMidClean(filled, k, ws[0], done);
      WordsMidClean(next, k, ws[1..], done + [ws[0]], LaterArrivals(arrivals, 1));
      assert done + [ws[0]] + ws[1..] == done + ws;
      var r := MaintWords(hw, CLEAN_INVAL_ALL, ws, arrivals);
      SameThrough(next, filled, hw);
      SameThrough(r, next, hw);
    }
  }

  lemma LevelMidClean(hw: Hardware, k: nat, arrivals: Arrivals)
    requires Wf(hw) && k < LEVELS && CleanAbove(hw, k)
    ensures var r := MaintLevel(hw, CLEAN_INVAL_ALL, k, arrivals);
      Wf(r) && CleanAbove(r, k + 1) && SameEverywhere(r, hw)
  {
    hide WfCaches, SlotWord, LevelWords, MaintWords, IsSlotWord, Addressable, SameEverywhere, InGeometry;
    var ccsidr := hw.levels[k].ccsidr;
    var ws := LevelWords(ccsidr, k);
    LinesInGeometry(hw, k);
    LoopsCoverSlots(ccsidr, k);
    WordsMidClean(hw, k, ws, [], arrivals);
    assert [] + ws == ws;
    var r := MaintLevel(hw, CLEAN_INVAL_ALL, k, arrivals);
    forall b | b in r.levels[k].lines
      ensures !r.levels[k].lines[b].dirty
    {
      assert SlotWord(ccsidr, k, r.levels[k].lines[b].slot) in ws;
    }
  }

  lemma {:induction false} CleanFromMidst(hw: Hardware, k: nat, arrivals: Arrivals)
    requires Wf(hw) && k <= LEVELS && CleanAbove(hw, k)
    ensures var r := MaintFrom(hw, CLEAN_INVAL_ALL, k, arrivals);
      Wf(r) && CleanAbove(r, LEVELS) && SameEverywhere(r, hw)
    decreases LEVELS - k
  {
    hide WfCaches, SameEverywhere, MaintLevel, HasData, OperationWords;
    SameItself(hw);
    if k < LEVELS {
      var next := if HasData(hw, k) then MaintLevel(hw, CLEAN_INVAL_ALL, k, arrivals) else hw;
      if HasData(hw, k) {
        LevelMidClean(hw, k, arrivals);
      } else {
        EmptyWithoutData(hw, k);
      }
      CleanFromMidst(next, k + 1, AfterLevel(hw, CLEAN_INVAL_ALL, k, arrivals));
      SameThrough(MaintFrom(hw, CLEAN_INVAL_ALL, k, arrivals), next, hw);
    }
  }

  lemma {:induction false} CleanAboveIsClean(hw: Hardware, k: nat, b: nat)
    requires |hw.levels| == LEVELS && CleanAbove(hw, LEVELS)
    ensures !DirtyFrom(hw, k, b)
    decreases LEVELS - k
  {
    if k < LEVELS {
      CleanAboveIsClean(hw, k + 1, b);
    }
  }

  /** Cleaning all levels upwards puts the newest bytes of every block into memory and
      leaves nothing dirty, whatever the hardware's placement and replacement, and
      whatever lines it brings in between any two instructions. */
  lemma CleanAllReachesMemory(hw: Hardware, arrivals: Arrivals)
    requires Wf(hw)
    ensures var r := MaintFrom(hw, CLEAN_INVAL_ALL, 0, arrivals);
      && Wf(r) && NoDirty(r)
      && forall b :: Newest(r, 0, b) == MemoryBlock(r, b) == Newest(hw, 0, b)
  {
    hide WfCaches, Newest, DirtyFrom, Coherent, LineSize;
    CleanFromMidst(hw, 0, arrivals);
    var r := MaintFrom(hw, CLEAN_INVAL_ALL, 0, arrivals);
    forall b
      ensures Newest(r, 0, b) == MemoryBlock(r, b) == Newest(hw, 0, b) && !DirtyFrom(r, 0, b)
    {
      CleanAboveIsClean(r, 0, b);
      CleanIsMemory(r, 0, b);
      assert Same(r, hw, 0, b);
    }
  }

  /** Undisturbed, it also leaves every cache empty. */
  lemma CleanAllEmpties(hw: Hardware)
    requires Wf(hw)
    ensures EmptyBelow(MaintFrom(hw, CLEAN_INVAL_ALL, 0, []), LEVELS)
  {
    hide WfCaches;
    MaintFromEffect(hw, CLEAN_INVAL_ALL, 0);
  }

  /** One level of the ascent, as the loop takes it. */
  lemma MaintFromStep(hw: Hardware, op: nat, k: nat, arrivals: Arrivals)
    requires Wf(hw) && k < LEVELS
    ensures var next := if HasData(hw, k) then MaintLevel(hw, op, k, arrivals) else hw;
      && MaintFrom(hw, op, k, arrivals) == MaintFrom(next, op, k + 1, AfterLevel(hw, op, k, arrivals))
      && Wf(next) && SameShape(next, hw)
  {
    hide WfCaches, HasData, LevelWords, IsSlotWord, Addressable;
    if HasData(hw, k) && IsOperation(op) {
      LinesInGeometry(hw, k);
      LoopsCoverSlots(hw.levels[k].ccsidr, k);
      WordsKeepWf(hw, op, k, LevelWords(hw.levels[k].ccsidr, k), arrivals);
    }
  }

  lemma {:induction false} FillsKeepWf(hw: Hardware, fs: seq<Filled>)
    requires Wf(hw)
    ensures Wf(DoFills(hw, fs)) && SameEverywhere(DoFills(hw, fs), hw)
    decreases |fs|
  {
    hide WfCaches, SameEverywhere, Fill;
    SameItself(hw);
    if fs != [] {
      if fs[0].level < LEVELS {
        FillSame(hw, fs[0]);
      }
      FillsKeepWf(DoFill(hw, fs[0]), fs[1..]);
      SameThrough(DoFills(hw, fs), DoFill(hw, fs[0]), hw);
    }
  }

  lemma {:induction false} WordsKeepWf(hw: Hardware, op: nat, k: nat, ws: seq<nat>, arrivals: Arrivals)
    requires Wf(hw) && IsOperation(op) && k < LEVELS && forall w :: w in ws ==> IsSlotWord(hw.levels[k].ccsidr, k, w)
    ensures Wf(MaintWords(hw, op, ws, arrivals))
    decreases |ws|
  {
    hide WfCaches, KeepsFrom, MaintWord, WordSlot, IsSlotWord, DoFills;
    if ws != [] {
      var filled := DoFills(hw, NextArrivals(arrivals));
      FillsKeepWf(hw, NextArrivals(arrivals));
      MaintWordEffect(filled, op, k, ws[0]);
      WordsKeepWf(MaintWord(filled, op, ws[0]), op, k, ws[1..], LaterArrivals(arrivals, 1));
    }
  }

  // ---- Why the levels go upwards ----

  lemma {:induction false} EmptyLevelUntouched(hw: Hardware, op: nat, k: nat, ws: seq<nat>)
    requires |hw.levels| == LEVELS && k < LEVELS && hw.levels[k].lines == map[]
    requires forall w :: w in ws ==> WordLevel(w) == k
    ensures MaintWords(hw, op, ws, []) == hw
    decreases |ws|
  {
    hide WordLevel, WordSlot;
    if ws != [] {
      assert MaintWord(hw, op, ws[0]) == hw;
      EmptyLevelUntouched(hw, op, k, ws[1..]);
    }
  }

  lemma {:induction false} LoneLineMovesDown(hw: Hardware, b: nat, line: Line, ws: seq<nat>)
    requires |hw.levels| == LEVELS && HasData(hw, 1) && line.dirty && Addressable(hw.levels[0].ccsidr)
    requires hw.levels[0].lines == map[b := line] && hw.levels[1].lines == map[]
    requires forall w :: w in ws ==> IsSlotWord(hw.levels[0].ccsidr, 0, w)
    requires InGeometry(hw.levels[0].ccsidr, line.slot) && SlotWord(hw.levels[0].ccsidr, 0, line.slot) in ws
    ensures var r := MaintWords(hw, CLEAN_INVAL_ALL, ws, []);
      DirtyFrom(r, 1, b) && r.memory == hw.memory
    decreases |ws|
  {
    hide WordSlot, SlotWord, InGeometry, WordLevel, HasData, Evict, DirtyFrom;
    assert ws[0] in ws && forall w :: w in ws[1..] ==> w in ws;
    var next := MaintWord(hw, CLEAN_INVAL_ALL, ws[0]);
    if WordSlot(hw.levels[0].ccsidr, ws[0]) == line.slot {
      LoneLineEvicted(hw, b, line);
      EmptyLevelUntouched(next, CLEAN_INVAL_ALL, 0, ws[1..]);
    } else {
      OtherSlotUntouched(hw, b, line, WordSlot(hw.levels[0].ccsidr, ws[0]));
      OtherWord(hw.levels[0].ccsidr, 0, ws[0], line.slot);
      LoneLineMovesDown(hw, b, line, ws[1..]);
    }
  }

  lemma OtherSlotUntouched(hw: Hardware, b: nat, line: Line, slot: Slot)
    requires |hw.levels| == LEVELS && hw.levels[0].lines == map[b := line] && slot != line.slot
    ensures Evict(hw, 0, slot) == hw
  {
  }

  lemma LoneLineEvicted(hw: Hardware, b: nat, line: Line)
    requires |hw.levels| == LEVELS && HasData(hw, 1) && hw.levels[0].lines == map[b := line] && line.dirty
    requires hw.levels[1].lines == map[]
    ensures var r := Evict(hw, 0, line.slot);
      r.levels[0].lines == map[] && DirtyFrom(r, 1, b) && r.memory == hw.memory
  {
    hide HasData;
    assert b in hw.levels[0].lines && hw.levels[0].lines[b].slot == line.slot;
    assert Occupant(hw.levels[0].lines, line.slot) == Some(b);
    var removed := WithLines(hw, 0, hw.levels[0].lines - {b});
    assert removed.levels[0].lines == map[];
    assert HasData(removed, 1) by {
      SameClidrSameData(removed, hw, 1);
    }
    var started := removed.(tick := removed.tick + 1);
    assert Evict(started, 1, Place(removed, 1)) == started;
  }

  lemma SameClidrSameData(r: Hardware, hw: Hardware, k: nat)
    requires r.clidr == hw.clidr
    ensures HasData(r, k) == HasData(hw, k)
  {
  }

  /** Cleaning level 1 before level 0 would not do: a lone dirty line of level 0 then ends
      up dirty in level 1, and memory never sees its bytes. */
  lemma DownwardsLeavesDirty(hw: Hardware, b: nat, line: Line)
    requires Wf(hw) && HasData(hw, 0) && HasData(hw, 1)
    requires hw.levels[0].lines == map[b := line] && line.dirty && hw.levels[1].lines == map[]
    ensures var r := MaintLevel(MaintLevel(hw, CLEAN_INVAL_ALL, 1, []), CLEAN_INVAL_ALL, 0, []);
      DirtyFrom(r, 1, b) && r.memory == hw.memory
  {
    hide LevelWords, SlotWord, HasData, DirtyFrom, IsSlotWord, WfCaches, Addressable;
    LinesInGeometry(hw, 0);
    LinesInGeometry(hw, 1);
    LoopsCoverSlots(hw.levels[0].ccsidr, 0);
    LoopsCoverSlots(hw.levels[1].ccsidr, 1);
    SlotWordsAreOfLevel(hw.levels[1].ccsidr, 1);
    EmptyLevelUntouched(hw, CLEAN_INVAL_ALL, 1, LevelWords(hw.levels[1].ccsidr, 1));
    assert b in hw.levels[0].lines && hw.levels[0].lines[b] == line;
    LoneLineMovesDown(hw, b, line, LevelWords(hw.levels[0].ccsidr, 0));
  }

  lemma SlotWordsAreOfLevel(ccsidr: u32, k: nat)
    requires k < LEVELS && Addressable(ccsidr)
    ensures forall w :: w in LevelWords(ccsidr, k) ==> WordLevel(w) == k
  {
    hide LevelWords, WordLevel, WordSlot, SlotWord;
    LoopsCoverSlots(ccsidr, k);
  }
}
