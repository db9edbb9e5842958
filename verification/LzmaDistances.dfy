/** Match distances: a position slot, then direct bits and a reverse bit tree.
    A distance here is the 32-bit word before the decoder's final increment. */
module LzmaDistances {
  import opened Wrappers
  import opened Bits
  import opened LzmaContexts
  import opened LzmaRangeDecoder
  import opened LzmaSymbols

  /** The position slot of a distance: its two leading bits and its length. */
  function SlotOf(d: nat): nat {
    if d < START_POS_MODEL_INDEX then d else SlotOf(d / 2) + 2
  }

  /** The number of bits of `d` below the two that `slot` names. */
  function LowBits(slot: nat): nat {
    if slot < START_POS_MODEL_INDEX then 0 else slot / 2 - 1
  }

  lemma {:induction false} SlotLeadingBits(d: nat)
    requires d >= START_POS_MODEL_INDEX
    ensures SlotOf(d) >= START_POS_MODEL_INDEX
    ensures Shr(d, LowBits(SlotOf(d))) == 2 + SlotOf(d) % 2
  {
    if d >= 8 {
      SlotLeadingBits(d / 2);
      ShrOfHalf(d, LowBits(SlotOf(d)));
    } else {
      assert SlotOf(d / 2) == d / 2;
      assert Shr(d, 1) == Shr(d, 0) / 2;
    }
  }

  lemma {:induction false} LeadingBitsSlot(d: nat, slot: nat)
    requires slot >= START_POS_MODEL_INDEX && Shr(d, LowBits(slot)) == 2 + slot % 2
    ensures d >= START_POS_MODEL_INDEX && SlotOf(d) == slot
  {
    ShrOfHalf(d, LowBits(slot));
    if slot >= 6 {
      LeadingBitsSlot(d / 2, slot - 2);
    } else {
      assert Shr(d / 2, 0) == d / 2;
      assert SlotOf(d / 2) == d / 2;
    }
  }

  /** A 32-bit distance has one of the 64 slots that six bits can name. */
  lemma {:induction false} SlotBound(d: nat, k: nat)
    requires k >= 2 && d < Pow2(k)
    ensures SlotOf(d) < 2 * k
  {
    if d >= START_POS_MODEL_INDEX {
      SlotBound(d / 2, k - 1);
    }
  }

  lemma {:induction false} SlotWidth(d: nat, slot: nat, k: nat)
    requires 4 <= slot < 2 * k && Shr(d, LowBits(slot)) == 2 + slot % 2
    ensures d < Pow2(k)
  {
    ShrOfHalf(d, LowBits(slot));
    if slot >= 6 {
      SlotWidth(d / 2, slot - 2, k - 1);
    } else {
      assert Shr(d / 2, 0) == d / 2;
      Pow2Monotone(3, k);
      assert Pow2(3) == 8;
    }
  }

  // ---- Slots 4 to 13: all low bits in a reverse tree of the slot's own ----

  function SpecDecode(pr: Props, inp: seq<byte>, m: Machine, slot: nat): (r: Option<(nat, Machine)>)
    requires Ok(pr, m) && START_POS_MODEL_INDEX <= slot < END_POS_MODEL_INDEX
    ensures r.Some? ==> Ok(pr, r.value.1)
  {
    var (low, m') :- RevDecode(pr, inp, m, SpecPos(slot), LowBits(slot), 1);
    Some((Shl(2 + slot % 2, LowBits(slot)) + low, m'))
  }

  function SpecCode(pr: Props, slot: nat, d: nat): (ds: seq<Decision>)
    requires START_POS_MODEL_INDEX <= slot < END_POS_MODEL_INDEX && Shr(d, LowBits(slot)) == 2 + slot % 2
    ensures WfCode(pr, ds)
  {
    ShlOfShr(d, LowBits(slot));
    RevCode(pr, SpecPos(slot), LowBits(slot), 1, d - Shl(2 + slot % 2, LowBits(slot)))
  }

  lemma SpecLeadingBits(pr: Props, inp: seq<byte>, m: Machine, slot: nat)
    requires Ok(pr, m) && START_POS_MODEL_INDEX <= slot < END_POS_MODEL_INDEX
    ensures var r := SpecDecode(pr, inp, m, slot);
      r.Some? ==> Shr(r.value.0, LowBits(slot)) == 2 + slot % 2
  {
    hide Ask, RevDecode, Shl, Shr, WfCell, TreeBase, Pow2;
    SmallPowers();
    var r := RevDecode(pr, inp, m, SpecPos(slot), LowBits(slot), 1);
    if r.Some? {
      ShrOfShl(2 + slot % 2, LowBits(slot), r.value.0);
    }
  }

  lemma SpecExec(pr: Props, inp: seq<byte>, m: Machine, slot: nat, d: nat)
    requires Ok(pr, m) && START_POS_MODEL_INDEX <= slot < END_POS_MODEL_INDEX
    requires Shr(d, LowBits(slot)) == 2 + slot % 2
    ensures var r, e := SpecDecode(pr, inp, m, slot), Exec(pr, inp, m, SpecCode(pr, slot, d));
      && (r.Some? && r.value.0 == d <==> e.Some?)
      && (e.Some? ==> r.value.1 == e.value)
  {
    hide Ask, Exec, RevDecode, RevCode, Shl, Shr, WfCell, TreeBase, Pow2;
    ShlOfShr(d, LowBits(slot));
    RevExec(pr, inp, m, SpecPos(slot), d - Shl(2 + slot % 2, LowBits(slot)));
  }

  // ---- Slots 14 to 63: direct bits, then the four lowest in the align tree ----

  lemma DirectThenAlign(high: nat, low: nat, k: nat)
    requires low < 16
    ensures Shr(high * 16 + low, k + 4) == Shr(high, k)
  {
    assert Pow2(4) == 16;
    ShrIsDiv(high * 16 + low, 4);
    ShrTwice(high * 16 + low, 4, k);
  }

  function AlignDecode(pr: Props, inp: seq<byte>, m: Machine, slot: nat): (r: Option<(nat, Machine)>)
    requires Ok(pr, m) && END_POS_MODEL_INDEX <= slot
    ensures r.Some? ==> Ok(pr, r.value.1)
  {
    SmallPowers();
    var (high, m') :- DirectDecode(pr, inp, m, LowBits(slot) - 4, 2 + slot % 2);
    var (low, m'') :- RevDecode(pr, inp, m', Align, 4, 1);
    Some((high * 16 + low, m''))
  }

  function AlignCode(pr: Props, slot: nat, d: nat): (ds: seq<Decision>)
    requires END_POS_MODEL_INDEX <= slot
    ensures WfCode(pr, ds)
  {
    SmallPowers();
    DirectCode(pr, LowBits(slot) - 4, d / 16) + RevCode(pr, Align, 4, 1, d % 16)
  }

  lemma AlignLeadingBits(pr: Props, inp: seq<byte>, m: Machine, slot: nat)
    requires Ok(pr, m) && END_POS_MODEL_INDEX <= slot
    ensures var r := AlignDecode(pr, inp, m, slot);
      r.Some? ==> Shr(r.value.0, LowBits(slot)) == 2 + slot % 2
  {
    hide Ask, RevDecode, DirectDecode, Shr, WfCell, TreeBase, Pow2;
    SmallPowers();
    var r := DirectDecode(pr, inp, m, LowBits(slot) - 4, 2 + slot % 2);
    if r.Some? {
      var low := RevDecode(pr, inp, r.value.1, Align, 4, 1);
      if low.Some? {
        DirectThenAlign(r.value.0, low.value.0, LowBits(slot) - 4);
      }
    }
  }

  lemma AlignExec(pr: Props, inp: seq<byte>, m: Machine, slot: nat, d: nat)
    requires Ok(pr, m) && END_POS_MODEL_INDEX <= slot && Shr(d, LowBits(slot)) == 2 + slot % 2
    ensures var r, e := AlignDecode(pr, inp, m, slot), Exec(pr, inp, m, AlignCode(pr, slot, d));
      && (r.Some? && r.value.0 == d <==> e.Some?)
      && (e.Some? ==> r.value.1 == e.value)
  {
    hide Ask, Exec, RevDecode, RevCode, DirectDecode, DirectCode, Shr, WfCell, TreeBase, Pow2;
    SmallPowers();
    var k := LowBits(slot) - 4;
    var high, low := d / 16, d % 16;
    DirectThenAlign(high, low, k);
    DirectExec(pr, inp, m, k, high);
    ExecConcat(pr, inp, m, DirectCode(pr, k, high), RevCode(pr, Align, 4, 1, low));
    var r := DirectDecode(pr, inp, m, k, 2 + slot % 2);
    if r.Some? {
      RevExec(pr, inp, r.value.1, Align, low);
    }
  }

  // ---- Distances ----

  function DistTailDecode(pr: Props, inp: seq<byte>, m: Machine, slot: nat): (r: Option<(nat, Machine)>)
    requires Ok(pr, m) && slot < 64
    ensures r.Some? ==> Ok(pr, r.value.1)
  {
    if slot < START_POS_MODEL_INDEX then Some((slot, m))
    else if slot < END_POS_MODEL_INDEX then SpecDecode(pr, inp, m, slot)
    else AlignDecode(pr, inp, m, slot)
  }

  function DistTailCode(pr: Props, d: nat): (ds: seq<Decision>)
    ensures WfCode(pr, ds)
  {
    if d < START_POS_MODEL_INDEX then []
    else
      SlotLeadingBits(d);
      if SlotOf(d) < END_POS_MODEL_INDEX then SpecCode(pr, SlotOf(d), d) else AlignCode(pr, SlotOf(d), d)
  }

  function DistDecode(pr: Props, inp: seq<byte>, m: Machine, lenState: nat): (r: Option<(nat, Machine)>)
    requires Ok(pr, m) && lenState < NUM_LEN_TO_POS_STATES
    ensures r.Some? ==> Ok(pr, r.value.1)
  {
    SmallPowers();
    var (symbol, m') :- TreeDecode(pr, inp, m, PosSlot(lenState), 6, 1);
    DistTailDecode(pr, inp, m', symbol - 64)
  }

  function DistCode(pr: Props, lenState: nat, d: u32): (ds: seq<Decision>)
    requires lenState < NUM_LEN_TO_POS_STATES
    ensures WfCode(pr, ds)
  {
    SlotLeaf(lenState, d);
    TreeCode(pr, PosSlot(lenState), 6, 64 + SlotOf(d)) + DistTailCode(pr, d)
  }

  lemma SlotLeaf(lenState: nat, d: u32)
    ensures SlotOf(d) < 64
    ensures WfNode(PosSlot(lenState), 0, 64 + SlotOf(d)) && Levels(PosSlot(lenState)) == 6
  {
    hide SlotOf;
    SmallPowers();
    Pow2Of32();
    SlotBound(d, 32);
  }

  lemma SmallSlot(d: nat)
    ensures SlotOf(d) < START_POS_MODEL_INDEX <==> d < START_POS_MODEL_INDEX
    ensures d < START_POS_MODEL_INDEX ==> SlotOf(d) == d
  {
  }

  /** The slot that was decoded is the slot of the resulting 32-bit distance. */
  lemma DistTailSlot(pr: Props, inp: seq<byte>, m: Machine, slot: nat)
    requires Ok(pr, m) && slot < 64
    ensures var r := DistTailDecode(pr, inp, m, slot);
      r.Some? ==> SlotOf(r.value.0) == slot && r.value.0 < 0x1_0000_0000
  {
    hide SpecDecode, AlignDecode, SlotOf, Shr, LowBits;
    SmallSlot(slot);
    var r := DistTailDecode(pr, inp, m, slot);
    if r.Some? && slot >= START_POS_MODEL_INDEX {
      if slot < END_POS_MODEL_INDEX {
        SpecLeadingBits(pr, inp, m, slot);
      } else {
        AlignLeadingBits(pr, inp, m, slot);
      }
      LeadingBitsSlot(r.value.0, slot);
      SlotWidth(r.value.0, slot, 32);
      Pow2Of32();
    }
  }

  lemma DistTailExec(pr: Props, inp: seq<byte>, m: Machine, d: nat)
    requires Ok(pr, m) && SlotOf(d) < 64
    ensures var r, e := DistTailDecode(pr, inp, m, SlotOf(d)), Exec(pr, inp, m, DistTailCode(pr, d));
      && (r.Some? && r.value.0 == d <==> e.Some?)
      && (e.Some? ==> r.value.1 == e.value)
  {
    hide Exec, SpecDecode, SpecCode, AlignDecode, AlignCode, SlotOf, Shr, LowBits;
    SmallSlot(d);
    ExecNothing(pr, inp, m);
    if d >= START_POS_MODEL_INDEX {
      SlotLeadingBits(d);
      if SlotOf(d) < END_POS_MODEL_INDEX {
        SpecExec(pr, inp, m, SlotOf(d), d);
      } else {
        AlignExec(pr, inp, m, SlotOf(d), d);
      }
    }
  }

  /** The distance decoder inverts the distance code: slot, direct bits and low bits
      name every 32-bit word once, and nothing else. */
  lemma DistExec(pr: Props, inp: seq<byte>, m: Machine, lenState: nat, d: u32)
    requires Ok(pr, m) && lenState < NUM_LEN_TO_POS_STATES
    ensures var r, e := DistDecode(pr, inp, m, lenState), Exec(pr, inp, m, DistCode(pr, lenState, d));
      && (r.Some? ==> r.value.0 < 0x1_0000_0000)
      && (r.Some? && r.value.0 == d <==> e.Some?)
      && (e.Some? ==> r.value.1 == e.value)
  {
    hide Ask, Exec, TreeDecode, TreeCode, DistTailDecode, DistTailCode, SlotOf, Pow2;
    SmallPowers();
    var t := PosSlot(lenState);
    SlotLeaf(lenState, d);
    TreeExec(pr, inp, m, t, 64 + SlotOf(d));
    ExecConcat(pr, inp, m, TreeCode(pr, t, 6, 64 + SlotOf(d)), DistTailCode(pr, d));
    var slotted := TreeDecode(pr, inp, m, t, 6, 1);
    if slotted.Some? {
      var (symbol, m') := slotted.value;
      DistTailSlot(pr, inp, m', symbol - 64);
      if symbol == 64 + SlotOf(d) {
        DistTailExec(pr, inp, m', d);
      }
    }
  }
}
