/** The code of every packet, decision by decision: which context is asked and which bit is
    given, told by the decision's position and the packet's numbers. */
module LzmaFormat {
  import opened Bits
  import opened LzmaContexts
  import opened LzmaRangeDecoder
  import opened LzmaSymbols
  import opened LzmaDistances
  import opened LzmaPackets

  // ---- Numbers ----

  /** `ds` spells the `width` bits of `x` in tree `t`, highest bit first: decision `i` is asked
      at the node numbered 1 followed by the `i` bits before it. */
  predicate Spells(ds: seq<Decision>, t: Tree, width: nat, x: nat) {
    |ds| == width &&
    forall i | 0 <= i < width ::
      ds[i] == Decision(Adaptive(Node(t, Pow2(i) + Shr(x, width - i))), BitAt(x, width - 1 - i))
  }

  /** `ds` spells the `width` low bits of `x` in tree `t`, lowest bit first: again, every node
      is numbered 1 followed by the bits before it. */
  predicate SpellsBack(ds: seq<Decision>, t: Tree, width: nat, x: nat) {
    |ds| == width &&
    forall i | 0 <= i < width :: ds[i] == Decision(Adaptive(Node(t, BackNode(x, i))), BitAt(x, i))
  }

  /** 1 followed by the `i` low bits of `x`, the lowest one first. */
  function BackNode(x: nat, i: nat): nat {
    if i == 0 then 1 else 2 * BackNode(x, i - 1) + BitAt(x, i - 1)
  }

  /** `ds` are direct bits: bits `width - 1` down to `last` of `x`. */
  predicate SpellsDirect(ds: seq<Decision>, width: nat, last: nat, x: nat)
    requires last <= width
  {
    |ds| == width - last &&
    forall i | 0 <= i < width - last :: ds[i] == Decision(Direct, BitAt(x, width - 1 - i))
  }

  lemma {:induction false} ShrOfSum(width: nat, x: nat, k: nat)
    requires k <= width
    ensures Shr(Pow2(width) + x, k) == Pow2(width - k) + Shr(x, k)
  {
    if k > 0 {
      ShrOfSum(width, x, k - 1);
    }
  }

  lemma LeafOf(t: Tree, x: nat)
    requires x < Pow2(Levels(t))
    ensures WfNode(t, 0, Pow2(Levels(t)) + x)
  {
    hide Levels, Pow2;
  }

  lemma TreeSpells(pr: Props, t: Tree, x: nat)
    requires WfTree(pr, t) && WfNode(t, 0, Pow2(Levels(t)) + x)
    ensures Spells(TreeCode(pr, t, Levels(t), Pow2(Levels(t)) + x), t, Levels(t), x)
  {
    hide WfTree, WfNode, Shr, TreeCode, Levels, Pow2, BitAt, WfCode;
    var width, ds := Levels(t), TreeCode(pr, t, Levels(t), Pow2(Levels(t)) + x);
    forall i | 0 <= i < width
      ensures ds[i] == Decision(Adaptive(Node(t, Pow2(i) + Shr(x, width - i))), BitAt(x, width - 1 - i))
    {
      TreeCodeAt(pr, t, width, Pow2(width) + x, i);
      ShrOfSum(width, x, width - i);
      BitOfSum(width, x, width - 1 - i);
    }
  }

  /** The leading 1 of a node number is above all bits of `x`. */
  lemma BitOfSum(width: nat, x: nat, k: nat)
    requires k < width
    ensures BitAt(Pow2(width) + x, k) == BitAt(x, k)
  {
    hide Shr;
    ShrOfSum(width, x, k);
    assert Pow2(width - k) == 2 * Pow2(width - k - 1);
  }

  lemma {:induction false} RevCodeAt(pr: Props, t: Tree, k: nat, node: nat, low: nat, x: nat, done: nat, i: nat)
    requires WfTree(pr, t) && WfNode(t, k, node) && low < Pow2(k) && i < k
    requires low == Shr(x, done) && node == BackNode(x, done)
    ensures RevCode(pr, t, k, node, low)[i]
         == Decision(Adaptive(Node(t, BackNode(x, done + i))), BitAt(x, done + i))
    decreases k
  {
    hide WfTree, WfNode, Pow2, RevCode, WfCode, Shr, BackNode;
    Pow2Step(k);
    RevCodeStep(pr, t, k, node, low % 2, low / 2);
    OneBitFurther(x, done);
    if i > 0 {
      RevCodeAt(pr, t, k - 1, 2 * node + low % 2, low / 2, x, done + 1, i - 1);
    }
  }

  lemma OneBitFurther(x: nat, done: nat)
    ensures Shr(x, done + 1) == Shr(x, done) / 2
    ensures BackNode(x, done + 1) == 2 * BackNode(x, done) + Shr(x, done) % 2
  {
  }

  lemma RevSpells(pr: Props, t: Tree, low: nat)
    requires WfTree(pr, t) && WfNode(t, Levels(t), 1) && low < Pow2(Levels(t))
    ensures SpellsBack(RevCode(pr, t, Levels(t), 1, low), t, Levels(t), low)
  {
    hide WfTree, WfNode, Pow2, RevCode, Levels;
    assert Shr(low, 0) == low && BackNode(low, 0) == 1;
    forall i | 0 <= i < Levels(t)
      ensures RevCode(pr, t, Levels(t), 1, low)[i] == Decision(Adaptive(Node(t, BackNode(low, i))), BitAt(low, i))
    {
      RevCodeAt(pr, t, Levels(t), 1, low, low, 0, i);
    }
  }

  lemma {:induction false} DirectSpells(pr: Props, k: nat, x: nat)
    ensures SpellsDirect(DirectCode(pr, k, x), k, 0, x)
  {
    if k > 0 {
      DirectSpells(pr, k - 1, x);
      var ds := DirectCode(pr, k, x);
      forall i | 0 <= i < k
        ensures ds[i] == Decision(Direct, BitAt(x, k - 1 - i))
      {
        if i > 0 {
          assert ds[i] == DirectCode(pr, k - 1, x)[i - 1];
        }
      }
    }
  }

  // ---- Lengths ----

  /** The lengths 2 to 273: below 10 in a low tree and below 18 in a middle tree, both of
      three bits and chosen by the position, and from 18 up in a high tree of eight. */
  lemma LenCodeMeaning(pr: Props, rep: bool, posState: nat, len: nat)
    requires posState < Pow2(pr.pb) && 2 <= len <= 273
    ensures var ds := LenCode(pr, rep, posState, len - 2);
      && |ds| >= 4
      && ds[0] == Flag(LenChoice(rep), if len < 10 then 0 else 1)
      && (len < 10 ==> Spells(ds[1..], LenLow(rep, posState), 3, len - 2))
      && (len >= 10 ==> ds[1] == Flag(LenChoice2(rep), if len < 18 then 0 else 1))
      && (10 <= len < 18 ==> Spells(ds[2..], LenMid(rep, posState), 3, len - 10))
      && (18 <= len ==> Spells(ds[2..], LenHigh(rep), 8, len - 18))
  {
    hide TreeCode, Pow2, Spells, WfCode, Levels;
    LenRoots(rep, posState);
    SmallPowers();
    var ds := LenCode(pr, rep, posState, len - 2);
    var d0, d1 := Flag(LenChoice(rep), if len < 10 then 0 else 1), Flag(LenChoice2(rep), if len < 18 then 0 else 1);
    if len < 10 {
      TreeSpells(pr, LenLow(rep, posState), len - 2);
      SplitOne(ds, d0, TreeCode(pr, LenLow(rep, posState), 3, len + 6));
    } else if len < 18 {
      TreeSpells(pr, LenMid(rep, posState), len - 10);
      SplitTwo(ds, d0, d1, TreeCode(pr, LenMid(rep, posState), 3, len - 2));
    } else {
      TreeSpells(pr, LenHigh(rep), len - 18);
      SplitTwo(ds, d0, d1, TreeCode(pr, LenHigh(rep), 8, len + 238));
    }
  }

  lemma SplitOne(ds: seq<Decision>, d: Decision, rest: seq<Decision>)
    requires ds == [d] + rest
    ensures ds[0] == d && ds[1..] == rest
  {
  }

  lemma SplitTwo(ds: seq<Decision>, d: Decision, e: Decision, rest: seq<Decision>)
    requires ds == [d] + ([e] + rest)
    ensures ds[0] == d && ds[1] == e && ds[2..] == rest
  {
  }

  // ---- Distances ----

  lemma {:induction false} ShlBits(high: nat, k: nat, low: nat, j: nat)
    requires j < k
    ensures BitAt(Shl(high, k) + low, j) == BitAt(low, j)
  {
    if j == 0 {
      assert Shl(high, k) == 2 * Shl(high, k - 1);
    } else {
      ShrOfHalf(Shl(high, k) + low, j);
      ShrOfHalf(low, j);
      ShlBits(high, k - 1, low / 2, j - 1);
    }
  }

  lemma {:induction false} SameBackNode(x: nat, y: nat, n: nat, i: nat)
    requires i <= n && forall j | 0 <= j < n :: BitAt(x, j) == BitAt(y, j)
    ensures BackNode(x, i) == BackNode(y, i)
  {
    hide BitAt;
    if i > 0 {
      SameBackNode(x, y, n, i - 1);
    }
  }

  /** Numbers that agree on their low bits are spelled alike. */
  lemma SpellsSameBits(ds: seq<Decision>, t: Tree, width: nat, x: nat, y: nat)
    requires SpellsBack(ds, t, width, x) && forall j | 0 <= j < width :: BitAt(x, j) == BitAt(y, j)
    ensures SpellsBack(ds, t, width, y)
  {
    hide BitAt, BackNode;
    forall i | 0 <= i < width
      ensures ds[i] == Decision(Adaptive(Node(t, BackNode(y, i))), BitAt(y, i))
    {
      SameBackNode(x, y, width, i);
    }
  }

  lemma SpecSpells(pr: Props, slot: nat, d: nat)
    requires START_POS_MODEL_INDEX <= slot < END_POS_MODEL_INDEX && Shr(d, LowBits(slot)) == 2 + slot % 2
    ensures SpellsBack(SpecCode(pr, slot, d), SpecPos(slot), LowBits(slot), d)
  {
    hide RevCode, Shl, Shr, Pow2, SpellsBack, TreeBase;
    var k, high := LowBits(slot), 2 + slot % 2;
    ShlOfShr(d, k);
    var low := d - Shl(high, k);
    SpecRoot(slot);
    RevSpells(pr, SpecPos(slot), low);
    forall j | 0 <= j < k
      ensures BitAt(low, j) == BitAt(d, j)
    {
      ShlBits(high, k, low, j);
    }
    SpellsSameBits(SpecCode(pr, slot, d), SpecPos(slot), k, low, d);
  }

  lemma SpecRoot(slot: nat)
    requires START_POS_MODEL_INDEX <= slot < END_POS_MODEL_INDEX
    ensures Levels(SpecPos(slot)) == LowBits(slot) && WfNode(SpecPos(slot), LowBits(slot), 1)
  {
  }

  lemma AlignSpells(pr: Props, slot: nat, d: nat)
    requires END_POS_MODEL_INDEX <= slot
    ensures var ds, n := AlignCode(pr, slot, d), LowBits(slot) - 4;
      |ds| == n + 4 && SpellsDirect(ds[..n], LowBits(slot), 4, d) && SpellsBack(ds[n..], Align, 4, d)
  {
    hide RevCode, DirectCode, SpellsDirect, SpellsBack, Pow2, WfCode, WfTree, WfNode;
    AlignRoot(pr);
    SmallPowers();
    var n, width := LowBits(slot) - 4, LowBits(slot);
    var direct, back := DirectCode(pr, n, d / 16), RevCode(pr, Align, 4, 1, d % 16);
    var ds := AlignCode(pr, slot, d);
    assert ds[..n] == direct && ds[n..] == back;
    DirectSpells(pr, n, d / 16);
    DirectSixteenth(direct, width, d);
    RevSpells(pr, Align, d % 16);
    LowBitsSpelled(back, d);
  }

  lemma AlignRoot(pr: Props)
    ensures WfTree(pr, Align) && WfNode(Align, 4, 1) && Levels(Align) == 4
  {
  }

  lemma DirectSixteenth(ds: seq<Decision>, width: nat, d: nat)
    requires width >= 4 && SpellsDirect(ds, width - 4, 0, d / 16)
    ensures SpellsDirect(ds, width, 4, d)
  {
    hide BitAt;
    forall i | 0 <= i < width - 4
      ensures ds[i] == Decision(Direct, BitAt(d, width - 1 - i))
    {
      BitOfSixteenth(d, width - 5 - i);
    }
  }

  lemma LowBitsSpelled(ds: seq<Decision>, d: nat)
    requires SpellsBack(ds, Align, 4, d % 16)
    ensures SpellsBack(ds, Align, 4, d)
  {
    hide BitAt, SpellsBack;
    forall j | 0 <= j < 4
      ensures BitAt(d % 16, j) == BitAt(d, j)
    {
      LowBitsOf(d, j);
    }
    SpellsSameBits(ds, Align, 4, d % 16, d);
  }

  lemma BitOfSixteenth(d: nat, j: nat)
    ensures BitAt(d / 16, j) == BitAt(d, j + 4)
  {
    hide Pow2, Shr;
    SmallPowers();
    ShrIsDiv(d, 4);
    ShrTwice(d, 4, j);
  }

  lemma LowBitsOf(d: nat, j: nat)
    requires j < 4
    ensures BitAt(d % 16, j) == BitAt(d, j)
  {
    hide Shr;
    SixteenTimes(d / 16);
    ShlBits(d / 16, 4, d % 16, j);
  }

  lemma SixteenTimes(x: nat)
    ensures Shl(x, 4) == 16 * x
  {
    hide Pow2;
    SmallPowers();
    ShlIsMul(x, 4);
  }

  /** A distance word: six bits of slot in the tree of the length's class, the slot being
      the word itself below 4 and else naming its two leading bits and their place; then
      the bits below those. Slots 4 to 13 have a tree of their own, lowest bit first; from
      14 up all but the four lowest bits are direct, highest first, and these four go to
      the align tree, lowest first. */
  lemma DistCodeMeaning(pr: Props, lenState: nat, d: u32)
    requires lenState < 4
    ensures var ds, slot := DistCode(pr, lenState, d), SlotOf(d);
      && |ds| == 6 + LowBits(slot) && Spells(ds[..6], PosSlot(lenState), 6, slot)
      && (d < 4 ==> slot == d && LowBits(slot) == 0)
      && (d >= 4 ==> slot >= 4 && LowBits(slot) == slot / 2 - 1 && Shr(d, LowBits(slot)) == 2 + slot % 2)
      && (4 <= slot < 14 ==> SpellsBack(ds[6..], SpecPos(slot), LowBits(slot), d))
      && (14 <= slot ==>
            && LowBits(slot) >= 6
            && SpellsDirect(ds[6..2 + LowBits(slot)], LowBits(slot), 4, d)
            && SpellsBack(ds[2 + LowBits(slot)..], Align, 4, d))
  {
    hide TreeCode, SpecCode, AlignCode, SlotOf, Shr, Pow2, Spells, SpellsBack, SpellsDirect;
    SmallPowers();
    var slot := SlotOf(d);
    SlotLeaf(lenState, d);
    SmallSlot(d);
    TreeSpells(pr, PosSlot(lenState), slot);
    var first, tail, ds := TreeCode(pr, PosSlot(lenState), 6, 64 + slot), DistTailCode(pr, d), DistCode(pr, lenState, d);
    SpellsLength(first, PosSlot(lenState), 6, slot);
    assert ds == first + tail && ds[..6] == first && ds[6..] == tail;
    if d >= 4 {
      SlotLeadingBits(d);
      if slot < 14 {
        SpecSpells(pr, slot, d);
        BackLength(tail, SpecPos(slot), LowBits(slot), d);
      } else {
        AlignSpells(pr, slot, d);
        var n := LowBits(slot) - 4;
        assert ds[6..6 + n] == tail[..n] && ds[6 + n..] == tail[n..];
      }
    }
  }

  lemma SpellsLength(ds: seq<Decision>, t: Tree, width: nat, x: nat)
    requires Spells(ds, t, width, x)
    ensures |ds| == width
  {
  }

  lemma BackLength(ds: seq<Decision>, t: Tree, width: nat, x: nat)
    requires SpellsBack(ds, t, width, x)
    ensures |ds| == width
  {
  }

  // ---- Contexts that the history selects ----

  /** A literal's contexts are selected by the `lp` low bits of its position and the `lc`
      high bits of the byte before it, 0 at the start. */
  lemma LiteralContext(pr: Props, out: seq<byte>)
    ensures var t, previous: nat := LiteralTree(pr, out), if |out| == 0 then 0 else out[|out| - 1];
      && t.Literal?
      && t.lowPos == |out| % Pow2(pr.lp)
      && t.prevHigh * Pow2(8 - pr.lc) <= previous < (t.prevHigh + 1) * Pow2(8 - pr.lc)
  {
    hide Pow2, WfNode, WfTree, Shr;
    var previous: nat := if |out| == 0 then 0 else out[|out| - 1];
    ShrIsDiv(previous, 8 - pr.lc);
    Quotient(previous, Pow2(8 - pr.lc));
  }

  lemma Quotient(x: nat, p: nat)
    requires p > 0
    ensures x / p * p <= x < (x / p + 1) * p
  {
    assert x == x / p * p + x % p;
    assert (x / p + 1) * p == x / p * p + p;
  }

  /** The lengths 2, 3 and 4 have slot trees of their own, all longer ones share the fourth. */
  lemma LengthClass(len: nat)
    requires 2 <= len <= 273
    ensures LenState(len - 2) == if len == 2 then 0 else if len == 3 then 1 else if len == 4 then 2 else 3
  {
  }

  // ---- Packets ----

  /** A literal: a 0, then eight decisions. Where a literal came before, they spell the byte
      in the literal tree; else they follow the byte that the latest distance points at,
      as `MatchedCodeAt` says. */
  lemma LiteralCodeMeaning(pr: Props, h: History, b: byte)
    requires WfHistory(h)
    ensures var ds, t := PacketCode(pr, h, Lit(b)), LiteralTree(pr, h.out);
      && |ds| == 9 && ds[0] == Flag(IsMatch(h.state, |h.out| % Pow2(pr.pb)), 0)
      && (h.state < 7 ==> Spells(ds[1..], t, 8, b))
      && (h.state >= 7 ==>
            && t.Literal? && WfTree(pr, t) && WfNode(t, 0, 256 + b) && 1 <= h.rep0 <= |h.out|
            && ds[1..] == MatchedCode(pr, t, h.out[|h.out| - h.rep0], 8, 256 + b))
  {
    hide TreeCode, MatchedCode, Pow2, Spells, LiteralTree, WfTree, WfCode;
    SmallPowers();
    var t := LiteralTree(pr, h.out);
    LeafOf(t, b);
    TreeSpells(pr, t, b);
  }

  /** A match: 1, 0, its length, its distance less 1. The end marker is coded as a match
      whose distance would be 2^32. */
  lemma MatchCodeMeaning(pr: Props, h: History, p: Packet)
    requires WfHistory(h) && WfPacket(p) && (p.Match? || p.EndMarker?)
    ensures var posState := |h.out| % Pow2(pr.pb);
      PacketCode(pr, h, p)
      == [Flag(IsMatch(h.state, posState), 1), Flag(IsRep(h.state), 0)]
         + (LenCode(pr, false, posState, p.len - 2)
            + DistCode(pr, LenState(p.len - 2), if p.Match? then p.distance - 1 else 0xFFFF_FFFF))
  {
    hide LenCode, DistCode, Pow2;
    var posState := |h.out| % Pow2(pr.pb);
    var rest := MatchCode(pr, posState, if p.Match? then p.distance - 1 else 0xFFFF_FFFF, p.len);
    var f, g := Flag(IsMatch(h.state, posState), 1), Flag(IsRep(h.state), 0);
    assert [f] + ([g] + rest) == [f, g] + rest;
  }

  /** A repeat: 1, 1, then which distance. The latest: 0, and 0 for one byte or 1 and a
      length. The second latest: 1, 0; the third: 1, 1, 0; the fourth: 1, 1, 1; then a
      length. */
  lemma RepeatCodeMeaning(pr: Props, h: History, p: Packet)
    requires WfHistory(h) && WfPacket(p) && (p.ShortRep? || p.Rep?)
    ensures var posState, s := |h.out| % Pow2(pr.pb), h.state;
      PacketCode(pr, h, p)
      == [Flag(IsMatch(s, posState), 1), Flag(IsRep(s), 1)]
         + (if p.ShortRep? then [Flag(IsRepG0(s), 0), Flag(IsRep0Long(s, posState), 0)]
            else (if p.index == 0 then [Flag(IsRepG0(s), 0), Flag(IsRep0Long(s, posState), 1)]
                  else if p.index == 1 then [Flag(IsRepG0(s), 1), Flag(IsRepG1(s), 0)]
                  else if p.index == 2 then [Flag(IsRepG0(s), 1), Flag(IsRepG1(s), 1), Flag(IsRepG2(s), 0)]
                  else [Flag(IsRepG0(s), 1), Flag(IsRepG1(s), 1), Flag(IsRepG2(s), 1)])
                 + LenCode(pr, true, posState, p.len - 2))
  {
    hide LenCode, Pow2, RepSelectCode;
    var posState, s := |h.out| % Pow2(pr.pb), h.state;
    var f, g, rest := Flag(IsMatch(s, posState), 1), Flag(IsRep(s), 1), RepCode(pr, s, posState, p);
    SelectTable(pr, s, posState, if p.ShortRep? then 4 else p.index);
    assert [f] + ([g] + rest) == [f, g] + rest;
  }

  lemma SelectTable(pr: Props, s: nat, posState: nat, index: nat)
    requires s < NUM_STATES && posState < Pow2(pr.pb) && index <= 4
    ensures RepSelectCode(pr, s, posState, index)
         == if index == 4 then [Flag(IsRepG0(s), 0), Flag(IsRep0Long(s, posState), 0)]
            else if index == 0 then [Flag(IsRepG0(s), 0), Flag(IsRep0Long(s, posState), 1)]
            else if index == 1 then [Flag(IsRepG0(s), 1), Flag(IsRepG1(s), 0)]
            else if index == 2 then [Flag(IsRepG0(s), 1), Flag(IsRepG1(s), 1), Flag(IsRepG2(s), 0)]
            else [Flag(IsRepG0(s), 1), Flag(IsRepG1(s), 1), Flag(IsRepG2(s), 1)]
  {
    hide Pow2;
  }
}
