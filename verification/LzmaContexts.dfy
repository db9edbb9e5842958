/** The adaptive contexts of the LZMA decoder and where each lives in its flat
    probability array. A context is named symbolically (`Cell`); `CellIndex` is
    the pointer arithmetic of the decoder. */
module LzmaContexts {
  import opened Bits

  datatype RawProps = Props(lc: nat, lp: nat, pb: nat)

  /** The properties that one accepted property byte can carry. */
  type Props = p: RawProps | p.lc <= 8 && p.lp <= 4 && p.pb <= 4 witness Props(0, 0, 0)

  const NUM_STATES: nat := 12
  const NUM_LIT_STATES: nat := 7
  const POS_STATES_MAX: nat := 16
  const START_POS_MODEL_INDEX: nat := 4
  const END_POS_MODEL_INDEX: nat := 14
  const NUM_FULL_DISTANCES: nat := 128
  const NUM_LEN_TO_POS_STATES: nat := 4
  const ALIGN_TABLE_SIZE: nat := 16

  const LEN_CHOICE: nat := 0
  const LEN_CHOICE_2: nat := LEN_CHOICE + 1
  const LEN_LOW: nat := LEN_CHOICE_2 + 1
  const LEN_MID: nat := LEN_LOW + POS_STATES_MAX * 8
  const LEN_HIGH: nat := LEN_MID + POS_STATES_MAX * 8
  const NUM_LEN_PROBS: nat := LEN_HIGH + 256

  const IS_MATCH: nat := 0
  const IS_REP: nat := IS_MATCH + NUM_STATES * POS_STATES_MAX
  const IS_REP_G0: nat := IS_REP + NUM_STATES
  const IS_REP_G1: nat := IS_REP_G0 + NUM_STATES
  const IS_REP_G2: nat := IS_REP_G1 + NUM_STATES
  const IS_REP_0_LONG: nat := IS_REP_G2 + NUM_STATES
  const POS_SLOT: nat := IS_REP_0_LONG + NUM_STATES * POS_STATES_MAX
  const SPEC_POS: nat := POS_SLOT + NUM_LEN_TO_POS_STATES * 64
  const ALIGN: nat := SPEC_POS + NUM_FULL_DISTANCES - END_POS_MODEL_INDEX
  const LEN_CODER: nat := ALIGN + ALIGN_TABLE_SIZE
  const REP_LEN_CODER: nat := LEN_CODER + NUM_LEN_PROBS
  const LITERAL: nat := REP_LEN_CODER + NUM_LEN_PROBS
  const LZMA_LIT_SIZE: nat := 768

  /** The bit trees; `rep` tells the two length coders apart. */
  datatype Tree =
    | LenLow(rep: bool, posState: nat)
    | LenMid(rep: bool, posState: nat)
    | LenHigh(rep: bool)
    | PosSlot(lenState: nat)
    | SpecPos(slot: nat)
    | Align
    | Literal(lowPos: nat, prevHigh: nat)

  datatype Cell =
    | IsMatch(state: nat, posState: nat)
    | IsRep(state: nat)
    | IsRepG0(state: nat)
    | IsRepG1(state: nat)
    | IsRepG2(state: nat)
    | IsRep0Long(state: nat, posState: nat)
    | LenChoice(rep: bool)
    | LenChoice2(rep: bool)
    | Node(tree: Tree, node: nat)
    | MatchedLit(lowPos: nat, prevHigh: nat, matchBit: Bit, node: nat)

  function Levels(t: Tree): nat {
    match t
    case LenLow(_, _) => 3
    case LenMid(_, _) => 3
    case LenHigh(_) => 8
    case PosSlot(_) => 6
    case SpecPos(slot) => if slot < 2 then 0 else slot / 2 - 1
    case Align => 4
    case Literal(_, _) => 8
  }

  predicate WfTree(pr: Props, t: Tree) {
    match t
    case LenLow(_, posState) => posState < Pow2(pr.pb)
    case LenMid(_, posState) => posState < Pow2(pr.pb)
    case LenHigh(_) => true
    case PosSlot(lenState) => lenState < NUM_LEN_TO_POS_STATES
    case SpecPos(slot) => START_POS_MODEL_INDEX <= slot < END_POS_MODEL_INDEX
    case Align => true
    case Literal(lowPos, prevHigh) => lowPos < Pow2(pr.lp) && prevHigh < Pow2(pr.lc)
  }

  predicate WfCell(pr: Props, c: Cell) {
    match c
    case IsMatch(state, posState) => state < NUM_STATES && posState < Pow2(pr.pb)
    case IsRep(state) => state < NUM_STATES
    case IsRepG0(state) => state < NUM_STATES
    case IsRepG1(state) => state < NUM_STATES
    case IsRepG2(state) => state < NUM_STATES
    case IsRep0Long(state, posState) => state < NUM_STATES && posState < Pow2(pr.pb)
    case LenChoice(_) => true
    case LenChoice2(_) => true
    case Node(t, node) => WfTree(pr, t) && 1 <= node < Pow2(Levels(t))
    case MatchedLit(lowPos, prevHigh, _, node) =>
      lowPos < Pow2(pr.lp) && prevHigh < Pow2(pr.lc) && 1 <= node < 256
  }

  function LenBase(rep: bool): nat {
    if rep then REP_LEN_CODER else LEN_CODER
  }

  function LiteralBase(pr: Props, lowPos: nat, prevHigh: nat): nat {
    LITERAL + LZMA_LIT_SIZE * (Shl(lowPos, pr.lc) + prevHigh)
  }

  /** The address of a tree's node 0, which is never used itself. */
  function TreeBase(pr: Props, t: Tree): (r: nat)
    requires WfTree(pr, t)
  {
    match t
    case LenLow(rep, posState) => LenBase(rep) + LEN_LOW + posState * 8
    case LenMid(rep, posState) => LenBase(rep) + LEN_MID + posState * 8
    case LenHigh(rep) => LenBase(rep) + LEN_HIGH
    case PosSlot(lenState) => POS_SLOT + lenState * 64
    case SpecPos(slot) =>
      SpecPosBound(slot);
      SPEC_POS + Shl(2 + slot % 2, slot / 2 - 1) - slot - 1
    case Align => ALIGN
    case Literal(lowPos, prevHigh) => LiteralBase(pr, lowPos, prevHigh)
  }

  function CellIndex(pr: Props, c: Cell): nat
    requires WfCell(pr, c)
  {
    match c
    case IsMatch(state, posState) => IS_MATCH + state * 16 + posState
    case IsRep(state) => IS_REP + state
    case IsRepG0(state) => IS_REP_G0 + state
    case IsRepG1(state) => IS_REP_G1 + state
    case IsRepG2(state) => IS_REP_G2 + state
    case IsRep0Long(state, posState) => IS_REP_0_LONG + state * 16 + posState
    case LenChoice(rep) => LenBase(rep) + LEN_CHOICE
    case LenChoice2(rep) => LenBase(rep) + LEN_CHOICE_2
    case Node(t, node) => TreeBase(pr, t) + node
    case MatchedLit(lowPos, prevHigh, matchBit, node) =>
      LiteralBase(pr, lowPos, prevHigh) + 0x100 + matchBit * 0x100 + node
  }

  function NumProbs(pr: Props): nat {
    LITERAL + LZMA_LIT_SIZE * Pow2(pr.lc + pr.lp)
  }

  lemma SpecPosBound(slot: nat)
    requires START_POS_MODEL_INDEX <= slot < END_POS_MODEL_INDEX
    ensures 0 <= Shl(2 + slot % 2, slot / 2 - 1) - slot - 1 + 1
    ensures Shl(2 + slot % 2, slot / 2 - 1) - slot - 1 + Pow2(slot / 2 - 1)
         == Shl(2 + (slot + 1) % 2, (slot + 1) / 2 - 1) - slot - 1
         <= NUM_FULL_DISTANCES - END_POS_MODEL_INDEX
    ensures slot == END_POS_MODEL_INDEX - 1
        ==> (Shl(2 + slot % 2, slot / 2 - 1) - slot - 1 + Pow2(slot / 2 - 1) == NUM_FULL_DISTANCES - END_POS_MODEL_INDEX)
  {
    SmallPowers();
    assert slot == 4 || slot == 5 || slot == 6 || slot == 7 || slot == 8
        || slot == 9 || slot == 10 || slot == 11 || slot == 12 || slot == 13;
  }

  // ---- Cells of different contexts never share an address ----

  /** The regions of the array, in address order. */
  function Region(c: Cell): nat {
    match c
    case IsMatch(_, _) => 0
    case IsRep(_) => 1
    case IsRepG0(_) => 2
    case IsRepG1(_) => 3
    case IsRepG2(_) => 4
    case IsRep0Long(_, _) => 5
    case Node(PosSlot(_), _) => 6
    case Node(SpecPos(_), _) => 7
    case Node(Align, _) => 8
    case LenChoice(rep) => if rep then 14 else 9
    case LenChoice2(rep) => if rep then 15 else 10
    case Node(LenLow(rep, _), _) => if rep then 16 else 11
    case Node(LenMid(rep, _), _) => if rep then 17 else 12
    case Node(LenHigh(rep), _) => if rep then 18 else 13
    case Node(Literal(_, _), _) => 19
    case MatchedLit(_, _, _, _) => 19
  }

  function RegionStart(region: nat): nat {
    if region <= 0 then IS_MATCH
    else if region == 1 then IS_REP
    else if region == 2 then IS_REP_G0
    else if region == 3 then IS_REP_G1
    else if region == 4 then IS_REP_G2
    else if region == 5 then IS_REP_0_LONG
    else if region == 6 then POS_SLOT
    else if region == 7 then SPEC_POS
    else if region == 8 then ALIGN
    else if region == 9 then LEN_CODER
    else if region == 10 then LEN_CODER + LEN_CHOICE_2
    else if region == 11 then LEN_CODER + LEN_LOW
    else if region == 12 then LEN_CODER + LEN_MID
    else if region == 13 then LEN_CODER + LEN_HIGH
    else if region == 14 then REP_LEN_CODER
    else if region == 15 then REP_LEN_CODER + LEN_CHOICE_2
    else if region == 16 then REP_LEN_CODER + LEN_LOW
    else if region == 17 then REP_LEN_CODER + LEN_MID
    else if region == 18 then REP_LEN_CODER + LEN_HIGH
    else LITERAL
  }

  lemma PosStateBound(pr: Props, posState: nat)
    requires posState < Pow2(pr.pb)
    ensures posState < 16
  {
    SmallPowers();
  }

  /** Where a literal's 768 cells start: block number `lowPos << lc | prevHigh`. */
  lemma LiteralBlock(pr: Props, lowPos: nat, prevHigh: nat)
    requires lowPos < Pow2(pr.lp) && prevHigh < Pow2(pr.lc)
    ensures Shl(lowPos, pr.lc) + prevHigh < Pow2(pr.lc + pr.lp)
  {
    Pow2Add(pr.lc, pr.lp);
    MulGap(Pow2(pr.lp), lowPos, Pow2(pr.lc));
    assert Pow2(pr.lc) * Pow2(pr.lp) == Pow2(pr.lp) * Pow2(pr.lc);
    ShlIsMul(lowPos, pr.lc);
  }

  /** Every cell lies inside its own region, and the last region ends with the array. */
  lemma CellInRegion(pr: Props, c: Cell)
    requires WfCell(pr, c)
    ensures RegionStart(Region(c)) <= CellIndex(pr, c)
    ensures Region(c) < 19 ==> CellIndex(pr, c) < RegionStart(Region(c) + 1)
    ensures CellIndex(pr, c) < NumProbs(pr)
  {
    hide TreeBase, WfTree, Levels, Pow2, LiteralBase, NumProbs;
    match c
    case Node(t, node) => TreeInRegion(pr, t, node);
    case MatchedLit(_, _, _, _) => MatchedInRegion(pr, c);
    case _ => FlagInRegion(pr, c);
  }

  lemma FlagInRegion(pr: Props, c: Cell)
    requires WfCell(pr, c) && !c.Node? && !c.MatchedLit?
    ensures Region(c) < 19 && RegionStart(Region(c)) <= CellIndex(pr, c) < RegionStart(Region(c) + 1)
    ensures CellIndex(pr, c) < NumProbs(pr)
  {
    hide TreeBase, WfTree, Levels, Pow2, LiteralBase;
    match c
    case IsMatch(_, posState) => PosStateBound(pr, posState);
    case IsRep0Long(_, posState) => PosStateBound(pr, posState);
    case _ =>
  }

  lemma MatchedInRegion(pr: Props, c: Cell)
    requires WfCell(pr, c) && c.MatchedLit?
    ensures LITERAL <= CellIndex(pr, c) < NumProbs(pr)
  {
    hide TreeBase, WfTree, Levels, RegionStart, Pow2, Shl;
    LiteralBlock(pr, c.lowPos, c.prevHigh);
  }

  lemma TreeInRegion(pr: Props, t: Tree, node: nat)
    requires WfTree(pr, t) && 1 <= node < Pow2(Levels(t))
    ensures RegionStart(Region(Node(t, node))) <= TreeBase(pr, t) + node < NumProbs(pr)
    ensures Region(Node(t, node)) < 19
        ==> TreeBase(pr, t) + node < RegionStart(Region(Node(t, node)) + 1)
  {
    if t.Literal? {
      hide Region, RegionStart;
      LiteralTreeInRegion(pr, t, node);
    } else {
      hide Region, RegionStart, WfTree, Levels, TreeBase, Pow2;
      LowTreeInRegion(pr, t, node);
    }
  }

  lemma LiteralTreeInRegion(pr: Props, t: Tree, node: nat)
    requires WfTree(pr, t) && 1 <= node < Pow2(Levels(t)) && t.Literal?
    ensures Region(Node(t, node)) == 19 && RegionStart(19) <= TreeBase(pr, t) + node < NumProbs(pr)
  {
    hide Shl, Pow2;
    SmallPowers();
    LiteralBlock(pr, t.lowPos, t.prevHigh);
  }

  lemma LowTreeInRegion(pr: Props, t: Tree, node: nat)
    requires WfTree(pr, t) && 1 <= node < Pow2(Levels(t)) && !t.Literal?
    ensures RegionStart(Region(Node(t, node))) <= TreeBase(pr, t) + node
    ensures Region(Node(t, node)) < 19
    ensures TreeBase(pr, t) + node < RegionStart(Region(Node(t, node)) + 1) <= LITERAL
  {
    hide Shl, Pow2, NumProbs;
    SmallPowers();
    if t.LenLow? || t.LenMid? {
      hide TreeBase, Region, RegionStart, Levels;
      LenTreeInRegion(pr, t, node);
    } else if t.SpecPos? {
      SpecPosBound(t.slot);
    }
  }

  lemma LenTreeInRegion(pr: Props, t: Tree, node: nat)
    requires (t.LenLow? || t.LenMid?) && WfTree(pr, t) && 1 <= node < Pow2(Levels(t))
    ensures RegionStart(Region(Node(t, node))) <= TreeBase(pr, t) + node
    ensures Region(Node(t, node)) < 19
    ensures TreeBase(pr, t) + node < RegionStart(Region(Node(t, node)) + 1) <= LITERAL
  {
    hide Shl, Pow2, NumProbs;
    SmallPowers();
    PosStateBound(pr, t.posState);
  }

  lemma RegionsAscend(r: nat, s: nat)
    requires r < s <= 19
    ensures RegionStart(r + 1) <= RegionStart(s)
  {
  }

  lemma SpecPosStarts(slot: nat, later: nat)
    requires START_POS_MODEL_INDEX <= slot < later < END_POS_MODEL_INDEX
    ensures Shl(2 + slot % 2, slot / 2 - 1) - slot - 1 + Pow2(slot / 2 - 1)
         <= Shl(2 + later % 2, later / 2 - 1) - later - 1 + 1
    decreases later
  {
    hide Shl, Pow2;
    SpecPosBound(slot);
    if later > slot + 1 {
      SpecPosStarts(slot, later - 1);
      SpecPosBound(later - 1);
    }
  }

  lemma BlocksDisjoint(size: nat, block: nat, offset: nat, block': nat, offset': nat)
    requires offset < size && offset' < size
    requires block * size + offset == block' * size + offset'
    ensures block == block' && offset == offset'
  {
    DivModUnique(block * size + offset, size, block, offset);
    DivModUnique(block * size + offset, size, block', offset');
  }

  lemma RegionBound(c: Cell)
    ensures Region(c) <= 19
  {
  }

  /** The decoder's flat array gives every context a cell of its own: two contexts
      at one address are the same context. */
  lemma CellIndexInjective(pr: Props, c: Cell, d: Cell)
    requires WfCell(pr, c) && WfCell(pr, d)
    requires CellIndex(pr, c) == CellIndex(pr, d)
    ensures c == d
  {
    hide CellIndex, Region, RegionStart, WfCell, NumProbs;
    CellInRegion(pr, c);
    CellInRegion(pr, d);
    RegionBound(c);
    RegionBound(d);
    if Region(c) < Region(d) {
      RegionsAscend(Region(c), Region(d));
    } else if Region(d) < Region(c) {
      RegionsAscend(Region(d), Region(c));
    } else if Region(c) == 19 {
      LiteralCellsDistinct(pr, c, d);
    } else {
      LowCellsDistinct(pr, c, d);
    }
  }

  /** Below the literals, a region is one kind of cell, and a flag of one coder. */
  lemma SameFlag(c: Cell, d: Cell)
    requires Region(c) == Region(d) < 19
    ensures c.IsMatch? == d.IsMatch? && c.IsRep? == d.IsRep? && c.IsRepG0? == d.IsRepG0? && c.IsRepG1? == d.IsRepG1?
    ensures c.IsRepG2? == d.IsRepG2? && c.IsRep0Long? == d.IsRep0Long? && c.Node? == d.Node?
    ensures c.LenChoice? == d.LenChoice? && c.LenChoice2? == d.LenChoice2? && !c.MatchedLit? && !d.MatchedLit?
    ensures c.LenChoice? || c.LenChoice2? ==> c.rep == d.rep
  {
  }

  lemma LowCellsDistinct(pr: Props, c: Cell, d: Cell)
    requires WfCell(pr, c) && WfCell(pr, d)
    requires Region(c) == Region(d) < 19 && CellIndex(pr, c) == CellIndex(pr, d)
    ensures c == d
  {
    hide TreeBase, WfTree, Levels, RegionStart, LiteralBase, NumProbs, Pow2;
    SameFlag(c, d);
    match c
    case IsMatch(state, posState) =>
      PosStateBound(pr, posState);
      PosStateBound(pr, d.posState);
    case IsRep0Long(state, posState) =>
      PosStateBound(pr, posState);
      PosStateBound(pr, d.posState);
    case Node(t, node) => TreeCellsDistinct(pr, t, node, d.tree, d.node);
    case _ =>
  }

  /** Below the literals, a region is one kind of tree of one coder. */
  lemma SameKind(t: Tree, node: nat, t': Tree, node': nat)
    requires Region(Node(t, node)) == Region(Node(t', node')) < 19
    ensures t.LenLow? == t'.LenLow? && t.LenMid? == t'.LenMid? && t.LenHigh? == t'.LenHigh?
    ensures t.PosSlot? == t'.PosSlot? && t.SpecPos? == t'.SpecPos? && t.Align? == t'.Align?
    ensures !t.Literal? && !t'.Literal?
    ensures t.LenLow? || t.LenMid? || t.LenHigh? ==> t.rep == t'.rep
  {
  }

  lemma TreeCellsDistinct(pr: Props, t: Tree, node: nat, t': Tree, node': nat)
    requires WfCell(pr, Node(t, node)) && WfCell(pr, Node(t', node'))
    requires Region(Node(t, node)) == Region(Node(t', node')) < 19
    requires TreeBase(pr, t) + node == TreeBase(pr, t') + node'
    ensures t == t' && node == node'
  {
    hide Region, RegionStart, LiteralBase, LenBase, NumProbs, Shl, Pow2;
    SameKind(t, node, t', node');
    SmallPowers();
    match t
    case LenLow(rep, posState) => BlocksDisjoint(8, posState, node, t'.posState, node');
    case LenMid(rep, posState) => BlocksDisjoint(8, posState, node, t'.posState, node');
    case PosSlot(lenState) => BlocksDisjoint(64, lenState, node, t'.lenState, node');
    case SpecPos(slot) => SpecCellsDistinct(slot, node, t'.slot, node');
    case _ =>
  }

  lemma SpecCellsDistinct(slot: nat, node: nat, slot': nat, node': nat)
    requires START_POS_MODEL_INDEX <= slot < END_POS_MODEL_INDEX && 1 <= node < Pow2(slot / 2 - 1)
    requires START_POS_MODEL_INDEX <= slot' < END_POS_MODEL_INDEX && 1 <= node' < Pow2(slot' / 2 - 1)
    requires Shl(2 + slot % 2, slot / 2 - 1) - slot + node == Shl(2 + slot' % 2, slot' / 2 - 1) - slot' + node'
    ensures slot == slot' && node == node'
  {
    if slot < slot' {
      SpecPosStarts(slot, slot');
    } else if slot' < slot {
      SpecPosStarts(slot', slot);
    }
  }

  lemma LiteralCellsDistinct(pr: Props, c: Cell, d: Cell)
    requires WfCell(pr, c) && WfCell(pr, d)
    requires Region(c) == Region(d) == 19 && CellIndex(pr, c) == CellIndex(pr, d)
    ensures c == d
  {
    SmallPowers();
    var (p, h, o) := LiteralCoordinates(c);
    var (p', h', o') := LiteralCoordinates(d);
    BlocksDisjoint(LZMA_LIT_SIZE, Shl(p, pr.lc) + h, o, Shl(p', pr.lc) + h', o');
    ShlIsMul(p, pr.lc);
    ShlIsMul(p', pr.lc);
    BlocksDisjoint(Pow2(pr.lc), p, h, p', h');
  }

  /** Low position bits, high bits of the previous byte, and offset in the block. */
  function LiteralCoordinates(c: Cell): (nat, nat, nat)
    requires Region(c) == 19
  {
    match c
    case Node(Literal(lowPos, prevHigh), node) => (lowPos, prevHigh, node)
    case MatchedLit(lowPos, prevHigh, matchBit, node) =>
      (lowPos, prevHigh, 0x100 + matchBit * 0x100 + node)
  }

  lemma FirstSpecPos()
    ensures Shl(2, 1) == 4
  {
    assert Shl(2, 0) == 2;
  }

  /** The `SpecPos` blocks of slots 4..13 tile their region without a gap. */
  lemma SpecPosTiles(pr: Props, index: nat) returns (slot: nat, node: nat)
    requires SPEC_POS <= index < ALIGN
    ensures WfCell(pr, Node(SpecPos(slot), node))
    ensures CellIndex(pr, Node(SpecPos(slot), node)) == index
  {
    FirstSpecPos();
    hide Shl, Pow2;
    SmallPowers();
    slot := START_POS_MODEL_INDEX;
    while slot + 1 < END_POS_MODEL_INDEX
          && SPEC_POS + Shl(2 + slot % 2, slot / 2 - 1) - slot - 1 + Pow2(slot / 2 - 1) <= index
      invariant START_POS_MODEL_INDEX <= slot < END_POS_MODEL_INDEX
      invariant SPEC_POS + Shl(2 + slot % 2, slot / 2 - 1) - slot <= index
      decreases END_POS_MODEL_INDEX - slot
    {
      SpecPosBound(slot);
      slot := slot + 1;
    }
    SpecPosBound(slot);
    node := index - (SPEC_POS + Shl(2 + slot % 2, slot / 2 - 1) - slot - 1);
  }
}
