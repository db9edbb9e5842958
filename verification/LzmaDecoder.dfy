/** The decoder as the source writes it: fields and arrays updated in place, one method
    per macro or block of `LzmaDecode`, each proved to compute its specification. */
module LzmaDecoder {
  import opened Wrappers
  import opened Bits
  import opened LzmaContexts
  import RD = LzmaRangeDecoder
  import opened LzmaSymbols
  import opened LzmaDistances
  import opened LzmaPackets
  import opened LzmaStream

  const LZMA_RESULT_OK: nat := 0
  const LZMA_RESULT_DATA_ERROR: nat := 1
  const LZMA_PROPERTIES_SIZE: nat := 5

  /** Reads the property byte by repeated subtraction. */
  method LzmaDecodeProperties(propsData: seq<byte>, size: nat) returns (result: nat, props: RawProps)
    requires size <= |propsData|
    ensures result == LZMA_RESULT_OK <==> size >= LZMA_PROPERTIES_SIZE && propsData[0] < 9 * 5 * 5
    ensures result == LZMA_RESULT_OK || result == LZMA_RESULT_DATA_ERROR
    ensures result == LZMA_RESULT_OK
        ==> props.lc < 9 && props.lp < 5 && props.pb < 5 && (props.pb * 5 + props.lp) * 9 + props.lc == propsData[0]
  {
    props := Props(0, 0, 0);
    if size < LZMA_PROPERTIES_SIZE {
      return LZMA_RESULT_DATA_ERROR, props;
    }
    var prop0: int := propsData[0];
    if prop0 >= 9 * 5 * 5 {
      return LZMA_RESULT_DATA_ERROR, props;
    }
    var pb, lp := 0, 0;
    while prop0 >= 9 * 5
      invariant 0 <= prop0 && prop0 + 45 * pb == propsData[0] && pb < 5
    {
      pb, prop0 := pb + 1, prop0 - 9 * 5;
    }
    while prop0 >= 9
      invariant 0 <= prop0 && prop0 + 9 * lp + 45 * pb == propsData[0] && lp < 5 && prop0 + 9 * lp < 45
    {
      lp, prop0 := lp + 1, prop0 - 9;
    }
    return LZMA_RESULT_OK, Props(prop0, lp, pb);
  }

  lemma ShiftInByte(code: u32, b: byte)
    ensures BitOr(Shl32(code, 8), b) == code % RD.TOP_VALUE * 256 + b
  {
    assert Pow2(8) == 256;
    var high, low := code / RD.TOP_VALUE, code % RD.TOP_VALUE;
    assert code * 256 == high * 0x1_0000_0000 + low * 256;
    DivModUnique(code * 256, 0x1_0000_0000, high, low * 256);
    OrLow(low, 8, b);
  }

  lemma ShiftRange(range: u32)
    requires range < RD.TOP_VALUE
    ensures Shl32(range, 8) == range * 256
  {
    assert Pow2(8) == 256;
  }

  lemma IsRepCell(pr: Props, state: nat)
    requires state < NUM_STATES
    ensures WfCell(pr, IsRep(state)) && CellIndex(pr, IsRep(state)) == IS_REP + state
  {
  }

  lemma RepCells(pr: Props, state: nat, posState: nat)
    requires state < NUM_STATES
    ensures WfCell(pr, IsRepG0(state)) && CellIndex(pr, IsRepG0(state)) == IS_REP_G0 + state
    ensures WfCell(pr, IsRepG1(state)) && CellIndex(pr, IsRepG1(state)) == IS_REP_G1 + state
    ensures WfCell(pr, IsRepG2(state)) && CellIndex(pr, IsRepG2(state)) == IS_REP_G2 + state
    ensures posState < Pow2(pr.pb)
        ==> (WfCell(pr, IsRep0Long(state, posState))
             && CellIndex(pr, IsRep0Long(state, posState)) == IS_REP_0_LONG + state * 16 + posState)
  {
  }

  lemma TestTopBit(x: nat)
    ensures BitAnd(x, 0x100) == 0x100 * (x / 0x100 % 2)
  {
    assert Pow2(8) == 0x100;
    AndSingleBit(x, 8);
  }

  /** `rep0 |= i` in the reverse tree loop: bit `j` was still clear. */
  lemma OrAboveLow(high: nat, k: nat, j: nat, low: nat)
    requires low < Pow2(j) && j < k
    ensures BitOr(Shl(high, k) + low, Pow2(j)) == Shl(high, k) + low + Pow2(j)
  {
    hide BitOr, Pow2, Shr, Shl;
    ShlSplit(high, k - j, j);
    EvenAfterShl(high, k - j);
    ShrOfShl(Shl(high, k - j), j, low);
    OrClearBit(Shl(high, k) + low, j);
  }

  lemma EvenAfterShl(high: nat, k: nat)
    requires k > 0
    ensures Shl(high, k) % 2 == 0
  {
  }

  lemma FillBit(high: nat, k: nat, j: nat, low: nat)
    requires low < Pow2(j) && j < k
    ensures BitOr(Shl(high, k) + low, Pow2(j)) == Shl(high, k) + low + Pow2(j)
    ensures Pow2(j + 1) == 2 * Pow2(j) && low + Pow2(j) < Pow2(k)
  {
    OrAboveLow(high, k, j, low);
    Pow2Monotone(j + 1, k);
  }

  lemma {:induction false} ShlSplit(high: nat, j: nat, k: nat)
    ensures Shl(Shl(high, j), k) == Shl(high, j + k)
  {
    if k > 0 {
      ShlSplit(high, j, k - 1);
    }
  }

  lemma OrOne(x: nat)
    ensures BitOr(2 * x, 1) == 2 * x + 1
  {
    assert Pow2(1) == 2;
    OrLow(x, 1, 1);
  }

  /** `2 | (posSlot & 1)` */
  lemma TwoLeadingBits(posSlot: nat)
    ensures BitOr(2, BitAnd(posSlot, 1)) == 2 + posSlot % 2
  {
    assert Pow2(1) == 2;
    AndMaskIsMod(posSlot, 1);
    OrLow(1, 1, posSlot % 2);
  }

  lemma SpecPosFits(posSlot: nat)
    requires START_POS_MODEL_INDEX <= posSlot < END_POS_MODEL_INDEX
    ensures Shl(2 + posSlot % 2, posSlot / 2 - 1) + Pow2(posSlot / 2 - 1) <= 128
  {
    SpecPosBound(posSlot);
  }

  lemma FullTree(t: Tree)
    ensures WfNode(t, Levels(t), 1)
  {
  }

  lemma LeafBound(t: Tree, node: nat)
    requires WfNode(t, 0, node)
    ensures node >= Pow2(Levels(t))
  {
  }

  lemma LiteralRoot(t: Tree)
    requires t.Literal?
    ensures WfNode(t, 8, 1)
  {
  }

  lemma CopyNone(out: seq<byte>, distance: nat)
    requires 1 <= distance <= |out|
    ensures CopyMatch(out, distance, 0) == out
  {
  }

  lemma CopyOne(r: seq<byte>, distance: nat)
    requires 1 <= distance <= |r|
    ensures CopyMatch(r, distance, 1) == r + [r[|r| - distance]]
  {
    CopyNone(r + [r[|r| - distance]], distance);
  }

  lemma CopyOneMore(out: seq<byte>, distance: nat, j: nat)
    requires 1 <= distance <= |out|
    ensures var r := CopyMatch(out, distance, j); CopyMatch(out, distance, j + 1) == r + [r[|r| - distance]]
  {
    hide CopyMatch;
    CopyOne(CopyMatch(out, distance, j), distance);
    CopyAppends(out, distance, j, 1);
  }

  lemma NoBitsLeft(pr: Props, inp: seq<byte>, m: RD.Machine, t: Tree, matchByte: byte, symbol: nat)
    requires RD.Ok(pr, m) && t.Literal? && WfTree(pr, t) && WfNode(t, 0, symbol)
    ensures MatchedDecode(pr, inp, m, t, matchByte, 0, symbol) == TreeDecode(pr, inp, m, t, 0, symbol)
  {
  }

  lemma ShlZero(x: nat)
    ensures Shl(x, 0) == x
  {
  }

  /** `symbol < 0x100` tells whether literal bits remain. */
  lemma LoopTest(t: Tree, k: nat, symbol: nat)
    requires t.Literal? && WfNode(t, k, symbol)
    ensures symbol < 0x100 <==> k > 0
  {
    SmallPowers();
    if k > 0 {
      Pow2Monotone(8 - k, 7);
    }
  }

  /** The match bit that the doubled match byte presents with `k` bits to go. */
  lemma MatchBit(matchByte: byte, k: nat)
    requires 1 <= k <= 8
    ensures 2 * Shl(matchByte, 8 - k) == Shl(matchByte, 9 - k)
    ensures BitAnd(Shl(matchByte, 9 - k), 0x100) == 0x100 * (Shr(matchByte, k - 1) % 2)
  {
    var x, j := Shl(matchByte, 9 - k), 9 - k;
    assert Pow2(8) == 0x100;
    TestTopBit(x);
    ShrIsDiv(x, 8);
    ShrTwice(x, j, 8 - j);
    ShrOfShl(matchByte, j, 0);
  }

  lemma RoomForBit(k: nat)
    requires k < 26
    ensures Pow2(k + 1) == 2 * Pow2(k) && 4 * Pow2(k + 1) <= 0x1000_0000
  {
    Pow2Monotone(k + 1, 26);
    DirectRangeBound();
  }

  lemma DirectStep(pr: Props, inp: seq<byte>, m: RD.Machine, n: nat, high: nat)
    requires RD.Ok(pr, m) && n > 0
    ensures var answer, r := RD.Ask(pr, inp, m, RD.Direct), DirectDecode(pr, inp, m, n, high);
      if answer.None? then r.None?
      else r == DirectDecode(pr, inp, answer.value.1, n - 1, 2 * high + answer.value.0)
  {
    hide RD.Ask, RD.Ok, NumProbs, Pow2, WfCell, Shr;
  }

  lemma DirectEnd(pr: Props, inp: seq<byte>, m: RD.Machine, high: nat)
    requires RD.Ok(pr, m)
    ensures DirectDecode(pr, inp, m, 0, high) == Some((high, m))
  {
  }

  lemma ShiftOne(x: u32)
    requires 2 * x < 0x1_0000_0000
    ensures Shl32(x, 1) == 2 * x
  {
    assert Shl(x, 1) == 2 * Shl(x, 0);
    NoBitLost(x, 1);
  }

  lemma NoBitLost(x: u32, k: nat)
    requires Shl(x, k) < 0x1_0000_0000
    ensures Shl32(x, k) == Shl(x, k)
  {
    ShlIsMul(x, k);
  }

  /** A value whose upper digits are still to be decoded: `low` below weight `i`. */
  function Scaled(low: nat, i: nat, rest: Option<(nat, RD.Machine)>): Option<(nat, RD.Machine)> {
    if rest.None? then None else Some((low + i * rest.value.0, rest.value.1))
  }

  lemma ScaledStep(pr: Props, inp: seq<byte>, m: RD.Machine, t: Tree, n: nat, mi: nat, low: nat, i: nat)
    requires RD.Ok(pr, m) && WfTree(pr, t) && n > 0 && WfNode(t, n, mi) && WfCell(pr, Node(t, mi))
    requires WfNode(t, n - 1, 2 * mi) && WfNode(t, n - 1, 2 * mi + 1)
    ensures var answer, r := RD.Ask(pr, inp, m, RD.Adaptive(Node(t, mi))), Scaled(low, i, RevDecode(pr, inp, m, t, n, mi));
      r == if answer.None? then None
           else Scaled(if answer.value.0 == 1 then low + i else low, 2 * i,
                       RevRest(pr, inp, answer.value.1, t, n, mi, answer.value.0))
  {
    hide RD.Ok, RD.Ask, RevDecode, RevRest, WfTree, WfCell, WfNode, Levels, Pow2, NumProbs, TreeBase, CellIndex;
    RevStep(pr, inp, m, t, n, mi);
    var answer := RD.Ask(pr, inp, m, RD.Adaptive(Node(t, mi)));
    if answer.Some? {
      var rest := RevRest(pr, inp, answer.value.1, t, n, mi, answer.value.0);
      if rest.Some? {
        DoubleWeight(i, answer.value.0, rest.value.0);
      }
    }
  }

  lemma RestIs(pr: Props, inp: seq<byte>, m: RD.Machine, t: Tree, n: nat, mi: nat, bit: Bit)
    requires RD.Ok(pr, m) && WfTree(pr, t) && n > 0
    requires WfNode(t, n - 1, 2 * mi) && WfNode(t, n - 1, 2 * mi + 1)
    ensures WfNode(t, n - 1, 2 * mi + bit)
    ensures RevRest(pr, inp, m, t, n, mi, bit) == RevDecode(pr, inp, m, t, n - 1, 2 * mi + bit)
  {
    hide RevDecode, WfTree, WfNode, NumProbs;
  }

  lemma ScaledUnit(rest: Option<(nat, RD.Machine)>)
    ensures Scaled(0, 1, rest) == rest
  {
  }

  lemma ScaledEnd(pr: Props, inp: seq<byte>, m: RD.Machine, t: Tree, mi: nat, low: nat, i: nat)
    requires RD.Ok(pr, m) && WfTree(pr, t) && WfNode(t, 0, mi)
    ensures Scaled(low, i, RevDecode(pr, inp, m, t, 0, mi)) == Some((low, m))
  {
    hide WfTree, WfNode, Pow2, Levels, NumProbs;
    assert RevDecode(pr, inp, m, t, 0, mi) == Some((0, m));
    assert i * 0 == 0;
  }

  lemma DoubleWeight(i: nat, bit: Bit, rest: nat)
    ensures i * (bit + 2 * rest) == (if bit == 1 then i else 0) + (2 * i) * rest
  {
  }

  lemma DirectRangeBound()
    ensures Pow2(26) == 0x400_0000
  {
    assert Pow2(8) == 0x100;
    Pow2Add(8, 8);
    Pow2Add(16, 8);
  }

  lemma LaterSuffix(now: seq<byte>, before: seq<byte>, original: seq<byte>, from: nat, later: nat)
    requires from <= later <= |original| && before == original[from..] && now == before[later - from..]
    ensures now == original[later..]
  {
  }

  datatype Status = Continue | StreamEnd | Failed

  class LzmaDecoder {
    const props: Props
    const probs: array<u16>
    const inStream: seq<byte>

    var buffer: nat
    var range: u32
    var code: u32
    var state: nat
    var rep0: u32
    var rep1: u32
    var rep2: u32
    var rep3: u32

    constructor (props: Props, probs: array<u16>, inStream: seq<byte>)
      requires probs.Length >= NumProbs(props)
      ensures this.props == props && this.probs == probs && this.inStream == inStream
    {
      this.props, this.probs, this.inStream := props, probs, inStream;
      buffer, range, code := 0, 0, 0;
      state, rep0, rep1, rep2, rep3 := 0, 1, 1, 1, 1;
    }

    /** Every cell in use holds a probability; on entry the array may hold anything. */
    ghost predicate ProbsInRange()
      reads probs
    {
      probs.Length >= NumProbs(props) && forall i :: 0 <= i < NumProbs(props) ==> 31 <= probs[i] <= 2017
    }

    ghost function Machine(): RD.Machine
      requires ProbsInRange()
      reads this, probs
    {
      RD.Machine(range, code, buffer, probs[..NumProbs(props)])
    }

    ghost predicate Valid()
      reads this, probs
    {
      ProbsInRange() && RD.Ok(props, Machine()) && buffer <= |inStream|
    }

    ghost function History(out: seq<byte>): History
      reads this
    {
      LzmaPackets.History.History(state, rep0, rep1, rep2, rep3, out)
    }

    ghost predicate RotatedTo(h: History, p: Packet)
      reads this
    {
      RepsAfter(h, p) == (rep0 as nat, rep1 as nat, rep2 as nat, rep3 as nat)
    }

    /** RC_NORMALIZE */
    method Normalize() returns (ok: bool)
      requires Valid()
      modifies this`range, this`code, this`buffer
      ensures ok == RD.Normalize(inStream, old(Machine())).Some?
      ensures ok ==> Valid() && Machine() == RD.Normalize(inStream, old(Machine())).value
    {
      hide NumProbs, Pow2, Shl32, BitOr;
      if range < RD.TOP_VALUE {
        if buffer == |inStream| {
          return false;
        }
        ShiftRange(range);
        range := Shl32(range, 8);
        ShiftInByte(code, inStream[buffer]);
        code, buffer := BitOr(Shl32(code, 8), inStream[buffer]), buffer + 1;
      }
      return true;
    }

    /** IfBit0, UpdateBit0 and UpdateBit1 on the cell at address `p`. */
    method DecodeBit(p: nat, ghost cell: Cell) returns (ok: bool, bit: Bit)
      requires Valid() && WfCell(props, cell) && p == CellIndex(props, cell)
      modifies this`range, this`code, this`buffer, probs
      ensures ok == RD.Ask(props, inStream, old(Machine()), RD.Adaptive(cell)).Some?
      ensures ok ==> Valid() && (bit, Machine()) == RD.Ask(props, inStream, old(Machine()), RD.Adaptive(cell)).value
    {
      hide RD.Normalize, RD.Bound, CellIndex, NumProbs, WfCell, Pow2;
      ok := Normalize();
      bit := 0;
      if ok {
        CellInRegion(props, cell);
        ghost var n := Machine();
        var bound := RD.Bound(range, probs[p]);
        if code < bound {
          range := bound;
          probs[p] := probs[p] + (RD.BIT_MODEL_TOTAL - probs[p]) / RD.MOVE_DIVISOR;
          assert Machine().probs == n.probs[p := RD.ProbUp(n.probs[p])];
        } else {
          range, code := range - bound, code - bound;
          probs[p] := probs[p] - probs[p] / RD.MOVE_DIVISOR;
          assert Machine().probs == n.probs[p := RD.ProbDown(n.probs[p])];
          bit := 1;
        }
      }
    }

    /** RangeDecoderBitTreeDecode on the tree at address `base`. */
    method DecodeTree(base: nat, numLevels: nat, ghost t: Tree) returns (ok: bool, res: nat)
      requires Valid() && WfTree(props, t) && base == TreeBase(props, t) && numLevels == Levels(t)
      modifies this`range, this`code, this`buffer, probs
      ensures WfNode(t, numLevels, 1)
      ensures var r := TreeDecode(props, inStream, old(Machine()), t, numLevels, 1);
        ok == r.Some? && (ok ==> Valid() && (res + Pow2(numLevels), Machine()) == r.value)
    {
      FullTree(t);
      hide RD.Ask, TreeDecode, WfTree, WfNode, TreeBase, Levels, Pow2, NumProbs;
      var i: nat := numLevels;
      res := 1;
      ghost var r := TreeDecode(props, inStream, Machine(), t, numLevels, 1);
      while i != 0
        invariant Valid() && i <= numLevels && WfNode(t, i, res)
        invariant TreeDecode(props, inStream, Machine(), t, i, res) == r
      {
        WfNodeStep(props, t, i, res);
        TreeStep(props, inStream, Machine(), t, i, res, 0, 2 * res);
        TreeStep(props, inStream, Machine(), t, i, res, 1, 2 * res + 1);
        var bit;
        ok, bit := DecodeBit(base + res, Node(t, res));
        if !ok {
          return;
        }
        res, i := 2 * res + bit, i - 1;
      }
      TreeLeaf(props, inStream, Machine(), t, res);
      LeafBound(t, res);
      ok, res := true, res - Pow2(numLevels);
    }

    /** The reverse tree loop at address `base`: fills the low `numBits` bits of `rep0`. */
    method DecodeLowBits(base: nat, numBits: nat, ghost t: Tree, ghost high: nat) returns (ok: bool)
      requires Valid() && WfTree(props, t) && base == TreeBase(props, t) && 0 < numBits == Levels(t)
      requires rep0 == Shl(high, numBits) && Shl(high, numBits) + Pow2(numBits) <= 0x1_0000_0000
      modifies this`range, this`code, this`buffer, this`rep0, probs
      ensures WfNode(t, numBits, 1)
      ensures var r := RevDecode(props, inStream, old(Machine()), t, numBits, 1);
        ok == r.Some? && (ok ==> Valid() && (rep0 - Shl(high, numBits), Machine()) == r.value)
    {
      FullTree(t);
      hide RD.Ask, RevDecode, RevRest, Scaled, WfTree, WfNode, TreeBase, Levels, NumProbs, Pow2, Shl, BitOr;
      SmallPowers();
      var n: nat, i: nat, mi: nat := numBits, 1, 1;
      ghost var low: nat := 0;
      ghost var r := RevDecode(props, inStream, Machine(), t, numBits, 1);
      ScaledUnit(r);
      while n != 0
        invariant Valid() && n <= numBits && WfNode(t, n, mi)
        invariant i == Pow2(numBits - n) && low < i && rep0 == Shl(high, numBits) + low
        invariant Scaled(low, i, RevDecode(props, inStream, Machine(), t, n, mi)) == r
      {
        WfNodeStep(props, t, n, mi);
        ScaledStep(props, inStream, Machine(), t, n, mi, low, i);
        var bit;
        ok, bit := DecodeBit(base + mi, Node(t, mi));
        if !ok {
          return;
        }
        RestIs(props, inStream, Machine(), t, n, mi, bit);
        mi := 2 * mi + bit;
        FillBit(high, numBits, numBits - n, low);
        if bit == 1 {
          rep0, low := BitOr(rep0, i), low + i;
        }
        i, n := 2 * i, n - 1;
      }
      ScaledEnd(props, inStream, Machine(), t, mi, low, i);
      ok := true;
    }

    /** One round of the direct bits loop, up to the bit it appends to `rep0`. */
    method DecodeDirectBit() returns (ok: bool, bit: Bit)
      requires Valid()
      modifies this`range, this`code, this`buffer
      ensures ok == RD.Ask(props, inStream, old(Machine()), RD.Direct).Some?
      ensures ok ==> Valid() && (bit, Machine()) == RD.Ask(props, inStream, old(Machine()), RD.Direct).value
    {
      hide RD.Normalize, NumProbs;
      bit := 0;
      ok := Normalize();
      if ok {
        range := range / 2;
        if code >= range {
          code, bit := code - range, 1;
        }
      }
    }

    /** The direct bits loop: appends `numBits` bits to `rep0`. */
    method DecodeDirectBits(numBits: nat) returns (ok: bool)
      requires Valid() && numBits <= 26 && rep0 < 4
      modifies this`range, this`code, this`buffer, this`rep0
      ensures var r := DirectDecode(props, inStream, old(Machine()), numBits, old(rep0));
        ok == r.Some? && (ok ==> Valid() && (rep0 as nat, Machine()) == r.value && rep0 < 0x1000_0000)
    {
      hide RD.Ask, NumProbs, Pow2, Shl32, BitOr, DirectDecode;
      SmallPowers();
      var n: nat := numBits;
      ghost var r := DirectDecode(props, inStream, Machine(), numBits, rep0);
      while n != 0
        invariant Valid() && n <= numBits && rep0 < 4 * Pow2(numBits - n)
        invariant DirectDecode(props, inStream, Machine(), n, rep0) == r
      {
        DirectStep(props, inStream, Machine(), n, rep0);
        RoomForBit(numBits - n);
        var bit;
        ok, bit := DecodeDirectBit();
        if !ok {
          return;
        }
        ghost var high := rep0;
        ShiftOne(rep0);
        rep0 := Shl32(rep0, 1);
        if bit == 1 {
          OrOne(high);
          rep0 := BitOr(rep0, 1);
        }
        n := n - 1;
      }
      DirectEnd(props, inStream, Machine(), rep0);
      Pow2Monotone(numBits, 26);
      DirectRangeBound();
      ok := true;
    }

    /** The position slot and its low bits; leaves the distance, before the final
        increment, in `rep0`. */
    method DecodeDistance(len: nat) returns (ok: bool)
      requires Valid()
      modifies this`range, this`code, this`buffer, this`rep0, probs
      ensures var r := DistDecode(props, inStream, old(Machine()), LenState(len));
        ok == r.Some? && (ok ==> Valid() && (rep0 as nat, Machine()) == r.value)
    {
      hide RD.Ask, TreeDecode, SpecDecode, AlignDecode, NumProbs, Pow2;
      SmallPowers();
      var posSlot;
      ok, posSlot := DecodeTree(POS_SLOT + LenState(len) * 64, 6, PosSlot(LenState(len)));
      if !ok {
        return;
      }
      if posSlot >= START_POS_MODEL_INDEX {
        TwoLeadingBits(posSlot);
        rep0 := BitOr(2, BitAnd(posSlot, 1));
        if posSlot < END_POS_MODEL_INDEX {
          ok := DecodeSpecPos(posSlot);
        } else {
          ok := DecodeAligned(posSlot);
        }
      } else {
        rep0 := posSlot;
      }
    }

    method DecodeSpecPos(posSlot: nat) returns (ok: bool)
      requires Valid() && START_POS_MODEL_INDEX <= posSlot < END_POS_MODEL_INDEX && rep0 == 2 + posSlot % 2
      modifies this`range, this`code, this`buffer, this`rep0, probs
      ensures var r := SpecDecode(props, inStream, old(Machine()), posSlot);
        ok == r.Some? && (ok ==> Valid() && (rep0 as nat, Machine()) == r.value)
    {
      hide RD.Ask, RevDecode, NumProbs, Pow2, Shl, Shl32;
      SpecPosBound(posSlot);
      var numDirectBits := posSlot / 2 - 1;
      SpecPosFits(posSlot);
      NoBitLost(rep0, numDirectBits);
      rep0 := Shl32(rep0, numDirectBits);
      ok := DecodeLowBits(SPEC_POS + rep0 - posSlot - 1, numDirectBits, SpecPos(posSlot), 2 + posSlot % 2);
    }

    method DecodeAligned(posSlot: nat) returns (ok: bool)
      requires Valid() && END_POS_MODEL_INDEX <= posSlot < 64 && rep0 == 2 + posSlot % 2
      modifies this`range, this`code, this`buffer, this`rep0, probs
      ensures var r := AlignDecode(props, inStream, old(Machine()), posSlot);
        ok == r.Some? && (ok ==> Valid() && (rep0 as nat, Machine()) == r.value)
    {
      hide RD.Ask, RevDecode, DirectDecode, NumProbs, Pow2, Shl;
      SmallPowers();
      ok := DecodeDirectBits(posSlot / 2 - 1 - 4);
      if !ok {
        return;
      }
      ghost var high := rep0;
      ShlIsMul(high, 4);
      NoBitLost(rep0, 4);
      rep0 := Shl32(rep0, 4);
      ok := DecodeLowBits(ALIGN, 4, Align, high);
    }

    /** The length coder at address `prob`; the result lacks the minimum length. */
    method DecodeLength(prob: nat, posState: nat, ghost rep: bool) returns (ok: bool, len: nat)
      requires Valid() && prob == LenBase(rep) && posState < Pow2(props.pb)
      modifies this`range, this`code, this`buffer, probs
      ensures var r := LenDecode(props, inStream, old(Machine()), rep, posState);
        ok == r.Some? && (ok ==> Valid() && (len, Machine()) == r.value)
    {
      hide RD.Ask, TreeDecode, NumProbs, Pow2;
      SmallPowers();
      len := 0;
      var choice, offset;
      ok, choice := DecodeBit(prob + LEN_CHOICE, LenChoice(rep));
      if !ok {
        return;
      }
      if choice == 0 {
        offset := 0;
        ok, len := DecodeTree(prob + LEN_LOW + posState * 8, 3, LenLow(rep, posState));
      } else {
        ok, choice := DecodeBit(prob + LEN_CHOICE_2, LenChoice2(rep));
        if !ok {
          return;
        }
        if choice == 0 {
          offset := 8;
          ok, len := DecodeTree(prob + LEN_MID + posState * 8, 3, LenMid(rep, posState));
        } else {
          offset := 8 + 8;
          ok, len := DecodeTree(prob + LEN_HIGH, 8, LenHigh(rep));
        }
      }
      len := len + offset;
    }

    /** Lines 402 to 430: one of the distances 1 to 3, rotated to the front. */
    method SelectFarRep() returns (ok: bool)
      requires Valid() && state < NUM_STATES
      modifies this`range, this`code, this`buffer, this`rep0, this`rep1, this`rep2, this`rep3, probs
      ensures var r := FarSelect(props, inStream, old(Machine()), state);
        && ok == r.Some?
        && (ok ==> Valid() && Machine() == r.value.1)
        && (ok ==> RotatedTo(old(History([])), Rep(r.value.0, MATCH_MIN_LEN)))
    {
      hide RD.Ask, NumProbs, Pow2, CellIndex, WfCell;
      RepCells(props, state, 0);
      var distance, bit;
      ok, bit := DecodeBit(IS_REP_G1 + state, IsRepG1(state));
      if !ok {
        return;
      }
      if bit == 0 {
        distance := rep1;
      } else {
        ok, bit := DecodeBit(IS_REP_G2 + state, IsRepG2(state));
        if !ok {
          return;
        }
        if bit == 0 {
          distance := rep2;
        } else {
          distance := rep3;
          rep3 := rep2;
        }
        rep2 := rep1;
      }
      rep1 := rep0;
      rep0 := distance;
    }

    /** Lines 356 to 430: which repeated distance, rotated to the front. */
    method SelectRep(posState: nat) returns (ok: bool, short: bool)
      requires Valid() && state < NUM_STATES && posState < Pow2(props.pb)
      modifies this`range, this`code, this`buffer, this`rep0, this`rep1, this`rep2, this`rep3, probs
      ensures var r := RepSelect(props, inStream, old(Machine()), state, posState);
        && ok == r.Some?
        && (ok ==> Valid() && Machine() == r.value.1 && short == (r.value.0 == SHORT_REP))
        && (ok ==> RotatedTo(old(History([])), if short then ShortRep else Rep(r.value.0, MATCH_MIN_LEN)))
    {
      hide RD.Ask, FarSelect, NumProbs, Pow2, CellIndex, WfCell;
      RepCells(props, state, posState);
      short := false;
      var bit;
      ok, bit := DecodeBit(IS_REP_G0 + state, IsRepG0(state));
      if !ok {
        return;
      }
      if bit == 0 {
        ok, bit := DecodeBit(IS_REP_0_LONG + state * 16 + posState, IsRep0Long(state, posState));
        short := bit == 0;
      } else {
        ok := SelectFarRep();
      }
    }

    /** Lines 301 to 319: bits that follow the match byte, to the first difference. */
    method DecodeMatchedBits(prob: nat, match0: byte, ghost t: Tree) returns (ok: bool, symbol: nat, ghost k: nat)
      requires Valid() && t.Literal? && WfTree(props, t) && prob == LiteralBase(props, t.lowPos, t.prevHigh)
      modifies this`range, this`code, this`buffer, probs
      ensures WfNode(t, 8, 1)
      ensures var r := MatchedDecode(props, inStream, old(Machine()), t, match0, 8, 1);
        && (!ok ==> r.None?)
        && (ok ==> Valid() && WfNode(t, k, symbol))
        && (ok ==> TreeDecode(props, inStream, Machine(), t, k, symbol) == r)
    {
      hide RD.Ask, MatchedDecode, TreeDecode, WfTree, WfNode, NumProbs, Pow2, Shl, Shr, LiteralBase, Levels;
      LiteralRoot(t);
      var bit;
      symbol, k := 1, 8;
      var matchByte: nat := match0;
      ghost var r := MatchedDecode(props, inStream, Machine(), t, match0, 8, 1);
      ShlZero(match0);
      while symbol < 0x100
        invariant Valid() && k <= 8 && WfNode(t, k, symbol) && matchByte == Shl(match0, 8 - k)
        invariant MatchedDecode(props, inStream, Machine(), t, match0, k, symbol) == r
        decreases k
      {
        LoopTest(t, k, symbol);
        MatchBit(match0, k);
        matchByte := 2 * matchByte;
        var matchBit := BitAnd(matchByte, 0x100);
        ghost var cell := MatchedLit(t.lowPos, t.prevHigh, matchBit / 0x100, symbol);
        WfMatchedStep(props, t, k, symbol, matchBit / 0x100);
        MatchedStep(props, inStream, Machine(), t, match0, k, symbol, cell);
        ok, bit := DecodeBit(prob + 0x100 + matchBit + symbol, cell);
        if !ok {
          return;
        }
        symbol, k := 2 * symbol + bit, k - 1;
        if bit == 0 {
          if matchBit != 0 {
            break;
          }
        } else {
          if matchBit == 0 {
            break;
          }
        }
      }
      LoopTest(t, k, symbol);
      if k == 0 {
        NoBitsLeft(props, inStream, Machine(), t, match0, symbol);
      }
      ok := true;
    }

    /** Lines 321 to 325: the remaining bits in the plain contexts. */
    method DecodePlainBits(prob: nat, start: nat, ghost t: Tree, ghost k0: nat) returns (ok: bool, symbol: nat)
      requires Valid() && t.Literal? && WfTree(props, t) && prob == TreeBase(props, t) && WfNode(t, k0, start)
      modifies this`range, this`code, this`buffer, probs
      ensures var r := TreeDecode(props, inStream, old(Machine()), t, k0, start);
        ok == r.Some? && (ok ==> Valid() && (symbol, Machine()) == r.value)
    {
      hide RD.Ask, WfTree, NumProbs, Pow2, TreeBase, Levels;
      symbol := start;
      var bit;
      ghost var k: nat := k0;
      ghost var r := TreeDecode(props, inStream, Machine(), t, k0, start);
      while symbol < 0x100
        invariant Valid() && k <= k0 && WfNode(t, k, symbol)
        invariant TreeDecode(props, inStream, Machine(), t, k, symbol) == r
        decreases k
      {
        LoopTest(t, k, symbol);
        WfNodeStep(props, t, k, symbol);
        ok, bit := DecodeBit(prob + symbol, Node(t, symbol));
        if !ok {
          return;
        }
        symbol, k := 2 * symbol + bit, k - 1;
      }
      LoopTest(t, k, symbol);
      ok := true;
    }

    /** Lines 288 to 326: a literal in the context of its position and predecessor. */
    method DecodeLiteral(outStream: array<byte>, nowPos: nat, previousByte: byte, ghost out: seq<byte>)
      returns (ok: bool, value: byte)
      requires Valid() && nowPos <= outStream.Length && out == outStream[..nowPos]
      requires previousByte == PreviousByte(out) && WfHistory(History(out))
      modifies this`range, this`code, this`buffer, probs
      ensures var r := LitDecode(props, inStream, old(Machine()), old(History(out)));
        ok == r.Some? && (ok ==> Valid() && (value, Machine()) == r.value)
    {
      hide RD.Ask, TreeDecode, MatchedDecode, NumProbs, Pow2, Shl, Shr;
      SmallPowers();
      ghost var t, k := LiteralTree(props, out), 8;
      AndMaskIsMod(nowPos, props.lp);
      var prob := LITERAL + LZMA_LIT_SIZE *
        (Shl(BitAnd(nowPos, Pow2(props.lp) - 1), props.lc) + Shr(previousByte, 8 - props.lc));
      var symbol := 1;
      value := 0;
      if state >= NUM_LIT_STATES {
        ok, symbol, k := DecodeMatchedBits(prob, outStream[nowPos - rep0], t);
        if !ok {
          return;
        }
      }
      ok, symbol := DecodePlainBits(prob, symbol, t, k);
      if ok {
        value := symbol - 0x100;
      }
    }

    /** Lines 540 to 556: the copy loop, which stops at `outSize` even inside a match. */
    method CopyBytes(outStream: array<byte>, nowPos: nat, len: nat, outSize: nat) returns (pos: nat, previousByte: byte)
      requires 1 <= rep0 <= nowPos < outSize <= outStream.Length && len > 0
      modifies outStream
      ensures pos == if nowPos + len < outSize then nowPos + len else outSize
      ensures outStream[..pos] == Cut(CopyMatch(old(outStream[..nowPos]), rep0, len), outSize)
      ensures previousByte == outStream[pos - 1]
      ensures outStream[pos..] == old(outStream[pos..])
    {
      hide CopyMatch;
      ghost var out := outStream[..nowPos];
      CopyNone(out, rep0);
      ghost var j := 0;
      var left := len;
      pos := nowPos;
      previousByte := 0;
      while left == len || (left != 0 && pos < outSize)
        invariant 0 <= left == len - j && pos == nowPos + j <= outSize
        invariant outStream[..pos] == CopyMatch(out, rep0, j)
        invariant left < len ==> previousByte == outStream[pos - 1]
        invariant outStream[pos..] == old(outStream[pos..])
        decreases left
      {
        CopyOneMore(out, rep0, j);
        previousByte := outStream[pos - rep0];
        left := left - 1;
        outStream[pos] := previousByte;
        assert outStream[pos + 1..] == old(outStream[pos..])[1..];
        pos, j := pos + 1, j + 1;
      }
      CopyAppends(out, rep0, j, len - j);
    }

    /** Lines 467 to 517: a simple match reads its distance, and `rep0` may wrap to 0. */
    method DecodeNewDistance(len: nat) returns (ok: bool)
      requires Valid()
      modifies this`range, this`code, this`buffer, this`state, this`rep0, probs
      ensures var r := DistDecode(props, inStream, old(Machine()), LenState(len));
        && ok == r.Some?
        && (ok ==> Valid() && Machine() == r.value.1 && r.value.0 < 0x1_0000_0000)
        && (ok ==> rep0 == if r.value.0 == END_DISTANCE then 0 else r.value.0 + 1)
      ensures state == old(state) + NUM_LIT_STATES
    {
      hide RD.Ask, DistDecode, NumProbs;
      state := state + NUM_LIT_STATES;
      DistExec(props, inStream, Machine(), LenState(len), 0);
      ok := DecodeDistance(len);
      if ok {
        rep0 := (rep0 + 1) % 0x1_0000_0000;
      }
    }

    /** Lines 434 to 525: the length, and after a simple match its distance, which wraps
        `rep0` to 0 for the end marker. */
    method DecodeLengthAndDistance(prob: nat, posState: nat, ghost rep: bool) returns (ok: bool, len: nat)
      requires Valid() && prob == LenBase(rep) && posState < Pow2(props.pb) && (state < 4 <==> !rep)
      modifies this`range, this`code, this`buffer, this`state, this`rep0, probs
      ensures rep ==>
        var r := RepLenDecode(props, inStream, old(Machine()), posState, 0);
        && ok == r.Some?
        && (ok ==> Valid() && Machine() == r.value.1 && len == r.value.0.len && rep0 == old(rep0) && state == old(state))
      ensures !rep ==>
        var r := MatchDecode(props, inStream, old(Machine()), posState);
        && ok == r.Some?
        && (ok ==> Valid() && Machine() == r.value.1 && len == r.value.0.len && state == old(state) + NUM_LIT_STATES)
        && (ok ==> rep0 == if r.value.0.EndMarker? then 0 else r.value.0.distance)
    {
      hide RD.Ask, LenDecode, DistDecode, NumProbs, Pow2;
      ok, len := DecodeLength(prob, posState, rep);
      if !ok {
        return;
      }
      if state < 4 {
        ok := DecodeNewDistance(len);
        if !ok {
          return;
        }
      }
      len := len + MATCH_MIN_LEN;
    }

    /** The selected distance does not depend on the length. */
    lemma RepAtAnyLength(pr: Props, inp: seq<byte>, m: RD.Machine, posState: nat, index: nat)
      requires RD.Ok(pr, m) && posState < Pow2(pr.pb) && index < 4
      ensures var r, r0 := RepLenDecode(pr, inp, m, posState, index), RepLenDecode(pr, inp, m, posState, 0);
        if r0.None? then r.None? else r == Some((Rep(index, r0.value.0.len), r0.value.1))
    {
      hide LenDecode, NumProbs, Pow2;
    }

    /** Lines 344 to 523: which repeat or new distance, and the length. A new distance
        of 2^32 wraps `rep0` to 0, the end marker. */
    method DecodeCopy(posState: nat) returns (ok: bool, short: bool, len: nat)
      requires Valid() && WfHistoryFields() && posState < Pow2(props.pb)
      modifies this`range, this`code, this`buffer, this`state, this`rep0, this`rep1, this`rep2, this`rep3, probs
      ensures var r := CopyDecode(props, inStream, old(Machine()), old(state), posState);
        && ok == r.Some?
        && (ok ==> Valid() && Machine() == r.value.1)
        && (ok ==> CopyDecoded(old(History([])), r.value.0, short, len))
    {
      hide RD.Ask, RepLenDecode, MatchDecode, RepSelect, NumProbs, Pow2, CellIndex, WfCell;
      IsRepCell(props, state);
      short, len := false, 0;
      ghost var h := History([]);
      var isRep;
      var prob;
      ok, isRep := DecodeBit(IS_REP + state, IsRep(state));
      if !ok {
        return;
      }
      if isRep == 0 {
        rep3 := rep2;
        rep2 := rep1;
        rep1 := rep0;
        state := if state < NUM_LIT_STATES then 0 else 3;
        prob := LEN_CODER;
      } else {
        ghost var selected := RepSelect(props, inStream, Machine(), state, posState);
        ok, short := SelectRep(posState);
        if !ok || short {
          return;
        }
        RepAtAnyLength(props, inStream, Machine(), posState, selected.value.0);
        state := if state < NUM_LIT_STATES then 8 else 11;
        prob := REP_LEN_CODER;
      }
      ok, len := DecodeLengthAndDistance(prob, posState, isRep == 1);
    }

    ghost predicate WfHistoryFields()
      reads this
    {
      state < NUM_STATES && rep0 > 0 && rep1 > 0 && rep2 > 0 && rep3 > 0
    }

    /** The fields after packet `p` was decoded, before its bytes are copied. */
    ghost predicate CopyDecoded(h: History, p: Packet, short: bool, len: nat)
      reads this
    {
      match p
      case Lit(_) => false
      case ShortRep => short && RotatedTo(h, p) && state == h.state
      case Rep(_, n) => !short && len == n && RotatedTo(h, p) && state == StateAfter(h.state, 8, 11)
      case Match(_, n) => !short && len == n && RotatedTo(h, p) && state == StateAfter(h.state, 7, 10)
      case EndMarker(_) => !short && rep0 == 0
    }

    /** The fields and the output hold history `h`, the output only up to `outSize`. */
    ghost predicate Holds(h: History, outStream: array<byte>, nowPos: nat, previousByte: byte, outSize: nat)
      reads this, outStream
    {
      && WfHistory(h) && History(h.out) == h
      && nowPos == (if |h.out| < outSize then |h.out| else outSize) <= outStream.Length
      && outStream[..nowPos] == Cut(h.out, outSize)
      && (nowPos < outSize ==> previousByte == PreviousByte(h.out))
    }

    /** Lines 288 to 339: a literal packet. */
    method PutLiteral(outStream: array<byte>, nowPos0: nat, previousByte0: byte, outSize: nat, ghost h: History)
      returns (ok: bool, nowPos: nat, previousByte: byte)
      requires Valid() && nowPos0 < outSize <= outStream.Length && Holds(h, outStream, nowPos0, previousByte0, outSize)
      requires probs as object != outStream
      modifies this`range, this`code, this`buffer, this`state, this`rep0, this`rep1, this`rep2, this`rep3
      modifies probs, outStream
      ensures var r := LitDecode(props, inStream, old(Machine()), h);
        && ok == r.Some?
        && (ok ==> Valid() && Machine() == r.value.1)
        && (ok ==> Holds(Apply(h, Lit(r.value.0)).value, outStream, nowPos, previousByte, outSize))
      ensures nowPos == if ok then nowPos0 + 1 else nowPos0
      ensures !ok ==> outStream[..nowPos] == h.out
      ensures outStream[nowPos..] == old(outStream[nowPos..])
    {
      hide RD.Ask, LitDecode, NumProbs, Pow2, CopyMatch;
      nowPos, previousByte := nowPos0, previousByte0;
      assert outStream[..nowPos] == h.out;
      ok, previousByte := DecodeLiteral(outStream, nowPos, previousByte, outStream[..nowPos]);
      if ok {
        outStream[nowPos] := previousByte;
        nowPos := nowPos + 1;
        state := if state < 4 then 0 else if state < 10 then state - 3 else state - 6;
        assert outStream[..nowPos] == h.out + [previousByte];
      }
    }

    /** Lines 344 to 556: a packet that copies. */
    method PutCopy(outStream: array<byte>, nowPos0: nat, previousByte0: byte, outSize: nat, posState: nat, ghost h: History)
      returns (status: Status, nowPos: nat, previousByte: byte)
      requires Valid() && nowPos0 < outSize <= outStream.Length && Holds(h, outStream, nowPos0, previousByte0, outSize)
      requires probs as object != outStream
      modifies this`range, this`code, this`buffer, this`state, this`rep0, this`rep1, this`rep2, this`rep3
      modifies probs, outStream
      requires posState < Pow2(props.pb)
      ensures var r := CopyDecode(props, inStream, old(Machine()), h.state, posState);
        && (status.Failed? <==> r.None? || (!r.value.0.EndMarker? && Apply(h, r.value.0).None?))
        && (status.StreamEnd? <==> r.Some? && r.value.0.EndMarker?)
        && (!status.Failed? ==> Valid() && Machine() == r.value.1)
        && (status.Continue? ==> Holds(Apply(h, r.value.0).value, outStream, nowPos, previousByte, outSize))
      ensures nowPos0 <= nowPos <= outSize && (status.Continue? ==> nowPos0 < nowPos)
      ensures !status.Continue? ==> nowPos == nowPos0 && outStream[..nowPos] == h.out
      ensures outStream[nowPos..] == old(outStream[nowPos..])
    {
      hide RD.Ask, CopyDecode, NumProbs, Pow2, CopyMatch;
      nowPos, previousByte := nowPos0, previousByte0;
      assert outStream[..nowPos] == h.out;
      ghost var r := CopyDecode(props, inStream, Machine(), h.state, posState);
      var ok, short, len := DecodeCopy(posState);
      if !ok {
        return Failed, nowPos, previousByte;
      }
      status, nowPos, previousByte := Copy(outStream, nowPos, previousByte, outSize, short, len, h, r.value.0);
    }

    /** Lines 372 to 394 and 517 to 556: what follows the decoding of packet `p`. */
    method Copy(outStream: array<byte>, nowPos0: nat, previousByte0: byte, outSize: nat, short: bool, len: nat,
                ghost h: History, ghost p: Packet)
      returns (status: Status, nowPos: nat, previousByte: byte)
      requires Valid() && WfHistory(h) && WfPacket(p) && !p.Lit? && CopyDecoded(h, p, short, len)
      requires nowPos0 < outSize <= outStream.Length && outStream[..nowPos0] == h.out && probs as object != outStream
      requires previousByte0 == PreviousByte(h.out)
      modifies this`state, outStream
      ensures status.Failed? <==> !p.EndMarker? && Apply(h, p).None?
      ensures status.StreamEnd? <==> p.EndMarker?
      ensures status.Continue? ==> Holds(Apply(h, p).value, outStream, nowPos, previousByte, outSize)
      ensures nowPos0 <= nowPos <= outSize && (status.Continue? ==> nowPos0 < nowPos)
      ensures !status.Continue? ==> nowPos == nowPos0 && outStream[..nowPos] == h.out
      ensures outStream[nowPos..] == old(outStream[nowPos..])
    {
      hide NumProbs, Pow2, CopyMatch;
      nowPos, previousByte := nowPos0, previousByte0;
      if short {
        if nowPos == 0 {
          return Failed, nowPos, previousByte;
        }
        state := if state < NUM_LIT_STATES then 9 else 11;
        previousByte := outStream[nowPos - rep0];
        outStream[nowPos] := previousByte;
        nowPos := nowPos + 1;
        assert outStream[..nowPos] == h.out + [previousByte];
        return Continue, nowPos, previousByte;
      }
      if rep0 == 0 {
        return StreamEnd, nowPos, previousByte;
      }
      if rep0 > nowPos {
        return Failed, nowPos, previousByte;
      }
      nowPos, previousByte := CopyBytes(outStream, nowPos, len, outSize);
      status := Continue;
    }

    /** One round of the main loop: lines 275 to 557. */
    method DecodePacket(outStream: array<byte>, nowPos0: nat, previousByte0: byte, outSize: nat, ghost h: History)
      returns (status: Status, nowPos: nat, previousByte: byte)
      requires Valid() && nowPos0 < outSize <= outStream.Length && Holds(h, outStream, nowPos0, previousByte0, outSize)
      requires probs as object != outStream
      modifies this`range, this`code, this`buffer, this`state, this`rep0, this`rep1, this`rep2, this`rep3
      modifies probs, outStream
      ensures var r := PacketStep(props, inStream, old(Machine()), h);
        match status
        case Failed => r.Broken?
        case StreamEnd => Valid() && r == Ended(Machine())
        case Continue => Valid() && r.Extended? && r.m == Machine()
                         && Holds(r.h, outStream, nowPos, previousByte, outSize)
      ensures nowPos0 <= nowPos <= outSize && (status.Continue? ==> nowPos0 < nowPos)
      ensures !status.Continue? ==> nowPos == nowPos0 && outStream[..nowPos] == h.out
      ensures outStream[nowPos..] == old(outStream[nowPos..])
    {
      hide RD.Ask, LitDecode, CopyDecode, NumProbs, Pow2, CopyMatch;
      nowPos, previousByte := nowPos0, previousByte0;
      AndMaskIsMod(nowPos, props.pb);
      PosStateBound(props, PosState(props, nowPos));
      var posState := BitAnd(nowPos, Pow2(props.pb) - 1);
      var ok, bit := DecodeBit(IS_MATCH + state * 16 + posState, IsMatch(state, posState));
      if !ok {
        return Failed, nowPos, previousByte;
      }
      if bit == 0 {
        ok, nowPos, previousByte := PutLiteral(outStream, nowPos, previousByte, outSize, h);
        status := if ok then Continue else Failed;
      } else {
        status, nowPos, previousByte := PutCopy(outStream, nowPos, previousByte, outSize, posState, h);
      }
    }

    /** Lines 258 to 263: every context starts undecided. */
    method ResetProbs()
      requires probs.Length >= NumProbs(props)
      modifies probs
      ensures probs[..NumProbs(props)] == seq(NumProbs(props), _ => 1024)
    {
      hide Pow2;
      var numProbs := LITERAL + LZMA_LIT_SIZE * Pow2(props.lc + props.lp);
      assert numProbs == NumProbs(props);
      hide NumProbs;
      var i := 0;
      while i < numProbs
        invariant 0 <= i <= numProbs
        invariant forall j :: 0 <= j < i ==> probs[j] == 1024
      {
        probs[i] := RD.BIT_MODEL_TOTAL / 2;
        i := i + 1;
      }
    }

    /** RC_INIT2 */
    method ReadStart() returns (ok: bool)
      modifies this`range, this`code, this`buffer
      ensures ok == (|inStream| >= 5)
      ensures ok ==> range == 0xFFFF_FFFF && code == CodeWord(inStream, 5) && buffer == 5
    {
      buffer, code, range := 0, 0, 0xFFFF_FFFF;
      var i := 0;
      while i < 5
        invariant 0 <= i <= 5 && range == 0xFFFF_FFFF && buffer == i <= |inStream| && code == CodeWord(inStream, i)
      {
        if buffer == |inStream| {
          return false;
        }
        ShiftInByte(code, inStream[buffer]);
        code, buffer := BitOr(Shl32(code, 8), inStream[buffer]), buffer + 1;
        i := i + 1;
      }
      return true;
    }

    /** The whole decoder. On success and on a data error alike, the output holds the
        expansion of the packets decoded, cut at `outSize`, and is unchanged after it. */
    method LzmaDecode(outStream: array<byte>, outSize: nat)
      returns (result: nat, inSizeProcessed: nat, outSizeProcessed: nat)
      requires probs.Length >= NumProbs(props) && outSize <= outStream.Length && probs as object != outStream
      modifies this`range, this`code, this`buffer, this`state, this`rep0, this`rep1, this`rep2, this`rep3
      modifies probs, outStream
      ensures match Decode(props, inStream, outSize)
        case DataError => result == LZMA_RESULT_DATA_ERROR && inSizeProcessed == 0 && outSizeProcessed == 0
        case Finished(out, consumed) =>
          && result == LZMA_RESULT_OK && inSizeProcessed == consumed && outSizeProcessed == |out|
          && out == Written(props, inStream, outSize)
      ensures var w := Written(props, inStream, outSize);
        |w| <= outSize && outStream[..|w|] == w && outStream[|w|..] == old(outStream[|w|..])
    {
      hide RD.Ask, PacketStep, NumProbs, RD.Normalize, CodeWord, DecodeFrom, Reached;
      result, inSizeProcessed, outSizeProcessed := LZMA_RESULT_DATA_ERROR, 0, 0;
      var nowPos, previousByte := 0, 0;
      state, rep0, rep1, rep2, rep3 := 0, 1, 1, 1, 1;
      ResetProbs();
      var ok := ReadStart();
      if !ok {
        return;
      }
      ghost var h := START_HISTORY;
      assert StartMachine(props, inStream) == Some(Machine());
      while nowPos < outSize
        invariant Valid() && Holds(h, outStream, nowPos, previousByte, outSize)
        invariant DecodeFrom(props, inStream, Machine(), h, outSize) == Decode(props, inStream, outSize)
        invariant Cut(Reached(props, inStream, Machine(), h, outSize).out, outSize) == Written(props, inStream, outSize)
        invariant nowPos <= outSize && outStream[nowPos..] == old(outStream[nowPos..])
        decreases outSize - nowPos
      {
        ghost var before, rest := nowPos, outStream[nowPos..];
        ghost var r := PacketStep(props, inStream, Machine(), h);
        RoundOfLoop(props, inStream, Machine(), h, outSize);
        var status;
        status, nowPos, previousByte := DecodePacket(outStream, nowPos, previousByte, outSize, h);
        LaterSuffix(outStream[nowPos..], rest, old(outStream[..]), before, nowPos);
        if status.Failed? {
          return;
        }
        if status.StreamEnd? {
          break;
        }
        h := r.h;
      }
      if nowPos >= outSize {
        EndOfLoop(props, inStream, Machine(), h, outSize);
      }
      assert Finish(inStream, Machine(), h, outSize) == Decode(props, inStream, outSize);
      ok := Normalize();
      if ok {
        result, inSizeProcessed, outSizeProcessed := LZMA_RESULT_OK, buffer, nowPos;
      }
    }
  }
}
