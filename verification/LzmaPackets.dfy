/** LZ77 packets: the history they extend, and their codes in the contexts that the
    history selects. */
module LzmaPackets {
  import opened Wrappers
  import opened Bits
  import opened LzmaContexts
  import opened LzmaRangeDecoder
  import opened LzmaSymbols
  import opened LzmaDistances

  const END_DISTANCE: nat := 0xFFFF_FFFF
  const MATCH_MIN_LEN: nat := 2

  datatype Packet =
    | Lit(value: byte)
    | Match(distance: nat, len: nat)
    | ShortRep
    | Rep(index: nat, len: nat)
    | EndMarker(len: nat)

  datatype History = History(state: nat, rep0: nat, rep1: nat, rep2: nat, rep3: nat, out: seq<byte>)

  const START_HISTORY: History := History(0, 1, 1, 1, 1, [])

  predicate WfLen(len: nat) {
    MATCH_MIN_LEN <= len < MATCH_MIN_LEN + 272
  }

  predicate WfPacket(p: Packet) {
    match p
    case Lit(_) => true
    case Match(distance, len) => 1 <= distance <= END_DISTANCE && WfLen(len)
    case ShortRep => true
    case Rep(index, len) => index < 4 && WfLen(len)
    case EndMarker(len) => WfLen(len)
  }

  predicate WfRep(rep: nat, size: nat) {
    1 <= rep <= if size > 0 then size else 1
  }

  /** The history invariant of the packet loop, kept on every input. */
  predicate WfHistory(h: History) {
    && h.state < NUM_STATES
    && (h.state >= NUM_LIT_STATES ==> |h.out| > 0)
    && WfRep(h.rep0, |h.out|) && WfRep(h.rep1, |h.out|)
    && WfRep(h.rep2, |h.out|) && WfRep(h.rep3, |h.out|)
  }

  // ---- What a packet does to the history ----

  /** `n` bytes copied one by one from `distance` back, each visible to the next. */
  function CopyMatch(out: seq<byte>, distance: nat, n: nat): (r: seq<byte>)
    requires 1 <= distance <= |out|
    ensures |r| == |out| + n && out <= r
    decreases n
  {
    if n == 0 then out
    else CopyMatch(out + [out[|out| - distance]], distance, n - 1)
  }

  /** An overlapping copy repeats the last `distance` bytes periodically. */
  lemma {:induction false} CopyIsPeriodic(out: seq<byte>, distance: nat, n: nat, j: nat)
    requires 1 <= distance <= |out| && j < n
    ensures CopyMatch(out, distance, n)[|out| + j] == out[|out| - distance + j % distance]
    decreases n
  {
    var next := out + [out[|out| - distance]];
    var r := CopyMatch(next, distance, n - 1);
    if j == 0 {
      assert r[|out|] == next[|out|];
    } else {
      CopyIsPeriodic(next, distance, n - 1, j - 1);
      if j % distance == 0 {
        ModPredecessor(j, distance);
      } else {
        ModPredecessor(j, distance);
      }
    }
  }

  lemma ModPredecessor(j: nat, d: nat)
    requires j > 0 && d > 0
    ensures (j - 1) % d == if j % d == 0 then d - 1 else j % d - 1
  {
    var q, r := j / d, j % d;
    assert j == q * d + r;
    if r == 0 {
      assert (q - 1) * d == q * d - d;
      DivModUnique(j - 1, d, q - 1, d - 1);
    } else {
      DivModUnique(j - 1, d, q, r - 1);
    }
  }

  lemma {:induction false} CopyAppends(out: seq<byte>, distance: nat, j: nat, n: nat)
    requires 1 <= distance <= |out|
    ensures CopyMatch(CopyMatch(out, distance, j), distance, n) == CopyMatch(out, distance, j + n)
    decreases j
  {
    if j > 0 {
      CopyAppends(out + [out[|out| - distance]], distance, j - 1, n);
    }
  }

  function StateAfterLiteral(state: nat): nat {
    if state < 4 then 0 else if state < 10 then state - 3 else state - 6
  }

  function StateAfter(state: nat, afterLiteral: nat, afterMatch: nat): nat {
    if state < NUM_LIT_STATES then afterLiteral else afterMatch
  }

  /** The repeated distances after a packet, most recent first. */
  function RepsAfter(h: History, p: Packet): (nat, nat, nat, nat) {
    match p
    case Match(distance, _) => (distance, h.rep0, h.rep1, h.rep2)
    case Rep(1, _) => (h.rep1, h.rep0, h.rep2, h.rep3)
    case Rep(2, _) => (h.rep2, h.rep0, h.rep1, h.rep3)
    case Rep(3, _) => (h.rep3, h.rep0, h.rep1, h.rep2)
    case _ => (h.rep0, h.rep1, h.rep2, h.rep3)
  }

  /** The extended history; `None` if the packet reaches back past the start. */
  function Apply(h: History, p: Packet): (r: Option<History>)
    requires WfHistory(h) && WfPacket(p) && !p.EndMarker?
    ensures r.Some? ==> WfHistory(r.value) && h.out < r.value.out
  {
    var (r0, r1, r2, r3) := RepsAfter(h, p);
    match p
    case Lit(value) =>
      Some(History(StateAfterLiteral(h.state), r0, r1, r2, r3, h.out + [value]))
    case ShortRep =>
      if |h.out| == 0 then None
      else Some(History(StateAfter(h.state, 9, 11), r0, r1, r2, r3, h.out + [h.out[|h.out| - r0]]))
    case Match(_, len) =>
      if r0 > |h.out| then None
      else Some(History(StateAfter(h.state, 7, 10), r0, r1, r2, r3, CopyMatch(h.out, r0, len)))
    case Rep(_, len) =>
      if r0 > |h.out| then None
      else Some(History(StateAfter(h.state, 8, 11), r0, r1, r2, r3, CopyMatch(h.out, r0, len)))
  }

  /** `state` tells whether the last packet was a literal. */
  lemma StateTellsLiteral(h: History, p: Packet)
    requires WfHistory(h) && WfPacket(p) && !p.EndMarker? && Apply(h, p).Some?
    ensures Apply(h, p).value.state < NUM_LIT_STATES <==> p.Lit?
  {
  }

  // ---- Literals in context ----

  function PreviousByte(out: seq<byte>): byte {
    if |out| == 0 then 0 else out[|out| - 1]
  }

  function PosState(pr: Props, pos: nat): (r: nat)
    ensures r < Pow2(pr.pb)
  {
    pos % Pow2(pr.pb)
  }

  lemma {:induction false} HighBitsBound(b: nat, width: nat, k: nat)
    requires b < Pow2(width) && k <= width
    ensures Shr(b, k) < Pow2(width - k)
  {
    if k > 0 {
      HighBitsBound(b, width, k - 1);
    }
  }

  function LiteralTree(pr: Props, out: seq<byte>): (t: Tree)
    ensures t.Literal? && WfTree(pr, t) && WfNode(t, 8, 1)
  {
    assert Pow2(8) == 256;
    HighBitsBound(PreviousByte(out), 8, 8 - pr.lc);
    Literal(|out| % Pow2(pr.lp), Shr(PreviousByte(out), 8 - pr.lc))
  }

  function LitDecode(pr: Props, inp: seq<byte>, m: Machine, h: History): (r: Option<(byte, Machine)>)
    requires Ok(pr, m) && WfHistory(h)
    ensures r.Some? ==> Ok(pr, r.value.1)
  {
    var t := LiteralTree(pr, h.out);
    assert Pow2(8) == 256;
    var (symbol, m') :- if h.state >= NUM_LIT_STATES
      then MatchedDecode(pr, inp, m, t, h.out[|h.out| - h.rep0], 8, 1)
      else TreeDecode(pr, inp, m, t, 8, 1);
    Some((symbol - 256, m'))
  }

  function LitCode(pr: Props, h: History, b: byte): (ds: seq<Decision>)
    requires WfHistory(h)
    ensures WfCode(pr, ds) && |ds| == 8
  {
    var t := LiteralTree(pr, h.out);
    assert Pow2(8) == 256;
    if h.state >= NUM_LIT_STATES
    then MatchedCode(pr, t, h.out[|h.out| - h.rep0], 8, 256 + b)
    else TreeCode(pr, t, 8, 256 + b)
  }

  lemma LitExec(pr: Props, inp: seq<byte>, m: Machine, h: History, b: byte)
    requires Ok(pr, m) && WfHistory(h)
    ensures var r, e := LitDecode(pr, inp, m, h), Exec(pr, inp, m, LitCode(pr, h, b));
      && (r.Some? && r.value.0 == b <==> e.Some?)
      && (e.Some? ==> r.value.1 == e.value)
  {
    hide Ok, Ask, Exec, TreeDecode, TreeCode, MatchedDecode, MatchedCode, Shr, WfTree, WfCell, LiteralTree, Pow2;
    SmallPowers();
    var t := LiteralTree(pr, h.out);
    if h.state >= NUM_LIT_STATES {
      MatchedExec(pr, inp, m, t, h.out[|h.out| - h.rep0], 256 + b);
    } else {
      TreeExec(pr, inp, m, t, 256 + b);
    }
  }

  // ---- Matches and repeated matches ----

  function LenState(len: nat): nat {
    if len < NUM_LEN_TO_POS_STATES then len else NUM_LEN_TO_POS_STATES - 1
  }

  function MatchDecode(pr: Props, inp: seq<byte>, m: Machine, posState: nat): (r: Option<(Packet, Machine)>)
    requires Ok(pr, m) && posState < Pow2(pr.pb)
    ensures r.Some? ==> Ok(pr, r.value.1) && WfPacket(r.value.0) && (r.value.0.Match? || r.value.0.EndMarker?)
  {
    var (len, m1) :- LenDecode(pr, inp, m, false, posState);
    DistExec(pr, inp, m1, LenState(len), 0);
    var (d, m2) :- DistDecode(pr, inp, m1, LenState(len));
    Some((if d == END_DISTANCE then EndMarker(len + MATCH_MIN_LEN) else Match(d + 1, len + MATCH_MIN_LEN), m2))
  }

  function MatchCode(pr: Props, posState: nat, d: u32, len: nat): (ds: seq<Decision>)
    requires posState < Pow2(pr.pb) && WfLen(len)
    ensures WfCode(pr, ds)
  {
    LenCode(pr, false, posState, len - MATCH_MIN_LEN) + DistCode(pr, LenState(len - MATCH_MIN_LEN), d)
  }

  const SHORT_REP: nat := 4

  /** Which of the four repeated distances is used, or `SHORT_REP`. */
  function RepSelect(pr: Props, inp: seq<byte>, m: Machine, state: nat, posState: nat): (r: Option<(nat, Machine)>)
    requires Ok(pr, m) && state < NUM_STATES && posState < Pow2(pr.pb)
    ensures r.Some? ==> Ok(pr, r.value.1) && r.value.0 <= SHORT_REP
  {
    var (g0, m1) :- Ask(pr, inp, m, Adaptive(IsRepG0(state)));
    if g0 == 0 then
      var (long, m2) :- Ask(pr, inp, m1, Adaptive(IsRep0Long(state, posState)));
      Some((if long == 0 then SHORT_REP else 0, m2))
    else FarSelect(pr, inp, m1, state)
  }

  /** Which of the repeated distances 1 to 3. */
  function FarSelect(pr: Props, inp: seq<byte>, m: Machine, state: nat): (r: Option<(nat, Machine)>)
    requires Ok(pr, m) && state < NUM_STATES
    ensures r.Some? ==> Ok(pr, r.value.1) && 1 <= r.value.0 <= 3
  {
    var (g1, m2) :- Ask(pr, inp, m, Adaptive(IsRepG1(state)));
    if g1 == 0 then Some((1, m2))
    else
      var (g2, m3) :- Ask(pr, inp, m2, Adaptive(IsRepG2(state)));
      Some((2 + g2, m3))
  }

  function RepDecode(pr: Props, inp: seq<byte>, m: Machine, state: nat, posState: nat): (r: Option<(Packet, Machine)>)
    requires Ok(pr, m) && state < NUM_STATES && posState < Pow2(pr.pb)
    ensures r.Some? ==> Ok(pr, r.value.1) && WfPacket(r.value.0) && (r.value.0.ShortRep? || r.value.0.Rep?)
  {
    var (index, m') :- RepSelect(pr, inp, m, state, posState);
    if index == SHORT_REP then Some((ShortRep, m')) else RepLenDecode(pr, inp, m', posState, index)
  }

  function RepLenDecode(pr: Props, inp: seq<byte>, m: Machine, posState: nat, index: nat): (r: Option<(Packet, Machine)>)
    requires Ok(pr, m) && posState < Pow2(pr.pb) && index < 4
    ensures r.Some? ==> Ok(pr, r.value.1) && WfPacket(r.value.0) && r.value.0.Rep?
  {
    var (len, m') :- LenDecode(pr, inp, m, true, posState);
    Some((Rep(index, len + MATCH_MIN_LEN), m'))
  }

  function Flag(c: Cell, bit: Bit): Decision {
    Decision(Adaptive(c), bit)
  }

  function RepSelectCode(pr: Props, state: nat, posState: nat, index: nat): (ds: seq<Decision>)
    requires state < NUM_STATES && posState < Pow2(pr.pb) && index <= SHORT_REP
    ensures WfCode(pr, ds)
  {
    if index == 0 || index == SHORT_REP then
      [Flag(IsRepG0(state), 0)] + [Flag(IsRep0Long(state, posState), if index == 0 then 1 else 0)]
    else if index == 1 then
      [Flag(IsRepG0(state), 1)] + [Flag(IsRepG1(state), 0)]
    else
      [Flag(IsRepG0(state), 1)] + ([Flag(IsRepG1(state), 1)] + [Flag(IsRepG2(state), index - 2)])
  }

  function RepCode(pr: Props, state: nat, posState: nat, p: Packet): (ds: seq<Decision>)
    requires state < NUM_STATES && posState < Pow2(pr.pb) && WfPacket(p) && (p.ShortRep? || p.Rep?)
    ensures WfCode(pr, ds)
  {
    match p
    case ShortRep => RepSelectCode(pr, state, posState, SHORT_REP)
    case Rep(index, len) =>
      RepSelectCode(pr, state, posState, index) + LenCode(pr, true, posState, len - MATCH_MIN_LEN)
  }

  function CopyDecode(pr: Props, inp: seq<byte>, m: Machine, state: nat, posState: nat): (r: Option<(Packet, Machine)>)
    requires Ok(pr, m) && state < NUM_STATES && posState < Pow2(pr.pb)
    ensures r.Some? ==> Ok(pr, r.value.1) && WfPacket(r.value.0) && !r.value.0.Lit?
  {
    var (isRep, m') :- Ask(pr, inp, m, Adaptive(IsRep(state)));
    if isRep == 0 then MatchDecode(pr, inp, m', posState)
    else RepDecode(pr, inp, m', state, posState)
  }

  function PacketDecode(pr: Props, inp: seq<byte>, m: Machine, h: History): (r: Option<(Packet, Machine)>)
    requires Ok(pr, m) && WfHistory(h)
    ensures r.Some? ==> Ok(pr, r.value.1) && WfPacket(r.value.0)
  {
    var posState := PosState(pr, |h.out|);
    var (isMatch, m1) :- Ask(pr, inp, m, Adaptive(IsMatch(h.state, posState)));
    if isMatch == 0 then
      var (b, m2) :- LitDecode(pr, inp, m1, h);
      Some((Lit(b), m2))
    else
      CopyDecode(pr, inp, m1, h.state, posState)
  }

  /** The decisions by which a packet is written after history `h`. */
  function PacketCode(pr: Props, h: History, p: Packet): (ds: seq<Decision>)
    requires WfHistory(h) && WfPacket(p)
    ensures WfCode(pr, ds) && |ds| > 0
  {
    var posState := PosState(pr, |h.out|);
    match p
    case Lit(b) => [Flag(IsMatch(h.state, posState), 0)] + LitCode(pr, h, b)
    case Match(distance, len) =>
      [Flag(IsMatch(h.state, posState), 1)] + ([Flag(IsRep(h.state), 0)] + MatchCode(pr, posState, distance - 1, len))
    case EndMarker(len) =>
      [Flag(IsMatch(h.state, posState), 1)] + ([Flag(IsRep(h.state), 0)] + MatchCode(pr, posState, END_DISTANCE, len))
    case _ =>
      [Flag(IsMatch(h.state, posState), 1)] + ([Flag(IsRep(h.state), 1)] + RepCode(pr, h.state, posState, p))
  }

  lemma MatchExec(pr: Props, inp: seq<byte>, m: Machine, posState: nat, d: u32, len: nat)
    requires Ok(pr, m) && posState < Pow2(pr.pb) && WfLen(len)
    ensures var r, e := MatchDecode(pr, inp, m, posState), Exec(pr, inp, m, MatchCode(pr, posState, d, len));
      && (r.Some? && r.value.0 == (if d == END_DISTANCE then EndMarker(len) else Match(d + 1, len)) <==> e.Some?)
      && (e.Some? ==> r.value.1 == e.value)
  {
    hide Ask, Exec, LenDecode, LenCode, DistDecode, DistCode, WfCell, Pow2;
    var l := len - MATCH_MIN_LEN;
    LenExec(pr, inp, m, false, posState, l);
    ExecConcat(pr, inp, m, LenCode(pr, false, posState, l), DistCode(pr, LenState(l), d));
    var r := LenDecode(pr, inp, m, false, posState);
    if r.Some? {
      DistExec(pr, inp, r.value.1, LenState(l), d);
    }
  }

  lemma RepSelectExec(pr: Props, inp: seq<byte>, m: Machine, state: nat, posState: nat, index: nat)
    requires Ok(pr, m) && state < NUM_STATES && posState < Pow2(pr.pb) && index <= SHORT_REP
    ensures var r, e := RepSelect(pr, inp, m, state, posState),
                        Exec(pr, inp, m, RepSelectCode(pr, state, posState, index));
      && (r.Some? && r.value.0 == index <==> e.Some?)
      && (e.Some? ==> r.value.1 == e.value)
  {
    hide Ask, Exec, Pow2;
    var near := index == 0 || index == SHORT_REP;
    var f0 := Flag(IsRepG0(state), if near then 0 else 1);
    var f1 := if near then Flag(IsRep0Long(state, posState), if index == 0 then 1 else 0)
              else Flag(IsRepG1(state), if index == 1 then 0 else 1);
    var rest := if near || index == 1 then [] else [Flag(IsRepG2(state), index - 2)];
    assert [f1] + [] == [f1];
    ExecCons(pr, inp, m, f0, [f1] + rest);
    var a0 := Ask(pr, inp, m, f0.query);
    if a0.Some? && a0.value.0 == f0.bit {
      ExecCons(pr, inp, a0.value.1, f1, rest);
      var a1 := Ask(pr, inp, a0.value.1, f1.query);
      if a1.Some? && a1.value.0 == f1.bit {
        ExecNothing(pr, inp, a1.value.1);
        if rest != [] {
          assert rest == [rest[0]] + [];
          ExecCons(pr, inp, a1.value.1, rest[0], []);
          var a2 := Ask(pr, inp, a1.value.1, rest[0].query);
          if a2.Some? {
            ExecNothing(pr, inp, a2.value.1);
          }
        }
      }
    }
  }

  lemma RepExec(pr: Props, inp: seq<byte>, m: Machine, state: nat, posState: nat, p: Packet)
    requires Ok(pr, m) && state < NUM_STATES && posState < Pow2(pr.pb)
    requires WfPacket(p) && (p.ShortRep? || p.Rep?)
    ensures var r, e := RepDecode(pr, inp, m, state, posState), Exec(pr, inp, m, RepCode(pr, state, posState, p));
      && (r.Some? && r.value.0 == p <==> e.Some?)
      && (e.Some? ==> r.value.1 == e.value)
  {
    hide Ask, Exec, RepSelect, RepSelectCode, LenDecode, LenCode, Pow2;
    var index := if p.ShortRep? then SHORT_REP else p.index;
    RepSelectExec(pr, inp, m, state, posState, index);
    var r := RepSelect(pr, inp, m, state, posState);
    if p.Rep? {
      var lenCode := LenCode(pr, true, posState, p.len - MATCH_MIN_LEN);
      ExecConcat(pr, inp, m, RepSelectCode(pr, state, posState, index), lenCode);
      if r.Some? {
        LenExec(pr, inp, r.value.1, true, posState, p.len - MATCH_MIN_LEN);
      }
    }
  }

  /** The decoder reads packet `p` exactly from those machines that answer `p`'s code,
      and ends where the code ends. So codes are uniquely decodable, and the decisions
      the decoder takes on any input are the code of the packet it returns. */
  lemma PacketExec(pr: Props, inp: seq<byte>, m: Machine, h: History, p: Packet)
    requires Ok(pr, m) && WfHistory(h) && WfPacket(p)
    ensures var r, e := PacketDecode(pr, inp, m, h), Exec(pr, inp, m, PacketCode(pr, h, p));
      && (r.Some? && r.value.0 == p <==> e.Some?)
      && (e.Some? ==> r.value.1 == e.value)
  {
    hide Ask, Exec, LitDecode, LitCode, MatchDecode, MatchCode, RepDecode, RepCode, Pow2, PosState;
    var posState := PosState(pr, |h.out|);
    var f0 := Flag(IsMatch(h.state, posState), if p.Lit? then 0 else 1);
    var a0 := Ask(pr, inp, m, f0.query);
    if p.Lit? {
      ExecCons(pr, inp, m, f0, LitCode(pr, h, p.value));
      if a0.Some? {
        LitExec(pr, inp, a0.value.1, h, p.value);
      }
    } else {
      var isMatch := p.Match? || p.EndMarker?;
      var d := if p.Match? then p.distance - 1 else END_DISTANCE;
      var f1 := Flag(IsRep(h.state), if isMatch then 0 else 1);
      var rest := if isMatch then MatchCode(pr, posState, d, p.len) else RepCode(pr, h.state, posState, p);
      ExecCons(pr, inp, m, f0, [f1] + rest);
      if a0.Some? {
        ExecCons(pr, inp, a0.value.1, f1, rest);
        var a1 := Ask(pr, inp, a0.value.1, f1.query);
        if a1.Some? {
          if isMatch {
            MatchExec(pr, inp, a1.value.1, posState, d, p.len);
          } else {
            RepExec(pr, inp, a1.value.1, h.state, posState, p);
          }
        }
      }
    }
  }
}
