/** The 32-bit adaptive binary range decoder as a pure state machine: one question
    (`Ask`) per decoded bit, and runs of questions with prescribed answers (`Exec`). */
module LzmaRangeDecoder {
  import opened Wrappers
  import opened Bits
  import opened LzmaContexts

  const TOP_VALUE: nat := 0x100_0000
  const BIT_MODEL_TOTAL: nat := 2048
  const MOVE_DIVISOR: nat := 32

  /** A probability cell never leaves this range. */
  type Prob = p: int | 31 <= p <= 2017 witness 1024

  datatype Query = Adaptive(cell: Cell) | Direct
  datatype Decision = Decision(query: Query, bit: Bit)

  datatype Machine = Machine(range: u32, code: u32, pos: nat, probs: seq<Prob>)

  /** What holds of the machine between any two questions, on every input: one
      byte is always enough to bring `range` back to 2^24. */
  predicate Ok(pr: Props, m: Machine) {
    0x1_0000 <= m.range && |m.probs| == NumProbs(pr)
  }

  predicate WfQuery(pr: Props, q: Query) {
    q.Adaptive? ==> WfCell(pr, q.cell)
  }

  predicate WfCode(pr: Props, ds: seq<Decision>) {
    forall i :: 0 <= i < |ds| ==> WfQuery(pr, ds[i].query)
  }

  function Normalize(inp: seq<byte>, m: Machine): (r: Option<Machine>)
    ensures r.Some? && m.range >= 0x1_0000 ==> r.value.range >= TOP_VALUE
    ensures r.Some? ==> m.pos <= r.value.pos && r.value.probs == m.probs
    ensures r.Some? && m.pos <= |inp| ==> r.value.pos <= |inp|
  {
    if m.range >= TOP_VALUE then Some(m)
    else if m.pos >= |inp| then None
    else Some(m.(range := m.range * 256, code := m.code % TOP_VALUE * 256 + inp[m.pos], pos := m.pos + 1))
  }

  /** A whole 32nd of the way to certainty, rounded down; 2017 is where the cell stops. */
  function ProbUp(p: Prob): (r: Prob)
    ensures p <= r && (r == p <==> p == 2017)
    ensures 32 * (r - p) <= 2048 - p < 32 * (r - p + 1)
  {
    p + (BIT_MODEL_TOTAL - p) / MOVE_DIVISOR
  }

  function ProbDown(p: Prob): (r: Prob)
    ensures r <= p && (r == p <==> p == 31)
    ensures 32 * (p - r) <= p < 32 * (p - r + 1)
  {
    p - p / MOVE_DIVISOR
  }

  function Bound(range: u32, p: Prob): (bound: u32)
    requires range >= TOP_VALUE
    ensures 0x1_0000 <= bound && 0x1_0000 <= range - bound
    ensures 2048 * bound <= range * p < 2048 * (bound + p)
  {
    BoundStrict(range / BIT_MODEL_TOTAL, p, range);
    BoundShare(range / BIT_MODEL_TOTAL, p, range);
    range / BIT_MODEL_TOTAL * p
  }

  lemma BoundStrict(unit: nat, p: Prob, range: nat)
    requires unit * BIT_MODEL_TOTAL <= range && unit >= 8192
    ensures 0x1_0000 <= unit * p && 0x1_0000 <= range - unit * p
  {
    assert unit * (p - 31) >= 0;
    assert unit * (2017 - p) >= 0;
    assert unit * (p - 31) == unit * p - unit * 31;
    assert unit * (2017 - p) == unit * 2017 - unit * p;
  }

  lemma BoundShare(unit: nat, p: Prob, range: nat)
    requires unit * 2048 <= range < (unit + 1) * 2048
    ensures 2048 * (unit * p) <= range * p < 2048 * (unit * p + p)
  {
    Scale(unit * 2048, range, p);
    ScaleStrict(range, (unit + 1) * 2048, p);
    assert unit * 2048 * p == 2048 * (unit * p);
    assert (unit + 1) * 2048 * p == 2048 * ((unit + 1) * p);
  }

  /** The zero part of a range is the share p/2048 of it, rounded down to a multiple of
      `p`: the greatest multiple of `p` that 2048 times over does not exceed `range * p`. */
  lemma ZeroShare(range: u32, p: Prob) returns (m: nat)
    requires range >= TOP_VALUE
    ensures Bound(range, p) == m * p && 2048 * (m * p) <= range * p
    ensures forall n: nat | 2048 * (n * p) <= range * p :: n * p <= m * p
  {
    m := range / 2048;
    Scale(2048 * m, range, p);
    assert 2048 * m * p == 2048 * (m * p);
    forall n: nat | 2048 * (n * p) <= range * p
      ensures n * p <= m * p
    {
      WholeUnits(range, p, n);
      Scale(n, m, p);
    }
  }

  lemma WholeUnits(range: nat, p: nat, n: nat)
    requires p > 0 && 2048 * (n * p) <= range * p
    ensures 2048 * n <= range
  {
    assert 2048 * n * p == 2048 * (n * p);
    if range < 2048 * n {
      ScaleStrict(range, 2048 * n, p);
    }
  }

  lemma Scale(x: nat, y: nat, p: nat)
    requires x <= y
    ensures x * p <= y * p
  {
    assert (y - x) * p >= 0;
  }

  lemma ScaleStrict(x: nat, y: nat, p: nat)
    requires x < y && p > 0
    ensures x * p < y * p
  {
    Scale(x + 1, y, p);
  }

  /** After a zero bit a cell gives zero a greater share of every range, after a one bit a
      smaller one, until it stops at its limit. */
  lemma ShareMoves(range: u32, p: Prob)
    requires range >= TOP_VALUE
    ensures p < 2017 ==> Bound(range, p) < Bound(range, ProbUp(p))
    ensures p > 31 ==> Bound(range, ProbDown(p)) < Bound(range, p)
  {
    hide ProbUp, ProbDown;
    var unit := range / BIT_MODEL_TOTAL;
    if p < 2017 {
      ScaleStrict(p, ProbUp(p), unit);
    }
    if p > 31 {
      ScaleStrict(ProbDown(p), p, unit);
    }
  }

  /** One decoded bit; `None` is the data error of an exhausted input. */
  function Ask(pr: Props, inp: seq<byte>, m: Machine, q: Query): (r: Option<(Bit, Machine)>)
    requires Ok(pr, m) && WfQuery(pr, q)
    ensures r.Some? ==> Ok(pr, r.value.1)
    ensures r.Some? ==> Normalize(inp, m).Some? && Normalize(inp, m).value.pos == r.value.1.pos
  {
    var n :- Normalize(inp, m);
    match q
    case Adaptive(cell) =>
      CellInRegion(pr, cell);
      var i := CellIndex(pr, cell);
      var bound := Bound(n.range, n.probs[i]);
      if n.code < bound then
        Some((0, n.(range := bound, probs := n.probs[i := ProbUp(n.probs[i])])))
      else
        Some((1, n.(range := n.range - bound, code := n.code - bound,
                    probs := n.probs[i := ProbDown(n.probs[i])])))
    case Direct =>
      var half := n.range / 2;
      if n.code >= half then Some((1, n.(range := half, code := n.code - half)))
      else Some((0, n.(range := half)))
  }

  /** What an adaptive bit means: zero is the lower part of the range, the rest is one; the
      range becomes the part taken and the code word its offset there; the cell asked moves
      towards the answer, and no other cell changes. */
  lemma AskAdaptiveMeaning(pr: Props, inp: seq<byte>, m: Machine, cell: Cell)
    requires Ok(pr, m) && WfCell(pr, cell) && Normalize(inp, m).Some?
    ensures CellIndex(pr, cell) < |m.probs| && Ask(pr, inp, m, Adaptive(cell)).Some?
    ensures var n, i := Normalize(inp, m).value, CellIndex(pr, cell);
      var p, zero, (bit, r) := n.probs[i], Bound(n.range, n.probs[i]), Ask(pr, inp, m, Adaptive(cell)).value;
      && (bit == 0 <==> n.code < zero)
      && (bit == 0 ==> r == n.(range := zero, probs := n.probs[i := ProbUp(p)]))
      && (bit == 1 ==> r == n.(range := n.range - zero, code := n.code - zero, probs := n.probs[i := ProbDown(p)]))
  {
    hide Normalize, Bound, ProbUp, ProbDown, NumProbs, CellIndex;
    CellInRegion(pr, cell);
  }

  /** A direct bit means: zero is the lower half of the range, rounded down. */
  lemma AskDirectMeaning(pr: Props, inp: seq<byte>, m: Machine)
    requires Ok(pr, m) && Normalize(inp, m).Some?
    ensures Ask(pr, inp, m, Direct).Some?
    ensures var n, (bit, r) := Normalize(inp, m).value, Ask(pr, inp, m, Direct).value;
      && n.range - 1 <= 2 * r.range <= n.range && r.probs == n.probs
      && (bit == 0 <==> n.code < r.range) && r.code == n.code - bit * r.range
  {
    hide Normalize, NumProbs;
  }

  /** The machine after it gave exactly the answers `ds`; `None` if it ran out of
      input or gave another answer. */
  function Exec(pr: Props, inp: seq<byte>, m: Machine, ds: seq<Decision>): (r: Option<Machine>)
    requires Ok(pr, m) && WfCode(pr, ds)
    ensures r.Some? ==> Ok(pr, r.value) && m.pos <= r.value.pos
    ensures r.Some? && m.pos <= |inp| ==> r.value.pos <= |inp|
    decreases |ds|
  {
    if ds == [] then Some(m)
    else
      var (bit, m') :- Ask(pr, inp, m, ds[0].query);
      if bit == ds[0].bit then Exec(pr, inp, m', ds[1..]) else None
  }

  lemma ExecNothing(pr: Props, inp: seq<byte>, m: Machine)
    requires Ok(pr, m)
    ensures Exec(pr, inp, m, []) == Some(m)
  {
  }

  lemma ExecCons(pr: Props, inp: seq<byte>, m: Machine, d: Decision, ds: seq<Decision>)
    requires Ok(pr, m) && WfQuery(pr, d.query) && WfCode(pr, ds)
    ensures WfCode(pr, [d] + ds)
    ensures var answer := Ask(pr, inp, m, d.query);
      Exec(pr, inp, m, [d] + ds)
      == if answer.Some? && answer.value.0 == d.bit then Exec(pr, inp, answer.value.1, ds) else None
  {
    hide Ask, WfQuery, Ok;
    assert ([d] + ds)[1..] == ds;
  }

  lemma {:induction false} ExecConcat(pr: Props, inp: seq<byte>, m: Machine, ds: seq<Decision>, es: seq<Decision>)
    requires Ok(pr, m) && WfCode(pr, ds) && WfCode(pr, es)
    ensures WfCode(pr, ds + es)
    ensures var first := Exec(pr, inp, m, ds);
      Exec(pr, inp, m, ds + es) == if first.Some? then Exec(pr, inp, first.value, es) else None
    decreases |ds|
  {
    hide Ask, WfQuery, Ok;
    if ds == [] {
      assert ds + es == es;
    } else {
      assert ds + es == [ds[0]] + (ds[1..] + es);
      ExecCons(pr, inp, m, ds[0], ds[1..] + es);
      var answer := Ask(pr, inp, m, ds[0].query);
      if answer.Some? {
        ExecConcat(pr, inp, answer.value.1, ds[1..], es);
      }
    }
  }

  // ---- What a run can depend on ----

  /** The two inputs agree on their first `k` bytes. */
  predicate SharePrefix(a: seq<byte>, b: seq<byte>, k: nat) {
    k <= |a| && k <= |b| && a[..k] == b[..k]
  }

  lemma NormalizeShared(a: seq<byte>, b: seq<byte>, m: Machine, k: nat)
    requires SharePrefix(a, b, k)
    requires Normalize(a, m).Some? && Normalize(a, m).value.pos <= k
    ensures Normalize(b, m) == Normalize(a, m)
  {
    if m.range < TOP_VALUE {
      assert a[m.pos] == a[..k][m.pos] == b[..k][m.pos] == b[m.pos];
    }
  }

  /** The input acts on an answer only through normalisation. */
  lemma AskReadsByNormalizing(pr: Props, a: seq<byte>, b: seq<byte>, m: Machine, q: Query)
    requires Ok(pr, m) && WfQuery(pr, q) && Normalize(b, m) == Normalize(a, m)
    ensures Ask(pr, b, m, q) == Ask(pr, a, m, q)
  {
    hide Normalize, Bound, ProbUp, ProbDown, CellIndex, WfCell, NumProbs, Pow2;
  }

  lemma AskShared(pr: Props, a: seq<byte>, b: seq<byte>, m: Machine, q: Query, k: nat)
    requires Ok(pr, m) && WfQuery(pr, q) && SharePrefix(a, b, k)
    requires Ask(pr, a, m, q).Some? && Ask(pr, a, m, q).value.1.pos <= k
    ensures Ask(pr, b, m, q) == Ask(pr, a, m, q)
  {
    hide Ask, Normalize;
    NormalizeShared(a, b, m, k);
    AskReadsByNormalizing(pr, a, b, m, q);
  }

  /** A run that ends at position `k` reads no byte past the first `k`. */
  lemma {:induction false} ExecShared(pr: Props, a: seq<byte>, b: seq<byte>, m: Machine, ds: seq<Decision>, k: nat)
    requires Ok(pr, m) && WfCode(pr, ds) && SharePrefix(a, b, k)
    requires Exec(pr, a, m, ds).Some? && Exec(pr, a, m, ds).value.pos <= k
    ensures Exec(pr, b, m, ds) == Exec(pr, a, m, ds)
    decreases |ds|
  {
    hide Ask, WfQuery, Ok;
    if ds != [] {
      AskShared(pr, a, b, m, ds[0].query, k);
      ExecShared(pr, a, b, Ask(pr, a, m, ds[0].query).value.1, ds[1..], k);
    }
  }
}
