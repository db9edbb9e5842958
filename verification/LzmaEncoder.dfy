/** The exact interval coder that the 32-bit range decoder refines. `low` is unbounded
    and never truncated, and the adaptive contexts are an abstract map: nothing here
    knows of the decoder's flat array or of its 32-bit code word. */
module LzmaEncoder {
  import opened Wrappers
  import opened Bits
  import opened LzmaContexts
  import opened LzmaRangeDecoder
  import opened LzmaPackets
  import opened LzmaStream

  /** The interval [low, low + range) of streams, read as `size`-byte numbers. */
  datatype Encoder = Encoder(low: nat, range: u32, size: nat, contexts: map<Cell, Prob>)

  const START_ENCODER: Encoder := Encoder(0, 0xFFFF_FFFF, 5, map[])

  function Context(contexts: map<Cell, Prob>, c: Cell): Prob {
    if c in contexts then contexts[c] else 1024
  }

  function Widen(e: Encoder): (r: Encoder)
    requires e.range >= 0x1_0000
    ensures r.range >= TOP_VALUE && r.contexts == e.contexts
  {
    if e.range >= TOP_VALUE then e
    else e.(low := e.low * 256, range := e.range * 256, size := e.size + 1)
  }

  function EncodeDecision(e: Encoder, d: Decision): (r: Encoder)
    requires e.range >= 0x1_0000
    ensures r.range >= 0x1_0000
  {
    var n := Widen(e);
    match d.query
    case Adaptive(c) =>
      var p := Context(n.contexts, c);
      var bound := Bound(n.range, p);
      if d.bit == 0 then n.(range := bound, contexts := n.contexts[c := ProbUp(p)])
      else n.(low := n.low + bound, range := n.range - bound, contexts := n.contexts[c := ProbDown(p)])
    case Direct =>
      var half := n.range / 2;
      n.(low := n.low + d.bit * half, range := half)
  }

  function Encode(e: Encoder, ds: seq<Decision>): (r: Encoder)
    requires e.range >= 0x1_0000
    ensures r.range >= 0x1_0000
    decreases |ds|
  {
    if ds == [] then e else Encode(EncodeDecision(e, ds[0]), ds[1..])
  }

  /** The big-endian number that a byte string spells. */
  function Value(s: seq<byte>): nat {
    if s == [] then 0 else Value(s[..|s| - 1]) * 256 + s[|s| - 1]
  }

  /** The stream's value lies in the encoder's interval. */
  predicate Inside(e: Encoder, inp: seq<byte>) {
    e.size <= |inp| && e.low <= Value(inp[..e.size]) < e.low + e.range
  }

  /** The refinement relation: `code` is the exact offset of the stream in the interval,
      and every context has its probability at its address. */
  ghost predicate Refines(pr: Props, inp: seq<byte>, m: Machine, e: Encoder) {
    && Ok(pr, m)
    && m.range == e.range && m.pos == e.size <= |inp|
    && m.code == Value(inp[..e.size]) - e.low
    && SameContexts(pr, m.probs, e.contexts)
  }

  ghost predicate SameContexts(pr: Props, probs: seq<Prob>, contexts: map<Cell, Prob>) {
    && |probs| == NumProbs(pr)
    && forall c: Cell {:trigger CellIndex(pr, c)} {:trigger Context(contexts, c)} ::
         WfCell(pr, c) ==> CellIndex(pr, c) < |probs| && probs[CellIndex(pr, c)] == Context(contexts, c)
  }

  /** The machine answers `ds` and its code word stays below its range throughout. */
  predicate Tracks(pr: Props, inp: seq<byte>, m: Machine, ds: seq<Decision>)
    requires Ok(pr, m) && WfCode(pr, ds)
    decreases |ds|
  {
    m.code < m.range &&
    (ds == [] ||
      var answer := Ask(pr, inp, m, ds[0].query);
      answer.Some? && answer.value.0 == ds[0].bit && Tracks(pr, inp, answer.value.1, ds[1..]))
  }

  lemma ValueNext(inp: seq<byte>, n: nat)
    requires n < |inp|
    ensures Value(inp[..n + 1]) == Value(inp[..n]) * 256 + inp[n]
  {
    assert inp[..n + 1][..n] == inp[..n];
  }

  lemma WidenNested(e: Encoder, inp: seq<byte>)
    requires e.range >= 0x1_0000 && Inside(Widen(e), inp)
    ensures Inside(e, inp)
  {
    if e.range < TOP_VALUE {
      ValueNext(inp, e.size);
    }
  }

  lemma DecisionNested(e: Encoder, d: Decision, inp: seq<byte>)
    requires e.range >= 0x1_0000 && Inside(EncodeDecision(e, d), inp)
    ensures Inside(Widen(e), inp) && Inside(e, inp)
  {
    hide Widen, Bound, ProbUp, ProbDown, Value;
    WidenNested(e, inp);
  }

  /** Encoding only ever narrows the interval. */
  lemma {:induction false} EncodeNested(e: Encoder, ds: seq<Decision>, inp: seq<byte>)
    requires e.range >= 0x1_0000 && Inside(Encode(e, ds), inp)
    ensures Inside(e, inp)
    decreases |ds|
  {
    if ds != [] {
      EncodeNested(EncodeDecision(e, ds[0]), ds[1..], inp);
      DecisionNested(e, ds[0], inp);
    }
  }

  lemma WidenRefines(pr: Props, inp: seq<byte>, m: Machine, e: Encoder)
    requires Refines(pr, inp, m, e) && Inside(e, inp)
    ensures Inside(Widen(e), inp) <==> Normalize(inp, m).Some?
    ensures Normalize(inp, m).Some? ==> Refines(pr, inp, Normalize(inp, m).value, Widen(e))
  {
    hide SameContexts, NumProbs;
    if e.range < TOP_VALUE && m.pos < |inp| {
      ValueNext(inp, e.size);
    }
  }

  lemma UpdateKeepsContexts(pr: Props, probs: seq<Prob>, contexts: map<Cell, Prob>, c: Cell, p: Prob)
    requires SameContexts(pr, probs, contexts) && WfCell(pr, c)
    ensures CellIndex(pr, c) < |probs|
    ensures SameContexts(pr, probs[CellIndex(pr, c) := p], contexts[c := p])
  {
    hide CellIndex, NumProbs;
    CellInRegion(pr, c);
    forall d: Cell | WfCell(pr, d)
      ensures CellIndex(pr, d) < |probs|
      ensures probs[CellIndex(pr, c) := p][CellIndex(pr, d)] == Context(contexts[c := p], d)
    {
      CellInRegion(pr, d);
      if CellIndex(pr, d) == CellIndex(pr, c) {
        CellIndexInjective(pr, c, d);
      }
      assert probs[CellIndex(pr, d)] == Context(contexts, d);
    }
  }

  /** One question against one narrowing: the machine gives the answer `d` and stays
      inside its range exactly on the streams of the narrowed interval. */
  lemma AskRefines(pr: Props, inp: seq<byte>, m: Machine, e: Encoder, d: Decision)
    requires Refines(pr, inp, m, e) && Inside(e, inp) && WfQuery(pr, d.query)
    ensures var answer := Ask(pr, inp, m, d.query);
      && (Inside(EncodeDecision(e, d), inp)
          <==> answer.Some? && answer.value.0 == d.bit && answer.value.1.code < answer.value.1.range)
      && (Inside(EncodeDecision(e, d), inp) ==> Refines(pr, inp, answer.value.1, EncodeDecision(e, d)))
  {
    hide Value, Widen, Normalize, Inside, Refines, EncodeDecision, NumProbs;
    RefinesReady(pr, inp, m, e);
    WidenRefines(pr, inp, m, e);
    if Inside(EncodeDecision(e, d), inp) {
      DecisionNested(e, d, inp);
    }
    if Normalize(inp, m).Some? {
      if d.query.Adaptive? {
        AdaptiveRefines(pr, inp, m, e, d);
      } else {
        DirectRefines(pr, inp, m, e, d);
      }
    } else {
      NoAnswer(pr, inp, m, d.query);
    }
  }

  lemma RefinesReady(pr: Props, inp: seq<byte>, m: Machine, e: Encoder)
    requires Refines(pr, inp, m, e)
    ensures Ok(pr, m) && e.range >= 0x1_0000
  {
  }

  lemma NoAnswer(pr: Props, inp: seq<byte>, m: Machine, q: Query)
    requires Ok(pr, m) && WfQuery(pr, q) && Normalize(inp, m).None?
    ensures Ask(pr, inp, m, q).None?
  {
    hide Normalize, NumProbs, WfCell;
  }

  lemma AdaptiveRefines(pr: Props, inp: seq<byte>, m: Machine, e: Encoder, d: Decision)
    requires Ok(pr, m) && e.range >= 0x1_0000 && d.query.Adaptive? && WfQuery(pr, d.query)
    requires Normalize(inp, m).Some? && Refines(pr, inp, Normalize(inp, m).value, Widen(e)) && Inside(Widen(e), inp)
    ensures var answer := Ask(pr, inp, m, d.query);
      && (Inside(EncodeDecision(e, d), inp)
          <==> answer.Some? && answer.value.0 == d.bit && answer.value.1.code < answer.value.1.range)
      && (Inside(EncodeDecision(e, d), inp) ==> Refines(pr, inp, answer.value.1, EncodeDecision(e, d)))
  {
    hide Value, Widen, Normalize, Bound, ProbUp, ProbDown, SameContexts, CellIndex, WfCell, NumProbs;
    var n, w, c := Normalize(inp, m).value, Widen(e), d.query.cell;
    ProbAtAddress(pr, n.probs, w.contexts, c);
    var p := n.probs[CellIndex(pr, c)];
    UpdateKeepsContexts(pr, n.probs, w.contexts, c, if d.bit == 0 then ProbUp(p) else ProbDown(p));
  }

  lemma DirectRefines(pr: Props, inp: seq<byte>, m: Machine, e: Encoder, d: Decision)
    requires Ok(pr, m) && e.range >= 0x1_0000 && d.query.Direct?
    requires Normalize(inp, m).Some? && Refines(pr, inp, Normalize(inp, m).value, Widen(e)) && Inside(Widen(e), inp)
    ensures var answer := Ask(pr, inp, m, d.query);
      && (Inside(EncodeDecision(e, d), inp)
          <==> answer.Some? && answer.value.0 == d.bit && answer.value.1.code < answer.value.1.range)
      && (Inside(EncodeDecision(e, d), inp) ==> Refines(pr, inp, answer.value.1, EncodeDecision(e, d)))
  {
    hide Value, Widen, Normalize, SameContexts, NumProbs;
  }

  lemma ProbAtAddress(pr: Props, probs: seq<Prob>, contexts: map<Cell, Prob>, c: Cell)
    requires SameContexts(pr, probs, contexts) && WfCell(pr, c)
    ensures CellIndex(pr, c) < |probs| && probs[CellIndex(pr, c)] == Context(contexts, c)
  {
    assert Context(contexts, c) == Context(contexts, c);
  }

  /** The 32-bit machine refines exact interval decoding: it answers `ds` with its code
      word below its range throughout, exactly on the streams whose value lies in the
      interval that encoding `ds` reaches. */
  lemma {:induction false} RunRefines(pr: Props, inp: seq<byte>, m: Machine, e: Encoder, ds: seq<Decision>)
    requires Refines(pr, inp, m, e) && WfCode(pr, ds)
    ensures Inside(Encode(e, ds), inp) <==> Tracks(pr, inp, m, ds)
    ensures Inside(Encode(e, ds), inp)
        ==> (Exec(pr, inp, m, ds).Some? && Refines(pr, inp, Exec(pr, inp, m, ds).value, Encode(e, ds)))
    decreases |ds|
  {
    hide Ask, EncodeDecision, Inside, SameContexts;
    InsideIsInRange(pr, inp, m, e);
    if Inside(Encode(e, ds), inp) {
      EncodeNested(e, ds, inp);
    }
    if ds != [] && Inside(e, inp) {
      AskRefines(pr, inp, m, e, ds[0]);
      var e' := EncodeDecision(e, ds[0]);
      if Inside(e', inp) {
        RunRefines(pr, inp, Ask(pr, inp, m, ds[0].query).value.1, e', ds[1..]);
      } else {
        if Inside(Encode(e, ds), inp) {
          EncodeNested(e', ds[1..], inp);
        }
        if Tracks(pr, inp, m, ds) {
          TracksInRange(pr, inp, Ask(pr, inp, m, ds[0].query).value.1, ds[1..]);
        }
      }
    }
  }

  lemma InsideIsInRange(pr: Props, inp: seq<byte>, m: Machine, e: Encoder)
    requires Refines(pr, inp, m, e)
    ensures Inside(e, inp) <==> m.code < m.range
  {
  }

  lemma TracksInRange(pr: Props, inp: seq<byte>, m: Machine, ds: seq<Decision>)
    requires Ok(pr, m) && WfCode(pr, ds) && Tracks(pr, inp, m, ds)
    ensures m.code < m.range
  {
  }

  // ---- The start of a stream ----

  /** The decoder drops the first byte of a stream; as a number, a stream counts as if
      that byte were 0. */
  function ZeroFirst(inp: seq<byte>): (r: seq<byte>)
    requires |inp| >= 5
    ensures |r| == |inp| && r[0] == 0 && r[1..] == inp[1..]
  {
    inp[0 := 0]
  }

  lemma StartRefines(pr: Props, inp: seq<byte>)
    requires |inp| >= 5 && inp[0] == 0
    ensures Refines(pr, inp, StartMachine(pr, inp).value, START_ENCODER)
  {
    hide SameContexts, Value, CodeWord, NumProbs;
    ValueOfFive(inp);
    CodeWordLast4(inp);
    FreshContexts(pr);
  }

  lemma SameStart(pr: Props, inp: seq<byte>)
    requires |inp| >= 5
    ensures StartMachine(pr, ZeroFirst(inp)) == StartMachine(pr, inp)
  {
    hide CodeWord, NumProbs;
    CodeWordForgets(inp, ZeroFirst(inp));
  }

  /** Whether a run stays in range depends on no byte before its first position. */
  lemma {:induction false} TracksIgnoresRead(pr: Props, a: seq<byte>, b: seq<byte>, m: Machine, ds: seq<Decision>)
    requires Ok(pr, m) && WfCode(pr, ds) && m.pos >= 1
    requires |a| == |b| >= 1 && a[1..] == b[1..]
    ensures Tracks(pr, b, m, ds) == Tracks(pr, a, m, ds)
    decreases |ds|
  {
    if ds != [] {
      hide Ask;
      NormalizeIgnoresRead(a, b, m);
      AskReadsByNormalizing(pr, a, b, m, ds[0].query);
      var answer := Ask(pr, a, m, ds[0].query);
      if answer.Some? {
        TracksIgnoresRead(pr, a, b, answer.value.1, ds[1..]);
      }
    }
  }

  /** When `Code < Range` holds: on every stream and for all decisions, the machine answers
      them with its code word below its range throughout if and only if the stream, its
      first byte taken as 0, lies in the interval that encoding them reaches. */
  lemma StaysInRange(pr: Props, inp: seq<byte>, ds: seq<Decision>)
    requires |inp| >= 5 && WfCode(pr, ds)
    ensures Tracks(pr, inp, StartMachine(pr, inp).value, ds) <==> Inside(Encode(START_ENCODER, ds), ZeroFirst(inp))
  {
    hide Ask, Inside, Encode, Tracks, SameContexts;
    var m := StartMachine(pr, inp).value;
    SameStart(pr, inp);
    StartRefines(pr, ZeroFirst(inp));
    RunRefines(pr, ZeroFirst(inp), m, START_ENCODER, ds);
    TracksIgnoresRead(pr, inp, ZeroFirst(inp), m, ds);
  }

  lemma ValueOfFive(inp: seq<byte>)
    requires |inp| >= 5
    ensures Value(inp[..5])
         == inp[0] as int * 0x1_0000_0000 + inp[1] as int * 0x100_0000 + inp[2] as int * 0x1_0000 + inp[3] as int * 0x100 + inp[4]
  {
    assert Value(inp[..0]) == 0;
    ValueNext(inp, 0);
    ValueNext(inp, 1);
    ValueNext(inp, 2);
    ValueNext(inp, 3);
    ValueNext(inp, 4);
  }

  lemma FreshContexts(pr: Props)
    ensures SameContexts(pr, seq(NumProbs(pr), _ => 1024), map[])
  {
    hide CellIndex;
    forall c: Cell | WfCell(pr, c)
      ensures CellIndex(pr, c) < NumProbs(pr)
    {
      CellInRegion(pr, c);
    }
  }

  // ---- Streams of packets ----

  /** The interval of a whole stream, widened as the decoder's last step reads it. */
  function StreamInterval(pr: Props, ps: seq<Packet>): (e: Encoder)
    requires Valid(START_HISTORY, ps)
    ensures e.range >= TOP_VALUE
  {
    Widen(Encode(START_ENCODER, StreamCode(pr, START_HISTORY, ps)))
  }

  /** On a stream inside the packets' interval the machine gives the packets' code, and
      its last normalisation ends with the interval's last digit. */
  lemma StreamRefines(pr: Props, ps: seq<Packet>, inp: seq<byte>) returns (m: Machine)
    requires Valid(START_HISTORY, ps) && |inp| >= 5 && Inside(StreamInterval(pr, ps), ZeroFirst(inp))
    ensures StartMachine(pr, inp) == Some(m)
    ensures var end := Exec(pr, inp, m, StreamCode(pr, START_HISTORY, ps));
      end.Some? && Normalize(inp, end.value).Some?
      && Normalize(inp, end.value).value.pos == StreamInterval(pr, ps).size
  {
    hide Inside, SameContexts, Encode, Ok, Exec;
    var code := StreamCode(pr, START_HISTORY, ps);
    var e, zeroed := Encode(START_ENCODER, code), ZeroFirst(inp);
    WidenNested(e, zeroed);
    SameStart(pr, inp);
    StartRefines(pr, zeroed);
    m := StartMachine(pr, inp).value;
    RunRefines(pr, zeroed, m, START_ENCODER, code);
    var end := Exec(pr, zeroed, m, code).value;
    WidenRefines(pr, zeroed, end, e);
    ExecIgnoresRead(pr, inp, zeroed, m, code);
    NormalizeIgnoresRead(inp, zeroed, end);
  }

  /** Decoding inverts encoding: on every stream whose value, the first byte taken as 0,
      lies in the interval that the packets reach, the decoder outputs their LZ77
      expansion cut at `outSize`. */
  lemma RoundTrip(pr: Props, ps: seq<Packet>, inp: seq<byte>, outSize: nat)
    requires Valid(START_HISTORY, ps) && Covers(START_HISTORY, ps, outSize)
    requires |inp| >= 5 && Inside(StreamInterval(pr, ps), ZeroFirst(inp))
    ensures Decode(pr, inp, outSize).Finished?
    ensures Decode(pr, inp, outSize).out == Cut(Expand(START_HISTORY, ps), outSize)
    ensures PacketsRead(START_HISTORY, ps, outSize) == |ps|
        ==> Decode(pr, inp, outSize).consumed == StreamInterval(pr, ps).size
  {
    hide Inside, SameContexts, Encode;
    var m := StreamRefines(pr, ps, inp);
    StreamComplete(pr, inp, m, START_HISTORY, ps, outSize);
  }

  /** The other direction: every stream that decodes lies, its first byte taken as 0, in
      the interval of the packets it decodes to, exactly if the code word stayed below its
      range all the way. */
  lemma DecodedStreamInside(pr: Props, inp: seq<byte>, outSize: nat) returns (ps: seq<Packet>)
    requires Decode(pr, inp, outSize).Finished?
    ensures |inp| >= 5 && Valid(START_HISTORY, ps) && Covers(START_HISTORY, ps, outSize)
    ensures PacketsRead(START_HISTORY, ps, outSize) == |ps|
    ensures Decode(pr, inp, outSize).out == Cut(Expand(START_HISTORY, ps), outSize)
    ensures Inside(StreamInterval(pr, ps), ZeroFirst(inp))
        <==> Tracks(pr, inp, StartMachine(pr, inp).value, StreamCode(pr, START_HISTORY, ps))
  {
    hide Inside, SameContexts, Encode, Tracks, Ok;
    ConsumedWithinInput(pr, inp, outSize);
    var m := StartMachine(pr, inp).value;
    ps := StreamSound(pr, inp, m, START_HISTORY, outSize);
    StaysInRange(pr, inp, StreamCode(pr, START_HISTORY, ps));
    LastDigitRead(pr, inp, m, StreamCode(pr, START_HISTORY, ps));
  }

  /** Where the machine could still normalise after the run, widening the interval by that
      digit changes nothing about which streams lie in it. */
  lemma LastDigitRead(pr: Props, inp: seq<byte>, m: Machine, code: seq<Decision>)
    requires StartMachine(pr, inp) == Some(m) && WfCode(pr, code)
    requires Exec(pr, inp, m, code).Some? && Normalize(inp, Exec(pr, inp, m, code).value).Some?
    ensures var e := Encode(START_ENCODER, code); Inside(Widen(e), ZeroFirst(inp)) <==> Inside(e, ZeroFirst(inp))
  {
    hide Inside, SameContexts, Encode, Ok, Exec;
    var e, zeroed := Encode(START_ENCODER, code), ZeroFirst(inp);
    if Inside(e, zeroed) {
      SameStart(pr, inp);
      StartRefines(pr, zeroed);
      RunRefines(pr, zeroed, m, START_ENCODER, code);
      ExecIgnoresRead(pr, inp, zeroed, m, code);
      var end := Exec(pr, zeroed, m, code).value;
      NormalizeIgnoresRead(inp, zeroed, end);
      WidenRefines(pr, zeroed, end, e);
    } else if Inside(Widen(e), zeroed) {
      WidenNested(e, zeroed);
    }
  }

  /** Different packet lists have disjoint intervals: no stream stands for two lists that
      one decoder reads to their ends. */
  lemma IntervalsDisjoint(pr: Props, ps: seq<Packet>, qs: seq<Packet>, inp: seq<byte>, outSize: nat)
    requires Valid(START_HISTORY, ps) && Covers(START_HISTORY, ps, outSize)
    requires Valid(START_HISTORY, qs) && Covers(START_HISTORY, qs, outSize)
    requires PacketsRead(START_HISTORY, ps, outSize) == |ps| && PacketsRead(START_HISTORY, qs, outSize) == |qs|
    requires |inp| >= 5
    requires Inside(StreamInterval(pr, ps), ZeroFirst(inp)) && Inside(StreamInterval(pr, qs), ZeroFirst(inp))
    ensures ps == qs
  {
    hide Inside, SameContexts, Encode;
    var m := StreamRefines(pr, ps, inp);
    var m' := StreamRefines(pr, qs, inp);
    UniquePackets(pr, inp, m, START_HISTORY, ps, qs, outSize);
  }

  // ---- Streams that lie in an interval ----

  function Pow256(n: nat): nat {
    if n == 0 then 1 else 256 * Pow256(n - 1)
  }

  /** The interval fits into numbers of its own size. */
  predicate Fits(e: Encoder) {
    e.low + e.range <= Pow256(e.size)
  }

  lemma DecisionFits(e: Encoder, d: Decision)
    requires e.range >= 0x1_0000 && Fits(e)
    ensures Fits(Widen(e)) && Fits(EncodeDecision(e, d))
  {
    hide ProbUp, ProbDown, Bound;
  }

  lemma {:induction false} EncodeFits(e: Encoder, ds: seq<Decision>)
    requires e.range >= 0x1_0000 && Fits(e)
    ensures Fits(Encode(e, ds))
    decreases |ds|
  {
    if ds != [] {
      DecisionFits(e, ds[0]);
      EncodeFits(EncodeDecision(e, ds[0]), ds[1..]);
    }
  }

  function Digits(x: nat, size: nat): (s: seq<byte>)
    ensures |s| == size
  {
    if size == 0 then [] else Digits(x / 256, size - 1) + [x % 256]
  }

  lemma {:induction false} ValueOfDigits(x: nat, size: nat)
    requires x < Pow256(size)
    ensures Value(Digits(x, size)) == x
  {
    if size > 0 {
      ValueOfDigits(x / 256, size - 1);
      assert Digits(x, size)[..size - 1] == Digits(x / 256, size - 1);
    }
  }

  /** A concrete encoder: the lower end of the packets' interval. */
  function EncodeStream(pr: Props, ps: seq<Packet>): seq<byte>
    requires Valid(START_HISTORY, ps)
  {
    var e := StreamInterval(pr, ps);
    Digits(e.low, e.size)
  }

  /** Every number of the interval is the start of a stream inside it. */
  lemma DigitsInside(ds: seq<Decision>, x: nat, tail: seq<byte>)
    requires var w := Widen(Encode(START_ENCODER, ds)); w.low <= x < w.low + w.range
    ensures var w := Widen(Encode(START_ENCODER, ds));
      Inside(w, Digits(x, w.size) + tail) && Value((Digits(x, w.size) + tail)[..w.size]) == x
  {
    hide Value, Digits, Encode;
    var e := Encode(START_ENCODER, ds);
    assert Pow256(5) == 0x100_0000_0000;
    EncodeFits(START_ENCODER, ds);
    DecisionFits(e, Decision(Direct, 0));
    var w := Widen(e);
    ValueOfDigits(x, w.size);
    assert (Digits(x, w.size) + tail)[..w.size] == Digits(x, w.size);
  }

  /** Every interval lies among the streams that start with a zero byte. */
  lemma InsideStartsWithZero(ds: seq<Decision>, inp: seq<byte>)
    requires Inside(Widen(Encode(START_ENCODER, ds)), inp)
    ensures |inp| >= 5 && ZeroFirst(inp) == inp
  {
    hide Value, Encode;
    WidenNested(Encode(START_ENCODER, ds), inp);
    EncodeNested(START_ENCODER, ds, inp);
    ValueOfFive(inp);
  }

  /** Every valid packet list has a stream, and whatever follows that stream, decoding
      it yields the packets' expansion and consumes exactly the stream. */
  lemma DecodeOfEncode(pr: Props, ps: seq<Packet>, tail: seq<byte>, outSize: nat)
    requires Valid(START_HISTORY, ps) && Covers(START_HISTORY, ps, outSize)
    requires PacketsRead(START_HISTORY, ps, outSize) == |ps|
    ensures Decode(pr, EncodeStream(pr, ps) + tail, outSize)
         == Finished(Cut(Expand(START_HISTORY, ps), outSize), |EncodeStream(pr, ps)|)
  {
    hide Inside, Encode;
    var code := StreamCode(pr, START_HISTORY, ps);
    DigitsInside(code, StreamInterval(pr, ps).low, tail);
    InsideStartsWithZero(code, EncodeStream(pr, ps) + tail);
    RoundTrip(pr, ps, EncodeStream(pr, ps) + tail, outSize);
  }

  // ---- Where the code word escapes its range ----

  /** A direct bit keeps the code word in range unless the (normalised) range is odd
      and the code word is its last value; then the two become equal. */
  lemma DirectBitEscapes(pr: Props, inp: seq<byte>, m: Machine)
    requires Ok(pr, m) && m.code < m.range && Normalize(inp, m).Some?
    ensures var n, after := Normalize(inp, m).value, Ask(pr, inp, m, Direct).value.1;
      && (after.code < after.range <==> !(n.range % 2 == 1 && n.code == n.range - 1))
      && (after.code >= after.range ==> after.code == after.range)
  {
  }

  /** The machine answers `ds` in range, and a direct bit then takes it out of range. */
  ghost predicate EndsRange(pr: Props, inp: seq<byte>, ds: seq<Decision>) {
    && WfCode(pr, ds) && |inp| >= 5
    && Tracks(pr, inp, StartMachine(pr, inp).value, ds)
    && Exec(pr, inp, StartMachine(pr, inp).value, ds).Some?
    && var answer := Ask(pr, inp, Exec(pr, inp, StartMachine(pr, inp).value, ds).value, Direct);
      answer.Some? && answer.value.1.code >= answer.value.1.range
  }

  /** After any decisions, some stream lets a direct bit end `code < range` if and only if
      the normalised range is odd; the stream is the last of the interval. */
  lemma DirectBitEndsRange(pr: Props, ds: seq<Decision>)
    requires WfCode(pr, ds)
    ensures Widen(Encode(START_ENCODER, ds)).range % 2 == 1 <==> exists inp :: EndsRange(pr, inp, ds)
  {
    hide EndsRange, Encode, Widen;
    var w := Widen(Encode(START_ENCODER, ds));
    if w.range % 2 == 1 {
      LastStreamEndsRange(pr, ds);
    }
    forall inp | EndsRange(pr, inp, ds)
      ensures w.range % 2 == 1
    {
      RangeEndedOdd(pr, inp, ds);
    }
  }

  lemma LastStreamEndsRange(pr: Props, ds: seq<Decision>)
    requires WfCode(pr, ds) && Widen(Encode(START_ENCODER, ds)).range % 2 == 1
    ensures var w := Widen(Encode(START_ENCODER, ds)); EndsRange(pr, Digits(w.low + w.range - 1, w.size), ds)
  {
    hide Value, Digits, Encode, SameContexts, Tracks, Exec, Widen;
    var e := Encode(START_ENCODER, ds);
    var w := Widen(e);
    var inp := Digits(w.low + w.range - 1, w.size);
    assert inp + [] == inp;
    DigitsInside(ds, w.low + w.range - 1, []);
    InsideStartsWithZero(ds, inp);
    WidenNested(e, inp);
    StartRefines(pr, inp);
    var m := StartMachine(pr, inp).value;
    RunRefines(pr, inp, m, START_ENCODER, ds);
    WidenRefines(pr, inp, Exec(pr, inp, m, ds).value, e);
  }

  lemma RangeEndedOdd(pr: Props, inp: seq<byte>, ds: seq<Decision>)
    requires EndsRange(pr, inp, ds)
    ensures Widen(Encode(START_ENCODER, ds)).range % 2 == 1
  {
    hide Value, Encode, SameContexts, Exec, Tracks, Inside, Widen;
    var m, zeroed, e := StartMachine(pr, inp).value, ZeroFirst(inp), Encode(START_ENCODER, ds);
    SameStart(pr, inp);
    StartRefines(pr, zeroed);
    TracksIgnoresRead(pr, inp, zeroed, m, ds);
    RunRefines(pr, zeroed, m, START_ENCODER, ds);
    ExecIgnoresRead(pr, inp, zeroed, m, ds);
    var end := Exec(pr, inp, m, ds).value;
    NormalizeIgnoresRead(inp, zeroed, end);
    InsideIsInRange(pr, zeroed, end, e);
    WidenRefines(pr, zeroed, end, e);
    DirectBitEscapes(pr, inp, end);
  }

  lemma NormalizedAlready(inp: seq<byte>, m: Machine)
    requires m.range >= TOP_VALUE
    ensures Normalize(inp, m) == Some(m)
  {
  }

  lemma DirectAnswers(pr: Props, inp: seq<byte>, m: Machine)
    requires Ok(pr, m) && Normalize(inp, m).Some?
    ensures Ask(pr, inp, m, Direct).Some?
  {
    hide Normalize, NumProbs;
  }

  /** At the very start the range is odd: on the stream 00 FF FF FF FE a direct bit there
      makes the code word equal the range. */
  lemma DirectBitEndsRangeAtStart(pr: Props)
    ensures EndsRange(pr, [0, 0xFF, 0xFF, 0xFF, 0xFE], [])
  {
    hide Ask, Normalize, NumProbs, CodeWord;
    var inp: seq<byte> := [0, 0xFF, 0xFF, 0xFF, 0xFE];
    CodeWordLast4(inp);
    var m := StartMachine(pr, inp).value;
    ExecNothing(pr, inp, m);
    NormalizedAlready(inp, m);
    DirectBitEscapes(pr, inp, m);
    DirectAnswers(pr, inp, m);
  }

  /** So `code < range` is no invariant of the decoder: it fails at the start of the
      stream 00 FF FF FF FF. */
  lemma CodeMayEqualRange(pr: Props)
    ensures var m := StartMachine(pr, [0, 0xFF, 0xFF, 0xFF, 0xFF]).value; m.code == m.range
  {
    CodeWordLast4([0, 0xFF, 0xFF, 0xFF, 0xFF]);
  }
}
