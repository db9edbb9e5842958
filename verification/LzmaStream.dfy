/** Whole streams: decoding from the first byte to the end of the output, the packet
    lists that streams stand for, and what two decodings have to do with each other. */
module LzmaStream {
  import opened Wrappers
  import opened Bits
  import opened LzmaContexts
  import opened LzmaRangeDecoder
  import opened LzmaPackets

  datatype Result = DataError | Finished(out: seq<byte>, consumed: nat)

  function Cut(s: seq<byte>, n: nat): (r: seq<byte>)
    ensures |r| <= n && r <= s
  {
    if |s| <= n then s else s[..n]
  }

  lemma CutMeaning(s: seq<byte>, n: nat)
    ensures Cut(s, n) <= s && |Cut(s, n)| == if |s| < n then |s| else n
  {
  }

  /** The 32-bit code word after reading the first `n` bytes; older bytes fall out. */
  function CodeWord(inp: seq<byte>, n: nat): u32
    requires n <= |inp|
  {
    if n == 0 then 0 else CodeWord(inp, n - 1) % TOP_VALUE * 256 + inp[n - 1]
  }

  function StartMachine(pr: Props, inp: seq<byte>): (r: Option<Machine>)
    ensures r.Some? ==> Ok(pr, r.value) && r.value.pos == 5 <= |inp|
  {
    if |inp| < 5 then None
    else Some(Machine(0xFFFF_FFFF, CodeWord(inp, 5), 5, seq(NumProbs(pr), _ => 1024)))
  }

  /** Before the first decision: a stream of five bytes at least, the range full, the code
      word spelled by bytes 1 to 4, highest first, and every cell undecided, so that zero
      and one have equal shares. */
  lemma StartMeaning(pr: Props, inp: seq<byte>)
    ensures StartMachine(pr, inp).Some? <==> |inp| >= 5
    ensures StartMachine(pr, inp).Some? ==>
      var m := StartMachine(pr, inp).value;
      && m.range + 1 == 0x1_0000_0000
      && m.code == inp[1] as int * 0x100_0000 + inp[2] as int * 0x1_0000 + inp[3] as int * 0x100 + inp[4]
      && forall i | 0 <= i < |m.probs| :: 2048 - m.probs[i] == m.probs[i]
  {
    hide NumProbs, CodeWord;
    if |inp| >= 5 {
      CodeWordLast4(inp);
    }
  }

  /** What one round of the packet loop comes to. */
  datatype Step = Broken | Ended(m: Machine) | Extended(m: Machine, h: History)

  function PacketStep(pr: Props, inp: seq<byte>, m: Machine, h: History): (r: Step)
    requires Ok(pr, m) && WfHistory(h)
    ensures !r.Broken? ==> Ok(pr, r.m)
    ensures r.Extended? ==> WfHistory(r.h) && h.out < r.h.out
  {
    match PacketDecode(pr, inp, m, h)
    case None => Broken
    case Some((p, m')) =>
      if p.EndMarker? then Ended(m')
      else
        match Apply(h, p)
        case None => Broken
        case Some(h') => Extended(m', h')
  }

  /** Decodes packets after history `h` until `outSize` bytes or an end marker. */
  function DecodeFrom(pr: Props, inp: seq<byte>, m: Machine, h: History, outSize: nat): (r: Result)
    requires Ok(pr, m) && WfHistory(h)
    decreases outSize - |h.out|
  {
    if |h.out| >= outSize then Finish(inp, m, h, outSize)
    else
      match PacketStep(pr, inp, m, h)
      case Broken => DataError
      case Ended(m') => Finish(inp, m', h, outSize)
      case Extended(m', h') => DecodeFrom(pr, inp, m', h', outSize)
  }

  function Finish(inp: seq<byte>, m: Machine, h: History, outSize: nat): Result {
    match Normalize(inp, m)
    case None => DataError
    case Some(n) => Finished(Cut(h.out, outSize), n.pos)
  }

  /** The history that the packet loop reaches, whether or not it ends well. */
  function Reached(pr: Props, inp: seq<byte>, m: Machine, h: History, outSize: nat): (r: History)
    requires Ok(pr, m) && WfHistory(h)
    ensures WfHistory(r) && h.out <= r.out
    decreases outSize - |h.out|
  {
    if |h.out| >= outSize then h
    else
      match PacketStep(pr, inp, m, h)
      case Broken => h
      case Ended(_) => h
      case Extended(m', h') => Reached(pr, inp, m', h', outSize)
  }

  /** One round of the loop, seen by both. */
  lemma RoundOfLoop(pr: Props, inp: seq<byte>, m: Machine, h: History, outSize: nat)
    requires Ok(pr, m) && WfHistory(h) && |h.out| < outSize
    ensures var step := PacketStep(pr, inp, m, h);
      && (!step.Extended? ==> Reached(pr, inp, m, h, outSize) == h)
      && (step.Broken? ==> DecodeFrom(pr, inp, m, h, outSize) == DataError)
      && (step.Ended? ==> DecodeFrom(pr, inp, m, h, outSize) == Finish(inp, step.m, h, outSize))
      && (step.Extended? ==> DecodeFrom(pr, inp, m, h, outSize) == DecodeFrom(pr, inp, step.m, step.h, outSize))
      && (step.Extended? ==> Reached(pr, inp, m, h, outSize) == Reached(pr, inp, step.m, step.h, outSize))
  {
    hide PacketStep, NumProbs;
  }

  lemma EndOfLoop(pr: Props, inp: seq<byte>, m: Machine, h: History, outSize: nat)
    requires Ok(pr, m) && WfHistory(h) && |h.out| >= outSize
    ensures Reached(pr, inp, m, h, outSize) == h
    ensures DecodeFrom(pr, inp, m, h, outSize) == Finish(inp, m, h, outSize)
  {
  }

  /** The bytes that a decoding has written when it ends, in success or in a data error. */
  function Written(pr: Props, inp: seq<byte>, outSize: nat): (out: seq<byte>)
    ensures |out| <= outSize
  {
    match StartMachine(pr, inp)
    case None => []
    case Some(m) => Cut(Reached(pr, inp, m, START_HISTORY, outSize).out, outSize)
  }

  function Decode(pr: Props, inp: seq<byte>, outSize: nat): Result {
    match StartMachine(pr, inp)
    case None => DataError
    case Some(m) => DecodeFrom(pr, inp, m, START_HISTORY, outSize)
  }

  // ---- Packet lists ----

  /** Every packet reaches back only into what came before it; an end marker ends the list. */
  predicate Valid(h: History, ps: seq<Packet>)
    requires WfHistory(h)
    decreases |ps|
  {
    ps != [] ==>
      && WfPacket(ps[0])
      && if ps[0].EndMarker? then |ps| == 1
         else Apply(h, ps[0]).Some? && Valid(Apply(h, ps[0]).value, ps[1..])
  }

  /** The LZ77 expansion. */
  function Expand(h: History, ps: seq<Packet>): (out: seq<byte>)
    requires WfHistory(h) && Valid(h, ps)
    ensures h.out <= out
    decreases |ps|
  {
    if ps == [] || ps[0].EndMarker? then h.out
    else Expand(Apply(h, ps[0]).value, ps[1..])
  }

  predicate EndsWithMarker(ps: seq<Packet>) {
    ps != [] && ps[|ps| - 1].EndMarker?
  }

  /** The list tells a decoder of `outSize` bytes where to stop. */
  predicate Covers(h: History, ps: seq<Packet>, outSize: nat)
    requires WfHistory(h) && Valid(h, ps)
  {
    EndsWithMarker(ps) || outSize <= |Expand(h, ps)|
  }

  /** How many packets such a decoder reads. */
  function PacketsRead(h: History, ps: seq<Packet>, outSize: nat): (n: nat)
    requires WfHistory(h) && Valid(h, ps)
    ensures n <= |ps|
    decreases |ps|
  {
    if |h.out| >= outSize || ps == [] then 0
    else if ps[0].EndMarker? then 1
    else 1 + PacketsRead(Apply(h, ps[0]).value, ps[1..], outSize)
  }

  /** The decisions that write a packet list. */
  function StreamCode(pr: Props, h: History, ps: seq<Packet>): (ds: seq<Decision>)
    requires WfHistory(h) && Valid(h, ps)
    ensures WfCode(pr, ds)
    decreases |ps|
  {
    if ps == [] then []
    else if ps[0].EndMarker? then PacketCode(pr, h, ps[0])
    else PacketCode(pr, h, ps[0]) + StreamCode(pr, Apply(h, ps[0]).value, ps[1..])
  }

  /** Any successful question also normalises, so it ends no earlier. */
  lemma NormalizeBeforeExec(pr: Props, inp: seq<byte>, m: Machine, ds: seq<Decision>)
    requires Ok(pr, m) && WfCode(pr, ds) && |ds| > 0 && Exec(pr, inp, m, ds).Some?
    ensures Normalize(inp, m).Some? && Normalize(inp, m).value.pos <= Exec(pr, inp, m, ds).value.pos
  {
    hide Ask, Normalize;
  }

  /** Normalising after a run comes no earlier than normalising before it. */
  lemma NormalizeAcrossExec(pr: Props, inp: seq<byte>, m: Machine, ds: seq<Decision>)
    requires Ok(pr, m) && WfCode(pr, ds) && Exec(pr, inp, m, ds).Some?
    requires Normalize(inp, Exec(pr, inp, m, ds).value).Some?
    ensures Normalize(inp, m).Some?
    ensures Normalize(inp, m).value.pos <= Normalize(inp, Exec(pr, inp, m, ds).value).value.pos
  {
    if |ds| > 0 {
      NormalizeBeforeExec(pr, inp, m, ds);
    }
  }

  /** A machine that answers the code of `ps` decodes to the expansion of `ps`, cut at
      `outSize`, whatever packets the list holds beyond the cut. */
  lemma {:induction false} StreamComplete(pr: Props, inp: seq<byte>, m: Machine, h: History, ps: seq<Packet>, outSize: nat)
    requires Ok(pr, m) && WfHistory(h) && Valid(h, ps) && Covers(h, ps, outSize)
    requires Exec(pr, inp, m, StreamCode(pr, h, ps)).Some?
    requires Normalize(inp, Exec(pr, inp, m, StreamCode(pr, h, ps)).value).Some?
    ensures var end := Normalize(inp, Exec(pr, inp, m, StreamCode(pr, h, ps)).value).value;
      var r := DecodeFrom(pr, inp, m, h, outSize);
      && r.Finished? && r.out == Cut(Expand(h, ps), outSize)
      && r.consumed <= end.pos
      && (PacketsRead(h, ps, outSize) == |ps| ==> r.consumed == end.pos)
    decreases |ps|
  {
    hide Normalize, Exec, PacketDecode, PacketCode, Apply;
    if |h.out| >= outSize {
      NormalizeAcrossExec(pr, inp, m, StreamCode(pr, h, ps));
      assert Cut(Expand(h, ps), outSize) == Cut(h.out, outSize);
      if ps == [] {
        ExecNothing(pr, inp, m);
      }
    } else {
      var p := ps[0];
      PacketExec(pr, inp, m, h, p);
      if !p.EndMarker? {
        var h' := Apply(h, p).value;
        ExecConcat(pr, inp, m, PacketCode(pr, h, p), StreamCode(pr, h', ps[1..]));
        var m' := Exec(pr, inp, m, PacketCode(pr, h, p)).value;
        StreamComplete(pr, inp, m', h', ps[1..], outSize);
      }
    }
  }

  lemma Prepend(pr: Props, h: History, p: Packet, rest: seq<Packet>, outSize: nat)
    requires WfHistory(h) && WfPacket(p) && !p.EndMarker? && |h.out| < outSize && Apply(h, p).Some?
    requires var h' := Apply(h, p).value;
      Valid(h', rest) && Covers(h', rest, outSize) && PacketsRead(h', rest, outSize) == |rest|
    ensures var ps, h' := [p] + rest, Apply(h, p).value;
      && Valid(h, ps) && Covers(h, ps, outSize) && PacketsRead(h, ps, outSize) == |ps|
      && Expand(h, ps) == Expand(h', rest)
      && StreamCode(pr, h, ps) == PacketCode(pr, h, p) + StreamCode(pr, h', rest)
  {
    hide Apply, PacketCode;
    assert ([p] + rest)[1..] == rest;
  }

  /** Every successful decoding is that of a packet list: the machine answered its
      code, all of it was read, and the output is its expansion. */
  lemma {:induction false} StreamSound(pr: Props, inp: seq<byte>, m: Machine, h: History, outSize: nat)
    returns (ps: seq<Packet>)
    requires Ok(pr, m) && WfHistory(h) && DecodeFrom(pr, inp, m, h, outSize).Finished?
    ensures Valid(h, ps) && Covers(h, ps, outSize) && PacketsRead(h, ps, outSize) == |ps|
    ensures var e := Exec(pr, inp, m, StreamCode(pr, h, ps));
      e.Some? && Normalize(inp, e.value).Some?
      && DecodeFrom(pr, inp, m, h, outSize)
         == Finished(Cut(Expand(h, ps), outSize), Normalize(inp, e.value).value.pos)
    decreases outSize - |h.out|
  {
    hide Normalize, Exec, PacketDecode, PacketCode;
    if |h.out| >= outSize {
      ps := [];
      ExecNothing(pr, inp, m);
    } else {
      var (p, m') := PacketDecode(pr, inp, m, h).value;
      PacketExec(pr, inp, m, h, p);
      if p.EndMarker? {
        ps := [p];
      } else {
        var h' := Apply(h, p).value;
        var rest := StreamSound(pr, inp, m', h', outSize);
        ps := [p] + rest;
        Prepend(pr, h, p, rest, outSize);
        hide Apply, Valid, Covers, PacketsRead, StreamCode, Expand;
        ExecConcat(pr, inp, m, PacketCode(pr, h, p), StreamCode(pr, h', rest));
      }
    }
  }

  /** A run that gives a list's code gives the first packet's code first. */
  lemma FirstPacket(pr: Props, inp: seq<byte>, m: Machine, h: History, ps: seq<Packet>)
    requires Ok(pr, m) && WfHistory(h) && Valid(h, ps) && ps != []
    requires Exec(pr, inp, m, StreamCode(pr, h, ps)).Some?
    ensures var first := Exec(pr, inp, m, PacketCode(pr, h, ps[0]));
      && first.Some? && PacketDecode(pr, inp, m, h) == Some((ps[0], first.value))
      && (!ps[0].EndMarker?
          ==> Exec(pr, inp, first.value, StreamCode(pr, Apply(h, ps[0]).value, ps[1..])).Some?)
  {
    hide Exec, PacketDecode, PacketCode, Apply;
    PacketExec(pr, inp, m, h, ps[0]);
    if !ps[0].EndMarker? {
      ExecConcat(pr, inp, m, PacketCode(pr, h, ps[0]), StreamCode(pr, Apply(h, ps[0]).value, ps[1..]));
    }
  }

  /** A list read to its end: nothing is left when the output is full, an end marker is the
      last packet, and what follows any other packet is again read to its end. */
  lemma ReadToTheEnd(h: History, ps: seq<Packet>, outSize: nat)
    requires WfHistory(h) && Valid(h, ps) && Covers(h, ps, outSize) && PacketsRead(h, ps, outSize) == |ps|
    ensures ps == [] <==> |h.out| >= outSize
    ensures ps != [] && ps[0].EndMarker? ==> ps == [ps[0]]
    ensures ps != [] && !ps[0].EndMarker?
        ==> (WfPacket(ps[0]) && Apply(h, ps[0]).Some? && Valid(Apply(h, ps[0]).value, ps[1..])
          && Covers(Apply(h, ps[0]).value, ps[1..], outSize)
          && PacketsRead(Apply(h, ps[0]).value, ps[1..], outSize) == |ps[1..]|
          && ps == [ps[0]] + ps[1..])
  {
    hide Apply;
  }

  /** The packet code is unique: one run gives the codes of two lists, both read to
      their ends by the same decoder, only if they are the same list. */
  lemma {:induction false} UniquePackets(pr: Props, inp: seq<byte>, m: Machine, h: History, ps: seq<Packet>,
                                         qs: seq<Packet>, outSize: nat)
    requires Ok(pr, m) && WfHistory(h) && Valid(h, ps) && Valid(h, qs)
    requires Covers(h, ps, outSize) && PacketsRead(h, ps, outSize) == |ps|
    requires Covers(h, qs, outSize) && PacketsRead(h, qs, outSize) == |qs|
    requires Exec(pr, inp, m, StreamCode(pr, h, ps)).Some? && Exec(pr, inp, m, StreamCode(pr, h, qs)).Some?
    ensures ps == qs
    decreases |ps|
  {
    hide Exec, PacketDecode, PacketCode, Apply, Valid, Covers, PacketsRead, StreamCode;
    ReadToTheEnd(h, ps, outSize);
    ReadToTheEnd(h, qs, outSize);
    if |h.out| < outSize {
      FirstPacket(pr, inp, m, h, ps);
      FirstPacket(pr, inp, m, h, qs);
      if !ps[0].EndMarker? {
        var m' := Exec(pr, inp, m, PacketCode(pr, h, ps[0])).value;
        UniquePackets(pr, inp, m', Apply(h, ps[0]).value, ps[1..], qs[1..], outSize);
      }
    }
  }

  /** Whatever comes of it, the loop got exactly as far as a valid packet list without end
      marker whose code the machine gave. */
  lemma {:induction false} ReachedSound(pr: Props, inp: seq<byte>, m: Machine, h: History, outSize: nat)
    returns (ps: seq<Packet>)
    requires Ok(pr, m) && WfHistory(h)
    ensures Valid(h, ps) && !EndsWithMarker(ps) && Exec(pr, inp, m, StreamCode(pr, h, ps)).Some?
    ensures Reached(pr, inp, m, h, outSize).out == Expand(h, ps)
    decreases outSize - |h.out|
  {
    hide Exec, PacketDecode, PacketCode;
    ps := [];
    ExecNothing(pr, inp, m);
    if |h.out| < outSize && PacketStep(pr, inp, m, h).Extended? {
      var (p, m') := PacketDecode(pr, inp, m, h).value;
      PacketExec(pr, inp, m, h, p);
      var h' := Apply(h, p).value;
      var rest := ReachedSound(pr, inp, m', h', outSize);
      ps := [p] + rest;
      assert ps[1..] == rest;
      hide Apply;
      ExecConcat(pr, inp, m, PacketCode(pr, h, p), StreamCode(pr, h', rest));
    }
  }

  /** On a data error too, the bytes written are the expansion of packets that the stream
      encodes, cut at `outSize`; a successful decoding's output is what it has written. */
  lemma WrittenSound(pr: Props, inp: seq<byte>, outSize: nat) returns (ps: seq<Packet>)
    requires |inp| >= 5
    ensures Valid(START_HISTORY, ps) && !EndsWithMarker(ps)
    ensures Exec(pr, inp, StartMachine(pr, inp).value, StreamCode(pr, START_HISTORY, ps)).Some?
    ensures Written(pr, inp, outSize) == Cut(Expand(START_HISTORY, ps), outSize)
  {
    hide Exec, Reached;
    ps := ReachedSound(pr, inp, StartMachine(pr, inp).value, START_HISTORY, outSize);
  }

  lemma {:induction false} FinishedIsReached(pr: Props, inp: seq<byte>, m: Machine, h: History, outSize: nat)
    requires Ok(pr, m) && WfHistory(h) && DecodeFrom(pr, inp, m, h, outSize).Finished?
    ensures DecodeFrom(pr, inp, m, h, outSize).out == Cut(Reached(pr, inp, m, h, outSize).out, outSize)
    decreases outSize - |h.out|
  {
    hide PacketStep, Normalize;
    if |h.out| < outSize && PacketStep(pr, inp, m, h).Extended? {
      var step := PacketStep(pr, inp, m, h);
      FinishedIsReached(pr, inp, step.m, step.h, outSize);
    }
  }

  lemma OutputIsWritten(pr: Props, inp: seq<byte>, outSize: nat)
    requires Decode(pr, inp, outSize).Finished?
    ensures Decode(pr, inp, outSize).out == Written(pr, inp, outSize)
  {
    hide DecodeFrom, Reached;
    FinishedIsReached(pr, inp, StartMachine(pr, inp).value, START_HISTORY, outSize);
  }

  // ---- Two decodings ----

  /** Asking for fewer bytes of the same input gives the same bytes, fewer of them, and
      reads no further; even where the cut falls inside a match. */
  lemma PrefixConsistency(pr: Props, inp: seq<byte>, outSize: nat, smaller: nat)
    requires smaller <= outSize && Decode(pr, inp, outSize).Finished?
    ensures var full, part := Decode(pr, inp, outSize), Decode(pr, inp, smaller);
      part.Finished? && part.out == Cut(full.out, smaller) && part.consumed <= full.consumed
  {
    hide DecodeFrom, Exec, Normalize, Valid, PacketsRead, StreamCode, CodeWord, NumProbs, Ok;
    var m := StartMachine(pr, inp).value;
    var ps := StreamSound(pr, inp, m, START_HISTORY, outSize);
    StreamComplete(pr, inp, m, START_HISTORY, ps, smaller);
  }

  lemma SharedStart(pr: Props, a: seq<byte>, b: seq<byte>, k: nat)
    requires 5 <= k && SharePrefix(a, b, k)
    ensures StartMachine(pr, b) == StartMachine(pr, a)
  {
    assert forall i :: 0 <= i < 5 ==> a[i] == a[..k][i] == b[..k][i] == b[i];
    CodeWordLast4(a);
    CodeWordLast4(b);
  }

  /** A decoding that consumed `k` bytes is a function of those `k` bytes. */
  lemma DependsOnConsumedBytes(pr: Props, a: seq<byte>, b: seq<byte>, outSize: nat)
    requires Decode(pr, a, outSize).Finished?
    requires SharePrefix(a, b, Decode(pr, a, outSize).consumed)
    ensures Decode(pr, b, outSize) == Decode(pr, a, outSize)
  {
    var k := Decode(pr, a, outSize).consumed;
    var m := StartMachine(pr, a).value;
    var ps := StreamSound(pr, a, m, START_HISTORY, outSize);
    var code := StreamCode(pr, START_HISTORY, ps);
    var end := Exec(pr, a, m, code).value;
    SharedStart(pr, a, b, k);
    ExecShared(pr, a, b, m, code, k);
    NormalizeShared(a, b, end, k);
    StreamComplete(pr, b, m, START_HISTORY, ps, outSize);
  }

  lemma ConsumedWithinInput(pr: Props, inp: seq<byte>, outSize: nat)
    requires Decode(pr, inp, outSize).Finished?
    ensures 5 <= Decode(pr, inp, outSize).consumed <= |inp|
  {
    var m := StartMachine(pr, inp).value;
    var ps := StreamSound(pr, inp, m, START_HISTORY, outSize);
  }

  /** No byte it consumed was superfluous: every shorter prefix is a data error. */
  lemma TruncationIsDataError(pr: Props, inp: seq<byte>, outSize: nat, n: nat)
    requires Decode(pr, inp, outSize).Finished? && n < Decode(pr, inp, outSize).consumed && n <= |inp|
    ensures Decode(pr, inp[..n], outSize) == DataError
  {
    var cut := inp[..n];
    if Decode(pr, cut, outSize).Finished? {
      ConsumedWithinInput(pr, cut, outSize);
      var k := Decode(pr, cut, outSize).consumed;
      assert cut[..k] == inp[..k];
      DependsOnConsumedBytes(pr, cut, inp, outSize);
    }
  }

  /** The first byte of a stream is read but never used. */
  lemma FirstByteIgnored(pr: Props, inp: seq<byte>, first: byte, outSize: nat)
    requires |inp| >= 5
    ensures Decode(pr, inp[0 := first], outSize) == Decode(pr, inp, outSize)
  {
    var other := inp[0 := first];
    var m := StartMachine(pr, inp).value;
    assert CodeWord(other, 5) == CodeWord(inp, 5) by {
      CodeWordForgets(inp, other);
    }
    if Decode(pr, inp, outSize).Finished? {
      FirstByteIgnoredFrom(pr, inp, other, m, outSize);
    } else if Decode(pr, other, outSize).Finished? {
      FirstByteIgnoredFrom(pr, other, inp, m, outSize);
    }
  }

  lemma CodeWordForgets(a: seq<byte>, b: seq<byte>)
    requires |a| == |b| >= 5 && a[1..] == b[1..]
    ensures CodeWord(a, 5) == CodeWord(b, 5)
  {
    assert forall i :: 1 <= i < 5 ==> a[i] == a[1..][i - 1] == b[1..][i - 1] == b[i];
    CodeWordLast4(a);
    CodeWordLast4(b);
  }

  lemma CodeWordLast4(a: seq<byte>)
    requires |a| >= 5
    ensures CodeWord(a, 5) == a[1] as int * 0x100_0000 + a[2] as int * 0x1_0000 + a[3] as int * 0x100 + a[4]
  {
    assert CodeWord(a, 0) == 0;
    assert CodeWord(a, 1) == a[0];
    assert CodeWord(a, 2) == a[0] as int * 0x100 + a[1];
    assert CodeWord(a, 3) == a[0] as int * 0x1_0000 + a[1] as int * 0x100 + a[2];
    assert CodeWord(a, 4) == a[0] as int * 0x100_0000 + a[1] as int * 0x1_0000 + a[2] as int * 0x100 + a[3];
    assert CodeWord(a, 4) % TOP_VALUE == a[1] as int * 0x1_0000 + a[2] as int * 0x100 + a[3];
  }

  lemma FirstByteIgnoredFrom(pr: Props, a: seq<byte>, b: seq<byte>, m: Machine, outSize: nat)
    requires |a| == |b| >= 5 && a[1..] == b[1..]
    requires StartMachine(pr, a) == StartMachine(pr, b) == Some(m)
    requires Decode(pr, a, outSize).Finished?
    ensures Decode(pr, b, outSize) == Decode(pr, a, outSize)
  {
    var ps := StreamSound(pr, a, m, START_HISTORY, outSize);
    var code := StreamCode(pr, START_HISTORY, ps);
    ExecIgnoresRead(pr, a, b, m, code);
    var end := Exec(pr, a, m, code).value;
    NormalizeIgnoresRead(a, b, end);
    StreamComplete(pr, b, m, START_HISTORY, ps, outSize);
  }

  lemma NormalizeIgnoresRead(a: seq<byte>, b: seq<byte>, m: Machine)
    requires |a| == |b| >= 1 && a[1..] == b[1..] && m.pos >= 1
    ensures Normalize(b, m) == Normalize(a, m)
  {
    if m.pos < |a| {
      assert a[m.pos] == a[1..][m.pos - 1];
      assert b[m.pos] == b[1..][m.pos - 1];
    }
  }

  /** A run depends on no byte before its first position. */
  lemma {:induction false} ExecIgnoresRead(pr: Props, a: seq<byte>, b: seq<byte>, m: Machine, ds: seq<Decision>)
    requires Ok(pr, m) && WfCode(pr, ds) && m.pos >= 1
    requires |a| == |b| >= 1 && a[1..] == b[1..]
    ensures Exec(pr, b, m, ds) == Exec(pr, a, m, ds)
    decreases |ds|
  {
    if ds != [] {
      hide Ask;
      NormalizeIgnoresRead(a, b, m);
      AskReadsByNormalizing(pr, a, b, m, ds[0].query);
      var answer := Ask(pr, a, m, ds[0].query);
      if answer.Some? {
        ExecIgnoresRead(pr, a, b, answer.value.1, ds[1..]);
      }
    }
  }
}
