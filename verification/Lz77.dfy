/** What a packet list means, told by positions in the list: which distance a packet uses,
    which bytes it stands for, and which context state follows it. Nothing here steps a
    history along; the lemmas say that the decoder's histories agree. */
module Lz77 {
  import opened Wrappers
  import opened Bits
  import opened LzmaContexts
  import opened LzmaRangeDecoder
  import opened LzmaPackets
  import opened LzmaStream
  import opened LzmaEncoder

  /** The history after a packet list; an end marker adds nothing. */
  function Reach(h: History, ps: seq<Packet>): (r: History)
    requires WfHistory(h) && Valid(h, ps)
    ensures WfHistory(r) && r.out == Expand(h, ps)
    decreases |ps|
  {
    if ps == [] || ps[0].EndMarker? then h else Reach(Apply(h, ps[0]).value, ps[1..])
  }

  // ---- The context state ----

  datatype Kind = ALiteral | AMatch | ARepeat | AShortRepeat

  function KindOf(p: Packet): Kind {
    match p
    case Lit(_) => ALiteral
    case Match(_, _) => AMatch
    case Rep(_, _) => ARepeat
    case ShortRep => AShortRepeat
    case EndMarker(_) => AMatch
  }

  /** The kind of packet `i`; what is before the list counts as literals. */
  function KindAt(ps: seq<Packet>, i: int): Kind {
    if 0 <= i < |ps| then KindOf(ps[i]) else ALiteral
  }

  /** The state after packets of kinds `a`, `b`, `c`, `d`, the last one `d`: what matters is
      the last packet that is not a literal, how many literals follow it (three or more
      are all the same), and whether a literal stands before it. */
  function StateOfKinds(a: Kind, b: Kind, c: Kind, d: Kind): nat {
    if d != ALiteral then Choose(c, d, 7, 8, 9, 10, 11)
    else if c != ALiteral then Choose(b, c, 4, 5, 6, 4, 5)
    else if b != ALiteral then Choose(a, b, 1, 2, 3, 1, 2)
    else 0
  }

  /** For a match, repeat or short repeat after a literal; a match or any repeat after another. */
  function Choose(previous: Kind, kind: Kind, m: nat, r: nat, s: nat, m2: nat, r2: nat): nat {
    if previous != ALiteral then if kind == AMatch then m2 else r2
    else if kind == AMatch then m
    else if kind == ARepeat then r
    else s
  }

  function StateOfLastFour(ps: seq<Packet>): nat {
    StateOfKinds(KindAt(ps, |ps| - 4), KindAt(ps, |ps| - 3), KindAt(ps, |ps| - 2), KindAt(ps, |ps| - 1))
  }

  lemma StateStep(h: History, p: Packet, a: Kind, b: Kind, c: Kind, d: Kind)
    requires WfHistory(h) && WfPacket(p) && !p.EndMarker? && Apply(h, p).Some?
    requires h.state == StateOfKinds(a, b, c, d)
    ensures Apply(h, p).value.state == StateOfKinds(b, c, d, KindOf(p))
  {
    hide StateOfKinds, CopyMatch, RepsAfter;
    KindStep(a, b, c, d);
  }

  /** The four transitions out of the state after `a`, `b`, `c`, `d`. */
  lemma KindStep(a: Kind, b: Kind, c: Kind, d: Kind)
    ensures var s := StateOfKinds(a, b, c, d);
      && s < 12
      && StateOfKinds(b, c, d, ALiteral) == StateAfterLiteral(s)
      && StateOfKinds(b, c, d, AMatch) == StateAfter(s, 7, 10)
      && StateOfKinds(b, c, d, ARepeat) == StateAfter(s, 8, 11)
      && StateOfKinds(b, c, d, AShortRepeat) == StateAfter(s, 9, 11)
  {
  }

  lemma {:induction false} StateFrom(done: seq<Packet>, h: History, ps: seq<Packet>)
    requires WfHistory(h) && Valid(h, ps) && !EndsWithMarker(ps) && h.state == StateOfLastFour(done)
    ensures Reach(h, ps).state == StateOfLastFour(done + ps)
    decreases |ps|
  {
    hide StateOfKinds, Apply;
    if ps == [] {
      assert done + ps == done;
    } else {
      var next := done + [ps[0]];
      StateStep(h, ps[0], KindAt(done, |done| - 4), KindAt(done, |done| - 3), KindAt(done, |done| - 2), KindAt(done, |done| - 1));
      StateFrom(next, Apply(h, ps[0]).value, ps[1..]);
      assert next + ps[1..] == done + ps;
    }
  }

  /** The state that selects contexts is a function of the kinds of the last four packets. */
  lemma StateIsLastFour(ps: seq<Packet>)
    requires Valid(START_HISTORY, ps) && !EndsWithMarker(ps)
    ensures Reach(START_HISTORY, ps).state == StateOfLastFour(ps)
  {
    hide Valid, Reach;
    StateFrom([], START_HISTORY, ps);
    assert [] + ps == ps;
  }

  // ---- Distances ----

  /** The four most recent distances, the latest first, after one more packet: a match
      puts its own in front, a repeat moves the one it uses to the front, and the others
      keep their order. */
  function Used(recent: seq<nat>, p: Packet): (r: seq<nat>)
    requires |recent| == 4
    ensures |r| == 4
  {
    match p
    case Match(distance, _) => [distance] + recent[..3]
    case Rep(k, _) => if k < 4 then [recent[k]] + recent[..k] + recent[k + 1..] else recent
    case _ => recent
  }

  /** Four distances of 1 stand before the first packet. */
  function Recent(ps: seq<Packet>): (r: seq<nat>)
    ensures |r| == 4
  {
    if ps == [] then [1, 1, 1, 1] else Used(Recent(ps[..|ps| - 1]), ps[|ps| - 1])
  }

  function Distance(recent: seq<nat>, p: Packet): nat
    requires |recent| == 4
  {
    match p
    case Match(distance, _) => distance
    case Rep(k, _) => if k < 4 then recent[k] else 0
    case ShortRep => recent[0]
    case _ => 0
  }

  function RepsOf(h: History): (r: seq<nat>)
    ensures |r| == 4
  {
    [h.rep0, h.rep1, h.rep2, h.rep3]
  }

  // ---- Bytes ----

  function LengthOf(p: Packet): nat {
    match p
    case Lit(_) => 1
    case Match(_, len) => len
    case ShortRep => 1
    case Rep(_, len) => len
    case EndMarker(_) => 0
  }

  function Total(ps: seq<Packet>): nat {
    if ps == [] then 0 else Total(ps[..|ps| - 1]) + LengthOf(ps[|ps| - 1])
  }

  lemma {:induction false} CopyRepeats(out: seq<byte>, distance: nat, n: nat, i: nat)
    requires 1 <= distance <= |out| && |out| <= i < |out| + n
    ensures CopyMatch(out, distance, n)[i] == CopyMatch(out, distance, n)[i - distance]
    decreases n
  {
    var next := out + [out[|out| - distance]];
    if i == |out| {
      assert next <= CopyMatch(next, distance, n - 1);
      assert CopyMatch(next, distance, n - 1)[i] == next[i];
      assert CopyMatch(next, distance, n - 1)[i - distance] == next[i - distance];
    } else {
      CopyRepeats(next, distance, n - 1, i);
    }
  }

  lemma RepsMeaning(h: History, p: Packet)
    requires WfHistory(h) && WfPacket(p) && !p.EndMarker?
    ensures Apply(h, p).Some? ==> RepsOf(Apply(h, p).value) == Used(RepsOf(h), p)
    ensures RepsAfter(h, p).0 == if p.Lit? then h.rep0 else Distance(RepsOf(h), p)
  {
    hide CopyMatch;
  }

  /** What a packet does to the output, byte by byte. It is refused exactly if its distance
      reaches back past the start. A literal appends its byte; every other packet appends
      as many bytes as its length says, each equal to the byte its distance before. */
  lemma ApplyMeaning(h: History, p: Packet)
    requires WfHistory(h) && WfPacket(p) && !p.EndMarker?
    ensures var d, r := Distance(RepsOf(h), p), Apply(h, p);
      && (r.Some? <==> p.Lit? || d <= |h.out|)
      && (r.Some? ==>
            && RepsOf(r.value) == Used(RepsOf(h), p)
            && h.out <= r.value.out && |r.value.out| == |h.out| + LengthOf(p)
            && (p.Lit? ==> r.value.out[|h.out|] == p.value)
            && (!p.Lit? ==> 1 <= d <= |h.out|)
            && (!p.Lit? ==> forall i | |h.out| <= i < |r.value.out| :: r.value.out[i] == r.value.out[i - d]))
  {
    hide CopyMatch;
    RepsMeaning(h, p);
    var d, r := Distance(RepsOf(h), p), Apply(h, p);
    if r.Some? && (p.Match? || p.Rep?) {
      forall i | |h.out| <= i < |r.value.out|
        ensures r.value.out[i] == r.value.out[i - d]
      {
        CopyRepeats(h.out, d, p.len, i);
      }
    }
  }

  /** The history agrees with the packets done so far. */
  predicate After(h: History, done: seq<Packet>) {
    RepsOf(h) == Recent(done) && |h.out| == Total(done)
  }

  lemma AfterOneMore(h: History, done: seq<Packet>, p: Packet)
    requires WfHistory(h) && After(h, done) && WfPacket(p) && !p.EndMarker? && Apply(h, p).Some?
    ensures After(Apply(h, p).value, done + [p])
  {
    hide Apply, Used, LengthOf, WfHistory;
    ApplyMeaning(h, p);
    assert (done + [p])[..|done|] == done;
  }

  /** Packet `i` is well formed and reaches back only into what the packets before it stand
      for; an end marker is the last. */
  predicate Reaches(ps: seq<Packet>, i: nat)
    requires i < |ps|
  {
    && WfPacket(ps[i])
    && (ps[i].EndMarker? ==> i == |ps| - 1)
    && (!ps[i].Lit? && !ps[i].EndMarker? ==> Distance(Recent(ps[..i]), ps[i]) <= Total(ps[..i]))
  }

  lemma {:induction false} ValidFrom(done: seq<Packet>, h: History, ps: seq<Packet>)
    requires WfHistory(h) && After(h, done)
    ensures Valid(h, ps) <==> forall i | |done| <= i < |done + ps| :: Reaches(done + ps, i)
    decreases |ps|
  {
    hide Apply, Distance, Recent, Total, WfPacket;
    if ps != [] {
      var p, next, all := ps[0], done + [ps[0]], done + ps;
      assert all[|done|] == p && all[..|done|] == done;
      assert next + ps[1..] == all;
      if WfPacket(p) && !p.EndMarker? {
        ApplyMeaning(h, p);
        if Apply(h, p).Some? {
          AfterOneMore(h, done, p);
          ValidFrom(next, Apply(h, p).value, ps[1..]);
          assert (forall i | |done| <= i < |all| :: Reaches(all, i))
            <==> Reaches(all, |done|) && forall i | |next| <= i < |all| :: Reaches(all, i);
        } else {
          assert !Reaches(all, |done|);
        }
      } else if WfPacket(p) && |ps| == 1 {
        assert Reaches(all, |done|);
      } else {
        assert !Reaches(all, |done|);
      }
    }
  }

  /** A packet list is valid if and only if every packet reaches back only into the output
      of those before it. */
  lemma ValidMeaning(ps: seq<Packet>)
    ensures Valid(START_HISTORY, ps) <==> forall i | 0 <= i < |ps| :: Reaches(ps, i)
  {
    hide Valid, Reaches;
    ValidFrom([], START_HISTORY, ps);
    assert [] + ps == ps;
  }

  /** Byte `j` of packet `i` in `out`: the literal, or the byte one distance before it. */
  predicate Stands(out: seq<byte>, ps: seq<Packet>, i: nat, j: nat)
    requires i < |ps|
  {
    var at, d := Total(ps[..i]) + j, Distance(Recent(ps[..i]), ps[i]);
    at < |out| &&
    if ps[i].Lit? then out[at] == ps[i].value
    else 1 <= d <= at && out[at] == out[at - d]
  }

  lemma {:induction false} ExpandFrom(done: seq<Packet>, h: History, ps: seq<Packet>)
    requires WfHistory(h) && After(h, done) && Valid(h, ps)
    ensures |Expand(h, ps)| == Total(done + ps)
    ensures forall i, j | |done| <= i < |done + ps| && 0 <= j < LengthOf((done + ps)[i]) ::
      Stands(Expand(h, ps), done + ps, i, j)
    decreases |ps|
  {
    hide Apply, Distance, Recent, WfPacket, LengthOf;
    var all, out := done + ps, Expand(h, ps);
    if ps == [] {
      assert all == done;
    } else if ps[0].EndMarker? {
      MarkerAddsNothing(ps[0]);
      assert all[..|done|] == done && all[|done|] == ps[0];
    } else {
      var p, next, h' := ps[0], done + [ps[0]], Apply(h, ps[0]).value;
      ApplyMeaning(h, p);
      AfterOneMore(h, done, p);
      ExpandFrom(next, h', ps[1..]);
      assert next + ps[1..] == all;
      assert all[|done|] == p && all[..|done|] == done;
      forall j | 0 <= j < LengthOf(p)
        ensures Stands(out, all, |done|, j)
      {
        FirstStands(h, p, out, all, |done|, j);
      }
    }
  }

  lemma MarkerAddsNothing(p: Packet)
    requires p.EndMarker?
    ensures LengthOf(p) == 0
  {
  }

  lemma FirstStands(h: History, p: Packet, out: seq<byte>, all: seq<Packet>, i: nat, j: nat)
    requires WfHistory(h) && WfPacket(p) && !p.EndMarker? && Apply(h, p).Some? && Apply(h, p).value.out <= out
    requires i < |all| && all[i] == p && After(h, all[..i]) && j < LengthOf(p)
    ensures Stands(out, all, i, j)
  {
    hide Apply, Distance, Recent, Total, WfPacket;
    ApplyMeaning(h, p);
    var o, at, d := Apply(h, p).value.out, |h.out| + j, Distance(RepsOf(h), p);
    assert out[at] == o[at];
    if !p.Lit? {
      assert o[at] == o[at - d] == out[at - d];
    }
  }

  lemma {:induction false} TotalGrows(ps: seq<Packet>, i: nat)
    requires i <= |ps|
    ensures Total(ps[..i]) <= Total(ps)
    decreases |ps|
  {
    if i < |ps| {
      TotalGrows(ps[..|ps| - 1], i);
      assert ps[..|ps| - 1][..i] == ps[..i];
    } else {
      assert ps[..i] == ps;
    }
  }

  lemma {:induction false} ReadFrom(done: seq<Packet>, h: History, ps: seq<Packet>, outSize: nat)
    requires WfHistory(h) && After(h, done) && Valid(h, ps)
    ensures forall i | |done| <= i < |done + ps| ::
      Total((done + ps)[..i]) < outSize <==> i - |done| < PacketsRead(h, ps, outSize)
    decreases |ps|
  {
    hide Apply, WfPacket, LengthOf, Recent;
    var all := done + ps;
    if |h.out| >= outSize {
      forall i | |done| <= i < |all|
        ensures Total(all[..i]) >= outSize
      {
        TotalGrows(all[..i], |done|);
        assert all[..i][..|done|] == done;
      }
    } else if ps != [] {
      assert all[..|done|] == done;
      if !ps[0].EndMarker? {
        var next := done + [ps[0]];
        AfterOneMore(h, done, ps[0]);
        ReadFrom(next, Apply(h, ps[0]).value, ps[1..], outSize);
        assert next + ps[1..] == all;
      }
    }
  }

  /** Packet `i` is read exactly if those before it fall short of `outSize` bytes; the list
      is read to its end exactly if that is so for all. */
  lemma ReadMeaning(ps: seq<Packet>, outSize: nat)
    requires Valid(START_HISTORY, ps)
    ensures forall i | 0 <= i < |ps| :: Total(ps[..i]) < outSize <==> i < PacketsRead(START_HISTORY, ps, outSize)
    ensures PacketsRead(START_HISTORY, ps, outSize) == |ps| <==> forall i | 0 <= i < |ps| :: Total(ps[..i]) < outSize
  {
    hide Valid, PacketsRead;
    ReadFrom([], START_HISTORY, ps, outSize);
    assert [] + ps == ps;
    var n := PacketsRead(START_HISTORY, ps, outSize);
    if n < |ps| {
      assert Total(ps[..n]) >= outSize;
    }
  }

  /** The expansion of a packet list: as long as its packets say, and every byte of it the
      literal it stands for or the byte one distance before it. So the list determines it. */
  lemma ExpandMeaning(ps: seq<Packet>)
    requires Valid(START_HISTORY, ps)
    ensures var out := Expand(START_HISTORY, ps);
      && |out| == Total(ps)
      && forall i, j | 0 <= i < |ps| && 0 <= j < LengthOf(ps[i]) :: Stands(out, ps, i, j)
  {
    hide Valid, Expand, Stands;
    ExpandFrom([], START_HISTORY, ps);
    assert [] + ps == ps;
  }

  // ---- Streams ----

  /** `out` is what the packets stand for, cut at `outSize`. */
  predicate SpelledBy(out: seq<byte>, ps: seq<Packet>, outSize: nat) {
    && |out| == (if Total(ps) < outSize then Total(ps) else outSize)
    && forall i, j | 0 <= i < |ps| && 0 <= j < LengthOf(ps[i]) && Total(ps[..i]) + j < |out| :: Stands(out, ps, i, j)
  }

  lemma CutSpelled(ps: seq<Packet>, outSize: nat)
    requires Valid(START_HISTORY, ps)
    ensures SpelledBy(Cut(Expand(START_HISTORY, ps), outSize), ps, outSize)
  {
    hide Valid, Expand, Distance, Recent, Total;
    ExpandMeaning(ps);
    var all, out := Expand(START_HISTORY, ps), Cut(Expand(START_HISTORY, ps), outSize);
    CutMeaning(all, outSize);
    forall i, j | 0 <= i < |ps| && 0 <= j < LengthOf(ps[i]) && Total(ps[..i]) + j < |out|
      ensures Stands(out, ps, i, j)
    {
      assert Stands(all, ps, i, j);
    }
  }

  /** What any successful decoding writes: packets that reach back only into what came
      before them, spelled out byte by byte and cut at `outSize`, each of them needed. */
  lemma DecodedMeaning(pr: Props, inp: seq<byte>, outSize: nat) returns (ps: seq<Packet>)
    requires Decode(pr, inp, outSize).Finished?
    ensures forall i | 0 <= i < |ps| :: Reaches(ps, i) && Total(ps[..i]) < outSize
    ensures SpelledBy(Decode(pr, inp, outSize).out, ps, outSize)
    ensures EndsWithMarker(ps) || outSize <= Total(ps)
  {
    hide Reaches, SpelledBy, Exec, Normalize, StreamCode, Valid, Expand, Total, DecodeFrom;
    ps := StreamSound(pr, inp, StartMachine(pr, inp).value, START_HISTORY, outSize);
    ValidMeaning(ps);
    ReadMeaning(ps, outSize);
    ExpandMeaning(ps);
    CutSpelled(ps, outSize);
  }

  /** Conversely, every such packet list has a stream, and decoding it, whatever follows,
      consumes just the stream and writes what the packets stand for. */
  lemma EncodedMeaning(pr: Props, ps: seq<Packet>, tail: seq<byte>, outSize: nat)
    requires forall i | 0 <= i < |ps| :: Reaches(ps, i)
    requires forall i | 0 <= i < |ps| :: Total(ps[..i]) < outSize
    requires EndsWithMarker(ps) || outSize <= Total(ps)
    ensures Valid(START_HISTORY, ps)
    ensures var stream, r := EncodeStream(pr, ps), Decode(pr, EncodeStream(pr, ps) + tail, outSize);
      r.Finished? && r.consumed == |stream| && SpelledBy(r.out, ps, outSize)
  {
    hide Reaches, SpelledBy, Valid, Expand, Total, Decode, EncodeStream, PacketsRead;
    ValidMeaning(ps);
    ReadMeaning(ps, outSize);
    ExpandMeaning(ps);
    DecodeOfEncode(pr, ps, tail, outSize);
    CutSpelled(ps, outSize);
  }
}
