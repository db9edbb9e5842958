/** The symbol decoders of LZMA (bit trees, literals, lengths, distances) beside the
    codes they invert. Every decoder here has a code function and two lemmas: what it
    decodes is what the machine answered the code of (`...Sound`), and a machine that
    answers the code of a symbol makes it decode that symbol (`...Complete`). */
module LzmaSymbols {
  import opened Wrappers
  import opened Bits
  import opened LzmaContexts
  import opened LzmaRangeDecoder

  // ---- Bit trees, most significant bit first ----

  /** `node` is a node of `t` with `k` levels below it. */
  predicate WfNode(t: Tree, k: nat, node: nat) {
    k <= Levels(t) && Pow2(Levels(t) - k) <= node < 2 * Pow2(Levels(t) - k)
  }

  lemma WfNodeStep(pr: Props, t: Tree, k: nat, node: nat)
    requires WfTree(pr, t) && WfNode(t, k, node) && k > 0
    ensures WfCell(pr, Node(t, node))
    ensures WfNode(t, k - 1, 2 * node) && WfNode(t, k - 1, 2 * node + 1)
  {
    Pow2Monotone(Levels(t) - k + 1, Levels(t));
  }

  lemma {:induction false} WfAncestor(t: Tree, k: nat, symbol: nat)
    requires WfNode(t, 0, symbol) && k <= Levels(t)
    ensures WfNode(t, k, Shr(symbol, k))
  {
    if k > 0 {
      WfAncestor(t, k - 1, symbol);
    }
  }

  function TreeDecode(pr: Props, inp: seq<byte>, m: Machine, t: Tree, k: nat, node: nat)
    : (r: Option<(nat, Machine)>)
    requires Ok(pr, m) && WfTree(pr, t) && WfNode(t, k, node)
    ensures r.Some? ==> Ok(pr, r.value.1) && WfNode(t, 0, r.value.0)
    decreases k
  {
    if k == 0 then Some((node, m))
    else
      WfNodeStep(pr, t, k, node);
      var (bit, m') :- Ask(pr, inp, m, Adaptive(Node(t, node)));
      TreeDecode(pr, inp, m', t, k - 1, 2 * node + bit)
  }

  lemma TreeStep(pr: Props, inp: seq<byte>, m: Machine, t: Tree, k: nat, node: nat, bit: Bit, next: nat)
    requires Ok(pr, m) && WfTree(pr, t) && WfNode(t, k, node) && k > 0 && WfCell(pr, Node(t, node))
    requires next == 2 * node + bit && WfNode(t, k - 1, next)
    ensures var answer, r := Ask(pr, inp, m, Adaptive(Node(t, node))), TreeDecode(pr, inp, m, t, k, node);
      && (answer.None? ==> r.None?)
      && (answer.Some? && answer.value.0 == bit ==> r == TreeDecode(pr, inp, answer.value.1, t, k - 1, next))
  {
    hide Ok, Ask, WfTree, WfCell, WfNode, Levels, Pow2, NumProbs;
  }

  lemma TreeLeaf(pr: Props, inp: seq<byte>, m: Machine, t: Tree, node: nat)
    requires Ok(pr, m) && WfTree(pr, t) && WfNode(t, 0, node)
    ensures TreeDecode(pr, inp, m, t, 0, node) == Some((node, m))
  {
  }

  /** The last `k` decisions that lead to the leaf `symbol`. */
  function TreeCode(pr: Props, t: Tree, k: nat, symbol: nat): (ds: seq<Decision>)
    requires WfTree(pr, t) && WfNode(t, 0, symbol) && k <= Levels(t)
    ensures WfCode(pr, ds) && |ds| == k
  {
    if k == 0 then []
    else
      WfAncestor(t, k, symbol);
      WfNodeStep(pr, t, k, Shr(symbol, k));
      [Decision(Adaptive(Node(t, Shr(symbol, k))), Shr(symbol, k - 1) % 2)] + TreeCode(pr, t, k - 1, symbol)
  }

  lemma {:induction false} TreeSound(pr: Props, inp: seq<byte>, m: Machine, t: Tree, k: nat, node: nat)
    requires Ok(pr, m) && WfTree(pr, t) && WfNode(t, k, node)
    ensures var r := TreeDecode(pr, inp, m, t, k, node);
      r.Some? ==> (Shr(r.value.0, k) == node
        && Exec(pr, inp, m, TreeCode(pr, t, k, r.value.0)) == Some(r.value.1))
    decreases k
  {
    hide Ask, Exec, Levels, WfTree, WfCell, WfNode, Pow2, Shl;
    ExecNothing(pr, inp, m);
    var r := TreeDecode(pr, inp, m, t, k, node);
    if k > 0 && r.Some? {
      WfNodeStep(pr, t, k, node);
      var q := Adaptive(Node(t, node));
      var (bit, m') := Ask(pr, inp, m, q).value;
      TreeSound(pr, inp, m', t, k - 1, 2 * node + bit);
      ExecCons(pr, inp, m, Decision(q, bit), TreeCode(pr, t, k - 1, r.value.0));
    }
  }

  lemma {:induction false} TreeComplete(pr: Props, inp: seq<byte>, m: Machine, t: Tree, k: nat, symbol: nat)
    requires Ok(pr, m) && WfTree(pr, t) && WfNode(t, 0, symbol) && k <= Levels(t)
    requires Exec(pr, inp, m, TreeCode(pr, t, k, symbol)).Some?
    ensures WfNode(t, k, Shr(symbol, k))
    ensures TreeDecode(pr, inp, m, t, k, Shr(symbol, k))
         == Some((symbol, Exec(pr, inp, m, TreeCode(pr, t, k, symbol)).value))
    decreases k
  {
    hide Ask, Exec, Levels, WfTree, WfCell, WfNode, Pow2, Shl;
    ExecNothing(pr, inp, m);
    WfAncestor(t, k, symbol);
    if k > 0 {
      WfNodeStep(pr, t, k, Shr(symbol, k));
      var d := Decision(Adaptive(Node(t, Shr(symbol, k))), Shr(symbol, k - 1) % 2);
      ExecCons(pr, inp, m, d, TreeCode(pr, t, k - 1, symbol));
      var m' := Ask(pr, inp, m, d.query).value.1;
      TreeComplete(pr, inp, m', t, k - 1, symbol);
    }
  }

  /** The root is every leaf's ancestor at full height. */
  lemma {:induction false} RootIsAncestor(t: Tree, symbol: nat)
    requires WfNode(t, 0, symbol)
    ensures Shr(symbol, Levels(t)) == 1
  {
    WfAncestor(t, Levels(t), symbol);
  }

  // ---- Bit trees, least significant bit first ----

  /** `bit` below the digits of `rest`. */
  function BitBelow(bit: Bit, rest: Option<(nat, Machine)>): Option<(nat, Machine)> {
    if rest.None? then None else Some((bit + 2 * rest.value.0, rest.value.1))
  }

  function RevDecode(pr: Props, inp: seq<byte>, m: Machine, t: Tree, k: nat, node: nat)
    : (r: Option<(nat, Machine)>)
    requires Ok(pr, m) && WfTree(pr, t) && WfNode(t, k, node)
    ensures r.Some? ==> Ok(pr, r.value.1) && r.value.0 < Pow2(k)
    decreases k
  {
    if k == 0 then Some((0, m))
    else
      WfNodeStep(pr, t, k, node);
      var (bit, m') :- Ask(pr, inp, m, Adaptive(Node(t, node)));
      Pow2Step(k);
      BitBelow(bit, RevDecode(pr, inp, m', t, k - 1, 2 * node + bit))
  }

  function RevCode(pr: Props, t: Tree, k: nat, node: nat, low: nat): (ds: seq<Decision>)
    requires WfTree(pr, t) && WfNode(t, k, node) && low < Pow2(k)
    ensures WfCode(pr, ds) && |ds| == k
    decreases k
  {
    if k == 0 then []
    else
      WfNodeStep(pr, t, k, node);
      [Decision(Adaptive(Node(t, node)), low % 2)] + RevCode(pr, t, k - 1, 2 * node + low % 2, low / 2)
  }

  /** What remains to be decoded after one bit of a reverse tree. */
  function RevRest(pr: Props, inp: seq<byte>, m: Machine, t: Tree, k: nat, node: nat, bit: Bit)
    : Option<(nat, Machine)>
    requires Ok(pr, m) && WfTree(pr, t) && k > 0
    requires WfNode(t, k - 1, 2 * node) && WfNode(t, k - 1, 2 * node + 1)
  {
    var next := if bit == 1 then 2 * node + 1 else 2 * node;
    RevDecode(pr, inp, m, t, k - 1, next)
  }

  lemma RevStep(pr: Props, inp: seq<byte>, m: Machine, t: Tree, k: nat, node: nat)
    requires Ok(pr, m) && WfTree(pr, t) && WfNode(t, k, node) && k > 0 && WfCell(pr, Node(t, node))
    requires WfNode(t, k - 1, 2 * node) && WfNode(t, k - 1, 2 * node + 1)
    ensures var answer, r := Ask(pr, inp, m, Adaptive(Node(t, node))), RevDecode(pr, inp, m, t, k, node);
      r == if answer.None? then None
           else BitBelow(answer.value.0, RevRest(pr, inp, answer.value.1, t, k, node, answer.value.0))
  {
    hide Ok, Ask, WfTree, WfCell, WfNode, Levels, Pow2, NumProbs;
  }

  lemma RevCodeStep(pr: Props, t: Tree, k: nat, node: nat, bit: Bit, rest: nat)
    requires WfTree(pr, t) && WfNode(t, k, node) && k > 0 && rest < Pow2(k - 1)
    ensures bit + 2 * rest < Pow2(k) && WfNode(t, k - 1, 2 * node + bit)
    ensures RevCode(pr, t, k, node, bit + 2 * rest)
         == [Decision(Adaptive(Node(t, node)), bit)] + RevCode(pr, t, k - 1, 2 * node + bit, rest)
  {
    hide WfTree, WfCell, WfNode, Levels, Pow2, WfCode;
    WfNodeStep(pr, t, k, node);
    Pow2Step(k);
    BitAndRest(bit, rest);
  }

  lemma BitAndRest(bit: Bit, rest: nat)
    ensures (bit + 2 * rest) % 2 == bit && (bit + 2 * rest) / 2 == rest
  {
  }

  lemma RevNothing(pr: Props, inp: seq<byte>, m: Machine, t: Tree, node: nat)
    requires Ok(pr, m) && WfTree(pr, t) && WfNode(t, 0, node)
    ensures RevDecode(pr, inp, m, t, 0, node) == Some((0, m))
    ensures RevCode(pr, t, 0, node, 0) == [] && Exec(pr, inp, m, []) == Some(m)
  {
    hide WfTree, WfNode, Levels, Pow2, NumProbs;
  }

  lemma {:induction false} RevSound(pr: Props, inp: seq<byte>, m: Machine, t: Tree, k: nat, node: nat)
    requires Ok(pr, m) && WfTree(pr, t) && WfNode(t, k, node)
    ensures var r := RevDecode(pr, inp, m, t, k, node);
      r.Some? ==> Exec(pr, inp, m, RevCode(pr, t, k, node, r.value.0)) == Some(r.value.1)
    decreases k
  {
    hide Ask, Exec, Levels, WfTree, WfCell, WfNode, Pow2, WfCode, NumProbs, RevDecode, RevCode;
    var r := RevDecode(pr, inp, m, t, k, node);
    if k == 0 {
      RevNothing(pr, inp, m, t, node);
    } else if r.Some? {
      WfNodeStep(pr, t, k, node);
      RevStep(pr, inp, m, t, k, node);
      var q := Adaptive(Node(t, node));
      var (bit, m') := Ask(pr, inp, m, q).value;
      RevSound(pr, inp, m', t, k - 1, 2 * node + bit);
      var rest := RevDecode(pr, inp, m', t, k - 1, 2 * node + bit).value.0;
      RevCodeStep(pr, t, k, node, bit, rest);
      ExecCons(pr, inp, m, Decision(q, bit), RevCode(pr, t, k - 1, 2 * node + bit, rest));
    }
  }

  lemma {:induction false} RevComplete(pr: Props, inp: seq<byte>, m: Machine, t: Tree, k: nat, node: nat, low: nat)
    requires Ok(pr, m) && WfTree(pr, t) && WfNode(t, k, node) && low < Pow2(k)
    requires Exec(pr, inp, m, RevCode(pr, t, k, node, low)).Some?
    ensures RevDecode(pr, inp, m, t, k, node)
         == Some((low, Exec(pr, inp, m, RevCode(pr, t, k, node, low)).value))
    decreases k
  {
    hide Ask, Exec, Levels, WfTree, WfCell, WfNode, Pow2, WfCode, NumProbs, RevDecode, RevCode;
    SmallPowers();
    if k == 0 {
      RevNothing(pr, inp, m, t, node);
    } else {
      Pow2Step(k);
      WfNodeStep(pr, t, k, node);
      RevStep(pr, inp, m, t, k, node);
      var bit: Bit, rest := low % 2, low / 2;
      var d := Decision(Adaptive(Node(t, node)), bit);
      RevCodeStep(pr, t, k, node, bit, rest);
      ExecCons(pr, inp, m, d, RevCode(pr, t, k - 1, 2 * node + bit, rest));
      RevComplete(pr, inp, Ask(pr, inp, m, d.query).value.1, t, k - 1, 2 * node + bit, rest);
    }
  }

  /** Reverse decoding from the root yields `low` exactly on machines that answer its code. */
  lemma RevExec(pr: Props, inp: seq<byte>, m: Machine, t: Tree, low: nat)
    requires Ok(pr, m) && WfTree(pr, t) && low < Pow2(Levels(t))
    ensures WfNode(t, Levels(t), 1)
    ensures var r, e := RevDecode(pr, inp, m, t, Levels(t), 1), Exec(pr, inp, m, RevCode(pr, t, Levels(t), 1, low));
      && (r.Some? && r.value.0 == low <==> e.Some?)
      && (e.Some? ==> r.value.1 == e.value)
  {
    hide Ask, Exec, RevDecode, RevCode, WfTree, WfCell, Levels;
    RevSound(pr, inp, m, t, Levels(t), 1);
    if Exec(pr, inp, m, RevCode(pr, t, Levels(t), 1, low)).Some? {
      RevComplete(pr, inp, m, t, Levels(t), 1, low);
    }
  }

  // ---- Direct bits, most significant first ----

  function DirectDecode(pr: Props, inp: seq<byte>, m: Machine, k: nat, high: nat)
    : (r: Option<(nat, Machine)>)
    requires Ok(pr, m)
    ensures r.Some? ==> Ok(pr, r.value.1) && Shr(r.value.0, k) == high
    decreases k
  {
    if k == 0 then Some((high, m))
    else
      var (bit, m') :- Ask(pr, inp, m, Direct);
      DirectDecode(pr, inp, m', k - 1, 2 * high + bit)
  }

  function DirectCode(pr: Props, k: nat, x: nat): (ds: seq<Decision>)
    ensures WfCode(pr, ds) && |ds| == k
  {
    if k == 0 then []
    else [Decision(Direct, Shr(x, k - 1) % 2)] + DirectCode(pr, k - 1, x)
  }

  lemma {:induction false} DirectSound(pr: Props, inp: seq<byte>, m: Machine, k: nat, high: nat)
    requires Ok(pr, m)
    ensures var r := DirectDecode(pr, inp, m, k, high);
      r.Some? ==> Exec(pr, inp, m, DirectCode(pr, k, r.value.0)) == Some(r.value.1)
    decreases k
  {
    hide Ask, Exec, Levels, WfTree, WfCell, WfNode, Pow2, Shl;
    ExecNothing(pr, inp, m);
    var r := DirectDecode(pr, inp, m, k, high);
    if k > 0 && r.Some? {
      var (bit, m') := Ask(pr, inp, m, Direct).value;
      DirectSound(pr, inp, m', k - 1, 2 * high + bit);
      ExecCons(pr, inp, m, Decision(Direct, bit), DirectCode(pr, k - 1, r.value.0));
    }
  }

  lemma {:induction false} DirectComplete(pr: Props, inp: seq<byte>, m: Machine, k: nat, x: nat)
    requires Ok(pr, m) && Exec(pr, inp, m, DirectCode(pr, k, x)).Some?
    ensures DirectDecode(pr, inp, m, k, Shr(x, k))
         == Some((x, Exec(pr, inp, m, DirectCode(pr, k, x)).value))
    decreases k
  {
    hide Ask, Exec, Levels, WfTree, WfCell, WfNode, Pow2, Shl;
    ExecNothing(pr, inp, m);
    if k > 0 {
      var d := Decision(Direct, Shr(x, k - 1) % 2);
      ExecCons(pr, inp, m, d, DirectCode(pr, k - 1, x));
      DirectComplete(pr, inp, Ask(pr, inp, m, d.query).value.1, k - 1, x);
    }
  }

  lemma DirectExec(pr: Props, inp: seq<byte>, m: Machine, k: nat, x: nat)
    requires Ok(pr, m)
    ensures var r, e := DirectDecode(pr, inp, m, k, Shr(x, k)), Exec(pr, inp, m, DirectCode(pr, k, x));
      && (r.Some? && r.value.0 == x <==> e.Some?)
      && (e.Some? ==> r.value.1 == e.value)
  {
    hide Ask, Exec, DirectDecode, DirectCode, Shr;
    DirectSound(pr, inp, m, k, Shr(x, k));
    if Exec(pr, inp, m, DirectCode(pr, k, x)).Some? {
      DirectComplete(pr, inp, m, k, x);
    }
  }

  // ---- Literals after a match ----

  lemma WfMatchedStep(pr: Props, t: Tree, k: nat, node: nat, matchBit: Bit)
    requires t.Literal? && WfTree(pr, t) && WfNode(t, k, node) && k > 0
    ensures WfCell(pr, MatchedLit(t.lowPos, t.prevHigh, matchBit, node))
    ensures WfNode(t, k - 1, 2 * node) && WfNode(t, k - 1, 2 * node + 1)
  {
    WfNodeStep(pr, t, k, node);
    assert Pow2(8) == 256;
  }

  /** `k` bits of the literal remain; so far it agreed with the match byte. */
  function MatchedDecode(pr: Props, inp: seq<byte>, m: Machine, t: Tree, matchByte: byte, k: nat, node: nat)
    : (r: Option<(nat, Machine)>)
    requires Ok(pr, m) && t.Literal? && WfTree(pr, t) && WfNode(t, k, node)
    ensures r.Some? ==> Ok(pr, r.value.1) && WfNode(t, 0, r.value.0)
    decreases k
  {
    if k == 0 then Some((node, m))
    else
      var matchBit := Shr(matchByte, k - 1) % 2;
      WfMatchedStep(pr, t, k, node, matchBit);
      var (bit, m') :- Ask(pr, inp, m, Adaptive(MatchedLit(t.lowPos, t.prevHigh, matchBit, node)));
      if bit == matchBit then MatchedDecode(pr, inp, m', t, matchByte, k - 1, 2 * node + bit)
      else TreeDecode(pr, inp, m', t, k - 1, 2 * node + bit)
  }

  function MatchedCode(pr: Props, t: Tree, matchByte: byte, k: nat, symbol: nat): (ds: seq<Decision>)
    requires t.Literal? && WfTree(pr, t) && WfNode(t, 0, symbol) && k <= Levels(t)
    ensures WfCode(pr, ds) && |ds| == k
  {
    if k == 0 then []
    else
      WfAncestor(t, k, symbol);
      var matchBit, bit := Shr(matchByte, k - 1) % 2, Shr(symbol, k - 1) % 2;
      WfMatchedStep(pr, t, k, Shr(symbol, k), matchBit);
      [Decision(Adaptive(MatchedLit(t.lowPos, t.prevHigh, matchBit, Shr(symbol, k))), bit)] +
      if bit == matchBit then MatchedCode(pr, t, matchByte, k - 1, symbol)
      else TreeCode(pr, t, k - 1, symbol)
  }

  /** What remains to be decoded after one bit of a matched literal. */
  function MatchedRest(pr: Props, inp: seq<byte>, m: Machine, t: Tree, matchByte: byte, k: nat, node: nat, bit: Bit)
    : Option<(nat, Machine)>
    requires Ok(pr, m) && t.Literal? && WfTree(pr, t) && k > 0
    requires WfNode(t, k - 1, 2 * node) && WfNode(t, k - 1, 2 * node + 1)
  {
    var next := if bit == 1 then 2 * node + 1 else 2 * node;
    if bit == Shr(matchByte, k - 1) % 2 then MatchedDecode(pr, inp, m, t, matchByte, k - 1, next)
    else TreeDecode(pr, inp, m, t, k - 1, next)
  }

  lemma MatchedStep(pr: Props, inp: seq<byte>, m: Machine, t: Tree, matchByte: byte, k: nat, node: nat, cell: Cell)
    requires Ok(pr, m) && t.Literal? && WfTree(pr, t) && WfNode(t, k, node) && k > 0
    requires cell == MatchedLit(t.lowPos, t.prevHigh, Shr(matchByte, k - 1) % 2, node) && WfCell(pr, cell)
    requires WfNode(t, k - 1, 2 * node) && WfNode(t, k - 1, 2 * node + 1)
    ensures var answer, r := Ask(pr, inp, m, Adaptive(cell)), MatchedDecode(pr, inp, m, t, matchByte, k, node);
      r == if answer.None? then None
           else MatchedRest(pr, inp, answer.value.1, t, matchByte, k, node, answer.value.0)
  {
    hide Ask, TreeDecode, WfTree, WfCell, WfNode, Levels, Pow2, Shr, NumProbs, CellIndex;
  }

  lemma {:induction false} MatchedSound(pr: Props, inp: seq<byte>, m: Machine, t: Tree, matchByte: byte, k: nat, node: nat)
    requires Ok(pr, m) && t.Literal? && WfTree(pr, t) && WfNode(t, k, node)
    ensures var r := MatchedDecode(pr, inp, m, t, matchByte, k, node);
      r.Some? ==> (Shr(r.value.0, k) == node
        && Exec(pr, inp, m, MatchedCode(pr, t, matchByte, k, r.value.0)) == Some(r.value.1))
    decreases k
  {
    hide Ask, Exec, Levels, WfTree, WfCell, WfNode, Pow2, Shl, WfCode, MatchedDecode, MatchedCode;
    var r := MatchedDecode(pr, inp, m, t, matchByte, k, node);
    if k == 0 {
      MatchedNothing(pr, inp, m, t, matchByte, node);
    } else if r.Some? {
      var matchBit, symbol := Shr(matchByte, k - 1) % 2, r.value.0;
      WfMatchedStep(pr, t, k, node, matchBit);
      var cell := MatchedLit(t.lowPos, t.prevHigh, matchBit, node);
      MatchedStep(pr, inp, m, t, matchByte, k, node, cell);
      var (bit, m') := Ask(pr, inp, m, Adaptive(cell)).value;
      if bit == matchBit {
        MatchedSound(pr, inp, m', t, matchByte, k - 1, 2 * node + bit);
      } else {
        TreeSound(pr, inp, m', t, k - 1, 2 * node + bit);
      }
      LevelsCover(t, k, node);
      MatchedCodeSplit(pr, t, matchByte, k, symbol);
      var code := MatchedCode(pr, t, matchByte, k, symbol);
      assert code == [code[0]] + code[1..];
      ExecCons(pr, inp, m, code[0], code[1..]);
    }
  }

  lemma LevelsCover(t: Tree, k: nat, node: nat)
    requires WfNode(t, k, node)
    ensures k <= Levels(t)
  {
  }

  lemma MatchedNothing(pr: Props, inp: seq<byte>, m: Machine, t: Tree, matchByte: byte, symbol: nat)
    requires Ok(pr, m) && t.Literal? && WfTree(pr, t) && WfNode(t, 0, symbol)
    ensures Shr(symbol, 0) == symbol && MatchedDecode(pr, inp, m, t, matchByte, 0, symbol) == Some((symbol, m))
    ensures MatchedCode(pr, t, matchByte, 0, symbol) == [] && Exec(pr, inp, m, []) == Some(m)
  {
    hide WfTree, WfNode, Levels, Pow2, NumProbs;
  }

  lemma {:induction false} MatchedComplete(pr: Props, inp: seq<byte>, m: Machine, t: Tree, matchByte: byte, k: nat, symbol: nat)
    requires Ok(pr, m) && t.Literal? && WfTree(pr, t) && WfNode(t, 0, symbol) && k <= Levels(t)
    requires Exec(pr, inp, m, MatchedCode(pr, t, matchByte, k, symbol)).Some?
    ensures WfNode(t, k, Shr(symbol, k))
    ensures MatchedDecode(pr, inp, m, t, matchByte, k, Shr(symbol, k))
         == Some((symbol, Exec(pr, inp, m, MatchedCode(pr, t, matchByte, k, symbol)).value))
    decreases k
  {
    hide Ask, Exec, Levels, WfTree, WfCell, WfNode, Pow2, Shl, WfCode, MatchedDecode, MatchedCode;
    WfAncestor(t, k, symbol);
    if k == 0 {
      MatchedNothing(pr, inp, m, t, matchByte, symbol);
    } else {
      var matchBit, bit, node := Shr(matchByte, k - 1) % 2, Shr(symbol, k - 1) % 2, Shr(symbol, k);
      WfMatchedStep(pr, t, k, node, matchBit);
      var cell := MatchedLit(t.lowPos, t.prevHigh, matchBit, node);
      var d := Decision(Adaptive(cell), bit);
      MatchedStep(pr, inp, m, t, matchByte, k, node, cell);
      MatchedCodeSplit(pr, t, matchByte, k, symbol);
      var code := MatchedCode(pr, t, matchByte, k, symbol);
      assert code == [d] + code[1..];
      ExecCons(pr, inp, m, d, code[1..]);
      if bit == matchBit {
        MatchedComplete(pr, inp, Ask(pr, inp, m, d.query).value.1, t, matchByte, k - 1, symbol);
      } else {
        TreeComplete(pr, inp, Ask(pr, inp, m, d.query).value.1, t, k - 1, symbol);
      }
    }
  }

  /** A literal after a match: exactly one sequence of eight decisions reads each symbol. */
  lemma MatchedExec(pr: Props, inp: seq<byte>, m: Machine, t: Tree, matchByte: byte, symbol: nat)
    requires Ok(pr, m) && t.Literal? && WfTree(pr, t) && 256 <= symbol < 512
    ensures WfNode(t, 8, 1) && WfNode(t, 0, symbol) && |MatchedCode(pr, t, matchByte, 8, symbol)| == 8
    ensures var r := MatchedDecode(pr, inp, m, t, matchByte, 8, 1);
      var e := Exec(pr, inp, m, MatchedCode(pr, t, matchByte, 8, symbol));
      && (r.Some? && r.value.0 == symbol <==> e.Some?)
      && (e.Some? ==> r.value.1 == e.value)
  {
    hide Ask, Exec, MatchedDecode, MatchedCode, Shr, WfCell, WfTree;
    assert Pow2(8) == 256;
    RootIsAncestor(t, symbol);
    MatchedSound(pr, inp, m, t, matchByte, 8, 1);
    if Exec(pr, inp, m, MatchedCode(pr, t, matchByte, 8, symbol)).Some? {
      MatchedComplete(pr, inp, m, t, matchByte, 8, symbol);
    }
  }

  /** The symbol and the match byte agree on the bits from `low` to below `high`. */
  predicate Agree(symbol: nat, matchByte: byte, low: nat, high: nat) {
    forall j: nat :: low <= j < high ==> BitAt(symbol, j) == BitAt(matchByte, j)
  }

  function BitAt(x: nat, j: nat): Bit {
    Shr(x, j) % 2
  }

  lemma {:induction false} TreeCodeAt(pr: Props, t: Tree, k: nat, symbol: nat, i: nat)
    requires WfTree(pr, t) && WfNode(t, 0, symbol) && i < k <= Levels(t)
    ensures TreeCode(pr, t, k, symbol)[i] == Decision(Adaptive(Node(t, Shr(symbol, k - i))), BitAt(symbol, k - 1 - i))
  {
    hide Levels, WfTree, WfNode, WfCode, Shr;
    if i > 0 {
      TreeCodeAt(pr, t, k - 1, symbol, i - 1);
    }
  }

  /** Which contexts a literal after a match is coded in: decision `i` gives the symbol's
      next bit, in a match-byte context if and only if all bits before it agree with the
      match byte, and in the plain tree otherwise. */
  lemma {:induction false} MatchedCodeAt(pr: Props, t: Tree, matchByte: byte, k: nat, symbol: nat, i: nat)
    requires t.Literal? && WfTree(pr, t) && WfNode(t, 0, symbol) && i < k <= Levels(t)
    ensures var d := MatchedCode(pr, t, matchByte, k, symbol)[i];
      var node, matchBit := Shr(symbol, k - i), BitAt(matchByte, k - 1 - i);
      && d.bit == BitAt(symbol, k - 1 - i)
      && d.query == Adaptive(if Agree(symbol, matchByte, k - i, k)
                             then MatchedLit(t.lowPos, t.prevHigh, matchBit, node) else Node(t, node))
    decreases k
  {
    hide Levels, WfTree, WfNode, WfCode, Shr, MatchedCode, TreeCode, Agree;
    MatchedCodeSplit(pr, t, matchByte, k, symbol);
    var agree := BitAt(symbol, k - 1) == BitAt(matchByte, k - 1);
    if i == 0 {
      AgreeNowhere(symbol, matchByte, k);
    } else {
      AgreeStep(symbol, matchByte, k - i, k);
      if agree {
        MatchedCodeAt(pr, t, matchByte, k - 1, symbol, i - 1);
      } else {
        TreeCodeAt(pr, t, k - 1, symbol, i - 1);
      }
    }
  }

  lemma MatchedCodeSplit(pr: Props, t: Tree, matchByte: byte, k: nat, symbol: nat)
    requires t.Literal? && WfTree(pr, t) && WfNode(t, 0, symbol) && 0 < k <= Levels(t)
    ensures var ds := MatchedCode(pr, t, matchByte, k, symbol);
      && ds[0] == Decision(Adaptive(MatchedLit(t.lowPos, t.prevHigh, BitAt(matchByte, k - 1), Shr(symbol, k))),
                           BitAt(symbol, k - 1))
      && ds[1..] == if BitAt(symbol, k - 1) == BitAt(matchByte, k - 1) then MatchedCode(pr, t, matchByte, k - 1, symbol)
                    else TreeCode(pr, t, k - 1, symbol)
  {
    hide Levels, WfTree, WfNode, WfCode, Shr, TreeCode;
  }

  lemma AgreeNowhere(symbol: nat, matchByte: byte, k: nat)
    ensures Agree(symbol, matchByte, k, k)
  {
  }

  lemma AgreeStep(symbol: nat, matchByte: byte, low: nat, high: nat)
    requires low < high
    ensures Agree(symbol, matchByte, low, high)
        <==> BitAt(symbol, high - 1) == BitAt(matchByte, high - 1) && Agree(symbol, matchByte, low, high - 1)
  {
    hide BitAt;
  }

  // ---- Match lengths, less the minimum of 2 ----

  function LenDecode(pr: Props, inp: seq<byte>, m: Machine, rep: bool, posState: nat)
    : (r: Option<(nat, Machine)>)
    requires Ok(pr, m) && posState < Pow2(pr.pb)
    ensures r.Some? ==> Ok(pr, r.value.1) && r.value.0 < 272
  {
    var (choice, m1) :- Ask(pr, inp, m, Adaptive(LenChoice(rep)));
    SmallPowers();
    if choice == 0 then
      var (symbol, m2) :- TreeDecode(pr, inp, m1, LenLow(rep, posState), 3, 1);
      Some((symbol - 8, m2))
    else
      var (choice2, m2) :- Ask(pr, inp, m1, Adaptive(LenChoice2(rep)));
      if choice2 == 0 then
        var (symbol, m3) :- TreeDecode(pr, inp, m2, LenMid(rep, posState), 3, 1);
        Some((symbol, m3))
      else
        var (symbol, m3) :- TreeDecode(pr, inp, m2, LenHigh(rep), 8, 1);
        Some((symbol - 240, m3))
  }

  function LenCode(pr: Props, rep: bool, posState: nat, len: nat): (ds: seq<Decision>)
    requires posState < Pow2(pr.pb) && len < 272
    ensures WfCode(pr, ds)
  {
    SmallPowers();
    if len < 8 then
      [Decision(Adaptive(LenChoice(rep)), 0)] + TreeCode(pr, LenLow(rep, posState), 3, len + 8)
    else if len < 16 then
      [Decision(Adaptive(LenChoice(rep)), 1)] +
      ([Decision(Adaptive(LenChoice2(rep)), 0)] + TreeCode(pr, LenMid(rep, posState), 3, len))
    else
      [Decision(Adaptive(LenChoice(rep)), 1)] +
      ([Decision(Adaptive(LenChoice2(rep)), 1)] + TreeCode(pr, LenHigh(rep), 8, len + 240))
  }

  /** The tree and the leaf that a length is read from, after its choice flags. */
  function LenTree(rep: bool, posState: nat, len: nat): (r: (Tree, nat))
    requires len < 272
    ensures WfNode(r.0, 0, r.1)
  {
    SmallPowers();
    if len < 8 then (LenLow(rep, posState), len + 8)
    else if len < 16 then (LenMid(rep, posState), len)
    else (LenHigh(rep), len + 240)
  }

  lemma LenRoots(rep: bool, posState: nat)
    ensures WfNode(LenLow(rep, posState), 3, 1) && Levels(LenLow(rep, posState)) == 3
    ensures WfNode(LenMid(rep, posState), 3, 1) && Levels(LenMid(rep, posState)) == 3
    ensures WfNode(LenHigh(rep), 8, 1) && Levels(LenHigh(rep)) == 8
  {
  }

  lemma LenExec(pr: Props, inp: seq<byte>, m: Machine, rep: bool, posState: nat, len: nat)
    requires Ok(pr, m) && posState < Pow2(pr.pb) && len < 272
    ensures var r, e := LenDecode(pr, inp, m, rep, posState), Exec(pr, inp, m, LenCode(pr, rep, posState, len));
      && (r.Some? && r.value.0 == len <==> e.Some?)
      && (e.Some? ==> r.value.1 == e.value)
  {
    hide Ask, Exec, TreeDecode, TreeCode, Pow2;
    LenRoots(rep, posState);
    SmallPowers();
    var d0 := Decision(Adaptive(LenChoice(rep)), if len < 8 then 0 else 1);
    var d1 := Decision(Adaptive(LenChoice2(rep)), if len < 16 then 0 else 1);
    var (t, symbol) := LenTree(rep, posState, len);
    var tail := TreeCode(pr, t, Levels(t), symbol);
    ExecCons(pr, inp, m, d0, if len < 8 then tail else [d1] + tail);
    var r0 := Ask(pr, inp, m, d0.query);
    if r0.Some? && r0.value.0 == d0.bit {
      var m1 := r0.value.1;
      if len < 8 {
        TreeExec(pr, inp, m1, t, symbol);
      } else {
        ExecCons(pr, inp, m1, d1, tail);
        var r1 := Ask(pr, inp, m1, d1.query);
        if r1.Some? && r1.value.0 == d1.bit {
          TreeExec(pr, inp, r1.value.1, t, symbol);
        }
      }
    }
  }

  /** Decoding from the root yields `symbol` exactly on machines that answer its code. */
  lemma TreeExec(pr: Props, inp: seq<byte>, m: Machine, t: Tree, symbol: nat)
    requires Ok(pr, m) && WfTree(pr, t) && WfNode(t, 0, symbol)
    ensures WfNode(t, Levels(t), 1)
    ensures var r, e := TreeDecode(pr, inp, m, t, Levels(t), 1), Exec(pr, inp, m, TreeCode(pr, t, Levels(t), symbol));
      && (r.Some? && r.value.0 == symbol <==> e.Some?)
      && (e.Some? ==> r.value.1 == e.value)
  {
    hide Ask, Exec, TreeDecode, TreeCode, WfTree, WfCell;
    RootIsAncestor(t, symbol);
    WfAncestor(t, Levels(t), symbol);
    TreeSound(pr, inp, m, t, Levels(t), 1);
    if Exec(pr, inp, m, TreeCode(pr, t, Levels(t), symbol)).Some? {
      TreeComplete(pr, inp, m, t, Levels(t), symbol);
    }
  }
}
