/** Cache geometry and the set/way words of ARMv7-A (ARM DDI 0406C, section B4.2.1). */
module SetWay {
  import opened Bits

  /** The least `k` with `n <= 2^k`. */
  function CeilLog2(n: nat): (k: nat)
    requires n >= 1
    decreases n
  {
    if n == 1 then 0 else CeilLog2((n + 1) / 2) + 1
  }

  lemma {:induction false} CeilLog2Bounds(n: nat)
    requires n >= 1
    ensures n <= Pow2(CeilLog2(n))
    ensures CeilLog2(n) > 0 ==> Pow2(CeilLog2(n) - 1) < n
    decreases n
  {
    if n > 1 {
      CeilLog2Bounds((n + 1) / 2);
    }
  }

  lemma CeilLog2Unique(n: nat, k: nat)
    requires n >= 1 && n <= Pow2(k) && (k > 0 ==> Pow2(k - 1) < n)
    ensures k == CeilLog2(n)
  {
    CeilLog2Bounds(n);
    var c := CeilLog2(n);
    if k < c {
      Pow2Monotone(k, c - 1);
    } else if c < k {
      Pow2Monotone(c, k - 1);
    }
  }

  // ---- What CCSIDR says of a level ----

  function LineBits(ccsidr: u32): (l: nat)
    ensures 4 <= l <= 11
  {
    ccsidr % 8 + 4
  }

  function Ways(ccsidr: u32): (n: nat)
    ensures 1 <= n <= 1024
  {
    ccsidr / 8 % 1024 + 1
  }

  function Sets(ccsidr: u32): (n: nat)
    ensures 1 <= n <= 32768
  {
    ccsidr / 8192 % 32768 + 1
  }

  /** Set, line and way fields fit one 32-bit word. */
  predicate Addressable(ccsidr: u32) {
    CeilLog2(Sets(ccsidr)) + LineBits(ccsidr) + CeilLog2(Ways(ccsidr)) <= 32
  }

  /** CCSIDR holds three numbers side by side, from bit 0: three bits of line size, 0 for 16
      bytes and one more for each doubling; ten bits of the highest way; fifteen of the
      highest set. */
  lemma GeometryMeaning(ccsidr: u32)
    ensures ccsidr % 0x1000_0000 == (LineBits(ccsidr) - 4) + 0x8 * (Ways(ccsidr) - 1) + 0x2000 * (Sets(ccsidr) - 1)
    ensures LineBits(ccsidr) - 4 < 0x8 && Ways(ccsidr) - 1 < 0x400 && Sets(ccsidr) - 1 < 0x8000
  {
    LowFields(ccsidr);
    HighField(ccsidr);
  }

  lemma LowFields(x: nat)
    ensures x % 0x2000 == x % 0x8 + 0x8 * (x / 0x8 % 0x400)
  {
  }

  lemma HighField(x: nat)
    ensures x % 0x1000_0000 == x % 0x2000 + 0x2000 * (x / 0x2000 % 0x8000)
  {
  }

  type Slot = (nat, nat)

  predicate InGeometry(ccsidr: u32, slot: Slot) {
    slot.0 < Sets(ccsidr) && slot.1 < Ways(ccsidr)
  }

  /** `(level << 1) | (set << lineBits) | (way << wayShift)` */
  function Word(level: nat, setIndex: nat, way: nat, lineBits: nat, wayShift: nat): nat
    requires level < 0x8000_0000 && setIndex < TWO_32 && way < TWO_32
  {
    BitOr(BitOr(Shl32(level, 1), Shl32(setIndex, lineBits)), Shl32(way, wayShift))
  }

  // ---- How the hardware takes a word apart ----

  /** `width` bits of `word` from bit `at` up. */
  function Field(word: nat, at: nat, width: nat): nat {
    word / Pow2(at) % Pow2(width)
  }

  function WordLevel(word: nat): nat {
    word / 2 % 8
  }

  function WayShift(ccsidr: u32): (k: nat)
    ensures 22 <= k <= 32
  {
    WayBits(ccsidr);
    32 - CeilLog2(Ways(ccsidr))
  }

  lemma WayBits(ccsidr: u32)
    ensures CeilLog2(Ways(ccsidr)) <= 10
  {
    hide Pow2, CeilLog2;
    CeilLog2Bounds(Ways(ccsidr));
    SmallPowers();
    Pow2Add(5, 5);
    if CeilLog2(Ways(ccsidr)) > 10 {
      Pow2Monotone(10, CeilLog2(Ways(ccsidr)) - 1);
    }
  }

  function WordSlot(ccsidr: u32, word: nat): Slot {
    (Field(word, LineBits(ccsidr), CeilLog2(Sets(ccsidr))), Shr(word, WayShift(ccsidr)))
  }

  lemma {:induction false} OrCommutes(a: nat, b: nat)
    ensures BitOr(a, b) == BitOr(b, a)
  {
    if a != 0 && b != 0 {
      OrCommutes(a / 2, b / 2);
    }
  }

  lemma ProductBelow(x: nat, k: nat, room: nat)
    requires x < Pow2(k)
    ensures x * Pow2(room) + Pow2(room) <= Pow2(k + room)
  {
    Pow2Add(k, room);
    MulGap(Pow2(k), x, Pow2(room));
  }

  /** The three fields of a word are disjoint, so `|` adds them and no bit is lost. */
  lemma WordIsSum(ccsidr: u32, level: nat, slot: Slot)
    requires Addressable(ccsidr) && level < 7 && InGeometry(ccsidr, slot)
    ensures slot.0 < TWO_32 && slot.1 < TWO_32
    ensures var l, k := LineBits(ccsidr), WayShift(ccsidr);
      && Word(level, slot.0, slot.1, l, k) == 2 * level + slot.0 * Pow2(l) + slot.1 * Pow2(k)
      && 2 * level + slot.0 * Pow2(l) < Pow2(k)
      && 2 * level < Pow2(l)
      && Word(level, slot.0, slot.1, l, k) < TWO_32
  {
    hide BitOr, Pow2, CeilLog2;
    var l, k, s := LineBits(ccsidr), WayShift(ccsidr), CeilLog2(Sets(ccsidr));
    SmallPowers();
    Pow2Of32();
    CeilLog2Bounds(Sets(ccsidr));
    CeilLog2Bounds(Ways(ccsidr));
    Pow2Monotone(4, l);
    ProductBelow(slot.0, s, l);
    Pow2Monotone(s + l, k);
    ProductBelow(slot.1, CeilLog2(Ways(ccsidr)), k);
    Pow2Monotone(k, 32);
    Pow2Step(1);
    SumOfFields(level, slot.0, slot.1, l, k);
  }

  /** Where the architecture wants the fields of a word: the level from bit 1, the set from
      the bit that counts lines, and the way at the top, in as many bits as number the ways. */
  lemma WordMeaning(ccsidr: u32, level: nat, slot: Slot) returns (wayBits: nat)
    requires Addressable(ccsidr) && level < 7 && InGeometry(ccsidr, slot)
    ensures Ways(ccsidr) <= Pow2(wayBits) < 2 * Ways(ccsidr) && wayBits <= 10
    ensures slot.0 < TWO_32 && slot.1 < TWO_32
    ensures Word(level, slot.0, slot.1, LineBits(ccsidr), WayShift(ccsidr))
         == 2 * level + slot.0 * Pow2(4 + ccsidr % 8) + slot.1 * Pow2(32 - wayBits)
  {
    hide Pow2, CeilLog2, Word, Ways, Sets;
    wayBits := CeilLog2(Ways(ccsidr));
    WayBits(ccsidr);
    CeilLog2Bounds(Ways(ccsidr));
    SmallPowers();
    if wayBits > 0 {
      Pow2Step(wayBits);
    }
    WordIsSum(ccsidr, level, slot);
  }

  lemma ShiftKeepsAll(x: u32, k: nat)
    requires x * Pow2(k) < TWO_32
    ensures Shl32(x, k) == x * Pow2(k)
  {
  }

  lemma SumOfFields(level: nat, setIndex: nat, way: nat, l: nat, k: nat)
    requires level < 7 && 2 * level < Pow2(l) && setIndex < TWO_32 && way < TWO_32
    requires 2 * level + setIndex * Pow2(l) < Pow2(k) <= TWO_32 && way * Pow2(k) < TWO_32
    ensures Word(level, setIndex, way, l, k) == 2 * level + setIndex * Pow2(l) + way * Pow2(k)
  {
    hide BitOr, Shl32, Pow2;
    SmallPowers();
    var sets, ways := setIndex * Pow2(l), way * Pow2(k);
    ShiftKeepsAll(level, 1);
    ShiftKeepsAll(setIndex, l);
    ShiftKeepsAll(way, k);
    assert Word(level, setIndex, way, l, k) == BitOr(BitOr(2 * level, sets), ways);
    hide Word;
    OrAbove(2 * level, setIndex, l);
    OrAbove(2 * level + sets, way, k);
  }

  lemma OrAbove(low: nat, high: nat, k: nat)
    requires low < Pow2(k)
    ensures BitOr(low, high * Pow2(k)) == low + high * Pow2(k)
  {
    hide BitOr, Pow2;
    OrCommutes(low, high * Pow2(k));
    OrLow(high, k, low);
  }

  lemma LevelField(w: nat, level: nat, x: nat, p: nat, y: nat, q: nat)
    requires level < 8 && w == 2 * level + x * (16 * p) + y * (16 * q)
    ensures w / 2 % 8 == level
  {
    var m := x * p + y * q;
    FactorOut(x, 16, p);
    FactorOut(y, 16, q);
    assert w == 2 * (level + 8 * m);
  }

  lemma SetField(w: nat, low: nat, setIndex: nat, way: nat, p: nat, t: nat, r: nat)
    requires low < p && setIndex < t && w == low + setIndex * p + way * (p * (t * r))
    ensures w / p % t == setIndex
  {
    FactorOut(way, p, t * r);
    var high := way * (t * r);
    Distribute(setIndex, high, p);
    DivModUnique(w, p, setIndex + high, low);
    FactorOut(way, t, r);
    DivModUnique(setIndex + high, t, way * r, setIndex);
  }

  /** The hardware reads back from a word the level, set and way it was made of. */
  lemma WordRoundTrip(ccsidr: u32, level: nat, slot: Slot)
    requires Addressable(ccsidr) && level < 7 && InGeometry(ccsidr, slot)
    ensures slot.0 < TWO_32 && slot.1 < TWO_32
    ensures var w := Word(level, slot.0, slot.1, LineBits(ccsidr), WayShift(ccsidr));
      WordLevel(w) == level && WordSlot(ccsidr, w) == slot
  {
    hide BitOr, Pow2, CeilLog2, Word, Sets, Ways;
    var l, k, s := LineBits(ccsidr), WayShift(ccsidr), CeilLog2(Sets(ccsidr));
    WordIsSum(ccsidr, level, slot);
    CeilLog2Bounds(Sets(ccsidr));
    SmallPowers();
    var w := Word(level, slot.0, slot.1, l, k);
    Pow2Add(4, l - 4);
    Pow2Add(4, k - 4);
    LevelField(w, level, slot.0, Pow2(l - 4), slot.1, Pow2(k - 4));
    Pow2Add(l, k - l);
    Pow2Add(s, k - l - s);
    SetField(w, 2 * level, slot.0, slot.1, Pow2(l), Pow2(s), Pow2(k - l - s));
    DivModUnique(w, Pow2(k), slot.1, 2 * level + slot.0 * Pow2(l));
    ShrIsDiv(w, k);
  }

  lemma FactorOut(x: nat, a: nat, b: nat)
    ensures x * (a * b) == (x * b) * a
  {
  }

  lemma Distribute(x: nat, y: nat, d: nat)
    ensures (x + y) * d == x * d + y * d
  {
  }

  // ---- The words that the loops issue, in their order ----

  /** `way`, sets `n - 1` down to 0. */
  function SetWords(ccsidr: u32, level: nat, way: nat, n: nat): (ws: seq<nat>)
    requires level < 7 && way < 1024 && n <= 32768
    ensures |ws| == n
  {
    if n == 0 then []
    else [Word(level, n - 1, way, LineBits(ccsidr), WayShift(ccsidr))] + SetWords(ccsidr, level, way, n - 1)
  }

  /** Ways `n - 1` down to 0, all sets of each. */
  function WayWords(ccsidr: u32, level: nat, n: nat): seq<nat>
    requires level < 7 && n <= 1024
  {
    if n == 0 then []
    else SetWords(ccsidr, level, n - 1, Sets(ccsidr)) + WayWords(ccsidr, level, n - 1)
  }

  function LevelWords(ccsidr: u32, level: nat): seq<nat>
    requires level < 7
  {
    WayWords(ccsidr, level, Ways(ccsidr))
  }

  function SlotWord(ccsidr: u32, level: nat, slot: Slot): nat
    requires level < 7 && InGeometry(ccsidr, slot)
  {
    Word(level, slot.0, slot.1, LineBits(ccsidr), WayShift(ccsidr))
  }

  lemma {:induction false} SetWordsAt(ccsidr: u32, level: nat, way: nat, n: nat, i: nat)
    requires level < 7 && way < Ways(ccsidr) && i < n <= Sets(ccsidr)
    ensures SetWords(ccsidr, level, way, n)[i] == SlotWord(ccsidr, level, (n - 1 - i, way))
  {
    if i > 0 {
      SetWordsAt(ccsidr, level, way, n - 1, i - 1);
    }
  }

  lemma {:induction false} WayWordsLength(ccsidr: u32, level: nat, n: nat)
    requires level < 7 && n <= Ways(ccsidr)
    ensures |WayWords(ccsidr, level, n)| == n * Sets(ccsidr)
  {
    if n > 0 {
      WayWordsLength(ccsidr, level, n - 1);
      Distribute(n - 1, 1, Sets(ccsidr));
    }
  }

  lemma {:induction false} WayWordsHas(ccsidr: u32, level: nat, n: nat, slot: Slot)
    requires level < 7 && n <= Ways(ccsidr) && InGeometry(ccsidr, slot) && slot.1 < n
    ensures SlotWord(ccsidr, level, slot) in WayWords(ccsidr, level, n)
  {
    hide SetWords, Word;
    var sets := Sets(ccsidr);
    if slot.1 == n - 1 {
      SetWordsAt(ccsidr, level, n - 1, sets, sets - 1 - slot.0);
    } else {
      WayWordsHas(ccsidr, level, n - 1, slot);
    }
  }

  /** Every issued word is the word of a slot. */
  lemma WayWordsOnly(ccsidr: u32, level: nat, n: nat, i: nat) returns (slot: Slot)
    requires level < 7 && n <= Ways(ccsidr) && i < |WayWords(ccsidr, level, n)|
    ensures InGeometry(ccsidr, slot) && slot.1 < n
    ensures WayWords(ccsidr, level, n)[i] == SlotWord(ccsidr, level, slot)
  {
    hide SetWords, Word;
    var sets := Sets(ccsidr);
    if i < sets {
      SetWordsAt(ccsidr, level, n - 1, sets, i);
      slot := (sets - 1 - i, n - 1);
    } else {
      slot := WayWordsOnly(ccsidr, level, n - 1, i - sets);
    }
  }

  /** The hardware takes `w` for a maintenance operation on a slot of this level. */
  predicate IsSlotWord(ccsidr: u32, level: nat, w: nat)
    requires level < 7
  {
    && WordLevel(w) == level
    && InGeometry(ccsidr, WordSlot(ccsidr, w))
    && w == SlotWord(ccsidr, level, WordSlot(ccsidr, w))
  }

  /** The loops issue one word for every set and way, no word twice, and nothing else;
      for set and way counts that are powers of two or not. */
  lemma LoopsCoverSlots(ccsidr: u32, level: nat)
    requires level < 7 && Addressable(ccsidr)
    ensures |LevelWords(ccsidr, level)| == Ways(ccsidr) * Sets(ccsidr)
    ensures forall slot: Slot :: InGeometry(ccsidr, slot) ==> SlotWord(ccsidr, level, slot) in LevelWords(ccsidr, level)
    ensures forall w :: w in LevelWords(ccsidr, level) ==> IsSlotWord(ccsidr, level, w)
    ensures forall slot: Slot, other: Slot | InGeometry(ccsidr, slot) && InGeometry(ccsidr, other) ::
      SlotWord(ccsidr, level, slot) == SlotWord(ccsidr, level, other) ==> slot == other
  {
    hide SlotWord, WayWords, WordSlot, WordLevel, Addressable;
    var ws := LevelWords(ccsidr, level);
    WayWordsLength(ccsidr, level, Ways(ccsidr));
    forall slot: Slot | InGeometry(ccsidr, slot)
      ensures SlotWord(ccsidr, level, slot) in ws
    {
      WayWordsHas(ccsidr, level, Ways(ccsidr), slot);
    }
    forall w | w in ws
      ensures IsSlotWord(ccsidr, level, w)
    {
      var i :| 0 <= i < |ws| && ws[i] == w;
      var slot := WayWordsOnly(ccsidr, level, Ways(ccsidr), i);
      SlotWordRoundTrip(ccsidr, level, slot);
    }
    forall slot: Slot, other: Slot | InGeometry(ccsidr, slot) && InGeometry(ccsidr, other)
      ensures SlotWord(ccsidr, level, slot) == SlotWord(ccsidr, level, other) ==> slot == other
    {
      SlotWordRoundTrip(ccsidr, level, slot);
      SlotWordRoundTrip(ccsidr, level, other);
    }
  }

  lemma SlotWordRoundTrip(ccsidr: u32, level: nat, slot: Slot)
    requires level < 7 && Addressable(ccsidr) && InGeometry(ccsidr, slot)
    ensures var w := SlotWord(ccsidr, level, slot);
      w < TWO_32 && WordLevel(w) == level && WordSlot(ccsidr, w) == slot
  {
    hide Word, WordLevel, WordSlot;
    WordIsSum(ccsidr, level, slot);
    WordRoundTrip(ccsidr, level, slot);
  }
}
