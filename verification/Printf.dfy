/** The formatter as the source writes it: digits written backwards into a buffer,
    padding and reversal in place, and the format-string loop. */
module Printf {
  import opened Bits
  import opened PrintfSpec

  const LP_MAX_BUF: nat := 256

  /** Division by ten from shifts and additions, in 64-bit words. */
  function Estimate(a: u32): (q: nat) {
    var q0 := (a / 2 + a) / 2;
    var q1 := q0 / 16 + q0;
    var q2 := q1 / 256 + q1;
    (q2 / 0x1_0000 + q2) / 8
  }

  /** The estimate is the quotient or one less, for every 32-bit word. */
  lemma EstimateBound(a: u32)
    ensures a / 10 - 1 <= Estimate(a) <= a / 10
  {
  }

  /** So one correction, taken exactly when the remainder exceeds 9, gives quotient and
      remainder. */
  lemma CorrectedEstimate(a: u32)
    ensures 0 <= a - 10 * Estimate(a)
    ensures a - 10 * Estimate(a) > 9 ==> Estimate(a) + 1 == a / 10 && a - 10 * (Estimate(a) + 1) == a % 10
    ensures a - 10 * Estimate(a) <= 9 ==> Estimate(a) == a / 10 && a - 10 * Estimate(a) == a % 10
  {
    hide Estimate;
    EstimateBound(a);
  }

  /** The digits still to be written of a number that is being divided down to 0. */
  function DigitsLeft(a: nat, base: nat, upcase: bool): string
    requires 2 <= base <= 16
  {
    if a > 0 then ReversedDigits(a, base, upcase) else []
  }

  lemma AllLeft(a: nat, base: nat, upcase: bool)
    requires 2 <= base <= 16 && a > 0
    ensures DigitsLeft(a, base, upcase) == ReversedDigits(a, base, upcase)
  {
  }

  lemma NoneLeft(base: nat, upcase: bool)
    requires 2 <= base <= 16
    ensures DigitsLeft(0, base, upcase) == []
  {
  }

  lemma DigitAppended(before: string, a: nat, base: nat, upcase: bool)
    requires a > 0 && (base == 10 || base == 16)
    ensures before + DigitsLeft(a, base, upcase)
         == (before + [DigitChar(a % base, upcase)]) + DigitsLeft(a / base, base, upcase)
    ensures |DigitsLeft(a, base, upcase)| > 0
  {
    hide DigitChar;
    assert DigitsLeft(a, base, upcase) == [DigitChar(a % base, upcase)] + DigitsLeft(a / base, base, upcase);
    hide DigitsLeft;
    var c, rest := DigitChar(a % base, upcase), DigitsLeft(a / base, base, upcase);
    assert before + ([c] + rest) == (before + [c]) + rest;
  }

  lemma SmallNumerals(upcase: bool)
    ensures forall d :: 0 <= d < 10 ==> ReversedDigits(d, 10, upcase) == [DigitChar(d, upcase)]
    ensures forall d :: 0 <= d < 16 ==> ReversedDigits(d, 16, upcase) == [DigitChar(d, upcase)]
    ensures ReversedDigits(10, 10, upcase) == [DigitChar(0, upcase), DigitChar(1, upcase)]
  {
  }

  /** Writes the decimal digits of `a0`, least significant first. */
  method MyDec2Str(buf: array<char>, a0: u32, upcase: bool) returns (itersCount: nat)
    requires |ReversedDigits(a0, 10, upcase)| <= buf.Length
    modifies buf
    ensures itersCount == |ReversedDigits(a0, 10, upcase)|
    ensures buf[..itersCount] == ReversedDigits(a0, 10, upcase)
  {
    hide ReversedDigits, DigitsLeft, Estimate, DigitChar, BitAnd, Shr;
    SmallNumerals(upcase);
    itersCount := 0;
    if a0 < 10 {
      buf[0] := DigitChar(a0, upcase);
      return 1;
    }
    if a0 == 10 {
      buf[0] := DigitChar(0, upcase);
      buf[1] := DigitChar(1, upcase);
      assert buf[..2] == [DigitChar(0, upcase), DigitChar(1, upcase)];
      return 2;
    }
    var a: u32 := a0;
    AllLeft(a, 10, upcase);
    while a > 0
      invariant itersCount <= |ReversedDigits(a0, 10, upcase)|
      invariant buf[..itersCount] + DigitsLeft(a, 10, upcase) == ReversedDigits(a0, 10, upcase)
      decreases a
    {
      CorrectedEstimate(a);
      var q := Estimate(a);
      var r, n := a - 10 * q, q;
      if r > 9 {
        r, n := a - 10 * (q + 1), q + 1;
      }
      ghost var before := buf[..itersCount];
      DigitAppended(before, a, 10, upcase);
      buf[itersCount] := DigitChar(r, upcase);
      a, itersCount := n, itersCount + 1;
      assert buf[..itersCount] == before + [DigitChar(r, upcase)];
    }
    NoneLeft(10, upcase);
  }

  /** Writes the hexadecimal digits of `a0`, least significant first. */
  method MyHex2Str(buf: array<char>, a0: u32, upcase: bool) returns (itersCount: nat)
    requires |ReversedDigits(a0, 16, upcase)| <= buf.Length
    modifies buf
    ensures itersCount == |ReversedDigits(a0, 16, upcase)|
    ensures buf[..itersCount] == ReversedDigits(a0, 16, upcase)
  {
    hide ReversedDigits, DigitsLeft, Estimate, DigitChar, BitAnd, Shr;
    SmallNumerals(upcase);
    itersCount := 0;
    if a0 < 16 {
      buf[0] := DigitChar(a0, upcase);
      return 1;
    }
    var a: u32 := a0;
    AllLeft(a, 16, upcase);
    while a > 0
      invariant itersCount <= |ReversedDigits(a0, 16, upcase)|
      invariant buf[..itersCount] + DigitsLeft(a, 16, upcase) == ReversedDigits(a0, 16, upcase)
      decreases a
    {
      LowNibble(a);
      var r := BitAnd(a, 0xF);
      ghost var before := buf[..itersCount];
      DigitAppended(before, a, 16, upcase);
      buf[itersCount] := DigitChar(r, upcase);
      a, itersCount := Shr(a, 4), itersCount + 1;
      assert buf[..itersCount] == before + [DigitChar(r, upcase)];
    }
    NoneLeft(16, upcase);
  }

  lemma LowNibble(a: u32)
    ensures BitAnd(a, 0xF) == a % 16 && Shr(a, 4) == a / 16
  {
    assert Pow2(4) == 16;
    AndMaskIsMod(a, 4);
    ShrIsDiv(a, 4);
  }

  /** Swaps the first `n` characters end for end. */
  method ReverseInPlace(buf: array<char>, n: nat)
    requires n <= buf.Length
    modifies buf
    ensures buf[..n] == Reversed(old(buf[..n]))
    ensures buf[n..] == old(buf[n..])
  {
    var begin, end := 0, n - 1;
    while end > begin
      invariant 0 <= begin && begin + end == n - 1 && begin <= end + 2
      invariant forall k :: begin <= k <= end ==> buf[k] == old(buf[k])
      invariant forall k :: 0 <= k < begin ==> buf[k] == old(buf[n - 1 - k]) && buf[n - 1 - k] == old(buf[k])
      invariant buf[n..] == old(buf[n..])
    {
      var tmp := buf[begin];
      buf[begin] := buf[end];
      buf[end] := tmp;
      begin, end := begin + 1, end - 1;
    }
    ghost var was := old(buf[..n]);
    forall k | 0 <= k < n
      ensures buf[k] == Reversed(was)[k]
    {
      ReversedAt(was, k);
    }
  }

  lemma {:induction false} ReversedAppend(s: string, t: string)
    ensures Reversed(s + t) == Reversed(t) + Reversed(s)
  {
    if s == [] {
      assert s + t == t;
    } else {
      assert (s + t)[1..] == s[1..] + t;
      ReversedAppend(s[1..], t);
    }
  }

  lemma {:induction false} ReversedRepeat(c: char, n: int)
    ensures Reversed(Repeat(c, n)) == Repeat(c, n)
  {
    forall i | 0 <= i < |Repeat(c, n)|
      ensures Reversed(Repeat(c, n))[i] == c
    {
      ReversedAt(Repeat(c, n), i);
    }
  }

  /** The digits as they first stand in the buffer. */
  function Backwards(u: nat, base: nat, upcase: bool): string {
    if base == 10 || base == 16 then ReversedDigits(u, base, upcase) else []
  }

  lemma NumeralIsReversed(u: nat, base: nat, upcase: bool)
    ensures Numeral(u, base, upcase) == Reversed(Backwards(u, base, upcase))
  {
  }

  lemma ReversedSign(negative: bool)
    ensures Reversed(Sign(negative)) == Sign(negative)
  {
  }

  /** The field is the padded buffer reversed, wholly or up to the left-adjusting spaces. */
  lemma FieldFromBuffer(u: nat, base: nat, negative: bool, width: int, left: bool, pad: char, upcase: bool, missing: nat)
    requires var n := |Backwards(u, base, upcase)| + |Sign(negative)|; missing == if width > n then width - n else 0
    ensures var digits, field := Backwards(u, base, upcase), NumField(u, base, negative, width, left, pad, upcase);
      if left then field == Reversed(digits + Sign(negative)) + Repeat(' ', missing)
      else if negative && pad == '0' then field == Reversed(digits + Repeat('0', missing) + ['-'])
      else field == Reversed(digits + Sign(negative) + Repeat(pad, missing))
  {
    hide ReversedDigits, Reversed, Repeat, Backwards, Numeral;
    var digits := Backwards(u, base, upcase);
    NumeralIsReversed(u, base, upcase);
    ReversedSign(negative);
    ReversedSign(true);
    RepeatClamped(' ', width - |Sign(negative)| - |digits|);
    RepeatClamped('0', width - |Sign(negative)| - |digits|);
    RepeatClamped(pad, width - |Sign(negative)| - |digits|);
    ReversedAppend(digits, Sign(negative));
    if !left {
      ReversedAppend(digits + Sign(negative), Repeat(pad, missing));
      ReversedRepeat(pad, missing);
      ReversedAppend(digits, Repeat('0', missing));
      ReversedAppend(digits + Repeat('0', missing), ['-']);
      ReversedRepeat('0', missing);
      assert ['-'] == Sign(true);
      var field := NumField(u, base, negative, width, left, pad, upcase);
      if negative && pad == '0' {
        assert field == ['-'] + (Repeat('0', missing) + Reversed(digits));
      } else {
        assert field == Repeat(pad, missing) + (Sign(negative) + Reversed(digits));
      }
    }
  }

  /** Lines 339 to 342: bases other than 10 and 16 write nothing. */
  method WriteDigits(buf: array<char>, u: u32, base: nat, upcase: bool) returns (p: nat)
    requires |Backwards(u, base, upcase)| <= buf.Length
    modifies buf
    ensures p == |Backwards(u, base, upcase)| && buf[..p] == Backwards(u, base, upcase)
  {
    p := 0;
    if base == 10 {
      p := MyDec2Str(buf, u, upcase);
    }
    if base == 16 {
      p := MyHex2Str(buf, u, upcase);
    }
  }

  /** A number in its field; `buf` must hold the field. */
  method PrintNum(buf: array<char>, u: u32, base: nat, negFlag: bool, length0: int, ladjust: bool,
                  padc0: char, upcase: bool)
    returns (length: nat)
    requires |NumField(u, base, negFlag, length0, ladjust, padc0, upcase)| <= buf.Length
    modifies buf
    ensures length == |NumField(u, base, negFlag, length0, ladjust, padc0, upcase)|
    ensures buf[..length] == NumField(u, base, negFlag, length0, ladjust, padc0, upcase)
  {
    hide ReversedDigits, Reversed, Repeat, NumField;
    FieldWidth(u, base, negFlag, length0, ladjust, padc0, upcase);
    NumeralIsReversed(u, base, upcase);
    ghost var digits := Backwards(u, base, upcase);
    var p := WriteDigits(buf, u, base, upcase);
    if negFlag {
      buf[p] := '-';
      p := p + 1;
    }
    var actualLength := p;
    assert buf[..actualLength] == digits + Sign(negFlag);
    length := if length0 < actualLength then actualLength else length0;
    FieldFromBuffer(u, base, negFlag, length0, ladjust, padc0, upcase, length - actualLength);
    LayOut(buf, actualLength, negFlag, length, ladjust, padc0, digits);
  }

  /** Lines 353 to 381: padding, then reversal of all but left-adjusting spaces. */
  method LayOut(buf: array<char>, actualLength: nat, negFlag: bool, length: nat, ladjust: bool, padc0: char,
                ghost digits: string)
    requires actualLength == |digits + Sign(negFlag)| <= length <= buf.Length
    requires buf[..actualLength] == digits + Sign(negFlag)
    modifies buf
    ensures var missing := length - actualLength;
      buf[..length] == if ladjust then Reversed(digits + Sign(negFlag)) + Repeat(' ', missing)
                       else if negFlag && padc0 == '0' then Reversed(digits + Repeat('0', missing) + ['-'])
                       else Reversed(digits + Sign(negFlag) + Repeat(padc0, missing))
  {
    hide Reversed, Repeat;
    var padc := if ladjust then ' ' else padc0;
    if negFlag && !ladjust && padc == '0' {
      assert buf[..|digits|] == buf[..actualLength][..|digits|] == digits;
      PadZeros(buf, actualLength - 1, length, digits);
      ReverseInPlace(buf, length);
    } else {
      Pad(buf, actualLength, length, padc, digits + Sign(negFlag));
      ghost var tail := buf[actualLength..];
      assert tail[..length - actualLength] == buf[actualLength..length];
      ReverseInPlace(buf, if ladjust then actualLength else length);
      if ladjust {
        assert buf[..length] == buf[..actualLength] + buf[actualLength..][..length - actualLength];
      }
    }
  }

  /** Lines 356 to 358: zeros over the sign, which moves to the end. */
  method PadZeros(buf: array<char>, start: nat, length: nat, ghost digits: string)
    requires start == |digits| < length <= buf.Length && buf[..start] == digits
    modifies buf
    ensures buf[..length] == digits + Repeat('0', length - 1 - start) + ['-']
    ensures buf[length..] == old(buf[length..])
  {
    var i := start;
    while i < length - 1
      invariant start <= i <= length - 1 && buf[..start] == digits
      invariant forall k :: start <= k < i ==> buf[k] == '0'
      invariant buf[length..] == old(buf[length..])
    {
      buf[i] := '0';
      i := i + 1;
    }
    buf[length - 1] := '-';
  }

  /** Line 360 */
  method Pad(buf: array<char>, start: nat, length: nat, padc: char, ghost text: string)
    requires start == |text| <= length <= buf.Length && buf[..start] == text
    modifies buf
    ensures buf[..length] == text + Repeat(padc, length - start)
    ensures buf[..start] == text && buf[start..length] == Repeat(padc, length - start)
    ensures buf[length..] == old(buf[length..])
  {
    var i := start;
    while i < length
      invariant start <= i <= length && buf[..start] == text
      invariant forall k :: start <= k < i ==> buf[k] == padc
      invariant buf[length..] == old(buf[length..])
    {
      buf[i] := padc;
      i := i + 1;
    }
  }

  method PrintChar(buf: array<char>, c: char, length0: int, ladjust: bool) returns (length: nat)
    requires |TextField([c], length0, ladjust)| <= buf.Length
    modifies buf
    ensures length == |TextField([c], length0, ladjust)| && buf[..length] == TextField([c], length0, ladjust)
  {
    length := if length0 < 1 then 1 else length0;
    if ladjust {
      buf[0] := c;
      Pad(buf, 1, length, ' ', [c]);
    } else {
      Pad(buf, 0, length - 1, ' ', []);
      buf[length - 1] := c;
      assert buf[..length] == buf[..length - 1] + [c];
    }
  }

  lemma NulEnds(text: string, k: nat)
    requires '\0' !in text && k <= |text|
    ensures (text + ['\0'])[k] == '\0' <==> k == |text|
  {
    if k < |text| {
      assert text[k] in text;
    }
  }

  /** `s` ends at its first NUL, which is position `|text|`. */
  method PrintString(buf: array<char>, s: string, length0: int, ladjust: bool, ghost text: string) returns (length: nat)
    requires s == text + ['\0'] && '\0' !in text
    requires |TextField(text, length0, ladjust)| <= buf.Length
    modifies buf
    ensures length == |TextField(text, length0, ladjust)| && buf[..length] == TextField(text, length0, ladjust)
  {
    hide Repeat;
    RepeatClamped(' ', length0 - |text|);
    RepeatNone(' ');
    var len := 0;
    NulEnds(text, 0);
    while s[len] != '\0'
      invariant len <= |text| && (s[len] == '\0' <==> len == |text|)
      decreases |text| - len
    {
      len := len + 1;
      NulEnds(text, len);
    }
    assert s[..len] == text;
    length := if length0 < len then len else length0;
    if ladjust {
      CopyText(buf, 0, s, len);
      Pad(buf, len, length, ' ', text);
    } else {
      Pad(buf, 0, length - len, ' ', []);
      CopyText(buf, length - len, s, len);
    }
  }

  method CopyText(buf: array<char>, at: nat, s: string, len: nat)
    requires len <= |s| && at + len <= buf.Length
    modifies buf
    ensures buf[..at + len] == old(buf[..at]) + s[..len]
  {
    var i := at;
    while i < at + len
      invariant at <= i <= at + len && buf[..at] == old(buf[..at])
      invariant forall k :: at <= k < i ==> buf[k] == s[k - at]
    {
      buf[i] := s[i - at];
      i := i + 1;
    }
  }

  // ---- The format string ----

  /** `fmt` as a C string: its characters, then NUL. */
  function At(fmt: string, i: nat): char {
    if i < |fmt| then fmt[i] else '\0'
  }

  lemma DigitRunStep(fmt: string, i: nat)
    requires i <= |fmt|
    ensures DigitRun(fmt[i..]) == if IsDigit(At(fmt, i)) then 1 + DigitRun(fmt[i + 1..]) else 0
    ensures IsDigit(At(fmt, i)) ==> i < |fmt|
  {
    if i < |fmt| {
      assert fmt[i..][1..] == fmt[i + 1..];
    }
  }

  lemma DecimalStep(fmt: string, start: nat, i: nat)
    requires start <= i < |fmt| && AllDigits(fmt[start..i]) && IsDigit(fmt[i])
    ensures AllDigits(fmt[start..i + 1])
    ensures DecimalValue(fmt[start..i + 1]) == 10 * DecimalValue(fmt[start..i]) + (fmt[i] - '0') as int
  {
    var s := fmt[start..i + 1];
    assert s[..|s| - 1] == fmt[start..i] && s[|s| - 1] == fmt[i];
    assert forall k :: 0 <= k < |s| ==> s[k] == if k < i - start then fmt[start..i][k] else fmt[i];
  }

  /** A run of digits as a number, and the position after it. */
  method ReadNumber(fmt: string, start: nat) returns (i: nat, value: nat)
    requires start <= |fmt|
    ensures i == start + DigitRun(fmt[start..]) <= |fmt|
    ensures AllDigits(fmt[start..i]) && value == DecimalValue(fmt[start..i])
  {
    hide DigitRun, DecimalValue;
    i, value := start, 0;
    NothingRead();
    assert fmt[start..start] == [];
    DigitRunStep(fmt, i);
    while IsDigit(At(fmt, i))
      invariant start <= i <= |fmt| && i + DigitRun(fmt[i..]) == start + DigitRun(fmt[start..])
      invariant AllDigits(fmt[start..i]) && value == DecimalValue(fmt[start..i])
      decreases |fmt| - i
    {
      DigitRunStep(fmt, i);
      DecimalStep(fmt, start, i);
      value := 10 * value + (fmt[i] - '0') as int;
      i := i + 1;
    }
    DigitRunStep(fmt, i);
  }

  lemma NothingRead()
    ensures DecimalValue([]) == 0
  {
  }

  lemma SkipOne(fmt: string, i: nat, c: char)
    requires i <= |fmt| && c != '\0'
    ensures At(fmt, i) == c ==> i < |fmt| && Skip(fmt[i..], c) == fmt[i + 1..] && Skip(fmt[i..], c) != fmt[i..]
    ensures At(fmt, i) != c ==> Skip(fmt[i..], c) == fmt[i..]
  {
  }

  /** Lines 85 to 106 */
  method ReadFlags(fmt: string, start: nat) returns (i: nat, ladjust: bool, padc: char)
    requires start <= |fmt|
    ensures i <= |fmt| && ParseFlags(fmt[start..]) == (ladjust, padc, fmt[i..])
  {
    hide Skip;
    i := start;
    SkipOne(fmt, i, 'l');
    if At(fmt, i) == 'l' {
      i := i + 1;
    }
    ladjust, padc := false, ' ';
    SkipOne(fmt, i, '-');
    if At(fmt, i) == '-' {
      ladjust := true;
      i := i + 1;
    }
    SkipOne(fmt, i, '0');
    if At(fmt, i) == '0' {
      padc := '0';
      i := i + 1;
    }
  }

  /** Lines 114 to 122: a precision is read and not used. */
  method ReadPrecision(fmt: string, start: nat) returns (i: nat)
    requires start <= |fmt|
    ensures i <= |fmt| && SkipPrecision(fmt[start..]) == fmt[i..]
  {
    hide DigitRun, DecimalValue;
    i := start;
    if At(fmt, i) == '.' {
      i := i + 1;
      var prec;
      i, prec := ReadNumber(fmt, i);
      assert fmt[start..][1..] == fmt[start + 1..];
      assert fmt[start + 1..][i - (start + 1)..] == fmt[i..];
    }
  }

  /** Lines 85 to 122 */
  method ReadSpec(fmt: string, start: nat) returns (i: nat, ladjust: bool, padc: char, width: nat)
    requires start <= |fmt|
    ensures i <= |fmt| && ParseSpec(fmt[start..]) == (Spec(ladjust, padc, width), fmt[i..])
  {
    hide ParseFlags, DigitRun, DecimalValue, SkipPrecision;
    i, ladjust, padc := ReadFlags(fmt, start);
    ghost var afterZero := i;
    i, width := ReadNumber(fmt, i);
    assert fmt[afterZero..][..i - afterZero] == fmt[afterZero..i];
    assert fmt[afterZero..][i - afterZero..] == fmt[i..];
    i := ReadPrecision(fmt, i);
  }

  /** OUTPUT: a piece of text; longer than the buffer would be fatal. */
  method Output(out: string, s: string) returns (r: string)
    requires |s| <= LP_MAX_BUF
    ensures r == out + s
  {
    r := out + s;
  }

  /** Lines 127 to 214: one conversion, of the first argument left. */
  method Convert(buf: array<char>, c: char, spec: Spec, ap: seq<Arg>) returns (s: string)
    requires buf.Length == LP_MAX_BUF && c != '\0' && Convertible(spec, c, ap)
    modifies buf
    ensures s == Directive(spec, c, NextArg(c, ap))
  {
    hide NumField, TextField;
    var length;
    match c {
      case 'b' =>
        length := PrintNum(buf, Unsigned(ap[0].value), 2, false, spec.width, spec.left, spec.pad, false);
        s := buf[..length];
      case 'd' | 'D' =>
        var num, negFlag := ap[0].value, false;
        if num < 0 {
          num, negFlag := -num, true;
        }
        length := PrintNum(buf, Unsigned(num), 10, negFlag, spec.width, spec.left, spec.pad, false);
        s := buf[..length];
      case 'o' | 'O' =>
        length := PrintNum(buf, Unsigned(ap[0].value), 8, false, spec.width, spec.left, spec.pad, false);
        s := buf[..length];
      case 'u' | 'U' =>
        length := PrintNum(buf, Unsigned(ap[0].value), 10, false, spec.width, spec.left, spec.pad, false);
        s := buf[..length];
      case 'x' =>
        length := PrintNum(buf, Unsigned(ap[0].value), 16, false, spec.width, spec.left, spec.pad, false);
        s := buf[..length];
      case 'X' =>
        length := PrintNum(buf, Unsigned(ap[0].value), 16, false, spec.width, spec.left, spec.pad, true);
        s := buf[..length];
      case 'c' =>
        length := PrintChar(buf, (ap[0].value % 256) as char, spec.width, spec.left);
        s := buf[..length];
      case 's' =>
        length := PrintString(buf, ap[0].text + ['\0'], spec.width, spec.left, ap[0].text);
        s := buf[..length];
      case _ =>
        s := [c];
    }
  }

  lemma TextRunStep(fmt: string, i: nat)
    requires i <= |fmt| && '\0' !in fmt
    ensures TextRun(fmt[i..]) == if At(fmt, i) != '\0' && At(fmt, i) != '%' then 1 + TextRun(fmt[i + 1..]) else 0
    ensures At(fmt, i) == '\0' <==> i == |fmt|
  {
    if i < |fmt| {
      assert fmt[i] in fmt;
      assert fmt[i..][1..] == fmt[i + 1..];
    }
  }

  /** Lines 68 to 75: the text before the next directive. */
  method ScanText(fmt: string, start: nat) returns (i: nat)
    requires start <= |fmt| && '\0' !in fmt
    ensures i == start + TextRun(fmt[start..]) <= |fmt|
  {
    hide TextRun;
    i := start;
    TextRunStep(fmt, i);
    while At(fmt, i) != '\0' && At(fmt, i) != '%'
      invariant start <= i <= |fmt| && i + TextRun(fmt[i..]) == start + TextRun(fmt[start..])
      decreases |fmt| - i
    {
      TextRunStep(fmt, i);
      i := i + 1;
    }
    TextRunStep(fmt, i);
  }

  /** The reference formatter up to and including its first directive. */
  lemma FormatPiece(fmt: string, args: seq<Arg>)
    requires Printable(fmt, args)
    ensures TextRun(fmt) <= LP_MAX_BUF
    ensures var n := TextRun(fmt);
      if n == |fmt| then Format(fmt, args) == fmt
      else
        var (spec, rest) := ParseSpec(fmt[n + 1..]);
        if rest == [] then Format(fmt, args) == fmt[..n]
        else
          && Convertible(spec, rest[0], args)
          && Printable(rest[1..], RestArgs(rest[0], args))
          && Format(fmt, args)
             == fmt[..n] + (Directive(spec, rest[0], NextArg(rest[0], args))
                            + Format(rest[1..], RestArgs(rest[0], args)))
  {
    hide TextRun, ParseSpec, Directive, Convertible, NextArg, RestArgs;
  }

  lemma RestArgsFrom(c: char, args: seq<Arg>, ap: nat)
    requires ap <= |args|
    ensures Takes(c) && ap < |args| ==> RestArgs(c, args[ap..]) == args[ap + 1..]
    ensures !Takes(c) ==> RestArgs(c, args[ap..]) == args[ap..]
  {
  }

  lemma ConvertibleTakes(spec: Spec, c: char, args: seq<Arg>)
    requires Convertible(spec, c, args)
    ensures |Directive(spec, c, NextArg(c, args))| <= LP_MAX_BUF
    ensures Takes(c) ==> args != []
  {
  }

  lemma NothingLeft(args: seq<Arg>)
    ensures Printable([], args) && Format([], args) == []
  {
  }

  /** The directive at the start of `fmt`, if the string does not end first, suits the
      arguments. */
  predicate DirectiveFits(fmt: string, args: seq<Arg>) {
    var (spec, rest) := ParseSpec(fmt);
    rest != [] ==> Convertible(spec, rest[0], args)
  }

  /** Lines 82 to 216: the directive after a `%`, which prints `s`. A directive that the
      end of the string cuts off prints nothing. */
  method PrintDirective(buf: array<char>, fmt: string, start: nat, args: seq<Arg>, ap0: nat)
    returns (i: nat, ap: nat, s: string)
    requires buf.Length == LP_MAX_BUF && start <= |fmt| && '\0' !in fmt && ap0 <= |args|
    requires DirectiveFits(fmt[start..], args[ap0..])
    modifies buf
    ensures i <= |fmt| && ap <= |args|
    ensures var (spec, rest) := ParseSpec(fmt[start..]);
      if rest == [] then i == |fmt| && ap == ap0 && s == []
      else
        && s == Directive(spec, rest[0], NextArg(rest[0], args[ap0..])) && |s| <= LP_MAX_BUF
        && fmt[i..] == rest[1..] && args[ap..] == RestArgs(rest[0], args[ap0..])
  {
    hide ParseSpec, Directive, Takes, Convertible, NextArg, RestArgs;
    var ladjust, padc, width;
    i, ladjust, padc, width := ReadSpec(fmt, start);
    ap, s := ap0, [];
    TextRunStep(fmt, i);
    if At(fmt, i) == '\0' {
      return;
    }
    var c := fmt[i];
    assert fmt[i..][1..] == fmt[i + 1..];
    RestArgsFrom(c, args, ap);
    ConvertibleTakes(Spec(ladjust, padc, width), c, args[ap..]);
    s := Convert(buf, c, Spec(ladjust, padc, width), args[ap..]);
    if Takes(c) {
      ap := ap + 1;
    }
    i := i + 1;
  }

  lemma RestIsShorter(fmt: string)
    ensures |ParseSpec(fmt).1| <= |fmt|
  {
  }

  /** The formatter prints what the reference formatter gives. The closing call with a
      lone NUL prints nothing. */
  method LpPrint(fmt: string, args: seq<Arg>) returns (out: string)
    requires '\0' !in fmt && Printable(fmt, args)
    ensures out == Format(fmt, args)
  {
    hide TextRun, ParseSpec, Directive, Printable, Format, Convertible, NextArg, RestArgs;
    var buf := new char[LP_MAX_BUF];
    out := [];
    var i: nat, ap: nat := 0, 0;
    assert fmt[0..] == fmt && args[0..] == args;
    while true
      invariant i <= |fmt| && ap <= |args| && Printable(fmt[i..], args[ap..])
      invariant out + Format(fmt[i..], args[ap..]) == Format(fmt, args)
      decreases |fmt| - i
    {
      FormatPiece(fmt[i..], args[ap..]);
      ghost var here := fmt[i..];
      var fmtStart := i;
      i := ScanText(fmt, i);
      assert here[..i - fmtStart] == fmt[fmtStart..i];
      out := Output(out, fmt[fmtStart..i]);
      TextRunStep(fmt, i);
      if At(fmt, i) == '\0' {
        assert here[..i - fmtStart] == here;
        break;
      }
      assert here[i - fmtStart + 1..] == fmt[i + 1..];
      ghost var (spec, rest) := ParseSpec(fmt[i + 1..]);
      RestIsShorter(fmt[i + 1..]);
      if rest == [] {
        NothingLeft(args[ap..]);
      }
      var s;
      i, ap, s := PrintDirective(buf, fmt, i + 1, args, ap);
      assert rest == [] ==> fmt[i..] == [];
      out := Output(out, s);
    }
  }
}
