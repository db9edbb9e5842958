/** What the formatter prints: numerals, fields, and a recursive reference for format
    strings. */
module PrintfSpec {
  import opened Bits

  // ---- Numerals ----

  /** wr2p: one digit as a character. */
  function DigitChar(d: nat, upcase: bool): (c: char)
    requires d < 16
  {
    if d <= 9 then '0' + d as char
    else if upcase then 'A' + (d - 10) as char
    else 'a' + (d - 10) as char
  }

  function DigitValue(c: char): int {
    if '0' <= c <= '9' then (c - '0') as int
    else if 'A' <= c <= 'F' then (c - 'A') as int + 10
    else if 'a' <= c <= 'f' then (c - 'a') as int + 10
    else 0
  }

  lemma DigitRoundTrip(d: nat, upcase: bool)
    requires d < 16
    ensures DigitValue(DigitChar(d, upcase)) == d
    ensures DigitChar(d, upcase) != ' ' && DigitChar(d, upcase) != '-'
  {
  }

  /** The canonical digits, least significant first; no leading zero but for 0 itself. */
  function ReversedDigits(n: nat, base: nat, upcase: bool): (s: string)
    requires 2 <= base <= 16
    ensures |s| > 0
    decreases n
  {
    if n < base then [DigitChar(n, upcase)]
    else [DigitChar(n % base, upcase)] + ReversedDigits(n / base, base, upcase)
  }

  function Reversed(s: string): (r: string)
    ensures |r| == |s|
  {
    if s == [] then [] else Reversed(s[1..]) + [s[0]]
  }

  lemma {:induction false} ReversedAt(s: string, i: nat)
    requires i < |s|
    ensures Reversed(s)[i] == s[|s| - 1 - i]
  {
    if i < |s| - 1 {
      ReversedAt(s[1..], i);
    }
  }

  /** The digits of the bases that are implemented; other bases have none. */
  function Numeral(u: nat, base: nat, upcase: bool): string {
    if base == 10 || base == 16 then Reversed(ReversedDigits(u, base, upcase)) else []
  }

  /** What a string of digits is worth, most significant first. */
  function NumeralValue(s: string, base: nat): int {
    if s == [] then 0 else NumeralValue(s[..|s| - 1], base) * base + DigitValue(s[|s| - 1])
  }

  lemma ValueOfAppended(s: string, c: char, base: nat)
    ensures NumeralValue(s + [c], base) == NumeralValue(s, base) * base + DigitValue(c)
  {
    assert (s + [c])[..|s|] == s;
  }

  lemma ReversedOfCons(c: char, s: string)
    ensures Reversed([c] + s) == Reversed(s) + [c]
  {
    assert ([c] + s)[1..] == s;
  }

  lemma QuotientAndRemainder(n: nat, base: nat)
    requires base >= 2
    ensures n / base * base + n % base == n && n % base < base
    ensures n >= base ==> n / base < n
  {
  }

  lemma {:induction false} ValueOfReversedDigits(n: nat, base: nat, upcase: bool)
    requires 2 <= base <= 16
    ensures NumeralValue(Reversed(ReversedDigits(n, base, upcase)), base) == n
    decreases n
  {
    hide NumeralValue, Reversed, DigitChar, DigitValue;
    QuotientAndRemainder(n, base);
    var d := if n < base then n else n % base;
    var rest := if n < base then [] else ReversedDigits(n / base, base, upcase);
    assert ReversedDigits(n, base, upcase) == [DigitChar(d, upcase)] + rest;
    DigitRoundTrip(d, upcase);
    ReversedOfCons(DigitChar(d, upcase), rest);
    ValueOfAppended(Reversed(rest), DigitChar(d, upcase), base);
    if n >= base {
      ValueOfReversedDigits(n / base, base, upcase);
    } else {
      ValueOfNothing(base);
    }
  }

  lemma ValueOfNothing(base: nat)
    ensures Reversed([]) == [] && NumeralValue([], base) * base == 0
  {
  }

  /** Decimal and hexadecimal numerals denote their number. */
  lemma NumeralDenotes(u: nat, base: nat, upcase: bool)
    requires base == 10 || base == 16
    ensures NumeralValue(Numeral(u, base, upcase), base) == u
  {
    ValueOfReversedDigits(u, base, upcase);
  }

  // ---- Fields ----

  function Repeat(c: char, n: int): (s: string)
    ensures |s| == if n > 0 then n else 0
    ensures forall i :: 0 <= i < |s| ==> s[i] == c
  {
    if n <= 0 then [] else seq(n, _ => c)
  }

  function Sign(negative: bool): string {
    if negative then ['-'] else []
  }

  /** A number in its field: left-adjusted with trailing spaces, or sign, zeros and
      digits, or padding before sign and digits. */
  function NumField(u: nat, base: nat, negative: bool, width: int, left: bool, pad: char, upcase: bool): string {
    var digits := Numeral(u, base, upcase);
    var missing := width - |Sign(negative)| - |digits|;
    if left then Sign(negative) + digits + Repeat(' ', missing)
    else if negative && pad == '0' then ['-'] + Repeat('0', missing) + digits
    else Repeat(pad, missing) + Sign(negative) + digits
  }

  function TextField(s: string, width: int, left: bool): string {
    if left then s + Repeat(' ', width - |s|) else Repeat(' ', width - |s|) + s
  }

  lemma FieldWidth(u: nat, base: nat, negative: bool, width: int, left: bool, pad: char, upcase: bool)
    ensures var n := |Sign(negative)| + |Numeral(u, base, upcase)|;
      |NumField(u, base, negative, width, left, pad, upcase)| == if width > n then width else n
  {
  }

  function TrimLeft(s: string): string {
    if s != [] && s[0] == ' ' then TrimLeft(s[1..]) else s
  }

  function TrimRight(s: string): string {
    if s != [] && s[|s| - 1] == ' ' then TrimRight(s[..|s| - 1]) else s
  }

  /** Reads a field back: outer spaces are padding, then an optional sign, then digits. */
  function ReadField(field: string, base: nat): (bool, int) {
    var s := TrimRight(TrimLeft(field));
    if s != [] && s[0] == '-' then (true, NumeralValue(s[1..], base)) else (false, NumeralValue(s, base))
  }

  lemma {:induction false} TrimLeftPadding(n: nat, s: string)
    requires s != [] && s[0] != ' '
    ensures TrimLeft(Repeat(' ', n) + s) == s
  {
    if n > 0 {
      assert (Repeat(' ', n) + s)[1..] == Repeat(' ', n - 1) + s;
      TrimLeftPadding(n - 1, s);
    } else {
      assert Repeat(' ', n) + s == s;
    }
  }

  lemma {:induction false} TrimRightPadding(n: nat, s: string)
    requires s != [] && s[|s| - 1] != ' '
    ensures TrimRight(s + Repeat(' ', n)) == s
  {
    if n > 0 {
      var t := s + Repeat(' ', n);
      assert t[|t| - 1] == ' ';
      assert t[..|t| - 1] == s + Repeat(' ', n - 1);
      TrimRightPadding(n - 1, s);
    } else {
      assert s + Repeat(' ', n) == s;
    }
  }

  lemma {:induction false} LeadingZeros(n: nat, s: string, base: nat)
    ensures NumeralValue(Repeat('0', n) + s, base) == NumeralValue(s, base)
    decreases n + |s|
  {
    var t := Repeat('0', n) + s;
    if s != [] {
      assert t[..|t| - 1] == Repeat('0', n) + s[..|s| - 1];
      LeadingZeros(n, s[..|s| - 1], base);
    } else if n > 0 {
      assert t[|t| - 1] == '0';
      assert t[..|t| - 1] == Repeat('0', n - 1) + s;
      LeadingZeros(n - 1, s, base);
      assert 0 * base == 0;
    } else {
      assert t == s;
    }
  }

  /** Neither padding nor sign: what trimming and sign detection leave alone. */
  predicate Plain(s: string) {
    forall i :: 0 <= i < |s| ==> s[i] != ' ' && s[i] != '-'
  }

  lemma {:induction false} DigitsArePlain(n: nat, base: nat, upcase: bool)
    requires 2 <= base <= 16
    ensures Plain(ReversedDigits(n, base, upcase))
    decreases n
  {
    hide DigitChar, DigitValue;
    QuotientAndRemainder(n, base);
    DigitRoundTrip(if n < base then n else n % base, upcase);
    if n >= base {
      DigitsArePlain(n / base, base, upcase);
    }
  }

  lemma NumeralIsPlain(u: nat, base: nat, upcase: bool)
    requires base == 10 || base == 16
    ensures |Numeral(u, base, upcase)| > 0 && Plain(Numeral(u, base, upcase))
  {
    hide ReversedDigits, Reversed;
    var r := ReversedDigits(u, base, upcase);
    DigitsArePlain(u, base, upcase);
    forall i | 0 <= i < |r|
      ensures Reversed(r)[i] != ' ' && Reversed(r)[i] != '-'
    {
      ReversedAt(r, i);
    }
  }

  lemma ReadPadded(left: nat, core: string, right: nat, negative: bool, digits: string, base: nat)
    requires core == Sign(negative) + digits && |digits| > 0 && Plain(digits)
    ensures ReadField(Repeat(' ', left) + (core + Repeat(' ', right)), base) == (negative, NumeralValue(digits, base))
  {
    hide NumeralValue, TrimLeft, TrimRight;
    assert core[|core| - 1] == digits[|digits| - 1];
    assert core[0] != ' ';
    TrimLeftPadding(left, core + Repeat(' ', right));
    TrimRightPadding(right, core);
    if negative {
      assert core[1..] == digits;
    } else {
      assert core == digits;
    }
  }

  /** Every field reads back as its number and sign, whatever its width, adjustment and
      padding. */
  lemma FieldRoundTrip(u: nat, base: nat, negative: bool, width: int, left: bool, pad: char, upcase: bool)
    requires (base == 10 || base == 16) && (pad == ' ' || pad == '0')
    ensures ReadField(NumField(u, base, negative, width, left, pad, upcase), base) == (negative, u)
  {
    hide Numeral, NumeralValue, Repeat, ReadField;
    var digits := Numeral(u, base, upcase);
    var missing := width - |Sign(negative)| - |digits|;
    var n := if missing > 0 then missing else 0;
    NumeralDenotes(u, base, upcase);
    NumeralIsPlain(u, base, upcase);
    RepeatClamped(' ', missing);
    RepeatClamped('0', missing);
    RepeatNone(' ');
    var field := NumField(u, base, negative, width, left, pad, upcase);
    if left {
      var core := Sign(negative) + digits;
      assert field == Repeat(' ', 0) + (core + Repeat(' ', n));
      ReadPadded(0, core, n, negative, digits, base);
    } else if pad == ' ' {
      var core := Sign(negative) + digits;
      assert field == Repeat(' ', n) + (core + Repeat(' ', 0));
      ReadPadded(n, core, 0, negative, digits, base);
    } else {
      var zeroed := Repeat('0', n) + digits;
      LeadingZeros(n, digits, base);
      var core := Sign(negative) + zeroed;
      assert field == Repeat(' ', 0) + (core + Repeat(' ', 0));
      ReadPadded(0, core, 0, negative, zeroed, base);
    }
  }

  lemma RepeatClamped(c: char, n: int)
    ensures Repeat(c, n) == Repeat(c, if n > 0 then n else 0)
  {
  }

  lemma RepeatNone(c: char)
    ensures Repeat(c, 0) == []
  {
  }

  // ---- Format strings ----

  /** One variable argument: an `int` (32 bits, as is `long int`) or a string. */
  datatype Arg = Int(value: int) | Str(text: string)

  /** The flags of a directive that matter; a precision is read and forgotten. */
  datatype Spec = Spec(left: bool, pad: char, width: nat)

  predicate IsDigit(c: char) {
    '0' <= c <= '9'
  }

  function DigitRun(s: string): (n: nat)
    ensures n <= |s|
  {
    if s != [] && IsDigit(s[0]) then 1 + DigitRun(s[1..]) else 0
  }

  function TextRun(s: string): (n: nat)
    ensures n <= |s|
    ensures n < |s| ==> s[n] == '%'
    ensures forall i :: 0 <= i < n ==> s[i] != '%'
  {
    if s != [] && s[0] != '%' then 1 + TextRun(s[1..]) else 0
  }

  function DecimalValue(s: string): (n: nat)
    requires forall i :: 0 <= i < |s| ==> IsDigit(s[i])
  {
    if s == [] then 0 else assert IsDigit(s[|s| - 1]); 10 * DecimalValue(s[..|s| - 1]) + (s[|s| - 1] - '0') as int
  }

  lemma {:induction false} DigitRunIsDigits(s: string)
    ensures forall i :: 0 <= i < DigitRun(s) ==> IsDigit(s[i])
    ensures DigitRun(s) < |s| ==> !IsDigit(s[DigitRun(s)])
  {
    if s != [] && IsDigit(s[0]) {
      DigitRunIsDigits(s[1..]);
    }
  }

  function Skip(s: string, c: char): string {
    if s != [] && s[0] == c then s[1..] else s
  }

  function SkipPrecision(s: string): (r: string)
    ensures |r| <= |s|
  {
    if s != [] && s[0] == '.' then s[1..][DigitRun(s[1..])..] else s
  }

  /** `[l][-][0]` at the start of `s`: adjustment, padding, and what follows. */
  function ParseFlags(s: string): (r: (bool, char, string))
    ensures |r.2| <= |s|
  {
    var afterLong := Skip(s, 'l');
    var afterMinus := Skip(afterLong, '-');
    var afterZero := Skip(afterMinus, '0');
    (afterMinus != afterLong, if afterZero != afterMinus then '0' else ' ', afterZero)
  }

  /** `[l][-][0][width][.prec]` at the start of `s`; what follows is the conversion. */
  function ParseSpec(s: string): (r: (Spec, string))
    ensures |r.1| <= |s|
  {
    var (left, pad, afterZero) := ParseFlags(s);
    var n := DigitRun(afterZero);
    DigitRunIsDigits(afterZero);
    (Spec(left, pad, DecimalValue(afterZero[..n])), SkipPrecision(afterZero[n..]))
  }

  const NUMERIC: string := "bdDoOuUxX"

  predicate TakesInt(c: char) {
    c in NUMERIC || c == 'c'
  }

  function Base(c: char): nat {
    if c == 'b' then 2 else if c == 'o' || c == 'O' then 8 else if c == 'x' || c == 'X' then 16 else 10
  }

  /** A 32-bit integer argument read as unsigned. */
  function Unsigned(v: int): u32 {
    v % 0x1_0000_0000
  }

  function IntOf(arg: Arg): int {
    if arg.Int? then arg.value else 0
  }

  function TextOf(arg: Arg): string {
    if arg.Str? then arg.text else []
  }

  /** The text of one directive. */
  function Directive(spec: Spec, c: char, arg: Arg): string {
    if c == 'd' || c == 'D' then
      var v := IntOf(arg);
      NumField(Unsigned(if v < 0 then -v else v), 10, v < 0, spec.width, spec.left, spec.pad, false)
    else if c in NUMERIC then
      NumField(Unsigned(IntOf(arg)), Base(c), false, spec.width, spec.left, spec.pad, c == 'X')
    else if c == 'c' then TextField([(IntOf(arg) % 256) as char], spec.width, spec.left)
    else if c == 's' then TextField(TextOf(arg), spec.width, spec.left)
    else [c]
  }

  const NO_ARG: Arg := Int(0)

  predicate Takes(c: char) {
    TakesInt(c) || c == 's'
  }

  /** The argument a conversion takes, and the arguments it leaves. */
  function NextArg(c: char, args: seq<Arg>): Arg {
    if Takes(c) && args != [] then args[0] else NO_ARG
  }

  function RestArgs(c: char, args: seq<Arg>): seq<Arg> {
    if Takes(c) && args != [] then args[1..] else args
  }

  /** The next argument has the type the conversion takes, and the field fits the
      256-character buffer. `%d` of the least integer, whose negation overflows, is out. */
  predicate Convertible(spec: Spec, c: char, args: seq<Arg>) {
    && (Takes(c) ==> args != [])
    && (TakesInt(c) ==> args[0].Int? && -0x8000_0000 <= args[0].value < 0x8000_0000)
    && (c == 'd' || c == 'D' ==> NextArg(c, args) != Int(-0x8000_0000))
    && (c == 's' ==> args[0].Str? && '\0' !in args[0].text)
    && |Directive(spec, c, NextArg(c, args))| <= 256
  }

  /** Whether the arguments suit the directives and every piece of output fits. */
  predicate Printable(fmt: string, args: seq<Arg>)
    decreases |fmt|
  {
    var n := TextRun(fmt);
    n <= 256 &&
    (n < |fmt| ==>
      var (spec, rest) := ParseSpec(fmt[n + 1..]);
      rest != [] ==> Convertible(spec, rest[0], args) && Printable(rest[1..], RestArgs(rest[0], args)))
  }

  /** The reference formatter: text up to a directive, the directive, then the rest. A
      directive cut off by the end of the string prints nothing. */
  function Format(fmt: string, args: seq<Arg>): string
    decreases |fmt|
  {
    var n := TextRun(fmt);
    if n == |fmt| then fmt
    else
      var (spec, rest) := ParseSpec(fmt[n + 1..]);
      if rest == [] then fmt[..n]
      else
        fmt[..n] + (Directive(spec, rest[0], NextArg(rest[0], args)) + Format(rest[1..], RestArgs(rest[0], args)))
  }

  // ---- The grammar, written out ----

  function Opt(present: bool, c: char): string {
    if present then [c] else []
  }

  /** A directive's characters: `%`, the flags, width digits, a precision, `c`. */
  function Written(long: bool, left: bool, zero: bool, width: string, dot: bool, prec: string, c: char): string {
    ['%'] + (Opt(long, 'l') + (Opt(left, '-') + (Opt(zero, '0') + (width + (if dot then ['.'] + (prec + [c]) else [c])))))
  }

  predicate AllDigits(s: string) {
    forall i :: 0 <= i < |s| ==> IsDigit(s[i])
  }

  /** Characters that the flag parser would take for a flag of its own. */
  predicate IsConversion(c: char) {
    !IsDigit(c) && c != 'l' && c != '-' && c != '.'
  }

  lemma {:induction false} DigitRunOfWritten(digits: string, rest: string)
    requires AllDigits(digits) && (rest != [] ==> !IsDigit(rest[0]))
    ensures DigitRun(digits + rest) == |digits|
  {
    if digits == [] {
      assert digits + rest == rest;
    } else {
      assert (digits + rest)[1..] == digits[1..] + rest;
      DigitRunOfWritten(digits[1..], rest);
    }
  }

  lemma SkipOpt(present: bool, c: char, rest: string)
    requires !present ==> rest == [] || rest[0] != c
    ensures Skip(Opt(present, c) + rest, c) == rest
    ensures (Skip(Opt(present, c) + rest, c) != Opt(present, c) + rest) == present
  {
    if present {
      assert ([c] + rest)[1..] == rest;
    } else {
      assert [] + rest == rest;
    }
  }

  /** The parser reads back every directive of the grammar; the precision leaves no
      trace. A width does not start with the zero that would be the flag. */
  lemma ParseOfWritten(long: bool, left: bool, zero: bool, width: string, dot: bool, prec: string, c: char, rest: string)
    requires AllDigits(width) && AllDigits(prec) && IsConversion(c)
    requires !zero ==> width == [] || width[0] != '0'
    ensures ParseSpec((Written(long, left, zero, width, dot, prec, c) + rest)[1..])
         == (Spec(left, if zero then '0' else ' ', DecimalValue(width)), [c] + rest)
  {
    hide DigitRun, DecimalValue, Skip, SkipPrecision, Opt, Written, PrecisionPart;
    var s4 := PrecisionPart(dot, prec, c, rest);
    var s3 := width + s4;
    var s2 := Opt(zero, '0') + s3;
    var s1 := Opt(left, '-') + s2;
    WrittenParts(long, left, zero, width, dot, prec, c, rest);
    FlagsApart(left, zero, width, s4);
    SkipOpt(long, 'l', s1);
    SkipOpt(left, '-', s2);
    SkipOpt(zero, '0', s3);
    DigitRunOfWritten(width, s4);
    assert s3[..|width|] == width && s3[|width|..] == s4;
    SkipWrittenPrecision(dot, prec, c, rest);
  }

  function PrecisionPart(dot: bool, prec: string, c: char, rest: string): (s: string)
    ensures s != [] && s[0] == if dot then '.' else c
  {
    (if dot then ['.'] + (prec + [c]) else [c]) + rest
  }

  lemma WrittenParts(long: bool, left: bool, zero: bool, width: string, dot: bool, prec: string, c: char, rest: string)
    ensures var fmt := Written(long, left, zero, width, dot, prec, c) + rest;
      && fmt != [] && fmt[0] == '%'
      && fmt[1..] == Opt(long, 'l') + (Opt(left, '-') + (Opt(zero, '0') + (width + PrecisionPart(dot, prec, c, rest))))
  {
    hide Opt;
    var last := if dot then ['.'] + (prec + [c]) else [c];
    assert PrecisionPart(dot, prec, c, rest) == last + rest;
    var body := Opt(long, 'l') + (Opt(left, '-') + (Opt(zero, '0') + (width + last)));
    assert (['%'] + body + rest)[1..] == body + rest;
    Concat4(Opt(long, 'l'), Opt(left, '-'), Opt(zero, '0'), width, last, rest);
  }

  lemma Concat4(a: string, b: string, c: string, d: string, e: string, f: string)
    ensures a + (b + (c + (d + e))) + f == a + (b + (c + (d + (e + f))))
  {
    assert (d + e) + f == d + (e + f);
    assert (c + (d + e)) + f == c + ((d + e) + f);
    assert (b + (c + (d + e))) + f == b + ((c + (d + e)) + f);
    assert a + (b + (c + (d + e))) + f == a + ((b + (c + (d + e))) + f);
  }

  lemma SkipWrittenPrecision(dot: bool, prec: string, c: char, rest: string)
    requires AllDigits(prec) && IsConversion(c)
    ensures SkipPrecision(PrecisionPart(dot, prec, c, rest)) == [c] + rest
  {
    if dot {
      assert PrecisionPart(dot, prec, c, rest)[1..] == prec + ([c] + rest);
      DigitRunOfWritten(prec, [c] + rest);
    }
  }

  /** What follows an absent flag never starts like that flag. */
  lemma FlagsApart(left: bool, zero: bool, width: string, s4: string)
    requires AllDigits(width) && s4 != [] && s4[0] != 'l' && s4[0] != '-' && !IsDigit(s4[0])
    requires !zero ==> width == [] || width[0] != '0'
    ensures var s3 := width + s4; var s2 := Opt(zero, '0') + s3; var s1 := Opt(left, '-') + s2;
      && s1[0] != 'l' && s2[0] != '-' && (!zero ==> s3[0] != '0')
  {
    if width != [] {
      assert IsDigit(width[0]);
    }
  }

  /** Formatting a written directive prints it and goes on with the rest. */
  lemma FormatOfWritten(long: bool, left: bool, zero: bool, width: string, dot: bool, prec: string, c: char,
                        rest: string, args: seq<Arg>)
    requires AllDigits(width) && AllDigits(prec) && IsConversion(c)
    requires !zero ==> width == [] || width[0] != '0'
    ensures Format(Written(long, left, zero, width, dot, prec, c) + rest, args)
         == Directive(Spec(left, if zero then '0' else ' ', DecimalValue(width)), c, NextArg(c, args))
            + Format(rest, RestArgs(c, args))
  {
    hide Written, Directive, ParseSpec, DecimalValue, NextArg, RestArgs;
    var fmt := Written(long, left, zero, width, dot, prec, c) + rest;
    WrittenParts(long, left, zero, width, dot, prec, c, rest);
    ParseOfWritten(long, left, zero, width, dot, prec, c, rest);
    assert ([c] + rest)[1..] == rest;
    assert fmt[..0] == [];
    assert TextRun(fmt) == 0;
  }

  lemma {:induction false} TextRunOfText(text: string, rest: string)
    requires '%' !in text && (rest == [] || rest[0] == '%')
    ensures TextRun(text + rest) == |text|
  {
    if text == [] {
      assert text + rest == rest;
    } else {
      assert (text + rest)[1..] == text[1..] + rest;
      TextRunOfText(text[1..], rest);
    }
  }

  /** A directive that the end of the string cuts off is dropped. */
  lemma LonePercentDropped(text: string, args: seq<Arg>)
    requires '%' !in text && |text| <= 256
    ensures Format(text + ['%'], args) == text && Printable(text + ['%'], args)
  {
    TextRunOfText(text, ['%']);
    assert (text + ['%'])[|text| + 1..] == [];
    assert (text + ['%'])[..|text|] == text;
  }

  /** `%b` and `%o` print no digits at all, only padding. */
  lemma BinaryAndOctalPrintPadding(spec: Spec, c: char, arg: Arg)
    requires c == 'b' || c == 'o' || c == 'O'
    ensures |Directive(spec, c, arg)| == spec.width
    ensures forall i :: 0 <= i < spec.width ==> Directive(spec, c, arg)[i] == if spec.left then ' ' else spec.pad
  {
  }
}
