/** What each conversion prints, told without the formatter's own tables: which characters,
    what they are worth when read back, on which side the padding stands, and which
    argument was used. */
module PrintfMeaning {
  import opened Bits
  import opened PrintfSpec

  // ---- Numerals ----

  /** The characters that a numeral of this base and case can have, by their worth. */
  function Alphabet(base: nat, upcase: bool): (s: string)
    ensures base == 10 || base == 16 ==> |s| == base
  {
    if base == 10 then "0123456789" else if upcase then "0123456789ABCDEF" else "0123456789abcdef"
  }

  lemma DigitTable(d: nat, base: nat, upcase: bool)
    requires base == 10 || base == 16
    requires d < base
    ensures DigitChar(d, upcase) == Alphabet(base, upcase)[d]
  {
  }

  /** A numeral ends in the character of the remainder; before it stands the quotient's
      numeral, or nothing if there is only one digit. */
  lemma NumeralMeaning(u: nat, base: nat, upcase: bool)
    requires base == 10 || base == 16
    ensures Numeral(u, base, upcase)
         == (if u < base then [] else Numeral(u / base, base, upcase)) + [Alphabet(base, upcase)[u % base]]
  {
    hide Alphabet, DigitChar, Reversed;
    QuotientAndRemainder(u, base);
    DigitTable(u % base, base, upcase);
    var rest := if u < base then [] else ReversedDigits(u / base, base, upcase);
    assert ReversedDigits(u, base, upcase) == [DigitChar(u % base, upcase)] + rest;
    ReversedOfCons(DigitChar(u % base, upcase), rest);
    ValueOfNothing(base);
  }

  /** Only the base's characters, in the case asked for; no leading zero but in 0 itself. */
  lemma {:induction false} NumeralShape(u: nat, base: nat, upcase: bool)
    requires base == 10 || base == 16
    ensures var s := Numeral(u, base, upcase);
      && |s| > 0
      && (u > 0 ==> s[0] != '0')
      && (u == 0 ==> s == "0")
      && forall i | 0 <= i < |s| :: s[i] in Alphabet(base, upcase)
    decreases u
  {
    hide Numeral;
    NumeralMeaning(u, base, upcase);
    QuotientAndRemainder(u, base);
    assert Alphabet(base, upcase)[u % base] == '0' ==> u % base == 0;
    if u >= base {
      NumeralShape(u / base, base, upcase);
    }
  }

  // ---- Fields ----

  /** `core`, then spaces up to `width`. */
  predicate AtLeft(field: string, core: string, width: int) {
    && core <= field
    && |field| == (if width > |core| then width else |core|)
    && forall i | |core| <= i < |field| :: field[i] == ' '
  }

  /** `core` at the end, `pad` before it up to `width`. */
  predicate AtRight(field: string, core: string, width: int, pad: char) {
    && |field| == (if width > |core| then width else |core|)
    && field[|field| - |core|..] == core
    && forall i | 0 <= i < |field| - |core| :: field[i] == pad
  }

  lemma PadAfter(core: string, width: int)
    ensures AtLeft(core + Repeat(' ', width - |core|), core, width)
  {
  }

  lemma PadBefore(core: string, width: int, pad: char)
    ensures AtRight(Repeat(pad, width - |core|) + core, core, width, pad)
  {
  }

  lemma NumberSides(u: nat, base: nat, negative: bool, spec: Spec, upcase: bool)
    requires base == 10 || base == 16
    ensures var field := NumField(u, base, negative, spec.width, spec.left, spec.pad, upcase);
      var digits, sign := Numeral(u, base, upcase), if negative then "-" else "";
      && (spec.left ==> AtLeft(field, sign + digits, spec.width))
      && (!spec.left && spec.pad == ' ' ==> AtRight(field, sign + digits, spec.width, ' '))
      && (!spec.left && spec.pad == '0' ==>
            sign <= field && AtRight(field[|sign|..], digits, spec.width - |sign|, '0'))
  {
    hide Numeral, AtLeft, AtRight, Repeat;
    var digits, sign := Numeral(u, base, upcase), if negative then "-" else "";
    var missing := spec.width - |sign| - |digits|;
    if spec.left {
      PadAfter(sign + digits, spec.width);
    } else if spec.pad == ' ' {
      PadBefore(sign + digits, spec.width, ' ');
      assert Repeat(' ', missing) + sign + digits == Repeat(' ', missing) + (sign + digits);
    } else if spec.pad == '0' {
      PadBefore(digits, spec.width - |sign|, '0');
      var zeroed := Repeat('0', missing) + digits;
      assert NumField(u, base, negative, spec.width, spec.left, spec.pad, upcase) == sign + zeroed;
      assert (sign + zeroed)[|sign|..] == zeroed;
    }
  }

  // ---- Numeric conversions ----

  /** A field's number with its sign. */
  function ReadSigned(field: string, base: nat): int {
    var (negative, n) := ReadField(field, base);
    if negative then -n else n
  }

  /** `%d` and `%D` print the signed argument in base 10. */
  lemma DecimalMeaning(spec: Spec, c: char, v: int)
    requires c == 'd' || c == 'D'
    requires spec.pad == ' ' || spec.pad == '0'
    requires -0x8000_0000 <= v < 0x8000_0000
    ensures ReadSigned(Directive(spec, c, Int(v)), 10) == v
    ensures Numbered(Directive(spec, c, Int(v)), spec, if v < 0 then "-" else "", "0123456789", v == 0)
  {
    hide ReadField, NumField, Numbered;
    var u: nat := if v < 0 then -v else v;
    FieldRoundTrip(u, 10, v < 0, spec.width, spec.left, spec.pad, false);
    FieldNumbered(u, 10, v < 0, spec, false);
  }

  /** `%u` and `%U` print the argument modulo 2^32 in base 10. */
  lemma UnsignedMeaning(spec: Spec, c: char, v: int)
    requires c == 'u' || c == 'U'
    requires spec.pad == ' ' || spec.pad == '0'
    ensures ReadSigned(Directive(spec, c, Int(v)), 10) == v % 0x1_0000_0000
    ensures Numbered(Directive(spec, c, Int(v)), spec, "", "0123456789", v % 0x1_0000_0000 == 0)
  {
    hide ReadField, NumField, Numbered;
    FieldRoundTrip(v % 0x1_0000_0000, 10, false, spec.width, spec.left, spec.pad, false);
    FieldNumbered(v % 0x1_0000_0000, 10, false, spec, false);
  }

  /** `%x` and `%X` print the argument modulo 2^32 in base 16, with small letters and with
      capitals. */
  lemma HexadecimalMeaning(spec: Spec, c: char, v: int)
    requires c == 'x' || c == 'X'
    requires spec.pad == ' ' || spec.pad == '0'
    ensures ReadSigned(Directive(spec, c, Int(v)), 16) == v % 0x1_0000_0000
    ensures Numbered(Directive(spec, c, Int(v)), spec, "",
                     if c == 'x' then "0123456789abcdef" else "0123456789ABCDEF", v % 0x1_0000_0000 == 0)
  {
    hide ReadField, NumField, Numbered;
    FieldRoundTrip(v % 0x1_0000_0000, 16, false, spec.width, spec.left, spec.pad, c == 'X');
    FieldNumbered(v % 0x1_0000_0000, 16, false, spec, c == 'X');
  }

  /** The field holds `sign` and then digits of `alphabet`, without a leading zero of their
      own, on the side and with the padding that the flags ask for: on the left with
      spaces after them, or on the right with spaces before the sign or zeros after it. */
  ghost predicate Numbered(field: string, spec: Spec, sign: string, alphabet: string, isZero: bool) {
    exists digits: string ::
      && digits != [] && (digits[0] == '0' <==> isZero) && (isZero ==> |digits| == 1)
      && (forall i | 0 <= i < |digits| :: digits[i] in alphabet)
      && (spec.left ==> AtLeft(field, sign + digits, spec.width))
      && (!spec.left && spec.pad == ' ' ==> AtRight(field, sign + digits, spec.width, ' '))
      && (!spec.left && spec.pad == '0' ==>
            sign <= field && AtRight(field[|sign|..], digits, spec.width - |sign|, '0'))
  }

  lemma FieldNumbered(u: nat, base: nat, negative: bool, spec: Spec, upcase: bool)
    requires base == 10 || base == 16
    ensures Numbered(NumField(u, base, negative, spec.width, spec.left, spec.pad, upcase), spec,
                     if negative then "-" else "", Alphabet(base, upcase), u == 0)
  {
    hide Numeral, NumField, AtLeft, AtRight, Alphabet;
    NumeralShape(u, base, upcase);
    NumberSides(u, base, negative, spec, upcase);
    assert |Numeral(u, base, upcase)| > 0;
  }

  // ---- Other conversions ----

  /** `%s` prints its text and `%c` its character, with spaces on the other side. */
  lemma TextMeaning(spec: Spec, text: string, v: int)
    ensures var s, c := Directive(spec, 's', Str(text)), Directive(spec, 'c', Int(v));
      && (spec.left ==> AtLeft(s, text, spec.width) && AtLeft(c, [(v % 256) as char], spec.width))
      && (!spec.left ==> AtRight(s, text, spec.width, ' ') && AtRight(c, [(v % 256) as char], spec.width, ' '))
  {
    hide AtLeft, AtRight, Repeat;
    PadAfter(text, spec.width);
    PadBefore(text, spec.width, ' ');
    PadAfter([(v % 256) as char], spec.width);
    PadBefore([(v % 256) as char], spec.width, ' ');
  }

  /** The conversions are these eleven; any other character prints itself. */
  lemma OthersPrintThemselves(spec: Spec, c: char, arg: Arg)
    requires c !in "bdDoOuUxXcs"
    ensures Directive(spec, c, arg) == [c]
  {
    assert c == 'd' || c == 'D' ==> c in "bdDoOuUxXcs";
    assert c == 'c' || c == 's' ==> c in "bdDoOuUxXcs";
    assert c in NUMERIC ==> c in "bdDoOuUxXcs";
  }

  /** A conversion uses up the first argument; anything else leaves the arguments alone. */
  lemma ArgumentsInOrder(c: char, arg: Arg, rest: seq<Arg>)
    ensures c in "bdDoOuUxXcs" ==> NextArg(c, [arg] + rest) == arg && RestArgs(c, [arg] + rest) == rest
    ensures c !in "bdDoOuUxXcs" ==> RestArgs(c, [arg] + rest) == [arg] + rest
  {
    assert ([arg] + rest)[1..] == rest;
    assert "bdDoOuUxXcs" == NUMERIC + "cs";
  }

  /** Text before a directive, or at the end, is printed as it is. */
  lemma FormatOfText(text: string, rest: string, args: seq<Arg>)
    requires '%' !in text && (rest == [] || rest[0] == '%')
    ensures Format(text + rest, args) == text + Format(rest, args)
  {
    hide Directive, ParseSpec, NextArg, RestArgs;
    TextRunOfText(text, rest);
    TextRunOfText([], rest);
    assert [] + rest == rest;
    if rest == [] {
      assert text + rest == text;
    } else {
      var n := |text|;
      assert (text + rest)[n + 1..] == rest[1..];
      assert (text + rest)[..n] == text && rest[..0] == [];
    }
  }

  /** A width is the number its digits spell. */
  lemma {:induction false} WidthMeaning(s: string)
    requires AllDigits(s)
    ensures DecimalValue(s) == NumeralValue(s, 10)
  {
    if s != [] {
      assert IsDigit(s[|s| - 1]);
      WidthMeaning(s[..|s| - 1]);
    }
  }
}
