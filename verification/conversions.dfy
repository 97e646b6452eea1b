/** The rendering of every conversion specification is what ConversionSpec says it means. */
module Conversions {
  import opened Words
  import opened TextBuffer
  import Digits
  import opened FormatSpec
  import opened FormatDecode
  import opened Number
  import opened PaddedText
  import opened Strtoul
  import opened Render
  import opened StarArgs
  import opened PrecisionArgs
  import PointerText
  import C = ConversionSpec
  import S = StandardNumbers

  // ----- digits -----

  lemma DigitAlphabet(d: nat, small: bool)
    requires d < 16
    ensures Digits.DigitChar(d, small) == (if small then C.LOWER else C.UPPER)[d]
    ensures d < 10 ==> C.LOWER[d] == C.UPPER[d]
  {
  }

  /** The digits of a number, whichever way they are produced, are its numeral in the right case. */
  lemma {:induction false} DigitsAreNumeral(n: u64, base: nat, small: bool)
    requires IsBase(base)
    ensures DigitsText(n, base, small) == C.Numeral(n, base, !small)
    decreases n
  {
    hide DigitsText, Digits.DigitChar;
    DigitsTextStep(n, base, small);
    DigitAlphabet(n % base, small);
    if n < base {
      assert n % base == n;
    } else {
      DigitsAreNumeral(n / base, base, small);
    }
  }

  /** Up to base 10 there is no case. */
  lemma {:induction false} Caseless(n: nat, base: nat, upper: bool)
    requires 2 <= base <= 10
    ensures C.Numeral(n, base, upper) == C.Numeral(n, base, false)
    decreases n
  {
    DigitAlphabet(n % base, false);
    if n < base {
      assert n % base == n;
    } else {
      C.Shorter(n, base);
      Caseless(n / base, base, upper);
    }
  }

  lemma FillIsRepeat(c: char, n: int)
    ensures C.Fill(c, n) == Repeat(c, n)
  {
  }

  /** No letter of the other case. */
  predicate InCase(s: string, upper: bool) {
    forall i | 0 <= i < |s| :: if upper then !('a' <= s[i] <= 'z') else !('A' <= s[i] <= 'Z')
  }

  lemma {:induction false} NumeralCase(v: nat, base: nat, upper: bool)
    requires 2 <= base <= 16
    ensures InCase(C.Numeral(v, base, upper), upper)
    decreases v
  {
    AlphabetCase(v % base, upper);
    if v < base {
      assert v % base == v;
    } else {
      C.Shorter(v, base);
      NumeralCase(v / base, base, upper);
    }
  }

  lemma AlphabetCase(d: nat, upper: bool)
    requires d < 16
    ensures InCase([(if upper then C.UPPER else C.LOWER)[d]], upper)
  {
  }

  /** A number is printed without capitals with the flag for small letters and without small letters
      otherwise, the x of its prefix included. */
  lemma NumberCase(num: u64, spec: Spec)
    requires IsBase(spec.base)
    ensures InCase(NumberText(num, spec), !spec.flags.small)
  {
    hide DigitsText, C.Numeral, Magnitude, Natural;
    var m := Magnitude(num, spec.flags);
    DigitsAreNumeral(m, spec.base, spec.flags.small);
    NumeralCase(m, spec.base, !spec.flags.small);
  }

  /** A pointer is printed without capitals. */
  lemma PointerCase(ptr: u64, spec: Spec)
    ensures InCase(NumberText(ptr, PointerSpec(spec)), false)
  {
    hide NumberText;
    NumberCase(ptr, PointerSpec(spec));
  }

  // ----- flags -----

  /** A flag is on exactly if its character occurs. */
  lemma {:induction false} FlagsMeaning(s: string, fl: Flags)
    requires C.FlagChars(s)
    ensures AllFlags(s)
    ensures FlagsOf(s, fl)
            == Flags(fl.sign, fl.left || '-' in s, fl.plus || '+' in s, fl.space || ' ' in s, fl.zeropad || '0' in s,
                     fl.small, fl.special || '#' in s)
  {
    hide WithFlag;
    if s == "" {
    } else {
      var c, t := s[0], s[1..];
      OneFlag(c, fl);
      assert C.FlagChars(t) by { forall i | 0 <= i < |t| ensures t[i] == s[i + 1] { } }
      FlagsMeaning(t, WithFlag(fl, c));
      forall x: char ensures x in s <==> x == c || x in t { HeadOrTail(s, x); }
    }
  }

  lemma HeadOrTail(s: string, x: char)
    requires s != ""
    ensures x in s <==> x == s[0] || x in s[1..]
  {
    assert s == [s[0]] + s[1..];
  }

  lemma OneFlag(c: char, fl: Flags)
    requires c == '-' || c == '+' || c == ' ' || c == '#' || c == '0'
    ensures IsFlag(c)
    ensures WithFlag(fl, c)
            == Flags(fl.sign, fl.left || c == '-', fl.plus || c == '+', fl.space || c == ' ', fl.zeropad || c == '0',
                     fl.small, fl.special || c == '#')
  {
  }

  /** With no flags before: the flags of a whole flag string. */
  lemma FlagsExactly(s: string)
    requires C.FlagChars(s)
    ensures AllFlags(s)
    ensures FlagsOf(s, NO_FLAGS) == Flags(false, '-' in s, '+' in s, ' ' in s, '0' in s, false, '#' in s)
  {
    FlagsMeaning(s, NO_FLAGS);
  }

  // ----- from the text to the spec -----

  /** The spec before the conversion letter. */
  function Before(flags: string, w: nat, p: int): Spec {
    ZERO_SPEC.(flags := Flags(false, '-' in flags, '+' in flags, ' ' in flags, '0' in flags, false, '#' in flags),
               fieldWidth := if w == 0 then -1 else w, precision := p)
  }

  lemma WidthRead(w: nat)
    requires w < 0x80_0000
    ensures WidthWritten(C.WidthText(w))
    ensures (if C.WidthText(w) == "" then -1 else Wrap24(LeadingValue(C.WidthText(w), 0))) == if w == 0 then -1 else w
  {
    hide LeadingValue, AllDigits, DigitsText;
    if w == 0 {
      assert WidthWritten("") by { NothingWritten(); }
    } else {
      DigitsAreNumeral(w, 10, false);
      Caseless(w, 10, true);
      DecimalRead(w, "");
      LiteralRead(w, "");
      assert Decimal(w) + "" == Decimal(w);
    }
  }

  lemma NothingWritten()
    ensures WidthWritten("")
  {
  }

  lemma BeforeIs(flags: string, w: nat, p: int)
    requires C.FlagChars(flags) && C.InFields(w, p)
    ensures FieldSpec(flags, C.WidthText(w)).(precision := p) == Before(flags, w, p)
  {
    hide LeadingValue, FlagsOf, Wrap24;
    FlagsExactly(flags);
    WidthRead(w);
  }

  /** Nothing that would continue the flags, the width or the precision. */
  predicate Begins(rest: string) {
    rest != "" && !IsDigit(rest[0]) && !IsFlag(rest[0]) && rest[0] != '*' && rest[0] != '.'
  }

  /** A specification up to its length modifier, and any rest. */
  lemma Read(flags: string, w: nat, p: int, rest: string, args: seq<Arg>)
    requires C.FlagChars(flags) && C.InFields(w, p) && Begins(rest)
    ensures Sound(Conversion(rest, Before(flags, w, p)).spec)
    ensures var d := Conversion(rest, Before(flags, w, p));
            Render.Render("%" + (flags + (C.WidthText(w) + (C.PrecisionText(p) + rest))), args)
            == Emit(Directive(d.spec, d.rest, args))
  {
    hide Conversion, Emit, Render.Render, FieldSpec, C.WidthText, C.Numeral, FlagsOf, Before, WidthWritten;
    FlagsExactly(flags);
    WidthRead(w);
    BeforeIs(flags, w, p);
    InBefore(flags, w, p);
    ConversionSound(rest, Before(flags, w, p));
    if p < 0 {
      assert C.PrecisionText(p) + rest == rest;
      NoPrecision(flags, C.WidthText(w), rest, args);
    } else {
      WrittenPrecision(flags, C.WidthText(w), p, rest, args);
    }
  }

  lemma InBefore(flags: string, w: nat, p: int)
    requires C.InFields(w, p)
    ensures InField(Before(flags, w, p))
  {
  }

  lemma NoPrecision(flags: string, width: string, rest: string, args: seq<Arg>)
    requires AllFlags(flags) && WidthWritten(width) && Begins(rest)
    ensures Render.Render("%" + (flags + (width + rest)), args) == WithPrecision(flags, width, -1, rest, args)
  {
    hide Conversion, Emit, Render.Render, FieldSpec, AllFlags, WidthWritten;
    PrecisionArgs.WidthRead(flags, width, rest, args);
  }

  lemma WrittenPrecision(flags: string, width: string, p: nat, rest: string, args: seq<Arg>)
    requires AllFlags(flags) && WidthWritten(width) && p < 0x8000 && Begins(rest)
    ensures Render.Render("%" + (flags + (width + (C.PrecisionText(p) + rest))), args)
            == WithPrecision(flags, width, p, rest, args)
  {
    hide Conversion, Emit, Render.Render, FieldSpec, WithPrecision, Decimal, C.PrecisionText, AllFlags, WidthWritten,
      IntOf, PrecisionOf, FieldPrecision, Wrap16;
    var a := Arg(p, "");
    SmallArgument(p);
    PrecisionIs(p, rest);
    StarPrecision(flags, width, a, rest, args);
    StarText(flags, width, a, rest, args);
  }

  lemma SmallArgument(p: nat)
    requires p < 0x8000
    ensures var a := Arg(p, ""); IntOf(a) == p && PrecisionOf(a) == p && FieldPrecision(a) == p
  {
  }

  lemma PrecisionIs(p: nat, rest: string)
    requires p < 0x8000
    ensures C.PrecisionText(p) + rest == "." + Decimal(p) + rest
  {
    hide DigitsText, C.Numeral;
    DigitsAreNumeral(p, 10, false);
    Caseless(p, 10, true);
  }

  /** A length modifier and a conversion letter. */
  lemma QualifierRead(q: string, c: char, rest: string)
    requires C.Values(q) > 0 && !IsQualifier(c)
    ensures AfterQualifier(q + ([c] + rest)) == [c] + rest
    ensures QualifierOf(q + ([c] + rest))
            == if q == "" then '\0' else if q == "hh" then 'H' else if q == "ll" then 'L' else q[0]
  {
    var f := q + ([c] + rest);
    if q == "hh" || q == "ll" {
      assert f[0] == q[0] && f[1] == q[1] && f[2..] == [c] + rest;
    } else if q == "" {
      assert f == [c] + rest;
    } else {
      assert f[0] == q[0] && f[1] == c && f[1..] == [c] + rest;
    }
  }

  /** The integer type of a conversion. */
  function TypeFor(q: string, signed: bool): FormatType {
    IntegerType(if q == "" then '\0' else if q == "hh" then 'H' else if q == "ll" then 'L' else q[0], signed)
  }

  lemma IntegerRead(q: string, c: char, rest: string, s: Spec)
    requires C.Values(q) > 0 && IsIntegerConversion(c) && !s.flags.sign && !s.flags.small
    ensures var signed := c == 'd' || c == 'i';
            Conversion(q + ([c] + rest), s)
            == Decoded(rest, s.(base := if signed then 10 else C.Base(c), ftype := TypeFor(q, signed),
                                flags := s.flags.(sign := signed, small := c == 'x')))
    ensures IsInteger(TypeFor(q, c == 'd' || c == 'i'))
  {
    hide AfterQualifier, QualifierOf, Converted, IntegerType, C.Values;
    QualifierRead(q, c, rest);
    assert ([c] + rest)[1..] == rest;
    IntegerLetter(c, if q == "" then '\0' else if q == "hh" then 'H' else if q == "ll" then 'L' else q[0], s);
  }

  lemma IntegerLetter(c: char, q: char, s: Spec)
    requires IsIntegerConversion(c) && !s.flags.sign && !s.flags.small
    ensures var signed := c == 'd' || c == 'i';
            Converted(c, q, s) == s.(base := if signed then 10 else C.Base(c), ftype := IntegerType(q, signed),
                                     flags := s.flags.(sign := signed, small := c == 'x'))
    ensures forall b: bool :: IsInteger(IntegerType(q, b))
  {
  }

  /** One conversion that is neither %p nor %%. */
  lemma OneConversion(s: Spec, rest: string, a: Arg, args: seq<Arg>)
    requires Sound(s) && s.ftype != TypeInvalid && s.ftype != TypePtr && s.ftype != TypePercent
    ensures Emit(Directive(s, rest, [a] + args)) == ConversionText(s, a) + Render.Render(rest, args)
  {
    assert Others([a] + args) == args;
  }

  // ----- integers -----

  lemma SignedResidue(word: int, v: int, k: int)
    requires k > 0 && k % 2 == 0 && -k / 2 <= v < k / 2 && (word - v) % k == 0
    ensures (word + k / 2) % k - k / 2 == v
  {
    Divides(word + k / 2, k, (word - v) / k, v + k / 2);
  }

  /** What a type takes from a slot, by its number of values. */
  lemma TypeValue(q: string, a: Arg)
    requires C.Values(q) > 0
    ensures C.Values(q) % 2 == 0
    ensures IntegerOf(TypeFor(q, false), a) == a.word % C.Values(q)
    ensures IntegerOf(TypeFor(q, true), a)
            == Wrap64((a.word + C.Values(q) / 2) % C.Values(q) - C.Values(q) / 2)
  {
    UnsignedType(q, a);
    SignedType(q, a);
    hide C.Values, TypeFor, IntegerOf, Wrap64;
  }

  lemma UnsignedType(q: string, a: Arg)
    requires C.Values(q) > 0
    ensures C.Values(q) % 2 == 0
    ensures IntegerOf(TypeFor(q, false), a) == a.word % C.Values(q)
  {
    WholeWord(a.word);
    hide Wrap64;
  }

  lemma SignedType(q: string, a: Arg)
    requires C.Values(q) > 0
    ensures IntegerOf(TypeFor(q, true), a)
            == Wrap64((a.word + C.Values(q) / 2) % C.Values(q) - C.Values(q) / 2)
  {
    hide Wrap64;
    WholeWord(a.word);
  }

  lemma WholeWord(n: u64)
    ensures n % TWO64 == n
    ensures Wrap64((n + TWO64 / 2) % TWO64 - TWO64 / 2) == n
  {
    var h := TWO64 / 2;
    if n < h {
      Divides(n + h, TWO64, 0, n + h);
      NoWrap(n);
    } else {
      Divides(n + h, TWO64, 1, n - h);
      Divides(n - TWO64, TWO64, -1, n);
    }
  }

  lemma WrapSigned(q: string, v: int)
    requires C.Values(q) > 0 && -C.Values(q) / 2 <= v < C.Values(q) / 2
    ensures Wrap64(v) == if v < 0 then v + TWO64 else v
  {
    LengthBounds(q, v);
    if v < 0 { Divides(v, TWO64, -1, v + TWO64); } else { NoWrap(v); }
  }

  /** The value a type takes from its argument slot: the one of its range congruent to the slot. */
  lemma SignedValue(q: string, a: Arg, v: int)
    requires C.Values(q) > 0 && -C.Values(q) / 2 <= v < C.Values(q) / 2 && (a.word - v) % C.Values(q) == 0
    ensures IntegerOf(TypeFor(q, true), a) == if v < 0 then v + TWO64 else v
  {
    hide Wrap64, C.Values, TypeFor, IntegerOf;
    TypeValue(q, a);
    SignedResidue(a.word, v, C.Values(q));
    WrapSigned(q, v);
  }

  lemma UnsignedValue(q: string, a: Arg, v: int)
    requires C.Values(q) > 0 && 0 <= v < C.Values(q) && (a.word - v) % C.Values(q) == 0
    ensures IntegerOf(TypeFor(q, false), a) == v
  {
    hide C.Values, TypeFor, IntegerOf;
    Divides(a.word, C.Values(q), (a.word - v) / C.Values(q), v);
    TypeValue(q, a);
  }

  /** The layout number() gives, in terms of sign, prefix and digits. */
  lemma Layout(n: u64, s: Spec, flags: string, w: nat, p: int, sign: string, prefix: string)
    requires IsBase(s.base) && s.precision == p && (s.fieldWidth == w || (w == 0 && s.fieldWidth == -1))
    requires s.flags.left == ('-' in flags) && s.flags.zeropad == ('0' in flags)
    requires SignText(n, s.flags) == sign && PrefixText(n, s) == prefix
    ensures NumberText(n, s)
            == C.NumberField(flags, w, sign, prefix, C.Digits(Magnitude(n, s.flags), s.base, !s.flags.small, p))
  {
    hide SignText, PrefixText, Magnitude, DigitsText, C.Numeral, Digits.Lsb, LeadText, Repeat, C.Fill, Natural,
      NumberText, C.Digits, C.NumberField;
    var m := Magnitude(n, s.flags);
    var d := DigitsText(m, s.base, s.flags.small);
    NaturalLength(n, s, p);
    LeadIs(n, s, s.fieldWidth - Natural(n, s), sign, prefix);
    BodyIs(m, s.base, s.flags.small, p);
    NumberTextIs(n, s);
    Joined(flags, s.fieldWidth, w, sign, prefix, Repeat('0', p - |d|), d);
  }

  lemma BodyIs(m: u64, base: nat, small: bool, p: int)
    requires IsBase(base)
    ensures var d := DigitsText(m, base, small);
            C.Digits(m, base, !small, p) == Repeat('0', p - |d|) + d
  {
    hide DigitsText, C.Numeral, Repeat, C.Fill;
    DigitsAreNumeral(m, base, small);
    FillIsRepeat('0', p - |DigitsText(m, base, small)|);
  }

  lemma NumberTextIs(n: u64, s: Spec)
    requires IsBase(s.base)
    ensures var room := s.fieldWidth - Natural(n, s);
            var d := DigitsText(Magnitude(n, s.flags), s.base, s.flags.small);
            NumberText(n, s) == LeadText(n, s, room) + Repeat('0', s.precision - |d|) + d
                                + Repeat(' ', if s.flags.left then room else 0)
  {
    hide LeadText, Natural, Magnitude, DigitsText, Repeat;
  }

  lemma NaturalLength(n: u64, s: Spec, p: int)
    requires IsBase(s.base) && s.precision == p
    ensures var d := DigitsText(Magnitude(n, s.flags), s.base, s.flags.small);
            |d| >= 1
            && Natural(n, s) == |SignText(n, s.flags)| + |PrefixText(n, s)| + |Repeat('0', p - |d|)| + |d|
  {
    hide SignText, PrefixText, Magnitude, Digits.Lsb;
  }

  lemma LeadIs(n: u64, s: Spec, room: int, sign: string, prefix: string)
    requires SignText(n, s.flags) == sign && PrefixText(n, s) == prefix
    ensures LeadText(n, s, room)
            == Repeat(' ', if s.flags.left || s.flags.zeropad then 0 else room - 1) + sign + prefix
               + Repeat('0', if s.flags.zeropad && !s.flags.left then room else 0)
  {
    hide SignText, PrefixText, Repeat;
  }

  /** The pieces of the two layouts agree; a missing width leaves no room. */
  lemma Joined(flags: string, width: int, w: nat, sign: string, prefix: string, zeros: string, d: string)
    requires (width == w || (w == 0 && width == -1)) && |d| >= 1
    ensures var room := width - (|sign| + |prefix| + |zeros| + |d|);
            var left, zero := '-' in flags, '0' in flags;
            Repeat(' ', if left || zero then 0 else room - 1) + sign + prefix
            + Repeat('0', if zero && !left then room else 0) + zeros + d + Repeat(' ', if left then room else 0)
            == C.NumberField(flags, w, sign, prefix, zeros + d)
  {
    var room := width - (|sign| + |prefix| + |zeros| + |d|);
    var r := w - |sign| - |prefix| - |zeros + d|;
    hide C.Fill, Repeat;
    FillIsRepeat(' ', r);
    FillIsRepeat('0', r);
    FillIsRepeat(' ', r - 1);
    SameRepeat(' ', room, r);
    SameRepeat('0', room, r);
    SameRepeat(' ', room - 1, r - 1);
    NothingRepeated(' ', 0);
    NothingRepeated('0', 0);
    Joins(Repeat(' ', r), Repeat('0', r), Repeat(' ', r - 1), sign, prefix, zeros, d);
  }

  lemma Joins(after: string, fill: string, before: string, sign: string, prefix: string, zeros: string, d: string)
    ensures "" + sign + prefix + "" + zeros + d + after == sign + prefix + (zeros + d) + after
    ensures "" + sign + prefix + fill + zeros + d + "" == sign + prefix + fill + (zeros + d)
    ensures before + sign + prefix + "" + zeros + d + "" == before + sign + prefix + (zeros + d)
  {
  }

  // ----- the conversions -----

  lemma Regroup(flags: string, width: string, precision: string, q: string, c: char, rest: string)
    ensures "%" + flags + width + precision + q + [c] + rest
            == "%" + (flags + (width + (precision + (q + ([c] + rest)))))
  {
    var r := [c] + rest;
    var s := q + r;
    var t := precision + s;
    var u := width + t;
    assert "%" + flags + width + precision + q + [c] + rest == "%" + flags + width + precision + q + r;
    assert "%" + flags + width + precision + q + r == "%" + flags + width + precision + s;
    assert "%" + flags + width + precision + s == "%" + flags + width + t;
    assert "%" + flags + width + t == "%" + flags + u;
    assert "%" + flags + u == "%" + (flags + u);
  }

  /** A whole specification, read up to its conversion letter. */
  lemma Specified(flags: string, w: nat, p: int, q: string, c: char, rest: string, args: seq<Arg>)
    requires C.FlagChars(flags) && C.InFields(w, p) && C.Values(q) > 0
    requires !IsQualifier(c) && Begins([c])
    ensures var d := Conversion(q + ([c] + rest), Before(flags, w, p));
            Sound(d.spec) && Render.Render(C.Specification(flags, w, p, q, c) + rest, args)
                             == Emit(Directive(d.spec, d.rest, args))
  {
    var r := q + ([c] + rest);
    assert Begins(r) by { BeginsQualified(q, c, rest); }
    hide Conversion, Emit, Render.Render, Before, C.WidthText, C.PrecisionText, Begins, C.FlagChars, C.Values;
    Regroup(flags, C.WidthText(w), C.PrecisionText(p), q, c, rest);
    Read(flags, w, p, r, args);
  }

  lemma BeginsQualified(q: string, c: char, rest: string)
    requires C.Values(q) > 0 && Begins([c])
    ensures Begins(q + ([c] + rest))
  {
    if q == "" {
      assert (q + ([c] + rest))[0] == c;
    } else {
      assert (q + ([c] + rest))[0] == q[0];
    }
  }

  /** %d and %i, with any flags, width, precision and length, print the integer of that length that the
      argument is congruent to. */
  lemma SignedConversion(flags: string, w: nat, p: int, q: string, c: char, a: Arg, v: int, rest: string,
                         args: seq<Arg>)
    requires C.FlagChars(flags) && C.InFields(w, p) && C.Values(q) > 0 && (c == 'd' || c == 'i')
    requires -C.Values(q) / 2 <= v < C.Values(q) / 2 && (a.word - v) % C.Values(q) == 0
    ensures Render.Render(C.Specification(flags, w, p, q, c) + rest, [a] + args)
            == C.SignedText(flags, w, p, v) + Render.Render(rest, args)
  {
    hide Conversion, Emit, Render.Render, C.Specification, C.NumberField, C.Digits, C.FlagChars, C.Values, NumberText,
      TypeFor, IntegerOf;
    Specified(flags, w, p, q, c, rest, [a] + args);
    IntegerRead(q, c, rest, Before(flags, w, p));
    var s := Conversion(q + ([c] + rest), Before(flags, w, p)).spec;
    OneConversion(s, rest, a, args);
    SignedValue(q, a, v);
    LengthBounds(q, v);
    var n := if v < 0 then v + TWO64 else v;
    SignedParts(n, s.flags, v);
    assert PrefixText(n, s) == "";
    Layout(n, s, flags, w, p, SignText(n, s.flags), "");
    CaselessDigits(if v < 0 then -v else v, 10, p);
  }

  lemma LengthBounds(q: string, v: int)
    requires C.Values(q) > 0 && -C.Values(q) / 2 <= v < C.Values(q) / 2
    ensures -0x8000_0000_0000_0000 <= v < 0x8000_0000_0000_0000
  {
  }

  lemma SignedParts(n: u64, f: Flags, v: int)
    requires f.sign && -0x8000_0000_0000_0000 <= v < 0x8000_0000_0000_0000
    requires n == if v < 0 then v + TWO64 else v
    ensures SignText(n, f) == if v < 0 then "-" else if f.plus then "+" else if f.space then " " else ""
    ensures Magnitude(n, f) == if v < 0 then -v else v
  {
    if v < 0 { Divides(-(n as int), TWO64, -1, -v); }
  }

  /** %u, %o, %x and %X likewise, of the non-negative number of that length. */
  lemma UnsignedConversion(flags: string, w: nat, p: int, q: string, c: char, a: Arg, v: int, rest: string,
                           args: seq<Arg>)
    requires C.FlagChars(flags) && C.InFields(w, p) && C.Values(q) > 0
    requires c == 'u' || c == 'o' || c == 'x' || c == 'X'
    requires 0 <= v < C.Values(q) && (a.word - v) % C.Values(q) == 0
    ensures Render.Render(C.Specification(flags, w, p, q, c) + rest, [a] + args)
            == C.UnsignedText(flags, w, p, c, v) + Render.Render(rest, args)
  {
    hide Conversion, Emit, Render.Render, C.Specification, C.NumberField, C.Digits, C.FlagChars, C.Values, NumberText,
      TypeFor, IntegerOf;
    Specified(flags, w, p, q, c, rest, [a] + args);
    IntegerRead(q, c, rest, Before(flags, w, p));
    var s := Conversion(q + ([c] + rest), Before(flags, w, p)).spec;
    OneConversion(s, rest, a, args);
    UnsignedValue(q, a, v);
    UnsignedBound(q, v);
    assert Magnitude(v, s.flags) == v && SignText(v, s.flags) == "";
    Layout(v, s, flags, w, p, "", PrefixText(v, s));
    if c == 'u' || c == 'o' { CaselessDigits(v, C.Base(c), p); }
  }

  lemma CaselessDigits(v: nat, base: nat, p: int)
    requires 2 <= base <= 10
    ensures C.Digits(v, base, true, p) == C.Digits(v, base, false, p)
  {
    hide C.Numeral;
    Caseless(v, base, true);
  }

  lemma UnsignedBound(q: string, v: int)
    requires C.Values(q) > 0 && v < C.Values(q)
    ensures v < TWO64
  {
  }

  /** A letter after an optional length modifier. */
  lemma LetterRead(q: string, c: char, rest: string, s: Spec)
    requires C.Values(q) > 0 && !IsQualifier(c)
    ensures var k := if q == "" then '\0' else if q == "hh" then 'H' else if q == "ll" then 'L' else q[0];
            var t := Converted(c, k, s);
            Conversion(q + ([c] + rest), s) == Decoded(if t.ftype == TypeInvalid then [c] + rest else rest, t)
  {
    hide AfterQualifier, QualifierOf, Converted, C.Values;
    QualifierRead(q, c, rest);
    assert ([c] + rest)[1..] == rest;
  }

  /** %% prints one '%' and takes no argument. */
  lemma PercentConversion(flags: string, w: nat, p: int, q: string, rest: string, args: seq<Arg>)
    requires C.FlagChars(flags) && C.InFields(w, p) && C.Values(q) > 0
    ensures Render.Render(C.Specification(flags, w, p, q, '%') + rest, args) == "%" + Render.Render(rest, args)
  {
    hide Conversion, Emit, Render.Render, C.Specification, C.FlagChars, C.Values, Before;
    Specified(flags, w, p, q, '%', rest, args);
    LetterRead(q, '%', rest, Before(flags, w, p));
    var s := Conversion(q + (['%'] + rest), Before(flags, w, p)).spec;
    OnePercent(s, rest, args);
  }

  lemma OnePercent(s: Spec, rest: string, args: seq<Arg>)
    requires Sound(s) && s.ftype == TypePercent
    ensures Emit(Directive(s, rest, args)) == "%" + Render.Render(rest, args)
  {
  }

  /** %c prints the byte its argument is congruent to, in a field of exactly the width. */
  lemma CharConversion(flags: string, w: nat, p: int, q: string, a: Arg, b: int, rest: string, args: seq<Arg>)
    requires C.FlagChars(flags) && C.InFields(w, p) && C.Values(q) > 0
    requires 0 <= b < 256 && (a.word - b) % 256 == 0
    ensures Render.Render(C.Specification(flags, w, p, q, 'c') + rest, [a] + args)
            == C.TextField(flags, w, [b as char]) + Render.Render(rest, args)
  {
    hide Conversion, Emit, Render.Render, C.Specification, C.FlagChars, C.Values, C.TextField, CharText, ConversionText;
    Specified(flags, w, p, q, 'c', rest, [a] + args);
    LetterRead(q, 'c', rest, Before(flags, w, p));
    var s := Conversion(q + (['c'] + rest), Before(flags, w, p)).spec;
    OneConversion(s, rest, a, args);
    CharField(flags, w, s, a, b);
  }

  lemma CharField(flags: string, w: nat, s: Spec, a: Arg, b: int)
    requires Sound(s) && s.ftype == TypeChar && 0 <= b < 256 && (a.word - b) % 256 == 0
    requires w < 0x80_0000 && s.fieldWidth == (if w == 0 then -1 else w) && s.flags.left == ('-' in flags)
    ensures ConversionText(s, a) == C.TextField(flags, w, [b as char])
  {
    Divides(a.word, 256, (a.word - b) / 256, b);
    hide CharText, C.Fill, Repeat;
    CharTextOrdinary(b as char, s);
    FillIsRepeat(' ', w - 1);
    SameRepeat(' ', s.fieldWidth - 1, w - 1);
  }

  /** %s prints as much of its argument as the precision lets through, in a field of exactly the width. */
  lemma StringConversion(flags: string, w: nat, p: int, q: string, a: Arg, rest: string, args: seq<Arg>)
    requires C.FlagChars(flags) && C.InFields(w, p) && C.Values(q) > 0
    ensures Render.Render(C.Specification(flags, w, p, q, 's') + rest, [a] + args)
            == C.StringField(flags, w, p, a.text) + Render.Render(rest, args)
  {
    hide Conversion, Emit, Render.Render, C.Specification, C.FlagChars, C.Values, C.StringField, StringText,
      ConversionText;
    Specified(flags, w, p, q, 's', rest, [a] + args);
    LetterRead(q, 's', rest, Before(flags, w, p));
    var s := Conversion(q + (['s'] + rest), Before(flags, w, p)).spec;
    OneConversion(s, rest, a, args);
    StringIs(flags, w, p, s, a);
  }

  lemma StringIs(flags: string, w: nat, p: int, s: Spec, a: Arg)
    requires Sound(s) && s.ftype == TypeStr && s.precision == p && s.flags.left == ('-' in flags)
    requires s.fieldWidth == if w == 0 then -1 else w
    ensures ConversionText(s, a) == C.StringField(flags, w, p, a.text)
  {
    hide C.Fill, Repeat;
    var v := Visible(a.text, p);
    FillIsRepeat(' ', w - |v|);
    SameRepeat(' ', s.fieldWidth - |v|, w - |v|);
  }

  /** %p prints its argument as a pointer and swallows the letters and digits that follow. */
  lemma PointerConversion(flags: string, w: nat, p: int, q: string, a: Arg, rest: string, args: seq<Arg>)
    requires C.FlagChars(flags) && C.InFields(w, p) && C.Values(q) > 0
    ensures Render.Render(C.Specification(flags, w, p, q, 'p') + rest, [a] + args)
            == C.PointerText(flags, w, p, a.word) + Render.Render(AfterAlnum(rest), args)
  {
    hide Conversion, Emit, Render.Render, C.Specification, C.FlagChars, C.Values, C.PointerText, NumberText,
      PointerSpec;
    Specified(flags, w, p, q, 'p', rest, [a] + args);
    LetterRead(q, 'p', rest, Before(flags, w, p));
    var s := Conversion(q + (['p'] + rest), Before(flags, w, p)).spec;
    OnePointer(s, rest, a, args);
    PointerIs(flags, w, p, s, a);
  }

  lemma OnePointer(s: Spec, rest: string, a: Arg, args: seq<Arg>)
    requires Sound(s) && s.ftype == TypePtr
    ensures Emit(Directive(s, rest, [a] + args))
            == NumberText(a.word, PointerSpec(s)) + Render.Render(AfterAlnum(rest), args)
  {
    hide NumberText, PointerSpec;
    assert Others([a] + args) == args;
  }

  lemma PointerIs(flags: string, w: nat, p: int, s: Spec, a: Arg)
    requires C.InFields(w, p) && s.ftype == TypePtr && s == Before(flags, w, p).(base := 10, ftype := TypePtr)
    ensures NumberText(a.word, PointerSpec(s)) == C.PointerText(flags, w, p, a.word)
  {
    hide NumberText, C.NumberField, C.Digits;
    var t := PointerSpec(s);
    var f := if w == 0 then flags + "0" else flags;
    assert '-' in f <==> '-' in flags;
    assert '0' in f <==> w == 0 || '0' in flags;
    assert SignText(a.word, t.flags) == "" && Magnitude(a.word, t.flags) == a.word;
    Layout(a.word, t, f, if w == 0 then 16 else w, p, "", PrefixText(a.word, t));
  }

  /** Any other character ends the output, unless it continues the flags, the width, the precision or the
      length modifier. */
  lemma UnknownConversion(flags: string, w: nat, p: int, q: string, c: char, rest: string, args: seq<Arg>)
    requires C.FlagChars(flags) && C.InFields(w, p) && C.Values(q) > 0 && Begins([c])
    requires !C.IsLetter(c) && !IsQualifier(c)
    ensures Render.Render(C.Specification(flags, w, p, q, c) + rest, args) == ""
  {
    NotALetter(c, Before(flags, w, p));
    hide Conversion, Emit, Render.Render, C.Specification, C.FlagChars, C.Values, Before, Converted, Begins;
    Specified(flags, w, p, q, c, rest, args);
    LetterRead(q, c, rest, Before(flags, w, p));
    EmitInvalid(Directive(Conversion(q + ([c] + rest), Before(flags, w, p)).spec, [c] + rest, args));
  }

  lemma NotALetter(c: char, s: Spec)
    requires !C.IsLetter(c)
    ensures forall k: char :: Converted(c, k, s).ftype == TypeInvalid
  {
  }

  /** Text without a '%' prints as it stands. */
  lemma {:induction false} PlainText(f: string, args: seq<Arg>)
    requires '%' !in f
    ensures Render.Render(f, args) == f
  {
    hide Emit, DirectiveAt;
    if f == "" {
    } else {
      assert f[0] in f && forall c | c in f[1..] :: c in f;
      PlainText(f[1..], args);
      assert f == [f[0]] + f[1..];
    }
  }

  /** %td prints the 64-bit value of its argument, which the standard asks for, exactly if it fits 32 bits. */
  lemma PtrdiffExactly(a: Arg, v: int, args: seq<Arg>)
    requires -0x8000_0000_0000_0000 <= v < 0x8000_0000_0000_0000 && (a.word - v) % TWO64 == 0
    ensures Render.Render(C.Specification("", 0, -1, "t", 'd'), [a] + args) == C.SignedText("", 0, -1, v)
            <==> -0x8000_0000 <= v < 0x8000_0000
  {
    hide C.Specification, C.SignedText, Render.Render;
    var u := (v + 0x8000_0000) % 0x1_0000_0000 - 0x8000_0000;
    LowWord(a.word, v);
    assert C.FlagChars("") && C.InFields(0, -1) && C.Values("t") == 0x1_0000_0000;
    SignedConversion("", 0, -1, "t", 'd', a, u, "", args);
    assert Render.Render("", args) == "" by { RenderNothing(args); }
    Whole(C.Specification("", 0, -1, "t", 'd'), C.SignedText("", 0, -1, u));
    if u != v && C.SignedText("", 0, -1, u) == C.SignedText("", 0, -1, v) { S.SignedInjective(u, v); }
  }

  lemma Whole(s: string, t: string)
    ensures s + "" == s && t + "" == t
  {
  }

  lemma RenderNothing(args: seq<Arg>)
    ensures Render.Render("", args) == ""
  {
  }

  lemma LowWord(word: u64, v: int)
    requires -0x8000_0000_0000_0000 <= v < 0x8000_0000_0000_0000 && (word - v) % TWO64 == 0
    ensures var u := (v + 0x8000_0000) % 0x1_0000_0000 - 0x8000_0000;
            && -0x8000_0000 <= u < 0x8000_0000 && (word - u) % 0x1_0000_0000 == 0
            && (u == v <==> -0x8000_0000 <= v < 0x8000_0000)
  {
    var k := (word - v) / TWO64;
    var q, r := (v + 0x8000_0000) / 0x1_0000_0000, (v + 0x8000_0000) % 0x1_0000_0000;
    Divides(word - (r - 0x8000_0000), 0x1_0000_0000, 0x1_0000_0000 * k + q, 0);
  }

  /** A period with nothing behind it counts as no precision. */
  lemma BarePeriod(flags: string, w: nat, rest: string, args: seq<Arg>)
    requires C.FlagChars(flags) && w < 0x80_0000 && Begins(rest)
    ensures Render.Render("%" + (flags + (C.WidthText(w) + ("." + rest))), args)
            == Render.Render("%" + (flags + (C.WidthText(w) + rest)), args)
  {
    hide Conversion, Emit, Render.Render, FieldSpec, C.WidthText, WidthWritten, DirectivePrecision, FlagsOf;
    FlagsExactly(flags);
    WidthRead(w);
    PrecisionArgs.WidthRead(flags, C.WidthText(w), "." + rest, args);
    PrecisionArgs.WidthRead(flags, C.WidthText(w), rest, args);
    PeriodIgnored(rest, args, FieldSpec(flags, C.WidthText(w)));
  }

  lemma PeriodIgnored(rest: string, args: seq<Arg>, s: Spec)
    requires InField(s) && Begins(rest)
    ensures DirectivePrecision("." + rest, args, s) == DirectivePrecision(rest, args, s)
  {
    hide Conversion;
    assert ("." + rest)[1] == rest[0] && ("." + rest)[1..] == rest;
  }

  /** The standard takes a bare period as precision zero. For %s the two agree exactly if the field hides
      that the text is cut off. */
  lemma BarePeriodString(flags: string, w: nat, a: Arg, rest: string, args: seq<Arg>)
    requires C.FlagChars(flags) && w < 0x80_0000
    ensures Render.Render("%" + (flags + (C.WidthText(w) + ("." + ("s" + rest)))), [a] + args)
            == Render.Render(C.Specification(flags, w, 0, "", 's') + rest, [a] + args)
            <==> CutHidden(a.text, 0, w, '-' in flags)
  {
    hide Render.Render, C.WidthText, C.PrecisionText, C.StringField, CutHidden, C.FlagChars;
    assert Begins("s" + rest) && C.Values("") > 0;
    BarePeriod(flags, w, "s" + rest, [a] + args);
    StringConversion(flags, w, -1, "", a, rest, args);
    StringConversion(flags, w, 0, "", a, rest, args);
    Regroup(flags, C.WidthText(w), "", "", 's', rest);
    assert C.PrecisionText(-1) == "" by { NoPrecisionText(); }
    assert "" + (['s'] + rest) == "s" + rest && "" + ("s" + rest) == "s" + rest;
    CutField(flags, w, a.text);
    SameHead(C.StringField(flags, w, -1, a.text), C.StringField(flags, w, 0, a.text), Render.Render(rest, args));
  }

  /** For numbers precision zero is no precision. */
  lemma PeriodNumbers(flags: string, w: nat, c: char, v: int)
    requires c == 'u' || c == 'o' || c == 'x' || c == 'X'
    ensures C.SignedText(flags, w, -1, v) == C.SignedText(flags, w, 0, v)
    ensures v >= 0 ==> C.UnsignedText(flags, w, -1, c, v) == C.UnsignedText(flags, w, 0, c, v)
  {
    hide C.Numeral, C.NumberField;
    assert forall n: nat, b: nat, u: bool | 2 <= b <= 16 :: C.Digits(n, b, u, -1) == C.Digits(n, b, u, 0);
  }

  lemma NoPrecisionText()
    ensures C.PrecisionText(-1) == ""
  {
  }

  lemma CutField(flags: string, w: nat, t: string)
    ensures C.StringField(flags, w, -1, t) == C.StringField(flags, w, 0, t) <==> CutHidden(t, 0, w, '-' in flags)
  {
    FieldIs(flags, w, t);
    FieldIs(flags, w, t[..0]);
    hide C.TextField, InFieldText, AllBlank;
    if |t| > 0 {
      CutLeft(t, 0, w);
      CutRight(t, 0, w);
      assert t[0..] == t;
    }
  }

  lemma FieldIs(flags: string, w: nat, v: string)
    ensures C.TextField(flags, w, v) == InFieldText(v, w, '-' in flags)
  {
    hide C.Fill, Repeat;
    FillIsRepeat(' ', w - |v|);
  }
}
