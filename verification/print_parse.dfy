/** The integer conversions from end to end: from the format to the text, and back through strtoul. */
module PrintParse {
  import opened Words
  import opened TextBuffer
  import opened FormatSpec
  import opened FormatDecode
  import opened Number
  import opened Strtoul
  import opened StarArgs
  import opened Render

  predicate IsUnsigned(c: char) { c == 'o' || c == 'u' || c == 'x' || c == 'X' }

  function BaseOf(c: char): nat {
    if c == 'o' then 8 else if c == 'x' || c == 'X' then 16 else 10
  }

  /** The spec of a long conversion without width or precision. */
  function LongSpec(c: char, special: bool): Spec {
    var sign := c == 'd' || c == 'i';
    Spec(if sign then TypeLong else TypeULong, -1, NO_FLAGS.(sign := sign, small := c == 'x', special := special),
         BaseOf(c), -1)
  }

  lemma LongFlags(special: bool)
    ensures var flags := if special then "#" else "";
            AllFlags(flags) && FlagsOf(flags, NO_FLAGS) == NO_FLAGS.(special := special)
  {
    assert "#"[1..] == "";
  }

  lemma LongConversion(c: char, s: Spec)
    requires IsIntegerConversion(c) && !s.flags.sign && !s.flags.small
    ensures var sign := c == 'd' || c == 'i';
            Conversion("l" + [c], s)
            == Decoded("", s.(base := BaseOf(c), flags := s.flags.(sign := sign, small := c == 'x'),
                              ftype := if sign then TypeLong else TypeULong))
  {
    assert ("l" + [c])[1..] == [c] && [c][1..] == "";
  }

  lemma LongDirective(c: char, special: bool, args: seq<Arg>)
    requires IsIntegerConversion(c)
    ensures DirectiveAt((if special then "#l" else "l") + [c], args) == Directive(LongSpec(c, special), "", args)
  {
    hide Conversion, FlagsOf, AfterFlags, Converted;
    var flags, g := if special then "#" else "", "l" + [c];
    LongFlags(special);
    FlagsSkipped(flags, g, NO_FLAGS);
    assert flags + g == (if special then "#l" else "l") + [c];
    LongConversion(c, ZERO_SPEC.(flags := NO_FLAGS.(special := special), fieldWidth := -1, precision := -1));
  }

  /** One long conversion by itself prints its number. */
  lemma LongText(n: u64, c: char, special: bool)
    requires IsIntegerConversion(c)
    ensures IsBase(BaseOf(c))
    ensures Render.Render("%" + ((if special then "#l" else "l") + [c]), [Arg(n, "")])
            == NumberText(n, LongSpec(c, special))
  {
    hide DirectiveAt, NumberText;
    var args := [Arg(n, "")];
    LongDirective(c, special, args);
    RenderDirective((if special then "#l" else "l") + [c], args);
    assert Render.Render("", Others(args)) == "";
    assert NumberText(n, LongSpec(c, special)) + "" == NumberText(n, LongSpec(c, special));
  }

  /** What %lo, %lu, %lx and %lX print, with or without '#', strtoul reads back to the last character. */
  lemma PrintThenParse(n: u64, c: char, special: bool)
    requires IsUnsigned(c)
    ensures var text := Render.Render("%" + ((if special then "#l" else "l") + [c]), [Arg(n, "")]);
            Parsed(text, BaseOf(c)) == (n, |text|)
  {
    hide Parsed, NumberText, Natural;
    LongText(n, c, special);
    RoundTrip(n, LongSpec(c, special));
    NothingPadded(n, LongSpec(c, special));
  }

  lemma NothingPadded(n: u64, spec: Spec)
    requires IsBase(spec.base) && spec.fieldWidth == -1
    ensures SignText(n, spec.flags) == "" ==> Clean(n, spec)
    ensures TrailingBlanks(n, spec) == 0
  {
  }

  /** Without width, precision and prefix a number is its sign and its digits. */
  lemma BareNumber(n: u64, spec: Spec)
    requires IsBase(spec.base) && spec.fieldWidth == -1 && spec.precision == -1 && !spec.flags.special
    ensures NumberText(n, spec)
            == SignText(n, spec.flags) + DigitsText(Magnitude(n, spec.flags), spec.base, spec.flags.small)
  {
    hide DigitsText, SignText, Magnitude, Repeat;
    var room := spec.fieldWidth - Natural(n, spec);
    NothingRepeated(' ', room - 1);
    NothingRepeated(' ', room);
    NothingRepeated(' ', 0);
    NothingRepeated('0', room);
    NothingRepeated('0', 0);
    NothingRepeated('0', spec.precision - |DigitsText(Magnitude(n, spec.flags), spec.base, spec.flags.small)|);
  }

  lemma SignedParts(n: u64, f: Flags)
    requires f.sign && !f.plus && !f.space
    ensures SignText(n, f) == if n < 0x8000_0000_0000_0000 then "" else "-"
    ensures Magnitude(n, f) == if n < 0x8000_0000_0000_0000 then n else TWO64 - n
  {
    if n >= 0x8000_0000_0000_0000 { Divides(-(n as int), TWO64, -1, TWO64 - n); }
  }

  /** %ld prints the two's-complement value of its argument: a minus sign exactly for the upper half,
      and then the digits of the absolute value. */
  lemma SignedDecimal(n: u64)
    ensures Render.Render("%ld", [Arg(n, "")])
            == if n < 0x8000_0000_0000_0000 then Decimal(n) else "-" + Decimal(TWO64 - n)
  {
    hide DigitsText, Render.Render, NumberText, Magnitude, SignText;
    assert "%ld" == "%" + ("l" + ['d']);
    LongText(n, 'd', false);
    var spec := LongSpec('d', false);
    BareNumber(n, spec);
    SignedParts(n, spec.flags);
  }
}
