/** '*' in a conversion specification: the argument stands for its decimal text. */
module StarArgs {
  import opened Words
  import opened Digits
  import opened FormatSpec
  import opened FormatDecode
  import opened Number
  import opened Strtoul
  import opened Render

  /** The decimal text of a number. */
  function Decimal(n: u64): string {
    DigitsText(n, 10, false)
  }

  predicate AllDigits(s: string) {
    forall c | c in s :: IsDigit(c)
  }

  predicate AllFlags(s: string) {
    forall c | c in s :: IsFlag(c)
  }

  predicate NoDigitFirst(s: string) {
    s == "" || !IsDigit(s[0])
  }

  lemma DecimalDigit(d: nat, rest: string, v: nat)
    requires d < 10
    ensures var c := DigitChar(d, false);
      && IsDigit(c) && (d > 0 ==> !IsFlag(c))
      && LeadingValue([c] + rest, v) == LeadingValue(rest, v * 10 + d)
  {
    assert ([DigitChar(d, false)] + rest)[1..] == rest;
  }

  /** The decimal text is read back digit by digit. */
  lemma {:induction false} DecimalRead(n: u64, rest: string)
    ensures AllDigits(Decimal(n)) && Decimal(n) != ""
    ensures LeadingValue(Decimal(n) + rest, 0) == LeadingValue(rest, n)
    ensures n > 0 ==> !IsFlag(Decimal(n)[0])
    decreases n
  {
    hide DigitsText, DigitChar, LeadingValue;
    DigitsTextStep(n, 10, false);
    var c := DigitChar(n % 10, false);
    if n < 10 {
      DecimalDigit(n, rest, 0);
      assert Decimal(n) == [c];
    } else {
      DecimalDigit(n % 10, rest, n / 10);
      DecimalRead(n / 10, [c] + rest);
      assert Decimal(n) + rest == Decimal(n / 10) + ([c] + rest);
    }
  }

  lemma {:induction false} DigitsSkipped(s: string, rest: string)
    requires AllDigits(s) && NoDigitFirst(rest)
    ensures AfterDigits(s + rest) == rest
  {
    if s == "" {
      assert "" + rest == rest;
    } else {
      assert s[0] in s && forall c | c in s[1..] :: c in s;
      assert (s + rest)[1..] == s[1..] + rest;
      DigitsSkipped(s[1..], rest);
    }
  }

  /** A number literal in a format, before something that is not a digit. */
  lemma LiteralRead(n: u64, rest: string)
    requires NoDigitFirst(rest)
    ensures Decimal(n) != "" && IsDigit(Decimal(n)[0]) && (n > 0 ==> !IsFlag(Decimal(n)[0]))
    ensures LeadingValue(Decimal(n) + rest, 0) == n
    ensures AfterDigits(Decimal(n) + rest) == rest
  {
    hide Decimal;
    DecimalRead(n, rest);
    DigitsSkipped(Decimal(n), rest);
    assert Decimal(n)[0] in Decimal(n);
  }

  lemma {:induction false} FlagsSkipped(s: string, rest: string, fl: Flags)
    requires AllFlags(s) && (rest == "" || !IsFlag(rest[0]))
    ensures AfterFlags(s + rest) == rest
    ensures FlagsOf(s + rest, fl) == FlagsOf(s, fl)
  {
    if s == "" {
      assert "" + rest == rest;
    } else {
      assert s[0] in s && forall c | c in s[1..] :: c in s;
      assert (s + rest)[1..] == s[1..] + rest;
      FlagsSkipped(s[1..], rest, WithFlag(fl, s[0]));
    }
  }

  /** A format that begins with a conversion specification. */
  lemma RenderDirective(f: string, args: seq<Arg>)
    ensures Render.Render("%" + f, args) == Emit(DirectiveAt(f, args))
  {
    assert ("%" + f)[1..] == f;
  }

  lemma WidthLiteral(n: u64, rest: string, args: seq<Arg>, s: Spec)
    requires NoDigitFirst(rest)
    ensures -0x80_0000 <= Wrap24(n) < 0x80_0000
    ensures DirectiveWidth(Decimal(n) + rest, args, s) == DirectivePrecision(rest, args, s.(fieldWidth := Wrap24(n)))
  {
    hide Decimal, DirectivePrecision, LeadingValue, AfterDigits;
    LiteralRead(n, rest);
  }

  lemma WidthStar(rest: string, a: Arg, args: seq<Arg>, s: Spec)
    ensures InField(ResumedWidth(s.(fieldWidth := Wrap24(IntOf(a)))))
    ensures DirectiveWidth("*" + rest, [a] + args, s)
            == DirectivePrecision(rest, args, ResumedWidth(s.(fieldWidth := Wrap24(IntOf(a)))))
  {
    assert ("*" + rest)[1..] == rest && Others([a] + args) == args;
  }

  /** The spec after the flags have been read. */
  function FlagsSpec(flags: string): (s: Spec)
    ensures s.ftype == TypeNone
  {
    ZERO_SPEC.(flags := FlagsOf(flags, NO_FLAGS))
  }

  /** A conversion whose width is the argument a. */
  lemma StarField(flags: string, a: Arg, rest: string, args: seq<Arg>)
    requires AllFlags(flags)
    ensures var s := ResumedWidth(FlagsSpec(flags).(fieldWidth := Wrap24(IntOf(a))));
            && InField(s)
            && Render.Render("%" + (flags + ("*" + rest)), [a] + args) == Emit(DirectivePrecision(rest, args, s))
  {
    hide DirectiveWidth, DirectivePrecision, AfterFlags, FlagsOf, Emit, Render.Render, Wrap24, ResumedWidth;
    FlagsSkipped(flags, "*" + rest, NO_FLAGS);
    WidthStar(rest, a, args, FlagsSpec(flags));
    RenderDirective(flags + ("*" + rest), [a] + args);
  }

  /** A conversion whose width is written out. */
  lemma LiteralField(flags: string, n: u64, rest: string, args: seq<Arg>)
    requires AllFlags(flags) && NoDigitFirst(rest) && n > 0
    ensures var s := FlagsSpec(flags).(fieldWidth := Wrap24(n));
            && InField(s)
            && Render.Render("%" + (flags + (Decimal(n) + rest)), args) == Emit(DirectivePrecision(rest, args, s))
  {
    hide Decimal, DirectiveWidth, DirectivePrecision, AfterFlags, FlagsOf, Emit, Render.Render, Wrap24;
    LiteralRead(n, rest);
    FlagsSkipped(flags, Decimal(n) + rest, NO_FLAGS);
    WidthLiteral(n, rest, args, FlagsSpec(flags));
    RenderDirective(flags + (Decimal(n) + rest), args);
  }

  /** A positive width supplied by an argument prints like the width written out, as long as the 24-bit
      field holds it as a width that is not negative. */
  lemma StarWidth(flags: string, a: Arg, rest: string, args: seq<Arg>)
    requires AllFlags(flags) && NoDigitFirst(rest)
    requires 1 <= IntOf(a) && Wrap24(IntOf(a)) >= 0
    ensures Render.Render("%" + (flags + ("*" + rest)), [a] + args)
            == Render.Render("%" + (flags + (Decimal(IntOf(a)) + rest)), args)
  {
    hide Decimal, DirectivePrecision, FlagsSpec, Emit, Render.Render, Wrap24, AllFlags;
    StarField(flags, a, rest, args);
    LiteralField(flags, IntOf(a), rest, args);
  }

  lemma {:induction false} FlagAppended(s: string, c: char, fl: Flags)
    requires AllFlags(s) && IsFlag(c)
    ensures FlagsOf(s + [c], fl) == WithFlag(FlagsOf(s, fl), c)
  {
    if s == "" {
      assert ("" + [c])[1..] == "";
    } else {
      assert s[0] in s && forall x | x in s[1..] :: x in s;
      assert (s + [c])[1..] == s[1..] + [c];
      FlagAppended(s[1..], c, WithFlag(fl, s[0]));
    }
  }

  /** The flag '-' after the others. */
  lemma LeftSpec(flags: string)
    requires AllFlags(flags)
    ensures AllFlags(flags + "-")
    ensures FlagsSpec(flags + "-") == FlagsSpec(flags).(flags := FlagsSpec(flags).flags.(left := true))
  {
    hide FlagsOf;
    FlagAppended(flags, '-', NO_FLAGS);
  }

  /** A negative width supplied by an argument is the flag '-' and the width without its sign. */
  lemma StarNegativeWidth(flags: string, a: Arg, rest: string, args: seq<Arg>)
    requires AllFlags(flags) && NoDigitFirst(rest)
    requires IntOf(a) < 0 && Wrap24(IntOf(a)) < 0
    ensures Render.Render("%" + (flags + ("*" + rest)), [a] + args)
            == Render.Render("%" + (flags + "-" + (Decimal(-IntOf(a)) + rest)), args)
  {
    hide Decimal, DirectivePrecision, FlagsSpec, Emit, Render.Render, Wrap24, AllFlags;
    LeftSpec(flags);
    StarField(flags, a, rest, args);
    LiteralField(flags + "-", -IntOf(a), rest, args);
    NegatedField(IntOf(a));
  }

  lemma NegatedField(w: int)
    ensures Wrap24(-Wrap24(w)) == Wrap24(-w)
  {
    var k := (w + 0x80_0000) / 0x100_0000;
    assert Wrap24(w) == w - 0x100_0000 * k;
    var x := -w + 0x80_0000;
    Divides(x + 0x100_0000 * k, 0x100_0000, x / 0x100_0000 + k, x % 0x100_0000);
  }

  /** The part of a specification before the precision: flags, and a width written out or none. */
  predicate WidthWritten(width: string) {
    AllDigits(width) && (width == "" || !IsFlag(width[0]))
  }

  /** The precision an argument stands for: a negative one counts as 0. */
  function PrecisionOf(a: Arg): u64 {
    if IntOf(a) < 0 then 0 else IntOf(a)
  }

  lemma PrecisionStar(a: Arg, rest: string, args: seq<Arg>, s: Spec)
    requires NoDigitFirst(rest) && InField(s)
    requires IntOf(a) >= 0 || Wrap16(IntOf(a)) <= 0
    ensures DirectivePrecision(".*" + rest, [a] + args, s)
            == DirectivePrecision("." + Decimal(PrecisionOf(a)) + rest, args, s)
  {
    hide Decimal, Conversion, AfterDigits, LeadingValue;
    var d := Decimal(PrecisionOf(a));
    LiteralRead(PrecisionOf(a), rest);
    assert (".*" + rest)[2..] == rest && Others([a] + args) == args;
    assert ("." + d + rest)[1..] == d + rest;
    assert ("." + d + rest)[1] == d[0];
  }

  lemma WidthThenPrecision(width: string, p: string, args: seq<Arg>, s: Spec)
    requires WidthWritten(width) && NoDigitFirst(p) && (p == "" || p[0] != '*')
    ensures -0x80_0000 <= Wrap24(LeadingValue(width + p, 0)) < 0x80_0000
    ensures DirectiveWidth(width + p, args, s)
            == DirectivePrecision(p, args,
                 s.(fieldWidth := if width == "" then -1 else Wrap24(LeadingValue(width + p, 0))))
  {
    DigitsSkipped(width, p);
    if width == "" {
      assert width + p == p;
    } else {
      assert width[0] in width;
    }
  }

  lemma {:induction false} SameLeadingValue(width: string, p: string, q: string, acc: nat)
    requires AllDigits(width) && NoDigitFirst(p) && NoDigitFirst(q)
    ensures LeadingValue(width + p, acc) == LeadingValue(width + q, acc)
  {
    if width == "" {
      assert "" + p == p && "" + q == q;
    } else {
      assert width[0] in width && forall c | c in width[1..] :: c in width;
      assert (width + p)[1..] == width[1..] + p && (width + q)[1..] == width[1..] + q;
      SameLeadingValue(width[1..], p, q, 10 * acc + (width[0] as int - 48));
    }
  }

  /** A precision supplied by an argument prints like the precision written out. */
  lemma StarPrecision(flags: string, width: string, a: Arg, rest: string, args: seq<Arg>)
    requires AllFlags(flags) && WidthWritten(width) && NoDigitFirst(rest)
    requires IntOf(a) >= 0 || Wrap16(IntOf(a)) <= 0
    ensures Render.Render("%" + (flags + (width + (".*" + rest))), [a] + args)
            == Render.Render("%" + (flags + (width + ("." + Decimal(PrecisionOf(a)) + rest))), args)
  {
    hide Decimal, DirectiveWidth, DirectivePrecision, AfterFlags, FlagsOf, Emit, Render.Render, LeadingValue, Wrap24;
    var p, q := ".*" + rest, "." + Decimal(PrecisionOf(a)) + rest;
    FlagsSkipped(flags, width + p, NO_FLAGS);
    FlagsSkipped(flags, width + q, NO_FLAGS);
    var s := ZERO_SPEC.(flags := FlagsOf(flags, NO_FLAGS));
    WidthThenPrecision(width, p, [a] + args, s);
    WidthThenPrecision(width, q, args, s);
    SameLeadingValue(width, p, q, 0);
    var w := if width == "" then -1 else Wrap24(LeadingValue(width + p, 0));
    PrecisionStar(a, rest, args, s.(fieldWidth := w));
    RenderDirective(flags + (width + p), [a] + args);
    RenderDirective(flags + (width + q), args);
  }

  /** Both at once. */
  lemma StarWidthAndPrecision(flags: string, a: Arg, b: Arg, rest: string, args: seq<Arg>)
    requires AllFlags(flags) && NoDigitFirst(rest)
    requires 1 <= IntOf(a) && Wrap24(IntOf(a)) >= 0 && (IntOf(b) >= 0 || Wrap16(IntOf(b)) <= 0)
    ensures Render.Render("%" + (flags + ("*" + (".*" + rest))), [a] + ([b] + args))
            == Render.Render("%" + (flags + (Decimal(IntOf(a)) + ("." + Decimal(PrecisionOf(b)) + rest))), args)
  {
    hide Decimal, Render.Render;
    StarWidth(flags, a, ".*" + rest, [b] + args);
    DecimalRead(IntOf(a), "");
    StarPrecision(flags, Decimal(IntOf(a)), b, rest, args);
  }
}
