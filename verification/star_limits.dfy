/** How far a '*' argument equals the text written out in its place: exact conditions over every flag
    string, every continuation and every argument list. */
module StarLimits {
  import opened Words
  import opened TextBuffer
  import opened Digits
  import opened FormatSpec
  import opened FormatDecode
  import opened Number
  import opened PaddedText
  import opened Render
  import opened StarArgs

  /** A conversion letter by itself. */
  lemma PlainLetter(c: char, args: seq<Arg>, s: Spec)
    requires InField(s) && (c == 'c' || c == 's')
    ensures Conversion([c], s) == Decoded("", Converted(c, '\0', s))
    ensures DirectivePrecision([c], args, s) == Directive(Converted(c, '\0', s.(precision := -1)), "", args)
    ensures Render.Render("", Others(args)) == ""
  {
    assert [c][1..] == "";
    hide Converted;
  }

  /** %s of an empty string prints its width in blanks. */
  lemma BlankField(s: Spec)
    requires InField(s)
    ensures Emit(DirectivePrecision("s", [NO_ARG], s)) == Repeat(' ', s.fieldWidth)
  {
    hide DirectivePrecision, Conversion, Render.Render;
    PlainLetter('s', [NO_ARG], s);
  }

  /** Negating a value of the field: only the lowest stays negative. */
  lemma FieldSign(w: int)
    ensures var x := Wrap24(w); -0x80_0000 <= x < 0x80_0000 && Wrap24(-x) == if x == -0x80_0000 then x else -x
  {
  }

  /** The condition is needed: where the field holds a negative value, the argument turns into a
      left-justified width and the literal into none. %s of an empty string shows it. */
  lemma StarWidthExactly(a: Arg)
    requires 1 <= IntOf(a)
    ensures Render.Render("%" + ("" + ("*" + "s")), [a] + [NO_ARG])
            == Render.Render("%" + ("" + (Decimal(IntOf(a)) + "s")), [NO_ARG])
            <==> Wrap24(IntOf(a)) >= 0 || Wrap24(IntOf(a)) == -0x80_0000
  {
    hide Decimal, DirectivePrecision, FlagsSpec, Emit, Render.Render, Wrap24;
    var s := FlagsSpec("").(fieldWidth := Wrap24(IntOf(a)));
    assert AllFlags("") && NoDigitFirst("s");
    StarField("", a, "s", [NO_ARG]);
    LiteralField("", IntOf(a), "s", [NO_ARG]);
    BlankField(s);
    BlankField(ResumedWidth(s));
    FieldSign(IntOf(a));
  }

  /** The rendering with '*' is the one with the width written out. */
  predicate SplicesWidth(a: Arg, flags: string, rest: string, args: seq<Arg>)
    requires IntOf(a) >= 0
  {
    Render.Render("%" + (flags + ("*" + rest)), [a] + args)
    == Render.Render("%" + (flags + (Decimal(IntOf(a)) + rest)), args)
  }

  /** At the lowest value of the field the blanks of %c go on opposite sides. */
  lemma LowestWidth(a: Arg)
    requires 1 <= IntOf(a) && Wrap24(IntOf(a)) == -0x80_0000
    ensures !SplicesWidth(a, "", "c", [NO_ARG])
  {
    hide Decimal, DirectivePrecision, FlagsSpec, Emit, Render.Render, Wrap24, CharText;
    var s := FlagsSpec("").(fieldWidth := Wrap24(IntOf(a)));
    NoFlags();
    FieldSign(IntOf(a));
    StarField("", a, "c", [NO_ARG]);
    LiteralField("", IntOf(a), "c", [NO_ARG]);
    CharField(s);
    CharField(ResumedWidth(s));
    LowestChars(s);
    LowestChars(ResumedWidth(s));
  }

  lemma NoFlags()
    ensures AllFlags("") && NoDigitFirst("c") && FlagsSpec("").flags == NO_FLAGS && Wrap24(0) == 0
  {
  }

  lemma CharField(s: Spec)
    requires InField(s)
    ensures Emit(DirectivePrecision("c", [NO_ARG], s)) == CharText('\0', s)
  {
    hide DirectivePrecision, Conversion, CharText, Render.Render;
    PlainLetter('c', [NO_ARG], s);
    CharIgnoresPrecision(s);
  }

  lemma CharIgnoresPrecision(s: Spec)
    requires InField(s)
    ensures CharText('\0', Converted('c', '\0', s.(precision := -1))) == CharText('\0', s)
  {
  }

  lemma LowestChars(s: Spec)
    requires s.fieldWidth == -0x80_0000
    ensures |CharText('\0', s)| > 0
    ensures CharText('\0', s)[0] == if s.flags.left then '\0' else ' '
  {
    assert Countdown(s.fieldWidth) == 0x7F_FFFF;
  }

  /** A positive width given by '*' prints like the width written out, whatever the flags and whatever
      follows, exactly when the field holds it as a non-negative value. */
  lemma StarWidthForAll(a: Arg)
    requires 1 <= IntOf(a)
    ensures (forall flags: string, rest: string, args: seq<Arg> | AllFlags(flags) && NoDigitFirst(rest) ::
               SplicesWidth(a, flags, rest, args))
            <==> Wrap24(IntOf(a)) >= 0
  {
    hide Decimal, Render.Render;
    if Wrap24(IntOf(a)) >= 0 {
      forall flags: string, rest: string, args: seq<Arg> | AllFlags(flags) && NoDigitFirst(rest)
        ensures SplicesWidth(a, flags, rest, args)
      {
        StarWidth(flags, a, rest, args);
      }
    } else if Wrap24(IntOf(a)) == -0x80_0000 {
      LowestWidth(a);
      assert AllFlags("") && NoDigitFirst("c");
    } else {
      StarWidthExactly(a);
      assert AllFlags("") && NoDigitFirst("s");
      assert !SplicesWidth(a, "", "s", [NO_ARG]);
    }
  }

  /** The rendering with '*' is the one with the flag '-' and the width without its sign. */
  predicate SplicesNegative(a: Arg, flags: string, rest: string, args: seq<Arg>)
    requires IntOf(a) < 0
  {
    Render.Render("%" + (flags + ("*" + rest)), [a] + args)
    == Render.Render("%" + (flags + "-" + (Decimal(-IntOf(a)) + rest)), args)
  }

  /** In a field of width zero the flag '-' makes no difference. */
  lemma LeftAtZero(t: Spec, a: Arg)
    requires Sound(t) && t.fieldWidth == 0
    ensures ConversionText(t.(flags := t.flags.(left := true)), a) == ConversionText(t, a)
  {
    hide NumberText, StringText, CharText, IntegerOf, PointerSpec;
    if IsInteger(t.ftype) {
      LeftNumber(IntegerOf(t.ftype, a), t);
    } else if t.ftype == TypePtr {
      LeftPointer(a.word, t);
    } else if t.ftype == TypeStr {
      LeftText(a.text, t);
    } else if t.ftype == TypeChar {
      LeftChar((a.word % 256) as char, t);
    }
  }

  lemma LeftPointer(n: u64, t: Spec)
    requires t.fieldWidth == 0
    ensures NumberText(n, PointerSpec(t.(flags := t.flags.(left := true)))) == NumberText(n, PointerSpec(t))
  {
    hide NumberText;
    LeftNumber(n, PointerSpec(t));
  }

  lemma LeftText(s: string, t: Spec)
    requires t.fieldWidth == 0
    ensures StringText(s, t.(flags := t.flags.(left := true))) == StringText(s, t)
  {
    var v := Visible(s, t.precision);
    NothingRepeated(' ', 0 - |v|);
    assert v + "" == v && "" + v == v;
  }

  lemma LeftChar(c: char, t: Spec)
    requires t.fieldWidth == 0
    ensures CharText(c, t.(flags := t.flags.(left := true))) == CharText(c, t)
  {
    NothingRepeated(' ', Countdown(0));
    NothingRepeated(' ', Countdown(AfterCountdown(0)));
    assert [c] + "" == "" + [c] + "";
  }

  lemma LeftNumber(n: u64, t: Spec)
    requires IsBase(t.base) && t.fieldWidth == 0
    ensures NumberText(n, t.(flags := t.flags.(left := true))) == NumberText(n, t)
  {
    hide Natural, DigitsText, SignText, PrefixText, Magnitude, Repeat, LeadText;
    var u := t.(flags := t.flags.(left := true));
    LeftParts(n, t);
    var room := t.fieldWidth - Natural(n, t);
    LeadLeft(n, t, room);
    NothingRepeated(' ', room);
    NothingRepeated(' ', 0);
  }

  /** Sign, prefix, digits and natural length do not depend on the flag '-'. */
  lemma LeftParts(n: u64, t: Spec)
    requires IsBase(t.base)
    ensures var u := t.(flags := t.flags.(left := true));
            && SignText(n, u.flags) == SignText(n, t.flags) && PrefixText(n, u) == PrefixText(n, t)
            && Magnitude(n, u.flags) == Magnitude(n, t.flags)
            && Natural(n, u) == Natural(n, t) >= 1
  {
    hide Lsb;
  }

  lemma LeadLeft(n: u64, t: Spec, room: int)
    requires IsBase(t.base) && room <= 0
    ensures LeadText(n, t.(flags := t.flags.(left := true)), room) == LeadText(n, t, room)
  {
    LeftParts(n, t);
    hide Natural, SignText, PrefixText, Repeat;
    NothingRepeated(' ', room - 1);
    NothingRepeated(' ', 0);
    NothingRepeated('0', room);
    NothingRepeated('0', 0);
  }

  lemma LeftConversion(f: string, s: Spec)
    ensures var c, d := Conversion(f, s), Conversion(f, s.(flags := s.flags.(left := true)));
            && d.rest == c.rest && d.spec == c.spec.(flags := c.spec.flags.(left := true))
            && c.spec.fieldWidth == s.fieldWidth
  {
    hide Converted, AfterQualifier, QualifierOf;
    var r := AfterQualifier(f);
    LeftConverted(if r == "" then '\0' else r[0], QualifierOf(f), s);
  }

  lemma LeftConverted(c: char, q: char, s: Spec)
    ensures Converted(c, q, s.(flags := s.flags.(left := true)))
            == Converted(c, q, s).(flags := Converted(c, q, s).flags.(left := true))
    ensures Converted(c, q, s).fieldWidth == s.fieldWidth
  {
    hide IntegerType;
    if c == 'x' {
    } else if c == 'd' || c == 'i' {
    } else if IsIntegerConversion(c) {
    } else {
    }
  }

  lemma LeftDirective(f: string, args: seq<Arg>, s: Spec)
    requires InField(s) && s.fieldWidth == 0
    ensures Emit(DirectivePrecision(f, args, s.(flags := s.flags.(left := true))))
            == Emit(DirectivePrecision(f, args, s))
  {
    hide Conversion, ConversionText, AfterDigits, LeadingValue, Wrap16, AfterAlnum, Render.Render;
    var u := s.(flags := s.flags.(left := true));
    var d, e := DirectivePrecision(f, args, s), DirectivePrecision(f, args, u);
    forall g: string, p: int
      ensures var c, k := Conversion(g, s.(precision := p)), Conversion(g, u.(precision := p));
              && k.rest == c.rest && k.spec == c.spec.(flags := c.spec.flags.(left := true))
              && c.spec.fieldWidth == 0
    {
      LeftConversion(g, s.(precision := p));
    }
    assert e == Directive(d.spec.(flags := d.spec.flags.(left := true)), d.rest, d.args);
    LeftAtZero(d.spec, First(d.args));
  }

  /** The field turns a negative argument into zero. */
  lemma ZeroWidth(a: Arg, flags: string, rest: string, args: seq<Arg>)
    requires IntOf(a) < 0 && Wrap24(IntOf(a)) == 0 && AllFlags(flags) && NoDigitFirst(rest)
    ensures SplicesNegative(a, flags, rest, args)
  {
    hide Decimal, DirectivePrecision, FlagsSpec, Emit, Render.Render, Wrap24, AllFlags;
    LeftSpec(flags);
    StarField(flags, a, rest, args);
    LiteralField(flags + "-", -IntOf(a), rest, args);
    NegatedField(IntOf(a));
    NoFlags();
    LeftDirective(rest, args, ResumedWidth(FlagsSpec(flags).(fieldWidth := 0)));
  }

  /** The field turns a negative argument into a positive width: blanks for the argument, none for the
      literal. */
  lemma PositiveField(a: Arg)
    requires IntOf(a) < 0 && Wrap24(IntOf(a)) > 0
    ensures !SplicesNegative(a, "", "s", [NO_ARG])
  {
    hide Decimal, DirectivePrecision, FlagsSpec, Emit, Render.Render, Wrap24;
    var s := FlagsSpec("").(fieldWidth := Wrap24(IntOf(a)));
    assert AllFlags("") && NoDigitFirst("s");
    LeftSpec("");
    StarField("", a, "s", [NO_ARG]);
    LiteralField("" + "-", -IntOf(a), "s", [NO_ARG]);
    NegatedField(IntOf(a));
    FieldSign(IntOf(a));
    BlankField(ResumedWidth(s));
    BlankField(FlagsSpec("" + "-").(fieldWidth := Wrap24(-IntOf(a))));
  }

  /** A negative width given by '*' prints like the flag '-' and the width without its sign, whatever
      the flags and whatever follows, exactly when the field does not turn it positive. */
  lemma StarNegativeWidthForAll(a: Arg)
    requires IntOf(a) < 0
    ensures (forall flags: string, rest: string, args: seq<Arg> | AllFlags(flags) && NoDigitFirst(rest) ::
               SplicesNegative(a, flags, rest, args))
            <==> Wrap24(IntOf(a)) <= 0
  {
    hide Decimal, Render.Render;
    if Wrap24(IntOf(a)) <= 0 {
      forall flags: string, rest: string, args: seq<Arg> | AllFlags(flags) && NoDigitFirst(rest)
        ensures SplicesNegative(a, flags, rest, args)
      {
        if Wrap24(IntOf(a)) == 0 {
          ZeroWidth(a, flags, rest, args);
        } else {
          StarNegativeWidth(flags, a, rest, args);
        }
      }
    } else {
      PositiveField(a);
      assert AllFlags("") && NoDigitFirst("s");
    }
  }
}
