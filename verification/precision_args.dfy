/** A precision given by '.*': what a negative one does, and when that is what the C standard asks for
    (section 7.19.6.1 of ISO/IEC 9899:1999: a negative precision argument is taken as if the precision
    were omitted). */
module PrecisionArgs {
  import opened Words
  import opened TextBuffer
  import opened Digits
  import opened FormatSpec
  import opened FormatDecode
  import opened Number
  import opened PaddedText
  import opened Render
  import opened StarArgs

  /** Flags and width of a specification, before its precision. */
  function FieldSpec(flags: string, width: string): (s: Spec)
    ensures InField(s)
  {
    ZERO_SPEC.(flags := FlagsOf(flags, NO_FLAGS),
               fieldWidth := if width == "" then -1 else Wrap24(LeadingValue(width, 0)))
  }

  /** One conversion specification with its precision known, and all that follows it. */
  function WithPrecision(flags: string, width: string, precision: int, rest: string, args: seq<Arg>): string {
    var s := FieldSpec(flags, width).(precision := precision);
    ConversionSound(rest, s);
    Emit(Directive(Conversion(rest, s).spec, Conversion(rest, s).rest, args))
  }

  /** The precision an argument leaves in the 16-bit field. */
  function FieldPrecision(a: Arg): int {
    NonNegative(Wrap16(IntOf(a)))
  }

  lemma WidthRead(flags: string, width: string, p: string, args: seq<Arg>)
    requires AllFlags(flags) && WidthWritten(width)
    requires p != "" && !IsDigit(p[0]) && !IsFlag(p[0]) && p[0] != '*'
    ensures Render.Render("%" + (flags + (width + p)), args)
            == Emit(DirectivePrecision(p, args, FieldSpec(flags, width)))
  {
    hide DirectiveWidth, DirectivePrecision, AfterFlags, FlagsOf, Emit, Render.Render, LeadingValue, Wrap24;
    FlagsSkipped(flags, width + p, NO_FLAGS);
    WidthThenPrecision(width, p, args, ZERO_SPEC.(flags := FlagsOf(flags, NO_FLAGS)));
    SameLeadingValue(width, p, "", 0);
    assert width + "" == width;
    RenderDirective(flags + (width + p), args);
  }

  lemma StarText(flags: string, width: string, a: Arg, rest: string, args: seq<Arg>)
    requires AllFlags(flags) && WidthWritten(width)
    ensures Render.Render("%" + (flags + (width + (".*" + rest))), [a] + args)
            == WithPrecision(flags, width, FieldPrecision(a), rest, args)
  {
    hide Conversion, Emit, Render.Render, FieldSpec, Wrap16;
    WidthRead(flags, width, ".*" + rest, [a] + args);
    assert (".*" + rest)[2..] == rest && Others([a] + args) == args;
  }

  /** A complete conversion begins with a qualifier or its letter. */
  lemma ConversionStart(rest: string)
    requires Conversion(rest, ZERO_SPEC).spec.ftype != TypeInvalid
    ensures rest != "" && !IsDigit(rest[0]) && !IsFlag(rest[0]) && rest[0] != '*' && rest[0] != '.'
  {
  }

  lemma OmittedText(flags: string, width: string, rest: string, args: seq<Arg>)
    requires AllFlags(flags) && WidthWritten(width)
    requires Conversion(rest, ZERO_SPEC).spec.ftype != TypeInvalid
    ensures Render.Render("%" + (flags + (width + rest)), args) == WithPrecision(flags, width, -1, rest, args)
  {
    ConversionStart(rest);
    hide Conversion, Emit, Render.Render, FieldSpec;
    WidthRead(flags, width, rest, args);
  }

  /** The type of a conversion depends on its text alone, once the sign flag is settled. */
  lemma TypeOf(rest: string, s: Spec)
    requires !s.flags.sign
    ensures Conversion(rest, s).spec.ftype == Conversion(rest, ZERO_SPEC).spec.ftype
  {
    hide AfterQualifier, QualifierOf;
  }

  lemma {:induction false} NoSign(flags: string, fl: Flags)
    requires !fl.sign
    ensures !FlagsOf(flags, fl).sign
  {
    if flags == "" {
    } else {
      NoSign(flags[1..], WithFlag(fl, flags[0]));
    }
  }

  /** Only the precision itself differs. */
  lemma PrecisionCarried(rest: string, s: Spec, p: int, q: int)
    ensures var c, d := Conversion(rest, s.(precision := p)), Conversion(rest, s.(precision := q));
            d.rest == c.rest && d.spec == c.spec.(precision := q) && c.spec.precision == p
            && c.spec.fieldWidth == s.fieldWidth
  {
    hide AfterQualifier, QualifierOf, IntegerType;
  }

  lemma SameNatural(n: u64, s: Spec, p: int)
    requires IsBase(s.base) && p <= |Lsb(Magnitude(n, s.flags), s.base)|
    ensures Natural(n, s.(precision := p)) == Natural(n, s.(precision := -1))
    ensures |DigitsText(Magnitude(n, s.flags), s.base, s.flags.small)| == |Lsb(Magnitude(n, s.flags), s.base)|
  {
    hide Lsb, Magnitude;
  }

  lemma SameLead(n: u64, s: Spec, p: int)
    ensures forall room: int :: LeadText(n, s.(precision := p), room) == LeadText(n, s.(precision := -1), room)
  {
    hide SignText, Repeat;
  }

  /** A precision no longer than the digits makes no difference to a number. */
  lemma ShortPrecision(n: u64, s: Spec, p: int)
    requires IsBase(s.base) && p <= |Lsb(Magnitude(n, s.flags), s.base)|
    ensures NumberText(n, s.(precision := p)) == NumberText(n, s.(precision := -1))
  {
    hide Lsb, SignText, PrefixText, Magnitude, Repeat, LeadText, DigitsText, Natural;
    var len := |Lsb(Magnitude(n, s.flags), s.base)|;
    SameNatural(n, s, p);
    NothingRepeated('0', p - len);
    NothingRepeated('0', -1 - len);
    SameLead(n, s, p);
  }

  /** Without a width a longer precision shows. */
  lemma LongPrecision(n: u64, s: Spec, p: int)
    requires IsBase(s.base) && p > |Lsb(Magnitude(n, s.flags), s.base)| && s.fieldWidth == -1
    ensures |NumberText(n, s.(precision := p))| > |NumberText(n, s.(precision := -1))|
  {
    NumberLength(n, s.(precision := p));
    NumberLength(n, s.(precision := -1));
    hide NumberText, Lsb, SignText, PrefixText, Magnitude;
  }

  /** A conversion other than %s prints a negative precision like an omitted one, if the 16-bit field
      does not make it longer than one digit. */
  lemma NegativePrecision(flags: string, width: string, a: Arg, rest: string, args: seq<Arg>)
    requires AllFlags(flags) && WidthWritten(width) && IntOf(a) < 0 && Wrap16(IntOf(a)) <= 1
    requires Conversion(rest, ZERO_SPEC).spec.ftype != TypeInvalid
    requires Conversion(rest, ZERO_SPEC).spec.ftype != TypeStr
    ensures Render.Render("%" + (flags + (width + (".*" + rest))), [a] + args)
            == Render.Render("%" + (flags + (width + rest)), args)
  {
    hide Conversion, Emit, Render.Render, FieldSpec, Wrap16, ConversionText;
    StarText(flags, width, a, rest, args);
    OmittedText(flags, width, rest, args);
    var s, p := FieldSpec(flags, width), FieldPrecision(a);
    FieldUnsigned(flags, width);
    TypeOf(rest, s.(precision := p));
    ConversionSound(rest, s.(precision := p));
    PrecisionCarried(rest, s, p, -1);
    OneDigitPrecision(Conversion(rest, s.(precision := p)).spec, First(args));
    SameEmit(Conversion(rest, s.(precision := p)), Conversion(rest, s.(precision := -1)), args);
  }

  lemma FieldUnsigned(flags: string, width: string)
    ensures !FieldSpec(flags, width).flags.sign
  {
    NoSign(flags, NO_FLAGS);
  }

  lemma OneDigitPrecision(t: Spec, a: Arg)
    requires Sound(t) && 0 <= t.precision <= 1 && t.ftype != TypeStr
    ensures ConversionText(t.(precision := -1), a) == ConversionText(t, a)
  {
    assert t.(precision := t.precision) == t;
    if IsInteger(t.ftype) {
      ShortPrecision(IntegerOf(t.ftype, a), t, t.precision);
    } else if t.ftype == TypePtr {
      var u := PointerSpec(t);
      assert u.(precision := t.precision) == u && PointerSpec(t.(precision := -1)) == u.(precision := -1);
      ShortPrecision(a.word, u, t.precision);
    }
  }

  /** The rendering with '.*' and a negative argument is the one without a precision. */
  predicate TakenAsOmitted(a: Arg, flags: string, width: string, rest: string, args: seq<Arg>) {
    Render.Render("%" + (flags + (width + (".*" + rest))), [a] + args)
    == Render.Render("%" + (flags + (width + rest)), args)
  }

  /** A valid conversion that is not %s. */
  predicate NotText(rest: string) {
    Conversion(rest, ZERO_SPEC).spec.ftype != TypeInvalid && Conversion(rest, ZERO_SPEC).spec.ftype != TypeStr
  }

  /** Every conversion but %s takes a negative precision as an omitted one, for all flags, widths,
      continuations and arguments, exactly when what is left of it in the field is at most 1. */
  lemma NegativePrecisionForAll(a: Arg)
    requires IntOf(a) < 0
    ensures (forall flags: string, width: string, rest: string, args: seq<Arg>
               | AllFlags(flags) && WidthWritten(width) && NotText(rest) ::
               TakenAsOmitted(a, flags, width, rest, args))
            <==> Wrap16(IntOf(a)) <= 1
  {
    hide TakenAsOmitted, Render.Render, Wrap16, NotText;
    if Wrap16(IntOf(a)) <= 1 {
      forall flags: string, width: string, rest: string, args: seq<Arg>
        | AllFlags(flags) && WidthWritten(width) && NotText(rest)
        ensures TakenAsOmitted(a, flags, width, rest, args)
      {
        OmittedHolds(a, flags, width, rest, args);
      }
    } else {
      LongZero(a);
      assert AllFlags("") && WidthWritten("");
    }
  }

  lemma OmittedHolds(a: Arg, flags: string, width: string, rest: string, args: seq<Arg>)
    requires AllFlags(flags) && WidthWritten(width) && NotText(rest)
    requires IntOf(a) < 0 && Wrap16(IntOf(a)) <= 1
    ensures TakenAsOmitted(a, flags, width, rest, args)
  {
    NegativePrecision(flags, width, a, rest, args);
  }

  /** With more left in the field, %u of 0 shows it. */
  lemma LongZero(a: Arg)
    requires IntOf(a) < 0 && Wrap16(IntOf(a)) > 1
    ensures NotText("u") && !TakenAsOmitted(a, "", "", "u", [Arg(0, "")])
  {
    LetterU();
    assert FieldPrecision(a) > 1;
    hide FieldPrecision, Render.Render, Conversion, Wrap16;
    NegativePrecisionInteger("", a, "u", [Arg(0, "")]);
  }

  lemma LetterU()
    ensures Conversion("u", ZERO_SPEC).spec.ftype == TypeUInt
    ensures var s := Conversion("u", FieldSpec("", "")).spec;
            && s.ftype == TypeUInt && s.base == 10 && !s.flags.sign
            && |Lsb(Magnitude(IntegerOf(s.ftype, Arg(0, "")), s.flags), s.base)| == 1
  {
    assert "u"[0] == 'u';
    assert Lsb(0, 10) == [0];
  }

  /** Two specifications of the same type print alike if and only if their own texts do. */
  lemma SameEmit(c: Decoded, d: Decoded, args: seq<Arg>)
    requires Sound(c.spec) && Sound(d.spec) && c.rest == d.rest && c.spec.ftype == d.spec.ftype
    requires c.spec.ftype != TypeInvalid
    ensures Emit(Directive(c.spec, c.rest, args)) == Emit(Directive(d.spec, d.rest, args))
            <==> ConversionText(c.spec, First(args)) == ConversionText(d.spec, First(args))
  {
    hide Render.Render, ConversionText, AfterAlnum;
    var e := Directive(c.spec, c.rest, args);
    var after := Render.Render(AfterDirective(e), ArgsAfter(e));
    SameHead(ConversionText(c.spec, First(args)), ConversionText(d.spec, First(args)), after);
  }

  lemma SameHead(x: string, y: string, after: string)
    ensures x + after == y + after <==> x == y
  {
    if x + after == y + after {
      assert |x + after| == |y + after|;
      assert x == (x + after)[..|x|] == (y + after)[..|y|] == y;
    }
  }

  predicate AllBlank(s: string) {
    forall i | 0 <= i < |s| :: s[i] == ' '
  }

  /** Cutting a text to the precision shows in its field, unless the field is wide enough and only
      blanks are cut off: any blanks on the left, and on the right only a text of nothing but blanks. */
  predicate CutHidden(t: string, p: nat, w: int, left: bool) {
    |t| <= p || (w >= |t| && AllBlank(if left then t[p..] else t))
  }

  predicate Repeats(t: string, d: nat, k: nat)
    requires k < |t|
  {
    t[k] == if k < d then ' ' else t[k - d]
  }

  /** A text that repeats itself d places on, with blanks before, is blank. */
  lemma {:induction false} ShiftedBlank(t: string, d: nat, i: nat)
    requires d >= 1 && i < |t|
    requires forall k: nat | k < |t| :: Repeats(t, d, k)
    ensures t[i] == ' '
  {
    assert Repeats(t, d, i);
    if i < d {
    } else {
      ShiftedBlank(t, d, i - d);
    }
  }

  /** A text in a field of width w. */
  function InFieldText(t: string, w: int, left: bool): string {
    if left then t + Repeat(' ', w - |t|) else Repeat(' ', w - |t|) + t
  }

  lemma CutLeft(t: string, p: nat, w: int)
    requires p < |t|
    ensures InFieldText(t[..p], w, true) == InFieldText(t, w, true) <==> w >= |t| && AllBlank(t[p..])
  {
    var x, y := InFieldText(t[..p], w, true), InFieldText(t, w, true);
    if w >= |t| && AllBlank(t[p..]) {
      forall i | 0 <= i < w ensures x[i] == y[i] {
        if p <= i < |t| { assert t[i] == t[p..][i - p]; }
      }
    } else if x == y {
      assert |x| == |y|;
      forall i | 0 <= i < |t[p..]| ensures t[p..][i] == ' ' {
        assert y[p + i] == t[p + i] && x[p + i] == ' ';
      }
    }
  }

  lemma CutRight(t: string, p: nat, w: int)
    requires p < |t|
    ensures InFieldText(t[..p], w, false) == InFieldText(t, w, false) <==> w >= |t| && AllBlank(t)
  {
    var x, y, d := InFieldText(t[..p], w, false), InFieldText(t, w, false), |t| - p;
    if x == y {
      assert |x| == |y| == w;
      forall k: nat | k < |t| ensures Repeats(t, d, k) {
        assert y[w - |t| + k] == t[k];
        assert x[w - |t| + k] == if k < d then ' ' else t[k - d];
      }
      forall i | 0 <= i < |t| ensures t[i] == ' ' { ShiftedBlank(t, d, i); }
    }
  }

  /** %s takes a negative precision as an omitted one exactly when the field hides what is cut off; the
      precision is what the 16-bit field makes of it, which is 0 for -1. */
  lemma NegativePrecisionString(flags: string, width: string, a: Arg, rest: string, args: seq<Arg>)
    requires AllFlags(flags) && WidthWritten(width) && IntOf(a) < 0
    ensures FieldPrecision(a) >= 0
    ensures var s := FieldSpec(flags, width);
            TakenAsOmitted(a, flags, width, "s" + rest, args)
            <==> CutHidden(First(args).text, FieldPrecision(a), s.fieldWidth, s.flags.left)
  {
    LetterS(rest, ZERO_SPEC);
    hide Conversion, Emit, Render.Render, FieldSpec, FieldPrecision, CutHidden;
    StarText(flags, width, a, "s" + rest, args);
    OmittedText(flags, width, "s" + rest, args);
    var s, p := FieldSpec(flags, width), FieldPrecision(a);
    var c, d := Conversion("s" + rest, s.(precision := p)), Conversion("s" + rest, s.(precision := -1));
    ConversionSound("s" + rest, s.(precision := p));
    ConversionSound("s" + rest, s.(precision := -1));
    LetterS(rest, s.(precision := p));
    LetterS(rest, s.(precision := -1));
    FieldPrecisionNatural(a);
    SameEmit(c, d, args);
    CutShows(First(args), c.spec);
  }

  /** One %s with its precision and without. */
  lemma CutShows(a: Arg, s: Spec)
    requires Sound(s) && s.ftype == TypeStr && s.precision >= 0
    ensures ConversionText(s, a) == ConversionText(s.(precision := -1), a)
            <==> CutHidden(a.text, s.precision, s.fieldWidth, s.flags.left)
  {
    TextIn(a, s);
    TextIn(a, s.(precision := -1));
    hide ConversionText, InFieldText;
    if s.precision < |a.text| {
      CutLeft(a.text, s.precision, s.fieldWidth);
      CutRight(a.text, s.precision, s.fieldWidth);
    }
  }

  lemma TextIn(a: Arg, s: Spec)
    requires Sound(s) && s.ftype == TypeStr
    ensures ConversionText(s, a) == InFieldText(Visible(a.text, s.precision), s.fieldWidth, s.flags.left)
  {
    hide Visible, Repeat;
  }

  lemma LetterS(rest: string, s: Spec)
    ensures Conversion("s" + rest, s) == Decoded(rest, s.(base := 10, ftype := TypeStr))
  {
    assert ("s" + rest)[1..] == rest;
  }

  lemma NoField(flags: string)
    ensures FieldSpec(flags, "").fieldWidth == -1
  {
  }

  lemma FieldPrecisionNatural(a: Arg)
    ensures FieldPrecision(a) >= 0
  {
  }

  lemma VisibleText(a: Arg, s: Spec)
    requires Sound(s) && s.ftype == TypeStr && s.fieldWidth == -1
    ensures ConversionText(s, a) == Visible(a.text, s.precision)
  {
    NothingRepeated(' ', -1 - |Visible(a.text, s.precision)|);
    assert Visible(a.text, s.precision) + "" == "" + Visible(a.text, s.precision) == Visible(a.text, s.precision);
  }

  /** An integer conversion without a width takes a negative precision as an omitted one exactly when
      what is left of it in the field is no longer than the digits. */
  lemma NegativePrecisionInteger(flags: string, a: Arg, rest: string, args: seq<Arg>)
    requires AllFlags(flags) && IntOf(a) < 0
    requires IsInteger(Conversion(rest, ZERO_SPEC).spec.ftype)
    ensures IsBase(Conversion(rest, FieldSpec(flags, "")).spec.base)
    ensures var s := Conversion(rest, FieldSpec(flags, "")).spec;
            Render.Render("%" + (flags + ("" + (".*" + rest))), [a] + args)
            == Render.Render("%" + (flags + ("" + rest)), args)
            <==> FieldPrecision(a) <= |Lsb(Magnitude(IntegerOf(s.ftype, First(args)), s.flags), s.base)|
  {
    hide Conversion, Emit, Render.Render, FieldSpec, FieldPrecision, NumberText, Lsb, Magnitude, IntegerOf;
    var s, p := FieldSpec(flags, ""), FieldPrecision(a);
    StarText(flags, "", a, rest, args);
    OmittedText(flags, "", rest, args);
    FieldUnsigned(flags, "");
    NoField(flags);
    TypeOf(rest, s);
    ConversionSound(rest, s);
    ConversionSound(rest, s.(precision := p));
    ConversionSound(rest, s.(precision := -1));
    assert s.(precision := s.precision) == s;
    PrecisionCarried(rest, s, s.precision, p);
    PrecisionCarried(rest, s, s.precision, -1);
    var t := Conversion(rest, s).spec;
    var n := IntegerOf(t.ftype, First(args));
    SameEmit(Conversion(rest, s.(precision := p)), Conversion(rest, s.(precision := -1)), args);
    if p <= |Lsb(Magnitude(n, t.flags), t.base)| {
      ShortPrecision(n, t, p);
    } else {
      LongPrecision(n, t, p);
    }
  }

  /** The deviation at its simplest: precision -1 leaves nothing of a text that an omitted precision
      prints in full. */
  lemma NegativePrecisionHidesText()
    ensures Render.Render("%.*s", [Arg(0xFFFF_FFFF, ""), Arg(0, "x")]) == ""
    ensures Render.Render("%s", [Arg(0, "x")]) == "x"
  {
    var a, t := Arg(0xFFFF_FFFF, ""), Arg(0, "x");
    assert "%.*s" == "%" + ("" + ("" + (".*" + ("s" + "")))) && "%s" == "%" + ("" + ("" + ("s" + "")));
    assert [a, t] == [a] + [t];
    assert IntOf(a) == -1 && FieldPrecision(a) == 0;
    TextAlone(0, t);
    TextAlone(-1, t);
    StarText("", "", a, "s", [t]);
    LetterS("", ZERO_SPEC);
    assert "s" + "" == "s";
    OmittedText("", "", "s", [t]);
  }

  lemma TextAlone(p: int, t: Arg)
    ensures WithPrecision("", "", p, "s", [t]) == Visible(t.text, p)
  {
    var s := FieldSpec("", "").(precision := p);
    LetterS("", s);
    assert "s" + "" == "s";
    ConversionSound("s", s);
    NoField("");
    VisibleText(t, Conversion("s", s).spec);
    assert Render.Render("", Others([t])) == "";
    assert Visible(t.text, p) + "" == Visible(t.text, p);
    hide Conversion, ConversionText, FieldSpec;
  }

  /** The rendering with '.*' is the one with the precision written out, 0 for a negative one. */
  predicate SplicesPrecision(a: Arg, flags: string, width: string, rest: string, args: seq<Arg>) {
    Render.Render("%" + (flags + (width + (".*" + rest))), [a] + args)
    == Render.Render("%" + (flags + (width + ("." + Decimal(PrecisionOf(a)) + rest))), args)
  }

  lemma SpliceHolds(a: Arg, flags: string, width: string, rest: string, args: seq<Arg>)
    requires AllFlags(flags) && WidthWritten(width) && NoDigitFirst(rest)
    requires IntOf(a) >= 0 || Wrap16(IntOf(a)) <= 0
    ensures SplicesPrecision(a, flags, width, rest, args)
  {
    StarPrecision(flags, width, a, rest, args);
  }

  /** The field turns a negative precision into a positive one, which lets a text of one character
      through; the literal 0 does not. */
  lemma PositivePrecision(a: Arg)
    requires IntOf(a) < 0 && Wrap16(IntOf(a)) > 0
    ensures !SplicesPrecision(a, "", "", "s", [Arg(0, "x")])
  {
    var zero, t := Arg(0, ""), Arg(0, "x");
    PrecisionsDiffer(a);
    hide *;
    SpliceHolds(zero, "", "", "s", [t]);
    StarTextAlone(zero, t);
    StarTextAlone(a, t);
    SplicesAlike(a, zero, t);
  }

  lemma PrecisionsDiffer(a: Arg)
    requires IntOf(a) < 0 && Wrap16(IntOf(a)) > 0
    ensures IntOf(Arg(0, "")) == 0 && PrecisionOf(Arg(0, "")) == PrecisionOf(a)
    ensures AllFlags("") && WidthWritten("") && NoDigitFirst("s")
    ensures Visible("x", FieldPrecision(Arg(0, ""))) != Visible("x", FieldPrecision(a))
  {
    assert Visible("x", FieldPrecision(a)) == "x";
  }

  lemma StarTextAlone(a: Arg, t: Arg)
    ensures Render.Render("%" + ("" + ("" + (".*" + "s"))), [a] + [t]) == Visible(t.text, FieldPrecision(a))
  {
    hide WithPrecision, Render.Render, Visible, FieldPrecision;
    StarText("", "", a, "s", [t]);
    TextAlone(FieldPrecision(a), t);
  }

  /** Arguments that are written out alike agree if both splice. */
  lemma SplicesAlike(a: Arg, b: Arg, t: Arg)
    requires PrecisionOf(a) == PrecisionOf(b)
    ensures SplicesPrecision(a, "", "", "s", [t]) && SplicesPrecision(b, "", "", "s", [t])
            ==> Render.Render("%" + ("" + ("" + (".*" + "s"))), [a] + [t])
                == Render.Render("%" + ("" + ("" + (".*" + "s"))), [b] + [t])
  {
    hide Render.Render, Decimal, PrecisionOf;
  }

  /** A precision given by '.*' prints like the precision written out, 0 for a negative one, in every
      context, exactly when the field does not turn a negative one positive. */
  lemma StarPrecisionForAll(a: Arg)
    ensures (forall flags: string, width: string, rest: string, args: seq<Arg>
               | AllFlags(flags) && WidthWritten(width) && NoDigitFirst(rest) ::
               SplicesPrecision(a, flags, width, rest, args))
            <==> IntOf(a) >= 0 || Wrap16(IntOf(a)) <= 0
  {
    hide SplicesPrecision, Decimal, Render.Render;
    if IntOf(a) >= 0 || Wrap16(IntOf(a)) <= 0 {
      forall flags: string, width: string, rest: string, args: seq<Arg>
        | AllFlags(flags) && WidthWritten(width) && NoDigitFirst(rest)
        ensures SplicesPrecision(a, flags, width, rest, args)
      {
        SpliceHolds(a, flags, width, rest, args);
      }
    } else {
      PositivePrecision(a);
      assert AllFlags("") && WidthWritten("") && NoDigitFirst("s");
    }
  }
}
