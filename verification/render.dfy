/** What a format and its arguments mean: the reference rendering, read off the grammar of a conversion
    specification (flags, width, precision, qualifier, letter) with every '*' resolved on the spot. */
module Render {
  import opened Words
  import opened FormatSpec
  import opened FormatDecode
  import opened Number
  import opened PaddedText

  /** A variable argument: its 64-bit slot, and the C string it points to where it is a pointer to one. */
  datatype Arg = Arg(word: u64, text: string)

  /** Stands for an argument the caller did not pass. */
  const NO_ARG := Arg(0, "")

  function First(args: seq<Arg>): Arg { if args == [] then NO_ARG else args[0] }
  function Others(args: seq<Arg>): seq<Arg> { if args == [] then [] else args[1..] }

  /** va_arg(args, int) */
  function IntOf(a: Arg): int { Wrap32(a.word) }

  function Wrap8(x: int): int { (x + 0x80) % 0x100 - 0x80 }

  /** The value number() is given for an integer conversion. */
  function IntegerOf(t: FormatType, a: Arg): u64 {
    if t == TypeUByte then a.word % 0x100
    else if t == TypeByte then Wrap64(Wrap8(a.word))
    else if t == TypeUShort then a.word % 0x1_0000
    else if t == TypeShort then Wrap64(Wrap16(a.word))
    else if t == TypeInt then Wrap64(Wrap32(a.word))
    else if t == TypeUInt then a.word % 0x1_0000_0000
    else a.word
  }

  predicate IsInteger(t: FormatType) {
    t != TypeNone && t != TypeWidth && t != TypePrecision && t != TypeChar && t != TypeStr && t != TypePtr
    && t != TypePercent && t != TypeInvalid
  }

  /** The width fits the bit-field. */
  predicate InField(s: Spec) {
    -0x80_0000 <= s.fieldWidth < 0x80_0000
  }

  /** A spec that can be rendered: its width fits the bit-field, its base is printable. */
  predicate Sound(s: Spec) {
    InField(s) && (IsInteger(s.ftype) ==> IsBase(s.base))
  }

  predicate Pending(t: FormatType) { t == TypeWidth || t == TypePrecision }

  /** The text of one conversion. */
  function ConversionText(s: Spec, a: Arg): string
    requires Sound(s)
  {
    if s.ftype == TypeChar then CharText((a.word % 256) as char, s)
    else if s.ftype == TypeStr then StringText(a.text, s)
    else if s.ftype == TypePtr then NumberText(a.word, PointerSpec(s))
    else if s.ftype == TypePercent then "%"
    else if IsInteger(s.ftype) then NumberText(IntegerOf(s.ftype, a), s)
    else ""
  }

  lemma ConversionSound(f: string, s: Spec)
    requires InField(s)
    ensures Sound(Conversion(f, s).spec) && !Pending(Conversion(f, s).spec.ftype)
    ensures Conversion(f, s).spec.ftype != TypeNone
  {
  }

  /** Decoding from the precision on gives a sound spec, or stops at ".*". */
  lemma PrecisionSound(f: string, s: Spec)
    requires InField(s)
    ensures var t := DecodePrecision(f, s).spec;
            if |f| > 1 && f[0] == '.' && f[1] == '*' then InField(t) && t.ftype == TypePrecision
            else Sound(t) && !Pending(t.ftype) && t.ftype != TypeNone
  {
    hide Conversion, Sound, AfterDigits, LeadingValue, Wrap16;
    forall g: string, p: int ensures Sound(Conversion(g, s.(precision := p)).spec)
                             && !Pending(Conversion(g, s.(precision := p)).spec.ftype)
                             && Conversion(g, s.(precision := p)).spec.ftype != TypeNone
    {
      ConversionSound(g, s.(precision := p));
    }
  }

  /** A complete conversion specification: the spec, what follows it, the arguments left for it. */
  datatype Directive = Directive(spec: Spec, rest: string, args: seq<Arg>)

  function DirectivePrecision(f: string, args: seq<Arg>, s: Spec): (d: Directive)
    requires InField(s)
    ensures |d.rest| <= |f|
    ensures Sound(d.spec) && !Pending(d.spec.ftype) && d.spec.ftype != TypeNone
  {
    PrecisionSound(f, s);
    if |f| > 1 && f[0] == '.' && f[1] == '*' then
      var t := s.(precision := NonNegative(Wrap16(IntOf(First(args)))));
      ConversionSound(f[2..], t);
      var c := Conversion(f[2..], t);
      Directive(c.spec, c.rest, Others(args))
    else
      var c := DecodePrecision(f, s);
      Directive(c.spec, c.rest, args)
  }

  function DirectiveWidth(f: string, args: seq<Arg>, s: Spec): (d: Directive)
    ensures |d.rest| <= |f|
    ensures Sound(d.spec) && !Pending(d.spec.ftype) && d.spec.ftype != TypeNone
  {
    if f != "" && IsDigit(f[0]) then
      DirectivePrecision(AfterDigits(f), args, s.(fieldWidth := Wrap24(LeadingValue(f, 0))))
    else if f != "" && f[0] == '*' then
      DirectivePrecision(f[1..], Others(args), ResumedWidth(s.(fieldWidth := Wrap24(IntOf(First(args))))))
    else DirectivePrecision(f, args, s.(fieldWidth := -1))
  }

  /** The specification that begins after a '%'. */
  function DirectiveAt(f: string, args: seq<Arg>): (d: Directive)
    ensures |d.rest| <= |f|
    ensures Sound(d.spec) && !Pending(d.spec.ftype) && d.spec.ftype != TypeNone
  {
    DirectiveWidth(AfterFlags(f), args, ZERO_SPEC.(flags := FlagsOf(f, NO_FLAGS)))
  }

  /** %p swallows the letters and digits that follow it. */
  function AfterAlnum(f: string): (r: string)
    ensures |r| <= |f|
  {
    if f != "" && IsAlnum(f[0]) then AfterAlnum(f[1..]) else f
  }

  function AfterDirective(d: Directive): (r: string)
    ensures |r| <= |d.rest|
  {
    if d.spec.ftype == TypePtr then AfterAlnum(d.rest) else d.rest
  }

  function ArgsAfter(d: Directive): seq<Arg> {
    if d.spec.ftype == TypePercent then d.args else Others(d.args)
  }

  /** One conversion and all that follows it; an invalid one ends the output. */
  function Emit(d: Directive): string
    requires Sound(d.spec)
    decreases |d.rest|, 1
  {
    if d.spec.ftype == TypeInvalid then ""
    else ConversionText(d.spec, First(d.args)) + Render(AfterDirective(d), ArgsAfter(d))
  }

  /** The full rendering of a format. */
  function Render(f: string, args: seq<Arg>): string
    decreases |f|, 0
  {
    if f == "" then ""
    else if f[0] != '%' then [f[0]] + Render(f[1..], args)
    else Emit(DirectiveAt(f[1..], args))
  }

  /** The rendering of the rest of a format from any state vsnprintf may be in between two calls. */
  function RenderFrom(f: string, args: seq<Arg>, s: Spec): string
    requires InField(s)
  {
    if f == "" then ""
    else if s.ftype == TypeWidth then Emit(DirectivePrecision(f, args, ResumedWidth(s)))
    else if s.ftype == TypePrecision then
      ConversionSound(f, ResumedPrecision(s));
      var c := Conversion(f, ResumedPrecision(s));
      Emit(Directive(c.spec, c.rest, args))
    else Render(f, args)
  }

  /** Type and base on entry do not matter to a conversion. */
  lemma ConversionFresh(f: string, s: Spec, t: Spec)
    requires s.fieldWidth == t.fieldWidth && s.flags == t.flags && s.precision == t.precision
    ensures Conversion(f, s) == Conversion(f, t)
  {
  }

  /** The state after a call that stopped at a '*', once the argument has been stored. */
  function Supplied(s: Spec, a: Arg): Spec {
    if s.ftype == TypeWidth then s.(fieldWidth := Wrap24(IntOf(a)))
    else if s.ftype == TypePrecision then s.(precision := Wrap16(IntOf(a)))
    else s
  }

  /** What a call of format_decode that returned c has done to what was still to be rendered. */
  ghost predicate Step(args: seq<Arg>, before: string, c: Decoded) {
    c.spec.ftype != TypeNone &&
    if Pending(c.spec.ftype) then
      InField(Supplied(c.spec, First(args)))
      && before == RenderFrom(c.rest, Others(args), Supplied(c.spec, First(args)))
    else Sound(c.spec) && before == Emit(Directive(c.spec, c.rest, args))
  }

  lemma NothingLeft(s: Spec)
    ensures Conversion("", s).spec.ftype == TypeInvalid
  {
  }

  lemma EmitInvalid(d: Directive)
    requires Sound(d.spec) && d.spec.ftype == TypeInvalid
    ensures Emit(d) == ""
  {
  }

  lemma SamePrecision(f: string, s: Spec, t: Spec)
    requires s.fieldWidth == t.fieldWidth && s.flags == t.flags
    requires !(|f| > 1 && f[0] == '.' && f[1] == '*')
    ensures DecodePrecision(f, s) == DecodePrecision(f, t)
  {
    hide Conversion, AfterDigits, LeadingValue, Wrap16;
    forall g: string, p: int ensures Conversion(g, s.(precision := p)) == Conversion(g, t.(precision := p)) {
      ConversionFresh(g, s.(precision := p), t.(precision := p));
    }
  }

  lemma PrecisionStep(f: string, args: seq<Arg>, s: Spec, t: Spec)
    requires s.fieldWidth == t.fieldWidth && s.flags == t.flags && InField(s)
    requires s.ftype == TypeNone
    ensures Step(args, Emit(DirectivePrecision(f, args, t)), DecodePrecision(f, s))
    ensures DecodePrecision(f, s).spec.ftype != TypeWidth
  {
    hide Emit, Render, Converted, QualifierOf, AfterQualifier;
    PrecisionSound(f, s);
    if |f| > 1 && f[0] == '.' && f[1] == '*' {
      var c := DecodePrecision(f, s);
      var p := NonNegative(Wrap16(IntOf(First(args))));
      ConversionFresh(f[2..], t.(precision := p), ResumedPrecision(Supplied(c.spec, First(args))));
      NothingLeft(t.(precision := p));
      if c.rest == "" { EmitInvalid(DirectivePrecision(f, args, t)); }
    } else {
      SamePrecision(f, s, t);
    }
  }

  lemma DirectivePrecisionFresh(f: string, args: seq<Arg>, s: Spec, t: Spec)
    requires s.fieldWidth == t.fieldWidth && s.flags == t.flags && InField(s)
    ensures DirectivePrecision(f, args, s) == DirectivePrecision(f, args, t)
  {
    if |f| > 1 && f[0] == '.' && f[1] == '*' {
      var p := NonNegative(Wrap16(IntOf(First(args))));
      ConversionFresh(f[2..], s.(precision := p), t.(precision := p));
    } else {
      SamePrecision(f, s, t);
    }
  }

  lemma NoPrecisionLeft(args: seq<Arg>, s: Spec)
    requires InField(s)
    ensures DirectivePrecision("", args, s).spec.ftype == TypeInvalid
  {
    NothingLeft(s.(precision := -1));
  }

  lemma WidthStep(f: string, args: seq<Arg>, s: Spec, t: Spec)
    requires s.flags == t.flags && s.ftype == TypeNone
    ensures Step(args, Emit(DirectiveWidth(f, args, t)), DecodeWidth(f, s))
  {
    hide Emit, Render, DecodePrecision, DirectivePrecision;
    if f != "" && IsDigit(f[0]) {
      var w := Wrap24(LeadingValue(f, 0));
      PrecisionStep(AfterDigits(f), args, s.(fieldWidth := w), t.(fieldWidth := w));
    } else if f != "" && f[0] == '*' {
      var w := Wrap24(IntOf(First(args)));
      var u := ResumedWidth(t.(fieldWidth := w));
      assert InField(u);
      DirectivePrecisionFresh(f[1..], Others(args), ResumedWidth(Supplied(DecodeWidth(f, s).spec, First(args))), u);
      if f[1..] == "" {
        NoPrecisionLeft(Others(args), u);
        EmitInvalid(DirectivePrecision("", Others(args), u));
      }
    } else {
      PrecisionStep(f, args, s.(fieldWidth := -1), t.(fieldWidth := -1));
    }
  }

  lemma {:induction false} RenderLiteral(f: string, args: seq<Arg>)
    ensures Render(f, args) == f[..LiteralRun(f)] + Render(f[LiteralRun(f)..], args)
  {
    hide Emit, DirectiveAt;
    if f == "" || f[0] == '%' {
    } else {
      RenderLiteral(f[1..], args);
      assert f[..LiteralRun(f)] == [f[0]] + f[1..][..LiteralRun(f[1..])];
      assert f[LiteralRun(f)..] == f[1..][LiteralRun(f[1..])..];
    }
  }

  lemma StepConversion(f: string, args: seq<Arg>, s: Spec)
    requires InField(s)
    ensures Sound(Conversion(f, s).spec)
    ensures var c := Conversion(f, s); Step(args, Emit(Directive(c.spec, c.rest, args)), c)
  {
    ConversionSound(f, s);
  }

  /** One call of format_decode, in terms of what is still to be rendered: a literal run, a stop at a
      '*', or a complete conversion. */
  lemma DecodeStep(f: string, args: seq<Arg>, s: Spec)
    requires f != "" && InField(s)
    ensures var c := Decode(f, s);
            if c.spec.ftype == TypeNone then
              InField(c.spec) && !Pending(s.ftype)
              && RenderFrom(f, args, s) == f[..|f| - |c.rest|] + RenderFrom(c.rest, args, c.spec)
            else Step(args, RenderFrom(f, args, s), c)
  {
    hide Emit, DecodePrecision, DirectivePrecision, DecodeWidth, DirectiveWidth, Conversion, AfterFlags, FlagsOf;
    if s.ftype == TypeWidth {
      var r := ResumedWidth(s);
      PrecisionStep(f, args, r, r);
    } else if s.ftype == TypePrecision {
      ConversionSound(f, ResumedPrecision(s));
      assert Step(args, RenderFrom(f, args, s), Decode(f, s)) by { StepConversion(f, args, ResumedPrecision(s)); }
    } else if LiteralRun(f) > 0 {
      RenderLiteral(f, args);
    } else {
      var t := s.(ftype := TypeNone, flags := FlagsOf(f[1..], NO_FLAGS));
      WidthStep(AfterFlags(f[1..]), args, t, ZERO_SPEC.(flags := FlagsOf(f[1..], NO_FLAGS)));
    }
  }
}
