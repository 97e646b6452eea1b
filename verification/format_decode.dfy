/** format_decode of printk.c: one call consumes a literal run or (part of) one conversion
    specification, stopping after a '*' and resuming from there on the next call. */
module FormatDecode {
  import opened FormatSpec

  /** What one call leaves: the rest of the format, and the spec. */
  datatype Decoded = Decoded(rest: string, spec: Spec)

  predicate IsFlag(c: char) { c == '-' || c == '+' || c == ' ' || c == '#' || c == '0' }

  function WithFlag(fl: Flags, c: char): Flags {
    if c == '-' then fl.(left := true)
    else if c == '+' then fl.(plus := true)
    else if c == ' ' then fl.(space := true)
    else if c == '#' then fl.(special := true)
    else if c == '0' then fl.(zeropad := true)
    else fl
  }

  /** The leading flag characters of f, added to fl, and what follows them. */
  function FlagsOf(f: string, fl: Flags): Flags {
    if f != "" && IsFlag(f[0]) then FlagsOf(f[1..], WithFlag(fl, f[0])) else fl
  }

  function AfterFlags(f: string): (r: string)
    ensures |r| <= |f|
    ensures r != "" ==> !IsFlag(r[0])
  {
    if f != "" && IsFlag(f[0]) then AfterFlags(f[1..]) else f
  }

  /** The value of the leading decimal digits of f, continuing from acc, and what follows them. */
  function LeadingValue(f: string, acc: nat): nat {
    if f != "" && IsDigit(f[0]) then LeadingValue(f[1..], 10 * acc + (f[0] as int - 48)) else acc
  }

  function AfterDigits(f: string): (r: string)
    ensures |r| <= |f|
    ensures f != "" && IsDigit(f[0]) ==> |r| < |f|
  {
    if f != "" && IsDigit(f[0]) then AfterDigits(f[1..]) else f
  }

  function LiteralRun(f: string): (n: nat)
    ensures n <= |f|
    ensures forall i | 0 <= i < n :: f[i] != '%'
    ensures n < |f| ==> f[n] == '%'
  {
    if f != "" && f[0] != '%' then 1 + LiteralRun(f[1..]) else 0
  }

  predicate IsQualifier(c: char) { c == 'h' || c == 'l' || c == 'L' || c == 'z' || c == 't' }

  /** hh counts as H and ll as L; other doubled letters are not merged. */
  function QualifierOf(f: string): char {
    if f == "" || !IsQualifier(f[0]) then '\0'
    else if |f| > 1 && f[1] == f[0] && f[0] == 'l' then 'L'
    else if |f| > 1 && f[1] == f[0] && f[0] == 'h' then 'H'
    else f[0]
  }

  function AfterQualifier(f: string): (r: string)
    ensures |r| <= |f|
  {
    if f == "" || !IsQualifier(f[0]) then f
    else if |f| > 1 && f[1] == f[0] && (f[0] == 'l' || f[0] == 'h') then f[2..]
    else f[1..]
  }

  function IntegerType(q: char, sign: bool): FormatType {
    if q == 'L' then TypeLongLong
    else if q == 'l' then (if sign then TypeLong else TypeULong)
    else if q == 'z' then TypeSizeT
    else if q == 'H' then (if sign then TypeByte else TypeUByte)
    else if q == 'h' then (if sign then TypeShort else TypeUShort)
    else if sign then TypeInt
    else TypeUInt
  }

  predicate IsIntegerConversion(c: char) {
    c == 'o' || c == 'x' || c == 'X' || c == 'd' || c == 'i' || c == 'u'
  }

  /** The conversion letter c, with qualifier q. */
  function Converted(c: char, q: char, spec: Spec): Spec {
    var s := spec.(base := 10);
    if c == 'c' then s.(ftype := TypeChar)
    else if c == 's' then s.(ftype := TypeStr)
    else if c == 'p' then s.(ftype := TypePtr)
    else if c == '%' then s.(ftype := TypePercent)
    else if IsIntegerConversion(c) then
      var base := if c == 'o' then 8 else if c == 'x' || c == 'X' then 16 else 10;
      var fl := if c == 'x' then s.flags.(small := true)
                else if c == 'd' || c == 'i' then s.flags.(sign := true)
                else s.flags;
      s.(base := base, flags := fl, ftype := IntegerType(q, fl.sign))
    else s.(ftype := TypeInvalid)
  }

  /** From the qualifier on. An unknown conversion letter is not consumed. */
  function Conversion(f: string, spec: Spec): (d: Decoded)
    ensures |d.rest| <= |f|
    ensures d.spec.ftype != TypeInvalid ==> |d.rest| < |f|
  {
    var r := AfterQualifier(f);
    var s := Converted(if r == "" then '\0' else r[0], QualifierOf(f), spec);
    if s.ftype == TypeInvalid then Decoded(r, s) else Decoded(r[1..], s)
  }

  function NonNegative(x: int): int { if x < 0 then 0 else x }

  /** From the precision on. */
  function DecodePrecision(f: string, spec: Spec): (d: Decoded)
    ensures |d.rest| <= |f|
    ensures d.spec.ftype != TypeInvalid ==> |d.rest| < |f|
  {
    if f == "" || f[0] != '.' then Conversion(f, spec.(precision := -1))
    else if |f| > 1 && IsDigit(f[1]) then
      Conversion(AfterDigits(f[1..]), spec.(precision := NonNegative(Wrap16(LeadingValue(f[1..], 0)))))
    else if |f| > 1 && f[1] == '*' then Decoded(f[2..], spec.(precision := -1, ftype := TypePrecision))
    else Conversion(f[1..], spec.(precision := -1))
  }

  /** From the width on. */
  function DecodeWidth(f: string, spec: Spec): (d: Decoded)
    ensures |d.rest| <= |f|
    ensures d.spec.ftype != TypeInvalid ==> |d.rest| < |f|
  {
    if f != "" && IsDigit(f[0]) then
      DecodePrecision(AfterDigits(f), spec.(fieldWidth := Wrap24(LeadingValue(f, 0))))
    else if f != "" && f[0] == '*' then Decoded(f[1..], spec.(fieldWidth := -1, ftype := TypeWidth))
    else DecodePrecision(f, spec.(fieldWidth := -1))
  }

  /** A width supplied by an argument: negative means left-justified. */
  function ResumedWidth(spec: Spec): Spec {
    var s := spec.(ftype := TypeNone);
    if s.fieldWidth < 0
    then s.(fieldWidth := Wrap24(-s.fieldWidth), flags := s.flags.(left := true))
    else s
  }

  /** A precision supplied by an argument: negative means 0. */
  function ResumedPrecision(spec: Spec): Spec {
    spec.(ftype := TypeNone, precision := NonNegative(spec.precision))
  }

  /** format_decode, as a function of the rest of the format and the spec it is entered with. */
  function Decode(f: string, spec: Spec): (d: Decoded)
    ensures |d.rest| <= |f|
  {
    if spec.ftype == TypeWidth then DecodePrecision(f, ResumedWidth(spec))
    else if spec.ftype == TypePrecision then Conversion(f, ResumedPrecision(spec))
    else
      var s := spec.(ftype := TypeNone);
      var n := LiteralRun(f);
      if n > 0 || f == "" then Decoded(f[n..], s)
      else DecodeWidth(AfterFlags(f[1..]), s.(flags := FlagsOf(f[1..], NO_FLAGS)))
  }

  /** From any state, a call on a nonempty format consumes a character or reports INVALID. */
  lemma DecodeProgress(f: string, spec: Spec)
    requires f != ""
    ensures Decode(f, spec).spec.ftype == TypeInvalid || |Decode(f, spec).rest| < |f|
  {
  }

  lemma Suffix(fmt: string, i: nat)
    requires i < |fmt|
    ensures fmt[i..] != "" && fmt[i..][0] == fmt[i] && fmt[i..][1..] == fmt[i + 1..]
  {
  }

  lemma Wrap32Step(acc: nat, d: nat)
    ensures Wrap32(10 * Wrap32(acc) + d) == Wrap32(10 * acc + d)
  {
    var k := (acc + 0x8000_0000) / 0x1_0000_0000;
    assert Wrap32(acc) == acc - 0x1_0000_0000 * k;
    assert 10 * acc + d == 10 * Wrap32(acc) + d + 0x1_0000_0000 * (10 * k);
    Wrap32Period(10 * Wrap32(acc) + d, 10 * k);
  }

  lemma Wrap32Period(x: int, k: int)
    ensures Wrap32(x + 0x1_0000_0000 * k) == Wrap32(x)
  {
  }

  /** skip_atoi, at a digit: the value of the digits in 32-bit arithmetic. */
  method SkipAtoi(fmt: string, start: nat) returns (value: int, next: nat)
    requires start < |fmt| && IsDigit(fmt[start])
    ensures start < next <= |fmt| && fmt[next..] == AfterDigits(fmt[start..])
    ensures value == Wrap32(LeadingValue(fmt[start..], 0))
  {
    value, next := 0, start;
    ghost var acc := 0;
    while true
      invariant start <= next < |fmt| && IsDigit(fmt[next])
      invariant value == Wrap32(acc) && acc >= 0
      invariant LeadingValue(fmt[next..], acc) == LeadingValue(fmt[start..], 0)
      invariant AfterDigits(fmt[next..]) == AfterDigits(fmt[start..])
      decreases |fmt| - next
    {
      Suffix(fmt, next);
      Wrap32Step(acc, fmt[next] as int - 48);
      value := Wrap32(value * 10 + (fmt[next] as int) - 48);
      acc := 10 * acc + (fmt[next] as int - 48);
      next := next + 1;
      if next < |fmt| { Suffix(fmt, next); }
      if !IsDigit(At(fmt, next)) { break; }
    }
  }

  /** Label qualifier of format_decode. */
  method DecodeQualifier(fmt: string, start: nat, spec: Spec) returns (next: nat, s: Spec)
    requires start <= |fmt| && IsCString(fmt)
    ensures start <= next <= |fmt| && Decoded(fmt[next..], s) == Conversion(fmt[start..], spec)
  {
    next := start;
    var q := '\0';
    if start < |fmt| { Suffix(fmt, start); }
    if start + 1 < |fmt| { Suffix(fmt, start + 1); }
    if IsQualifier(At(fmt, next)) {
      q := fmt[next];
      next := next + 1;
      if q == At(fmt, next) {
        if q == 'l' {
          q := 'L';
          next := next + 1;
        } else if q == 'h' {
          q := 'H';
          next := next + 1;
        }
      }
    }
    assert fmt[next..] == AfterQualifier(fmt[start..]) && q == QualifierOf(fmt[start..]);
    if next < |fmt| { Suffix(fmt, next); }
    s := Converted(At(fmt, next), q, spec);
    if s.ftype != TypeInvalid { next := next + 1; }
  }

  /** Label precision of format_decode. */
  method DecodePrecisionAt(fmt: string, start: nat, spec: Spec) returns (next: nat, s: Spec)
    requires start <= |fmt| && IsCString(fmt)
    ensures start <= next <= |fmt| && Decoded(fmt[next..], s) == DecodePrecision(fmt[start..], spec)
  {
    next, s := start, spec.(precision := -1);
    if At(fmt, next) == '.' {
      Suffix(fmt, start);
      next := next + 1;
      if next < |fmt| { Suffix(fmt, next); }
      if IsDigit(At(fmt, next)) {
        var v: int;
        v, next := SkipAtoi(fmt, next);
        Narrow(LeadingValue(fmt[start + 1..], 0));
        s := s.(precision := Wrap16(v));
        if s.precision < 0 { s := s.(precision := 0); }
      } else if At(fmt, next) == '*' {
        return next + 1, s.(ftype := TypePrecision);
      }
    }
    next, s := DecodeQualifier(fmt, next, s);
  }

  /** Going through 32 bits first makes no difference to the bit-fields. */
  lemma Narrow(x: int)
    ensures Wrap16(Wrap32(x)) == Wrap16(x) && Wrap24(Wrap32(x)) == Wrap24(x)
  {
    var k := (x + 0x8000_0000) / 0x1_0000_0000;
    assert Wrap32(x) == x - 0x1_0000_0000 * k;
    NarrowBy16(x, k);
    NarrowBy24(x, k);
  }

  lemma NarrowBy16(x: int, k: int)
    ensures Wrap16(x - 0x1_0000_0000 * k) == Wrap16(x)
  {
    assert x - 0x1_0000_0000 * k + 0x8000 == x + 0x8000 + 0x1_0000 * (-0x1_0000 * k);
  }

  lemma NarrowBy24(x: int, k: int)
    ensures Wrap24(x - 0x1_0000_0000 * k) == Wrap24(x)
  {
    assert x - 0x1_0000_0000 * k + 0x80_0000 == x + 0x80_0000 + 0x100_0000 * (-0x100 * k);
  }

  /** format_decode: consumes fmt[start..next] and updates the spec. Reads no character past the NUL. */
  method Run(fmt: string, start: nat, spec: Spec) returns (next: nat, s: Spec)
    requires start <= |fmt| && IsCString(fmt)
    ensures start <= next <= |fmt| && Decoded(fmt[next..], s) == Decode(fmt[start..], spec)
  {
    hide DecodePrecision, DecodeWidth, Conversion, AfterFlags, FlagsOf, LiteralRun, Wrap24;
    next := start;
    if spec.ftype == TypeWidth {
      s := spec;
      if s.fieldWidth < 0 {
        s := s.(fieldWidth := Wrap24(-s.fieldWidth), flags := s.flags.(left := true));
      }
      s := s.(ftype := TypeNone);
      next, s := DecodePrecisionAt(fmt, next, s);
      return;
    }
    if spec.ftype == TypePrecision {
      s := spec;
      if s.precision < 0 { s := s.(precision := 0); }
      s := s.(ftype := TypeNone);
      next, s := DecodeQualifier(fmt, next, s);
      return;
    }
    s := spec.(ftype := TypeNone);
    next := SkipLiteral(fmt, start);
    if next != start || next == |fmt| { return; }
    Suffix(fmt, start);
    s := s.(flags := NO_FLAGS);
    next, s := ReadFlags(fmt, start + 1, s);
    next, s := DecodeWidthAt(fmt, next, s);
  }

  method SkipLiteral(fmt: string, start: nat) returns (next: nat)
    requires start <= |fmt| && IsCString(fmt)
    ensures next == start + LiteralRun(fmt[start..]) && next <= |fmt|
  {
    next := start;
    while next < |fmt|
      invariant start <= next <= |fmt|
      invariant LiteralRun(fmt[start..]) == next - start + LiteralRun(fmt[next..])
    {
      Suffix(fmt, next);
      if fmt[next] == '%' { break; }
      next := next + 1;
    }
  }

  method ReadFlags(fmt: string, start: nat, spec: Spec) returns (next: nat, s: Spec)
    requires start <= |fmt| && IsCString(fmt)
    ensures start <= next <= |fmt| && fmt[next..] == AfterFlags(fmt[start..])
    ensures s == spec.(flags := FlagsOf(fmt[start..], spec.flags))
  {
    next, s := start, spec;
    while IsFlag(At(fmt, next))
      invariant start <= next <= |fmt|
      invariant AfterFlags(fmt[next..]) == AfterFlags(fmt[start..])
      invariant s == spec.(flags := s.flags)
      invariant FlagsOf(fmt[next..], s.flags) == FlagsOf(fmt[start..], spec.flags)
      decreases |fmt| - next
    {
      Suffix(fmt, next);
      s := s.(flags := WithFlag(s.flags, fmt[next]));
      next := next + 1;
    }
    if next < |fmt| { Suffix(fmt, next); }
  }

  method DecodeWidthAt(fmt: string, start: nat, spec: Spec) returns (next: nat, s: Spec)
    requires start <= |fmt| && IsCString(fmt)
    ensures start <= next <= |fmt| && Decoded(fmt[next..], s) == DecodeWidth(fmt[start..], spec)
  {
    next, s := start, spec.(fieldWidth := -1);
    if start < |fmt| { Suffix(fmt, start); }
    if IsDigit(At(fmt, next)) {
      var v: int;
      v, next := SkipAtoi(fmt, next);
      Narrow(LeadingValue(fmt[start..], 0));
      s := s.(fieldWidth := Wrap24(v));
    } else if At(fmt, next) == '*' {
      return next + 1, s.(ftype := TypeWidth);
    }
    next, s := DecodePrecisionAt(fmt, next, s);
  }
}
