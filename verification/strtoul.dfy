/** strtoul of string.c, and how it undoes number(). */
module Strtoul {
  import opened Words
  import opened TextBuffer
  import opened Digits
  import opened FormatSpec
  import opened Number

  /** isdigit(c) ? c - '0' : tolower(c) - 'a' + 10, for a hexadecimal digit c */
  function HexValue(c: char): nat {
    if IsDigit(c) then c as int - 48
    else if 'A' <= c <= 'F' then c as int - 55
    else if 'a' <= c <= 'f' then c as int - 87
    else 0
  }

  /** The loop's test is value > base, so a digit equal to the base passes. */
  predicate Accepts(c: char, base: nat) {
    IsHexDigit(c) && HexValue(c) <= base
  }

  function AcceptedRun(s: string, base: nat): (n: nat)
    ensures n <= |s|
    ensures forall i | 0 <= i < n :: Accepts(s[i], base)
    ensures n < |s| ==> !Accepts(s[n], base)
  {
    if s != "" && Accepts(s[0], base) then 1 + AcceptedRun(s[1..], base) else 0
  }

  /** result * base + value in 64-bit arithmetic. */
  function Shift(acc: u64, d: nat, base: nat): u64 {
    Wrap64(acc * base + d)
  }

  /** The value of a run of digits in 64-bit arithmetic. */
  function Accumulated(s: string, base: nat): u64 {
    if s == "" then 0
    else
      var k := |s| - 1;
      Shift(Accumulated(s[..k], base), HexValue(s[k]), base)
  }

  function SkippedPrefix(s: string, base: nat): nat {
    if base == 16 && |s| > 1 && s[0] == '0' && (s[1] == 'x' || s[1] == 'X') then 2 else 0
  }

  /** strtoul: the value, and the index at which reading stopped. */
  function Parsed(s: string, base: nat): (r: (u64, nat))
    ensures r.1 <= |s|
  {
    var p := SkippedPrefix(s, base);
    var n := AcceptedRun(s[p..], base);
    (Accumulated(s[p..][..n], base), p + n)
  }

  lemma {:induction false} RunIs(s: string, base: nat, n: nat)
    requires n <= |s|
    requires forall i | 0 <= i < n :: Accepts(s[i], base)
    requires n < |s| ==> !Accepts(s[n], base)
    ensures AcceptedRun(s, base) == n
  {
    if n == 0 {
    } else {
      RunIs(s[1..], base, n - 1);
    }
  }

  lemma ParsedWhen(s: string, base: nat, p: nat, n: nat)
    requires p == SkippedPrefix(s, base) && n == AcceptedRun(s[p..], base)
    ensures Parsed(s, base) == (Accumulated(s[p..][..n], base), p + n)
  {
  }

  /** The values of a run of digits, the last one first. */
  function DigitValues(s: string): (r: seq<nat>)
    ensures |r| == |s|
  {
    if s == "" then [] else [HexValue(s[|s| - 1])] + DigitValues(s[..|s| - 1])
  }

  lemma WrapPeriod(y: int, k: int)
    ensures Wrap64(y + TWO64 * k) == Wrap64(y)
  {
  }

  lemma ShiftWraps(x: nat, d: nat, base: nat)
    ensures Shift(Wrap64(x), d, base) == Wrap64(d + base * x)
  {
    var q, r := x / TWO64, Wrap64(x);
    assert x == TWO64 * q + r;
    assert base * x == base * (TWO64 * q) + base * r;
    assert base * (TWO64 * q) == TWO64 * (base * q);
    WrapPeriod(d + base * r, base * q);
  }

  /** The loop computes the positional value of its run, modulo 2^64 when it overflows. */
  lemma {:induction false} AccumulatedValue(s: string, base: nat)
    ensures Accumulated(s, base) == Wrap64(ValueOf(DigitValues(s), base))
  {
    hide Shift, HexValue, Wrap64;
    if s == "" {
      assert ValueOf([], base) == 0;
      WrapZero();
    } else {
      var t, d := s[..|s| - 1], HexValue(s[|s| - 1]);
      AccumulatedValue(t, base);
      ShiftWraps(ValueOf(DigitValues(t), base), d, base);
      assert DigitValues(s)[1..] == DigitValues(t);
    }
  }

  lemma WrapZero()
    ensures Wrap64(0) == 0
  {
  }

  method StrToUl(cp: string, base: nat) returns (result: u64, end: nat)
    requires IsCString(cp)
    ensures (result, end) == Parsed(cp, if base == 0 then 10 else base)
  {
    var b := if base == 0 then 10 else base;
    ghost var p := SkippedPrefix(cp, b);
    end := 0;
    if b == 16 && At(cp, 0) == '0' && (At(cp, 1) == 'x' || At(cp, 1) == 'X') { end := 2; }
    assert end == p;
    result, end := ReadDigits(cp, end, b);
    assert cp[p..][..end - p] == cp[p..end];
    ParsedWhen(cp, b, p, end - p);
  }

  lemma AccumulatedNext(cp: string, start: nat, i: nat, b: nat)
    requires start <= i < |cp|
    ensures Accumulated(cp[start..i + 1], b) == Shift(Accumulated(cp[start..i], b), HexValue(cp[i]), b)
  {
    assert cp[start..i + 1] == cp[start..i] + [cp[i]];
    hide Accumulated, HexValue, Shift;
    AccumulatedStep(cp[start..i], cp[i], b);
  }

  /** The loop of strtoul. */
  method ReadDigits(cp: string, start: nat, b: nat) returns (result: u64, i: nat)
    requires start <= |cp| && IsCString(cp)
    ensures start <= i <= |cp| && AcceptedRun(cp[start..], b) == i - start
    ensures result == Accumulated(cp[start..i], b)
  {
    i, result := start, 0;
    hide Accumulated, HexValue, IsHexDigit, Shift, AcceptedRun, Accepts, IsCString;
    NotHexNul();
    AccumulatedNone(cp[start..i], b);
    while IsHexDigit(At(cp, i))
      invariant start <= i <= |cp|
      invariant AcceptedRun(cp[start..], b) == i - start + AcceptedRun(cp[i..], b)
      invariant result == Accumulated(cp[start..i], b)
      decreases |cp| - i
    {
      RunAt(cp, i, b);
      var value := HexValue(cp[i]);
      if value > b { return; }
      AccumulatedNext(cp, start, i, b);
      result := Shift(result, value, b);
      i := i + 1;
    }
    RunAt(cp, i, b);
  }

  lemma RunAt(cp: string, i: nat, b: nat)
    requires i <= |cp|
    ensures AcceptedRun(cp[i..], b)
            == if i < |cp| && IsHexDigit(cp[i]) && HexValue(cp[i]) <= b then 1 + AcceptedRun(cp[i + 1..], b) else 0
  {
    if i < |cp| { assert cp[i..][1..] == cp[i + 1..]; }
  }

  lemma NotHexNul()
    ensures !IsHexDigit('\0')
  {
  }

  lemma AccumulatedNone(s: string, base: nat)
    requires s == ""
    ensures Accumulated(s, base) == 0
  {
  }

  lemma AccumulatedStep(s: string, c: char, base: nat)
    ensures Accumulated(s + [c], base) == Shift(Accumulated(s, base), HexValue(c), base)
  {
    assert (s + [c])[..|s|] == s;
  }

  /** A digit character stands for its digit. */
  lemma DigitCharValue(d: nat, small: bool)
    requires d < 16
    ensures IsHexDigit(DigitChar(d, small)) && HexValue(DigitChar(d, small)) == d
  {
  }

  lemma QuotientBelow(n: nat, base: nat)
    requires base >= 2
    ensures n >= base ==> 0 <= n / base < n
  {
    if n >= base { QuotientSmaller(n, base); }
  }

  /** Digits are read most significant first: the last character is the lowest digit. */
  lemma DigitsTextStep(n: u64, base: nat, small: bool)
    requires IsBase(base)
    ensures n < base ==> DigitsText(n, base, small) == [DigitChar(n, small)]
    ensures n >= base ==>
              0 <= n / base < n
              && DigitsText(n, base, small) == DigitsText(n / base, base, small) + [DigitChar(n % base, small)]
  {
    hide DigitChar;
    QuotientBelow(n, base);
    if n >= base {
      var ds := Lsb(n / base, base);
      assert Lsb(n, base) == [n % base] + ds;
      assert Chars([n % base] + ds, small) == [DigitChar(n % base, small)] + Chars(ds, small);
    }
  }

  lemma {:induction false} DigitsAreDigits(n: u64, base: nat, small: bool)
    requires IsBase(base)
    ensures forall c | c in DigitsText(n, base, small) :: Accepts(c, base)
    decreases n
  {
    DigitsTextStep(n, base, small);
    if n < base {
      DigitCharValue(n, small);
    } else {
      DigitCharValue(n % base, small);
      DigitsAreDigits(n / base, base, small);
    }
  }

  lemma {:induction false} ZerosAccumulate(z: string, base: nat)
    requires forall c | c in z :: c == '0'
    ensures (forall c | c in z :: Accepts(c, base)) && Accumulated(z, base) == 0
  {
    if z == "" {
    } else {
      var k := |z| - 1;
      assert z[k] in z && forall c | c in z[..k] :: c in z;
      ZerosAccumulate(z[..k], base);
    }
  }

  /** Reading back the digits of a 64-bit number, behind any zeros, gives the number. */
  lemma {:induction false} DigitsAccumulate(z: string, n: u64, base: nat, small: bool)
    requires IsBase(base) && forall c | c in z :: c == '0'
    ensures Accumulated(z + DigitsText(n, base, small), base) == n
    decreases n
  {
    hide DigitsText, Accumulated, HexValue, Shift, DigitChar;
    DigitsTextStep(n, base, small);
    if n < base {
      ZerosAccumulate(z, base);
      DigitCharValue(n, small);
      AccumulatedStep(z, DigitChar(n, small), base);
      FirstDigit(n, base);
    } else {
      DigitsAccumulate(z, n / base, base, small);
      DigitCharValue(n % base, small);
      var t := z + DigitsText(n / base, base, small);
      AccumulatedStep(t, DigitChar(n % base, small), base);
      assert z + DigitsText(n, base, small) == t + [DigitChar(n % base, small)];
      NextDigitIn(n, base);
    }
  }

  lemma FirstDigit(n: u64, base: nat)
    ensures Shift(0, n, base) == n
  {
  }

  lemma NextDigitIn(n: u64, base: nat)
    requires base > 0 && n / base < TWO64
    ensures Shift(n / base, n % base, base) == n
  {
    DivisionLaw(n, base);
  }

  /** number() prints nothing before the prefix and digits: no sign and no leading blanks. */
  predicate Clean(num: u64, spec: Spec)
    requires IsBase(spec.base)
  {
    SignText(num, spec.flags) == ""
    && (spec.flags.left || spec.flags.zeropad || spec.fieldWidth - Natural(num, spec) <= 1)
  }

  function TrailingBlanks(num: u64, spec: Spec): nat
    requires IsBase(spec.base)
  {
    var room := spec.fieldWidth - Natural(num, spec);
    if spec.flags.left && room > 0 then room else 0
  }

  function Zeros(num: u64, spec: Spec): nat
    requires IsBase(spec.base)
  {
    var room := spec.fieldWidth - Natural(num, spec);
    var extra := spec.precision - |DigitsText(Magnitude(num, spec.flags), spec.base, spec.flags.small)|;
    (if spec.flags.zeropad && !spec.flags.left && room > 0 then room else 0) + if extra > 0 then extra else 0
  }

  lemma CleanLead(num: u64, spec: Spec)
    requires IsBase(spec.base) && Clean(num, spec)
    ensures Magnitude(num, spec.flags) == num
    ensures var room := spec.fieldWidth - Natural(num, spec);
            LeadText(num, spec, room)
            == "" + "" + PrefixText(num, spec) + Repeat('0', if spec.flags.zeropad && !spec.flags.left then room else 0)
  {
    hide Natural, PrefixText, Repeat;
    var room := spec.fieldWidth - Natural(num, spec);
    SameRepeat(' ', if spec.flags.left || spec.flags.zeropad then 0 else room - 1, 0);
    NothingRepeated(' ', 0);
  }

  /** A clean number: prefix, zeros, digits, blanks. */
  lemma CleanText(num: u64, spec: Spec)
    requires IsBase(spec.base) && Clean(num, spec)
    ensures Magnitude(num, spec.flags) == num
    ensures NumberText(num, spec)
            == PrefixText(num, spec)
               + (Repeat('0', Zeros(num, spec)) + DigitsText(num, spec.base, spec.flags.small))
               + Repeat(' ', TrailingBlanks(num, spec))
  {
    hide Natural, PrefixText, DigitsText, Repeat, LeadText;
    var room := spec.fieldWidth - Natural(num, spec);
    var pad := if spec.flags.zeropad && !spec.flags.left then room else 0;
    var extra := spec.precision - |DigitsText(num, spec.base, spec.flags.small)|;
    CleanLead(num, spec);
    ZerosJoin(pad, extra);
    SameRepeat(' ', if spec.flags.left then room else 0, TrailingBlanks(num, spec));
    Regroup(PrefixText(num, spec), Repeat('0', pad), Repeat('0', extra),
            DigitsText(num, spec.base, spec.flags.small), Repeat(' ', TrailingBlanks(num, spec)));
  }

  lemma ZerosJoin(m: int, n: int)
    ensures Repeat('0', m) + Repeat('0', n) == Repeat('0', (if m > 0 then m else 0) + if n > 0 then n else 0)
  {
  }

  lemma Regroup(p: string, y: string, z: string, d: string, t: string)
    ensures "" + "" + p + y + z + d + t == p + (y + z + d) + t
  {
  }

  /** Where the last digit ends: only the blanks of a left-justified field lie beyond. */
  function DigitsEnd(num: u64, spec: Spec): int
    requires IsBase(spec.base)
  {
    |NumberText(num, spec)| - TrailingBlanks(num, spec)
  }

  /** A run of accepted characters, followed by blanks or nothing, is what the loop reads. */
  lemma RunBeforeBlanks(run: string, t: nat, base: nat)
    requires forall c | c in run :: Accepts(c, base)
    ensures AcceptedRun(run + Repeat(' ', t), base) == |run|
    ensures (run + Repeat(' ', t))[..|run|] == run
  {
    var s := run + Repeat(' ', t);
    forall i | 0 <= i < |run| ensures Accepts(s[i], base) { assert run[i] in run; }
    RunIs(s, base, |run|);
  }

  /** strtoul on a prefix it skips or reads as a zero, then zeros and digits, then blanks. */
  lemma ParseDigits(prefix: string, z: nat, num: u64, base: nat, small: bool, t: nat)
    requires IsBase(base)
    requires prefix == "" || (base == 16 && (prefix == "0x" || prefix == "0X")) || (base == 8 && prefix == "0")
    ensures var run := prefix + (Repeat('0', z) + DigitsText(num, base, small));
            Parsed(run + Repeat(' ', t), base) == (num, |run|)
  {
    var skipped := if base == 16 then prefix else "";
    var zeros := (if base == 16 then "" else prefix) + Repeat('0', z);
    var digits := DigitsText(num, base, small);
    assert forall c | c in zeros :: c == '0';
    hide DigitsText, Parsed, Repeat;
    SplitPrefix(prefix, Repeat('0', z), digits, Repeat(' ', t), base);
    ParseBody(skipped, zeros, num, base, small, t);
  }

  lemma ParseBody(skipped: string, zeros: string, num: u64, base: nat, small: bool, t: nat)
    requires IsBase(base) && forall c | c in zeros :: c == '0'
    requires skipped == "" || (base == 16 && (skipped == "0x" || skipped == "0X"))
    ensures var body := zeros + DigitsText(num, base, small);
            Parsed(skipped + body + Repeat(' ', t), base) == (num, |skipped| + |body|)
  {
    hide DigitsText, Accumulated, AcceptedRun, Parsed, SkippedPrefix, Accepts, Repeat;
    var body := zeros + DigitsText(num, base, small);
    var s := skipped + body + Repeat(' ', t);
    assert s[|skipped|..] == body + Repeat(' ', t);
    BodyAccepted(zeros, num, base, small);
    RunBeforeBlanks(body, t, base);
    PrefixSkipped(skipped, zeros, num, base, small, t);
    DigitsAccumulate(zeros, num, base, small);
    ParsedWhen(s, base, |skipped|, |body|);
  }

  lemma SplitPrefix(prefix: string, z: string, digits: string, t: string, base: nat)
    ensures var zeros := (if base == 16 then "" else prefix) + z;
            var p := if base == 16 then |prefix| else 0;
            var s := prefix + (z + digits) + t;
            && s == (if base == 16 then prefix else "") + (zeros + digits) + t
            && |prefix + (z + digits)| == p + |zeros + digits|
  {
  }

  lemma BodyAccepted(zeros: string, num: u64, base: nat, small: bool)
    requires IsBase(base) && forall c | c in zeros :: c == '0'
    ensures forall c | c in zeros + DigitsText(num, base, small) :: Accepts(c, base)
  {
    ZerosAccumulate(zeros, base);
    DigitsAreDigits(num, base, small);
  }

  /** Without the # flag no digit can be mistaken for the x of a prefix. */
  lemma PrefixSkipped(prefix: string, zeros: string, num: u64, base: nat, small: bool, t: nat)
    requires IsBase(base) && forall c | c in zeros :: c == '0'
    requires prefix == "" || (base == 16 && (prefix == "0x" || prefix == "0X"))
    ensures SkippedPrefix(prefix + (zeros + DigitsText(num, base, small)) + Repeat(' ', t), base) == |prefix|
  {
    var body := zeros + DigitsText(num, base, small);
    BodyAccepted(zeros, num, base, small);
    if base == 16 && prefix == "" {
      var s := "" + body + Repeat(' ', t);
      if |body| > 1 {
        assert s[1] == body[1] && body[1] in body;
      }
    }
  }

  /** Printer and parser undo each other: strtoul on what number() wrote returns the number and stops
      right after its last digit, for every value, base, width, precision, case and prefix, exactly
      when number() put neither a sign nor a blank in front. */
  lemma RoundTrip(num: u64, spec: Spec)
    requires IsBase(spec.base)
    ensures Parsed(NumberText(num, spec), spec.base) == (num, DigitsEnd(num, spec)) <==> Clean(num, spec)
  {
    hide NumberText, Parsed, DigitsText, Natural, Zeros;
    if Clean(num, spec) {
      CleanText(num, spec);
      ParseDigits(PrefixText(num, spec), Zeros(num, spec), num, spec.base, spec.flags.small,
                  TrailingBlanks(num, spec));
    } else {
      DirtyStart(num, spec);
    }
  }

  /** A sign or blank in front is not a digit, so strtoul reads nothing. */
  lemma DirtyStart(num: u64, spec: Spec)
    requires IsBase(spec.base) && !Clean(num, spec)
    ensures Parsed(NumberText(num, spec), spec.base).1 == 0 < DigitsEnd(num, spec)
  {
    NumberLength(num, spec);
    var text := NumberText(num, spec);
    assert text[0] == ' ' || text[0] == '+' || text[0] == '-' by { FirstCharacter(num, spec); }
    RunIs(text, spec.base, 0);
    assert text[0..] == text;
  }

  lemma FirstCharacter(num: u64, spec: Spec)
    requires IsBase(spec.base) && !Clean(num, spec)
    ensures |NumberText(num, spec)| > 0
    ensures NumberText(num, spec)[0] == ' ' || NumberText(num, spec)[0] == '+' || NumberText(num, spec)[0] == '-'
  {
    var lead := LeadText(num, spec, spec.fieldWidth - Natural(num, spec));
    assert |lead| > 0 && (lead[0] == ' ' || lead[0] == '+' || lead[0] == '-');
    assert NumberText(num, spec)[0] == lead[0];
  }
}
