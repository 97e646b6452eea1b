/** strtoul of string.c against section 7.20.1.4 of ISO/IEC 9899:1999: where each stops reading, and
    exactly when that is the same place. */
module StrtoulStandard {
  import opened Words
  import opened Digits
  import opened FormatSpec
  import opened Strtoul

  /** The value of a digit or letter in bases up to 36. */
  function DigitValue(c: char): nat {
    if IsDigit(c) then c as int - 48
    else if 'A' <= c <= 'Z' then c as int - 55
    else if 'a' <= c <= 'z' then c as int - 87
    else 36
  }

  /** How many digits of the base a text begins with. */
  function StandardRun(s: string, base: nat): (n: nat)
    ensures n <= |s|
  {
    if s != "" && DigitValue(s[0]) < base then 1 + StandardRun(s[1..], base) else 0
  }

  /** Character i of the text ends the loop's run early: a letter from g on. */
  predicate TooHigh(s: string, base: nat, i: nat) {
    i < |s| && DigitValue(s[i]) < base && !IsHexDigit(s[i])
  }

  /** The standard's run holds hexadecimal digits only and is not followed by one equal to the base. */
  predicate RunAgrees(s: string, base: nat) {
    var n := StandardRun(s, base);
    && (forall i: nat | i < n :: !TooHigh(s, base, i))
    && !(n < |s| && IsHexDigit(s[n]) && HexValue(s[n]) == base)
  }

  lemma HexIsDigit(c: char)
    ensures IsHexDigit(c) ==> DigitValue(c) == HexValue(c) < 16
  {
  }

  /** One character of both runs. */
  lemma RunsStep(s: string, base: nat)
    requires s != "" && DigitValue(s[0]) < base <= 36 && IsHexDigit(s[0])
    ensures AcceptedRun(s, base) == 1 + AcceptedRun(s[1..], base)
    ensures StandardRun(s, base) == 1 + StandardRun(s[1..], base)
    ensures RunAgrees(s, base) <==> RunAgrees(s[1..], base)
  {
    HexIsDigit(s[0]);
    hide IsHexDigit, DigitValue, HexValue;
    var t := s[1..];
    forall i: nat | i < |t| ensures TooHigh(t, base, i) <==> TooHigh(s, base, i + 1) {
    }
    if RunAgrees(t, base) {
      forall i: nat | i < StandardRun(s, base) ensures !TooHigh(s, base, i) {
        if i > 0 { assert !TooHigh(t, base, i - 1); }
      }
    }
    if RunAgrees(s, base) {
      forall i: nat | i < StandardRun(t, base) ensures !TooHigh(t, base, i) {
        assert !TooHigh(s, base, i + 1);
      }
    }
  }

  /** The loop reads the standard's run, exactly when that run is one of hexadecimal digits that does not
      end at a digit equal to the base. */
  lemma {:induction false} RunIsStandard(s: string, base: nat)
    requires base <= 36
    ensures AcceptedRun(s, base) == StandardRun(s, base) <==> RunAgrees(s, base)
  {
    if s == "" {
    } else if DigitValue(s[0]) < base && IsHexDigit(s[0]) {
      RunsStep(s, base);
      RunIsStandard(s[1..], base);
    } else {
      HexIsDigit(s[0]);
      RunEnds(s, base);
    }
  }

  lemma RunEnds(s: string, base: nat)
    requires s != "" && !(DigitValue(s[0]) < base && IsHexDigit(s[0]))
    requires IsHexDigit(s[0]) ==> DigitValue(s[0]) == HexValue(s[0])
    ensures AcceptedRun(s, base) == StandardRun(s, base) <==> RunAgrees(s, base)
  {
    hide IsHexDigit, DigitValue, HexValue;
    if DigitValue(s[0]) < base {
      assert TooHigh(s, base, 0);
    }
  }

  /** An optional 0x in base 16 counts only before a hexadecimal digit. */
  function StandardPrefix(s: string, base: nat): nat {
    if SkippedPrefix(s, base) == 2 && |s| > 2 && IsHexDigit(s[2]) then 2 else 0
  }

  /** The loop's prefix with no digit behind it. */
  predicate BarePrefix(s: string, base: nat) {
    SkippedPrefix(s, base) == 2 && StandardPrefix(s, base) == 0
  }

  function StandardEnd(s: string, base: nat): (n: nat)
    ensures n <= |s|
  {
    var p := StandardPrefix(s, base);
    p + StandardRun(s[p..], base)
  }

  /** Without blanks and sign in front. */
  lemma EndIsStandard(s: string, base: nat)
    requires base <= 36
    ensures Parsed(s, base).1 == StandardEnd(s, base)
            <==> !BarePrefix(s, base) && RunAgrees(s[StandardPrefix(s, base)..], base)
  {
    var p := StandardPrefix(s, base);
    RunIsStandard(s[p..], base);
    hide RunAgrees, AcceptedRun, StandardRun, IsHexDigit;
    if BarePrefix(s, base) { BareEnds(s); }
  }

  lemma BareEnds(s: string)
    requires BarePrefix(s, 16)
    ensures Parsed(s, 16).1 == 2 && StandardEnd(s, 16) == 1
  {
    RunIs(s[2..], 16, 0);
    assert s[0..] == s;
    assert DigitValue(s[0]) == 0 && DigitValue(s[1]) == 33;
    assert s[1..][0] == s[1];
    assert StandardRun(s[1..], 16) == 0;
    assert StandardRun(s, 16) == 1;
  }

  predicate IsBlank(c: char) {
    c == ' ' || 9 <= c as int <= 13
  }

  function Blanks(s: string): (n: nat)
    ensures n <= |s|
    ensures s != "" && !IsBlank(s[0]) ==> n == 0
  {
    if s != "" && IsBlank(s[0]) then 1 + Blanks(s[1..]) else 0
  }

  /** White space and a sign. */
  function Lead(s: string): (n: nat)
    ensures n <= |s|
    ensures n > 0 ==> IsBlank(s[0]) || s[0] == '+' || s[0] == '-'
  {
    var b := Blanks(s);
    if b < |s| && (s[b] == '+' || s[b] == '-') then b + 1 else b
  }

  /** Where the standard's strtoul stops, for a base that is not 0. */
  function Stop(s: string, base: nat): nat {
    var k := Lead(s);
    var e := StandardEnd(s[k..], base);
    if e == 0 then 0 else k + e
  }

  /** strtoul stops where the standard says, exactly when it finds no number behind blanks or a sign, or,
      without either, no bare 0x and a run it reads in full. */
  lemma StopsExactly(s: string, base: nat)
    requires base <= 36
    ensures Parsed(s, base).1 == Stop(s, base)
            <==> if Lead(s) > 0 then StandardEnd(s[Lead(s)..], base) == 0
                 else !BarePrefix(s, base) && RunAgrees(s[StandardPrefix(s, base)..], base)
  {
    if Lead(s) > 0 {
      LeadStops(s, base);
    } else {
      assert s[0..] == s;
      EndIsStandard(s, base);
    }
  }

  lemma LeadStops(s: string, base: nat)
    requires Lead(s) > 0
    ensures Parsed(s, base).1 == 0
  {
    assert !IsHexDigit(s[0]) && s[0] != '0';
    RunIs(s, base, 0);
    assert s[0..] == s;
  }

  /** The value of the run is the standard's, which is ULONG_MAX for a number out of range, exactly when
      the number is in range or wraps round to that value. */
  lemma ValueIsStandard(run: string, base: nat)
    ensures var v := ValueOf(DigitValues(run), base);
            Accumulated(run, base) == (if v < TWO64 then v else TWO64 - 1) <==> v < TWO64 || v % TWO64 == TWO64 - 1
  {
    AccumulatedValue(run, base);
    hide Accumulated, DigitValues;
  }

  /** The base the standard chooses for base 0. */
  function ChosenBase(s: string): nat {
    if StandardPrefix(s, 16) == 2 then 16 else if s != "" && s[0] == '0' then 8 else 10
  }

  /** For base 0 the code takes 10. It stops where the standard does, exactly when the standard does not
      choose 16 and no digit up to 10 follows its run. */
  lemma BaseZeroExactly(s: string)
    ensures var b := ChosenBase(s);
            var n := StandardRun(s, b);
            Parsed(s, 10).1 == StandardEnd(s, b) <==> b != 16 && !(n < |s| && IsHexDigit(s[n]) && HexValue(s[n]) <= 10)
  {
    var b := ChosenBase(s);
    assert s[0..] == s;
    assert Parsed(s, 10).1 == AcceptedRun(s, 10);
    if b == 16 {
      HexPrefixStops(s);
    } else {
      LowerBase(s, b);
    }
  }

  lemma HexPrefixStops(s: string)
    requires StandardPrefix(s, 16) == 2
    ensures AcceptedRun(s, 10) == 1 && StandardEnd(s, 16) >= 3
  {
    RunIs(s, 10, 1);
    HexIsDigit(s[2]);
    assert s[2..][0] == s[2];
  }

  /** Below base 10 the code reads on through the digits up to 10. */
  lemma {:induction false} LowerBase(s: string, b: nat)
    requires b <= 10
    ensures var n := StandardRun(s, b);
            AcceptedRun(s, 10) == n <==> !(n < |s| && IsHexDigit(s[n]) && HexValue(s[n]) <= 10)
  {
    if s == "" {
    } else if DigitValue(s[0]) < b {
      LowerBase(s[1..], b);
    } else {
      HexIsDigit(s[0]);
    }
  }

  /** An octal run read in base 10 has its octal value exactly when all but the last digit are 0. */
  lemma {:induction false} OctalAsDecimal(run: string)
    requires forall i | 0 <= i < |run| :: '0' <= run[i] <= '7'
    ensures ValueOf(DigitValues(run), 10) >= ValueOf(DigitValues(run), 8)
    ensures ValueOf(DigitValues(run), 10) == ValueOf(DigitValues(run), 8)
            <==> forall i | 0 <= i < |run| - 1 :: run[i] == '0'
    ensures ValueOf(DigitValues(run), 8) == 0 <==> forall i | 0 <= i < |run| :: run[i] == '0'
  {
    if run == "" {
    } else {
      var t, d := run[..|run| - 1], HexValue(run[|run| - 1]);
      OctalAsDecimal(t);
      assert DigitValues(run) == [d] + DigitValues(t);
      assert DigitValues(run)[1..] == DigitValues(t);
    }
  }
}
