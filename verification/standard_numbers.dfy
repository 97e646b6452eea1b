/** Integer conversions against section 7.19.6.1 of ISO/IEC 9899:1999: what the standard prints, and
    exactly when the code prints the same. */
module StandardNumbers {
  import opened ConversionSpec

  /** The standard's digits: none for zero with precision zero. */
  function StandardDigits(v: nat, base: nat, upper: bool, p: int): string
    requires 2 <= base <= 16
  {
    if v == 0 && p == 0 then "" else Digits(v, base, upper, p)
  }

  /** The standard's field: exactly the width, and zeros only without a precision. */
  function StandardField(flags: string, w: nat, p: int, sign: string, prefix: string, body: string): string {
    var room := w - |sign| - |prefix| - |body|;
    if '-' in flags then sign + prefix + body + Fill(' ', room)
    else if '0' in flags && p < 0 then sign + prefix + Fill('0', room) + body
    else Fill(' ', room) + sign + prefix + body
  }

  function StandardSigned(flags: string, w: nat, p: int, v: int): string {
    var sign := if v < 0 then "-" else if '+' in flags then "+" else if ' ' in flags then " " else "";
    StandardField(flags, w, p, sign, "", StandardDigits(if v < 0 then -v else v, 10, false, p))
  }

  /** With #, octal gets a leading 0 if it has none, and hexadecimal a prefix if it is not zero. */
  function StandardUnsigned(flags: string, w: nat, p: int, c: char, v: nat): string {
    var d := StandardDigits(v, Base(c), c == 'X', p);
    var body := if '#' in flags && c == 'o' && (d == "" || d[0] != '0') then "0" + d else d;
    var prefix := if '#' in flags && v != 0 && c == 'x' then "0x"
                  else if '#' in flags && v != 0 && c == 'X' then "0X"
                  else "";
    StandardField(flags, w, p, "", prefix, body)
  }

  /** The field leaves no room, or fills it as the standard does. */
  predicate Fits(flags: string, w: nat, p: int, length: nat) {
    '-' in flags || w <= length || ('0' in flags && p < 0)
  }

  /** Text that does not begin with a blank. */
  predicate Solid(s: string) {
    s != "" && s[0] != ' '
  }

  lemma FillNothing(c: char, n: int)
    requires n <= 0
    ensures Fill(c, n) == ""
  {
  }

  /** The same pieces: the two fields agree exactly if they fit. */
  lemma FieldsAgree(flags: string, w: nat, p: int, sign: string, prefix: string, body: string)
    requires |sign| <= 1 && Solid(prefix + body)
    ensures NumberField(flags, w, sign, prefix, body) == StandardField(flags, w, p, sign, prefix, body)
            <==> Fits(flags, w, p, |sign| + |prefix| + |body|)
  {
    hide Fill;
    var room := w - |sign| - |prefix| - |body|;
    if room <= 0 {
      FillNothing(' ', room);
      FillNothing('0', room);
      FillNothing(' ', room - 1);
      assert "" + sign + prefix + body == sign + prefix + "" + body == sign + prefix + body + "";
    } else if '-' !in flags && '0' in flags && p >= 0 {
      ZerosShow(room, sign, prefix, body);
    } else if '-' !in flags && '0' !in flags {
      ShortShows(room, sign + prefix + body);
      assert Fill(' ', room) + sign + prefix + body == Fill(' ', room) + (sign + prefix + body);
      assert Fill(' ', room - 1) + sign + prefix + body == Fill(' ', room - 1) + (sign + prefix + body);
    }
  }

  lemma ShortShows(room: int, s: string)
    requires room > 0
    ensures Fill(' ', room) + s != Fill(' ', room - 1) + s
  {
    assert |Fill(' ', room) + s| > |Fill(' ', room - 1) + s|;
  }

  /** Zeros behind the sign are not blanks before it. */
  lemma ZerosShow(room: int, sign: string, prefix: string, body: string)
    requires room > 0 && |sign| <= 1 && Solid(prefix + body)
    ensures sign + prefix + Fill('0', room) + body != Fill(' ', room) + sign + prefix + body
  {
    var x, y := sign + prefix + Fill('0', room) + body, Fill(' ', room) + sign + prefix + body;
    var k := |sign|;
    if prefix == "" {
      assert x[k] == Fill('0', room)[0];
    } else {
      assert x[k] == prefix[0] == (prefix + body)[0];
    }
    assert y[0] == ' ' && x[k] != ' ';
    if k == 1 {
      if room > 1 {
        assert y[1] == ' ';
      } else {
        assert y[1] == sign[0] && x[0] == sign[0];
      }
    }
  }

  lemma {:induction false} NumeralLeads(v: nat, base: nat, upper: bool)
    requires 2 <= base <= 16
    ensures Numeral(v, base, upper)[0] != ' '
    ensures Numeral(v, base, upper)[0] == '0' <==> v == 0
    decreases v
  {
    DigitLeads(v % base, upper);
    if v < base {
      assert v % base == v;
    } else {
      Shorter(v, base);
      QuotientPositive(v, base);
      NumeralLeads(v / base, base, upper);
    }
  }

  lemma QuotientPositive(v: nat, base: nat)
    requires 2 <= base <= v
    ensures v / base > 0
  {
    assert v == base * (v / base) + v % base;
    NoProduct(base, v / base);
  }

  lemma NoProduct(base: nat, q: int)
    ensures q <= 0 ==> base * q <= 0
  {
  }

  lemma DigitLeads(d: nat, upper: bool)
    requires d < 16
    ensures var c := (if upper then UPPER else LOWER)[d]; c != ' ' && c != 'x' && c != 'X' && (c == '0' <==> d == 0)
  {
  }

  /** No character of a numeral is a blank or the x of a prefix. */
  lemma {:induction false} NumeralChars(v: nat, base: nat, upper: bool)
    requires 2 <= base <= 16
    ensures forall i | 0 <= i < |Numeral(v, base, upper)| ::
              var c := Numeral(v, base, upper)[i]; c != ' ' && c != 'x' && c != 'X'
    decreases v
  {
    DigitLeads(v % base, upper);
    if v < base {
      assert v % base == v;
    } else {
      Shorter(v, base);
      NumeralChars(v / base, base, upper);
    }
  }

  lemma DigitsSolid(v: nat, base: nat, upper: bool, p: int)
    requires 2 <= base <= 16
    ensures Solid(Digits(v, base, upper, p))
    ensures p <= |Numeral(v, base, upper)| ==> Digits(v, base, upper, p) == Numeral(v, base, upper)
    ensures Digits(v, base, upper, p)[0] == '0' <==> v == 0 || p > |Numeral(v, base, upper)|
  {
    hide Numeral;
    NumeralLeads(v, base, upper);
    if p <= |Numeral(v, base, upper)| { FillNothing('0', p - |Numeral(v, base, upper)|); }
  }

  /** A field made of blanks and a sign has no digit in it. */
  lemma EmptyShows(flags: string, w: nat, sign: string, prefix: string)
    requires sign == "" || sign == "-" || sign == "+" || sign == " "
    ensures NumberField(flags, w, sign, prefix, "0") != StandardField(flags, w, 0, sign, "", "")
  {
    var x, y := NumberField(flags, w, sign, prefix, "0"), StandardField(flags, w, 0, sign, "", "");
    assert '0' in "0" by { assert "0"[0] == '0'; }
    assert '0' in x;
    assert '0' !in y;
  }

  /** %d and %i print what the standard prints, exactly unless zero has precision zero or the field has room
      that the code fills differently. */
  lemma SignedExactly(flags: string, w: nat, p: int, v: int)
    ensures var sign := if v < 0 then "-" else if '+' in flags then "+" else if ' ' in flags then " " else "";
            SignedText(flags, w, p, v) == StandardSigned(flags, w, p, v)
            <==> !(v == 0 && p == 0)
                 && Fits(flags, w, p, |sign| + |Digits(if v < 0 then -v else v, 10, false, p)|)
  {
    hide NumberField, StandardField, Fits, Numeral, Digits, Solid;
    var sign := if v < 0 then "-" else if '+' in flags then "+" else if ' ' in flags then " " else "";
    var m := if v < 0 then -v else v;
    if v == 0 && p == 0 {
      ZeroDigits(10, false);
      EmptyShows(flags, w, sign, "");
    } else {
      DigitsSolid(m, 10, false, p);
      var d := Digits(m, 10, false, p);
      assert "" + d == d;
      FieldsAgree(flags, w, p, sign, "", d);
    }
  }

  lemma ZeroDigits(base: nat, upper: bool)
    requires 2 <= base <= 16
    ensures Digits(0, base, upper, 0) == "0"
  {
    DigitLeads(0, upper);
    assert Numeral(0, base, upper) == "0";
    FillNothing('0', -1);
  }

  /** The 0 of octal # may stand as prefix or as first digit. */
  lemma OctalPrefix(flags: string, w: nat, d: string)
    ensures NumberField(flags, w, "", "0", d) == NumberField(flags, w, "", "", "0" + d)
  {
    var r := w - 1 - |d|;
    assert "" + "0" + d == "" + "" + ("0" + d);
    assert "" + "0" + Fill('0', r) + d == "" + "" + Fill('0', r) + ("0" + d) by {
      ZeroMoves(r);
      assert "" + "" + Fill('0', r) + ("0" + d) == Fill('0', r) + "0" + d;
    }
    assert Fill(' ', r - 1) + "" + "0" + d == Fill(' ', r - 1) + "" + "" + ("0" + d);
  }

  lemma ZeroMoves(r: int)
    ensures "0" + Fill('0', r) == Fill('0', r) + "0"
  {
    var x, y := "0" + Fill('0', r), Fill('0', r) + "0";
    assert |x| == |y| && forall i | 0 <= i < |x| :: x[i] == y[i];
  }

  /** A 0 in front of digits that already begin with one always shows. */
  lemma ExtraZero(flags: string, w: nat, p: int, body: string)
    requires p >= 1 && |body| == p && body[p - 1] != ' '
    ensures NumberField(flags, w, "", "0", body) != StandardField(flags, w, p, "", "", body)
  {
    var x, y := NumberField(flags, w, "", "0", body), StandardField(flags, w, p, "", "", body);
    if w <= p {
      assert |y| == p && |x| >= p + 1;
    } else if '-' in flags {
      assert y[p] == ' ' && x[p] == body[p - 1];
    } else if '0' in flags {
      assert y[0] == ' ' && x[0] == '0';
    } else if w == p + 1 {
      assert y[0] == ' ' && x[0] == '0';
    } else {
      assert |x| == w - 1 && |y| == w;
    }
  }

  /** A prefix the standard omits shows. */
  lemma PrefixShows(flags: string, w: nat, p: int, prefix: string, body: string, other: string)
    requires prefix == "0x" || prefix == "0X"
    requires forall i | 0 <= i < |other| :: other[i] != prefix[1]
    ensures NumberField(flags, w, "", prefix, body) != StandardField(flags, w, p, "", "", other)
  {
    var x, y := NumberField(flags, w, "", prefix, body), StandardField(flags, w, p, "", "", other);
    assert prefix[1] in prefix;
    assert prefix[1] in x;
    assert prefix[1] !in other;
    assert prefix[1] !in y;
  }

  /** What the code puts between blanks. */
  function CodeLength(flags: string, p: int, c: char, v: nat): nat {
    |Digits(v, Base(c), c == 'X', p)|
    + if '#' !in flags then 0 else if c == 'x' || c == 'X' then 2 else if c == 'o' && v != 0 then 1 else 0
  }

  /** %u, %o, %x and %X print what the standard prints, exactly if zero with precision zero is octal with
      #, zero has no hexadecimal prefix asked for, no octal 0 is asked for before precision zeros, and the
      field fits. */
  lemma UnsignedExactly(flags: string, w: nat, p: int, c: char, v: nat)
    requires c == 'u' || c == 'o' || c == 'x' || c == 'X'
    ensures UnsignedText(flags, w, p, c, v) == StandardUnsigned(flags, w, p, c, v)
            <==> && (v == 0 && p == 0 ==> c == 'o' && '#' in flags)
                 && (v == 0 && '#' in flags ==> c != 'x' && c != 'X')
                 && (v != 0 && '#' in flags && c == 'o' ==> p <= |Numeral(v, 8, false)|)
                 && Fits(flags, w, p, CodeLength(flags, p, c, v))
  {
    hide NumberField, StandardField, Fits, Numeral, Digits, Solid;
    var d := Digits(v, Base(c), c == 'X', p);
    DigitsSolid(v, Base(c), c == 'X', p);
    assert "" + d == d;
    if v == 0 && '#' in flags && (c == 'x' || c == 'X') {
      HexZero(flags, w, p, c);
    } else if v == 0 && p == 0 {
      ZeroDigits(Base(c), c == 'X');
      if c == 'o' && '#' in flags {
        assert "0" + "" == "0";
        FieldsAgree(flags, w, p, "", "", d);
      } else {
        EmptyShows(flags, w, "", "");
      }
    } else if '#' in flags && c == 'o' && v != 0 {
      OctalCase(flags, w, p, v);
    } else {
      var prefix := if '#' !in flags then "" else if c == 'x' then "0x" else if c == 'X' then "0X" else "";
      PrefixSolid(prefix, d);
      FieldsAgree(flags, w, p, "", prefix, d);
    }
  }

  lemma PrefixSolid(prefix: string, d: string)
    requires (prefix == "" || prefix == "0x" || prefix == "0X") && Solid(d)
    ensures Solid(prefix + d)
  {
    assert "" + d == d;
  }

  lemma HexZero(flags: string, w: nat, p: int, c: char)
    requires (c == 'x' || c == 'X') && '#' in flags
    ensures UnsignedText(flags, w, p, c, 0) != StandardUnsigned(flags, w, p, c, 0)
  {
    hide NumberField, StandardField, Numeral, Fill;
    NumeralChars(0, 16, c == 'X');
    var d := Digits(0, 16, c == 'X', p);
    PrefixShows(flags, w, p, if c == 'x' then "0x" else "0X", d, if p == 0 then "" else d);
  }

  lemma OctalCase(flags: string, w: nat, p: int, v: nat)
    requires '#' in flags && v != 0
    ensures UnsignedText(flags, w, p, 'o', v) == StandardUnsigned(flags, w, p, 'o', v)
            <==> p <= |Numeral(v, 8, false)| && Fits(flags, w, p, CodeLength(flags, p, 'o', v))
  {
    hide NumberField, StandardField, Fits, Numeral, Digits, Solid;
    var d := Digits(v, 8, false, p);
    DigitsSolid(v, 8, false, p);
    if p <= |Numeral(v, 8, false)| {
      OctalPrefix(flags, w, d);
      ZeroSolid(d);
      FieldsAgree(flags, w, p, "", "", "0" + d);
    } else {
      LastSolid(v, p);
      ExtraZero(flags, w, p, d);
    }
  }

  lemma ZeroSolid(d: string)
    ensures Solid("" + ("0" + d)) && |"0" + d| == 1 + |d|
  {
  }

  lemma LastSolid(v: nat, p: int)
    requires p > |Numeral(v, 8, false)|
    ensures var d := Digits(v, 8, false, p); |d| == p >= 1 && d[p - 1] != ' '
  {
    NumeralChars(v, 8, false);
    hide Numeral;
  }

  lemma DigitsApart(i: nat, j: nat)
    requires i < 10 && j < 10 && LOWER[i] == LOWER[j]
    ensures i == j
  {
  }

  lemma LastDigit(v: nat)
    ensures var x := Numeral(v, 10, false);
            && x[|x| - 1] == LOWER[v % 10] && (|x| == 1 <==> v < 10)
            && (v >= 10 ==> x[..|x| - 1] == Numeral(v / 10, 10, false))
  {
    if v < 10 { assert v % 10 == v; }
  }

  /** Different numbers have different numerals. */
  lemma {:induction false} NumeralInjective(u: nat, v: nat)
    requires Numeral(u, 10, false) == Numeral(v, 10, false)
    ensures u == v
    decreases u
  {
    hide Numeral;
    LastDigit(u);
    LastDigit(v);
    DigitsApart(u % 10, v % 10);
    if u < 10 {
    } else {
      NumeralInjective(u / 10, v / 10);
    }
  }

  /** Different integers print differently. */
  lemma SignedInjective(u: int, v: int)
    requires SignedText("", 0, -1, u) == SignedText("", 0, -1, v)
    ensures u == v
  {
    hide Numeral;
    BareSigned(u);
    BareSigned(v);
    var x, y := Numeral(if u < 0 then -u else u, 10, false), Numeral(if v < 0 then -v else v, 10, false);
    NoMinus(if u < 0 then -u else u);
    NoMinus(if v < 0 then -v else v);
    if u < 0 && v < 0 {
      assert x == ("-" + x)[1..] && y == ("-" + y)[1..];
    }
    NumeralInjective(if u < 0 then -u else u, if v < 0 then -v else v);
  }

  lemma BareSigned(v: int)
    ensures var d := Numeral(if v < 0 then -v else v, 10, false);
            SignedText("", 0, -1, v) == if v < 0 then "-" + d else d
  {
    hide Numeral;
    var d := Numeral(if v < 0 then -v else v, 10, false);
    FillNothing('0', -1 - |d|);
    assert "" + d == d;
    var sign := if v < 0 then "-" else "";
    FillNothing(' ', 0 - |sign| - 0 - |d| - 1);
    assert "" + sign + "" + d == sign + d;
  }

  lemma NoMinus(v: nat)
    ensures Numeral(v, 10, false)[0] != '-'
  {
    NumeralStarts(v);
  }

  lemma {:induction false} NumeralStarts(v: nat)
    ensures Numeral(v, 10, false)[0] in "0123456789"
    decreases v
  {
    assert LOWER[v % 10] == "0123456789"[v % 10];
    if v < 10 {
      assert v % 10 == v;
    } else {
      NumeralStarts(v / 10);
    }
  }
}
