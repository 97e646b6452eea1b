/** What a conversion specification means, from its characters alone: flags by what occurs in their
    string, the argument by its range and residue, digits by their alphabet. */
module ConversionSpec {

  const LOWER := "0123456789abcdef"
  const UPPER := "0123456789ABCDEF"

  /** The positional numeral of v, most significant digit first, without leading zeros. */
  function Numeral(v: nat, base: nat, upper: bool): (r: string)
    requires 2 <= base <= 16
    ensures r != ""
  {
    var alphabet := if upper then UPPER else LOWER;
    if v < base then [alphabet[v]]
    else
      assert 0 <= v / base < v by { Shorter(v, base); }
      Numeral(v / base, base, upper) + [alphabet[v % base]]
  }

  lemma Shorter(v: nat, base: nat)
    requires 2 <= base <= v
    ensures 0 <= v / base < v
  {
    var q := v / base;
    assert v == base * q + v % base;
    Doubled(base, q);
  }

  lemma Doubled(base: nat, q: int)
    requires base >= 2
    ensures q > 0 ==> base * q >= 2 * q
    ensures q < 0 ==> base * q <= 2 * q
  {
    if q > 0 { assert (base - 2) * q >= 0; } else { assert (base - 2) * (-q) >= 0; }
  }

  /** A run of one character; none for a length that is not positive. */
  function Fill(c: char, n: int): (r: string)
    ensures |r| == if n > 0 then n else 0
    ensures forall i | 0 <= i < |r| :: r[i] == c
  {
    seq(if n > 0 then n else 0, _ => c)
  }

  predicate FlagChars(s: string) {
    forall i | 0 <= i < |s| :: s[i] == '-' || s[i] == '+' || s[i] == ' ' || s[i] == '#' || s[i] == '0'
  }

  /** The length modifiers, and how many values an integer of that length has. */
  function Values(q: string): int {
    if q == "hh" then 0x100
    else if q == "h" then 0x1_0000
    else if q == "" || q == "t" then 0x1_0000_0000
    else if q == "l" || q == "ll" || q == "L" || q == "z" then 0x1_0000_0000_0000_0000
    else 0
  }

  /** The conversion letters. */
  predicate IsLetter(c: char) {
    || c == 'd' || c == 'i' || c == 'u' || c == 'o' || c == 'x' || c == 'X'
    || c == 'c' || c == 's' || c == 'p' || c == '%'
  }

  /** A width written out, 0 for none; a precision written out, -1 for none. */
  function WidthText(w: nat): string {
    if w == 0 then "" else Numeral(w, 10, false)
  }

  function PrecisionText(p: int): string {
    if p < 0 then "" else "." + Numeral(p, 10, false)
  }

  /** Width and precision fit their bit-fields. */
  predicate InFields(w: nat, p: int) {
    w < 0x80_0000 && -1 <= p < 0x8000
  }

  /** A conversion specification. */
  function Specification(flags: string, w: nat, p: int, q: string, c: char): string {
    "%" + flags + WidthText(w) + PrecisionText(p) + q + [c]
  }

  /** A number in its field: plain right justification stops one blank short of the width. */
  function NumberField(flags: string, w: nat, sign: string, prefix: string, body: string): string {
    var room := w - |sign| - |prefix| - |body|;
    if '-' in flags then sign + prefix + body + Fill(' ', room)
    else if '0' in flags then sign + prefix + Fill('0', room) + body
    else Fill(' ', room - 1) + sign + prefix + body
  }

  /** Digits, with zeros in front up to the precision. */
  function Digits(v: nat, base: nat, upper: bool, p: int): string
    requires 2 <= base <= 16
  {
    var d := Numeral(v, base, upper);
    Fill('0', p - |d|) + d
  }

  /** %d and %i of the integer v. */
  function SignedText(flags: string, w: nat, p: int, v: int): string {
    var sign := if v < 0 then "-" else if '+' in flags then "+" else if ' ' in flags then " " else "";
    NumberField(flags, w, sign, "", Digits(if v < 0 then -v else v, 10, false, p))
  }

  function Base(c: char): nat {
    if c == 'o' then 8 else if c == 'u' then 10 else 16
  }

  /** %u, %o, %x and %X of the number v. */
  function UnsignedText(flags: string, w: nat, p: int, c: char, v: nat): string {
    var prefix := if '#' !in flags then ""
                  else if c == 'x' then "0x"
                  else if c == 'X' then "0X"
                  else if c == 'o' && v != 0 then "0"
                  else "";
    NumberField(flags, w, "", prefix, Digits(v, Base(c), c == 'X', p))
  }

  /** %p: lower-case hexadecimal, by default 16 columns filled with zeros. */
  function PointerText(flags: string, w: nat, p: int, v: nat): string {
    NumberField(if w == 0 then flags + "0" else flags, if w == 0 then 16 else w, "",
                if '#' in flags then "0x" else "", Digits(v, 16, false, p))
  }

  /** Text in a field of exactly the width. */
  function TextField(flags: string, w: nat, body: string): string {
    if '-' in flags then body + Fill(' ', w - |body|) else Fill(' ', w - |body|) + body
  }

  /** %s: at most p characters, if there is a precision. */
  function StringField(flags: string, w: nat, p: int, s: string): string {
    TextField(flags, w, if 0 <= p < |s| then s[..p] else s)
  }
}
