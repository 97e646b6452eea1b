/** The _ctype table of ctype.c, and the character classes printk.c and string.c ask it for. */
module Ctype {
  import FormatSpec

  /** The bits of an entry. */
  datatype Class = Upper | Lower | Digit | Control | Punctuation | Space | Hex | HardSpace

  const C := {Control}
  const CS := {Control, Space}
  const SP := {Space, HardSpace}
  const P := {Punctuation}
  const D := {Digit}
  const U := {Upper}
  const UX := {Upper, Hex}
  const L := {Lower}
  const LX := {Lower, Hex}
  const O: set<Class> := {}

  /** Row r holds the entries from 8 * r on. */
  function Row(r: nat): (row: seq<set<Class>>)
    requires r < 32
    ensures |row| == 8
  {
    if r == 0 || r == 2 || r == 3 then [C, C, C, C, C, C, C, C]
    else if r == 1 then [C, CS, CS, CS, CS, CS, C, C]
    else if r == 4 || r == 20 then [SP, P, P, P, P, P, P, P]
    else if r == 5 || 21 <= r <= 23 then [P, P, P, P, P, P, P, P]
    else if r == 6 then [D, D, D, D, D, D, D, D]
    else if r == 7 then [D, D, P, P, P, P, P, P]
    else if r == 8 then [P, UX, UX, UX, UX, UX, UX, U]
    else if r == 9 || r == 10 || r == 24 || r == 25 then [U, U, U, U, U, U, U, U]
    else if r == 11 then [U, U, U, P, P, P, P, P]
    else if r == 12 then [P, LX, LX, LX, LX, LX, LX, L]
    else if r == 13 || r == 14 || r == 28 || r == 29 then [L, L, L, L, L, L, L, L]
    else if r == 15 then [L, L, L, P, P, P, P, C]
    else if 16 <= r <= 19 then [O, O, O, O, O, O, O, O]
    else if r == 26 then [U, U, U, U, U, U, U, P]
    else if r == 27 then [U, U, U, U, U, U, U, L]
    else if r == 30 then [L, L, L, L, L, L, L, P]
    else [L, L, L, L, L, L, L, L]
  }

  function ClassOf(c: char): set<Class>
    requires c as int < 256
  {
    Row(c as int / 8)[c as int % 8]
  }

  /** isalnum, isxdigit and, for the letters strtoul turns to lower case, isupper. */
  lemma ClassesAreRanges(c: char)
    requires c as int < 256
    ensures FormatSpec.IsAlnum(c) <==> Upper in ClassOf(c) || Lower in ClassOf(c) || Digit in ClassOf(c)
    ensures FormatSpec.IsHexDigit(c) <==> Digit in ClassOf(c) || Hex in ClassOf(c)
    ensures FormatSpec.IsDigit(c) <==> Digit in ClassOf(c)
  {
    var r, k := c as int / 8, c as int % 8;
    assert c as int == 8 * r + k;
    assert k == 0 || k == 1 || k == 2 || k == 3 || k == 4 || k == 5 || k == 6 || k == 7;
  }
}
