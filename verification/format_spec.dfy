/** struct printf_spec, its bit-field widths, and the character classes printk.c uses. */
module FormatSpec {

  datatype FormatType =
    | TypeNone | TypeWidth | TypePrecision | TypeChar | TypeStr | TypePtr | TypePercent | TypeInvalid
    | TypeLongLong | TypeULong | TypeLong | TypeUByte | TypeByte | TypeUShort | TypeShort
    | TypeUInt | TypeInt | TypeSizeT

  /** The bits of the flags field. */
  datatype Flags = Flags(sign: bool, left: bool, plus: bool, space: bool, zeropad: bool, small: bool, special: bool)

  const NO_FLAGS := Flags(false, false, false, false, false, false, false)

  datatype Spec = Spec(ftype: FormatType, fieldWidth: int, flags: Flags, base: nat, precision: int)

  /** struct printf_spec spec = { 0 } */
  const ZERO_SPEC := Spec(TypeNone, 0, NO_FLAGS, 0, 0)

  /** Assignment to the signed bit-fields field_width : 24 and precision : 16, and to an int. */
  function Wrap24(x: int): int { (x + 0x80_0000) % 0x100_0000 - 0x80_0000 }
  function Wrap16(x: int): int { (x + 0x8000) % 0x1_0000 - 0x8000 }
  function Wrap32(x: int): int { (x + 0x8000_0000) % 0x1_0000_0000 - 0x8000_0000 }

  predicate IsDigit(c: char) { '0' <= c <= '9' }

  predicate IsHexDigit(c: char) { IsDigit(c) || 'A' <= c <= 'F' || 'a' <= c <= 'f' }

  /** isalnum, from the _ctype table: ASCII letters and digits, and the Latin-1 letters. */
  predicate IsAlnum(c: char) {
    IsDigit(c) || 'A' <= c <= 'Z' || 'a' <= c <= 'z'
    || (192 <= c as int <= 255 && c as int != 215 && c as int != 247)
  }

  /** The character at index i of a C string, the terminating NUL included; nothing lies beyond it. */
  function At(s: string, i: nat): char
    requires i <= |s|
  {
    if i < |s| then s[i] else '\0'
  }

  /** A C string holds no NUL before its end. */
  predicate IsCString(s: string) {
    forall c | c in s :: c != '\0'
  }
}
