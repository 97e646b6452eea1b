/** number() and pointer_string() of printk.c: the layout of a formatted integer. */
module Number {
  import opened Words
  import opened TextBuffer
  import opened Digits
  import opened FormatSpec

  function Reverse(s: string): (r: string)
    ensures |r| == |s|
  {
    seq(|s|, i requires 0 <= i < |s| => s[|s| - 1 - i])
  }

  predicate IsNegative(num: u64, f: Flags) {
    f.sign && num >= 0x8000_0000_0000_0000
  }

  function SignText(num: u64, f: Flags): string {
    if !f.sign then ""
    else if IsNegative(num, f) then "-"
    else if f.plus then "+"
    else if f.space then " "
    else ""
  }

  /** -(signed long long)num in two's complement, so the most negative number is its own negation. */
  function Magnitude(num: u64, f: Flags): u64 {
    if IsNegative(num, f) then Wrap64(-(num as int)) else num
  }

  function PrefixText(num: u64, spec: Spec): string {
    if !spec.flags.special || spec.base == 10 then ""
    else if spec.base == 16 then (if spec.flags.small then "0x" else "0X")
    else if num != 0 then "0"
    else ""
  }

  function DigitsText(n: u64, base: nat, small: bool): (r: string)
    requires 2 <= base <= 16
    ensures |r| == |Lsb(n, base)|
  {
    Reverse(Chars(Lsb(n, base), small))
  }

  predicate IsBase(base: nat) { base == 8 || base == 10 || base == 16 }

  /** Length of sign, prefix, precision zeros and digits. */
  function Natural(num: u64, spec: Spec): nat
    requires IsBase(spec.base)
  {
    var n := |Lsb(Magnitude(num, spec.flags), spec.base)|;
    |SignText(num, spec.flags)| + |PrefixText(num, spec)| + if spec.precision > n then spec.precision else n
  }

  /** What precedes the precision zeros and digits, given the room beyond the natural length. */
  function LeadText(num: u64, spec: Spec, room: int): string {
    Repeat(' ', if spec.flags.left || spec.flags.zeropad then 0 else room - 1)
      + SignText(num, spec.flags) + PrefixText(num, spec)
      + Repeat('0', if spec.flags.zeropad && !spec.flags.left then room else 0)
  }

  /** The layout of a number: blanks, sign, prefix, padding zeros, precision zeros, digits, blanks.
      Plain right justification stops one blank short of the field width. */
  function NumberText(num: u64, spec: Spec): string
    requires IsBase(spec.base)
  {
    var room := spec.fieldWidth - Natural(num, spec);
    var digits := DigitsText(Magnitude(num, spec.flags), spec.base, spec.flags.small);
    LeadText(num, spec, room)
      + Repeat('0', spec.precision - |digits|) + digits
      + Repeat(' ', if spec.flags.left then room else 0)
  }

  /** The width of the result: exact for left-justified and zero-padded numbers, one less than asked
      for otherwise; never less than the number needs. */
  lemma NumberLength(num: u64, spec: Spec)
    requires IsBase(spec.base)
    ensures var w := if spec.flags.left || spec.flags.zeropad then spec.fieldWidth else spec.fieldWidth - 1;
            |NumberText(num, spec)| == if w > Natural(num, spec) then w else Natural(num, spec)
  {
  }

  /** A number fills its field width exactly when it is left-justified, zero-padded or needs the width
      anyway. */
  lemma NumberFillsField(num: u64, spec: Spec)
    requires IsBase(spec.base)
    ensures |NumberText(num, spec)| >= spec.fieldWidth
            <==> spec.flags.left || spec.flags.zeropad || spec.fieldWidth <= Natural(num, spec)
  {
    NumberLength(num, spec);
    hide NumberText, Natural;
  }

  /** while (--width > floor) put c: returns the position and the counter it leaves. */
  method PadWhile(out: array<char>, end: nat, pos: nat, c: char, width: int, floor: int,
                  ghost o: string, ghost start: nat, ghost s: string)
    returns (next: nat, w: int)
    requires end <= out.Length && out[..] == Overlay(o, end, start, s) && pos == start + |s|
    modifies out
    ensures out[..] == Overlay(o, end, start, s + Repeat(c, width - 1 - floor))
    ensures next == start + |s + Repeat(c, width - 1 - floor)|
    ensures w == if width - 1 > floor then floor else width - 1
  {
    next, w := pos, width - 1;
    ghost var k := 0;
    assert s + Repeat(c, 0) == s;
    while w > floor
      invariant w == width - 1 - k && k >= 0 && (k > 0 ==> w >= floor)
      invariant out[..] == Overlay(o, end, start, s + Repeat(c, k))
      invariant next == start + |s + Repeat(c, k)|
      decreases w - floor
    {
      next := Append(out, end, next, c, o, start, s + Repeat(c, k));
      RepeatOneMore(c, k);
      assert s + Repeat(c, k) + [c] == s + Repeat(c, k + 1);
      w := w - 1;
      k := k + 1;
    }
    assert Repeat(c, width - 1 - floor) == Repeat(c, k);
  }

  /** while (--i >= 0) put tmp[i]: the scratch digits in reverse. */
  method EmitDigits(out: array<char>, end: nat, pos: nat, tmp: array<char>, n: nat,
                    ghost o: string, ghost start: nat, ghost s: string)
    returns (next: nat)
    requires end <= out.Length && out[..] == Overlay(o, end, start, s) && pos == start + |s|
    requires n <= tmp.Length && tmp != out
    modifies out
    ensures out[..] == Overlay(o, end, start, s + Reverse(tmp[..n]))
    ensures next == start + |s + Reverse(tmp[..n])|
  {
    next := pos;
    var i := n;
    ghost var d := Reverse(tmp[..n]);
    assert s + d[..0] == s;
    while i > 0
      invariant 0 <= i <= n
      invariant out[..] == Overlay(o, end, start, s + d[..n - i])
      invariant next == start + |s + d[..n - i]|
    {
      i := i - 1;
      assert d[n - 1 - i] == tmp[i];
      ghost var t := s + d[..n - 1 - i];
      assert s + d[..n - i] == t + [tmp[i]];
      next := Append(out, end, next, tmp[i], o, start, t);
    }
    assert d[..n] == d;
  }

  /** Sign character, if there is one, then the prefix. */
  method EmitSignPrefix(out: array<char>, end: nat, pos: nat, num: u64, spec: Spec,
                        ghost o: string, ghost start: nat, ghost s: string)
    returns (next: nat)
    requires IsBase(spec.base)
    requires end <= out.Length && out[..] == Overlay(o, end, start, s) && pos == start + |s|
    modifies out
    ensures out[..] == Overlay(o, end, start, s + SignText(num, spec.flags) + PrefixText(num, spec))
    ensures next == start + |s + SignText(num, spec.flags) + PrefixText(num, spec)|
  {
    next := pos;
    ghost var t := s;
    var f := spec.flags;
    if f.sign && (num >= 0x8000_0000_0000_0000 || f.plus || f.space) {
      var sign := if num >= 0x8000_0000_0000_0000 then '-' else if f.plus then '+' else ' ';
      next := Append(out, end, next, sign, o, start, t);
      t := t + [sign];
    }
    assert t == s + SignText(num, f);
    if f.special && spec.base != 10 {
      if spec.base == 16 || num != 0 {
        next := Append(out, end, next, '0', o, start, t);
        t := t + ['0'];
      }
      if spec.base == 16 {
        var x := if f.small then 'x' else 'X';
        next := Append(out, end, next, x, o, start, t);
        t := t + [x];
      }
    }
    assert t == s + SignText(num, f) + PrefixText(num, spec);
  }

  /** Each digit takes at least three bits off the number. */
  lemma {:induction false} LsbFits(n: nat, base: nat, k: nat)
    requires IsBase(base) && k >= 1 && n < Pow2(3 * k)
    ensures |Lsb(n, base)| <= k
    decreases k
  {
    ThreeBits(k - 1);
    assert Pow2(3) == 8;
    if n < base {
    } else {
      assert k > 1;
      assert n / base <= n / 8;
      LsbFits(n / base, base, k - 1);
    }
  }

  lemma ThreeBits(k: nat)
    ensures Pow2(3 * k + 3) == 8 * Pow2(3 * k)
  {
    assert Pow2(3 * k + 2) == 4 * Pow2(3 * k);
  }

  /** Any 64-bit number has at most 22 digits in the bases in use: they fit the scratch array. */
  lemma DigitsFit(num: u64, base: nat)
    requires IsBase(base)
    ensures |Lsb(num, base)| <= 22
  {
    PowersUsed();
    assert Pow2(66) == 4 * Pow2(64);
    hide Lsb, Pow2;
    LsbFits(num, base, 22);
  }

  /** The do-while loop for the power-of-two bases: digits by mask, number shifted down. */
  method ShiftDigits(tmp: array<char>, num: u64, base: nat, small: bool) returns (n: nat)
    requires tmp.Length == 24 && (base == 8 || base == 16)
    modifies tmp
    ensures n == |Lsb(num, base)| <= tmp.Length && tmp[..n] == Chars(Lsb(num, base), small)
  {
    DigitsFit(num, base);
    ghost var all := Lsb(num, base);
    ghost var cs := Chars(all, small);
    var left: nat := num;
    n := 0;
    assert all == all[..0] + Lsb(left, base);
    hide Lsb, Chars, DigitChar;
    while true
      invariant n < |all| && all == all[..n] + Lsb(left, base)
      invariant tmp[..n] == cs[..n]
      decreases |all| - n
    {
      MaskIsDigit(left, base);
      NextDigit(all, n, left, base);
      CharOf(all, n, small);
      StoreDigit(tmp, n, DigitChar(left % 256 % base, small), cs);
      left := left / base;
      n := n + 1;
      if left == 0 { break; }
    }
    assert cs[..n] == cs;
  }

  /** tmp[i] = ..., extending the prefix of cs in place. */
  method StoreDigit(tmp: array<char>, n: nat, c: char, ghost cs: string)
    requires n < tmp.Length && n < |cs| && c == cs[n] && tmp[..n] == cs[..n]
    modifies tmp
    ensures tmp[..n + 1] == cs[..n + 1]
  {
    tmp[n] := c;
    assert tmp[..n + 1] == tmp[..n] + [c] && cs[..n + 1] == cs[..n] + [c];
  }

  lemma CharOf(ds: seq<nat>, n: nat, small: bool)
    requires (forall d | d in ds :: d < 16) && n < |ds|
    ensures ds[n] < 16 && Chars(ds, small)[n] == DigitChar(ds[n], small)
  {
    assert ds[n] in ds;
  }

  /** (unsigned char)num & mask, for a mask of three or four bits. */
  lemma MaskIsDigit(num: nat, base: nat)
    requires base == 8 || base == 16
    ensures num % 256 % base == num % base
  {
    var q, r := num / 256, num % 256;
    if base == 8 {
      Divides(num, 8, 32 * q + r / 8, r % 8);
    } else {
      Divides(num, 16, 16 * q + r / 16, r % 16);
    }
  }

  lemma NextDigit(all: seq<nat>, n: nat, left: nat, base: nat)
    requires IsBase(base) && n < |all| && all == all[..n] + Lsb(left, base)
    ensures all[n] == left % base
    ensures left / base == 0 ==> n + 1 == |all|
    ensures left / base > 0 ==> n + 1 < |all| && all == all[..n + 1] + Lsb(left / base, base)
  {
    var rest := Lsb(left, base);
    assert all[n] == rest[0];
    if left >= base {
      assert rest == [left % base] + Lsb(left / base, base);
      assert all == all[..n] + [left % base] + Lsb(left / base, base);
      assert all[..n + 1] == all[..n] + [left % base];
    }
  }

  /** Decimal digits have no letter case. */
  lemma DecimalCase(ds: seq<nat>, small: bool)
    requires forall d | d in ds :: d < 10
    ensures DecChars(ds) == Chars(ds, small)
  {
    assert forall i | 0 <= i < |ds| :: ds[i] in ds;
  }

  /** The digits of num into the scratch array, least significant first. */
  method ScratchDigits(tmp: array<char>, num: u64, base: nat, small: bool) returns (n: nat)
    requires tmp.Length == 24 && IsBase(base)
    modifies tmp
    ensures n == |Lsb(num, base)| <= tmp.Length && tmp[..n] == Chars(Lsb(num, base), small)
  {
    if num < base {
      tmp[0] := DigitChar(num, small);
      n := 1;
      assert tmp[..1] == [tmp[0]];
    } else if base != 10 {
      n := ShiftDigits(tmp, num, base, small);
    } else {
      DigitsFit(num, 10);
      ghost var m := tmp[..];
      n := PutDec(tmp, 0, num);
      assert m[..0] == "" && tmp[..n] == DecChars(Lsb(num, 10));
      DecimalCase(Lsb(num, 10), small);
    }
  }

  lemma NothingRepeated(c: char, n: int)
    requires n <= 0
    ensures Repeat(c, n) == "" && Repeat(c, n) == Repeat(c, 0)
  {
  }

  /** if (condition) while (--width > floor) put c */
  method PadIf(condition: bool, out: array<char>, end: nat, pos: nat, c: char, width: int, floor: int,
               ghost o: string, ghost start: nat, ghost s: string)
    returns (next: nat, w: int)
    requires end <= out.Length && out[..] == Overlay(o, end, start, s) && pos == start + |s|
    modifies out
    ensures var t := s + Repeat(c, if condition then width - 1 - floor else 0);
            out[..] == Overlay(o, end, start, t) && next == start + |t|
    ensures w == if condition then (if width - 1 > floor then floor else width - 1) else width
  {
    if condition {
      next, w := PadWhile(out, end, pos, c, width, floor, o, start, s);
    } else {
      next, w := pos, width;
      NothingRepeated(c, 0);
      assert s + "" == s;
    }
  }

  /** The first part of number()'s output. Left over for later: the room of a left-justified field. */
  method EmitLead(out: array<char>, end: nat, pos: nat, num: u64, spec: Spec, room: int, ghost o: string)
    returns (next: nat, w: int)
    requires end <= out.Length && IsBase(spec.base)
    requires out[..] == Overlay(o, end, pos, "")
    modifies out
    ensures out[..] == Overlay(o, end, pos, LeadText(num, spec, room))
    ensures next == pos + |LeadText(num, spec, room)|
    ensures if spec.flags.left then w == room else w < 0
  {
    var f := spec.flags;
    if f.left { f := f.(zeropad := false); }
    hide Overlay, Repeat, SignText, PrefixText;
    ghost var s := "";
    var plain := !f.zeropad && !f.left;
    next, w := PadIf(plain, out, end, pos, ' ', room, 0, o, pos, s);
    ghost var a := Repeat(' ', if plain then room - 1 else 0);
    assert s + a == a;
    s := a;
    next := EmitSignPrefix(out, end, next, num, spec, o, pos, s);
    s := s + SignText(num, spec.flags) + PrefixText(num, spec);
    var c := if f.zeropad then '0' else ' ';
    ghost var z := if !f.left then w else 0;
    next, w := PadIf(!f.left, out, end, next, c, w, -1, o, pos, s);
    if !f.zeropad {
      NothingRepeated(c, z);
      NothingRepeated('0', 0);
    }
  }

  /** The second part: precision zeros, digits, and the trailing blanks of a left-justified field. */
  method EmitTail(out: array<char>, end: nat, pos: nat, tmp: array<char>, n: nat, precision: int, w: int,
                  ghost o: string, ghost start: nat, ghost s: string)
    returns (next: nat)
    requires end <= out.Length && out[..] == Overlay(o, end, start, s) && pos == start + |s|
    requires n <= tmp.Length && tmp != out
    modifies out
    ensures var t := s + Repeat('0', precision - n) + Reverse(tmp[..n]) + Repeat(' ', w);
            out[..] == Overlay(o, end, start, t) && next == start + |t|
  {
    hide Overlay, Repeat, Reverse;
    var rest: int;
    next, rest := PadWhile(out, end, pos, '0', precision, n - 1, o, start, s);
    ghost var t := s + Repeat('0', precision - n);
    next := EmitDigits(out, end, next, tmp, n, o, start, t);
    t := t + Reverse(tmp[..n]);
    next, rest := PadWhile(out, end, next, ' ', w, -1, o, start, t);
  }

  /** number(): writes NumberText at pos, as far as the buffer reaches. */
  method Number(out: array<char>, end: nat, pos: nat, num: u64, spec: Spec) returns (next: nat)
    requires end <= out.Length && IsBase(spec.base)
    modifies out
    ensures out[..] == Overlay(old(out[..]), end, pos, NumberText(num, spec))
    ensures next == pos + |NumberText(num, spec)|
  {
    var mag := Magnitude(num, spec.flags);
    var tmp := new char[24];
    ghost var o := out[..];
    OverlayNothing(o, end, pos);
    var n := ScratchDigits(tmp, mag, spec.base, spec.flags.small);
    var precision := if n > spec.precision then n else spec.precision;
    var room := spec.fieldWidth - |SignText(num, spec.flags)| - |PrefixText(num, spec)| - precision;
    assert room == spec.fieldWidth - Natural(num, spec);
    assert Reverse(tmp[..n]) == DigitsText(mag, spec.base, spec.flags.small);
    hide Overlay, SignText, PrefixText, Natural, DigitsText, Lsb, Magnitude, LeadText, NumberText, Repeat;
    var w: int;
    next, w := EmitLead(out, end, pos, num, spec, room, o);
    next := EmitTail(out, end, next, tmp, n, precision, w, o, pos, LeadText(num, spec, room));
    LayoutJoins(num, spec, n, precision, w);
  }

  /** The pieces in the order they are put out. */
  lemma LayoutJoins(num: u64, spec: Spec, n: nat, precision: int, w: int)
    requires IsBase(spec.base) && n == |Lsb(Magnitude(num, spec.flags), spec.base)|
    requires precision == if n > spec.precision then n else spec.precision
    requires var pad := if spec.flags.left then spec.fieldWidth - Natural(num, spec) else 0;
             w == pad || (w <= 0 && pad <= 0)
    ensures LeadText(num, spec, spec.fieldWidth - Natural(num, spec)) + Repeat('0', precision - n)
            + DigitsText(Magnitude(num, spec.flags), spec.base, spec.flags.small) + Repeat(' ', w)
            == NumberText(num, spec)
  {
    hide Natural, LeadText, DigitsText, Lsb, Magnitude, Repeat;
    SameRepeat('0', precision - n, spec.precision - n);
    SameRepeat(' ', w, if spec.flags.left then spec.fieldWidth - Natural(num, spec) else 0);
  }

  lemma SameRepeat(c: char, m: int, n: int)
    requires m == n || (m <= 0 && n <= 0)
    ensures Repeat(c, m) == Repeat(c, n)
  {
  }

  /** The spec pointer_string passes on: lower-case hexadecimal, 16 zero-padded digits by default. */
  function PointerSpec(spec: Spec): Spec {
    var s := spec.(base := 16, flags := spec.flags.(small := true));
    if s.fieldWidth == -1 then s.(fieldWidth := 16, flags := s.flags.(zeropad := true)) else s
  }

  method PointerString(out: array<char>, end: nat, pos: nat, ptr: u64, spec: Spec) returns (next: nat)
    requires end <= out.Length
    modifies out
    ensures out[..] == Overlay(old(out[..]), end, pos, NumberText(ptr, PointerSpec(spec)))
    ensures next == pos + |NumberText(ptr, PointerSpec(spec))|
  {
    next := Number(out, end, pos, ptr, PointerSpec(spec));
  }
}
