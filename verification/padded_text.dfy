/** string(), widen_string() and move_right() of printk.c: %s, right-justified after the fact by moving
    what has been written, and the padding of %c. */
module PaddedText {
  import opened TextBuffer
  import opened FormatSpec

  /** The part of s that a precision lets through; a negative precision means all of it. */
  function Visible(s: string, precision: int): string {
    if 0 <= precision < |s| then s[..precision] else s
  }

  /** %s: the visible text in a field of the given width. */
  function StringText(s: string, spec: Spec): string {
    var v := Visible(s, spec.precision);
    var pad := Repeat(' ', spec.fieldWidth - |v|);
    if spec.flags.left then v + pad else pad + v
  }

  /** Buffer m with the len characters at pos moved right by spaces and blanks put in front, as far as
      both fit below end. */
  function ShiftedRight(m: string, end: nat, pos: nat, len: nat, spaces: nat): (r: string)
    requires end <= |m|
    ensures |r| == |m|
  {
    seq(|m|, k requires 0 <= k < |m| =>
      if k < pos || k >= end then m[k]
      else if k < pos + spaces then ' '
      else if k < pos + spaces + len then m[k - spaces]
      else m[k])
  }

  /** move_right */
  method MoveRight(out: array<char>, end: nat, pos: nat, len: nat, spaces: nat)
    requires end <= out.Length
    modifies out
    ensures out[..] == ShiftedRight(old(out[..]), end, pos, len, spaces)
  {
    ghost var m := out[..];
    Shifted(m, end, pos, len, spaces);
    hide ShiftedRight, Overlay, Repeat, Moved;
    if pos >= end { return; }
    var size := end - pos;
    if size <= spaces {
      MemSet(out, pos, ' ', size);
      return;
    }
    if len > 0 {
      var n := len;
      if n > size - spaces { n := size - spaces; }
      MemMove(out, pos + spaces, pos, n);
    }
    MemSet(out, pos, ' ', spaces);
  }

  /** The three ways a shift ends: before the end of the buffer, past it, or with nothing to do. */
  lemma Shifted(m: string, end: nat, pos: nat, len: nat, spaces: nat)
    requires end <= |m|
    ensures pos >= end ==> ShiftedRight(m, end, pos, len, spaces) == m
    ensures pos < end <= pos + spaces ==>
              ShiftedRight(m, end, pos, len, spaces) == Overlay(m, |m|, pos, Repeat(' ', end - pos))
    ensures pos + spaces < end ==>
              var n := if len > end - pos - spaces then end - pos - spaces else len;
              && (len == 0 ==> ShiftedRight(m, end, pos, len, spaces) == Overlay(m, |m|, pos, Repeat(' ', spaces)))
              && ShiftedRight(m, end, pos, len, spaces)
                 == Overlay(Moved(m, pos + spaces, pos, n), |m|, pos, Repeat(' ', spaces))
  {
    if pos + spaces < end {
      var n := if len > end - pos - spaces then end - pos - spaces else len;
      ShiftedMove(m, end, pos, n, spaces);
      assert ShiftedRight(m, end, pos, len, spaces) == ShiftedRight(m, end, pos, n, spaces);
      if len == 0 {
        MovedNothing(m, pos + spaces, pos);
      }
    }
  }

  lemma ShiftedMove(m: string, end: nat, pos: nat, n: nat, spaces: nat)
    requires end <= |m| && pos + spaces + n <= end
    ensures ShiftedRight(m, end, pos, n, spaces)
            == Overlay(Moved(m, pos + spaces, pos, n), |m|, pos, Repeat(' ', spaces))
  {
  }

  /** Shifting what was written, truncated as it may have been, is writing the blanks first: the
      characters lost past the end are exactly those the shift would have pushed out. */
  lemma ShiftIsPadding(o: string, end: nat, pos: nat, v: string, spaces: nat)
    requires end <= |o|
    ensures ShiftedRight(Overlay(o, end, pos, v), end, pos, |v|, spaces)
            == Overlay(o, end, pos, Repeat(' ', spaces) + v)
  {
  }

  /** widen_string, called with n characters v written just before pos. */
  method WidenString(out: array<char>, pos: nat, n: nat, end: nat, spec: Spec, ghost o: string, ghost v: string)
    returns (next: nat)
    requires end <= out.Length && n == |v| <= pos && out[..] == Overlay(o, end, pos - n, v)
    modifies out
    ensures var pad := Repeat(' ', spec.fieldWidth - n);
            var t := if spec.flags.left then v + pad else pad + v;
            out[..] == Overlay(o, end, pos - n, t) && next == pos - n + |t|
  {
    if n > spec.fieldWidth {
      assert Repeat(' ', spec.fieldWidth - n) == "" && v + "" == v && "" + v == v;
      return pos;
    }
    var spaces := spec.fieldWidth - n;
    if !spec.flags.left {
      MoveRight(out, end, pos - n, n, spaces);
      ShiftIsPadding(o, end, pos - n, v, spaces);
      return pos + spaces;
    }
    next := pos;
    ghost var k := 0;
    assert v + Repeat(' ', 0) == v;
    hide Overlay, Repeat;
    while spaces > 0
      invariant 0 <= spaces && k >= 0 && spaces + k == spec.fieldWidth - n
      invariant out[..] == Overlay(o, end, pos - n, v + Repeat(' ', k))
      invariant next == pos - n + |v + Repeat(' ', k)|
    {
      spaces := spaces - 1;
      next := Append(out, end, next, ' ', o, pos - n, v + Repeat(' ', k));
      RepeatOneMore(' ', k);
      assert v + Repeat(' ', k) + [' '] == v + Repeat(' ', k + 1);
      k := k + 1;
    }
  }

  /** string(): copies characters until the precision or the NUL, then widens. */
  method String(out: array<char>, end: nat, pos: nat, s: string, spec: Spec) returns (next: nat)
    requires end <= out.Length && IsCString(s)
    modifies out
    ensures out[..] == Overlay(old(out[..]), end, pos, StringText(s, spec))
    ensures next == pos + |StringText(s, spec)|
  {
    ghost var o := out[..];
    OverlayNothing(o, end, pos);
    var len, lim := 0, spec.precision;
    next := pos;
    assert s[..0] == "";
    hide Overlay;
    while true
      invariant 0 <= len <= |s| && lim == spec.precision - len && (spec.precision >= 0 ==> lim >= 0)
      invariant out[..] == Overlay(o, end, pos, s[..len]) && next == pos + len
      decreases |s| - len
    {
      if lim == 0 { break; }
      lim := lim - 1;
      var c := At(s, len);
      assert len < |s| ==> s[len] in s;
      if c == '\0' { break; }
      assert s[..len + 1] == s[..len] + [c];
      next := Append(out, end, next, c, o, pos, s[..len]);
      len := len + 1;
    }
    assert s[..len] == Visible(s, spec.precision);
    next := WidenString(out, next, len, end, spec, o, s[..len]);
  }

  /** --field_width on the 24-bit field. */
  function Decremented(w: int): int { Wrap24(w - 1) }

  /** What while (--field_width > 0) puts out from w, and what it leaves in the field. */
  function Countdown(w: int): nat
    requires -0x80_0000 <= w < 0x80_0000
  {
    if Decremented(w) > 0 then Decremented(w) else 0
  }

  function AfterCountdown(w: int): (r: int)
    requires -0x80_0000 <= w < 0x80_0000
    ensures -0x80_0000 <= r < 0x80_0000
  {
    if Decremented(w) > 0 then 0 else Decremented(w)
  }

  /** %c: blanks before the character unless left-justified, and again what the counter still holds. */
  function CharText(c: char, spec: Spec): string
    requires -0x80_0000 <= spec.fieldWidth < 0x80_0000
  {
    var w := spec.fieldWidth;
    if spec.flags.left then [c] + Repeat(' ', Countdown(w))
    else Repeat(' ', Countdown(w)) + [c] + Repeat(' ', Countdown(AfterCountdown(w)))
  }

  /** %c is one character in a field of exactly the given width, on the side the flag says, except at
      the bottom of the bit-field's range, where the counter wraps round to its largest value. */
  lemma CharTextOrdinary(c: char, spec: Spec)
    requires -0x80_0000 <= spec.fieldWidth < 0x80_0000
    ensures var pad := Repeat(' ', spec.fieldWidth - 1);
            CharText(c, spec) == (if spec.flags.left then [c] + pad else pad + [c])
            <==> spec.fieldWidth > -0x80_0000 + (if spec.flags.left then 0 else 1)
  {
    var pad := Repeat(' ', spec.fieldWidth - 1);
    if spec.fieldWidth > -0x80_0000 + (if spec.flags.left then 0 else 1) {
      assert Repeat(' ', Countdown(spec.fieldWidth)) == pad;
      if !spec.flags.left { assert Repeat(' ', Countdown(AfterCountdown(spec.fieldWidth))) == ""; }
    } else {
      assert |pad| == 0 && |CharText(c, spec)| > 1;
    }
  }

  /** while (--field_width > 0) put ' ' */
  method CountdownPad(out: array<char>, end: nat, pos: nat, width: int, ghost o: string, ghost start: nat,
                      ghost s: string)
    returns (next: nat, w: int)
    requires -0x80_0000 <= width < 0x80_0000
    requires end <= out.Length && out[..] == Overlay(o, end, start, s) && pos == start + |s|
    modifies out
    ensures out[..] == Overlay(o, end, start, s + Repeat(' ', Countdown(width)))
    ensures next == start + |s + Repeat(' ', Countdown(width))|
    ensures w == AfterCountdown(width)
  {
    next, w := pos, Decremented(width);
    ghost var k := 0;
    assert s + Repeat(' ', 0) == s;
    hide Overlay, Repeat;
    while w > 0
      invariant k >= 0 && w == Decremented(width) - k && (k > 0 ==> w >= 0)
      invariant out[..] == Overlay(o, end, start, s + Repeat(' ', k))
      invariant next == start + |s + Repeat(' ', k)|
      decreases w
    {
      next := Append(out, end, next, ' ', o, start, s + Repeat(' ', k));
      RepeatOneMore(' ', k);
      assert s + Repeat(' ', k) + [' '] == s + Repeat(' ', k + 1);
      w := Decremented(w);
      k := k + 1;
    }
  }

  /** The FORMAT_TYPE_CHAR case of vsnprintf; w is what is left in the width field. */
  method PutChar(out: array<char>, end: nat, pos: nat, c: char, spec: Spec) returns (next: nat, w: int)
    requires end <= out.Length && -0x80_0000 <= spec.fieldWidth < 0x80_0000
    modifies out
    ensures out[..] == Overlay(old(out[..]), end, pos, CharText(c, spec))
    ensures next == pos + |CharText(c, spec)|
    ensures -0x80_0000 <= w < 0x80_0000
  {
    ghost var o := out[..];
    OverlayNothing(o, end, pos);
    hide Overlay, Repeat;
    ghost var s := "";
    next, w := pos, spec.fieldWidth;
    if !spec.flags.left {
      next, w := CountdownPad(out, end, next, w, o, pos, s);
      assert "" + Repeat(' ', Countdown(spec.fieldWidth)) == Repeat(' ', Countdown(spec.fieldWidth));
      s := Repeat(' ', Countdown(spec.fieldWidth));
    }
    next := Append(out, end, next, c, o, pos, s);
    assert "" + [c] == [c];
    s := s + [c];
    next, w := CountdownPad(out, end, next, w, o, pos, s);
  }
}
