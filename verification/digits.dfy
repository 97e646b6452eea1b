/** Digits of a number, least significant first, and the reciprocal-multiply decimal conversion of
    printk.c that produces them two at a time. */
module Digits {
  import opened Words

  /** hex_asc_upper[d] | locase */
  function DigitChar(d: nat, small: bool): char
    requires d < 16
  {
    if d < 10 then (48 + d) as char else if small then (87 + d) as char else (55 + d) as char
  }

  /** The digits of n, least significant first, without leading zeros (0 has the one digit 0). */
  function Lsb(n: nat, base: nat): (r: seq<nat>)
    requires base >= 2
    ensures |r| >= 1 && forall d | d in r :: d < base
    decreases n
  {
    if n < base then [n] else
      assert n / base < n by { QuotientSmaller(n, base); }
      [n % base] + Lsb(n / base, base)
  }

  lemma QuotientSmaller(n: nat, base: nat)
    requires 2 <= base <= n
    ensures n / base < n
  {
    var q := n / base;
    DivisionLaw(n, base);
    assert base * q == 2 * q + (base - 2) * q;
    ProductNonnegative(base - 2, q);
  }

  lemma DivisionLaw(n: nat, base: nat)
    requires base > 0
    ensures n == base * (n / base) + n % base && n / base >= 0
  {
  }

  lemma ProductNonnegative(a: nat, b: nat)
    ensures a * b >= 0
  {
  }

  /** The number a digit sequence stands for. */
  function ValueOf(digits: seq<nat>, base: nat): nat {
    if digits == [] then 0 else digits[0] + base * ValueOf(digits[1..], base)
  }

  /** Lsb is the positional representation: it has the right value, and no leading zero. */
  lemma {:induction false} LsbValue(n: nat, base: nat)
    requires base >= 2
    ensures ValueOf(Lsb(n, base), base) == n
    ensures n > 0 ==> Lsb(n, base)[|Lsb(n, base)| - 1] != 0
    decreases n
  {
    if n < base {
      assert ValueOf([n], base) == n + base * ValueOf([n][1..], base);
    } else {
      QuotientSmaller(n, base);
      QuotientPositive(n, base);
      LsbValue(n / base, base);
      assert Lsb(n, base)[1..] == Lsb(n / base, base);
    }
  }

  lemma QuotientPositive(n: nat, base: nat)
    requires 2 <= base <= n
    ensures n / base > 0 && n == n % base + base * (n / base)
  {
    DivisionLaw(n, base);
  }

  /** Exactly k digits of n, least significant first, leading zeros included. */
  function Fixed(n: nat, k: nat): (r: seq<nat>)
    ensures |r| == k && forall d | d in r :: d < 10
  {
    if k == 0 then [] else [n % 10] + Fixed(n / 10, k - 1)
  }

  function Chars(digits: seq<nat>, small: bool): (r: string)
    requires forall d | d in digits :: d < 16
    ensures |r| == |digits|
  {
    seq(|digits|, i requires 0 <= i < |digits| =>
      assert digits[i] in digits; DigitChar(digits[i], small))
  }

  function DecChars(digits: seq<nat>): (r: string)
    requires forall d | d in digits :: d < 10
    ensures |r| == |digits|
  {
    Chars(digits, false)
  }

  /** The two decimal digits of x < 100. */
  function Pair(x: nat): (r: seq<nat>)
    ensures |r| == 2
  {
    [x % 10, x / 10]
  }

  lemma DecPair(n: nat)
    requires n >= 100
    ensures Lsb(n, 10) == Pair(n % 100) + Lsb(n / 100, 10)
  {
    TwoDigits(n);
    assert Lsb(n, 10) == [n % 10] + Lsb(n / 10, 10);
    assert Lsb(n / 10, 10) == [n / 10 % 10] + Lsb(n / 10 / 10, 10);
  }

  lemma FixedPair(n: nat, k: nat)
    ensures Fixed(n, k + 2) == Pair(n % 100) + Fixed(n / 100, k)
  {
    TwoDigits(n);
    assert Fixed(n, k + 2) == [n % 10] + Fixed(n / 10, k + 1);
    assert Fixed(n / 10, k + 1) == [n / 10 % 10] + Fixed(n / 10 / 10, k);
  }

  lemma TwoDigits(n: nat)
    ensures n % 10 == n % 100 % 10 && n / 10 % 10 == n % 100 / 10 && n / 10 / 10 == n / 100
  {
    var h, x := n / 100, n % 100;
    Divides(n, 10, 10 * h + x / 10, x % 10);
    Divides(10 * h + x / 10, 10, h, x / 10);
  }

  lemma {:induction false} FixedCongruent(r: nat, t: nat, k: nat)
    ensures Fixed(r + Power(10, k) * t, k) == Fixed(r, k)
  {
    if k == 0 {
    } else {
      var x := Power(10, k - 1) * t;
      assert Power(10, k) * t == 10 * x;
      assert (r + 10 * x) / 10 == r / 10 + x && (r + 10 * x) % 10 == r % 10;
      FixedCongruent(r / 10, t, k - 1);
    }
  }

  function Power(base: nat, k: nat): nat {
    if k == 0 then 1 else base * Power(base, k - 1)
  }

  lemma TenToTheEighth()
    ensures Power(10, 8) == 100_000_000
  {
    assert Power(10, 4) == 10_000;
  }

  lemma DecFour(n: nat)
    requires n >= 10_000
    ensures Lsb(n, 10) == Fixed(n, 4) + Lsb(n / 10_000, 10)
    ensures forall k: nat :: Fixed(n, k + 4) == Fixed(n, 4) + Fixed(n / 10_000, k)
  {
    hide Lsb, Fixed;
    DecPair(n);
    DecPair(n / 100);
    FixedPair(n, 2);
    FixedPair(n / 100, 0);
    FixedNone(n / 100 / 100);
    forall k: nat ensures Fixed(n, k + 4) == Fixed(n, 4) + Fixed(n / 10_000, k) {
      FixedPair(n, k + 2);
      FixedPair(n / 100, k);
    }
  }

  lemma FixedNone(n: nat)
    ensures Fixed(n, 0) == []
  {
  }

  /** The low eight digits split off. */
  lemma DecSplit8(n: nat)
    requires n >= 100_000_000
    ensures Lsb(n, 10) == Fixed(n % 100_000_000, 8) + Lsb(n / 100_000_000, 10)
  {
    hide Lsb, Fixed, Power;
    DecFour(n);
    DecFour(n / 10_000);
    assert Fixed(n, 4 + 4) == Fixed(n, 4) + Fixed(n / 10_000, 4);
    TenToTheEighth();
    FixedCongruent(n % 100_000_000, n / 100_000_000, 8);
    assert n / 10_000 / 10_000 == n / 100_000_000;
  }

  /** The multiply-and-shift steps are divisions by 100 over their stated ranges, and neither product
      overflows its register. */
  lemma ReciprocalSteps(r: nat)
    ensures r < 100_000_000 ==> r * 0x28f5c29 / 0x1_0000_0000 == r / 100 && r * 0x28f5c29 < TWO64
    ensures r < 10_000 ==> r * 0x147b / 0x8_0000 == r / 100 && r * 0x147b < 0x1_0000_0000
  {
    var a, b := r / 100, r % 100;
    assert r == 100 * a + b;
    if r < 100_000_000 {
      assert r * 0x28f5c29 == 0x1_0000_0000 * a + (4 * a + 0x28f5c29 * b);
    }
    if r < 10_000 {
      assert r * 0x147b == 0x8_0000 * a + (12 * a + 0x147b * b);
    }
  }

  /** The scratch buffer up to position pos is as before, and these digits follow. */
  ghost predicate Wrote(before: string, after: string, pos: nat, digits: seq<nat>) {
    && |after| == |before| && pos + |digits| <= |after|
    && (forall d | d in digits :: d < 10)
    && after[..pos + |digits|] == before[..pos] + DecChars(digits)
  }

  lemma WroteMore(m0: string, m1: string, m2: string, pos: nat, ds: seq<nat>, es: seq<nat>)
    requires Wrote(m0, m1, pos, ds) && Wrote(m1, m2, pos + |ds|, es)
    ensures Wrote(m0, m2, pos, ds + es)
  {
    assert DecChars(ds + es) == DecChars(ds) + DecChars(es);
  }

  /** Storing decpair[x]: the low digit at position i, the high digit after it. */
  method PutPair(buf: array<char>, i: nat, x: nat)
    requires x < 100 && i + 1 < buf.Length
    modifies buf
    ensures Wrote(old(buf[..]), buf[..], i, Pair(x))
    ensures Wrote(old(buf[..]), buf[..], i, [x % 10])
  {
    ghost var m := buf[..];
    buf[i] := (x % 10 + 0x30) as char;
    buf[i + 1] := (x / 10 + 0x30) as char;
    assert buf[..i] == m[..i];
    assert buf[..i + 2] == m[..i] + DecChars(Pair(x));
    assert buf[..i + 1] == m[..i] + DecChars([x % 10]);
  }

  lemma EightDigits(n: nat)
    requires n < 100_000_000
    ensures Fixed(n, 8)
            == Pair(n % 100) + Pair(n / 100 % 100) + Pair(n / 100 / 100 % 100) + Pair(n / 100 / 100 / 100)
  {
    hide Fixed, Pair;
    FixedPair(n, 6);
    FixedPair(n / 100, 4);
    FixedPair(n / 100 / 100, 2);
    FixedPair(n / 100 / 100 / 100, 0);
    FixedNone(n / 100 / 100 / 100 / 100);
    assert n / 100 / 100 / 100 < 100;
  }

  /** Stores two digits at pos, behind the digits ds already written from start on. */
  method AppendPair(buf: array<char>, pos: nat, x: nat, ghost m: string, ghost start: nat, ghost ds: seq<nat>)
    returns (next: nat)
    requires x < 100 && Wrote(m, buf[..], start, ds) && pos == start + |ds| && pos + 1 < buf.Length
    modifies buf
    ensures Wrote(m, buf[..], start, ds + Pair(x)) && next == pos + 2
    ensures Wrote(m, buf[..], start, ds + [x % 10])
  {
    ghost var m1 := buf[..];
    PutPair(buf, pos, x);
    WroteMore(m, m1, buf[..], start, ds, Pair(x));
    WroteMore(m, m1, buf[..], start, ds, [x % 10]);
    next := pos + 2;
  }

  /** (r * 0x28f5c29) >> 32 */
  method Hundredth(r: nat) returns (q: nat)
    requires r < 100_000_000
    ensures q == r / 100
  {
    ReciprocalSteps(r);
    q := r * 0x28f5c29 / 0x1_0000_0000;
  }

  /** (r * 0x147b) >> 19 */
  method HundredthSmall(r: nat) returns (q: nat)
    requires r < 10_000
    ensures q == r / 100
  {
    ReciprocalSteps(r);
    q := r * 0x147b / 0x8_0000;
  }

  lemma NothingWrote(m: string, pos: nat)
    requires pos <= |m|
    ensures Wrote(m, m, pos, [])
  {
    assert DecChars([]) == "";
  }

  /** put_dec_full8: exactly eight digits. */
  method PutDecFull8(buf: array<char>, pos: nat, n: nat) returns (next: nat)
    requires n < 100_000_000 && pos + 8 <= buf.Length
    modifies buf
    ensures next == pos + 8 && Wrote(old(buf[..]), buf[..], pos, Fixed(n, 8))
  {
    hide Wrote, Pair, Fixed;
    ghost var m := buf[..];
    NothingWrote(m, pos);
    EightDigits(n);
    var r := n;
    var q := Hundredth(r);
    next := AppendPair(buf, pos, r - 100 * q, m, pos, []);
    ghost var ds := [] + Pair(n % 100);
    r := Hundredth(q);
    next := AppendPair(buf, next, q - 100 * r, m, pos, ds);
    ds := ds + Pair(n / 100 % 100);
    q := HundredthSmall(r);
    next := AppendPair(buf, next, r - 100 * q, m, pos, ds);
    ds := ds + Pair(n / 100 / 100 % 100);
    next := AppendPair(buf, next, q, m, pos, ds);
    assert [] + Pair(n % 100) == Pair(n % 100);
  }

  /** The digits of a number below 100: one or two of them. */
  lemma LastDigits(r: nat)
    requires r < 100
    ensures Lsb(r, 10) == if r < 10 then [r % 10] else Pair(r)
  {
    if r >= 10 {
      assert Lsb(r, 10) == [r % 10] + Lsb(r / 10, 10);
    }
  }

  /** Two more digits written, two fewer to go. */
  lemma DecStep(n: nat, ds: seq<nat>, r: nat)
    requires Lsb(n, 10) == ds + Lsb(r, 10) && r >= 100
    ensures Lsb(n, 10) == ds + Pair(r - 100 * (r / 100)) + Lsb(r / 100, 10)
  {
    hide Lsb, Pair;
    DecPair(r);
    assert r - 100 * (r / 100) == r % 100;
  }

  /** put_dec_trunc8: the digits of n without leading zeros. The gotos of the original all lead to the
      common tail, which stores a last pair and keeps one or two of its digits. */
  method PutDecTrunc8(buf: array<char>, pos: nat, n: nat) returns (next: nat)
    requires n < 100_000_000 && pos + 8 <= buf.Length
    modifies buf
    ensures next == pos + |Lsb(n, 10)| && Wrote(old(buf[..]), buf[..], pos, Lsb(n, 10))
  {
    hide Wrote, Pair, Lsb;
    ghost var m := buf[..];
    NothingWrote(m, pos);
    ghost var ds: seq<nat> := [];
    var r := n;
    next := pos;
    assert Lsb(n, 10) == ds + Lsb(r, 10);
    if r >= 100 {
      var q := Hundredth(r);
      DecStep(n, ds, r);
      next := AppendPair(buf, next, r - 100 * q, m, pos, ds);
      ds := ds + Pair(r - 100 * q);
      if q >= 100 {
        r := Hundredth(q);
        DecStep(n, ds, q);
        next := AppendPair(buf, next, q - 100 * r, m, pos, ds);
        ds := ds + Pair(q - 100 * r);
        if r >= 100 {
          q := HundredthSmall(r);
          DecStep(n, ds, r);
          next := AppendPair(buf, next, r - 100 * q, m, pos, ds);
          ds := ds + Pair(r - 100 * q);
          r := q;
        }
      } else {
        r := q;
      }
    }
    LastDigits(r);
    var _ := AppendPair(buf, next, r, m, pos, ds);
    next := next + if r < 10 then 1 else 2;
  }

  /** put_dec: the decimal digits of any 64-bit number, least significant first, no leading zeros. */
  method PutDec(buf: array<char>, pos: nat, num: u64) returns (next: nat)
    requires pos + 24 <= buf.Length
    modifies buf
    ensures next == pos + |Lsb(num, 10)| && Wrote(old(buf[..]), buf[..], pos, Lsb(num, 10))
  {
    hide Wrote, Lsb, Fixed;
    ghost var m := buf[..];
    NothingWrote(m, pos);
    ghost var ds: seq<nat> := [];
    var n: nat := num;
    next := pos;
    assert Lsb(num, 10) == ds + Lsb(n, 10);
    if n >= 100_000_000 {
      DecSplit8(n);
      ghost var m1 := buf[..];
      next := PutDecFull8(buf, next, n % 100_000_000);
      WroteMore(m, m1, buf[..], pos, ds, Fixed(n % 100_000_000, 8));
      ds := ds + Fixed(n % 100_000_000, 8);
      n := n / 100_000_000;
      assert Lsb(num, 10) == ds + Lsb(n, 10);
    }
    if n >= 100_000_000 {
      DecSplit8(n);
      ghost var m1 := buf[..];
      next := PutDecFull8(buf, next, n % 100_000_000);
      WroteMore(m, m1, buf[..], pos, ds, Fixed(n % 100_000_000, 8));
      assert ds + (Fixed(n % 100_000_000, 8) + Lsb(n / 100_000_000, 10))
          == ds + Fixed(n % 100_000_000, 8) + Lsb(n / 100_000_000, 10);
      ds := ds + Fixed(n % 100_000_000, 8);
      n := n / 100_000_000;
    }
    ghost var m2 := buf[..];
    next := PutDecTrunc8(buf, next, n);
    WroteMore(m, m2, buf[..], pos, ds, Lsb(n, 10));
  }
}
