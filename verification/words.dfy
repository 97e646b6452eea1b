/** 64-bit machine words: wrap-around arithmetic and the bitwise OR the table builders use. */
module Words {

  const TWO64: int := 0x1_0000_0000_0000_0000

  /** The output-address width of the translation tables: descriptor bits [47:12]. */
  const TWO48: int := 0x1_0000_0000_0000

  type u64 = x: int | 0 <= x < 0x1_0000_0000_0000_0000

  /** The value a 64-bit register holds after an addition or subtraction. */
  function Wrap64(x: int): u64 {
    x % TWO64
  }

  lemma NoWrap(x: int)
    requires 0 <= x < TWO64
    ensures Wrap64(x) == x
  {
  }

  /** A quotient and a remainder that fit are the quotient and the remainder. */
  lemma Divides(x: int, k: int, q: int, r: int)
    requires k > 0 && x == k * q + r && 0 <= r < k
    ensures x / k == q && x % k == r
  {
    var d := q - x / k;
    assert k * d == x % k - r;
    ProductApart(k, d);
  }

  lemma ProductApart(k: int, d: int)
    requires k > 0
    ensures d == 0 || k * d >= k || k * d <= -k
  {
  }

  function Pow2(k: nat): nat {
    if k == 0 then 1 else 2 * Pow2(k - 1)
  }

  /** Bitwise OR of two natural numbers. */
  function Or(a: nat, b: nat): nat
    decreases a + b
  {
    if a == 0 && b == 0 then 0
    else 2 * Or(a / 2, b / 2) + (if a % 2 == 1 || b % 2 == 1 then 1 else 0)
  }

  /** Bit k of x, counted from the least significant end. */
  predicate Bit(x: nat, k: nat) {
    if k == 0 then x % 2 == 1 else Bit(x / 2, k - 1)
  }

  lemma OrHalf(a: nat, b: nat)
    ensures Or(a, b) / 2 == Or(a / 2, b / 2) && (Or(a, b) % 2 == 1 <==> a % 2 == 1 || b % 2 == 1)
  {
    if a == 0 && b == 0 { assert Or(0, 0) == 0; }
  }

  /** Or is the bitwise disjunction. */
  lemma {:induction false} OrBits(a: nat, b: nat, k: nat)
    ensures Bit(Or(a, b), k) <==> Bit(a, k) || Bit(b, k)
    decreases k
  {
    OrHalf(a, b);
    if k == 0 {
    } else {
      OrBits(a / 2, b / 2, k - 1);
    }
  }

  lemma {:induction false} OrZero(a: nat)
    ensures Or(a, 0) == a && Or(0, a) == a
  {
    if a == 0 {
    } else {
      OrZero(a / 2);
    }
  }

  lemma DoublePower(a: nat, k: nat)
    requires k > 0
    ensures a * Pow2(k) == 2 * (a * Pow2(k - 1))
  {
  }

  lemma OrHalves(a: nat, b: nat)
    ensures Or(a, b) == 2 * Or(a / 2, b / 2) + (if a % 2 == 1 || b % 2 == 1 then 1 else 0)
  {
  }

  /** OR works separately on the part of a word from bit k up and the part below it. */
  lemma {:induction false} OrConcat(x: nat, y: nat, ah: nat, al: nat, bh: nat, bl: nat, k: nat)
    requires al < Pow2(k) && x == ah * Pow2(k) + al
    requires bl < Pow2(k) && y == bh * Pow2(k) + bl
    ensures Or(x, y) == Or(ah, bh) * Pow2(k) + Or(al, bl)
    ensures Or(al, bl) < Pow2(k)
    decreases k
  {
    if k == 0 {
      assert x == ah && y == bh && al == 0 && bl == 0;
    } else {
      DoublePower(ah, k);
      DoublePower(bh, k);
      OrConcat(x / 2, y / 2, ah, al / 2, bh, bl / 2, k - 1);
      DoublePower(Or(ah, bh), k);
      OrHalves(x, y);
      OrHalves(al, bl);
    }
  }

  lemma FourBitsMore(k: nat)
    ensures Pow2(k + 4) == 16 * Pow2(k)
  {
    assert Pow2(k + 2) == 4 * Pow2(k);
  }

  lemma SixteenBitsMore(k: nat)
    ensures Pow2(k + 16) == 0x1_0000 * Pow2(k)
  {
    hide Pow2;
    FourBitsMore(k);
    FourBitsMore(k + 4);
    FourBitsMore(k + 8);
    FourBitsMore(k + 12);
  }

  lemma PowersUsed()
    ensures Pow2(12) == 0x1000 && Pow2(32) == 0x1_0000_0000 && Pow2(48) == TWO48 && Pow2(64) == TWO64
  {
    assert Pow2(0) == 1;
    hide Pow2;
    FourBitsMore(0);
    FourBitsMore(4);
    FourBitsMore(8);
    SixteenBitsMore(0);
    SixteenBitsMore(16);
    SixteenBitsMore(32);
    SixteenBitsMore(48);
  }

  /** The ORR instruction: the bitwise OR of two registers is again a register value. */
  function Or64(a: u64, b: u64): (r: u64)
    ensures r == Or(a, b)
  {
    PowersUsed();
    OrConcat(a, b, 0, a, 0, b, 64);
    Or(a, b)
  }

  /** OR of a page-aligned address with a value whose bits lie below the page size. */
  lemma OrLow(r: nat, x: nat, y: nat)
    requires r % 4096 == 0 && x < 4096 && y < 4096
    ensures Or(r + x, y) == r + Or(x, y) && Or(x, y) < 4096
  {
    PowersUsed();
    hide Or, Pow2;
    OrConcat(r + x, y, r / 4096, x, 0, y, 12);
    OrZero(r / 4096);
  }

  /** A descriptor's attribute bits lie outside the output-address field [47:12]. */
  predicate AttributeBits(flags: u64) {
    flags / 4096 % 0x10_0000_0000 == 0
  }

  lemma SplitAttributes(flags: u64)
    requires AttributeBits(flags)
    ensures flags == flags / TWO48 * TWO48 + flags % 4096
  {
    var q := flags / 4096;
    assert q == q / 0x10_0000_0000 * 0x10_0000_0000;
    assert q / 0x10_0000_0000 == flags / TWO48;
  }

  /** ORing attribute bits into a 48-bit page address is an addition. */
  lemma OrIntoAddress(r: nat, flags: u64)
    requires r % 4096 == 0 && r < TWO48
    requires AttributeBits(flags)
    ensures Or(r, flags) == r + flags < TWO64
  {
    SplitAttributes(flags);
    OrAttributes(r, flags, flags / TWO48, flags % 4096);
  }

  lemma OrAttributes(r: nat, flags: u64, h: nat, fl: nat)
    requires r % 4096 == 0 && r < TWO48 && fl < 4096 && flags == h * TWO48 + fl
    ensures Or(r, flags) == r + flags < TWO64
  {
    hide Or;
    OrLow(r, 0, fl);
    OrZero(fl);
    HighPartUnchanged(r, flags, h, fl);
    RoomBelow48(r / 4096, r, fl);
  }

  lemma RoomBelow48(q: nat, r: nat, fl: nat)
    requires r == 4096 * q && r < TWO48 && fl < 4096
    ensures r + fl < TWO48
  {
  }

  lemma HighPartUnchanged(r: nat, y: nat, h: nat, l: nat)
    requires r < TWO48 && l < TWO48 && y == h * TWO48 + l
    ensures Or(r, y) == h * TWO48 + Or(r, l)
  {
    PowersUsed();
    hide Or, Pow2;
    OrConcat(r, y, 0, r, h, l, 48);
    OrZero(h);
  }
}
