/**
 * The bitwise operators `<<`, `&` and `>>> 0` of JavaScript on integral numbers, modelled on
 * unbounded integers: an operand is converted to its 32-bit pattern (ToInt32 / ToUint32),
 * `&` takes the bits both patterns have, `<<` multiplies by a power of two and wraps. The
 * lemmas say what a mask of high bits does to a number: it keeps the multiple of 2^n below it.
 */
module JsBits {
  import opened JsRuntime

  function Pow2(n: nat): (r: nat)
    ensures r >= 1
  {
    if n == 0 then 1 else 2 * Pow2(n - 1)
  }

  /** The low k bits common to x and y, as a number. */
  function BitAnd(x: nat, y: nat, k: nat): (r: nat)
    ensures r < Pow2(k)
  {
    if k == 0 then 0
    else 2 * BitAnd(x / 2, y / 2, k - 1) + (if x % 2 == 1 && y % 2 == 1 then 1 else 0)
  }

  /** `a & b`: the common bits of the two 32-bit patterns, read back as a signed 32-bit number. */
  function JsAnd(a: Num, b: Num): (r: int)
    ensures -TWO_31 <= r < TWO_31
  {
    ToInt32(Int(BitAnd(ToUint32(a), ToUint32(b), 32)))
  }

  /** `a << b`: the shift count is ToUint32(b) modulo 32, the product wraps to 32 bits. */
  function JsShl(a: Num, b: Num): (r: int)
    ensures -TWO_31 <= r < TWO_31
  {
    ToInt32(Int(ToInt32(a) * Pow2(ToUint32(b) % 32)))
  }

  // ---------------------------------------------------------------------------------------
  // Lemmas
  // ---------------------------------------------------------------------------------------

  /** Powers of two multiply by adding their exponents. */
  lemma {:induction false} Pow2Add(a: nat, b: nat)
    ensures Pow2(a + b) == Pow2(a) * Pow2(b)
  {
    if b > 0 {
      Pow2Add(a, b - 1);
      assert Pow2(a + b) == 2 * Pow2(a + b - 1);
      assert 2 * (Pow2(a) * Pow2(b - 1)) == Pow2(a) * (2 * Pow2(b - 1));
    }
  }

  lemma Pow2Values()
    ensures Pow2(8) == 256 && Pow2(31) == TWO_31 && Pow2(32) == TWO_32
  {
    assert Pow2(4) == 16 by {
      assert Pow2(1) == 2;
      assert Pow2(2) == 4;
      assert Pow2(3) == 8;
    }
    Pow2Add(4, 4);
    Pow2Add(8, 8);
    Pow2Add(16, 16);
  }

  lemma {:induction false} Pow2Mono(n: nat, k: nat)
    requires n <= k
    ensures Pow2(n) <= Pow2(k)
  {
    if n < k {
      Pow2Mono(n, k - 1);
    }
  }

  /** Halving, then dividing by 2^n, is dividing by 2^(n+1). */
  lemma DivDiv(x: nat, n: nat)
    ensures (x / 2) / Pow2(n) == x / Pow2(n + 1)
  {
    var p := Pow2(n);
    var q := x / 2;
    var a, b := q / p, q % p;
    assert q == p * a + b;
    assert x == 2 * q + x % 2;
    assert x == (2 * p) * a + (2 * b + x % 2);
    DivUnique(x, 2 * p, a, 2 * b + x % 2);
  }

  /** The all-ones mask of k bits keeps a k-bit number whole. */
  lemma {:induction false} BitAndOnes(x: nat, k: nat)
    requires x < Pow2(k)
    ensures BitAnd(x, Pow2(k) - 1, k) == x
  {
    if k > 0 {
      var m := Pow2(k) - 1;
      assert m % 2 == 1 && m / 2 == Pow2(k - 1) - 1;
      BitAndOnes(x / 2, k - 1);
    }
  }

  /** An even mask drops the lowest bit and halves the rest. */
  lemma BitAndEvenMask(x: nat, h: nat, k: nat)
    requires k > 0
    ensures BitAnd(x, 2 * h, k) == 2 * BitAnd(x / 2, h, k - 1)
  {
    assert (2 * h) % 2 == 0 && (2 * h) / 2 == h;
  }

  /** x with its low n bits cleared. */
  function ClearLow(x: nat, n: nat): nat {
    if n == 0 then x else 2 * ClearLow(x / 2, n - 1)
  }

  /** x with its low n bits shifted out: `x >>> n`. */
  function DropLow(x: nat, n: nat): nat {
    if n == 0 then x else DropLow(x / 2, n - 1)
  }

  /** The mask of the bits from n up to k clears the low n bits of a k-bit number. */
  lemma {:induction false} BitAndHigh(x: nat, n: nat, k: nat)
    requires n <= k && x < Pow2(k)
    ensures Pow2(n) <= Pow2(k)
    ensures BitAnd(x, Pow2(k) - Pow2(n), k) == ClearLow(x, n)
  {
    Pow2Mono(n, k);
    if n == 0 {
      BitAndOnes(x, k);
    } else {
      BitAndHigh(x / 2, n - 1, k - 1);
      var m': nat := Pow2(k - 1) - Pow2(n - 1);
      assert Pow2(k) - Pow2(n) == 2 * m';
      BitAndEvenMask(x, m', k);
    }
  }

  /** Two numbers agree once their low n bits are cleared exactly when they agree once those
      bits are shifted out. */
  lemma {:induction false} ClearLowIff(x: nat, y: nat, n: nat)
    ensures ClearLow(x, n) == ClearLow(y, n) <==> DropLow(x, n) == DropLow(y, n)
  {
    if n > 0 {
      ClearLowIff(x / 2, y / 2, n - 1);
    }
  }

  /** Shifting out n bits is dividing by 2^n. */
  lemma {:induction false} DropLowDiv(x: nat, n: nat)
    ensures DropLow(x, n) == x / Pow2(n)
  {
    if n > 0 {
      DropLowDiv(x / 2, n - 1);
      DivDiv(x, n - 1);
    }
  }

  /** Two 32-bit patterns read back as the same signed number only when they are equal. */
  lemma ToInt32Injective(a: nat, b: nat)
    requires a < TWO_32 && b < TWO_32
    ensures ToInt32(Int(a)) == ToInt32(Int(b)) <==> a == b
  {
  }

  /** `(0xffffffff << s) >>> 0` for a count s below 32 is the mask of bits s to 31. */
  lemma ShiftedOnes(b: Num)
    ensures var s := ToUint32(b) % 32;
      Pow2(s) <= TWO_31 &&
      ToUint32(Int(JsShl(Int(0xFFFF_FFFF), b))) == TWO_32 - Pow2(s)
  {
    var s := ToUint32(b) % 32;
    Pow2Values();
    Pow2Mono(s, 31);
    assert ToInt32(Int(0xFFFF_FFFF)) == -1;
    var p: int := Pow2(s);
    assert ToInt32(Int(-1 * p)) == -p;
  }
}
