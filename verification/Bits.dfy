/** Natural numbers seen as machine words: powers of two, the bitwise operators
    the firmware applies to addresses, and the library call that isolates the
    highest set bit. */
module Bits {
  import opened Division

  function Pow2(n: nat): (r: nat)
    ensures r > 0
  {
    if n == 0 then 1 else 2 * Pow2(n - 1)
  }

  const TWO64: nat := 0x1_0000_0000_0000_0000

  /** Bitwise and. */
  function And(x: nat, y: nat): nat {
    if x == 0 || y == 0 then 0
    else 2 * And(x / 2, y / 2) + (if x % 2 == 1 && y % 2 == 1 then 1 else 0)
  }

  /** Bitwise or. */
  function Or(x: nat, y: nat): nat {
    if x == 0 then y
    else if y == 0 then x
    else 2 * Or(x / 2, y / 2) + (if x % 2 == 1 || y % 2 == 1 then 1 else 0)
  }

  /** Complement of a 64-bit word. */
  function Not64(x: nat): nat {
    TWO64 - 1 - x % TWO64
  }

  /** Number of set bits. */
  function PopCount(x: nat): nat {
    if x == 0 then 0 else x % 2 + PopCount(x / 2)
  }

  /** Index of the highest set bit (HighBitSet64 for a non-zero operand). */
  function HighBit(x: nat): (k: nat)
    requires x > 0
    ensures Pow2(k) <= x < 2 * Pow2(k)
  {
    if x == 1 then 0 else HighBit(x / 2) + 1
  }

  /** The highest power of two not above the operand, and 0 for 0. */
  function GetPowerOfTwo64(x: nat): (r: nat)
    ensures x == 0 ==> r == 0
    ensures x > 0 ==> 0 < r <= x < 2 * r
  {
    if x == 0 then 0 else Pow2(HighBit(x))
  }

  predicate IsPow2(x: nat) {
    x > 0 && x == Pow2(HighBit(x))
  }

  type Positive = x: nat | x > 0 witness 1

  // ----- powers of two -----

  lemma {:induction false} Pow2Constants()
    ensures Pow2(8) == 0x100
    ensures Pow2(11) == 0x800
    ensures Pow2(12) == 0x1000
    ensures Pow2(20) == 0x10_0000
    ensures Pow2(24) == 0x100_0000
    ensures Pow2(26) == 0x400_0000
    ensures Pow2(28) == 0x1000_0000
    ensures Pow2(32) == 0x1_0000_0000
    ensures Pow2(36) == 0x10_0000_0000
    ensures Pow2(64) == TWO64
  {
    Pow2Add(12, 12);
    Pow2Add(24, 12);
    Pow2Add(12, 8);
    Pow2Add(24, 8);
    Pow2Add(24, 2);
    Pow2Add(24, 4);
    Pow2Add(32, 32);
  }

  lemma {:induction false} Pow2Add(m: nat, n: nat)
    ensures Pow2(m + n) == Pow2(m) * Pow2(n)
  {
    if m == 0 {
      assert Pow2(0) * Pow2(n) == Pow2(n);
    } else {
      Pow2Add(m - 1, n);
      assert Pow2(m + n) == 2 * Pow2(m - 1 + n);
      assert 2 * (Pow2(m - 1) * Pow2(n)) == (2 * Pow2(m - 1)) * Pow2(n);
    }
  }

  lemma {:induction false} Pow2Mono(m: nat, n: nat)
    requires m < n
    ensures 2 * Pow2(m) <= Pow2(n)
    decreases n
  {
    if m < n - 1 {
      Pow2Mono(m, n - 1);
    }
  }

  lemma {:induction false} Pow2Le(m: nat, n: nat)
    ensures m <= n <==> Pow2(m) <= Pow2(n)
  {
    if m < n {
      Pow2Mono(m, n);
    } else if n < m {
      Pow2Mono(n, m);
    }
  }

  lemma {:induction false} HighBitUnique(x: nat, k: nat)
    requires Pow2(k) <= x < 2 * Pow2(k)
    ensures x > 0 && HighBit(x) == k
  {
    var h := HighBit(x);
    if h < k {
      Pow2Mono(h, k);
    } else if k < h {
      Pow2Mono(k, h);
    }
  }

  lemma {:induction false} Pow2IsPow2(k: nat)
    ensures IsPow2(Pow2(k)) && HighBit(Pow2(k)) == k
  {
    HighBitUnique(Pow2(k), k);
  }

  /** It is a power of two, and the powers of two up to the operand are those up to it. */
  lemma {:induction false} HighestPowerOfTwo(x: nat, k: nat)
    ensures GetPowerOfTwo64(x) == 0 <==> x == 0
    ensures x > 0 ==> IsPow2(GetPowerOfTwo64(x))
    ensures Pow2(k) <= x <==> Pow2(k) <= GetPowerOfTwo64(x)
  {
    if x > 0 {
      var h := HighBit(x);
      Pow2IsPow2(h);
      Pow2Le(k, h);
      Pow2Le(h + 1, k);
    }
  }

  // ----- divisibility -----

  /** The low k bits of x are clear. */
  predicate Aligned(x: nat, k: nat) {
    k == 0 || (x % 2 == 0 && Aligned(x / 2, k - 1))
  }

  /** Clear low bits mean a multiple of 2^k. */
  lemma {:induction false} AlignedIff(x: nat, k: nat)
    ensures Aligned(x, k) <==> x % Pow2(k) == 0
    decreases k
  {
    if k > 0 {
      HalfMod(x, k);
      AlignedIff(x / 2, k - 1);
    }
  }

  lemma {:induction false} AlignedWitness(x: nat, k: nat)
    requires Aligned(x, k)
    ensures x == (x / Pow2(k)) * Pow2(k)
  {
    AlignedIff(x, k);
    DivEquation(x, Pow2(k));
  }

  /** Adding a multiple of 2^k does not change the low k bits. */
  lemma {:induction false} AddAligned(x: nat, a: nat, k: nat)
    requires Aligned(a, k)
    ensures (x + a) % Pow2(k) == x % Pow2(k)
  {
    var d := Pow2(k);
    AlignedWitness(a, k);
    var p, q := x / d, a / d;
    DivEquation(x, d);
    QuotientNat(x, d);
    QuotientNat(a, d);
    MulSplit(p, q, d);
    DivModUnique(x + a, d, p + q, x % d);
  }

  lemma {:induction false} AlignedAdd(x: nat, y: nat, k: nat)
    requires Aligned(y, k)
    ensures Aligned(x + y, k) <==> Aligned(x, k)
    decreases k
  {
    if k > 0 {
      AlignedAdd(x / 2, y / 2, k - 1);
      assert (x + y) / 2 == x / 2 + y / 2;
    }
  }

  lemma {:induction false} AlignedWeaken(x: nat, k: nat, m: nat)
    requires Aligned(x, m) && k <= m
    ensures Aligned(x, k)
    decreases k
  {
    if k > 0 {
      AlignedWeaken(x / 2, k - 1, m - 1);
    }
  }

  lemma {:induction false} AlignedSelf(k: nat)
    ensures Aligned(Pow2(k), k)
  {
    if k > 0 {
      AlignedSelf(k - 1);
      assert Pow2(k) / 2 == Pow2(k - 1) && Pow2(k) % 2 == 0;
    }
  }

  lemma {:induction false} AlignedZero(k: nat)
    ensures Aligned(0, k)
  {
    if k > 0 {
      AlignedZero(k - 1);
    }
  }

  lemma {:induction false} BlockStart(x: nat, k: nat)
    ensures x % Pow2(k) <= x
    ensures Aligned(x - x % Pow2(k), k)
  {
    RoundDown(x, Pow2(k));
    AlignedIff(x - x % Pow2(k), k);
  }

  lemma {:induction false} RoundDown(x: nat, d: nat)
    requires d > 0
    ensures x % d <= x && (x - x % d) % d == 0
  {
    DivEquation(x, d);
    MulMono(0, x / d, d);
    MulMod(x / d, d);
  }

  /** Rounding x down to a multiple of 2^k gives the multiple whose block holds x. */
  lemma {:induction false} BlockOf(x: nat, b: nat, k: nat)
    requires Aligned(b, k)
    ensures x - x % Pow2(k) == b <==> b <= x < b + Pow2(k)
  {
    var d := Pow2(k);
    AlignedWitness(b, k);
    if b <= x < b + d {
      DivModUnique(x, d, b / d, x - b);
    }
  }

  /** The remainder of a multiple of 2^k modulo a larger power is a multiple too. */
  lemma {:induction false} ModMod(x: nat, k: nat, n: nat)
    requires k <= n
    ensures (x % Pow2(n)) % Pow2(k) == x % Pow2(k)
    ensures Aligned(x, k) ==> Aligned(x % Pow2(n), k)
  {
    BlockStart(x, n);
    var hi := x - x % Pow2(n);
    AlignedWeaken(hi, k, n);
    AddAligned(x % Pow2(n), hi, k);
    AlignedIff(x, k);
    AlignedIff(x % Pow2(n), k);
  }

  /** Below a multiple of 2^k, another multiple leaves room for a whole block. */
  lemma {:induction false} AlignedRoom(x: nat, top: nat, k: nat)
    requires Aligned(x, k) && Aligned(top, k) && x < top
    ensures x + Pow2(k) <= top
    decreases k
  {
    if k > 0 {
      AlignedRoom(x / 2, top / 2, k - 1);
    }
  }

  // ----- bitwise operators against arithmetic -----

  lemma {:induction false} AndDouble(x: nat, y: nat)
    ensures And(x, 2 * y) == 2 * And(x / 2, y)
  {
    assert (2 * y) / 2 == y;
  }

  /** A mask of n low ones keeps the remainder modulo 2^n. */
  lemma {:induction false} AndLowMask(x: nat, n: nat)
    ensures And(x, Pow2(n) - 1) == x % Pow2(n)
  {
    if x == 0 {
      DivModUnique(0, Pow2(n), 0, 0);
    } else if n > 0 {
      AndLowMask(x / 2, n - 1);
      assert (Pow2(n) - 1) / 2 == Pow2(n - 1) - 1 && (Pow2(n) - 1) % 2 == 1;
      HalfMod(x, n);
    }
  }

  /** A mask of ones in the bits m..n-1 keeps exactly that field. */
  lemma {:induction false} AndFieldMask(x: nat, m: nat, n: nat)
    requires m <= n
    ensures Pow2(m) <= Pow2(n)
    ensures And(x, Pow2(n) - Pow2(m)) == x % Pow2(n) - x % Pow2(m)
  {
    if m == 0 {
      AndLowMask(x, n);
    } else {
      AndFieldMask(x / 2, m - 1, n - 1);
      AndDouble(x, Pow2(n - 1) - Pow2(m - 1));
      HalfMod(x, n);
      HalfMod(x, m);
    }
  }

  lemma {:induction false} HalfMod(x: nat, n: nat)
    requires n > 0
    ensures x % Pow2(n) == 2 * ((x / 2) % Pow2(n - 1)) + x % 2
  {
    var d := Pow2(n - 1);
    var q, r := (x / 2) / d, (x / 2) % d;
    DivEquation(x / 2, d);
    assert 2 * (q * d) == q * (2 * d);
    DivModUnique(x, 2 * d, q, 2 * r + x % 2);
  }

  /** Or-ing bits into the empty low part of a word adds them. */
  lemma {:induction false} OrDisjoint(x: nat, y: nat, k: nat)
    requires Aligned(x, k) && y < Pow2(k)
    ensures Or(x, y) == x + y
  {
    if x != 0 && y != 0 {
      OrDisjoint(x / 2, y / 2, k - 1);
    }
  }

  /** Taking away the highest set bit removes one from the population count. */
  lemma {:induction false} PopCountHighBit(x: nat)
    requires x > 0
    ensures PopCount(x) == 1 + PopCount(x - Pow2(HighBit(x)))
  {
    if x > 1 {
      PopCountHighBit(x / 2);
      var rest: nat := x - Pow2(HighBit(x));
      assert rest / 2 == x / 2 - Pow2(HighBit(x / 2)) && rest % 2 == x % 2;
      assert PopCount(rest) == rest % 2 + PopCount(rest / 2);
    }
  }
}
