/**
 * The unsigned integer types a key is canonicalised to, and the bucket index
 * function of the map: a wrapping multiplication by a prime, a cast to a
 * 64-bit `usize`, and a bit-and with the capacity mask.
 */
module Int {

  /** The fixed-width unsigned integer types that can serve as canonical keys. */
  datatype Width = U8 | U16 | U32 | U64 | U128 {

    function Bits(): nat {
      match this
      case U8 => 8
      case U16 => 16
      case U32 => 32
      case U64 => 64
      case U128 => 128
    }

    /** 2^Bits(): the number of values of the type. */
    function Modulus(): nat {
      match this
      case U8 => 0x100
      case U16 => 0x1_0000
      case U32 => 0x1_0000_0000
      case U64 => 0x1_0000_0000_0000_0000
      case U128 => 0x1_0000_0000_0000_0000_0000_0000_0000_0000
    }

    /** The type's MAX constant. */
    function Max(): nat {
      Modulus() - 1
    }
  }

  /** `usize` on the 64-bit targets the model assumes. */
  const UsizeBits: nat := 64
  const UsizeModulus: nat := 0x1_0000_0000_0000_0000

  function Pow2(n: nat): (r: nat)
    ensures r >= 1
  {
    if n == 0 then 1 else 2 * Pow2(n - 1)
  }

  lemma {:induction false} Pow2Add(a: nat, b: nat)
    ensures Pow2(a + b) == Pow2(a) * Pow2(b)
  {
    if b > 0 {
      Pow2Add(a, b - 1);
      assert Pow2(a + b) == 2 * Pow2(a + b - 1);
    }
  }

  /** 2^k splits as 2^n * 2^(k-n). */
  lemma {:induction false} Pow2Split(n: nat, k: nat)
    requires n <= k
    ensures Pow2(k) == Pow2(n) * Pow2(k - n)
    decreases k
  {
    if k > n {
      Pow2Split(n, k - 1);
      assert Pow2(k) == 2 * Pow2(k - 1);
      assert Pow2(k - n) == 2 * Pow2(k - 1 - n);
    }
  }

  lemma Pow2Of8()
    ensures Pow2(8) == 0x100
  {
    assert Pow2(2) == 4;
    assert Pow2(4) == 16;
    assert Pow2(6) == 64;
  }

  lemma Pow2Of16()
    ensures Pow2(16) == 0x1_0000
  {
    Pow2Of8();
    Pow2Add(8, 8);
  }

  lemma Pow2Of32()
    ensures Pow2(32) == 0x1_0000_0000
  {
    Pow2Of16();
    Pow2Add(16, 16);
  }

  lemma Pow2Of64()
    ensures Pow2(64) == 0x1_0000_0000_0000_0000
  {
    Pow2Of32();
    Pow2Add(32, 32);
  }

  lemma Pow2Of128()
    ensures Pow2(128) == 0x1_0000_0000_0000_0000_0000_0000_0000_0000
  {
    Pow2Of64();
    Pow2Add(64, 64);
  }

  /** Each width's Modulus is the power of two its bit count names. */
  lemma ModulusIsPow2(w: Width)
    ensures w.Modulus() == Pow2(w.Bits())
    ensures UsizeModulus == Pow2(UsizeBits)
  {
    Pow2Of8();
    Pow2Of16();
    Pow2Of32();
    Pow2Of64();
    Pow2Of128();
  }

  /** `a.wrapping_mul(b)` on the unsigned type of width `w`. */
  function WrappingMul(w: Width, a: nat, b: nat): (r: nat)
    ensures r < w.Modulus()
  {
    (a * b) % w.Modulus()
  }

  /** `x as usize`: keeps the low 64 bits. */
  function AsUsize(x: nat): (r: nat)
    ensures r < UsizeModulus
    ensures x < UsizeModulus ==> r == x
  {
    x % UsizeModulus
  }

  /** Bitwise and of two naturals, bit by bit from the least significant. */
  function BitAnd(a: nat, b: nat): nat
    decreases a
  {
    if a == 0 || b == 0 then 0
    else 2 * BitAnd(a / 2, b / 2) + (if a % 2 == 1 && b % 2 == 1 then 1 else 0)
  }

  lemma {:induction false} BitAndAtMost(a: nat, b: nat)
    ensures BitAnd(a, b) <= b
    decreases a
  {
    if a != 0 && b != 0 {
      BitAndAtMost(a / 2, b / 2);
    }
  }

  lemma {:induction false} MulMonotone(d: nat, x: nat, y: nat)
    requires x >= y
    ensures d * x >= d * y
    decreases x - y
  {
    if x > y {
      MulMonotone(d, x - 1, y);
      assert d * x == d * (x - 1) + d;
    }
  }

  lemma MulGap(d: nat, x: nat, y: nat)
    ensures x > y ==> d * x >= d * y + d
  {
    if x > y {
      MulMonotone(d, x, y + 1);
      assert d * (y + 1) == d * y + d;
    }
  }

  lemma DivModParts(x: nat, d: nat)
    requires d > 0
    ensures x == d * (x / d) + x % d && x % d < d
  {
  }

  /** A quotient is at least `q` once the dividend reaches `d * q`. */
  lemma DivLowerBound(x: nat, d: nat, q: nat)
    requires d > 0
    ensures x >= d * q ==> x / d >= q
  {
    DivModParts(x, d);
    MulGap(d, q, x / d);
  }

  /** Euclidean division by `d` has exactly one quotient and remainder. */
  lemma DivModUnique(a: nat, d: nat, q: nat, r: nat)
    requires 0 <= r < d
    requires a == d * q + r
    ensures a / d == q && a % d == r
  {
    var q', r' := a / d, a % d;
    assert a == d * q' + r';
    MulGap(d, q', q);
    MulGap(d, q, q');
  }

  /** Reducing modulo `a * b` and then modulo `a` is reducing modulo `a`. */
  lemma ModMod(x: nat, a: nat, b: nat, ab: nat)
    requires a > 0 && b > 0 && ab == a * b
    ensures (x % ab) % a == x % a
  {
    var q, r := x / ab, x % ab;
    DivModParts(x, ab);
    var q2, r2 := r / a, r % a;
    DivModParts(r, a);
    MulAssoc(a, b, q);
    MulAddLeft(a, b * q, q2);
    assert x == a * (b * q + q2) + r2;
    DivModUnique(x, a, b * q + q2, r2);
  }

  lemma MulAssoc(a: nat, b: nat, c: nat)
    ensures (a * b) * c == a * (b * c)
  {
  }

  lemma MulAddLeft(a: nat, b: nat, c: nat)
    ensures a * b + a * c == a * (b + c)
  {
  }

  /** Splitting off the lowest bit of a remainder modulo an even number. */
  lemma HalfMod(a: nat, m: nat, p: nat)
    requires m > 0 && p == 2 * m
    ensures a % p == 2 * ((a / 2) % m) + a % 2
  {
    var h := a / 2;
    var t, s := h % m, h / m;
    DivModParts(h, m);
    assert a == 2 * h + a % 2;
    assert a == (2 * m) * s + (2 * t + a % 2);
    DivModUnique(a, p, s, 2 * t + a % 2);
  }

  /** Anding with 2^n - 1 keeps the n low bits. */
  lemma {:induction false} BitAndLowMask(a: nat, n: nat)
    ensures BitAnd(a, Pow2(n) - 1) == a % Pow2(n)
    decreases n
  {
    var p := Pow2(n);
    if n == 0 {
      assert p == 1;
    } else if a == 0 {
      assert BitAnd(a, p - 1) == 0;
    } else {
      var m := Pow2(n - 1);
      assert p == 2 * m;
      var h := a / 2;
      BitAndOddMask(a, m, p);
      BitAndLowMask(h, n - 1);
      assert BitAnd(h, m - 1) == h % m;
      HalfMod(a, m, p);
      assert BitAnd(a, p - 1) == 2 * (h % m) + a % 2;
    }
  }

  /** Anding with an odd mask 2m - 1 keeps the lowest bit and ands the rest with m - 1. */
  lemma BitAndOddMask(a: nat, m: nat, p: nat)
    requires a > 0 && m >= 1 && p == 2 * m
    ensures BitAnd(a, p - 1) == 2 * BitAnd(a / 2, m - 1) + a % 2
  {
    var mask := p - 1;
    assert mask % 2 == 1 && mask / 2 == m - 1;
  }

  /**
   * `SealedInt::calc_index`: the bucket of canonical key `key` for capacity
   * mask `mask`, hashing with the width's prime `prime`.
   */
  function CalcIndex(w: Width, key: nat, mask: nat, prime: nat): (r: nat)
    ensures r <= mask
  {
    var hash := WrappingMul(w, prime, key);
    BitAndAtMost(AsUsize(hash), mask);
    BitAnd(AsUsize(hash), mask)
  }

  /** With a mask 2^n - 1 the index is a valid position in 2^n buckets. */
  lemma CalcIndexInRange(w: Width, key: nat, n: nat, prime: nat)
    ensures CalcIndex(w, key, Pow2(n) - 1, prime) < Pow2(n)
  {
  }

  /** A zero mask puts every key in bucket 0. */
  lemma CalcIndexMaskZero(w: Width, key: nat, prime: nat)
    ensures CalcIndex(w, key, 0, prime) == 0
  {
  }

  /**
   * For any mask no wider than the key type and `usize`, the wrap-around
   * and the cast do not matter: the index is the product's n low bits.
   */
  lemma CalcIndexLowBits(w: Width, key: nat, n: nat, prime: nat)
    requires n <= w.Bits() && n <= UsizeBits
    ensures CalcIndex(w, key, Pow2(n) - 1, prime) == (prime * key) % Pow2(n)
  {
    ModulusIsPow2(w);
    ProductIsNat(prime, key);
    var x: nat := prime * key;
    var hash := WrappingMul(w, prime, key);
    assert hash == x % Pow2(w.Bits());
    var cast := AsUsize(hash);
    assert cast == hash % Pow2(UsizeBits);
    BitAndLowMask(cast, n);
    LowBitsSurvive(x, n, w.Bits(), UsizeBits);
  }

  lemma ProductIsNat(a: nat, b: nat)
    ensures a * b >= 0
  {
  }

  /** Reducing modulo 2^k1 and then 2^k2 leaves the n low bits alone, for n <= k1, k2. */
  lemma LowBitsSurvive(x: nat, n: nat, k1: nat, k2: nat)
    requires n <= k1 && n <= k2
    ensures ((x % Pow2(k1)) % Pow2(k2)) % Pow2(n) == x % Pow2(n)
  {
    Pow2Split(n, k1);
    Pow2Split(n, k2);
    ModMod(x, Pow2(n), Pow2(k1 - n), Pow2(k1));
    ModMod(x % Pow2(k1), Pow2(n), Pow2(k2 - n), Pow2(k2));
  }
}
