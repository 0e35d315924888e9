/**
 * Key canonicalisation: every supported key type is turned into an unsigned
 * integer of a fixed width, and names the prime the index function
 * multiplies by. `usize` and `isize` are the 64-bit types of a 64-bit target.
 */
module IntKey {
  import opened Int

  /** The largest prime below 2^W, written as the type's MAX minus a gap. */
  const U8PrimeMax: nat := U8.Max() - 4
  const U16PrimeMax: nat := U16.Max() - 14
  const U32PrimeMax: nat := U32.Max() - 4
  const U64PrimeMax: nat := U64.Max() - 58
  const U128PrimeMax: nat := U128.Max() - 158

  /** `<uW as IntKey>::PRIME`. */
  function Prime(w: Width): (p: nat)
    ensures 0 < p < w.Modulus()
    ensures p % 2 == 1
  {
    match w
    case U8 => U8PrimeMax
    case U16 => U16PrimeMax
    case U32 => U32PrimeMax
    case U64 => U64PrimeMax
    case U128 => U128PrimeMax
  }

  lemma PrimeValues()
    ensures Prime(U8) == 251 && Prime(U16) == 65521 && Prime(U32) == 4294967291
    ensures Prime(U64) == 18446744073709551557
    ensures Prime(U128) == 340282366920938463463374607431768211297
  {
  }

  /** A value of one of the key types the map accepts. */
  datatype Key =
    | Unsigned(w: Width, n: nat)        // u8 .. u128, usize
    | Signed(sw: Width, i: int)         // i8 .. i128, isize
    | NonZero(inner: Key)               // NonZeroU8 .. NonZeroIsize around their integer
    | Wrapped(wrapped: Key)             // Wrapping<K>
    | Ipv4(octets4: seq<nat>)           // Ipv4Addr
    | Ipv6(octets16: seq<nat>)          // Ipv6Addr

  /** The Rust type a key value belongs to. */
  datatype KeyType =
    | UnsignedType(Width)
    | SignedType(Width)
    | NonZeroType(KeyType)
    | WrappingType(KeyType)
    | Ipv4Type
    | Ipv6Type

  function TypeOf(k: Key): KeyType {
    match k
    case Unsigned(w, _) => UnsignedType(w)
    case Signed(w, _) => SignedType(w)
    case NonZero(inner) => NonZeroType(TypeOf(inner))
    case Wrapped(inner) => WrappingType(TypeOf(inner))
    case Ipv4(_) => Ipv4Type
    case Ipv6(_) => Ipv6Type
  }

  predicate IsOctets(o: seq<nat>, len: nat) {
    |o| == len && forall j :: 0 <= j < |o| ==> o[j] < 0x100
  }

  /** The value lies in the range of its type; a NonZero wraps a nonzero integer of at most 64 bits. */
  predicate Valid(k: Key) {
    match k
    case Unsigned(w, n) => n < w.Modulus()
    case Signed(w, i) => -(w.Modulus() / 2) <= i < w.Modulus() / 2
    case NonZero(inner) =>
      && (inner.Unsigned? || inner.Signed?)
      && (if inner.Unsigned? then inner.w else inner.sw) != U128
      && Valid(inner)
      && (if inner.Unsigned? then inner.n != 0 else inner.i != 0)
    case Wrapped(inner) => Valid(inner)
    case Ipv4(o) => IsOctets(o, 4)
    case Ipv6(o) => IsOctets(o, 16)
  }

  /** `IntKey::Int`: the unsigned type a key type canonicalises to. */
  function IntType(t: KeyType): Width {
    match t
    case UnsignedType(w) => w
    case SignedType(w) => w
    case NonZeroType(inner) => IntType(inner)
    case WrappingType(inner) => IntType(inner)
    case Ipv4Type => U32
    case Ipv6Type => U128
  }

  /** `IntKey::PRIME`: every key type hashes with the prime of its integer type. */
  function KeyPrime(t: KeyType): nat {
    Prime(IntType(t))
  }

  /** `self as uW` for a signed value: two's-complement reinterpretation. */
  function SignedAsUnsigned(w: Width, i: int): (r: nat)
    requires -(w.Modulus() / 2) <= i < w.Modulus() / 2
    ensures r < w.Modulus()
    ensures r == i % w.Modulus()
    ensures 0 <= i ==> r == i
  {
    if i >= 0 then i else i + w.Modulus()
  }

  /** 256^n. */
  function BytePower(n: nat): (r: nat)
    ensures r >= 1
  {
    if n == 0 then 1 else 0x100 * BytePower(n - 1)
  }

  /** `uW::from_be_bytes`: the first octet is the most significant. */
  function FromBeBytes(o: seq<nat>): (r: nat)
    requires IsOctets(o, |o|)
    ensures r < BytePower(|o|)
  {
    if |o| == 0 then 0
    else
      var rest := o[..|o| - 1];
      assert IsOctets(rest, |rest|);
      var high := FromBeBytes(rest);
      assert high * 0x100 + o[|o| - 1] < (high + 1) * 0x100;
      MulMonotone(0x100, BytePower(|rest|), high + 1);
      high * 0x100 + o[|o| - 1]
  }

  lemma BytePowers()
    ensures BytePower(4) == U32.Modulus()
    ensures BytePower(16) == U128.Modulus()
  {
    assert BytePower(2) == 0x1_0000;
    assert BytePower(4) == 0x1_0000_0000;
    assert BytePower(8) == 0x1_0000_0000_0000_0000 by {
      assert BytePower(6) == 0x1_0000_0000_0000;
    }
    assert BytePower(12) == 0x1_0000_0000_0000_0000_0000_0000 by {
      assert BytePower(10) == 0x1_0000_0000_0000_0000_0000;
    }
    assert BytePower(14) == 0x1_0000_0000_0000_0000_0000_0000_0000;
  }

  /** `IntKey::into_int`. */
  function IntoInt(k: Key): (r: nat)
    requires Valid(k)
    ensures r < IntType(TypeOf(k)).Modulus()
  {
    match k
    case Unsigned(_, n) => n
    case Signed(w, i) => SignedAsUnsigned(w, i)
    case NonZero(inner) => IntoInt(inner)
    case Wrapped(inner) => IntoInt(inner)
    case Ipv4(o) => BytePowers(); FromBeBytes(o)
    case Ipv6(o) => BytePowers(); FromBeBytes(o)
  }

  /** Equal big-endian values of equally long octet strings mean equal octets. */
  lemma {:induction false} FromBeBytesInjective(a: seq<nat>, b: seq<nat>)
    requires IsOctets(a, |a|) && IsOctets(b, |a|)
    requires FromBeBytes(a) == FromBeBytes(b)
    ensures a == b
  {
    if |a| > 0 {
      var n := |a| - 1;
      assert IsOctets(a[..n], n) && IsOctets(b[..n], n);
      var x, y := FromBeBytes(a[..n]), FromBeBytes(b[..n]);
      assert FromBeBytes(a) == 0x100 * x + a[n];
      assert FromBeBytes(b) == 0x100 * y + b[n];
      DivModUnique(FromBeBytes(a), 0x100, x, a[n]);
      DivModUnique(FromBeBytes(b), 0x100, y, b[n]);
      FromBeBytesInjective(a[..n], b[..n]);
      assert a == a[..n] + [a[n]] && b == b[..n] + [b[n]];
    }
  }

  /**
   * Canonicalisation is injective within each key type: two different values
   * of one type never give the same integer.
   */
  lemma {:induction false} IntoIntInjective(a: Key, b: Key)
    requires Valid(a) && Valid(b) && TypeOf(a) == TypeOf(b)
    requires IntoInt(a) == IntoInt(b)
    ensures a == b
  {
    match a
    case Unsigned(_, _) =>
    case Signed(w, i) =>
      assert b.Signed?;
    case NonZero(inner) =>
      IntoIntInjective(inner, b.inner);
    case Wrapped(inner) =>
      IntoIntInjective(inner, b.wrapped);
    case Ipv4(o) =>
      FromBeBytesInjective(o, b.octets4);
    case Ipv6(o) =>
      FromBeBytesInjective(o, b.octets16);
  }

  /** A signed key and its unsigned counterpart share the index function's prime. */
  lemma SignedSharesPrime(w: Width)
    ensures KeyPrime(SignedType(w)) == KeyPrime(UnsignedType(w)) == Prime(w)
  {
  }

  /** `NonZero<T>` and `Wrapping<K>` hash exactly as the value they wrap. */
  lemma {:induction false} DelegatingKeys(k: Key)
    requires Valid(k) && (k.NonZero? || k.Wrapped?)
    ensures var inner := if k.NonZero? then k.inner else k.wrapped;
      && IntoInt(k) == IntoInt(inner)
      && KeyPrime(TypeOf(k)) == KeyPrime(TypeOf(inner))
  {
  }

  lemma Ipv4Example()
    ensures FromBeBytes([192, 168, 0, 1]) == 0xC0A8_0001
  {
    var o := [192, 168, 0, 1];
    assert o[..3][..2][..1][..0] == [];
    assert FromBeBytes(o[..3][..2][..1]) == 192;
    assert FromBeBytes(o[..3][..2]) == 0xC0A8;
    assert FromBeBytes(o[..3]) == 0xC0_A800;
  }
}
