/**
 * The three overloads of the cuckoo table's hash functor: one
 * MurmurHash3-style mixing round (64-bit keys) or two (32- and 16-bit keys)
 * of xor with a seed, multiply, xor-shift, multiply, xor-shift, in unsigned
 * arithmetic of the key's width.
 *
 * Values are natural numbers below 2^w. Unsigned multiplication is the
 * product modulo 2^w, `>> s` is s halvings, and `^` is Xor below.
 */
module CustomHash {

  const Two16: nat := 0x1_0000
  const Two32: nat := 0x1_0000_0000
  const Two64: nat := 0x1_0000_0000_0000_0000

  const RoundShift64: nat := 47
  const FirstRoundShift32: nat := 15
  const SecondRoundShift32: nat := 13
  const FirstRoundShift16: nat := 5
  /** Declared by the source but used by no overload. */
  const SecondRoundShift16: nat := 3

  const Multiplier64: nat := 0xc6a4a7935bd1e995
  const Multiplier32: nat := 0xcc9e2d51
  const Multiplier16: nat := 0xc1ae

  const Seed64: nat := 0x9e3779b97f4a7c15
  const Seed32: nat := 0x9e3779b1
  const Seed16: nat := 0x1f49

  /** The multiplicative inverses of the two odd multipliers, modulo 2^64 and 2^32. */
  const Inverse64: nat := 0x5f7a0ea7e59b19bd
  const Inverse32: nat := 0xdee13bb1

  function Pow2(n: nat): (r: nat)
    ensures r >= 1
  {
    if n == 0 then 1 else 2 * Pow2(n - 1)
  }

  /** Bitwise exclusive or of two natural numbers. */
  function Xor(a: nat, b: nat): nat
    decreases a + b
  {
    if a == 0 && b == 0 then 0
    else 2 * Xor(a / 2, b / 2) + (a % 2 + b % 2) % 2
  }

  /** `x >> s`: s halvings. */
  function Shr(x: nat, s: nat): (r: nat)
    ensures r <= x
  {
    if s == 0 then x else Shr(x / 2, s - 1)
  }

  /** Unsigned multiplication in a width whose modulus is `modulus`. */
  function MulMod(x: nat, m: nat, modulus: nat): (r: nat)
    requires modulus > 0
    ensures r < modulus
  {
    (x * m) % modulus
  }

  /** `hash ^= hash >> s`. */
  function XorShift(h: nat, s: nat): nat
  {
    Xor(h, Shr(h, s))
  }

  /** The 64-bit overload. */
  function Hash64(key: nat): (r: nat)
    requires key < Two64
    ensures r < Two64
  {
    Widths();
    var h0 := Xor(Seed64, MulMod(key, Multiplier64, Two64));
    XorBelow(Seed64, MulMod(key, Multiplier64, Two64), 64);
    var h1 := XorShiftIn(h0, RoundShift64, 64);
    var h2 := MulMod(h1, Multiplier64, Two64);
    XorShiftIn(h2, RoundShift64, 64)
  }

  /** The 32-bit overload. */
  function Hash32(key: nat): (r: nat)
    requires key < Two32
    ensures r < Two32
  {
    Widths();
    var h0 := Xor(Seed32, MulMod(key, Multiplier32, Two32));
    var h1 := XorShift(h0, FirstRoundShift32);
    var h2 := MulMod(h1, Multiplier32, Two32);
    XorShiftIn(h2, SecondRoundShift32, 32)
  }

  /**
   * The 16-bit overload. Both rounds shift by 5. The products `key * mult`
   * and `hash * mult` are formed in 32-bit `int` in the source and can pass
   * INT_MAX (0xFFFF * 0xC1AE = 0xC1AD3E52), which is undefined behaviour
   * there. The model takes the wrapped product's low 16 bits, which the
   * assignment to the 16-bit variable keeps on a two's-complement target.
   */
  function Hash16(key: nat): (r: nat)
    requires key < Two16
    ensures r < Two16
  {
    Widths();
    var h0 := Xor(Seed16, MulMod(key, Multiplier16, Two16));
    XorBelow(Seed16, MulMod(key, Multiplier16, Two16), 16);
    var h1 := XorShiftIn(h0, FirstRoundShift16, 16);
    var h2 := MulMod(h1, Multiplier16, Two16);
    XorShiftIn(h2, FirstRoundShift16, 16)
  }

  // Algebra of Xor and Shr.

  lemma {:induction false} XorBelow(a: nat, b: nat, n: nat)
    requires a < Pow2(n) && b < Pow2(n)
    ensures Xor(a, b) < Pow2(n)
    decreases n
  {
    if n > 0 && !(a == 0 && b == 0) {
      XorBelow(a / 2, b / 2, n - 1);
    }
  }

  lemma {:induction false} XorZero(a: nat)
    ensures Xor(a, 0) == a
    decreases a
  {
    if a != 0 {
      XorZero(a / 2);
    }
  }

  lemma {:induction false} XorSelf(a: nat)
    ensures Xor(a, a) == 0
    decreases a
  {
    if a != 0 {
      XorSelf(a / 2);
    }
  }

  lemma {:induction false} XorComm(a: nat, b: nat)
    ensures Xor(a, b) == Xor(b, a)
    decreases a + b
  {
    if !(a == 0 && b == 0) {
      XorComm(a / 2, b / 2);
    }
  }

  lemma XorHalf(a: nat, b: nat)
    ensures Xor(a, b) / 2 == Xor(a / 2, b / 2)
    ensures Xor(a, b) % 2 == (a % 2 + b % 2) % 2
  {
  }

  lemma {:induction false} XorAssoc(a: nat, b: nat, c: nat)
    ensures Xor(Xor(a, b), c) == Xor(a, Xor(b, c))
    decreases a + b + c
  {
    if a + b + c != 0 {
      XorAssoc(a / 2, b / 2, c / 2);
      XorHalves(a, b, c);
      XorParities(a, b, c);
      HalfAndParity(Xor(Xor(a, b), c), Xor(a, Xor(b, c)));
    }
  }

  /** Both groupings halve to the groupings of the halves. */
  lemma XorHalves(a: nat, b: nat, c: nat)
    ensures Xor(Xor(a, b), c) / 2 == Xor(Xor(a / 2, b / 2), c / 2)
    ensures Xor(a, Xor(b, c)) / 2 == Xor(a / 2, Xor(b / 2, c / 2))
  {
    XorHalf(Xor(a, b), c);
    XorHalf(a, b);
    XorHalf(a, Xor(b, c));
    XorHalf(b, c);
  }

  /** Both groupings have the same parity. */
  lemma XorParities(a: nat, b: nat, c: nat)
    ensures Xor(Xor(a, b), c) % 2 == Xor(a, Xor(b, c)) % 2
  {
    var ab, bc := Xor(a, b), Xor(b, c);
    XorParity(ab, c);
    XorParity(a, b);
    XorParity(a, bc);
    XorParity(b, c);
    ParityChain(Xor(ab, c), Xor(a, bc), ab, bc, a, b, c);
  }

  lemma XorParity(a: nat, b: nat)
    ensures Xor(a, b) % 2 == (a % 2 + b % 2) % 2
  {
    XorHalf(a, b);
  }

  lemma ParityChain(l: nat, r: nat, ab: nat, bc: nat, a: nat, b: nat, c: nat)
    requires ab % 2 == (a % 2 + b % 2) % 2 && bc % 2 == (b % 2 + c % 2) % 2
    requires l % 2 == (ab % 2 + c % 2) % 2 && r % 2 == (a % 2 + bc % 2) % 2
    ensures l % 2 == r % 2
  {
  }

  /** A number is determined by its half and its parity. */
  lemma HalfAndParity(l: nat, r: nat)
    requires l / 2 == r / 2 && l % 2 == r % 2
    ensures l == r
  {
  }

  /** Xoring twice with the same value undoes the first. */
  lemma XorCancel(a: nat, b: nat)
    ensures Xor(Xor(a, b), b) == a
    ensures Xor(b, Xor(b, a)) == a
  {
    XorAssoc(a, b, b);
    XorSelf(b);
    XorZero(a);
    XorAssoc(b, b, a);
    XorComm(0, a);
  }

  lemma {:induction false} ShrXor(a: nat, b: nat, s: nat)
    ensures Shr(Xor(a, b), s) == Xor(Shr(a, s), Shr(b, s))
    decreases s
  {
    if s > 0 {
      XorHalf(a, b);
      ShrXor(a / 2, b / 2, s - 1);
    }
  }

  lemma {:induction false} ShrShr(x: nat, s: nat, t: nat)
    ensures Shr(Shr(x, s), t) == Shr(x, s + t)
    decreases s
  {
    if s > 0 {
      ShrShr(x / 2, s - 1, t);
    }
  }

  lemma {:induction false} ShrBelow(x: nat, s: nat)
    requires x < Pow2(s)
    ensures Shr(x, s) == 0
    decreases s
  {
    if s > 0 {
      ShrBelow(x / 2, s - 1);
    }
  }

  lemma {:induction false} Pow2Monotone(m: nat, n: nat)
    requires m <= n
    ensures Pow2(m) <= Pow2(n)
    decreases n
  {
    if m < n {
      Pow2Monotone(m, n - 1);
    }
  }

  lemma {:induction false} Pow2Add(m: nat, n: nat)
    ensures Pow2(m + n) == Pow2(m) * Pow2(n)
    decreases m
  {
    if m > 0 {
      Pow2Add(m - 1, n);
    }
  }

  lemma Widths()
    ensures Pow2(16) == Two16 && Pow2(32) == Two32 && Pow2(64) == Two64
  {
    assert Pow2(4) == 16 by {
      assert Pow2(1) == 2;
      assert Pow2(2) == 4;
      assert Pow2(3) == 8;
    }
    Pow2Add(4, 4);
    Pow2Add(8, 8);
    Pow2Add(16, 16);
    Pow2Add(32, 32);
  }

  /** `hash ^= hash >> s` on a value of width n stays within the width. */
  function XorShiftIn(h: nat, s: nat, n: nat): (r: nat)
    requires h < Pow2(n)
    ensures r < Pow2(n)
  {
    XorBelow(h, Shr(h, s), n);
    XorShift(h, s)
  }

  /**
   * Undoing `h ^= h >> s` for a value below 2^(3s): xoring in the shifts by
   * s and by 2s recovers h.
   */
  function UnXorShift(y: nat, s: nat): nat
  {
    Xor(Xor(y, Shr(y, s)), Shr(y, 2 * s))
  }

  lemma XorShiftInverse(h: nat, s: nat)
    requires h < Pow2(3 * s)
    ensures UnXorShift(XorShift(h, s), s) == h
  {
    var a := Shr(h, s);
    var b := Shr(h, 2 * s);
    var y := XorShift(h, s);
    ShrXor(h, a, s);
    ShrShr(h, s, s);
    assert Shr(y, s) == Xor(a, b);
    ShrXor(h, a, 2 * s);
    ShrShr(h, s, 2 * s);
    ShrBelow(h, 3 * s);
    XorZero(b);
    assert Shr(y, 2 * s) == b;
    // (h ^ a) ^ (a ^ b) == h ^ b, then (h ^ b) ^ b == h
    XorAssoc(Xor(h, a), a, b);
    XorCancel(h, a);
    XorCancel(h, b);
  }

  lemma XorShiftBelow(h: nat, s: nat, n: nat)
    requires h < Pow2(n)
    ensures XorShift(h, s) < Pow2(n) && UnXorShift(h, s) < Pow2(n)
  {
    XorBelow(h, Shr(h, s), n);
    XorBelow(Xor(h, Shr(h, s)), Shr(h, 2 * s), n);
  }

  /** Multiplying by an odd multiplier and then by its inverse, modulo 2^64, gives the value back. */
  lemma MulCancel64(x: nat)
    requires x < Two64
    ensures MulMod(MulMod(x, Multiplier64, Two64), Inverse64, Two64) == x
  {
    var y := (x * Multiplier64) % Two64;
    var q := (x * Multiplier64) / Two64;
    assert x * Multiplier64 == q * Two64 + y;
    var z := (y * Inverse64) % Two64;
    var q2 := (y * Inverse64) / Two64;
    assert y * Inverse64 == q2 * Two64 + z;
    assert Multiplier64 * Inverse64 == 0x4a15d006d409ab6f * Two64 + 1;
    assert y * Inverse64 == x * Multiplier64 * Inverse64 - q * Two64 * Inverse64;
    assert x * Multiplier64 * Inverse64 == x * 0x4a15d006d409ab6f * Two64 + x;
    var d := x * 0x4a15d006d409ab6f - q * Inverse64 - q2;
    assert z == x + Two64 * d;
    assert d == 0;
  }

  /** The same modulo 2^32. */
  lemma MulCancel32(x: nat)
    requires x < Two32
    ensures MulMod(MulMod(x, Multiplier32, Two32), Inverse32, Two32) == x
  {
    var y := (x * Multiplier32) % Two32;
    var q := (x * Multiplier32) / Two32;
    assert x * Multiplier32 == q * Two32 + y;
    var z := (y * Inverse32) % Two32;
    var q2 := (y * Inverse32) / Two32;
    assert y * Inverse32 == q2 * Two32 + z;
    assert Multiplier32 * Inverse32 == 0xb2253208 * Two32 + 1;
    assert y * Inverse32 == x * Multiplier32 * Inverse32 - q * Two32 * Inverse32;
    assert x * Multiplier32 * Inverse32 == x * 0xb2253208 * Two32 + x;
    var d := x * 0xb2253208 - q * Inverse32 - q2;
    assert z == x + Two32 * d;
    assert d == 0;
  }

  /** A left inverse of Hash64: each step of the hash undone in reverse order. */
  function Unhash64(r: nat): nat
  {
    var h1 := MulMod(UnXorShift(r, RoundShift64), Inverse64, Two64);
    MulMod(Xor(Seed64, UnXorShift(h1, RoundShift64)), Inverse64, Two64)
  }

  lemma Unhash64Hash64(key: nat)
    requires key < Two64
    ensures Unhash64(Hash64(key)) == key
  {
    Widths();
    Pow2Monotone(64, 3 * RoundShift64);
    var m := MulMod(key, Multiplier64, Two64);
    var h0 := Xor(Seed64, m);
    XorBelow(Seed64, m, 64);
    var h1 := XorShift(h0, RoundShift64);
    XorShiftBelow(h0, RoundShift64, 64);
    var h2 := MulMod(h1, Multiplier64, Two64);
    XorShiftInverse(h2, RoundShift64);
    MulCancel64(h1);
    XorShiftInverse(h0, RoundShift64);
    XorCancel(m, Seed64);
    MulCancel64(key);
  }

  /** Two distinct 64-bit keys never share a hash. */
  lemma Hash64Injective(a: nat, b: nat)
    requires a < Two64 && b < Two64
    ensures Hash64(a) == Hash64(b) <==> a == b
  {
    Unhash64Hash64(a);
    Unhash64Hash64(b);
  }

  /** A left inverse of Hash32. */
  function Unhash32(r: nat): nat
  {
    var h1 := MulMod(UnXorShift(r, SecondRoundShift32), Inverse32, Two32);
    MulMod(Xor(Seed32, UnXorShift(h1, FirstRoundShift32)), Inverse32, Two32)
  }

  lemma Unhash32Hash32(key: nat)
    requires key < Two32
    ensures Unhash32(Hash32(key)) == key
  {
    Widths();
    Pow2Monotone(32, 3 * FirstRoundShift32);
    Pow2Monotone(32, 3 * SecondRoundShift32);
    var m := MulMod(key, Multiplier32, Two32);
    var h0 := Xor(Seed32, m);
    XorBelow(Seed32, m, 32);
    var h1 := XorShift(h0, FirstRoundShift32);
    XorShiftBelow(h0, FirstRoundShift32, 32);
    var h2 := MulMod(h1, Multiplier32, Two32);
    XorShiftInverse(h2, SecondRoundShift32);
    MulCancel32(h1);
    XorShiftInverse(h0, FirstRoundShift32);
    XorCancel(m, Seed32);
    MulCancel32(key);
  }

  /** Two distinct 32-bit keys never share a hash. */
  lemma Hash32Injective(a: nat, b: nat)
    requires a < Two32 && b < Two32
    ensures Hash32(a) == Hash32(b) <==> a == b
  {
    Unhash32Hash32(a);
    Unhash32Hash32(b);
  }

  /**
   * The 16-bit multiplier is even, so the first multiplication already
   * loses the key's top bit: keys 0 and 0x8000 collide.
   */
  lemma Hash16Collision()
    ensures Hash16(0) == Hash16(0x8000)
  {
    assert 0x8000 * Multiplier16 == 0x60d7 * Two16;
    assert MulMod(0x8000, Multiplier16, Two16) == 0 == MulMod(0, Multiplier16, Two16);
  }
}
