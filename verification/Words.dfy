/**
 Machine words as bounded integers, powers of two, and the word operations of
 the firmware that are not plain arithmetic: shifts, a left shift that drops
 the bits leaving a 32-bit word, and bitwise OR and AND.
 */
module Words {

  type uint8 = x: int | 0 <= x < 0x100
  type uint16 = x: int | 0 <= x < 0x1_0000
  type uint32 = x: int | 0 <= x < 0x1_0000_0000
  type uint64 = x: int | 0 <= x < 0x1_0000_0000_0000_0000

  const TWO64: int := 0x1_0000_0000_0000_0000

  function Pow2(n: nat): (r: nat)
    ensures r >= 1
  {
    if n == 0 then 1 else 2 * Pow2(n - 1)
  }

  lemma Pow2Values()
    ensures Pow2(0) == 1 && Pow2(1) == 2 && Pow2(2) == 4 && Pow2(3) == 8
    ensures Pow2(4) == 16 && Pow2(5) == 32 && Pow2(7) == 128 && Pow2(8) == 256
    ensures Pow2(9) == 512 && Pow2(12) == 4096 && Pow2(16) == 0x1_0000
    ensures Pow2(32) == 0x1_0000_0000
  {
    assert Pow2(16) == 0x1_0000;
    assert Pow2(24) == 0x100_0000;
  }

  lemma {:induction false} Pow2Add(a: nat, b: nat)
    ensures Pow2(a + b) == Pow2(a) * Pow2(b)
  {
    if a > 0 {
      Pow2Add(a - 1, b);
      assert Pow2(a + b) == 2 * Pow2(a - 1 + b);
      assert 2 * (Pow2(a - 1) * Pow2(b)) == (2 * Pow2(a - 1)) * Pow2(b);
    }
  }

  lemma {:induction false} Pow2Mono(a: nat, b: nat)
    requires a <= b
    ensures Pow2(a) <= Pow2(b)
    decreases b
  {
    if a < b { Pow2Mono(a, b - 1); }
  }

  lemma Distribute(a: int, b: int, c: int)
    ensures (a + b) * c == a * c + b * c
  {
  }

  lemma Associate(a: int, b: int, c: int)
    ensures (a * b) * c == a * (b * c)
  {
  }

  lemma MulMono(a: int, b: int, d: int)
    requires a <= b && d >= 0
    ensures a * d <= b * d
  {
    Distribute(a, b - a, d);
    assert (b - a) * d >= 0;
  }

  /** The quotient and the remainder are the only ones. */
  lemma DivModUnique(x: int, d: int, q: int, r: int)
    requires 0 < d && x == q * d + r && 0 <= r < d
    ensures x / d == q && x % d == r
  {
    var q', r' := x / d, x % d;
    Quotients(q, r, q', r', d);
  }

  lemma Quotients(q: int, r: int, q': int, r': int, d: int)
    requires 0 <= r < d && 0 <= r' < d && q * d + r == q' * d + r'
    ensures q == q' && r == r'
  {
    if q != q' {
      var lo, hi := if q < q' then q else q', if q < q' then q' else q;
      MulMono(lo + 1, hi, d);
      Distribute(lo, 1, d);
      assert false;
    }
  }

  lemma ModSmall(x: int, d: int)
    requires 0 <= x < d
    ensures x % d == x
  {
    DivModUnique(x, d, 0, x);
  }

  /** A remainder may be taken before adding. */
  lemma ModRight(a: nat, b: nat, t: nat)
    requires t > 0
    ensures (a + b % t) % t == (a + b) % t
  {
    var q, r := b / t, b % t;
    var q', r' := (a + r) / t, (a + r) % t;
    Distribute(q', q, t);
    DivModUnique(a + b, t, q' + q, r');
  }

  // ---- shifts, bit by bit

  /** x shifted left by n bits, none of which is lost. */
  function Shl(x: nat, n: nat): nat
  {
    if n == 0 then x else 2 * Shl(x, n - 1)
  }

  /** x shifted right by n bits. */
  function Shr(x: nat, n: nat): nat
  {
    if n == 0 then x else Shr(x / 2, n - 1)
  }

  /** The low n bits of x. */
  function Low(x: nat, n: nat): (r: nat)
    ensures r < Pow2(n)
  {
    if n == 0 then 0 else 2 * Low(x / 2, n - 1) + x % 2
  }

  /** Left shift in a 32-bit word: the bits that leave the word are lost. */
  function Shl32(x: nat, n: nat): uint32
  {
    Pow2Values();
    Low(Shl(x, n), 32)
  }

  lemma {:induction false} ShrShr(x: nat, a: nat, b: nat)
    ensures Shr(Shr(x, a), b) == Shr(x, a + b)
    decreases a
  {
    if a > 0 { ShrShr(x / 2, a - 1, b); }
  }

  /** The last step of a right shift, peeled off at the other end. */
  lemma ShrStep(x: nat, n: nat)
    ensures Shr(x, n + 1) == Shr(x, n) / 2
  {
    ShrShr(x, n, 1);
  }

  lemma {:induction false} ShrZero(n: nat)
    ensures Shr(0, n) == 0
  {
    if n > 0 { ShrZero(n - 1); }
  }

  lemma {:induction false} ShrSmall(x: nat, n: nat)
    requires x < Pow2(n)
    ensures Shr(x, n) == 0
    decreases n
  {
    if n > 0 { ShrSmall(x / 2, n - 1); }
  }

  lemma {:induction false} ShrSmaller(x: nat, n: nat)
    ensures Shr(x, n) <= x
  {
    if n > 0 { ShrSmaller(x / 2, n - 1); }
  }

  lemma {:induction false} LowLow(x: nat, a: nat, b: nat)
    requires a <= b
    ensures Low(Low(x, b), a) == Low(x, a)
    decreases a
  {
    if a > 0 { LowLow(x / 2, a - 1, b - 1); }
  }

  lemma {:induction false} LowOfShr(x: nat, a: nat, b: nat)
    ensures Low(Shr(x, a), b) == Shr(Low(x, a + b), a)
    decreases a
  {
    if a > 0 { LowOfShr(x / 2, a - 1, b); }
  }

  lemma {:induction false} LowSmall(x: nat, n: nat)
    requires x < Pow2(n)
    ensures Low(x, n) == x
    decreases n
  {
    if n > 0 { LowSmall(x / 2, n - 1); }
  }

  /** A number is its high part shifted back plus its low part. */
  lemma {:induction false} HighLow(x: nat, n: nat)
    ensures x == Shl(Shr(x, n), n) + Low(x, n)
    decreases n
  {
    if n > 0 { HighLow(x / 2, n - 1); }
  }

  /** Truncating a shifted number with r in the vacated bits. */
  lemma {:induction false} LowOfShl(q: nat, r: nat, n: nat, w: nat)
    requires r < Pow2(n) && n <= w
    ensures Low(Shl(q, n) + r, w) == Shl(Low(q, w - n), n) + r
    decreases n
  {
    if n > 0 {
      LowOfShl(q, r / 2, n - 1, w - 1);
      assert (Shl(q, n) + r) / 2 == Shl(q, n - 1) + r / 2;
    }
  }

  /** A shifted number with r in the vacated bits is taken apart again. */
  lemma {:induction false} ShlParts(q: nat, r: nat, n: nat)
    requires r < Pow2(n)
    ensures Shr(Shl(q, n) + r, n) == q && Low(Shl(q, n) + r, n) == r
    decreases n
  {
    if n > 0 {
      ShlParts(q, r / 2, n - 1);
      assert (Shl(q, n) + r) / 2 == Shl(q, n - 1) + r / 2;
    }
  }

  lemma {:induction false} ShlAdd(q: nat, r: nat, n: nat)
    ensures Shl(q + r, n) == Shl(q, n) + Shl(r, n)
  {
    if n > 0 { ShlAdd(q, r, n - 1); }
  }

  lemma {:induction false} ShlShl(q: nat, a: nat, b: nat)
    ensures Shl(Shl(q, a), b) == Shl(q, a + b)
    decreases b
  {
    if b > 0 { ShlShl(q, a, b - 1); }
  }

  lemma {:induction false} ShlBound(r: nat, a: nat, b: nat)
    requires r < Pow2(a)
    ensures Shl(r, b) + Pow2(b) <= Pow2(a + b)
    decreases b
  {
    if b > 0 { ShlBound(r, a, b - 1); }
  }

  lemma {:induction false} ShlIsMul(x: nat, n: nat)
    ensures Shl(x, n) == x * Pow2(n)
  {
    if n > 0 {
      ShlIsMul(x, n - 1);
      Twice(x, Pow2(n - 1));
    }
  }

  lemma ShrIsDiv(x: nat, n: nat)
    ensures Shr(x, n) == x / Pow2(n) && Low(x, n) == x % Pow2(n)
  {
    HighLow(x, n);
    ShlIsMul(Shr(x, n), n);
    DivModUnique(x, Pow2(n), Shr(x, n), Low(x, n));
  }

  lemma Twice(a: int, k: int)
    ensures a * (2 * k) == 2 * (a * k)
  {
  }

  // ---- bitwise OR

  function Or(a: nat, b: nat): nat
    decreases a + b
  {
    if a == 0 && b == 0 then 0
    else 2 * Or(a / 2, b / 2) + (if a % 2 == 1 || b % 2 == 1 then 1 else 0)
  }

  lemma {:induction false} OrZero(q: nat)
    ensures Or(q, 0) == q
    decreases q
  {
    if q != 0 { OrZero(q / 2); }
  }

  /** ORing in bits that are already there changes nothing. */
  lemma {:induction false} OrAbsorb(q: nat, k: nat)
    ensures Or(q, Low(q, k)) == q
    decreases k
  {
    if k == 0 {
      OrZero(q);
    } else {
      OrAbsorb(q / 2, k - 1);
      OrHalves(q, Low(q, k), q / 2, Low(q / 2, k - 1), q % 2, q % 2);
    }
  }

  lemma OrHalves(a: nat, b: nat, a': nat, b': nat, s: nat, t: nat)
    requires s < 2 && t < 2 && a == 2 * a' + s && b == 2 * b' + t
    ensures Or(a, b) == 2 * Or(a', b') + (if s == 1 || t == 1 then 1 else 0)
  {
  }

  /** A number with n vacated bits, ORed with another: the vacated bits are filled. */
  lemma {:induction false} OrShl(q: nat, h: nat, x: nat, n: nat)
    requires x < Pow2(n)
    ensures Or(Shl(q, n), Shl(h, n) + x) == Shl(Or(q, h), n) + x
    decreases n
  {
    if n > 0 {
      OrShl(q, h, x / 2, n - 1);
      OrHalves(Shl(q, n), Shl(h, n) + x, Shl(q, n - 1), Shl(h, n - 1) + x / 2, 0, x % 2);
    }
  }

  lemma {:induction false} OrBound(a: nat, b: nat, n: nat)
    requires a < Pow2(n) && b < Pow2(n)
    ensures Or(a, b) < Pow2(n)
    decreases n
  {
    if n == 0 || (a == 0 && b == 0) {
    } else {
      OrBound(a / 2, b / 2, n - 1);
    }
  }

  /** Bitwise OR of two 32-bit words. */
  function OrWord(a: uint32, b: uint32): uint32
  {
    Pow2Values();
    OrBound(a, b, 32);
    Or(a, b)
  }

  /** Truncating before a shift does not matter if one truncates after it. */
  lemma LowShlLow(x: nat, n: nat, w: nat)
    requires n <= w
    ensures Low(Shl(Low(x, w), n), w) == Low(Shl(x, n), w)
  {
    LowOfShl(Low(x, w), 0, n, w);
    LowOfShl(x, 0, n, w);
    LowLow(x, w - n, w);
  }

  // ---- bitwise AND

  function And(a: nat, b: nat): (r: nat)
    ensures r <= a
  {
    if a == 0 || b == 0 then 0
    else 2 * And(a / 2, b / 2) + (if a % 2 == 1 && b % 2 == 1 then 1 else 0)
  }

  lemma {:induction false} AndOnes(a: nat, n: nat)
    requires a < Pow2(n)
    ensures And(a, Pow2(n) - 1) == a
    decreases n
  {
    if a > 0 {
      AndOnes(a / 2, n - 1);
      assert (Pow2(n) - 1) / 2 == Pow2(n - 1) - 1;
    }
  }

  lemma AndHalves(a: nat, b: nat, a': nat, b': nat, s: nat, t: nat)
    requires s < 2 && t < 2 && a == 2 * a' + s && b == 2 * b' + t
    ensures And(a, b) == 2 * And(a', b') + (if s == 1 && t == 1 then 1 else 0)
  {
  }

  /** A byte with its lowest bit cleared, and with the next one cleared. */
  lemma ClearLowBits(x: uint8)
    ensures And(x, 0xfe) == x - x % 2
    ensures And(x, 0xfd) == 4 * (x / 4) + x % 2
  {
    hide And;
    var h, q := x / 2, x / 4;
    Pow2Values();
    assert Pow2(6) == 64;
    AndOnes(h, 7);
    AndHalves(x, 0xfe, h, 0x7f, x % 2, 0);
    AndOnes(q, 6);
    AndHalves(h, 0x7e, q, 0x3f, h % 2, 0);
    AndHalves(x, 0xfd, h, 0x7e, x % 2, 1);
  }

  // ---- little-endian words

  function Word32(b: seq<uint8>): uint32
    requires |b| == 4
  {
    b[0] as int + 0x100 * b[1] as int + 0x1_0000 * b[2] as int + 0x100_0000 * b[3] as int
  }

  /** The word at an offset. */
  function WordAt(m: seq<uint8>, off: nat): uint32
    requires off + 4 <= |m|
  {
    Word32(m[off..off + 4])
  }

  function Word32Bytes(v: uint32): (b: seq<uint8>)
    ensures |b| == 4 && Word32(b) == v
  {
    var v1 := v / 0x100;
    var v2 := v1 / 0x100;
    [v % 0x100, v1 % 0x100, v2 % 0x100, v2 / 0x100]
  }
}
