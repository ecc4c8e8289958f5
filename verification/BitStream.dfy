/**
 The compressed data as a stream of bits, most significant bit of each byte
 first, followed by zero bits without end. Line numbers are those of
 DuetPkg/EfiLdr/TianoDecompress.c.
 */
module BitStream {
  import opened Words

  type bit = x: int | 0 <= x < 2

  /** Bit i of the stream. */
  function At(s: seq<bit>, i: nat): bit
  {
    if i < |s| then s[i] else 0
  }

  /** The number spelled by the n bits from position pos. */
  function Bits(s: seq<bit>, pos: nat, n: nat): (v: nat)
    ensures v < Pow2(n)
  {
    if n == 0 then 0 else 2 * Bits(s, pos, n - 1) + At(s, pos + n - 1)
  }

  /** The last bit of a number. */
  lemma LastBit(s: seq<bit>, pos: nat, i: nat)
    ensures Bits(s, pos, i + 1) % 2 == At(s, pos + i)
  {
  }

  /** Two streams that agree from a position on spell the same numbers there. */
  lemma {:induction false} BitsAgree(s: seq<bit>, p: nat, t: seq<bit>, q: nat, n: nat)
    requires forall i :: p <= i < p + n ==> At(s, i) == At(t, i - p + q)
    ensures Bits(s, p, n) == Bits(t, q, n)
  {
    if n > 0 {
      BitsAgree(s, p, t, q, n - 1);
      assert At(s, p + n - 1) == At(t, q + n - 1);
    }
  }

  lemma {:induction false} BitsSplit(s: seq<bit>, pos: nat, a: nat, b: nat)
    ensures Bits(s, pos, a + b) == Shl(Bits(s, pos, a), b) + Bits(s, pos + a, b)
  {
    if b > 0 { BitsSplit(s, pos, a, b - 1); }
  }

  /** The first a of a + b bits, and the last b. */
  lemma BitsParts(s: seq<bit>, pos: nat, a: nat, b: nat)
    ensures Shr(Bits(s, pos, a + b), b) == Bits(s, pos, a)
    ensures Low(Bits(s, pos, a + b), b) == Bits(s, pos + a, b)
  {
    BitsSplit(s, pos, a, b);
    ShlParts(Bits(s, pos, a), Bits(s, pos + a, b), b);
  }

  // ---- bytes and bits

  /** Byte k of the source, zero once the source is exhausted. */
  function ByteAt(src: seq<uint8>, k: nat): uint8
  {
    if k < |src| then src[k] else 0
  }

  function BitOfByte(b: uint8, i: nat): bit
    requires i < 8
  {
    Shr(b, 7 - i) % 2
  }

  function Unpack(src: seq<uint8>): seq<bit>
  {
    seq(8 * |src|, i requires 0 <= i < 8 * |src| => BitOfByte(src[i / 8], i % 8))
  }

  lemma UnpackAt(src: seq<uint8>, k: nat, i: nat)
    requires i < 8
    ensures At(Unpack(src), 8 * k + i) == BitOfByte(ByteAt(src, k), i)
  {
    assert (8 * k + i) / 8 == k && (8 * k + i) % 8 == i;
    ShrZero(7 - i);
  }

  /** The leading bits of a byte of the source. */
  lemma {:induction false} ByteHead(src: seq<uint8>, k: nat, r: nat)
    requires r <= 8
    ensures Bits(Unpack(src), 8 * k, r) == Shr(ByteAt(src, k), 8 - r)
  {
    var b := ByteAt(src, k);
    if r == 0 {
      Pow2Values();
      ShrSmall(b, 8);
    } else {
      ByteHead(src, k, r - 1);
      UnpackAt(src, k, r - 1);
      ShrStep(b, 8 - r);
    }
  }

  /** The trailing bits of a byte of the source. */
  lemma ByteTail(src: seq<uint8>, k: nat, r: nat)
    requires r <= 8
    ensures Bits(Unpack(src), 8 * k + (8 - r), r) == Low(ByteAt(src, k), r)
  {
    ByteHead(src, k, 8);
    BitsParts(Unpack(src), 8 * k, 8 - r, r);
  }

  // ---- the 32-bit window

  /** What the reader's 32-bit buffer holds once t bits were shifted in. */
  function Shifted(s: seq<bit>, t: nat): uint32
  {
    Pow2Values();
    Low(Bits(s, 0, t), 32)
  }

  lemma ShiftedNothing(s: seq<bit>)
    ensures Shifted(s, 0) == 0
  {
    LowSmall(0, 32);
  }

  lemma ShiftedIsWindow(s: seq<bit>, pos: nat)
    ensures Shifted(s, pos + 32) == Bits(s, pos, 32)
  {
    BitsParts(s, 0, pos, 32);
  }

  /** The first n bits of the window. */
  lemma WindowHead(s: seq<bit>, pos: nat, n: nat)
    requires n <= 32
    ensures Shr(Shifted(s, pos + 32), 32 - n) == Bits(s, pos, n)
  {
    ShiftedIsWindow(s, pos);
    BitsParts(s, pos, n, 32 - n);
  }

  /** Bit number i of the window. */
  lemma WindowBit(s: seq<bit>, pos: nat, i: nat)
    requires i < 32
    ensures Shr(Shifted(s, pos + 32), 31 - i) % 2 == At(s, pos + i)
  {
    hide Shr, Shifted;
    WindowHead(s, pos, i + 1);
  }

  /** The byte last fetched when the first 8k bits were fetched. */
  function Fetched(src: seq<uint8>, k: nat): uint8
  {
    if k == 0 then 0 else ByteAt(src, k - 1)
  }

  /**
   One refill step. The buffer holds Q above n vacated bits; the byte last
   fetched has c bits left, so its high part is stale: it is what Q ends with.
   ORing in the high part above the n vacated bits changes nothing there.
   */
  lemma RefillOr(Q: nat, w: nat, n: nat, e: nat, high: nat, y: nat)
    requires n <= w && high == Low(Q, e) && y < Pow2(n)
    ensures Or(Low(Shl(Q, n), w), Low(Shl(high, n) + y, w)) == Low(Shl(Q, n) + y, w)
  {
    hide Or, Shl, Low, Pow2;
    var m := w - n;
    LowOfShl(Q, 0, n, w);
    LowOfShl(Q, y, n, w);
    LowOfShl(high, y, n, w);
    OrStale(Q, m, e);
    OrShl(Low(Q, m), Low(high, m), y, n);
  }

  lemma OrStale(Q: nat, m: nat, e: nat)
    ensures Or(Low(Q, m), Low(Low(Q, e), m)) == Low(Q, m)
  {
    StaleBits(Q, m, e);
    OrAbsorb(Low(Q, m), if m < e then m else e);
  }

  lemma StaleBits(Q: nat, m: nat, e: nat)
    ensures Low(Low(Q, e), m) == Low(Low(Q, m), if m < e then m else e)
  {
    if m < e {
      LowLow(Q, m, e);
      LowLow(Q, m, m);
    } else {
      LowLow(Q, e, m);
      Pow2Mono(e, m);
      LowSmall(Low(Q, e), m);
    }
  }

  /** The byte x last fetched has c bits not used yet, the first u bits of the stream being used. */
  ghost predicate Pending(s: seq<bit>, x: nat, u: nat, c: nat)
  {
    c <= 8 && Shr(x, c) == Low(Bits(s, 0, u), 8 - c) && Low(x, c) == Bits(s, u, c)
  }

  /** Line 100: all c unused bits of the byte are wanted, and more. */
  lemma RefillAll(s: seq<bit>, x: nat, u: nat, n: nat, c: nat, w: nat, Q: nat, R: nat)
    requires Pending(s, x, u, c) && c <= n <= w
    requires Q == Bits(s, 0, u) && R == Bits(s, 0, u + c)
    ensures Or(Low(Shl(Q, n), w), Low(Shl(x, n - c), w)) == Low(Shl(R, n - c), w)
  {
    BitsSplit(s, 0, u, c);
    OrAll(Q, R, x, n, c, 8 - c, w);
  }

  lemma OrAll(Q: nat, R: nat, x: nat, n: nat, c: nat, e: nat, w: nat)
    requires c <= n <= w && Shr(x, c) == Low(Q, e) && R == Shl(Q, c) + Low(x, c)
    ensures Or(Low(Shl(Q, n), w), Low(Shl(x, n - c), w)) == Low(Shl(R, n - c), w)
  {
    hide Or, Shl, Low, Shr;
    HighLow(x, c);
    ShlSplit(x, Shr(x, c), Low(x, c), c, n);
    ShlSplit(R, Q, Low(x, c), c, n);
    RefillOr(Q, w, n, e, Shr(x, c), Shl(Low(x, c), n - c));
  }

  lemma ShlSplit(x: nat, high: nat, low: nat, c: nat, n: nat)
    requires c <= n && low < Pow2(c) && x == Shl(high, c) + low
    ensures Shl(x, n - c) == Shl(high, n) + Shl(low, n - c) && Shl(low, n - c) < Pow2(n)
  {
    ShlAdd(Shl(high, c), low, n - c);
    ShlShl(high, c, n - c);
    ShlBound(low, c, n - c);
  }

  /** Line 122: the n wanted bits are among the n + d unused ones. */
  lemma RefillLast(s: seq<bit>, x: nat, u: nat, n: nat, d: nat, w: nat, Q: nat, R: nat, y: nat)
    requires Pending(s, x, u, n + d) && n <= w && x < Pow2(w)
    requires Q == Bits(s, 0, u) && R == Bits(s, 0, u + n) && y == Shr(x, d)
    ensures Or(Low(Shl(Q, n), w), y) == Low(R, w)
  {
    PendingHead(s, x, u, n, d);
    OrLast(Q, R, y, x, n, d, 8 - (n + d), w);
  }

  lemma PendingHead(s: seq<bit>, x: nat, u: nat, n: nat, d: nat)
    requires Low(x, n + d) == Bits(s, u, n + d)
    ensures Bits(s, 0, u + n) == Shl(Bits(s, 0, u), n) + Low(Shr(x, d), n)
  {
    hide Shl, Low, Shr, Bits;
    LowOfShr(x, d, n);
    BitsParts(s, u, n, d);
    BitsSplit(s, 0, u, n);
  }

  lemma OrLast(Q: nat, R: nat, y: nat, x: nat, n: nat, d: nat, e: nat, w: nat)
    requires n <= w && y == Shr(x, d) && Shr(x, n + d) == Low(Q, e) && x < Pow2(w)
    requires R == Shl(Q, n) + Low(y, n)
    ensures Or(Low(Shl(Q, n), w), y) == Low(R, w)
  {
    hide Or, Shl, Low, Shr, Pow2;
    ShrShr(x, d, n);
    HighLow(y, n);
    ShrSmaller(x, d);
    LowSmall(y, w);
    RefillOr(Q, w, n, e, Shr(y, n), Low(y, n));
  }

  // ---- where the pending bits come from

  lemma FetchedByte(src: seq<uint8>, j: nat, e: nat, c: nat)
    requires e + c == 8
    ensures Shr(ByteAt(src, j), c) == Low(Bits(Unpack(src), 0, 8 * j + e), e)
    ensures Low(ByteAt(src, j), c) == Bits(Unpack(src), 8 * j + e, c)
  {
    hide Unpack, Shr, Low, Bits;
    BitsParts(Unpack(src), 0, 8 * j, e);
    ByteHead(src, j, e);
    ByteTail(src, j, c);
  }

  lemma FetchedPending(src: seq<uint8>, u: nat, c: nat, k: nat)
    requires 8 * k == u + c && c <= 8
    ensures Pending(Unpack(src), Fetched(src, k), u, c)
  {
    if k > 0 {
      FetchedByte(src, k - 1, 8 - c, c);
    } else {
      LowSmall(0, 8);
    }
  }

  // ---- the same steps on words

  /** The buffer with the first u bits of the stream shifted in, above n vacated bits. */
  function Vacated(s: seq<bit>, u: nat, n: nat): uint32
  {
    Shl32(Bits(s, 0, u), n)
  }

  lemma VacateWord(s: seq<bit>, u: nat, n: nat)
    requires n <= 32
    ensures Shl32(Shifted(s, u), n) == Vacated(s, u, n)
  {
    LowShlLow(Bits(s, 0, u), n, 32);
  }

  lemma RefillAllWord(src: seq<uint8>, u: nat, n: nat, c: nat, k: nat)
    requires 8 * k == u + c && c <= 8 && c <= n <= 32
    ensures OrWord(Vacated(Unpack(src), u, n), Shl32(Fetched(src, k), n - c)) == Vacated(Unpack(src), u + c, n - c)
  {
    var s := Unpack(src);
    FetchedPending(src, u, c, k);
    RefillAll(s, Fetched(src, k), u, n, c, 32, Bits(s, 0, u), Bits(s, 0, u + c));
  }

  lemma RefillLastWord(src: seq<uint8>, u: nat, n: nat, c: nat, k: nat)
    requires 8 * k == u + c && n <= c <= 8
    ensures Shr(Fetched(src, k), c - n) < 0x1_0000_0000
    ensures OrWord(Vacated(Unpack(src), u, n), Shr(Fetched(src, k), c - n)) == Shifted(Unpack(src), u + n)
  {
    FetchedPending(src, u, c, k);
    ShrSmaller(Fetched(src, k), c - n);
    LastWord(Unpack(src), Fetched(src, k), u, n, c - n, Shr(Fetched(src, k), c - n));
  }

  lemma LastWord(s: seq<bit>, x: uint8, u: nat, n: nat, d: nat, y: uint32)
    requires Pending(s, x, u, n + d) && y == Shr(x, d)
    ensures OrWord(Vacated(s, u, n), y) == Shifted(s, u + n)
  {
    assert x < Pow2(32) by { Pow2Values(); }
    RefillLast(s, x, u, n, d, 32, Bits(s, 0, u), Bits(s, 0, u + n), y);
  }
}
