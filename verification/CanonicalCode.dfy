/**
 Canonical prefix codes. Symbols are numbered 0, 1, ...; a symbol of length 0
 has no code. Codes are assigned in order of length, then of symbol number.
 */
module CanonicalCode {
  import opened Words

  /** How many of the first c symbols have length len. */
  function Rank(lens: seq<uint8>, len: nat, c: nat): nat
    requires c <= |lens|
  {
    if c == 0 then 0 else Rank(lens, len, c - 1) + (if lens[c - 1] == len then 1 else 0)
  }

  function Count(lens: seq<uint8>, len: nat): nat
  {
    Rank(lens, len, |lens|)
  }

  /** The smallest code of a length: one more than the largest shorter one, extended by zeros. */
  function FirstCode(lens: seq<uint8>, len: nat): nat
  {
    if len <= 1 then 0 else 2 * (FirstCode(lens, len - 1) + Count(lens, len - 1))
  }

  /** The canonical code of symbol c, a number of lens[c] bits. */
  function Code(lens: seq<uint8>, c: nat): nat
    requires c < |lens|
  {
    FirstCode(lens, lens[c]) + Rank(lens, lens[c], c)
  }

  predicate HasCode(lens: seq<uint8>, c: nat)
  {
    c < |lens| && 0 < lens[c] <= 16
  }

  /** The number of 16-bit windows that start with a given code of length len. */
  function Span(len: nat): nat
  {
    if len <= 16 then Pow2(16 - len) else 0
  }

  /** The code of c is a prefix of the 16-bit window w. */
  predicate Prefixes(lens: seq<uint8>, c: nat, w: nat)
  {
    HasCode(lens, c) && w / Span(lens[c]) == Code(lens, c)
  }

  /** Code space taken by the codes shorter than len, in 16-bit windows. */
  function Area(lens: seq<uint8>, len: nat): nat
  {
    if len <= 1 then 0 else Area(lens, len - 1) + Count(lens, len - 1) * Span(len - 1)
  }

  /** The Kraft sum in units of 2^-16. */
  function Kraft(lens: seq<uint8>): nat
  {
    Area(lens, 17)
  }

  predicate Bounded(lens: seq<uint8>)
  {
    forall i :: 0 <= i < |lens| ==> lens[i] <= 16
  }

  /** No code space is unused and none is used twice. */
  predicate Complete(lens: seq<uint8>)
  {
    Bounded(lens) && Kraft(lens) == 0x1_0000
  }

  /** The first window that starts with the code of c. */
  function Base(lens: seq<uint8>, c: nat): nat
    requires c < |lens|
  {
    Area(lens, lens[c]) + Rank(lens, lens[c], c) * Span(lens[c])
  }

  predicate InSpan(lens: seq<uint8>, c: nat, w: nat)
    requires c < |lens|
  {
    Base(lens, c) <= w < Base(lens, c) + Span(lens[c])
  }

  // ---- codes as intervals of windows

  lemma SpanHalves(len: nat)
    requires len < 16
    ensures Span(len) == 2 * Span(len + 1) && Span(len + 1) >= 1
  {
  }

  lemma {:induction false} AreaIsFirstCode(lens: seq<uint8>, len: nat)
    requires 1 <= len <= 16
    ensures Area(lens, len) == FirstCode(lens, len) * Span(len)
  {
    if len > 1 {
      AreaIsFirstCode(lens, len - 1);
      SpanHalves(len - 1);
      var f, n := FirstCode(lens, len - 1), Count(lens, len - 1);
      Distribute(f, n, Span(len - 1));
      DoubleLeft(f + n, Span(len));
    }
  }

  lemma DoubleLeft(a: int, k: int)
    ensures (2 * a) * k == a * (2 * k)
  {
  }

  lemma BaseIsCode(lens: seq<uint8>, c: nat)
    requires HasCode(lens, c)
    ensures Base(lens, c) == Code(lens, c) * Span(lens[c])
    ensures Base(lens, c) % Span(lens[c]) == 0
  {
    AreaIsFirstCode(lens, lens[c]);
    Distribute(FirstCode(lens, lens[c]), Rank(lens, lens[c], c), Span(lens[c]));
    DivModUnique(Base(lens, c), Span(lens[c]), Code(lens, c), 0);
  }

  /** A code prefixes exactly the windows of its interval. */
  lemma PrefixesIsInterval(lens: seq<uint8>, c: nat, w: nat)
    requires HasCode(lens, c)
    ensures Prefixes(lens, c, w) <==> InSpan(lens, c, w)
  {
    BaseIsCode(lens, c);
    QuotientIs(w, Span(lens[c]), Code(lens, c));
  }

  lemma QuotientIs(w: nat, s: nat, k: nat)
    requires s > 0
    ensures w / s == k <==> k * s <= w < k * s + s
  {
    if k * s <= w < k * s + s { DivModUnique(w, s, k, w - k * s); }
  }

  lemma {:induction false} RankMono(lens: seq<uint8>, len: nat, c: nat, d: nat)
    requires c <= d <= |lens|
    ensures Rank(lens, len, c) <= Rank(lens, len, d)
    decreases d
  {
    if c < d { RankMono(lens, len, c, d - 1); }
  }

  lemma {:induction false} AreaMono(lens: seq<uint8>, a: nat, b: nat)
    requires a <= b
    ensures Area(lens, a) <= Area(lens, b)
    decreases b
  {
    if a < b {
      AreaMono(lens, a, b - 1);
      MulMono(0, Count(lens, b - 1), Span(b - 1));
    }
  }

  /** Equal length: a lower symbol's interval ends where or before a higher one's starts. */
  lemma SameLengthOrder(lens: seq<uint8>, c: nat, d: nat)
    requires c < d < |lens| && lens[c] == lens[d]
    ensures Base(lens, c) + Span(lens[c]) <= Base(lens, d)
  {
    var len := lens[c];
    RankMono(lens, len, c + 1, d);
    MulMono(Rank(lens, len, c) + 1, Rank(lens, len, d), Span(len));
    Distribute(Rank(lens, len, c), 1, Span(len));
  }

  lemma BaseEnd(lens: seq<uint8>, c: nat)
    requires HasCode(lens, c)
    ensures Area(lens, lens[c]) <= Base(lens, c)
    ensures Base(lens, c) + Span(lens[c]) <= Area(lens, lens[c] + 1) <= Kraft(lens)
  {
    var len := lens[c];
    RankMono(lens, len, c + 1, |lens|);
    MulMono(Rank(lens, len, c) + 1, Count(lens, len), Span(len));
    Distribute(Rank(lens, len, c), 1, Span(len));
    MulMono(0, Rank(lens, len, c), Span(len));
    AreaMono(lens, len + 1, 17);
  }

  /** Shorter codes come first. */
  lemma LengthOrder(lens: seq<uint8>, c: nat, d: nat)
    requires HasCode(lens, c) && HasCode(lens, d) && lens[c] < lens[d]
    ensures Base(lens, c) + Span(lens[c]) <= Base(lens, d)
  {
    BaseEnd(lens, c);
    BaseEnd(lens, d);
    AreaMono(lens, lens[c] + 1, lens[d]);
  }

  /** No window lies in two intervals, so no code is a prefix of another. */
  lemma SpansDisjoint(lens: seq<uint8>, c: nat, d: nat, w: nat)
    requires HasCode(lens, c) && HasCode(lens, d)
    requires InSpan(lens, c, w) && InSpan(lens, d, w)
    ensures c == d
  {
    if lens[c] < lens[d] {
      LengthOrder(lens, c, d);
    } else if lens[d] < lens[c] {
      LengthOrder(lens, d, c);
    } else if c < d {
      SameLengthOrder(lens, c, d);
    } else if d < c {
      SameLengthOrder(lens, d, c);
    }
  }

  lemma {:induction false} SymbolOfRank(lens: seq<uint8>, len: nat, r: nat, n: nat) returns (c: nat)
    requires n <= |lens| && r < Rank(lens, len, n)
    ensures c < n && lens[c] == len && Rank(lens, len, c) == r
    decreases n
  {
    if r < Rank(lens, len, n - 1) {
      c := SymbolOfRank(lens, len, r, n - 1);
    } else {
      c := n - 1;
    }
  }

  /** The intervals of the codes no longer than the k-th length cover all windows below Area. */
  lemma {:induction false} Covered(lens: seq<uint8>, len: nat, w: nat) returns (c: nat)
    requires len <= 17 && w < Area(lens, len)
    ensures HasCode(lens, c) && lens[c] < len && InSpan(lens, c, w)
    decreases len
  {
    if w < Area(lens, len - 1) {
      c := Covered(lens, len - 1, w);
    } else {
      c := CoveredBy(lens, len - 1, w);
    }
  }

  lemma CoveredBy(lens: seq<uint8>, l: nat, w: nat) returns (c: nat)
    requires 1 <= l <= 16 && Area(lens, l) <= w < Area(lens, l) + Count(lens, l) * Span(l)
    ensures HasCode(lens, c) && lens[c] == l && InSpan(lens, c, w)
  {
    var r := Quotient(w - Area(lens, l), Span(l), Count(lens, l));
    c := SymbolOfRank(lens, l, r, |lens|);
  }

  lemma Quotient(x: nat, s: nat, n: nat) returns (r: nat)
    requires s > 0 && x < n * s
    ensures r < n && r * s <= x < r * s + s
  {
    r := x / s;
    if r >= n { MulMono(n, r, s); }
  }

  /** The unique symbol whose code starts the window. */
  ghost function Symbol(lens: seq<uint8>, w: nat): (c: nat)
    requires Complete(lens) && w < 0x1_0000
    ensures c < |lens| && Prefixes(lens, c, w)
  {
    SymbolExists(lens, w);
    var c: nat :| c < |lens| && Prefixes(lens, c, w);
    c
  }

  lemma SymbolExists(lens: seq<uint8>, w: nat)
    requires Complete(lens) && w < 0x1_0000
    ensures exists c: nat :: c < |lens| && Prefixes(lens, c, w)
  {
    var c := Covered(lens, 17, w);
    PrefixesIsInterval(lens, c, w);
  }

  /** A complete code decodes every window, and in one way only. */
  lemma SymbolUnique(lens: seq<uint8>, w: nat, c: nat)
    requires Complete(lens) && w < 0x1_0000
    ensures Prefixes(lens, c, w) <==> c == Symbol(lens, w)
  {
    var d := Symbol(lens, w);
    if Prefixes(lens, c, w) {
      PrefixesIsInterval(lens, c, w);
      PrefixesIsInterval(lens, d, w);
      SpansDisjoint(lens, c, d, w);
    }
  }
}
