/**
 The decoding structure of MakeTable: a flat table indexed by the first tb bits
 of a 16-bit window and, for codes longer than tb bits, binary trees whose
 nodes are numbered from n upwards and stored in the arrays left and right. A
 value below n is a symbol; 0 also means that a slot was not filled yet.
 */
module HuffmanForest {
  import opened Words
  import opened CanonicalCode

  // ---- prefixes of windows

  /** The first window sharing the first len bits of w, found bit by bit. */
  function Align(w: nat, len: nat): (a: nat)
    requires len <= 16 && w < 0x1_0000
    ensures a <= w < a + Span(len)
  {
    Pow2Values();
    if len == 0 then 0
    else
      SpanHalves(len - 1);
      Align(w, len - 1) + (if w >= Align(w, len - 1) + Span(len) then Span(len) else 0)
  }

  /** The first len bits of w as a number, found bit by bit. */
  function Top(w: nat, len: nat): (t: nat)
    requires len <= 16 && w < 0x1_0000
    ensures t < Pow2(len)
  {
    if len == 0 then 0
    else 2 * Top(w, len - 1) + (if w >= Align(w, len - 1) + Span(len) then 1 else 0)
  }

  /** Bit number len of the window, counted from the most significant. */
  function Bit(w: nat, len: nat): nat
    requires len < 16 && w < 0x1_0000
  {
    (w / Span(len + 1)) % 2
  }

  /** Shifting and masking finds the same bit. */
  lemma BitIsHalf(w: nat, len: nat)
    requires len < 16 && w < 0x1_0000
    ensures Bit(w, len) == if w >= Align(w, len) + Span(len + 1) then 1 else 0
  {
    TopIsQuotient(w, len + 1);
  }

  lemma BitIsShr(w: nat, len: nat)
    requires len < 16 && w < 0x1_0000
    ensures Bit(w, len) == Shr(w, 15 - len) % 2
  {
    ShrIsDiv(w, 15 - len);
  }

  lemma {:induction false} TopIsQuotient(w: nat, len: nat)
    requires len <= 16 && w < 0x1_0000
    ensures Span(len) > 0 && Top(w, len) == w / Span(len) && Align(w, len) == Top(w, len) * Span(len)
  {
    Pow2Values();
    if len > 0 {
      TopIsQuotient(w, len - 1);
      SpanHalves(len - 1);
      var a := Align(w, len - 1);
      TopStep(w, Span(len), a, Top(w, len - 1), if w >= a + Span(len) then 1 else 0);
    }
  }

  lemma TopStep(w: nat, s: nat, a: nat, q: nat, b: nat)
    requires s > 0 && a == q * (2 * s) && a <= w < a + 2 * s
    requires b == if w >= a + s then 1 else 0
    ensures w / s == 2 * q + b && (2 * q + b) * s == a + (if b == 1 then s else 0)
  {
    Twice(q, s);
    Associate(2, q, s);
    Distribute(2 * q, b, s);
    DivModUnique(w, s, 2 * q + b, if b == 1 then w - a - s else w - a);
  }

  /** The number determines the prefix. */
  lemma {:induction false} TopInjective(v: nat, w: nat, len: nat)
    requires len <= 16 && v < 0x1_0000 && w < 0x1_0000 && Top(v, len) == Top(w, len)
    ensures Align(v, len) == Align(w, len)
  {
    if len > 0 { TopInjective(v, w, len - 1); }
  }

  /** Windows of one span have the same prefix. */
  lemma {:induction false} AlignUnique(v: nat, w: nat, len: nat)
    requires len <= 16 && v < 0x1_0000 && w < 0x1_0000
    requires Align(v, len) <= w < Align(v, len) + Span(len)
    ensures Align(w, len) == Align(v, len)
  {
    if len > 0 {
      SpanHalves(len - 1);
      AlignUnique(v, w, len - 1);
    }
  }

  lemma {:induction false} AlignMono(w: nat, l: nat, m: nat)
    requires l <= m <= 16 && w < 0x1_0000
    ensures Align(w, l) <= Align(w, m)
    decreases m
  {
    if l < m { AlignMono(w, l, m - 1); }
  }

  /** A prefix of a prefix is a prefix of the window. */
  lemma AlignTwice(w: nat, l: nat, m: nat)
    requires l <= m <= 16 && w < 0x1_0000
    ensures Align(Align(w, m), l) == Align(w, l)
  {
    AlignMono(w, l, m);
    AlignUnique(w, Align(w, m), l);
  }

  /** Equal long prefixes have equal short ones. */
  lemma AlignEqual(v: nat, w: nat, l: nat, m: nat)
    requires l <= m <= 16 && v < 0x1_0000 && w < 0x1_0000
    requires Align(v, m) == Align(w, m)
    ensures Align(v, l) == Align(w, l)
  {
    AlignTwice(v, l, m);
    AlignTwice(w, l, m);
  }

  lemma {:induction false} AlignFixed(a: nat, l: nat, m: nat)
    requires l <= m <= 16 && a < 0x1_0000 && Align(a, l) == a
    ensures Align(a, m) == a
  {
    AlignMono(a, l, m);
  }

  /** The start of a code's interval is aligned, and its windows share its bits. */
  lemma BaseAligned(lens: seq<uint8>, c: nat, w: nat)
    requires Complete(lens) && HasCode(lens, c) && InSpan(lens, c, w)
    ensures w < 0x1_0000 && Align(w, lens[c]) == Base(lens, c)
  {
    BaseEnd(lens, c);
    BaseIsCode(lens, c);
    PrefixesIsInterval(lens, c, w);
    TopIsQuotient(w, lens[c]);
  }

  // ---- keys: the inner nodes of the code tree

  /** A prefix of len bits, given by the first window that starts with it. */
  datatype Key = Key(len: nat, start: nat)

  ghost predicate Proper(k: Key)
  {
    k.len <= 16 && k.start < 0x1_0000 && Align(k.start, k.len) == k.start
  }

  function KeyOf(w: nat, len: nat): Key
    requires len <= 16 && w < 0x1_0000
  {
    Key(len, Align(w, len))
  }

  lemma KeyOfProper(w: nat, len: nat)
    requires len <= 16 && w < 0x1_0000
    ensures Proper(KeyOf(w, len))
  {
    AlignTwice(w, len, len);
  }

  function Parent(k: Key): Key
    requires 0 < k.len <= 16 && k.start < 0x1_0000
  {
    KeyOf(k.start, k.len - 1)
  }

  lemma ParentOfKeyOf(w: nat, len: nat)
    requires 0 < len <= 16 && w < 0x1_0000
    ensures Parent(KeyOf(w, len)) == KeyOf(w, len - 1)
  {
    AlignTwice(w, len - 1, len);
  }

  /** The code of c goes on below the prefix k. */
  predicate Through(lens: seq<uint8>, c: nat, k: Key)
    requires Complete(lens)
  {
    HasCode(lens, c) && k.len < lens[c] && Base(lens, c) < 0x1_0000 && KeyOf(Base(lens, c), k.len) == k
  }

  // ---- fewer inner nodes than symbols

  /** The first window of the right half of a prefix. */
  function Mid(k: Key): nat
  {
    k.start + Span(k.len + 1)
  }

  /** Both halves of an inner node are tiled by codes, so a code starts in the middle. */
  lemma MidIsBase(lens: seq<uint8>, k: Key, c: nat) returns (d: nat)
    requires Complete(lens) && Through(lens, c, k)
    ensures HasCode(lens, d) && Base(lens, d) == Mid(k)
  {
    var b := Base(lens, c);
    SpanHalves(k.len);
    AlignWithin(b, k.len);
    var m := Mid(k);
    KeyOfProper(b, k.len);
    MidAligned(k);
    d := Covered(lens, 17, m);
    BaseAligned(lens, d, m);
    if lens[d] > k.len {
      AlignFixed(m, k.len + 1, lens[d]);
    } else {
      AlignUnique(b, m, k.len);
      AlignEqual(m, b, lens[d], k.len);
      assert InSpan(lens, c, b);
      SpansDisjoint(lens, c, d, b);
      assert false;
    }
  }

  /** A span of an aligned prefix does not leave the 16-bit windows. */
  lemma {:induction false} AlignWithin(w: nat, len: nat)
    requires len <= 16 && w < 0x1_0000
    ensures Align(w, len) + Span(len) <= 0x1_0000
  {
    Pow2Values();
    if len > 0 {
      AlignWithin(w, len - 1);
      SpanHalves(len - 1);
    }
  }

  lemma MidAligned(k: Key)
    requires Proper(k) && k.len < 16
    ensures Mid(k) < 0x1_0000 && Align(Mid(k), k.len) == k.start && Align(Mid(k), k.len + 1) == Mid(k)
  {
    AlignWithin(k.start, k.len);
    SpanHalves(k.len);
    AlignUnique(k.start, Mid(k), k.len);
  }

  /** The middle determines the prefix. */
  lemma MidInjective(k: Key, k': Key)
    requires Proper(k) && Proper(k') && k.len < 16 && k'.len < 16 && Mid(k) == Mid(k')
    ensures k == k'
  {
    MidAligned(k);
    MidAligned(k');
    if k.len < k'.len {
      AlignFixed(Mid(k), k.len + 1, k'.len);
      SpanHalves(k'.len);
    } else if k'.len < k.len {
      AlignFixed(Mid(k), k'.len + 1, k.len);
      SpanHalves(k.len);
    }
  }

  ghost predicate AllTraced(lens: seq<uint8>, keys: set<Key>)
    requires Complete(lens)
  {
    forall k :: k in keys ==> exists c :: 0 <= c < |lens| && Through(lens, c, k)
  }

  lemma TracedMidInjective(lens: seq<uint8>, k: Key, k': Key)
    requires Complete(lens) && Mid(k) == Mid(k')
    requires exists c :: 0 <= c < |lens| && Through(lens, c, k)
    requires exists c :: 0 <= c < |lens| && Through(lens, c, k')
    ensures k == k'
  {
    var c: nat :| c < |lens| && Through(lens, c, k);
    var c': nat :| c' < |lens| && Through(lens, c', k');
    KeyOfProper(Base(lens, c), k.len);
    KeyOfProper(Base(lens, c'), k'.len);
    MidInjective(k, k');
  }

  /** Distinct inner nodes are halved by distinct symbols. */
  lemma {:induction false} MidSymbols(lens: seq<uint8>, keys: set<Key>) returns (syms: set<nat>)
    requires Complete(lens) && AllTraced(lens, keys)
    ensures |syms| == |keys|
    ensures forall d :: d in syms ==> HasCode(lens, d) && exists k :: k in keys && Base(lens, d) == Mid(k)
    decreases |keys|
  {
    hide Base, Complete, Through, Mid;
    if keys == {} {
      syms := {};
    } else {
      var k :| k in keys;
      var c: nat :| c < |lens| && Through(lens, c, k);
      var rest := MidSymbols(lens, keys - {k});
      var d := MidIsBase(lens, k, c);
      if d in rest {
        var k' :| k' in keys - {k} && Base(lens, d) == Mid(k');
        TracedMidInjective(lens, k, k');
        assert false;
      }
      syms := rest + {d};
    }
  }

  /** A complete code has fewer inner nodes than symbols. */
  lemma FewerNodesThanSymbols(lens: seq<uint8>, keys: set<Key>)
    requires Complete(lens) && AllTraced(lens, keys)
    ensures |keys| < |lens|
  {
    var syms := MidSymbols(lens, keys);
    var zero := Covered(lens, 17, 0);
    forall d | d in syms ensures Base(lens, d) > 0 {
      var k :| k in keys && Base(lens, d) == Mid(k);
      var c: nat :| c < |lens| && Through(lens, c, k);
      SpanHalves(k.len);
    }
    assert zero !in syms;
    Pigeonhole(syms + {zero}, |lens|);
  }

  lemma {:induction false} Pigeonhole(s: set<nat>, n: nat)
    requires forall x :: x in s ==> x < n
    ensures |s| <= n
    decreases n
  {
    if n == 0 {
      assert s == {};
    } else {
      Pigeonhole(s - {n - 1}, n - 1);
    }
  }
}
