/**
 Pixels as a VBE mode arranges them: each colour has a mask and a position in
 a 32-bit word.
 */
module Pixels {
  import opened Words

  datatype Field = Field(position: nat, mask: uint8)

  datatype Pixel = Pixel(blue: uint8, green: uint8, red: uint8)

  datatype Layout = Layout(red: Field, green: Field, blue: Field)

  /** A colour in its place in a 32-bit word. */
  function InField(c: uint8, f: Field): uint32
  {
    Shl32(And(c, f.mask), f.position)
  }

  /** The word for a pixel. */
  function Encode(l: Layout, p: Pixel): uint32
  {
    OrWord(OrWord(InField(p.red, l.red), InField(p.green, l.green)), InField(p.blue, l.blue))
  }

  /** A colour taken out of a word. */
  function FromField(w: uint32, f: Field): uint8
  {
    AndBelow(Shr(w, f.position), f.mask);
    And(Shr(w, f.position), f.mask)
  }

  function Decode(l: Layout, w: uint32): Pixel
  {
    Pixel(FromField(w, l.blue), FromField(w, l.green), FromField(w, l.red))
  }

  // ---- single bits

  function BitAt(x: nat, i: nat): (b: nat)
    ensures b < 2
  {
    Shr(x, i) % 2
  }

  lemma {:induction false} AndBelow(a: nat, b: nat)
    ensures And(a, b) <= b
  {
    if a != 0 && b != 0 { AndBelow(a / 2, b / 2); }
  }

  lemma BitZero(x: nat)
    ensures BitAt(x, 0) == x % 2
  {
  }

  lemma BitStep(x: nat, i: nat)
    requires i > 0
    ensures BitAt(x, i) == BitAt(x / 2, i - 1)
  {
  }

  lemma OrHalf(a: nat, b: nat)
    ensures Or(a, b) / 2 == Or(a / 2, b / 2)
  {
  }

  lemma AndHalf(a: nat, b: nat)
    ensures And(a, b) / 2 == And(a / 2, b / 2)
  {
  }

  lemma {:induction false} BitOfAnd(a: nat, b: nat, i: nat)
    ensures BitAt(And(a, b), i) == if BitAt(a, i) == 1 && BitAt(b, i) == 1 then 1 else 0
    decreases i
  {
    hide Shr;
    if i == 0 {
      BitZero(And(a, b));
      BitZero(a);
      BitZero(b);
    } else {
      AndHalf(a, b);
      BitStep(And(a, b), i);
      BitStep(a, i);
      BitStep(b, i);
      hide And;
      BitOfAnd(a / 2, b / 2, i - 1);
    }
  }

  lemma {:induction false} BitOfOr(a: nat, b: nat, i: nat)
    ensures BitAt(Or(a, b), i) == if BitAt(a, i) == 1 || BitAt(b, i) == 1 then 1 else 0
    decreases i
  {
    hide Shr;
    if i == 0 {
      BitZero(Or(a, b));
      BitZero(a);
      BitZero(b);
    } else {
      OrHalf(a, b);
      BitStep(Or(a, b), i);
      BitStep(a, i);
      BitStep(b, i);
      hide Or;
      BitOfOr(a / 2, b / 2, i - 1);
    }
  }

  lemma {:induction false} BitOfShl(x: nat, n: nat, i: nat)
    ensures BitAt(Shl(x, n), i) == if i < n then 0 else BitAt(x, i - n)
    decreases n
  {
    if n > 0 {
      if i > 0 { BitOfShl(x, n - 1, i - 1); }
      assert Shl(x, n) / 2 == Shl(x, n - 1);
    }
  }

  lemma {:induction false} BitOfLow(x: nat, n: nat, i: nat)
    ensures BitAt(Low(x, n), i) == if i < n then BitAt(x, i) else 0
    decreases n
  {
    if n == 0 {
      ShrZero(i);
    } else if i > 0 {
      BitOfLow(x / 2, n - 1, i - 1);
      assert Low(x, n) / 2 == Low(x / 2, n - 1);
    }
  }

  lemma BitOfShr(x: nat, n: nat, i: nat)
    ensures BitAt(Shr(x, n), i) == BitAt(x, n + i)
  {
    ShrShr(x, n, i);
  }

  /** Numbers with the same bits are the same. */
  lemma {:induction false} SameBits(a: nat, b: nat)
    requires forall i: nat :: BitAt(a, i) == BitAt(b, i)
    ensures a == b
    decreases a + b
  {
    assert BitAt(a, 0) == BitAt(b, 0);
    if a != 0 || b != 0 {
      forall i: nat ensures BitAt(a / 2, i) == BitAt(b / 2, i) { assert BitAt(a, i + 1) == BitAt(b, i + 1); }
      SameBits(a / 2, b / 2);
    }
  }

  // ---- writing a pixel and reading it back

  /** Bit k of the word is one of the field's. */
  predicate Owns(f: Field, k: nat)
  {
    k >= f.position && BitAt(f.mask, k - f.position) == 1
  }

  /** The field lies within the lowest n bits. */
  ghost predicate Below(f: Field, n: nat)
  {
    forall k: nat :: Owns(f, k) ==> k < n
  }

  /** No bit belongs to two colours. */
  ghost predicate Separate(f: Field, g: Field)
  {
    forall k: nat :: !(Owns(f, k) && Owns(g, k))
  }

  ghost predicate LayoutOk(l: Layout, n: nat)
  {
    && n <= 32 && Below(l.red, n) && Below(l.green, n) && Below(l.blue, n)
    && Separate(l.red, l.green) && Separate(l.red, l.blue) && Separate(l.green, l.blue)
  }

  lemma BitInField(c: uint8, f: Field, k: nat)
    requires Below(f, 32)
    ensures BitAt(InField(c, f), k) == if Owns(f, k) then BitAt(c, k - f.position) else 0
  {
    hide BitAt, Shl, Low, And;
    BitOfLow(Shl(And(c, f.mask), f.position), 32, k);
    BitOfShl(And(c, f.mask), f.position, k);
    if k >= f.position { BitOfAnd(c, f.mask, k - f.position); }
  }

  /** A bit of the word is the bit of the colour that owns it. */
  lemma BitOfEncode(l: Layout, p: Pixel, k: nat)
    requires LayoutOk(l, 32)
    ensures Owns(l.red, k) ==> BitAt(Encode(l, p), k) == BitAt(p.red, k - l.red.position)
    ensures Owns(l.green, k) ==> BitAt(Encode(l, p), k) == BitAt(p.green, k - l.green.position)
    ensures Owns(l.blue, k) ==> BitAt(Encode(l, p), k) == BitAt(p.blue, k - l.blue.position)
  {
    hide BitAt, InField, Or;
    var r, g, b := InField(p.red, l.red), InField(p.green, l.green), InField(p.blue, l.blue);
    BitInField(p.red, l.red, k);
    BitInField(p.green, l.green, k);
    BitInField(p.blue, l.blue, k);
    BitOfOr(r, g, k);
    BitOfOr(OrWord(r, g), b, k);
    assert !(Owns(l.red, k) && Owns(l.green, k)) && !(Owns(l.red, k) && Owns(l.blue, k)) && !(Owns(l.green, k) && Owns(l.blue, k));
  }

  /** A word that agrees with a colour on the bits of its field gives the colour back, as far as the mask goes. */
  lemma FieldReads(w: uint32, f: Field, c: uint8)
    requires forall k: nat :: Owns(f, k) ==> BitAt(w, k) == BitAt(c, k - f.position)
    ensures FromField(w, f) == And(c, f.mask)
  {
    hide BitAt, Shr, And;
    forall i: nat ensures BitAt(FromField(w, f), i) == BitAt(And(c, f.mask), i) {
      BitOfAnd(Shr(w, f.position), f.mask, i);
      BitOfShr(w, f.position, i);
      BitOfAnd(c, f.mask, i);
      assert Owns(f, f.position + i) <==> BitAt(f.mask, i) == 1;
    }
    SameBits(FromField(w, f), And(c, f.mask));
  }

  /** The colours as far as the masks go. */
  function Masked(l: Layout, p: Pixel): Pixel
  {
    Pixel(And(p.blue, l.blue.mask), And(p.green, l.green.mask), And(p.red, l.red.mask))
  }

  /** Reading a word that agrees with a written pixel in its low n bits gives the masked colours back. */
  lemma PixelReads(l: Layout, p: Pixel, w: uint32, n: nat)
    requires LayoutOk(l, n) && Low(w, n) == Low(Encode(l, p), n)
    ensures Decode(l, w) == Masked(l, p)
  {
    hide Encode, BitAt, Low, FromField;
    LayoutWider(l, n);
    forall k: nat | k < n ensures BitAt(w, k) == BitAt(Encode(l, p), k) {
      BitOfLow(w, n, k);
      BitOfLow(Encode(l, p), n, k);
    }
    forall k: nat ensures Owns(l.red, k) ==> BitAt(w, k) == BitAt(p.red, k - l.red.position) { BitOfEncode(l, p, k); }
    forall k: nat ensures Owns(l.green, k) ==> BitAt(w, k) == BitAt(p.green, k - l.green.position) { BitOfEncode(l, p, k); }
    forall k: nat ensures Owns(l.blue, k) ==> BitAt(w, k) == BitAt(p.blue, k - l.blue.position) { BitOfEncode(l, p, k); }
    FieldReads(w, l.red, p.red);
    FieldReads(w, l.green, p.green);
    FieldReads(w, l.blue, p.blue);
  }

  lemma LayoutWider(l: Layout, n: nat)
    requires LayoutOk(l, n)
    ensures LayoutOk(l, 32)
  {
  }
}
