/**
 Fixups of a loaded image: adding an offset to little-endian words in place.
 */
module PeFixups {
  import opened Words
  import opened Bytes

  // ---- little-endian numbers of any width

  /** 256 to the power w. */
  function Bound(w: nat): (b: nat)
    ensures b > 0
  {
    if w == 0 then 1 else 0x100 * Bound(w - 1)
  }

  function ToBytes(v: nat, w: nat): (b: seq<uint8>)
    ensures |b| == w
  {
    if w == 0 then [] else [v % 0x100] + ToBytes(v / 0x100, w - 1)
  }

  function FromBytes(b: seq<uint8>): nat
  {
    if b == [] then 0 else b[0] + 0x100 * FromBytes(b[1..])
  }

  lemma {:induction false} BytesOfNumber(b: seq<uint8>)
    ensures ToBytes(FromBytes(b), |b|) == b && FromBytes(b) < Bound(|b|)
  {
    if b != [] {
      BytesOfNumber(b[1..]);
      assert FromBytes(b) / 0x100 == FromBytes(b[1..]);
    }
  }

  lemma {:induction false} NumberOfBytes(v: nat, w: nat) returns (q: nat)
    ensures v == FromBytes(ToBytes(v, w)) + q * Bound(w)
    decreases w
  {
    if w == 0 {
      q := v;
    } else {
      q := NumberOfBytes(v / 0x100, w - 1);
      assert ToBytes(v, w)[1..] == ToBytes(v / 0x100, w - 1);
      Associate(q, 0x100, Bound(w - 1));
      assert 0x100 * (q * Bound(w - 1)) == q * Bound(w);
    }
  }

  /** Whole multiples of the bound do not show. */
  lemma {:induction false} BytesIgnore(v: nat, q: nat, w: nat)
    ensures ToBytes(v + q * Bound(w), w) == ToBytes(v, w)
    decreases w
  {
    if w > 0 {
      var x := q * Bound(w - 1);
      assert q * Bound(w) == 0x100 * x;
      assert (v + 0x100 * x) / 0x100 == v / 0x100 + x && (v + 0x100 * x) % 0x100 == v % 0x100;
      BytesIgnore(v / 0x100, q, w - 1);
    }
  }

  /** Adding a and then its complement gives the bytes back. */
  lemma AddUndone(b: seq<uint8>, a: nat, a': nat, q: nat)
    requires a + a' == q * Bound(|b|)
    ensures ToBytes(FromBytes(ToBytes(FromBytes(b) + a, |b|)) + a', |b|) == b
  {
    var w, v := |b|, FromBytes(b);
    var c := ToBytes(v + a, w);
    var k := NumberOfBytes(v + a, w);
    BytesIgnore(FromBytes(c) + a', k, w);
    BytesIgnore(v, q, w);
    BytesOfNumber(b);
  }

  /** Only complementary numbers give the bytes back. */
  lemma AddUndoneOnly(b: seq<uint8>, a: nat, a': nat) returns (q: nat)
    requires ToBytes(FromBytes(ToBytes(FromBytes(b) + a, |b|)) + a', |b|) == b
    ensures a + a' == q * Bound(|b|)
  {
    hide ToBytes, FromBytes, Bound;
    var w, v := |b|, FromBytes(b);
    var c := ToBytes(v + a, w);
    var k := NumberOfBytes(v + a, w);
    var k' := NumberOfBytes(FromBytes(c) + a', w);
    Distribute(k, k', Bound(w));
    q := k + k';
  }

  // ---- fixups

  datatype Fixup = Fixup(at: nat, width: nat, addend: nat)

  predicate Inside(f: Fixup, size: nat)
  {
    f.at + f.width <= size
  }

  predicate Apart(f: Fixup, g: Fixup)
  {
    f.at + f.width <= g.at || g.at + g.width <= f.at
  }

  /** All within an image, and no two overlapping. */
  predicate Sound(fs: seq<Fixup>, size: nat)
  {
    && (forall i :: 0 <= i < |fs| ==> Inside(fs[i], size))
    && (forall i, j :: 0 <= i < j < |fs| ==> Apart(fs[i], fs[j]))
  }

  function Field(m: seq<uint8>, f: Fixup): (b: seq<uint8>)
    requires Inside(f, |m|)
    ensures |b| == f.width
  {
    m[f.at..f.at + f.width]
  }

  /** The bytes of the field once the addend was added, modulo its width. */
  function NewField(m: seq<uint8>, f: Fixup): (b: seq<uint8>)
    requires Inside(f, |m|)
    ensures |b| == f.width
  {
    ToBytes(FromBytes(Field(m, f)) + f.addend, f.width)
  }

  function Patch(m: seq<uint8>, f: Fixup): (r: seq<uint8>)
    requires Inside(f, |m|)
    ensures |r| == |m|
  {
    Splice(m, f.at, NewField(m, f))
  }

  function Apply(m: seq<uint8>, fs: seq<Fixup>): (r: seq<uint8>)
    requires forall i :: 0 <= i < |fs| ==> Inside(fs[i], |m|)
    ensures |r| == |m|
  {
    if fs == [] then m else Patch(Apply(m, fs[..|fs| - 1]), fs[|fs| - 1])
  }

  predicate InField(k: nat, f: Fixup)
  {
    f.at <= k < f.at + f.width
  }

  predicate Outside(k: nat, fs: seq<Fixup>)
  {
    forall i :: 0 <= i < |fs| ==> !InField(k, fs[i])
  }

  /** m1 is m with each field changed once and nothing else. */
  ghost predicate Patched(m: seq<uint8>, fs: seq<Fixup>, m1: seq<uint8>)
  {
    && |m1| == |m|
    && (forall i :: 0 <= i < |fs| ==> Inside(fs[i], |m|) && Field(m1, fs[i]) == NewField(m, fs[i]))
    && (forall k :: 0 <= k < |m| && Outside(k, fs) ==> m1[k] == m[k])
  }

  /** Fixups that do not overlap act as if all at once. */
  lemma {:induction false} ApplyPatches(m: seq<uint8>, fs: seq<Fixup>)
    requires Sound(fs, |m|)
    ensures Patched(m, fs, Apply(m, fs))
  {
    hide ToBytes, FromBytes;
    if fs != [] {
      var n := |fs| - 1;
      var before, f := fs[..n], fs[n];
      ApplyPatches(m, before);
      PatchOne(m, before, f, Apply(m, before));
      assert before + [f] == fs;
    }
  }

  lemma PatchElsewhere(m: seq<uint8>, f: Fixup, g: Fixup)
    requires Inside(f, |m|) && Inside(g, |m|) && Apart(g, f)
    ensures Field(Patch(m, f), g) == Field(m, g)
  {
    hide NewField;
    var m1 := Patch(m, f);
    forall k | g.at <= k < g.at + g.width ensures m1[k] == m[k] {}
  }

  lemma PatchOne(m: seq<uint8>, before: seq<Fixup>, f: Fixup, m1: seq<uint8>)
    requires Sound(before + [f], |m|) && Patched(m, before, m1)
    ensures Inside(f, |m1|) && Patched(m, before + [f], Patch(m1, f))
  {
    hide ToBytes, FromBytes;
    var fs := before + [f];
    assert fs[|before|] == f;
    var m2 := Patch(m1, f);
    assert Field(m1, f) == Field(m, f) by { FieldKept(m, before, f, m1); }
    forall i | 0 <= i < |fs| ensures Field(m2, fs[i]) == NewField(m, fs[i]) {
      if i < |before| {
        assert before[i] == fs[i] && Apart(fs[i], fs[|before|]);
        PatchElsewhere(m1, f, before[i]);
      } else {
        assert Field(m2, f) == NewField(m1, f);
      }
    }
    forall k | 0 <= k < |m| && Outside(k, fs) ensures m2[k] == m[k] {
      assert !InField(k, fs[|before|]);
      forall i | 0 <= i < |before| ensures !InField(k, before[i]) { assert before[i] == fs[i]; }
    }
  }

  lemma FieldKept(m: seq<uint8>, before: seq<Fixup>, f: Fixup, m1: seq<uint8>)
    requires Sound(before + [f], |m|) && Patched(m, before, m1)
    ensures Inside(f, |m|) && Field(m1, f) == Field(m, f)
  {
    var fs := before + [f];
    assert fs[|before|] == f;
    forall k | f.at <= k < f.at + f.width ensures m1[k] == m[k] {
      forall i | 0 <= i < |before| ensures !InField(k, before[i]) {
        assert fs[i] == before[i] && Apart(fs[i], fs[|before|]);
      }
    }
  }

  /** The same fields, with other addends. */
  predicate SamePlaces(fs: seq<Fixup>, gs: seq<Fixup>)
  {
    |fs| == |gs| && forall i :: 0 <= i < |fs| ==> fs[i].at == gs[i].at && fs[i].width == gs[i].width
  }

  /** The addends of every field cancel. */
  ghost predicate AllCancel(fs: seq<Fixup>, gs: seq<Fixup>)
    requires |fs| == |gs|
  {
    forall i :: 0 <= i < |fs| ==> Cancels(fs[i], gs[i])
  }

  ghost predicate Cancels(f: Fixup, g: Fixup)
  {
    exists q: nat :: f.addend + g.addend == q * Bound(f.width)
  }

  /** Applying other fixups to the same fields gives the image back exactly if all addends cancel. */
  lemma ApplyUndone(m: seq<uint8>, fs: seq<Fixup>, gs: seq<Fixup>)
    requires Sound(fs, |m|) && SamePlaces(fs, gs)
    ensures Sound(gs, |m|)
    ensures Apply(Apply(m, fs), gs) == m <==> AllCancel(fs, gs)
  {
    hide ToBytes, FromBytes, Bound, Cancels, Patched, Apply;
    forall i, j | 0 <= i < j < |gs| ensures Apart(gs[i], gs[j]) { assert Apart(fs[i], fs[j]); }
    forall i | 0 <= i < |gs| ensures Inside(gs[i], |m|) { assert Inside(fs[i], |m|); }
    var m1 := Apply(m, fs);
    ApplyPatches(m, fs);
    ApplyPatches(m1, gs);
    var m2 := Apply(m1, gs);
    if AllCancel(fs, gs) {
      PatchedUndone(m, fs, gs, m1, m2);
    }
    if m2 == m {
      forall i | 0 <= i < |fs| ensures Cancels(fs[i], gs[i]) {
        FieldsOf(m, fs, m1, i);
        FieldsOf(m1, gs, m2, i);
        FieldUndoneOnly(m, fs[i], m1, gs[i]);
      }
    }
  }

  lemma FieldsOf(m: seq<uint8>, fs: seq<Fixup>, m1: seq<uint8>, i: nat)
    requires Patched(m, fs, m1) && i < |fs|
    ensures |m1| == |m| && Inside(fs[i], |m|) && Field(m1, fs[i]) == NewField(m, fs[i])
  {
  }

  lemma PatchedUndone(m: seq<uint8>, fs: seq<Fixup>, gs: seq<Fixup>, m1: seq<uint8>, m2: seq<uint8>)
    requires SamePlaces(fs, gs) && AllCancel(fs, gs) && Patched(m, fs, m1) && Patched(m1, gs, m2)
    ensures m2 == m
  {
    hide Cancels, NewField;
    forall k | 0 <= k < |m| ensures m2[k] == m[k] {
      if Outside(k, fs) {
        forall i | 0 <= i < |gs| ensures !InField(k, gs[i]) { assert !InField(k, fs[i]); }
        assert Outside(k, gs);
      } else {
        var i :| 0 <= i < |fs| && InField(k, fs[i]);
        FieldUndone(m, fs[i], m1, gs[i], m2);
        FieldByte(m, fs[i], k);
        FieldByte(m2, gs[i], k);
      }
    }
  }

  lemma FieldUndoneOnly(m: seq<uint8>, f: Fixup, m1: seq<uint8>, g: Fixup)
    requires |m| == |m1| && Inside(f, |m|) && f.at == g.at && f.width == g.width
    requires Field(m1, f) == NewField(m, f) && Field(m, g) == NewField(m1, g)
    ensures Cancels(f, g)
  {
    hide ToBytes, FromBytes, Bound;
    var q := AddUndoneOnly(Field(m, f), f.addend, g.addend);
  }

  lemma FieldByte(m: seq<uint8>, f: Fixup, k: nat)
    requires Inside(f, |m|) && InField(k, f)
    ensures k - f.at < |Field(m, f)| && Field(m, f)[k - f.at] == m[k]
  {
  }

  lemma FieldUndone(m: seq<uint8>, f: Fixup, m1: seq<uint8>, g: Fixup, m2: seq<uint8>)
    requires |m| == |m1| == |m2| && Inside(f, |m|) && f.at == g.at && f.width == g.width && Cancels(f, g)
    requires Field(m1, f) == NewField(m, f) && Field(m2, g) == NewField(m1, g)
    ensures Field(m2, g) == Field(m, f)
  {
    hide ToBytes, FromBytes, Bound;
    var q: nat :| f.addend + g.addend == q * Bound(f.width);
    AddUndone(Field(m, f), f.addend, g.addend, q);
  }
}
