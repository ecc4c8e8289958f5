/**
 The layout of a variable store byte by byte, in plain numbers. Line numbers
 are those of MdeModulePkg/Include/Guid/VariableFormat.h.
 */
module VariableBytes {
  import opened Words
  import opened Bytes
  import opened VariableLog
  import opened VariableLayout

  /** The least multiple of a from x on. */
  function Up(x: nat, a: nat): nat
    requires a > 0
  {
    (x + a - 1) / a * a
  }

  lemma UpIs(x: nat, a: nat, p: nat)
    requires p < a && (x + p) % a == 0
    ensures Up(x, a) == x + p
  {
    var q := (x + p) / a;
    DivModUnique(x + a - 1, a, q, a - 1 - p);
  }

  lemma PadIsUp(x: nat, align: nat)
    requires align <= 32
    ensures x + PadSize(x, align) == Up(x, Pow2(align))
  {
    hide PadSize, Up;
    PadAligns(x, align);
    UpIs(x, Pow2(align), PadSize(x, align));
  }

  /** The first record starts behind the 28 bytes of the store's header, the next one behind the padded parts of a record. */
  lemma Places(log: seq<Record>, i: nat, align: nat)
    requires i < |log| && align <= 32
    ensures var a, r := Pow2(align), log[i];
      && Offset(log, 0, align) == 28
      && Offset(log, i + 1, align) == Offset(log, i, align) + 32 + Up(2 * |r.name| + 2, a) + Up(|r.data|, a)
  {
    hide PadSize, Up;
    PadIsUp(NameSize(log[i].name), align);
    PadIsUp(|log[i].data|, align);
  }

  /** The number in four bytes, the lowest one first. */
  function FourBytes(m: seq<uint8>, off: nat): nat
    requires off + 4 <= |m|
  {
    m[off] as int + 0x100 * m[off + 1] as int + 0x1_0000 * m[off + 2] as int + 0x100_0000 * m[off + 3] as int
  }

  /** The record at off, byte by byte. */
  predicate RecordBytes(m: seq<uint8>, off: nat, r: Record, a: nat)
    requires a > 0
  {
    var n, d := 2 * |r.name| + 2, |r.data|;
    var data := off + 32 + Up(n, a);
    && n <= Up(n, a) && d <= Up(d, a) && data + Up(d, a) <= |m|
    && m[off] == 0xaa && m[off + 1] == 0x55 && m[off + 2] == r.state
    && FourBytes(m, off + 4) == r.attributes && FourBytes(m, off + 8) == n && FourBytes(m, off + 12) == d
    && m[off + 16..off + 32] == r.guid
    && (forall i :: 0 <= i < |r.name| ==> m[off + 32 + 2 * i] as int + 0x100 * m[off + 33 + 2 * i] as int == r.name[i])
    && m[off + 30 + n] == 0 && m[off + 31 + n] == 0
    && m[data..data + d] == r.data
  }

  lemma {:induction false} NameByte(name: Name, i: nat)
    requires i <= |name|
    ensures var b := NameBytes(name);
      |b| == 2 * |name| + 2 && b[2 * i] as int + 0x100 * b[2 * i + 1] as int == if i < |name| then name[i] else 0
  {
    if name != [] && i > 0 { NameByte(name[1..], i - 1); }
  }

  /** Bytes that spell a name and its terminator are those of the name. */
  lemma SpelledName(b: seq<uint8>, name: Name)
    requires |b| == 2 * |name| + 2 && b[2 * |name|] == b[2 * |name| + 1] == 0
    requires forall i :: 0 <= i < |name| ==> b[2 * i] as int + 0x100 * b[2 * i + 1] as int == name[i]
    ensures b == NameBytes(name)
  {
    hide NameBytes;
    var c := NameBytes(name);
    forall j | 0 <= j < |b| ensures b[j] == c[j] {
      NameByte(name, j / 2);
      SameHalves(b[j / 2 * 2], b[j / 2 * 2 + 1], c[j / 2 * 2], c[j / 2 * 2 + 1]);
    }
  }

  lemma SameHalves(a: uint8, b: uint8, c: uint8, d: uint8)
    requires a as int + 0x100 * b as int == c as int + 0x100 * d as int
    ensures a == c && b == d
  {
  }

  lemma WordIs(m: seq<uint8>, off: nat)
    requires off + 4 <= |m|
    ensures WordAt(m, off) == FourBytes(m, off)
  {
  }

  /** What it means that a store holds a record, byte by byte. */
  lemma RecordExactly(m: seq<uint8>, off: nat, r: Record, align: nat)
    requires align <= 32
    ensures HoldsRecord(m, off, r, align) <==> RecordBytes(m, off, r, Pow2(align))
  {
    hide PadSize, NameBytes, Up, FourBytes, WordAt, Pow2, HoldsRecord;
    var n, d, a := 2 * |r.name| + 2, |r.data|, Pow2(align);
    PadIsUp(n, align);
    PadIsUp(d, align);
    if HoldsRecord(m, off, r, align) {
      HeldBytes(m, off, r, align);
    }
    if RecordBytes(m, off, r, a) {
      BytesHeld(m, off, r, align);
    }
  }

  lemma HeldBytes(m: seq<uint8>, off: nat, r: Record, align: nat)
    requires HoldsRecord(m, off, r, align) && align <= 32
    ensures RecordBytes(m, off, r, Pow2(align))
  {
    hide PadSize, NameBytes, Up, FourBytes, Pow2, IsImage;
    var n, d, a := 2 * |r.name| + 2, |r.data|, Pow2(align);
    PadIsUp(n, align);
    PadIsUp(d, align);
    ParsesRecord(m, off, r, align);
    WordIs(m, off + 4);
    WordIs(m, off + 8);
    WordIs(m, off + 12);
    var b := m[off + 32..off + 32 + n];
    assert b == NameBytes(r.name);
    forall i | 0 <= i < |r.name| ensures m[off + 32 + 2 * i] as int + 0x100 * m[off + 33 + 2 * i] as int == r.name[i] {
      NameByte(r.name, i);
      assert b[2 * i] == m[off + 32 + 2 * i] && b[2 * i + 1] == m[off + 33 + 2 * i];
    }
    var z := |r.name|;
    NameByte(r.name, z);
    assert b[2 * z] == m[off + 32 + 2 * z] && b[2 * z + 1] == m[off + 33 + 2 * z];
    assert 32 + 2 * z == 30 + n && 33 + 2 * z == 31 + n;
  }

  lemma NameHeld(m: seq<uint8>, off: nat, r: Record, a: nat)
    requires a > 0 && RecordBytes(m, off, r, a)
    ensures var n := 2 * |r.name| + 2; off + 32 + n <= |m| && m[off + 32..off + 32 + n] == NameBytes(r.name)
  {
    hide NameBytes, Up, FourBytes;
    var n := 2 * |r.name| + 2;
    var name := m[off + 32..off + 32 + n];
    forall i | 0 <= i < |r.name| ensures name[2 * i] as int + 0x100 * name[2 * i + 1] as int == r.name[i] {
      assert name[2 * i] == m[off + 32 + 2 * i] && name[2 * i + 1] == m[off + 33 + 2 * i];
    }
    assert name[2 * |r.name|] == m[off + 30 + n] && name[2 * |r.name| + 1] == m[off + 31 + n];
    SpelledName(name, r.name);
  }

  lemma BytesHeld(m: seq<uint8>, off: nat, r: Record, align: nat)
    requires RecordBytes(m, off, r, Pow2(align)) && align <= 32
    ensures HoldsRecord(m, off, r, align)
  {
    hide PadSize, NameBytes, Up, FourBytes, Pow2, Word32;
    var n, d, a := 2 * |r.name| + 2, |r.data|, Pow2(align);
    PadIsUp(n, align);
    PadIsUp(d, align);
    WordIs(m, off + 4);
    WordIs(m, off + 8);
    WordIs(m, off + 12);
    NameHeld(m, off, r, a);
    var size, data := RecordSize(r, align), DataOffset(r.name, align);
    Slice(m, off, size, 4, 8);
    Slice(m, off, size, 8, 12);
    Slice(m, off, size, 12, 16);
    Slice(m, off, size, 16, 32);
    Slice(m, off, size, 32, 32 + n);
    Slice(m, off, size, data, data + d);
  }

  /** The whole store: the records at their places, and erased bytes behind them. */
  lemma StoreExactly(m: seq<uint8>, log: seq<Record>, align: nat)
    requires align <= 32
    ensures HoldsLog(m, log, align) <==>
      && End(log, align) <= |m|
      && (forall i :: 0 <= i < |log| ==> RecordBytes(m, Offset(log, i, align), log[i], Pow2(align)))
      && (forall j :: End(log, align) <= j < |m| ==> m[j] == 0xff)
  {
    hide HoldsRecord, RecordBytes, Offset, Pow2;
    forall i | 0 <= i < |log|
      ensures HoldsRecord(m, Offset(log, i, align), log[i], align) <==> RecordBytes(m, Offset(log, i, align), log[i], Pow2(align))
    {
      RecordExactly(m, Offset(log, i, align), log[i], align);
    }
  }
}
