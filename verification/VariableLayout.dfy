/**
 The bytes of a variable store: a header of 28 bytes, then the records one
 after the other, then erased bytes. ALIGNMENT is 2^align.
 */
module VariableLayout {
  import opened Words
  import opened Bytes
  import opened VariableLog

  const STORE_HEADER_SIZE := 28
  const HEADER_SIZE := 32

  // ---- sizes

  /** ~a + 1 in a 32-bit word. */
  function Neg32(a: nat): uint32
  {
    (0x1_0000_0000 - a % 0x1_0000_0000) % 0x1_0000_0000
  }

  /** GET_PAD_SIZE: the low bits of -a. */
  function PadSize(a: nat, align: nat): nat
  {
    Low(Neg32(a), align)
  }

  /** The pad completes a multiple of the alignment. */
  lemma PadAligns(a: nat, align: nat)
    requires align <= 32
    ensures PadSize(a, align) < Pow2(align) && (a + PadSize(a, align)) % Pow2(align) == 0
  {
    hide Low, Pow2, Neg32;
    var d, x, p := Pow2(align), Neg32(a), PadSize(a, align);
    ShrIsDiv(x, align);
    NegCancels(a);
    Pow2Add(32 - align, align);
    Pow2Values();
    MultipleLess(a, x, d, (x + a) / 0x1_0000_0000, Pow2(32 - align));
  }

  lemma MultipleLess(a: nat, x: nat, d: nat, m: int, e: int)
    requires d > 0 && x + a == m * (e * d)
    ensures (a + x % d) % d == 0
  {
    var q := x / d;
    Associate(m, e, d);
    Distribute(m * e - q, q, d);
    DivModUnique(a + x % d, d, m * e - q, 0);
  }

  /** No smaller pad does. */
  lemma PadIsLeast(a: nat, align: nat, p: nat)
    requires align <= 32 && (a + p) % Pow2(align) == 0
    ensures PadSize(a, align) <= p
  {
    hide Low, Pow2, PadSize;
    PadAligns(a, align);
    var d, p' := Pow2(align), PadSize(a, align);
    if p < p' {
      var m, n := (a + p') / d, (a + p) / d;
      Distribute(m - n, n, d);
      Between(m - n, d);
      assert false;
    }
  }

  lemma NegCancels(a: nat)
    ensures Neg32(a) + a == (Neg32(a) + a) / 0x1_0000_0000 * 0x1_0000_0000
  {
  }

  /** No multiple of d lies strictly between 0 and d. */
  lemma Between(t: int, d: nat)
    requires d > 0
    ensures !(0 < t * d < d)
  {
    if t <= 0 { MulMono(t, 0, d); } else { MulMono(1, t, d); }
  }

  function NameSize(name: Name): nat
  {
    2 * |name| + 2
  }

  function DataOffset(name: Name, align: nat): nat
  {
    HEADER_SIZE + NameSize(name) + PadSize(NameSize(name), align)
  }

  function RecordSize(r: Record, align: nat): (n: nat)
    ensures n >= HEADER_SIZE
  {
    DataOffset(r.name, align) + |r.data| + PadSize(|r.data|, align)
  }

  /** Where record i of the log starts. */
  function Offset(log: seq<Record>, i: nat, align: nat): (n: nat)
    requires i <= |log|
    ensures n >= STORE_HEADER_SIZE
  {
    if i == 0 then STORE_HEADER_SIZE else Offset(log, i - 1, align) + RecordSize(log[i - 1], align)
  }

  /** Where the next record goes. */
  function End(log: seq<Record>, align: nat): nat
  {
    Offset(log, |log|, align)
  }

  lemma OffsetStep(log: seq<Record>, i: nat, align: nat)
    requires i < |log|
    ensures Offset(log, i + 1, align) == Offset(log, i, align) + RecordSize(log[i], align)
  {
  }

  lemma {:induction false} OffsetMono(log: seq<Record>, i: nat, j: nat, align: nat)
    requires i < j <= |log|
    ensures Offset(log, i, align) + RecordSize(log[i], align) <= Offset(log, j, align)
    decreases j
  {
    if i < j - 1 { OffsetMono(log, i, j - 1, align); }
  }

  lemma {:induction false} OffsetSame(a: seq<Record>, b: seq<Record>, i: nat, align: nat)
    requires i <= |a| && i <= |b| && forall j :: 0 <= j < i ==> a[j].name == b[j].name && |a[j].data| == |b[j].data|
    ensures Offset(a, i, align) == Offset(b, i, align)
  {
    if i > 0 { OffsetSame(a, b, i - 1, align); }
  }

  lemma EndSnoc(log: seq<Record>, r: Record, align: nat)
    ensures End(log + [r], align) == End(log, align) + RecordSize(r, align)
  {
    OffsetSame(log + [r], log, |log|, align);
  }

  // ---- the bytes of a record

  function NameBytes(name: Name): (b: seq<uint8>)
    ensures |b| == NameSize(name)
  {
    if name == [] then [0, 0] else [name[0] % 0x100, name[0] / 0x100] + NameBytes(name[1..])
  }

  /** No terminated name starts another one: comparing StrSize bytes compares the names. */
  lemma {:induction false} NamesPrefixFree(a: Name, b: Name)
    requires NameBytes(a) <= NameBytes(b)
    ensures a == b
  {
    var x, y := NameBytes(a), NameBytes(b);
    assert x[0] == y[0] && x[1] == y[1];
    if a != [] && b != [] {
      assert NameBytes(a[1..]) == x[2..] && NameBytes(b[1..]) == y[2..];
      NamesPrefixFree(a[1..], b[1..]);
      assert a == [a[0]] + a[1..] && b == [b[0]] + b[1..];
    }
  }

  /** b holds the record r; what is in the pads does not matter. */
  predicate IsImage(b: seq<uint8>, r: Record, align: nat)
  {
    var n, d := NameSize(r.name), DataOffset(r.name, align);
    && |b| == RecordSize(r, align)
    && b[0] == 0xaa && b[1] == 0x55
    && b[2] == r.state
    && Word32(b[4..8]) == r.attributes
    && Word32(b[8..12]) == n
    && Word32(b[12..16]) == |r.data|
    && b[16..HEADER_SIZE] == r.guid
    && b[HEADER_SIZE..HEADER_SIZE + n] == NameBytes(r.name)
    && b[d..d + |r.data|] == r.data
  }

  predicate HoldsRecord(mem: seq<uint8>, off: nat, r: Record, align: nat)
  {
    off + RecordSize(r, align) <= |mem| && IsImage(mem[off..off + RecordSize(r, align)], r, align)
  }

  /** mem is a store with exactly the records of the log. */
  predicate HoldsLog(mem: seq<uint8>, log: seq<Record>, align: nat)
  {
    && End(log, align) <= |mem|
    && (forall i :: 0 <= i < |log| ==> HoldsRecord(mem, Offset(log, i, align), log[i], align))
    && (forall j :: End(log, align) <= j < |mem| ==> mem[j] == ERASED)
  }

  // ---- reading

  predicate IsValidHeader(mem: seq<uint8>, off: nat)
  {
    off + 1 < |mem| && mem[off] == 0xaa && mem[off + 1] == 0x55
  }

  /** The header at off lies within the store. */
  predicate HeaderFits(mem: seq<uint8>, off: nat)
  {
    off + HEADER_SIZE <= |mem|
  }

  function DataPtr(mem: seq<uint8>, off: nat, align: nat): nat
    requires HeaderFits(mem, off)
  {
    var n := WordAt(mem, off + 8);
    off + HEADER_SIZE + n + PadSize(n, align)
  }

  function NextPtr(mem: seq<uint8>, off: nat, align: nat): (next: nat)
    requires HeaderFits(mem, off)
    ensures next > off
  {
    var d := WordAt(mem, off + 12);
    DataPtr(mem, off, align) + d + PadSize(d, align)
  }

  lemma Slice(mem: seq<uint8>, off: nat, n: nat, i: nat, j: nat)
    requires off + n <= |mem| && i <= j <= n
    ensures mem[off..off + n][i..j] == mem[off + i..off + j]
  {
    var b := mem[off..off + n];
    forall x | 0 <= x < j - i ensures b[i..j][x] == mem[off + i..off + j][x] {
      assert b[i + x] == mem[off + (i + x)];
    }
  }

  /** What the walking routines find at a record. */
  lemma ParsesRecord(mem: seq<uint8>, off: nat, r: Record, align: nat)
    requires HoldsRecord(mem, off, r, align)
    ensures HeaderFits(mem, off) && IsValidHeader(mem, off)
    ensures mem[off + 2] == r.state && WordAt(mem, off + 4) == r.attributes
    ensures WordAt(mem, off + 8) == NameSize(r.name) && WordAt(mem, off + 12) == |r.data|
    ensures mem[off + 16..off + HEADER_SIZE] == r.guid
    ensures mem[off + HEADER_SIZE..off + HEADER_SIZE + NameSize(r.name)] == NameBytes(r.name)
    ensures NextPtr(mem, off, align) == off + RecordSize(r, align)
    ensures var d := DataPtr(mem, off, align);
      d == off + DataOffset(r.name, align) && d + |r.data| <= |mem| && mem[d..d + |r.data|] == r.data
  {
    hide NameBytes, Word32, PadSize;
    var b := mem[off..off + RecordSize(r, align)];
    var n, d := NameSize(r.name), DataOffset(r.name, align);
    Slice(mem, off, |b|, 4, 8);
    Slice(mem, off, |b|, 8, 12);
    Slice(mem, off, |b|, 12, 16);
    Slice(mem, off, |b|, 16, HEADER_SIZE);
    Slice(mem, off, |b|, HEADER_SIZE, HEADER_SIZE + n);
    Slice(mem, off, |b|, d, d + |r.data|);
  }

  /** At the end of the records, no header is found. */
  lemma EndIsInvalid(mem: seq<uint8>, log: seq<Record>, align: nat)
    requires HoldsLog(mem, log, align)
    ensures !IsValidHeader(mem, End(log, align))
  {
  }

  /** Follow the records from off on. */
  function Walk(mem: seq<uint8>, off: nat, align: nat): nat
    decreases |mem| - off
  {
    if IsValidHeader(mem, off) && HeaderFits(mem, off) then Walk(mem, NextPtr(mem, off, align), align) else off
  }

  lemma WalkStep(mem: seq<uint8>, off: nat, r: Record, align: nat)
    requires HoldsRecord(mem, off, r, align)
    ensures Walk(mem, off, align) == Walk(mem, off + RecordSize(r, align), align)
  {
    hide HoldsRecord;
    ParsesRecord(mem, off, r, align);
  }

  /** The walk visits the records in turn and stops exactly at their end. */
  lemma {:induction false} WalkStops(mem: seq<uint8>, log: seq<Record>, i: nat, align: nat)
    requires HoldsLog(mem, log, align) && i <= |log|
    ensures Walk(mem, Offset(log, i, align), align) == End(log, align)
    decreases |log| - i
  {
    hide HoldsRecord, RecordSize, Offset, Walk;
    if i < |log| {
      OffsetStep(log, i, align);
      WalkStep(mem, Offset(log, i, align), log[i], align);
      WalkStops(mem, log, i + 1, align);
    } else {
      EndIsInvalid(mem, log, align);
      WalkEnds(mem, End(log, align), align);
    }
  }

  lemma WalkEnds(mem: seq<uint8>, off: nat, align: nat)
    requires !IsValidHeader(mem, off)
    ensures Walk(mem, off, align) == off
  {
  }

  // ---- writing

  lemma HoldsElsewhere(mem: seq<uint8>, off: nat, b: seq<uint8>, at: nat, r: Record, align: nat)
    requires off + |b| <= |mem| && HoldsRecord(mem, at, r, align)
    requires at + RecordSize(r, align) <= off || off + |b| <= at
    ensures HoldsRecord(Splice(mem, off, b), at, r, align)
  {
    hide IsImage;
    var n := RecordSize(r, align);
    assert Splice(mem, off, b)[at..at + n] == mem[at..at + n];
  }

  /** Writing the image of a record at the end appends it. */
  lemma AppendHolds(mem: seq<uint8>, log: seq<Record>, r: Record, b: seq<uint8>, align: nat)
    requires HoldsLog(mem, log, align) && IsImage(b, r, align) && End(log, align) + |b| <= |mem|
    ensures HoldsLog(Splice(mem, End(log, align), b), log + [r], align)
  {
    hide Offset;
    assert |b| == RecordSize(r, align);
    hide IsImage, RecordSize;
    var e, log1 := End(log, align), log + [r];
    var mem1 := Splice(mem, e, b);
    EndSnoc(log, r, align);
    forall i | 0 <= i < |log1| ensures HoldsRecord(mem1, Offset(log1, i, align), log1[i], align) {
      OffsetSame(log1, log, i, align);
      if i < |log| {
        OffsetMono(log, i, |log|, align);
        HoldsElsewhere(mem, e, b, Offset(log, i, align), log[i], align);
      } else {
        assert mem1[e..e + RecordSize(r, align)] == b;
      }
    }
  }

  function Erased(n: nat): (r: seq<uint8>)
    ensures |r| == n && forall i :: 0 <= i < n ==> r[i] == ERASED
  {
    seq(n, _ => ERASED)
  }

  /** Erased bytes after the end do not matter. */
  lemma ErasedTail(mem: seq<uint8>, log: seq<Record>, n: nat, align: nat)
    requires HoldsLog(mem, log, align) && |mem| == End(log, align)
    ensures HoldsLog(mem + Erased(n), log, align)
  {
    hide IsImage, Offset, RecordSize;
    var mem1 := mem + Erased(n);
    forall i | 0 <= i < |log| ensures HoldsRecord(mem1, Offset(log, i, align), log[i], align) {
      var off, size := Offset(log, i, align), RecordSize(log[i], align);
      OffsetMono(log, i, |log|, align);
      assert mem1[off..off + size] == mem[off..off + size];
    }
  }

  /** Records can be collected in a buffer that grows. */
  lemma CollectHolds(mem: seq<uint8>, log: seq<Record>, r: Record, b: seq<uint8>, align: nat)
    requires HoldsLog(mem, log, align) && |mem| == End(log, align) && IsImage(b, r, align)
    ensures HoldsLog(mem + b, log + [r], align) && |mem + b| == End(log + [r], align)
  {
    hide IsImage, HoldsLog, RecordSize, Offset;
    ImageSize(b, r, align);
    ErasedTail(mem, log, |b|, align);
    AppendHolds(mem + Erased(|b|), log, r, b, align);
    assert Splice(mem + Erased(|b|), |mem|, b) == mem + b;
    EndSnoc(log, r, align);
  }

  lemma ImageSize(b: seq<uint8>, r: Record, align: nat)
    requires IsImage(b, r, align)
    ensures |b| == RecordSize(r, align)
  {
  }

  /** Writing the state byte of record i changes its state and nothing else. */
  lemma StateHolds(mem: seq<uint8>, log: seq<Record>, i: nat, state: uint8, align: nat)
    requires HoldsLog(mem, log, align) && i < |log|
    ensures Offset(log, i, align) + 3 <= |mem|
    ensures HoldsLog(Splice(mem, Offset(log, i, align) + 2, [state]), log[i := WithState(log[i], state)], align)
  {
    hide IsImage, Offset;
    var log1 := log[i := WithState(log[i], state)];
    var off := Offset(log, i, align);
    OffsetMono(log, i, |log|, align);
    var mem1 := Splice(mem, off + 2, [state]);
    OffsetSame(log1, log, |log|, align);
    forall j | 0 <= j < |log1| ensures HoldsRecord(mem1, Offset(log1, j, align), log1[j], align) {
      OffsetSame(log1, log, j, align);
      if j == i {
        StateOfImage(mem, off, log[i], state, align);
      } else {
        if j < i { OffsetMono(log, j, i, align); } else { OffsetMono(log, i, j, align); }
        HoldsElsewhere(mem, off + 2, [state], Offset(log, j, align), log[j], align);
      }
    }
  }

  lemma SameFrom3(a: seq<uint8>, b: seq<uint8>, i: nat, j: nat)
    requires |a| == |b| && 3 <= i <= j <= |a| && forall x :: 3 <= x < |a| ==> a[x] == b[x]
    ensures a[i..j] == b[i..j]
  {
  }

  lemma StateOfImage(mem: seq<uint8>, off: nat, r: Record, state: uint8, align: nat)
    requires HoldsRecord(mem, off, r, align)
    ensures off + 3 <= |mem| && HoldsRecord(Splice(mem, off + 2, [state]), off, WithState(r, state), align)
  {
    hide NameBytes, Word32, PadSize;
    var size := RecordSize(r, align);
    var n, d := NameSize(r.name), DataOffset(r.name, align);
    var mem1 := Splice(mem, off + 2, [state]);
    var a, b := mem[off..off + size], mem1[off..off + size];
    forall x | 0 <= x < size ensures b[x] == if x == 2 then state else a[x] {
      assert b[x] == mem1[off + x] && a[x] == mem[off + x];
    }
    SameFrom3(a, b, 4, 8);
    SameFrom3(a, b, 8, 12);
    SameFrom3(a, b, 12, 16);
    SameFrom3(a, b, 16, HEADER_SIZE);
    SameFrom3(a, b, HEADER_SIZE, HEADER_SIZE + n);
    SameFrom3(a, b, d, d + |r.data|);
  }
}
