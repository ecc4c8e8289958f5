/**
 Base relocation of a loaded PE image: run the relocation table, patch the
 image in place and log the new fields.
 */
module PeReloc {
  import opened Words
  import opened Bytes
  import opened PeFixups

  datatype Status = Success | LoadError | OutOfResources | Hangs

  // ---- the table

  /** What one entry of the table asks for; the loader hangs on unknown types. */
  datatype Decoded = Skip | Fix(f: Fixup) | Unknown

  function Decode(e: uint16, base: nat, adjust: nat): Decoded
  {
    var at := base + e % 0x1000;
    match e / 0x1000
    case 0 => Skip
    case 1 => Fix(Fixup(at, 2, adjust % 0x1_0000_0000 / 0x1_0000))
    case 2 => Fix(Fixup(at, 2, adjust % 0x1_0000))
    case 3 => Fix(Fixup(at, 4, adjust % 0x1_0000_0000))
    case 10 => Fix(Fixup(at, 8, adjust))
    case _ => Unknown
  }

  function HalfAt(m: seq<uint8>, off: nat): uint16
    requires off + 2 <= |m|
  {
    m[off] as int + 0x100 * m[off + 1] as int
  }

  /** Blocks of an even size of at least 8 fill the bytes from off to end. */
  predicate Tiled(m: seq<uint8>, off: nat, end: nat)
    requires end <= |m|
    decreases end - off
  {
    off == end ||
    (off + 8 <= end && var size := WordAt(m, off + 4);
     size % 2 == 0 && size >= 8 && off + size <= end && Tiled(m, off + size, end))
  }

  /** The fixups of the entries from at to end; the flag is false if an unknown type ended the list. */
  function Entries(m: seq<uint8>, at: nat, end: nat, base: nat, adjust: nat): (r: (seq<Fixup>, bool))
    requires at <= end <= |m| && (end - at) % 2 == 0
    ensures 2 * |r.0| <= end - at
    decreases end - at
  {
    if at == end then ([], true)
    else
      match Decode(HalfAt(m, at), base, adjust)
      case Unknown => ([], false)
      case Skip => Entries(m, at + 2, end, base, adjust)
      case Fix(f) =>
        var (fs, ok) := Entries(m, at + 2, end, base, adjust);
        ([f] + fs, ok)
  }

  /** The fixups of the blocks from off to end. */
  function Table(m: seq<uint8>, off: nat, end: nat, adjust: nat): (r: (seq<Fixup>, bool))
    requires end <= |m| && Tiled(m, off, end)
    ensures 2 * |r.0| <= end - off
    decreases end - off
  {
    if off == end then ([], true)
    else
      var next := off + WordAt(m, off + 4);
      var (fs, ok) := Entries(m, off + 8, next, WordAt(m, off), adjust);
      if !ok then (fs, false)
      else
        var (gs, ok1) := Table(m, next, end, adjust);
        (fs + gs, ok1)
  }

  // ---- the table depends on its own bytes only

  predicate Agree(m: seq<uint8>, m1: seq<uint8>, from: nat, to: nat)
  {
    |m| == |m1| && to <= |m| && forall k :: from <= k < to ==> m[k] == m1[k]
  }

  lemma AgreeWord(m: seq<uint8>, m1: seq<uint8>, from: nat, to: nat, off: nat)
    requires Agree(m, m1, from, to) && from <= off && off + 4 <= to
    ensures WordAt(m, off) == WordAt(m1, off)
  {
    assert m[off..off + 4] == m1[off..off + 4];
  }

  lemma {:induction false} AgreeTiled(m: seq<uint8>, m1: seq<uint8>, off: nat, end: nat)
    requires Agree(m, m1, off, end) && Tiled(m, off, end)
    ensures Tiled(m1, off, end)
    decreases end - off
  {
    if off < end {
      AgreeWord(m, m1, off, end, off + 4);
      AgreeTiled(m, m1, off + WordAt(m, off + 4), end);
    }
  }

  /** The negative of an adjustment in words of u bytes. */
  function Negated(adjust: nat, u: nat): nat
    requires adjust < Bound(u)
  {
    if adjust == 0 then 0 else Bound(u) - adjust
  }

  lemma Bounds()
    ensures Bound(2) == 0x1_0000 && Bound(4) == 0x1_0000_0000 && Bound(8) == 0x1_0000_0000_0000_0000
  {
    assert Bound(2) == 0x1_0000;
    assert Bound(4) == 0x1_0000_0000;
  }

  /** An entry that the negative adjustment does not undo: HIGH drops the carry, and a 64-bit field needs 64-bit words. */
  predicate Irreversible(e: uint16, adjust: nat, u: nat)
  {
    (e / 0x1000 == 1 && adjust % 0x1_0000 != 0) || (e / 0x1000 == 10 && u == 4 && adjust != 0)
  }

  lemma DecodeNegated(e: uint16, base: nat, adjust: nat, u: nat)
    requires u in {4, 8} && adjust < Bound(u)
    ensures var d, n := Decode(e, base, adjust), Decode(e, base, Negated(adjust, u));
      && (d.Skip? <==> n.Skip?) && (d.Unknown? <==> n.Unknown?)
      && (d.Fix? ==> d.f.at == n.f.at && d.f.width == n.f.width)
      && (d.Fix? ==> (Cancels(d.f, n.f) <==> !Irreversible(e, adjust, u)))
      && (!d.Fix? ==> !Irreversible(e, adjust, u))
  {
    Bounds();
    var n := Negated(adjust, u);
    NegatedSum(adjust, u);
    HighHalves(adjust, u);
    assert u == 4 ==> adjust + n < 0x1_0000_0000_0000_0000 && (adjust + n == 0 <==> adjust == 0);
    hide Bound, Cancels, Negated;
    var d, c := Decode(e, base, adjust), Decode(e, base, n);
    if d.Fix? {
      CancelsExactly(d.f, c.f);
    }
  }

  /** Cancelling is being a multiple of the bound. */
  lemma CancelsExactly(f: Fixup, g: Fixup)
    ensures Cancels(f, g) <==> (f.addend + g.addend) % Bound(f.width) == 0
  {
    var b, sum := Bound(f.width), f.addend + g.addend;
    if Cancels(f, g) {
      var q: nat :| sum == q * b;
      DivModUnique(sum, b, q, 0);
    }
    if sum % b == 0 {
      var q: nat := sum / b;
      assert sum == q * b;
    }
  }

  lemma NegatedSum(a: nat, u: nat)
    requires u in {4, 8} && a < Bound(u)
    ensures var n := Negated(a, u);
      && (a % 0x1_0000 + n % 0x1_0000) % 0x1_0000 == 0
      && (a % 0x1_0000_0000 + n % 0x1_0000_0000) % 0x1_0000_0000 == 0
      && (u == 8 ==> (a + n) % 0x1_0000_0000_0000_0000 == 0)
  {
    Bounds();
    hide Bound;
    var n := Negated(a, u);
    assert a + n == 0 || a + n == if u == 4 then 0x1_0000_0000 else 0x1_0000_0000_0000_0000;
    hide Negated;
    Sum16(a, n);
    Sum32(a, n);
  }

  lemma Sum16(a: nat, n: nat)
    requires (a + n) % 0x1_0000 == 0
    ensures (a % 0x1_0000 + n % 0x1_0000) % 0x1_0000 == 0
  {
  }

  lemma Sum32(a: nat, n: nat)
    requires (a + n) % 0x1_0000_0000 == 0
    ensures (a % 0x1_0000_0000 + n % 0x1_0000_0000) % 0x1_0000_0000 == 0
  {
  }

  /** No entry that is run, those before an unknown type, is irreversible. */
  predicate Reversible(m: seq<uint8>, at: nat, end: nat, adjust: nat, u: nat)
    requires at <= end <= |m| && (end - at) % 2 == 0
    decreases end - at
  {
    at == end || Decode(HalfAt(m, at), 0, adjust).Unknown?
    || (!Irreversible(HalfAt(m, at), adjust, u) && Reversible(m, at + 2, end, adjust, u))
  }

  predicate TableReversible(m: seq<uint8>, off: nat, end: nat, adjust: nat, u: nat)
    requires end <= |m| && Tiled(m, off, end)
    decreases end - off
  {
    off == end ||
    var next := off + WordAt(m, off + 4);
    && Reversible(m, off + 8, next, adjust, u)
    && (Entries(m, off + 8, next, WordAt(m, off), adjust).1 ==> TableReversible(m, next, end, adjust, u))
  }

  lemma {:induction false} EntriesNegated(m: seq<uint8>, m1: seq<uint8>, at: nat, end: nat, base: nat, adjust: nat, u: nat)
    requires at <= end && (end - at) % 2 == 0 && Agree(m, m1, at, end)
    requires u in {4, 8} && adjust < Bound(u)
    ensures var (fs, ok) := Entries(m, at, end, base, adjust);
      var (gs, ok1) := Entries(m1, at, end, base, Negated(adjust, u));
      ok == ok1 && SamePlaces(fs, gs) && (AllCancel(fs, gs) <==> Reversible(m, at, end, adjust, u))
    decreases end - at
  {
    hide Bound, Cancels, Negated, Irreversible;
    if at < end {
      assert HalfAt(m, at) == HalfAt(m1, at);
      EntriesNegated(m, m1, at + 2, end, base, adjust, u);
      DecodeNegated(HalfAt(m, at), base, adjust, u);
      var fs, gs := Entries(m, at, end, base, adjust).0, Entries(m1, at, end, base, Negated(adjust, u)).0;
      if Decode(HalfAt(m, at), base, adjust).Fix? { CancelFirst(fs, gs); }
    }
  }

  lemma CancelFirst(fs: seq<Fixup>, gs: seq<Fixup>)
    requires |fs| == |gs| > 0
    ensures AllCancel(fs, gs) <==> Cancels(fs[0], gs[0]) && AllCancel(fs[1..], gs[1..])
  {
    hide Cancels;
    if Cancels(fs[0], gs[0]) && AllCancel(fs[1..], gs[1..]) {
      forall i | 0 <= i < |fs| ensures Cancels(fs[i], gs[i]) {
        if i > 0 { assert Cancels(fs[1..][i - 1], gs[1..][i - 1]); }
      }
    }
  }

  lemma CancelJoin(fs: seq<Fixup>, gs: seq<Fixup>, fs': seq<Fixup>, gs': seq<Fixup>)
    requires SamePlaces(fs, gs) && SamePlaces(fs', gs')
    ensures SamePlaces(fs + fs', gs + gs')
    ensures AllCancel(fs + fs', gs + gs') <==> AllCancel(fs, gs) && AllCancel(fs', gs')
  {
    hide Cancels;
    var a, b := fs + fs', gs + gs';
    forall i | 0 <= i < |fs'| ensures a[|fs| + i] == fs'[i] && b[|fs| + i] == gs'[i] {}
    if AllCancel(a, b) {
      forall i | 0 <= i < |fs| ensures Cancels(fs[i], gs[i]) { assert Cancels(a[i], b[i]); }
      forall i | 0 <= i < |fs'| ensures Cancels(fs'[i], gs'[i]) { assert Cancels(a[|fs| + i], b[|fs| + i]); }
    }
  }

  lemma {:induction false} TableNegated(m: seq<uint8>, m1: seq<uint8>, off: nat, end: nat, adjust: nat, u: nat)
    requires Agree(m, m1, off, end) && Tiled(m, off, end) && u in {4, 8} && adjust < Bound(u)
    ensures Tiled(m1, off, end)
    ensures var (fs, ok) := Table(m, off, end, adjust);
      var (gs, ok1) := Table(m1, off, end, Negated(adjust, u));
      ok == ok1 && SamePlaces(fs, gs) && (AllCancel(fs, gs) <==> TableReversible(m, off, end, adjust, u))
    decreases end - off
  {
    hide Bound, Cancels, Negated, Entries, Reversible, WordAt, AllCancel, SamePlaces;
    AgreeTiled(m, m1, off, end);
    if off < end {
      AgreeWord(m, m1, off, end, off);
      AgreeWord(m, m1, off, end, off + 4);
      var next := off + WordAt(m, off + 4);
      EntriesNegated(m, m1, off + 8, next, WordAt(m, off), adjust, u);
      TableNegated(m, m1, next, end, adjust, u);
      var n := Negated(adjust, u);
      CancelJoin(Entries(m, off + 8, next, WordAt(m, off), adjust).0, Entries(m1, off + 8, next, WordAt(m, off), n).0,
                 Table(m, next, end, adjust).0, Table(m1, next, end, n).0);
    } else {
      NothingNegated([], []);
    }
  }

  lemma NothingNegated(fs: seq<Fixup>, gs: seq<Fixup>)
    requires fs == gs == []
    ensures SamePlaces(fs, gs) && AllCancel(fs, gs)
  {
  }

  // ---- relocating and relocating back

  /** The fixups do not overlap each other nor the table. */
  predicate Clear(fs: seq<Fixup>, size: nat, off: nat, end: nat)
  {
    Sound(fs, size) && forall i :: 0 <= i < |fs| ==> fs[i].at + fs[i].width <= off || end <= fs[i].at
  }

  function Relocated(m: seq<uint8>, off: nat, end: nat, adjust: nat): seq<uint8>
    requires end <= |m| && Tiled(m, off, end) && Clear(Table(m, off, end, adjust).0, |m|, off, end)
  {
    Apply(m, Table(m, off, end, adjust).0)
  }

  lemma TableKept(m: seq<uint8>, off: nat, end: nat, adjust: nat)
    requires end <= |m| && Tiled(m, off, end) && Clear(Table(m, off, end, adjust).0, |m|, off, end)
    ensures Agree(m, Relocated(m, off, end, adjust), off, end)
  {
    hide Apply, Table;
    var fs := Table(m, off, end, adjust).0;
    ApplyPatches(m, fs);
    forall k | off <= k < end ensures Outside(k, fs) {}
  }

  /** Each field is changed once, by the adjustment modulo its width, and no other byte changes. */
  lemma RelocatedIs(m: seq<uint8>, off: nat, end: nat, adjust: nat)
    requires end <= |m| && Tiled(m, off, end) && Clear(Table(m, off, end, adjust).0, |m|, off, end)
    ensures Patched(m, Table(m, off, end, adjust).0, Relocated(m, off, end, adjust))
  {
    hide Table;
    ApplyPatches(m, Table(m, off, end, adjust).0);
  }

  /**
   Relocating by the negative adjustment undoes the relocation if and only if
   no entry that is run is irreversible.
   */
  lemma RelocateUndone(m: seq<uint8>, off: nat, end: nat, adjust: nat, u: nat)
    requires u in {4, 8} && adjust < Bound(u)
    requires end <= |m| && Tiled(m, off, end) && Clear(Table(m, off, end, adjust).0, |m|, off, end)
    ensures var m1 := Relocated(m, off, end, adjust);
      && Tiled(m1, off, end)
      && Clear(Table(m1, off, end, Negated(adjust, u)).0, |m1|, off, end)
      && (Relocated(m1, off, end, Negated(adjust, u)) == m <==> TableReversible(m, off, end, adjust, u))
  {
    hide Bound, Cancels, Negated, Table, Tiled, TableReversible, Apply;
    var m1 := Relocated(m, off, end, adjust);
    TableKept(m, off, end, adjust);
    TableNegated(m, m1, off, end, adjust, u);
    var fs, gs := Table(m, off, end, adjust).0, Table(m1, off, end, Negated(adjust, u)).0;
    ApplyUndone(m, fs, gs);
    forall i | 0 <= i < |gs| ensures gs[i].at + gs[i].width <= off || end <= gs[i].at {
      assert fs[i].at == gs[i].at;
    }
  }

  /** An entry of type HIGH is run. */
  predicate RunsHigh(m: seq<uint8>, at: nat, end: nat)
    requires at <= end <= |m| && (end - at) % 2 == 0
    decreases end - at
  {
    && at < end && !Decode(HalfAt(m, at), 0, 0).Unknown?
    && (HalfAt(m, at) / 0x1000 == 1 || RunsHigh(m, at + 2, end))
  }

  predicate TableRunsHigh(m: seq<uint8>, off: nat, end: nat)
    requires end <= |m| && Tiled(m, off, end)
    decreases end - off
  {
    off < end &&
    var next := off + WordAt(m, off + 4);
    RunsHigh(m, off + 8, next) || (Entries(m, off + 8, next, WordAt(m, off), 0).1 && TableRunsHigh(m, next, end))
  }

  lemma {:induction false} HighEntries(m: seq<uint8>, at: nat, end: nat, base: nat, adjust: nat)
    requires at <= end <= |m| && (end - at) % 2 == 0
    ensures Reversible(m, at, end, adjust, 8) <==> adjust % 0x1_0000 == 0 || !RunsHigh(m, at, end)
    ensures Entries(m, at, end, base, adjust).1 == Entries(m, at, end, base, 0).1
    decreases end - at
  {
    hide HalfAt;
    if at < end { HighEntries(m, at + 2, end, base, adjust); }
  }

  lemma {:induction false} HighTable(m: seq<uint8>, off: nat, end: nat, adjust: nat)
    requires end <= |m| && Tiled(m, off, end)
    ensures TableReversible(m, off, end, adjust, 8) <==> adjust % 0x1_0000 == 0 || !TableRunsHigh(m, off, end)
    decreases end - off
  {
    hide Entries, WordAt, Reversible, RunsHigh;
    if off < end {
      var next := off + WordAt(m, off + 4);
      HighEntries(m, off + 8, next, WordAt(m, off), adjust);
      HighTable(m, next, end, adjust);
    }
  }

  /** With 64-bit words, the image comes back exactly if no HIGH entry is run or the adjustment is a multiple of 64 KB. */
  lemma HighUndone(m: seq<uint8>, off: nat, end: nat, adjust: nat)
    requires adjust < Bound(8)
    requires end <= |m| && Tiled(m, off, end) && Clear(Table(m, off, end, adjust).0, |m|, off, end)
    ensures var m1 := Relocated(m, off, end, adjust);
      && Tiled(m1, off, end) && Clear(Table(m1, off, end, Negated(adjust, 8)).0, |m1|, off, end)
      && (Relocated(m1, off, end, Negated(adjust, 8)) == m <==> adjust % 0x1_0000 == 0 || !TableRunsHigh(m, off, end))
  {
    hide Bound, Table, Tiled, Relocated, TableRunsHigh, TableReversible;
    RelocateUndone(m, off, end, adjust, 8);
    HighTable(m, off, end, adjust);
  }

  lemma HighHalves(a: nat, u: nat)
    requires u in {4, 8} && a < Bound(u)
    ensures var sum := a % 0x1_0000_0000 / 0x1_0000 + Negated(a, u) % 0x1_0000_0000 / 0x1_0000;
      if a % 0x1_0000 == 0 then sum % 0x1_0000 == 0 else sum == 0xffff
  {
    var x, y := a % 0x1_0000_0000, Negated(a, u) % 0x1_0000_0000;
    NegatedSum(a, u);
    hide Negated, Bound;
    LowOfLow(a);
    WordSum(x, y);
    Halves(x, y);
  }

  lemma WordSum(x: nat, y: nat)
    requires x < 0x1_0000_0000 && y < 0x1_0000_0000 && (x + y) % 0x1_0000_0000 == 0
    ensures x + y == 0 || x + y == 0x1_0000_0000
  {
  }

  lemma LowOfLow(a: nat)
    ensures a % 0x1_0000_0000 % 0x1_0000 == a % 0x1_0000
  {
  }

  lemma Halves(x: nat, y: nat)
    requires x + y == 0 || x + y == 0x1_0000_0000
    ensures var sum := x / 0x1_0000 + y / 0x1_0000;
      if x % 0x1_0000 == 0 then sum % 0x1_0000 == 0 else sum == 0xffff
  {
    assert x == 0x1_0000 * (x / 0x1_0000) + x % 0x1_0000;
    assert y == 0x1_0000 * (y / 0x1_0000) + y % 0x1_0000;
  }

  // ---- the log

  /** Where a field of width w goes: 32-bit and 64-bit fields are aligned. */
  function Aligned(p: nat, w: nat): (a: nat)
    ensures a >= p
  {
    if w == 4 then (p + 3) / 4 * 4 else if w == 8 then (p + 7) / 8 * 8 else p
  }

  function LogEnd(fs: seq<Fixup>): nat
    decreases |fs|, 1
  {
    if fs == [] then 0 else LogStart(fs) + fs[|fs| - 1].width
  }

  /** Where the last of the fixups is logged. */
  function LogStart(fs: seq<Fixup>): nat
    requires fs != []
    decreases |fs|, 0
  {
    Aligned(LogEnd(fs[..|fs| - 1]), fs[|fs| - 1].width)
  }

  /** Widths that the table can ask for, none above u. */
  predicate Widths(fs: seq<Fixup>, u: nat)
  {
    forall i :: 0 <= i < |fs| ==> fs[i].width in {2, 4, 8} && fs[i].width <= u
  }

  /** With its padding, the log takes at most one word a fixup. */
  lemma {:induction false} LogFits(fs: seq<Fixup>, u: nat)
    requires u in {4, 8} && Widths(fs, u)
    ensures LogEnd(fs) <= u * |fs|
  {
    if fs != [] { LogFits(fs[..|fs| - 1], u); }
  }

  /** The log holds the new fields, in order. */
  ghost predicate Logged(log: seq<uint8>, m: seq<uint8>, fs: seq<Fixup>)
  {
    && LogEnd(fs) <= |log|
    && forall i :: 0 <= i < |fs| ==> Inside(fs[i], |m|) && LoggedAt(log, LogStart(fs[..i + 1]), NewField(m, fs[i]))
  }

  predicate LoggedAt(log: seq<uint8>, at: nat, b: seq<uint8>)
  {
    at + |b| <= |log| && log[at..at + |b|] == b
  }

  lemma {:induction false} LogOrder(fs: seq<Fixup>, i: nat)
    requires i < |fs|
    ensures LogStart(fs[..i + 1]) + fs[i].width <= LogEnd(fs)
  {
    var n := |fs| - 1;
    if i < n {
      LogOrder(fs[..n], i);
      assert fs[..n][..i + 1] == fs[..i + 1];
    } else {
      assert fs[..i + 1] == fs;
    }
  }

  lemma LogNext(before: seq<Fixup>, f: Fixup)
    ensures LogStart(before + [f]) == Aligned(LogEnd(before), f.width)
    ensures LogEnd(before + [f]) == LogStart(before + [f]) + f.width
  {
    assert (before + [f])[..|before|] == before;
  }

  /** Logging one more field leaves those before it. */
  lemma LogMore(log: seq<uint8>, m: seq<uint8>, before: seq<Fixup>, f: Fixup)
    requires Logged(log, m, before) && Inside(f, |m|) && LogEnd(before + [f]) <= |log|
    ensures LogStart(before + [f]) + f.width == LogEnd(before + [f])
    ensures Logged(Splice(log, LogStart(before + [f]), NewField(m, f)), m, before + [f])
  {
    hide NewField, LogEnd, LogStart, Aligned;
    var fs := before + [f];
    LogNext(before, f);
    var at := LogStart(fs);
    var log1 := Splice(log, at, NewField(m, f));
    forall i | 0 <= i < |fs| ensures Inside(fs[i], |m|) && LoggedAt(log1, LogStart(fs[..i + 1]), NewField(m, fs[i])) {
      if i < |before| {
        assert fs[..i + 1] == before[..i + 1];
        LogOrder(before, i);
        SpliceElsewhere(log, at, NewField(m, f), LogStart(before[..i + 1]), NewField(m, before[i]));
      } else {
        assert fs[..i + 1] == fs;
      }
    }
  }

  lemma SpliceElsewhere(log: seq<uint8>, at: nat, b: seq<uint8>, x: nat, c: seq<uint8>)
    requires at + |b| <= |log| && LoggedAt(log, x, c) && x + |c| <= at
    ensures LoggedAt(Splice(log, at, b), x, c)
  {
    assert Splice(log, at, b)[x..x + |c|] == log[x..x + |c|];
  }

  // ---- the loader

  /** The pages set aside for the log. */
  function LogPages(dirSize: nat, u: nat): nat
  {
    var bytes := dirSize / 2 * u;
    bytes / 4096 + if bytes % 4096 != 0 then 1 else 0
  }

  /** The state after some fixups: the image patched, the log filled. */
  ghost predicate Progress(image: seq<uint8>, log: seq<uint8>, used: nat, m: seq<uint8>, done: seq<Fixup>)
  {
    Sound(done, |m|) && image == Apply(m, done) && used == LogEnd(done) && Logged(log, m, done)
  }

  /** One fixup: patch the field and log it. */
  method FixOne(image: array<uint8>, log: array<uint8>, f: Fixup, used: nat, ghost m: seq<uint8>, ghost done: seq<Fixup>) returns (used1: nat)
    requires image != log && Progress(image[..], log[..], used, m, done)
    requires Sound(done + [f], |m|) && LogEnd(done + [f]) <= log.Length
    modifies image, log
    ensures Progress(image[..], log[..], used1, m, done + [f])
  {
    hide NewField, LogEnd, LogStart;
    ghost var fs := done + [f];
    assert fs[..|done|] == done && fs[|done|] == f;
    assert Inside(f, |m|) && |image[..]| == |m|;
    ghost var now := image[..];
    ApplyPatches(m, done);
    FieldKept(m, done, f, now);
    SameNewField(m, now, f);
    LogNext(done, f);
    LogMore(log[..], m, done, f);
    var b := NewField(image[..], f);
    StoreBytes(image, f.at, b);
    assert image[..] == Patch(now, f);
    var at := Aligned(used, f.width);
    StoreBytes(log, at, b);
    used1 := at + f.width;
  }

  lemma SameNewField(m: seq<uint8>, now: seq<uint8>, f: Fixup)
    requires |m| == |now| && Inside(f, |m|) && Field(now, f) == Field(m, f)
    ensures NewField(now, f) == NewField(m, f)
  {
  }

  /** What relocation takes for granted of a table that lies in the image. */
  ghost predicate Relocatable(m: seq<uint8>, off: nat, end: nat, adjust: nat, u: nat)
    requires end <= |m|
  {
    && Tiled(m, off, end)
    && var fs := Table(m, off, end, adjust).0; Clear(fs, |m|, off, end) && Widths(fs, u)
  }

  /** A part of the fixups. */
  lemma SoundPart(before: seq<Fixup>, f: Fixup, rest: seq<Fixup>, all: seq<Fixup>, size: nat)
    requires all == before + [f] + rest && Sound(all, size)
    ensures Sound(before + [f], size)
  {
    var fs := before + [f];
    forall i | 0 <= i < |fs| ensures Inside(fs[i], size) { assert fs[i] == all[i]; }
    forall i, j | 0 <= i < j < |fs| ensures Apart(fs[i], fs[j]) { assert fs[i] == all[i] && fs[j] == all[j]; }
  }

  lemma PartFits(before: seq<Fixup>, f: Fixup, rest: seq<Fixup>, all: seq<Fixup>, u: nat, dirSize: nat, room: nat)
    requires all == before + [f] + rest && Widths(all, u) && u in {4, 8} && 2 * |all| <= dirSize
    requires room == LogPages(dirSize, u) * 4096
    ensures LogEnd(before + [f]) <= room
  {
    var fs := before + [f];
    forall i | 0 <= i < |fs| ensures fs[i].width in {2, 4, 8} && fs[i].width <= u { assert fs[i] == all[i]; }
    LogFits(fs, u);
    assert |fs| <= dirSize / 2;
  }

  /** The image still has the bytes of the table. */
  lemma TableIntact(m: seq<uint8>, done: seq<Fixup>, rest: seq<Fixup>, off: nat, end: nat)
    requires end <= |m| && Clear(done + rest, |m|, off, end)
    ensures Sound(done, |m|) && Agree(m, Apply(m, done), off, end)
  {
    hide Apply;
    var all := done + rest;
    forall i | 0 <= i < |done| ensures done[i] == all[i] {}
    forall i, j | 0 <= i < j < |done| ensures Apart(done[i], done[j]) { assert Apart(all[i], all[j]); }
    ApplyPatches(m, done);
    forall k | off <= k < end ensures Outside(k, done) {
      forall i | 0 <= i < |done| ensures !InField(k, done[i]) { assert done[i] == all[i]; }
    }
  }

  /** What holds of all the fixups of a table throughout a relocation. */
  ghost predicate Setting(m: seq<uint8>, all: seq<Fixup>, off: nat, end: nat, u: nat, room: nat)
  {
    && off <= end <= |m| && Clear(all, |m|, off, end) && Widths(all, u) && u in {4, 8}
    && 2 * |all| <= end - off && room == LogPages(end - off, u) * 4096
  }

  /** The inner loop: the entries of one block. */
  method RunBlock(image: array<uint8>, log: array<uint8>, first: nat, next: nat, base: nat, adjust: nat, used0: nat,
                  ghost m: seq<uint8>, ghost off: nat, ghost end: nat, ghost u: nat, ghost done0: seq<Fixup>, ghost rest: seq<Fixup>)
    returns (used: nat, ok: bool)
    requires image != log && off <= first <= next <= end <= |m| && (next - first) % 2 == 0
    requires Setting(m, done0 + Entries(m, first, next, base, adjust).0 + rest, off, end, u, log.Length)
    requires Progress(image[..], log[..], used0, m, done0)
    modifies image, log
    ensures ok == Entries(m, first, next, base, adjust).1
    ensures Progress(image[..], log[..], used, m, done0 + Entries(m, first, next, base, adjust).0)
  {
    hide Progress, Decode, Setting, HalfAt, Entries;
    ghost var (fs, ok0) := Entries(m, first, next, base, adjust);
    ghost var goal, done := done0 + fs, done0;
    used := used0;
    var reloc := first;
    while reloc < next
      invariant first <= reloc <= next && (next - reloc) % 2 == 0
      invariant Progress(image[..], log[..], used, m, done)
      invariant done + Entries(m, reloc, next, base, adjust).0 == goal && Entries(m, reloc, next, base, adjust).1 == ok0
      decreases next - reloc
    {
      ghost var more, after := Entries(m, reloc, next, base, adjust).0, Entries(m, reloc + 2, next, base, adjust).0;
      EntriesStep(m, reloc, next, base, adjust);
      Assoc(done, more, rest);
      var e := ReadEntry(image, log, reloc, used, m, off, end, u, done, more + rest);
      match Decode(e, base, adjust) {
        case Unknown =>
          assert done + [] == done;
          return used, false;
        case Skip =>
        case Fix(f) =>
          Assoc(done, [f], after);
          Assoc(done + [f], after, rest);
          used := FixNext(image, log, f, used, m, off, end, u, done, after + rest);
          done := done + [f];
      }
      reloc := reloc + 2;
    }
    EntriesEnd(m, next, base, adjust);
    assert done + [] == done;
    ok := true;
  }

  lemma EntriesEnd(m: seq<uint8>, end: nat, base: nat, adjust: nat)
    requires end <= |m|
    ensures Entries(m, end, end, base, adjust) == ([], true)
  {
  }

  lemma EntriesStep(m: seq<uint8>, at: nat, end: nat, base: nat, adjust: nat)
    requires at < end <= |m| && (end - at) % 2 == 0
    ensures Entries(m, at, end, base, adjust) ==
      match Decode(HalfAt(m, at), base, adjust)
      case Unknown => ([], false)
      case Skip => Entries(m, at + 2, end, base, adjust)
      case Fix(f) => ([f] + Entries(m, at + 2, end, base, adjust).0, Entries(m, at + 2, end, base, adjust).1)
  {
  }

  method ReadEntry(image: array<uint8>, log: array<uint8>, at: nat, used: nat,
                   ghost m: seq<uint8>, ghost off: nat, ghost end: nat, ghost u: nat, ghost done: seq<Fixup>, ghost rest: seq<Fixup>)
    returns (e: uint16)
    requires Setting(m, done + rest, off, end, u, log.Length) && Progress(image[..], log[..], used, m, done)
    requires off <= at && at + 2 <= end
    ensures e == HalfAt(m, at)
  {
    TableIntact(m, done, rest, off, end);
    assert image[..][at] == m[at] && image[..][at + 1] == m[at + 1];
    e := image[at] as int + 0x100 * image[at + 1] as int;
  }

  method FixNext(image: array<uint8>, log: array<uint8>, f: Fixup, used: nat,
                 ghost m: seq<uint8>, ghost off: nat, ghost end: nat, ghost u: nat, ghost done: seq<Fixup>, ghost rest: seq<Fixup>)
    returns (used1: nat)
    requires image != log && Setting(m, done + [f] + rest, off, end, u, log.Length) && Progress(image[..], log[..], used, m, done)
    modifies image, log
    ensures Progress(image[..], log[..], used1, m, done + [f])
  {
    hide Progress, Apply;
    SoundPart(done, f, rest, done + [f] + rest, |m|);
    PartFits(done, f, rest, done + [f] + rest, u, end - off, log.Length);
    used1 := FixOne(image, log, f, used, m, done);
  }

  /**
   EfiLdrPeCoffLoadPeRelocate for a directory at off of dirSize bytes; log is
   the space found for the fixup log, null if there was none.
   */
  method Relocate(image: array<uint8>, off: nat, dirSize: nat, adjust: nat, u: nat, log: array?<uint8>) returns (status: Status)
    requires u in {4, 8} && (off + dirSize < image.Length ==> Relocatable(image[..], off, off + dirSize, adjust, u))
    requires log != null ==> log != image && log.Length == LogPages(dirSize, u) * 4096
    modifies image, log
    ensures off + dirSize >= image.Length ==> status == LoadError && image[..] == old(image[..])
    ensures off + dirSize < image.Length && log == null ==> status == OutOfResources && image[..] == old(image[..])
    ensures off + dirSize < image.Length && log != null ==>
      var (fs, ok) := Table(old(image[..]), off, off + dirSize, adjust);
      && status == (if ok then Success else Hangs)
      && image[..] == Relocated(old(image[..]), off, off + dirSize, adjust)
      && Logged(log[..], old(image[..]), fs)
  {
    hide Progress, Tiled, Table, LogPages;
    if off >= image.Length || off + dirSize >= image.Length {
      return LoadError;
    }
    if log == null {
      return OutOfResources;
    }
    ghost var m, end := image[..], off + dirSize;
    ghost var all := Table(m, off, end, adjust).0;
    StartProgress(m, log[..]);
    status := RunTable(image, log, off, dirSize, adjust, m, u);
  }

  lemma StartProgress(m: seq<uint8>, log: seq<uint8>)
    ensures Progress(m, log, 0, m, [])
  {
  }

  /** The outer loop: block after block. */
  method RunTable(image: array<uint8>, log: array<uint8>, off: nat, dirSize: nat, adjust: nat, ghost m: seq<uint8>, ghost u: nat)
    returns (status: Status)
    requires image != log && off + dirSize < |m| && Tiled(m, off, off + dirSize)
    requires Setting(m, Table(m, off, off + dirSize, adjust).0, off, off + dirSize, u, log.Length)
    requires Progress(image[..], log[..], 0, m, [])
    modifies image, log
    ensures var (fs, ok) := Table(m, off, off + dirSize, adjust);
      status == (if ok then Success else Hangs) && image[..] == Apply(m, fs) && Logged(log[..], m, fs)
  {
    hide Progress, Entries, LogEnd, Apply, Setting, Tiled, Table;
    var end, at, used := off + dirSize, off, 0;
    ghost var goal, done := Table(m, off, end, adjust), [];
    assert done + goal.0 == goal.0;
    while at < end
      invariant off <= at <= end && Tiled(m, at, end)
      invariant Progress(image[..], log[..], used, m, done)
      invariant done + Table(m, at, end, adjust).0 == goal.0 && Table(m, at, end, adjust).1 == goal.1
      decreases end - at
    {
      ghost var all := Table(m, at, end, adjust).0;
      TableStep(m, at, end, adjust);
      var base, size := ReadHeader(image, log, at, used, m, off, end, u, done, all);
      var next := at + size;
      ghost var (fs, ok0) := Entries(m, at + 8, next, base, adjust);
      ghost var after := if ok0 then Table(m, next, end, adjust).0 else [];
      Assoc(done, fs, after);
      var ok;
      used, ok := RunBlock(image, log, at + 8, next, base, adjust, used, m, off, end, u, done, after);
      done := done + fs;
      if !ok {
        assert done == goal.0;
        EndProgress(image[..], log[..], used, m, done);
        return Hangs;
      }
      at := next;
    }
    TableEnd(m, end, adjust);
    assert done == goal.0;
    EndProgress(image[..], log[..], used, m, done);
    status := Success;
  }

  lemma Assoc(a: seq<Fixup>, b: seq<Fixup>, c: seq<Fixup>)
    ensures a + b + c == a + (b + c) && a + b + [] == a + b
  {
  }

  lemma TableEnd(m: seq<uint8>, end: nat, adjust: nat)
    requires end <= |m|
    ensures Tiled(m, end, end) && Table(m, end, end, adjust) == ([], true)
  {
  }

  /** One block of the table, and the blocks after it. */
  lemma TableStep(m: seq<uint8>, at: nat, end: nat, adjust: nat)
    requires at < end <= |m| && Tiled(m, at, end)
    ensures at + 8 <= end
    ensures var next := at + WordAt(m, at + 4);
      && at + 8 <= next <= end && (next - (at + 8)) % 2 == 0 && Tiled(m, next, end)
      && var (fs, ok) := Entries(m, at + 8, next, WordAt(m, at), adjust);
         var after := if ok then Table(m, next, end, adjust).0 else [];
         Table(m, at, end, adjust) == (fs + after, ok && Table(m, next, end, adjust).1)
  {
    hide Entries, WordAt;
    var next := at + WordAt(m, at + 4);
    var (fs, ok) := Entries(m, at + 8, next, WordAt(m, at), adjust);
    assert fs + [] == fs;
  }

  lemma EndProgress(image: seq<uint8>, log: seq<uint8>, used: nat, m: seq<uint8>, done: seq<Fixup>)
    requires Progress(image, log, used, m, done)
    ensures Sound(done, |m|) && image == Apply(m, done) && Logged(log, m, done)
  {
  }

  /** The header of a block: what its entries are relative to, and its size. */
  method ReadHeader(image: array<uint8>, log: array<uint8>, at: nat, used: nat,
                    ghost m: seq<uint8>, ghost off: nat, ghost end: nat, ghost u: nat, ghost done: seq<Fixup>, ghost rest: seq<Fixup>)
    returns (base: nat, size: nat)
    requires Setting(m, done + rest, off, end, u, log.Length) && Progress(image[..], log[..], used, m, done)
    requires off <= at && at + 8 <= end
    ensures base == WordAt(m, at) && size == WordAt(m, at + 4)
  {
    hide Apply, Table;
    TableIntact(m, done, rest, off, end);
    EndProgress(image[..], log[..], used, m, done);
    AgreeWord(m, image[..], off, end, at);
    AgreeWord(m, image[..], off, end, at + 4);
    base, size := WordAt(image[..], at), WordAt(image[..], at + 4);
  }
}
