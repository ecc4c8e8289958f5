/**
 Base relocation read off the bytes of the image: which bytes an entry of the
 relocation table names, and what becomes of them. Line numbers are those of
 DuetPkg/EfiLdr/PeLoader.c.
 */
module PeEntries {
  import opened Words
  import opened Bytes
  import opened PeFixups
  import opened PeReloc

  // ---- the entries, by their places in the image

  /** A block of the table starts at b. */
  predicate BlockAt(m: seq<uint8>, off: nat, end: nat, b: nat): (r: bool)
    requires end <= |m| && Tiled(m, off, end)
    ensures r ==> off <= b && b + 8 <= end && b + 8 <= b + WordAt(m, b + 4) <= end
    decreases end - off
  {
    off < end && (b == off || BlockAt(m, off + WordAt(m, off + 4), end, b))
  }

  /** An entry of the block at b is at p: two bytes behind the block's header of eight. */
  predicate EntryAt(m: seq<uint8>, off: nat, end: nat, b: nat, p: nat): (r: bool)
    requires end <= |m| && Tiled(m, off, end)
    ensures r ==> b + 8 <= p && p + 2 <= end
  {
    BlockAt(m, off, end, b) && b + 8 <= p && p + 2 <= b + WordAt(m, b + 4) && (p - b) % 2 == 0
  }

  function Kind(m: seq<uint8>, p: nat): nat
    requires p + 2 <= |m|
  {
    m[p + 1] / 16
  }

  /** The low 12 bits of the entry at p. */
  function PageOffset(m: seq<uint8>, p: nat): nat
    requires p + 2 <= |m|
  {
    m[p + 1] as int % 16 * 0x100 + m[p]
  }

  /** The byte of the image that the entry at p of the block at b names. */
  function Target(m: seq<uint8>, b: nat, p: nat): nat
    requires b + 4 <= |m| && p + 2 <= |m|
  {
    WordAt(m, b) + PageOffset(m, p)
  }

  predicate Known(kind: nat)
  {
    kind in {0, 1, 2, 3, 10}
  }

  /** The entry at p is reached: none before it has an unknown type. */
  ghost predicate Reached(m: seq<uint8>, off: nat, end: nat, p: nat)
    requires end <= |m| && Tiled(m, off, end)
  {
    forall b: nat, q: nat :: q < p && EntryAt(m, off, end, b, q) ==> Known(Kind(m, q))
  }

  /** The entry at p of the block at b is run and names a field. */
  ghost predicate Runs(m: seq<uint8>, off: nat, end: nat, b: nat, p: nat): (r: bool)
    requires end <= |m| && Tiled(m, off, end)
    ensures r ==> b + 8 <= p && p + 2 <= end && Kind(m, p) in {1, 2, 3, 10}
  {
    EntryAt(m, off, end, b, p) && Kind(m, p) in {1, 2, 3, 10} && Reached(m, off, end, p)
  }

  function Width(kind: nat): nat
  {
    if kind == 10 then 8 else if kind == 3 then 4 else 2
  }

  function Addend(kind: nat, adjust: nat): nat
  {
    if kind == 1 then adjust % 0x1_0000_0000 / 0x1_0000
    else if kind == 2 then adjust % 0x1_0000
    else if kind == 3 then adjust % 0x1_0000_0000
    else adjust
  }

  // ---- the fixups are those of the entries

  /** Every fixup is that of an entry of this list that is run, in order, and every such entry has one. */
  ghost predicate Lists(m: seq<uint8>, at: nat, end: nat, base: nat, adjust: nat, fs: seq<Fixup>, ps: seq<nat>)
    requires end <= |m|
  {
    && |ps| == |fs|
    && (forall i :: 0 <= i < |ps| ==> Lists1(m, at, end, base, adjust, fs[i], ps[i]))
    && (forall i, j :: 0 <= i < j < |ps| ==> ps[i] < ps[j])
    && (forall p: nat :: InList(at, end, p) && Kind(m, p) in {1, 2, 3, 10} && KnownBefore(m, at, end, p) ==> p in ps)
  }

  ghost predicate Lists1(m: seq<uint8>, at: nat, end: nat, base: nat, adjust: nat, f: Fixup, p: nat)
    requires end <= |m|
  {
    && InList(at, end, p) && Kind(m, p) in {1, 2, 3, 10} && KnownBefore(m, at, end, p)
    && f == Fixup(base + PageOffset(m, p), Width(Kind(m, p)), Addend(Kind(m, p), adjust))
  }

  predicate InList(at: nat, end: nat, p: nat): (r: bool)
    ensures r ==> at <= p && p + 2 <= end
  {
    at <= p && p + 2 <= end && (p - at) % 2 == 0
  }

  ghost predicate KnownBefore(m: seq<uint8>, at: nat, end: nat, p: nat)
    requires end <= |m|
  {
    forall q: nat :: q < p && InList(at, end, q) ==> Known(Kind(m, q))
  }

  lemma DecodeIs(m: seq<uint8>, p: nat, base: nat, adjust: nat)
    requires p + 2 <= |m|
    ensures var d, k := Decode(HalfAt(m, p), base, adjust), Kind(m, p);
      && (d.Unknown? <==> !Known(k)) && (d.Skip? <==> k == 0)
      && (d.Fix? ==> k in {1, 2, 3, 10} && d.f == Fixup(base + PageOffset(m, p), Width(k), Addend(k, adjust)))
  {
    var lo, hi := m[p] as int, m[p + 1] as int;
    var e := HalfAt(m, p);
    assert e == lo + 0x100 * hi;
    DivModUnique(e, 0x1000, hi / 16, hi % 16 * 0x100 + lo);
  }

  lemma {:induction false} ListsEntries(m: seq<uint8>, at: nat, end: nat, base: nat, adjust: nat) returns (ps: seq<nat>)
    requires at <= end <= |m| && (end - at) % 2 == 0
    ensures Lists(m, at, end, base, adjust, Entries(m, at, end, base, adjust).0, ps)
    ensures Entries(m, at, end, base, adjust).1 <==> KnownBefore(m, at, end, end)
    decreases end - at
  {
    hide Decode, HalfAt, Kind, PageOffset, Width, Addend;
    ps := [];
    if at < end {
      DecodeIs(m, at, base, adjust);
      assert InList(at, end, at);
      if Known(Kind(m, at)) {
        var more := ListsEntries(m, at + 2, end, base, adjust);
        var fs := Entries(m, at + 2, end, base, adjust).0;
        ListsMore(m, at, end, base, adjust, fs, more);
        ps := if Kind(m, at) == 0 then more else [at] + more;
      }
    }
  }

  lemma InListStep(at: nat, end: nat, p: nat)
    requires at + 2 <= end
    ensures InList(at, end, p) <==> p == at || InList(at + 2, end, p)
  {
  }

  /** An entry of the longer list that is not the first one is an entry of the shorter. */
  lemma Lists1More(m: seq<uint8>, at: nat, end: nat, base: nat, adjust: nat, f: Fixup, p: nat)
    requires at + 2 <= end <= |m| && Known(Kind(m, at)) && Lists1(m, at + 2, end, base, adjust, f, p)
    ensures Lists1(m, at, end, base, adjust, f, p) && p > at
  {
    hide Kind, PageOffset, Width, Addend, KnownBefore;
    KnownMore(m, at, end, p);
  }

  /** A list with one more entry at its start, which is known. */
  lemma ListsMore(m: seq<uint8>, at: nat, end: nat, base: nat, adjust: nat, fs: seq<Fixup>, ps: seq<nat>)
    requires at + 2 <= end <= |m| && Known(Kind(m, at)) && Lists(m, at + 2, end, base, adjust, fs, ps)
    ensures Kind(m, at) == 0 ==> Lists(m, at, end, base, adjust, fs, ps)
    ensures Kind(m, at) != 0 ==>
      Lists(m, at, end, base, adjust,
            [Fixup(base + PageOffset(m, at), Width(Kind(m, at)), Addend(Kind(m, at), adjust))] + fs, [at] + ps)
    ensures KnownBefore(m, at, end, end) <==> KnownBefore(m, at + 2, end, end)
  {
    hide Kind, PageOffset, Width, Addend, KnownBefore, InList, Lists1;
    KnownMore(m, at, end, end);
    forall i | 0 <= i < |ps| ensures Lists1(m, at, end, base, adjust, fs[i], ps[i]) && ps[i] > at {
      Lists1More(m, at, end, base, adjust, fs[i], ps[i]);
    }
    forall p: nat | InList(at, end, p) && Kind(m, p) in {1, 2, 3, 10} && KnownBefore(m, at, end, p)
      ensures p == at || p in ps
    {
      InListStep(at, end, p);
      if p != at { InListLater(at, end, p); KnownMore(m, at, end, p); }
    }
    var f := Fixup(base + PageOffset(m, at), Width(Kind(m, at)), Addend(Kind(m, at), adjust));
    if Kind(m, at) != 0 {
      FirstListed(m, at, end, base, adjust, f);
      var fs1, ps1 := [f] + fs, [at] + ps;
      forall i | 0 <= i < |ps1| ensures Lists1(m, at, end, base, adjust, fs1[i], ps1[i]) {
        if i > 0 { assert fs1[i] == fs[i - 1] && ps1[i] == ps[i - 1]; }
      }
      assert at == ps1[0] && forall p :: p in ps ==> p in ps1;
    }
  }

  lemma InListLater(at: nat, end: nat, p: nat)
    requires InList(at + 2, end, p)
    ensures p >= at + 2
  {
  }

  lemma FirstListed(m: seq<uint8>, at: nat, end: nat, base: nat, adjust: nat, f: Fixup)
    requires at + 2 <= end <= |m| && Kind(m, at) in {1, 2, 3, 10}
    requires f == Fixup(base + PageOffset(m, at), Width(Kind(m, at)), Addend(Kind(m, at), adjust))
    ensures Lists1(m, at, end, base, adjust, f, at)
  {
  }

  lemma KnownMore(m: seq<uint8>, at: nat, end: nat, p: nat)
    requires at + 2 <= end <= |m| && at + 2 <= p && Known(Kind(m, at))
    ensures KnownBefore(m, at, end, p) <==> KnownBefore(m, at + 2, end, p)
  {
    hide Kind;
    if KnownBefore(m, at, end, p) {
      forall q: nat | q < p && InList(at + 2, end, q) ensures Known(Kind(m, q)) { assert InList(at, end, q); }
    }
    if KnownBefore(m, at + 2, end, p) {
      forall q: nat | q < p && InList(at, end, q) ensures Known(Kind(m, q)) { assert q != at ==> InList(at + 2, end, q); }
    }
  }

  // ---- the whole table

  function FixupOf(m: seq<uint8>, b: nat, p: nat, adjust: nat): Fixup
    requires b + 4 <= |m| && p + 2 <= |m|
  {
    Fixup(Target(m, b, p), Width(Kind(m, p)), Addend(Kind(m, p), adjust))
  }

  /** An entry of the table: its block and its place. */
  datatype Entry = Entry(b: nat, p: nat)

  /** Every fixup is that of an entry that is run, in order, and every such entry has one. */
  ghost predicate TableLists(m: seq<uint8>, off: nat, end: nat, adjust: nat, fs: seq<Fixup>, es: seq<Entry>)
    requires end <= |m| && Tiled(m, off, end)
  {
    && |es| == |fs|
    && (forall i :: 0 <= i < |es| ==> TableLists1(m, off, end, adjust, fs[i], es[i]))
    && (forall i, j :: 0 <= i < j < |es| ==> es[i].p < es[j].p)
    && (forall b: nat, p: nat :: Runs(m, off, end, b, p) ==> Entry(b, p) in es)
  }

  ghost predicate TableLists1(m: seq<uint8>, off: nat, end: nat, adjust: nat, f: Fixup, e: Entry)
    requires end <= |m| && Tiled(m, off, end)
  {
    Runs(m, off, end, e.b, e.p) && f == FixupOf(m, e.b, e.p, adjust)
  }

  /** The entries are those of the first block, and behind them those of the others. */
  lemma FirstBlock(m: seq<uint8>, off: nat, end: nat, b: nat, p: nat)
    requires off < end <= |m| && Tiled(m, off, end)
    ensures var next := off + WordAt(m, off + 4);
      && (EntryAt(m, off, end, b, p) <==> (b == off && InList(off + 8, next, p)) || EntryAt(m, next, end, b, p))
      && (EntryAt(m, next, end, b, p) ==> p >= next)
  {
    hide WordAt;
  }

  lemma ReachedFirst(m: seq<uint8>, off: nat, end: nat, p: nat)
    requires off < end <= |m| && Tiled(m, off, end)
    ensures var next := off + WordAt(m, off + 4);
      Reached(m, off, end, p) <==> if p <= next then KnownBefore(m, off + 8, next, p) else KnownBefore(m, off + 8, next, next) && Reached(m, next, end, p)
  {
    hide WordAt, Kind, EntryAt;
    var next := off + WordAt(m, off + 4);
    forall b: nat, q: nat ensures EntryAt(m, off, end, b, q) <==> (b == off && InList(off + 8, next, q)) || EntryAt(m, next, end, b, q)
      ensures EntryAt(m, next, end, b, q) ==> q >= next
    {
      FirstBlock(m, off, end, b, q);
    }
    if Reached(m, off, end, p) {
      forall q: nat | q < p && InList(off + 8, next, q) ensures Known(Kind(m, q)) { assert EntryAt(m, off, end, off, q); }
    }
  }

  /** A field of the first block is named by an entry of the table that is run. */
  lemma FirstRuns(m: seq<uint8>, off: nat, end: nat, adjust: nat, f: Fixup, p: nat)
    requires off < end <= |m| && Tiled(m, off, end)
    requires Lists1(m, off + 8, off + WordAt(m, off + 4), WordAt(m, off), adjust, f, p)
    ensures TableLists1(m, off, end, adjust, f, Entry(off, p)) && p < off + WordAt(m, off + 4)
  {
    hide Kind, PageOffset, Width, Addend, WordAt, KnownBefore;
    FirstBlock(m, off, end, off, p);
    ReachedFirst(m, off, end, p);
  }

  /** And so is a field of the other blocks, if the first has no unknown type. */
  lemma RestRuns(m: seq<uint8>, off: nat, end: nat, adjust: nat, f: Fixup, e: Entry)
    requires off < end <= |m| && Tiled(m, off, end)
    requires var next := off + WordAt(m, off + 4); KnownBefore(m, off + 8, next, next) && TableLists1(m, next, end, adjust, f, e)
    ensures TableLists1(m, off, end, adjust, f, e) && e.p > off + WordAt(m, off + 4)
  {
    hide Kind, PageOffset, Width, Addend, WordAt, KnownBefore;
    FirstBlock(m, off, end, e.b, e.p);
    ReachedFirst(m, off, end, e.p);
  }

  /** There are no others. */
  lemma RunsOnly(m: seq<uint8>, off: nat, end: nat, b: nat, p: nat)
    requires off < end <= |m| && Tiled(m, off, end) && Runs(m, off, end, b, p)
    ensures var next := off + WordAt(m, off + 4);
      || (b == off && InList(off + 8, next, p) && KnownBefore(m, off + 8, next, p))
      || (KnownBefore(m, off + 8, next, next) && Runs(m, next, end, b, p))
  {
    hide Kind, WordAt, KnownBefore, Reached, InList;
    FirstBlock(m, off, end, b, p);
    ReachedFirst(m, off, end, p);
    if EntryAt(m, off + WordAt(m, off + 4), end, b, p) { RestBehind(m, off, end, b, p); }
  }

  lemma RestBehind(m: seq<uint8>, off: nat, end: nat, b: nat, p: nat)
    requires off < end <= |m| && Tiled(m, off, end) && EntryAt(m, off + WordAt(m, off + 4), end, b, p)
    ensures p > off + WordAt(m, off + 4)
  {
  }

  /** The entries of the first block and, if it has no unknown type, those of the others. */
  lemma JoinEach(m: seq<uint8>, off: nat, end: nat, adjust: nat, fs: seq<Fixup>, ps: seq<nat>, gs: seq<Fixup>, es: seq<Entry>, all: seq<Entry>)
    requires off < end <= |m| && Tiled(m, off, end) && all == seq(|ps|, i requires 0 <= i < |ps| => Entry(off, ps[i])) + es
    requires var next := off + WordAt(m, off + 4); Lists(m, off + 8, next, WordAt(m, off), adjust, fs, ps)
    requires var next := off + WordAt(m, off + 4);
      if KnownBefore(m, off + 8, next, next) then TableLists(m, next, end, adjust, gs, es) else gs == [] && es == []
    ensures |all| == |fs + gs|
    ensures forall i :: 0 <= i < |all| ==> TableLists1(m, off, end, adjust, (fs + gs)[i], all[i])
    ensures forall i, j :: 0 <= i < j < |all| ==> all[i].p < all[j].p
  {
    hide KnownBefore, WordAt, Runs, Lists1, InList, TableLists1;
    var next := off + WordAt(m, off + 4);
    forall i | 0 <= i < |ps| ensures TableLists1(m, off, end, adjust, fs[i], Entry(off, ps[i])) && ps[i] < next {
      FirstRuns(m, off, end, adjust, fs[i], ps[i]);
    }
    forall i | 0 <= i < |es| ensures TableLists1(m, off, end, adjust, gs[i], es[i]) && es[i].p > next {
      RestRuns(m, off, end, adjust, gs[i], es[i]);
    }
  }

  lemma Join(m: seq<uint8>, off: nat, end: nat, adjust: nat, fs: seq<Fixup>, ps: seq<nat>, gs: seq<Fixup>, es: seq<Entry>)
    returns (all: seq<Entry>)
    requires off < end <= |m| && Tiled(m, off, end)
    requires var next := off + WordAt(m, off + 4); Lists(m, off + 8, next, WordAt(m, off), adjust, fs, ps)
    requires var next := off + WordAt(m, off + 4);
      if KnownBefore(m, off + 8, next, next) then TableLists(m, next, end, adjust, gs, es) else gs == [] && es == []
    ensures TableLists(m, off, end, adjust, fs + gs, all)
  {
    hide KnownBefore, WordAt, Runs, Lists1, InList, TableLists1;
    var next := off + WordAt(m, off + 4);
    all := seq(|ps|, i requires 0 <= i < |ps| => Entry(off, ps[i])) + es;
    JoinEach(m, off, end, adjust, fs, ps, gs, es, all);
    forall b: nat, p: nat | Runs(m, off, end, b, p) ensures Entry(b, p) in all {
      RunsOnly(m, off, end, b, p);
      if b == off && p in ps {
        var i :| 0 <= i < |ps| && ps[i] == p;
        assert all[i] == Entry(b, p);
      }
    }
  }

  lemma {:induction false} ListsTable(m: seq<uint8>, off: nat, end: nat, adjust: nat) returns (es: seq<Entry>)
    requires end <= |m| && Tiled(m, off, end)
    ensures TableLists(m, off, end, adjust, Table(m, off, end, adjust).0, es)
    ensures Table(m, off, end, adjust).1 <==> Reached(m, off, end, end)
    decreases end - off
  {
    hide Kind, Entries, Lists, KnownBefore, WordAt, EntryAt, Runs;
    es := [];
    if off == end {
      NoBlock(m, end);
    } else {
      TableStep(m, off, end, adjust);
      var next := off + WordAt(m, off + 4);
      var ps := ListsEntries(m, off + 8, next, WordAt(m, off), adjust);
      ReachedFirst(m, off, end, end);
      var gs := [];
      if KnownBefore(m, off + 8, next, next) {
        es := ListsTable(m, next, end, adjust);
        gs := Table(m, next, end, adjust).0;
      }
      es := Join(m, off, end, adjust, Entries(m, off + 8, next, WordAt(m, off), adjust).0, ps, gs, es);
    }
  }

  lemma NoBlock(m: seq<uint8>, end: nat)
    requires end <= |m|
    ensures Tiled(m, end, end) && forall b, p :: !EntryAt(m, end, end, b, p) && !Runs(m, end, end, b, p)
  {
  }

  // ---- what becomes of the image

  /** The byte k lies in the field that the entry at p of the block at b names. */
  predicate InTarget(m: seq<uint8>, b: nat, p: nat, k: nat)
    requires b + 4 <= |m| && p + 2 <= |m|
  {
    Target(m, b, p) <= k < Target(m, b, p) + Width(Kind(m, p))
  }

  /** The field is in the image, outside the table, and no wider than a machine word. */
  predicate FieldFits(m: seq<uint8>, off: nat, end: nat, u: nat, b: nat, p: nat)
    requires b + 4 <= |m| && p + 2 <= |m|
  {
    var t, w := Target(m, b, p), Width(Kind(m, p));
    t + w <= |m| && (t + w <= off || end <= t) && w <= u
  }

  predicate FieldsApart(m: seq<uint8>, b: nat, p: nat, c: nat, q: nat)
    requires b + 4 <= |m| && p + 2 <= |m| && c + 4 <= |m| && q + 2 <= |m|
  {
    Target(m, b, p) + Width(Kind(m, p)) <= Target(m, c, q) || Target(m, c, q) + Width(Kind(m, q)) <= Target(m, b, p)
  }

  /** What relocation takes for granted, on the bytes of the image. */
  ghost predicate Plain(m: seq<uint8>, off: nat, end: nat, u: nat)
    requires end <= |m| && Tiled(m, off, end)
  {
    && (forall b: nat, p: nat :: Runs(m, off, end, b, p) ==> FieldFits(m, off, end, u, b, p))
    && (forall b: nat, p: nat, c: nat, q: nat :: Runs(m, off, end, b, p) && Runs(m, off, end, c, q) && Entry(b, p) != Entry(c, q) ==>
          FieldsApart(m, b, p, c, q))
  }

  lemma PairApart(m: seq<uint8>, off: nat, end: nat, adjust: nat, f: Fixup, e: Entry, g: Fixup, d: Entry)
    requires end <= |m| && Tiled(m, off, end)
    requires TableLists1(m, off, end, adjust, f, e) && TableLists1(m, off, end, adjust, g, d)
    ensures Apart(f, g) <==> FieldsApart(m, e.b, e.p, d.b, d.p)
  {
    hide Runs, Kind, Target, Addend, Tiled, Width;
  }

  lemma ListedFits(m: seq<uint8>, off: nat, end: nat, adjust: nat, f: Fixup, e: Entry, u: nat)
    requires end <= |m| && Tiled(m, off, end) && TableLists1(m, off, end, adjust, f, e)
    ensures FieldFits(m, off, end, u, e.b, e.p)
      <==> Inside(f, |m|) && (f.at + f.width <= off || end <= f.at) && f.width in {2, 4, 8} && f.width <= u
  {
    hide Runs, Kind, Target, Addend, Tiled;
  }

  lemma PlainRelocates(m: seq<uint8>, off: nat, end: nat, adjust: nat, u: nat, fs: seq<Fixup>, es: seq<Entry>)
    requires end <= |m| && Tiled(m, off, end) && TableLists(m, off, end, adjust, fs, es) && Plain(m, off, end, u)
    ensures Clear(fs, |m|, off, end) && Widths(fs, u)
  {
    hide Runs, Kind, FieldFits, FieldsApart, Tiled;
    forall i | 0 <= i < |fs|
      ensures Inside(fs[i], |m|) && (fs[i].at + fs[i].width <= off || end <= fs[i].at) && fs[i].width in {2, 4, 8} && fs[i].width <= u
    {
      assert Runs(m, off, end, es[i].b, es[i].p);
      ListedFits(m, off, end, adjust, fs[i], es[i], u);
    }
    forall i, j | 0 <= i < j < |fs| ensures Apart(fs[i], fs[j]) {
      assert Runs(m, off, end, es[i].b, es[i].p) && Runs(m, off, end, es[j].b, es[j].p) && es[i].p < es[j].p;
      PairApart(m, off, end, adjust, fs[i], es[i], fs[j], es[j]);
    }
  }

  lemma RelocatesPlain(m: seq<uint8>, off: nat, end: nat, adjust: nat, u: nat, fs: seq<Fixup>, es: seq<Entry>)
    requires end <= |m| && Tiled(m, off, end) && TableLists(m, off, end, adjust, fs, es)
    requires Clear(fs, |m|, off, end) && Widths(fs, u)
    ensures Plain(m, off, end, u)
  {
    hide Runs, Kind, FieldFits, FieldsApart, Tiled, Apart, TableLists1;
    forall b: nat, p: nat | Runs(m, off, end, b, p) ensures FieldFits(m, off, end, u, b, p) {
      var i :| 0 <= i < |es| && es[i] == Entry(b, p);
      ListedFits(m, off, end, adjust, fs[i], es[i], u);
    }
    forall b: nat, p: nat, c: nat, q: nat | Runs(m, off, end, b, p) && Runs(m, off, end, c, q) && Entry(b, p) != Entry(c, q)
      ensures FieldsApart(m, b, p, c, q)
    {
      var i :| 0 <= i < |es| && es[i] == Entry(b, p);
      var j :| 0 <= j < |es| && es[j] == Entry(c, q);
      PairApart(m, off, end, adjust, fs[i], es[i], fs[j], es[j]);
      ApartSwap(fs[i], fs[j]);
    }
  }

  lemma ApartSwap(f: Fixup, g: Fixup)
    ensures Apart(f, g) <==> Apart(g, f)
  {
  }

  /** Relocation takes no more for granted than this. */
  lemma PlainExactly(m: seq<uint8>, off: nat, end: nat, adjust: nat, u: nat)
    requires end <= |m| && Tiled(m, off, end)
    ensures Relocatable(m, off, end, adjust, u) <==> Plain(m, off, end, u)
  {
    hide Runs, Table, Tiled, TableLists, Clear, Widths, Plain;
    var es := ListsTable(m, off, end, adjust);
    var fs := Table(m, off, end, adjust).0;
    if Plain(m, off, end, u) { PlainRelocates(m, off, end, adjust, u, fs, es); }
    if Relocatable(m, off, end, adjust, u) { RelocatesPlain(m, off, end, adjust, u, fs, es); }
  }

  /** A number of eight bytes. */
  function LongAt(m: seq<uint8>, off: nat): nat
    requires off + 8 <= |m|
  {
    WordAt(m, off) + 0x1_0000_0000 * WordAt(m, off + 4)
  }

  /** The field that the entry names holds the old number plus the adjustment, or a half of it, modulo the field's width. */
  predicate Adjusted(m: seq<uint8>, m1: seq<uint8>, b: nat, p: nat, adjust: nat)
    requires b + 4 <= |m| && p + 2 <= |m|
  {
    var t := WordAt(m, b) + m[p + 1] as int % 16 * 0x100 + m[p];
    match m[p + 1] / 16
    case 1 => t + 2 <= |m| == |m1| && HalfAt(m1, t) == (HalfAt(m, t) as int + adjust / 0x1_0000) % 0x1_0000
    case 2 => t + 2 <= |m| == |m1| && HalfAt(m1, t) == (HalfAt(m, t) as int + adjust) % 0x1_0000
    case 3 => t + 4 <= |m| == |m1| && WordAt(m1, t) == (WordAt(m, t) as int + adjust) % 0x1_0000_0000
    case 10 => t + 8 <= |m| == |m1| && LongAt(m1, t) == (LongAt(m, t) + adjust) % 0x1_0000_0000_0000_0000
    case _ => true
  }

  lemma Numbers(m: seq<uint8>, at: nat)
    ensures at + 2 <= |m| ==> FromBytes(m[at..at + 2]) == HalfAt(m, at)
    ensures at + 4 <= |m| ==> FromBytes(m[at..at + 4]) == WordAt(m, at)
    ensures at + 8 <= |m| ==> FromBytes(m[at..at + 8]) == LongAt(m, at)
  {
    if at + 2 <= |m| { TwoBytes(m[at..at + 2]); }
    if at + 4 <= |m| { FourBytes(m[at..at + 4]); }
    if at + 8 <= |m| {
      var b := m[at..at + 8];
      EightBytes(b);
      assert b[..4] == m[at..at + 4] && b[4..] == m[at + 4..at + 8];
    }
  }

  lemma TwoBytes(b: seq<uint8>)
    requires |b| == 2
    ensures FromBytes(b) == b[0] as int + 0x100 * b[1] as int
  {
    assert FromBytes(b[1..]) == b[1] as int + 0x100 * FromBytes(b[1..][1..]);
  }

  lemma FourBytes(b: seq<uint8>)
    requires |b| == 4
    ensures FromBytes(b) == Word32(b)
  {
    TwoBytes(b[2..]);
    assert b[1..][1..] == b[2..];
  }

  lemma EightBytes(b: seq<uint8>)
    requires |b| == 8
    ensures FromBytes(b) == Word32(b[..4]) + 0x1_0000_0000 * Word32(b[4..])
  {
    FourBytes(b[4..]);
    TwoBytes(b[..2]);
    assert b[1..][1..] == b[2..] && b[2..][1..] == b[3..] && b[3..][1..] == b[4..];
    assert FromBytes(b) == b[0] as int + 0x100 * FromBytes(b[1..]);
    assert FromBytes(b[1..]) == b[1] as int + 0x100 * FromBytes(b[2..]);
    assert FromBytes(b[2..]) == b[2] as int + 0x100 * FromBytes(b[3..]);
    assert FromBytes(b[3..]) == b[3] as int + 0x100 * FromBytes(b[4..]);
  }

  /** The number in a field after its fixup. */
  lemma NewNumber(m: seq<uint8>, f: Fixup)
    requires Inside(f, |m|)
    ensures FromBytes(NewField(m, f)) == (FromBytes(Field(m, f)) + f.addend) % Bound(f.width)
  {
    hide ToBytes, FromBytes, Bound;
    var v := FromBytes(Field(m, f)) + f.addend;
    var q := NumberOfBytes(v, f.width);
    BytesOfNumber(NewField(m, f));
    DivModUnique(v, Bound(f.width), q, FromBytes(NewField(m, f)));
  }

  /** The field of a listed fixup, once that was applied. */
  lemma ListedAdjusted(m: seq<uint8>, m1: seq<uint8>, off: nat, end: nat, adjust: nat, f: Fixup, e: Entry)
    requires end <= |m| == |m1| && Tiled(m, off, end) && TableLists1(m, off, end, adjust, f, e)
    requires Inside(f, |m|) && Field(m1, f) == NewField(m, f)
    ensures Adjusted(m, m1, e.b, e.p, adjust)
  {
    hide Runs, Tiled, HalfAt, LongAt, WordAt, Bound, NewField, FromBytes;
    Bounds();
    NewNumber(m, f);
    Numbers(m, f.at);
    Numbers(m1, f.at);
    var h := if f.at + 2 <= |m| then HalfAt(m, f.at) else 0;
    HalfOfWord(h, adjust);
    ModRight(h, adjust, 0x1_0000);
    if f.at + 4 <= |m| { ModRight(WordAt(m, f.at), adjust, 0x1_0000_0000); }
  }

  lemma HalfOfWord(h: nat, a: nat)
    ensures (h + a % 0x1_0000_0000 / 0x1_0000) % 0x1_0000 == (h + a / 0x1_0000) % 0x1_0000
  {
    var q, r := a / 0x1_0000_0000, a % 0x1_0000_0000;
    var x := r / 0x1_0000;
    DivModUnique(a, 0x1_0000, q * 0x1_0000 + x, r % 0x1_0000);
    DivModUnique(a / 0x1_0000, 0x1_0000, q, x);
    ModRight(h, a / 0x1_0000, 0x1_0000);
  }

  /** An entry of type 0 asks for nothing. */
  lemma SkipAdjusts(m: seq<uint8>, m1: seq<uint8>, off: nat, end: nat, b: nat, p: nat, adjust: nat)
    requires end <= |m| && Tiled(m, off, end) && EntryAt(m, off, end, b, p) && Reached(m, off, end, p)
    ensures Runs(m, off, end, b, p) || Adjusted(m, m1, b, p, adjust)
  {
    hide Reached, Tiled;
  }

  lemma KnownToTheEnd(m: seq<uint8>, off: nat, end: nat)
    requires end <= |m| && Tiled(m, off, end)
    ensures Reached(m, off, end, end) <==> forall b: nat, p: nat :: EntryAt(m, off, end, b, p) ==> m[p + 1] / 16 in {0, 1, 2, 3, 10}
  {
    hide Tiled, BlockAt;
    if Reached(m, off, end, end) {
      forall b: nat, p: nat | EntryAt(m, off, end, b, p) ensures m[p + 1] / 16 in {0, 1, 2, 3, 10} { assert Known(Kind(m, p)); }
    }
  }

  /**
   The whole relocation on the bytes of the image: every field that an entry names
   is adjusted, no other byte changes, and the table is run to its end exactly if
   all its types are known.
   */
  lemma RelocatedBytes(m: seq<uint8>, off: nat, end: nat, adjust: nat, u: nat)
    requires end <= |m| && Tiled(m, off, end) && Plain(m, off, end, u)
    ensures Relocatable(m, off, end, adjust, u)
    ensures var m1 := Relocated(m, off, end, adjust);
      && |m1| == |m|
      && (forall b: nat, p: nat :: EntryAt(m, off, end, b, p) && Reached(m, off, end, p) ==> Adjusted(m, m1, b, p, adjust))
      && (forall k :: 0 <= k < |m| && (forall b: nat, p: nat :: Runs(m, off, end, b, p) ==> !InTarget(m, b, p, k)) ==> m1[k] == m[k])
    ensures Table(m, off, end, adjust).1 <==>
      forall b: nat, p: nat :: EntryAt(m, off, end, b, p) ==> m[p + 1] / 16 in {0, 1, 2, 3, 10}
  {
    hide EntryAt, Reached, Target, Kind, Table, Tiled, Adjusted, Plain, Apply, NewField;
    PlainExactly(m, off, end, adjust, u);
    var es := ListsTable(m, off, end, adjust);
    var fs, m1 := Table(m, off, end, adjust).0, Relocated(m, off, end, adjust);
    ApplyPatches(m, fs);
    KnownToTheEnd(m, off, end);
    forall b: nat, p: nat | EntryAt(m, off, end, b, p) && Reached(m, off, end, p) ensures Adjusted(m, m1, b, p, adjust) {
      SkipAdjusts(m, m1, off, end, b, p, adjust);
      if Runs(m, off, end, b, p) {
        var i :| 0 <= i < |es| && es[i] == Entry(b, p);
        ListedAdjusted(m, m1, off, end, adjust, fs[i], es[i]);
      }
    }
    forall k | 0 <= k < |m| && forall b: nat, p: nat :: Runs(m, off, end, b, p) ==> !InTarget(m, b, p, k) ensures m1[k] == m[k] {
      forall i | 0 <= i < |fs| ensures !InField(k, fs[i]) { assert !InTarget(m, es[i].b, es[i].p, k); }
    }
  }

  /** Half the directory's size in words, rounded up to pages. */
  lemma LogPagesExactly(dirSize: nat, u: nat)
    ensures LogPages(dirSize, u) == (dirSize / 2 * u + 4095) / 4096
  {
    RoundUp(dirSize / 2 * u);
  }

  lemma RoundUp(n: nat)
    ensures (n + 4095) / 4096 == n / 4096 + if n % 4096 != 0 then 1 else 0
  {
  }

  /** The loader's routine, on the bytes of the image and of the table in it. */
  method RelocateImage(image: array<uint8>, off: nat, dirSize: nat, adjust: nat, u: nat, log: array?<uint8>) returns (status: Status)
    requires log != null ==> log != image && log.Length == (dirSize / 2 * u + 4095) / 4096 * 4096
    requires u in {4, 8}
    requires off + dirSize < image.Length ==>
      Tiled(image[..], off, off + dirSize) && Plain(image[..], off, off + dirSize, u)
    modifies image, log
    ensures status == LoadError <==> off + dirSize >= image.Length
    ensures status == OutOfResources <==> off + dirSize < image.Length && log == null
    ensures off + dirSize < image.Length && log != null ==>
      var m, end := old(image[..]), off + dirSize;
      && (status == Success <==> forall b: nat, p: nat :: EntryAt(m, off, end, b, p) ==> m[p + 1] / 16 in {0, 1, 2, 3, 10})
      && (forall b: nat, p: nat :: EntryAt(m, off, end, b, p) && Reached(m, off, end, p) ==> Adjusted(m, image[..], b, p, adjust))
      && (forall k :: 0 <= k < |m| && (forall b: nat, p: nat :: Runs(m, off, end, b, p) ==> !InTarget(m, b, p, k)) ==> image[k] == m[k])
    ensures status in {LoadError, OutOfResources} ==> image[..] == old(image[..])
  {
    hide EntryAt, Reached, Target, Kind, Table, Tiled, Adjusted, Plain, Relocated, Relocatable, Runs, LogPages, Clear;
    ghost var m := image[..];
    LogPagesExactly(dirSize, u);
    if off + dirSize < image.Length {
      RelocatedBytes(m, off, off + dirSize, adjust, u);
    }
    status := Relocate(image, off, dirSize, adjust, u, log);
  }

  // ---- the log

  /** The next field goes behind the one before, aligned to its width if that is 4 or 8. */
  predicate NextPlace(from: nat, w: nat, at: nat)
  {
    from <= at && if w in {4, 8} then at % w == 0 && at < from + w else at == from
  }

  /** The log holds the fields as they are in the image afterwards, in order, each at the next place. */
  lemma LogBytes(log: seq<uint8>, m: seq<uint8>, fs: seq<Fixup>) returns (at: seq<nat>)
    requires Sound(fs, |m|) && Logged(log, m, fs)
    ensures |at| == |fs|
    ensures forall i :: 0 <= i < |fs| ==> LoggedAt(log, at[i], Field(Apply(m, fs), fs[i]))
    ensures forall i :: 0 <= i < |fs| ==> NextPlace(if i == 0 then 0 else at[i - 1] + fs[i - 1].width, fs[i].width, at[i])
  {
    hide NewField, Apply, LogStart, LogEnd;
    ApplyPatches(m, fs);
    at := seq(|fs|, i requires 0 <= i < |fs| => LogStart(fs[..i + 1]));
    forall i | 0 <= i < |fs| ensures NextPlace(if i == 0 then 0 else at[i - 1] + fs[i - 1].width, fs[i].width, at[i]) {
      NextLogged(fs, i);
    }
  }

  lemma NextLogged(fs: seq<Fixup>, i: nat)
    requires i < |fs|
    ensures NextPlace(if i == 0 then 0 else LogStart(fs[..i]) + fs[i - 1].width, fs[i].width, LogStart(fs[..i + 1]))
  {
    var before := fs[..i];
    assert fs[..i + 1] == before + [fs[i]];
    LogNext(before, fs[i]);
  }
}
