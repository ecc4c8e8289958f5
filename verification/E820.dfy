/**
 From the BIOS memory map to the loader's: memory is rounded inwards to whole
 pages, everything else outwards, and memory above the lowest hole is given up.
 */
module E820 {
  import opened Words
  import opened MemoryMap

  const WRITE_BACK := 8
  const UNCACHED := 1

  datatype Entry = Entry(base: uint64, length: uint64, kind: nat)

  predicate IsMemory(e: Entry)
  {
    e.kind == 1
  }

  function KindOf(e: Entry): nat
  {
    match e.kind
    case 1 => CONVENTIONAL
    case 2 => RESERVED
    case 3 => ACPI_RECLAIM
    case 4 => ACPI_NVS
    case _ => RESERVED
  }

  function AttributeOf(e: Entry): uint64
  {
    if e.kind == 1 || e.kind == 3 then WRITE_BACK else UNCACHED
  }

  /** The descriptor for an entry, in the loader's 64-bit arithmetic. */
  function Rounded(e: Entry): Descriptor
  {
    var low := e.base % PAGE;
    if IsMemory(e) then
      if low != 0 then
        Descriptor(KindOf(e), ((e.base / PAGE + 1) * PAGE) % TWO64, ((e.length + low - PAGE) % TWO64) / PAGE, AttributeOf(e))
      else Descriptor(KindOf(e), e.base, e.length / PAGE, AttributeOf(e))
    else
      var length := (e.length + low) % TWO64;
      var whole := if length % PAGE != 0 then ((length / PAGE + 1) * PAGE) % TWO64 else length;
      Descriptor(KindOf(e), e.base / PAGE * PAGE, whole / PAGE, AttributeOf(e))
  }

  /** Nonempty, within the address space; unaligned memory reaches the next page boundary. */
  predicate Sane(e: Entry)
  {
    && e.length > 0 && e.base + e.length <= TWO64
    && (IsMemory(e) && e.base % PAGE != 0 ==> e.base % PAGE + e.length >= PAGE)
  }

  predicate SaneMap(entries: seq<Entry>)
  {
    && (forall i :: 0 <= i < |entries| ==> Sane(entries[i]))
    && (forall i, j :: 0 <= i < |entries| && 0 <= j < |entries| && i != j ==> Separate(entries[i], entries[j]))
  }

  predicate Separate(a: Entry, b: Entry)
  {
    a.base + a.length <= b.base || b.base + b.length <= a.base
  }

  /** Every byte of every page of d belongs to the entry. */
  predicate Within(d: Descriptor, e: Entry)
  {
    d.pages > 0 ==> e.base <= d.start && d.start + d.pages * PAGE <= e.base + e.length
  }

  /** Every page of d has a byte of the entry. */
  predicate Touches(d: Descriptor, e: Entry)
  {
    d.pages > 0 ==> d.start + PAGE > e.base && d.start + (d.pages - 1) * PAGE < e.base + e.length
  }

  lemma MemoryRounding(e: Entry)
    requires Sane(e) && IsMemory(e)
    ensures Aligned(Rounded(e)) && Within(Rounded(e), e)
  {
  }

  lemma OtherRounding(e: Entry)
    requires Sane(e) && !IsMemory(e)
    ensures Aligned(Rounded(e)) && Touches(Rounded(e), e)
  {
  }

  /** A whole page among length bytes from page q on is one of the length / PAGE first. */
  lemma PagesIn(q: nat, length: nat, p: nat)
    requires q <= p && (p + 1) * PAGE <= q * PAGE + length
    ensures p < q + length / PAGE
  {
  }

  lemma BytePage(q: nat, n: nat, b: nat)
    requires q * PAGE <= b < (q + n) * PAGE
    ensures q <= b / PAGE < q + n
  {
  }

  /** No whole page of memory is given away. */
  lemma MemoryComplete(e: Entry, p: nat)
    requires Sane(e) && IsMemory(e) && e.base <= p * PAGE && (p + 1) * PAGE <= e.base + e.length
    ensures Covers(Rounded(e), p)
  {
    var q, low := e.base / PAGE, e.base % PAGE;
    assert e.base == q * PAGE + low;
    if low == 0 {
      PagesIn(q, e.length, p);
    } else {
      assert e.length + low - PAGE >= 0 && (q + 1) * PAGE < TWO64;
      ModSmall(e.length + low - PAGE, TWO64);
      ModSmall((q + 1) * PAGE, TWO64);
      PagesIn(q + 1, e.length + low - PAGE, p);
    }
  }

  /** No byte of another entry is left uncovered, but for an entry that touches the first and the last page of all. */
  lemma OtherComplete(e: Entry, b: nat)
    requires Sane(e) && !IsMemory(e) && e.base <= b < e.base + e.length
    requires !(e.base < PAGE && e.base + e.length > TWO64 - PAGE)
    ensures Covers(Rounded(e), b / PAGE)
  {
    var q, low := e.base / PAGE, e.base % PAGE;
    assert e.base == q * PAGE + low;
    var length := e.length + low;
    ModSmall(length, TWO64);
    var n := if length % PAGE != 0 then length / PAGE + 1 else length / PAGE;
    assert n * PAGE < TWO64 && n * PAGE >= length;
    ModSmall(n * PAGE, TWO64);
    BytePage(q, n, b);
  }

  lemma RoundedAligned(e: Entry)
    requires Sane(e)
    ensures Aligned(Rounded(e))
  {
    if IsMemory(e) { MemoryRounding(e); } else { OtherRounding(e); }
  }

  /** An unaligned memory entry that ends before the next page boundary makes a descriptor of almost all addresses. */
  lemma ShortEntryExplodes(e: Entry)
    requires IsMemory(e) && e.length > 0 && e.base % PAGE != 0 && e.base % PAGE + e.length < PAGE
    ensures Rounded(e).pages == TWO64 / PAGE - 1
  {
  }

  /** Memory rounded inwards and another entry rounded either way share no page. */
  lemma RoundedApart(a: Entry, b: Entry)
    requires Sane(a) && Sane(b) && Separate(a, b) && IsMemory(a)
    ensures Apart(Rounded(a), Rounded(b)) && Apart(Rounded(b), Rounded(a))
  {
    hide Rounded;
    var x, y := Rounded(a), Rounded(b);
    MemoryRounding(a);
    if IsMemory(b) { MemoryRounding(b); } else { OtherRounding(b); }
    if x.pages > 0 && y.pages > 0 { PagesApart(a, b, x, y); }
  }

  lemma PagesApart(a: Entry, b: Entry, x: Descriptor, y: Descriptor)
    requires Aligned(x) && Aligned(y) && x.pages > 0 && y.pages > 0 && Separate(a, b)
    requires Within(x, a) && (Within(y, b) || Touches(y, b))
    ensures Apart(x, y) && Apart(y, x)
  {
  }

  // ---- the map

  /** The map after the first n entries. */
  function MapOf(entries: seq<Entry>, n: nat): seq<Descriptor>
    requires n <= |entries| && SaneMap(entries)
  {
    if n == 0 then []
    else
      RoundedAligned(entries[n - 1]);
      Add(MapOf(entries, n - 1), Rounded(entries[n - 1]))
  }

  /** The rounded entries, those without a page left out. */
  function Listed(entries: seq<Entry>, n: nat): seq<Descriptor>
    requires n <= |entries|
  {
    if n == 0 then []
    else Listed(entries, n - 1) + if Rounded(entries[n - 1]).pages == 0 then [] else [Rounded(entries[n - 1])]
  }

  /** Every descriptor stems from an entry of its own. */
  ghost predicate Stems(m: seq<Descriptor>, entries: seq<Entry>, n: nat, from: seq<nat>)
  {
    && n <= |entries| && |from| == |m|
    && (forall i :: 0 <= i < |m| ==> from[i] < n && m[i] == Rounded(entries[from[i]]))
    && (forall i, j :: 0 <= i < j < |m| ==> from[i] < from[j])
  }

  lemma NothingStems(entries: seq<Entry>)
    ensures Stems([], entries, 0, [])
  {
  }

  /** The next entry is left out, or stems from an index above all others. */
  lemma StemsMore(m: seq<Descriptor>, entries: seq<Entry>, n: nat, from: seq<nat>)
    requires 0 < n <= |entries| && Stems(m, entries, n - 1, from)
    ensures Stems(m, entries, n, from) && Stems(m + [Rounded(entries[n - 1])], entries, n, from + [n - 1])
  {
    hide Rounded;
    var m1, from1 := m + [Rounded(entries[n - 1])], from + [n - 1];
    forall i | 0 <= i < |m1| ensures from1[i] < n && m1[i] == Rounded(entries[from1[i]]) {
      if i < |m| { assert m1[i] == m[i] && from1[i] == from[i]; }
    }
    forall i, j | 0 <= i < j < |m1| ensures from1[i] < from1[j] {
      assert from1[i] == from[i];
      if j < |m| { assert from1[j] == from[j]; }
    }
  }

  lemma {:induction false} ListedStems(entries: seq<Entry>, n: nat) returns (from: seq<nat>)
    requires n <= |entries|
    ensures Stems(Listed(entries, n), entries, n, from)
  {
    hide Rounded, Stems;
    if n == 0 {
      from := [];
      NothingStems(entries);
    } else {
      var before := ListedStems(entries, n - 1);
      var d := Rounded(entries[n - 1]);
      StemsMore(Listed(entries, n - 1), entries, n, before);
      if d.pages == 0 {
        from := before;
        assert Listed(entries, n) == Listed(entries, n - 1);
      } else {
        from := before + [n - 1];
      }
    }
  }

  /** Nothing is ever carved: the map lists the rounded entries. */
  lemma {:induction false} NothingCarved(entries: seq<Entry>, n: nat)
    requires n <= |entries| && SaneMap(entries)
    ensures MapOf(entries, n) == Listed(entries, n)
  {
    hide Rounded, CarveAt;
    if n > 0 {
      NothingCarved(entries, n - 1);
      var m, e := Listed(entries, n - 1), entries[n - 1];
      RoundedAligned(e);
      if Rounded(e).pages > 0 {
        var from := ListedStems(entries, n - 1);
        forall i | 0 <= i < |m| ensures Aligned(m[i]) && !Inside(Rounded(e), m[i]) {
          var a := entries[from[i]];
          RoundedAligned(a);
          assert Separate(a, e);
          NotInside(a, e);
        }
        CarveOutside(m, 0, |m|, Rounded(e));
      }
    }
  }

  lemma NotInside(a: Entry, e: Entry)
    requires Sane(a) && Sane(e) && Separate(a, e) && Rounded(e).pages > 0
    ensures !Inside(Rounded(e), Rounded(a))
  {
    if IsMemory(a) {
      RoundedApart(a, e);
    }
  }

  /** The lowest base of a rounded entry that is not memory, between 1 MB and 4 GB. */
  function CeilingOf(entries: seq<Entry>, n: nat): uint64
    requires n <= |entries|
  {
    if n == 0 then 0xffff_ffff
    else
      var c := CeilingOf(entries, n - 1);
      var base := Rounded(entries[n - 1]).start;
      if !IsMemory(entries[n - 1]) && ONE_MB <= base < FOUR_GB && c > base then base else c
  }

  lemma {:induction false} CeilingBelow(entries: seq<Entry>, n: nat, i: nat)
    requires i < n <= |entries|
    ensures !IsMemory(entries[i]) && ONE_MB <= Rounded(entries[i]).start < FOUR_GB ==> CeilingOf(entries, n) <= Rounded(entries[i]).start
  {
    hide Rounded;
    if i < n - 1 { CeilingBelow(entries, n - 1, i); }
  }

  /** Give up memory above the ceiling. */
  function Capped(d: Descriptor, ceiling: uint64): Descriptor
  {
    if d.kind == CONVENTIONAL && ONE_MB < d.start < FOUR_GB && d.start >= ceiling then d.(kind := RESERVED) else d
  }

  function GenMap(entries: seq<Entry>): (m: seq<Descriptor>)
    requires SaneMap(entries)
    ensures |m| == |MapOf(entries, |entries|)|
  {
    var m := MapOf(entries, |entries|);
    var c := CeilingOf(entries, |entries|);
    seq(|m|, i requires 0 <= i < |m| => Capped(m[i], c))
  }

  /** What the finished map promises about conventional memory. */
  lemma GenMapLaw(entries: seq<Entry>)
    requires SaneMap(entries)
    ensures var m := GenMap(entries);
      && (forall i :: 0 <= i < |m| && m[i].kind == CONVENTIONAL ==> FromMemory(entries, m[i]))
      && (forall i, j :: 0 <= i < j < |m| && (m[i].kind == CONVENTIONAL || m[j].kind == CONVENTIONAL) ==> Apart(m[i], m[j]))
      && (forall i, k :: 0 <= i < |m| && 0 <= k < |entries| ==> BelowHole(m[i], entries[k]))
  {
    hide Rounded;
    var n, m := |entries|, GenMap(entries);
    NothingCarved(entries, n);
    var from := ListedStems(entries, n);
    forall i | 0 <= i < |m| && m[i].kind == CONVENTIONAL ensures FromMemory(entries, m[i]) {
      KindRounded(entries[from[i]]);
      MemoryRounding(entries[from[i]]);
    }
    forall i, j | 0 <= i < j < |m| && (m[i].kind == CONVENTIONAL || m[j].kind == CONVENTIONAL) ensures Apart(m[i], m[j]) {
      var a, b := entries[from[i]], entries[from[j]];
      KindRounded(a);
      KindRounded(b);
      assert Separate(a, b) && Separate(b, a);
      if IsMemory(a) { RoundedApart(a, b); } else { RoundedApart(b, a); }
    }
    forall i, k | 0 <= i < |m| && 0 <= k < n ensures BelowHole(m[i], entries[k]) {
      CeilingBelow(entries, n, k);
    }
  }

  lemma KindRounded(e: Entry)
    ensures Rounded(e).kind == KindOf(e) && (KindOf(e) == CONVENTIONAL <==> IsMemory(e))
  {
  }

  /** All of d's memory lies in one memory entry. */
  ghost predicate FromMemory(entries: seq<Entry>, d: Descriptor)
  {
    exists k :: 0 <= k < |entries| && IsMemory(entries[k]) && Aligned(d) && Within(d, entries[k])
  }

  /** Conventional memory that starts between 1 MB and 4 GB starts below the hole e, if that is there. */
  predicate BelowHole(d: Descriptor, e: Entry)
  {
    && d.kind == CONVENTIONAL && ONE_MB < d.start < FOUR_GB
    && !IsMemory(e) && ONE_MB <= Rounded(e).start < FOUR_GB
    ==> d.start < Rounded(e).start
  }

  // ---- allocating from the map

  lemma GenMapSeparated(entries: seq<Entry>)
    requires SaneMap(entries)
    ensures Separated(GenMap(entries))
  {
    hide Rounded, Apart, FromMemory, BelowHole;
    var n, m := |entries|, GenMap(entries);
    GenMapLaw(entries);
    NothingCarved(entries, n);
    var from := ListedStems(entries, n);
    forall i | 0 <= i < |m| ensures Aligned(m[i]) { RoundedAligned(entries[from[i]]); }
  }

  /** The region lies in one memory entry, byte by byte. */
  predicate FromEntry(entries: seq<Entry>, r: Descriptor)
  {
    exists k :: 0 <= k < |entries| && IsMemory(entries[k]) && Within(r, entries[k])
  }

  lemma RegionFromEntry(entries: seq<Entry>, r: Descriptor)
    requires SaneMap(entries) && InOne(GenMap(entries), r) && Aligned(r) && r.pages > 0
    ensures FromEntry(entries, r)
  {
    hide Rounded, Apart, BelowHole, GenMap, SaneMap;
    GenMapLaw(entries);
    var m := GenMap(entries);
    var i :| 0 <= i < |m| && Inside(r, m[i]);
    assert FromMemory(entries, m[i]);
    var k :| 0 <= k < |entries| && IsMemory(entries[k]) && Aligned(m[i]) && Within(m[i], entries[k]);
    PartWithin(r, m[i], entries[k]);
  }

  lemma PartWithin(r: Descriptor, d: Descriptor, e: Entry)
    requires Aligned(r) && Aligned(d) && Inside(r, d) && r.pages > 0 && Within(d, e)
    ensures Within(r, e)
  {
  }

  /**
   From the BIOS map to the allocator: every region that a run of FindSpace gives
   out lies in one memory entry and below 4 GB, and the regions are pairwise apart.
   */
  lemma AllocationsLaw(entries: seq<Entry>, orders: seq<Order>)
    requires SaneMap(entries) && forall i :: 0 <= i < |orders| ==> Proper(orders[i])
    ensures
      var rs := Regions(GenMap(entries), orders);
      && (forall i :: 0 <= i < |rs| ==> rs[i].pages > 0 && Low4(rs[i]) && FromEntry(entries, rs[i]))
      && (forall i, j :: 0 <= i < j < |rs| ==> Apart(rs[i], rs[j]))
  {
    hide Separated, GenMap, Regions, Apart, FromEntry, InOne, SaneMap;
    var m := GenMap(entries);
    GenMapSeparated(entries);
    RunLaw(m, orders);
    var rs := Regions(m, orders);
    forall i | 0 <= i < |rs| ensures FromEntry(entries, rs[i]) { RegionFromEntry(entries, rs[i]); }
  }

  /** Two entries that are not memory may share a page, so the whole map need not be disjoint. */
  lemma SharedPage()
    ensures
      var entries := [Entry(0x10_0000, 0x400, 3), Entry(0x10_0400, 0x400, 4)];
      SaneMap(entries) && !Disjoint(GenMap(entries))
  {
    var entries := [Entry(0x10_0000, 0x400, 3), Entry(0x10_0400, 0x400, 4)];
    var a, b := Rounded(entries[0]), Rounded(entries[1]);
    assert SaneMap(entries);
    assert First(a) == First(b) == 0x100 && a.pages == b.pages == 1;
    NothingCarved(entries, 2);
    assert Listed(entries, 1) == [a];
    assert Listed(entries, 2) == [a, b];
    var m := GenMap(entries);
    assert m[0].start == a.start && m[0].pages == 1 && m[1].start == b.start && m[1].pages == 1;
  }
}
