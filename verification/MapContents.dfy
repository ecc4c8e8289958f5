/**
 What the loader's memory map holds and what its allocator finds there, in plain
 numbers. Line numbers are those of DuetPkg/EfiLdr/Support.c.
 */
module MapContents {
  import opened Words
  import opened Bytes
  import opened MemoryMap
  import opened E820

  // ---- the map, entry by entry

  /** Memory that starts at s is given up: it starts between 1 MB and 4 GB, and not below another entry there. */
  predicate GivenUp(entries: seq<Entry>, s: int)
  {
    0x10_0000 < s < 0x1_0000_0000 && exists j :: 0 <= j < |entries| && CapsAt(entries[j], s)
  }

  predicate CapsAt(e: Entry, s: int)
  {
    e.kind != 1 && 0x10_0000 <= e.base / 4096 * 4096 < 0x1_0000_0000 && e.base / 4096 * 4096 <= s
  }

  /** The whole pages of memory; those that others touch. */
  function FirstPage(e: Entry): nat
  {
    if e.kind == 1 then (e.base + 4095) / 4096 else e.base / 4096
  }

  function EndPage(e: Entry): nat
  {
    if e.kind == 1 then (e.base + e.length) / 4096 else (e.base + e.length + 4095) / 4096
  }

  /** Neither empty, nor from the first to the last page of the address space. */
  predicate HasPages(e: Entry)
  {
    FirstPage(e) < EndPage(e) && EndPage(e) - FirstPage(e) < 0x10_0000_0000_0000
  }

  /** The descriptor that an entry stands for. */
  predicate Stands(entries: seq<Entry>, e: Entry, d: Descriptor)
  {
    && d.start == FirstPage(e) * 4096 && d.pages == EndPage(e) - FirstPage(e)
    && match e.kind
       case 1 => d.attribute == 8 && d.kind == if GivenUp(entries, d.start) then 0 else 7
       case 3 => d.attribute == 8 && d.kind == 9
       case 4 => d.attribute == 1 && d.kind == 10
       case _ => d.attribute == 1 && d.kind == 0
  }

  lemma RoundedMemory(e: Entry)
    requires Sane(e) && e.kind == 1
    ensures var r, n := Rounded(e), EndPage(e) - FirstPage(e);
      n >= 0 && r.pages == n && (n > 0 ==> r == Descriptor(7, FirstPage(e) * 4096, n, 8))
  {
    var q, low := e.base / PAGE, e.base % PAGE;
    assert e.base == q * PAGE + low;
    if low == 0 {
      PageSum(q, e.length);
    } else {
      var rest := e.length + low - PAGE;
      PageSum(q + 1, rest);
      ModSmall(rest, TWO64);
      if rest >= PAGE { ModSmall((q + 1) * PAGE, TWO64); }
    }
  }

  lemma PageSum(q: int, n: int)
    ensures (q * PAGE + n) / PAGE == q + n / PAGE
  {
  }

  lemma RoundedOther(e: Entry)
    requires Sane(e) && e.kind != 1
    ensures var r, n := Rounded(e), EndPage(e) - FirstPage(e);
      && 0 < n <= 0x10_0000_0000_0000
      && r.pages == (if n < 0x10_0000_0000_0000 then n else 0)
      && r.start == FirstPage(e) * 4096
      && r.kind == (if e.kind == 3 then 9 else if e.kind == 4 then 10 else 0) && r.attribute == if e.kind == 3 then 8 else 1
  {
    var q, low := e.base / PAGE, e.base % PAGE;
    assert e.base == q * PAGE + low;
    var length := e.length + low;
    PageSum(q, length + 4095);
    var n := (length + 4095) / PAGE;
    assert EndPage(e) == q + n;
    assert length % PAGE != 0 ==> n == length / PAGE + 1;
    assert length % PAGE == 0 ==> n == length / PAGE;
    assert 0 < n <= 0x10_0000_0000_0000;
    if n < 0x10_0000_0000_0000 {
      ModSmall(length, TWO64);
      ModSmall(n * PAGE, TWO64);
    } else {
      if length == TWO64 { DivModUnique(length, TWO64, 1, 0); } else { ModSmall(length, TWO64); }
    }
  }

  lemma {:induction false} CeilingExactly(entries: seq<Entry>, n: nat, s: nat)
    requires n <= |entries| && s % PAGE == 0 && s < FOUR_GB && forall j :: 0 <= j < n ==> Sane(entries[j])
    ensures s >= CeilingOf(entries, n) <==> exists j :: 0 <= j < n && CapsAt(entries[j], s)
  {
    hide Rounded, CapsAt;
    if n > 0 {
      CeilingExactly(entries, n - 1, s);
      CapsExactly(entries[n - 1], s);
    } else {
      NoMultiple(s);
    }
  }

  lemma NoMultiple(s: nat)
    requires s % PAGE == 0 && s < FOUR_GB
    ensures s < 0xffff_ffff
  {
  }

  lemma CapsExactly(e: Entry, s: nat)
    requires Sane(e)
    ensures CapsAt(e, s) <==> !IsMemory(e) && ONE_MB <= Rounded(e).start < FOUR_GB && Rounded(e).start <= s
  {
    hide Rounded;
    if e.kind != 1 { RoundedOther(e); }
  }

  /** An entry with pages has a descriptor, which is the one it stands for, and no other entry has. */
  lemma CappedStands(entries: seq<Entry>, k: nat)
    requires SaneMap(entries) && k < |entries|
    ensures HasPages(entries[k]) <==> Rounded(entries[k]).pages > 0
    ensures HasPages(entries[k]) ==> Stands(entries, entries[k], Capped(Rounded(entries[k]), CeilingOf(entries, |entries|)))
  {
    hide Rounded, CapsAt, CeilingOf;
    var e := entries[k];
    assert Sane(e);
    if e.kind == 1 {
      RoundedMemory(e);
      if HasPages(e) {
        var s := FirstPage(e) * 4096;
        if s < FOUR_GB { CeilingExactly(entries, |entries|, s); }
      }
    } else {
      RoundedOther(e);
    }
  }

  lemma {:induction false} ListedAll(entries: seq<Entry>, n: nat, k: nat)
    requires k < n <= |entries| && Rounded(entries[k]).pages > 0
    ensures Rounded(entries[k]) in Listed(entries, n)
  {
    hide Rounded;
    var l, d := Listed(entries, n - 1), Rounded(entries[n - 1]);
    if k < n - 1 {
      ListedAll(entries, n - 1, k);
    } else {
      assert (l + [d])[|l|] == d;
    }
  }

  /** The map has a descriptor for the entry. */
  predicate InMap(m: seq<Descriptor>, entries: seq<Entry>, e: Entry)
  {
    exists i :: 0 <= i < |m| && Stands(entries, e, m[i])
  }

  /** The descriptor is there for some entry with pages. */
  predicate FromEntries(entries: seq<Entry>, d: Descriptor)
  {
    exists k :: 0 <= k < |entries| && HasPages(entries[k]) && Stands(entries, entries[k], d)
  }

  /** The finished map holds what the entries with pages stand for, and nothing else. */
  lemma GenMapExactly(entries: seq<Entry>)
    requires SaneMap(entries)
    ensures var m := GenMap(entries);
      && (forall k :: 0 <= k < |entries| && HasPages(entries[k]) ==> InMap(m, entries, entries[k]))
      && (forall i :: 0 <= i < |m| ==> FromEntries(entries, m[i]))
  {
    hide Rounded, Capped, CeilingOf, Stands, HasPages, SaneMap, InMap, FromEntries;
    var n, m := |entries|, GenMap(entries);
    NothingCarved(entries, n);
    var l := Listed(entries, n);
    var from := ListedStems(entries, n);
    forall k | 0 <= k < n && HasPages(entries[k]) ensures InMap(m, entries, entries[k]) {
      CappedStands(entries, k);
      ListedAll(entries, n, k);
      var i :| 0 <= i < |l| && l[i] == Rounded(entries[k]);
      IsInMap(m, entries, entries[k], i);
    }
    forall i | 0 <= i < |m| ensures FromEntries(entries, m[i]) {
      CappedStands(entries, from[i]);
      ListedNonempty(entries, n, i);
      IsFromEntry(entries, m[i], from[i]);
    }
  }

  lemma IsInMap(m: seq<Descriptor>, entries: seq<Entry>, e: Entry, i: nat)
    requires i < |m| && Stands(entries, e, m[i])
    ensures InMap(m, entries, e)
  {
    hide Stands;
  }

  lemma IsFromEntry(entries: seq<Entry>, d: Descriptor, k: nat)
    requires k < |entries| && HasPages(entries[k]) && Stands(entries, entries[k], d)
    ensures FromEntries(entries, d)
  {
    hide Stands, HasPages;
  }

  lemma {:induction false} ListedNonempty(entries: seq<Entry>, n: nat, i: nat)
    requires n <= |entries| && i < |Listed(entries, n)|
    ensures Listed(entries, n)[i].pages > 0
  {
    hide Rounded;
    if i < |Listed(entries, n - 1)| { ListedNonempty(entries, n - 1, i); }
  }

  /** The page is a whole page of memory that is kept. */
  predicate KeptPage(entries: seq<Entry>, e: Entry, p: nat)
  {
    e.kind == 1 && FirstPage(e) <= p < EndPage(e) && !GivenUp(entries, FirstPage(e) * 4096)
  }

  predicate ConventionalAt(d: Descriptor, p: nat)
  {
    d.kind == 7 && d.start <= p * 4096 < d.start + d.pages * 4096
  }

  /** A page is conventional in the finished map exactly if it is a whole page of memory that is not given up. */
  lemma KeptExactly(entries: seq<Entry>, p: nat)
    requires SaneMap(entries)
    ensures
      (exists i :: 0 <= i < |GenMap(entries)| && ConventionalAt(GenMap(entries)[i], p))
      <==> exists k :: 0 <= k < |entries| && KeptPage(entries, entries[k], p)
  {
    hide GenMap, SaneMap, HasPages, Stands, KeptPage, ConventionalAt, InMap, FromEntries;
    var m := GenMap(entries);
    GenMapExactly(entries);
    if i :| 0 <= i < |m| && ConventionalAt(m[i], p) {
      var k := EntryOf(entries, m[i]);
      StandsFor(entries, entries[k], m[i], p);
    }
    if k :| 0 <= k < |entries| && KeptPage(entries, entries[k], p) {
      FewPages(entries, k, p);
      var i := PlaceOf(m, entries, entries[k]);
      StandsFor(entries, entries[k], m[i], p);
    }
  }

  lemma EntryOf(entries: seq<Entry>, d: Descriptor) returns (k: nat)
    requires FromEntries(entries, d)
    ensures k < |entries| && HasPages(entries[k]) && Stands(entries, entries[k], d)
  {
    hide HasPages, Stands;
    k :| 0 <= k < |entries| && HasPages(entries[k]) && Stands(entries, entries[k], d);
  }

  lemma PlaceOf(m: seq<Descriptor>, entries: seq<Entry>, e: Entry) returns (i: nat)
    requires InMap(m, entries, e)
    ensures i < |m| && Stands(entries, e, m[i])
  {
    hide Stands;
    i :| 0 <= i < |m| && Stands(entries, e, m[i]);
  }

  lemma StandsFor(entries: seq<Entry>, e: Entry, d: Descriptor, p: nat)
    requires HasPages(e) && Stands(entries, e, d)
    ensures ConventionalAt(d, p) <==> KeptPage(entries, e, p)
  {
    hide FirstPage, EndPage, GivenUp;
  }

  lemma FewPages(entries: seq<Entry>, k: nat, p: nat)
    requires SaneMap(entries) && k < |entries| && KeptPage(entries, entries[k], p)
    ensures HasPages(entries[k])
  {
    hide GivenUp;
  }

  // ---- when there is space

  /** A descriptor that a call for n pages may be served from, and no runtime descriptor above 1 MB before it. */
  predicate Serves(m: seq<Descriptor>, n: nat, i: nat)
  {
    && i < |m| && m[i].kind == 7 && m[i].pages >= n && m[i].start > 0
    && 0x10_0000 < (m[i].start + m[i].pages * 4096) % TWO64 <= 0x1_0000_0000
    && forall j :: 0 <= j < i && m[j].kind in {5, 6} ==> (m[j].start + m[j].pages * 4096) % TWO64 <= 0x10_0000
  }

  lemma ServesIs(m: seq<Descriptor>, n: nat, i: nat)
    ensures Serves(m, n, i) <==> i < |m| && Reached(m, i) && Eligible(m[i], n)
  {
    hide Eligible;
    if i < |m| { EligibleIs(m[i], n); }
    if i < |m| && Reached(m, i) {
      forall j | 0 <= j < i && m[j].kind in {5, 6} ensures (m[j].start + m[j].pages * 4096) % TWO64 <= 0x10_0000 { assert !Barrier(m[j]); }
    }
  }

  lemma EligibleIs(d: Descriptor, n: nat)
    ensures Eligible(d, n) <==>
      d.kind == 7 && d.pages >= n && d.start > 0 && 0x10_0000 < (d.start + d.pages * 4096) % TWO64 <= 0x1_0000_0000
  {
  }

  /** A serving descriptor with the highest start. */
  predicate ServesBest(m: seq<Descriptor>, n: nat, i: nat)
  {
    Serves(m, n, i) && forall j :: 0 <= j < |m| && Serves(m, n, j) ==> m[j].start <= m[i].start
  }

  /** A call succeeds exactly if some descriptor serves it; it gets the last pages of one with the highest start. */
  lemma FindSpaceExactly(m: seq<Descriptor>, o: Order)
    ensures var r := FindSpace(m, o).1;
      && (r.Some? <==> exists i :: 0 <= i < |m| && Serves(m, o.n, i))
      && (r.Some? ==> exists i ::
            && 0 <= i < |m| && ServesBest(m, o.n, i)
            && r.value == Descriptor(o.kind, (m[i].start + (m[i].pages - o.n) * 4096) % TWO64, o.n, o.attribute))
  {
    hide Reached, Eligible, Serves;
    forall i: nat ensures Serves(m, o.n, i) <==> i < |m| && Reached(m, i) && Eligible(m[i], o.n) { ServesIs(m, o.n, i); }
    ReachedFirst(m);
    ChooseIs(m, o.n, 0, None);
    var i := Found(m, o.n);
    if i.Some? {
      EligibleConventional(m[i.value], o.n);
      assert ServesBest(m, o.n, i.value);
    }
  }

  lemma ReachedFirst(m: seq<Descriptor>)
    ensures Reached(m, 0)
  {
  }

  /** Memory that is kept, of at least n pages, which ends above 1 MB and not above 4 GB. */
  predicate Offers(entries: seq<Entry>, e: Entry, n: nat)
  {
    && e.kind == 1 && EndPage(e) - FirstPage(e) >= n && FirstPage(e) > 0 && !GivenUp(entries, FirstPage(e) * 4096)
    && 0x10_0000 < EndPage(e) * 4096 <= 0x1_0000_0000
  }

  /** In the loader's own map a first call succeeds exactly if there is such memory. */
  lemma FirstCall(entries: seq<Entry>, o: Order)
    requires SaneMap(entries) && o.n > 0
    ensures FindSpace(GenMap(entries), o).1.Some? <==> exists k :: 0 <= k < |entries| && Offers(entries, entries[k], o.n)
  {
    hide GenMap, SaneMap, HasPages, Stands, Offers, Serves, FindSpace, InMap, FromEntries, ServesBest;
    var m := GenMap(entries);
    GenMapExactly(entries);
    FindSpaceExactly(m, o);
    forall i | 0 <= i < |m| ensures m[i].kind !in {5, 6} {
      var k := EntryOf(entries, m[i]);
      StandsKind(entries, entries[k], m[i]);
    }
    if i :| 0 <= i < |m| && Serves(m, o.n, i) {
      var k := EntryOf(entries, m[i]);
      SaneAt(entries, k);
      OffersIs(entries, entries[k], m, o.n, i);
    }
    if k :| 0 <= k < |entries| && Offers(entries, entries[k], o.n) {
      OffersPages(entries, entries[k], o.n);
      var i := PlaceOf(m, entries, entries[k]);
      SaneAt(entries, k);
      OffersIs(entries, entries[k], m, o.n, i);
    }
  }

  lemma SaneAt(entries: seq<Entry>, k: nat)
    requires SaneMap(entries) && k < |entries|
    ensures Sane(entries[k])
  {
  }

  lemma StandsKind(entries: seq<Entry>, e: Entry, d: Descriptor)
    requires Stands(entries, e, d)
    ensures d.kind in {0, 7, 9, 10}
  {
    hide FirstPage, EndPage, GivenUp;
  }

  lemma OffersPages(entries: seq<Entry>, e: Entry, n: nat)
    requires Offers(entries, e, n) && n > 0
    ensures HasPages(e)
  {
    hide FirstPage, GivenUp;
  }

  lemma OffersIs(entries: seq<Entry>, e: Entry, m: seq<Descriptor>, n: nat, i: nat)
    requires i < |m| && Stands(entries, e, m[i]) && HasPages(e) && Sane(e) && forall j :: 0 <= j < |m| ==> m[j].kind !in {5, 6}
    ensures Offers(entries, e, n) <==> Serves(m, n, i)
  {
    hide GivenUp;
    var end := EndPage(e) * 4096;
    assert m[i].start + m[i].pages * 4096 == end;
    if e.kind == 1 {
      assert end <= TWO64;
      if end == TWO64 { DivModUnique(end, TWO64, 1, 0); } else { ModSmall(end, TWO64); }
    }
  }
}
