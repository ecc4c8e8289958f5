/**
 The memory map in place: a table of descriptors and the number of them in use.
 */
module MemoryMapTable {
  import opened Words
  import opened Bytes
  import opened MemoryMap
  import opened E820

  class Table {
    const desc: array<Descriptor>
    var count: nat

    constructor (desc: array<Descriptor>)
      ensures Valid() && this.desc == desc && Map() == []
    {
      this.desc, this.count := desc, 0;
    }

    ghost predicate Valid()
      reads this
    {
      count <= desc.Length
    }

    ghost function Map(): seq<Descriptor>
      requires Valid()
      reads this, desc
    {
      desc[..count]
    }

    /** Put a descriptor behind the last one. */
    method Append(d: Descriptor)
      requires Valid() && count < desc.Length
      modifies this, desc
      ensures Valid() && Map() == old(Map()) + [d]
    {
      desc[count] := d;
      count := count + 1;
      assert desc[..count] == old(desc[..count]) + [d];
    }

    method Replace(i: nat, d: Descriptor)
      requires Valid() && i < count
      modifies desc
      ensures Map() == old(Map())[i := d]
    {
      desc[i] := d;
    }

    /** One round of the carving loop. */
    method Carve(i: nat, d: Descriptor) returns (done: bool)
      requires Valid() && i < count && 0 < d.pages * PAGE <= TWO64
      requires |CarveAt(Map(), i, d).0| <= desc.Length
      modifies this, desc
      ensures Valid() && (Map(), done) == CarveAt(old(Map()), i, d)
    {
      done := false;
      var x := desc[i];
      if x.kind == CONVENTIONAL {
        var temp := (((d.start - x.start) % TWO64) / PAGE + d.pages) % TWO64;
        if x.start < d.start && x.pages >= temp {
          if x.pages > temp {
            Append(Descriptor(CONVENTIONAL, (d.start + d.pages * PAGE) % TWO64, x.pages - temp, x.attribute));
          }
          Replace(i, x.(pages := temp - d.pages));
        }
        x := desc[i];
        if x.start == d.start && x.pages == d.pages {
          Replace(i, x.(kind := d.kind, attribute := d.attribute));
          return true;
        }
        if x.start == d.start && x.pages > d.pages {
          Replace(i, x.(pages := x.pages - d.pages, start := (x.start + d.pages * PAGE) % TWO64));
        }
      }
    }

    /** EfiAddMemoryDescriptor; the table must have room for the result. */
    method AddMemoryDescriptor(d: Descriptor)
      requires Valid() && d.pages * PAGE <= TWO64 && |Add(Map(), d)| <= desc.Length
      modifies this, desc
      ensures Valid() && Map() == Add(old(Map()), d)
    {
      hide CarveAt;
      if d.pages == 0 {
        return;
      }
      ghost var goal := CarveFrom(Map(), 0, count, d);
      var number := count;
      CarveGrows(Map(), 0, number, d);
      for i := 0 to number
        invariant Valid() && number <= count && CarveFrom(Map(), i, number, d) == goal
        invariant |goal.0| + (if goal.1 then 0 else 1) <= desc.Length
      {
        CarveStepGrows(Map(), i, number, d);
        var done := Carve(i, d);
        if done {
          return;
        }
      }
      Append(d);
    }

    /** The loop of FindSpace: the index of the best descriptor. */
    method Search(n: nat) returns (best: Option<nat>)
      requires Valid()
      ensures best == Found(Map(), n)
    {
      hide Eligible;
      var maxStart := 0;
      best := None;
      var i := 0;
      while i < count
        invariant i <= count && (best.Some? ==> best.value < count) && Choose(Map(), n, i, best) == Found(Map(), n)
        invariant maxStart == if best.Some? then desc[best.value].start else 0
        decreases count - i
      {
        var d := desc[i];
        var end := (d.start + (d.pages * PAGE) % TWO64) % TWO64;
        Consider(Map(), n, i, best, end, maxStart);
        if end > ONE_MB {
          if d.kind == CONVENTIONAL && d.pages >= n && d.start > maxStart && end <= FOUR_GB {
            maxStart, best := d.start, Some(i);
          }
          if !(d.kind == RESERVED || d.kind >= ACPI_RECLAIM) && (d.kind == RUNTIME_CODE || d.kind == RUNTIME_DATA) {
            return;
          }
        }
        i := i + 1;
      }
    }

    /** FindSpace: the address of the pages, 0 if there are none. */
    method FindSpace(o: Order) returns (address: uint64)
      requires Valid() && |MemoryMap.FindSpace(Map(), o).0| <= desc.Length
      modifies this, desc
      ensures Valid()
      ensures var (m, r) := MemoryMap.FindSpace(old(Map()), o);
        Map() == m && address == if r.Some? then r.value.start else 0
    {
      hide Found, Eligible;
      var best := Search(o.n);
      if best.None? {
        return 0;
      }
      var i := best.value;
      EligibleConventional(desc[i], o.n);
      var maxStart, maxPages := desc[i].start, desc[i].pages;
      address := (maxStart + (maxPages - o.n) * PAGE) % TWO64;
      if maxPages != o.n {
        Replace(i, desc[i].(pages := maxPages - o.n));
        Append(Descriptor(o.kind, address, o.n, o.attribute));
      } else {
        Replace(i, desc[i].(kind := o.kind, attribute := o.attribute));
      }
    }

    /** GenMemoryMap, for an empty table. */
    method GenMemoryMap(entries: seq<Entry>)
      requires Valid() && count == 0 && SaneMap(entries) && |entries| <= desc.Length
      modifies this, desc
      ensures Valid() && Map() == GenMap(entries)
    {
      hide Add, Rounded, SaneMap;
      var ceiling: uint64 := 0xffff_ffff;
      for i := 0 to |entries|
        invariant Valid() && Map() == MapOf(entries, i) && ceiling == CeilingOf(entries, i)
      {
        var e := entries[i];
        var d := Rounded(e);
        if e.kind != 1 && ONE_MB <= d.start < FOUR_GB && ceiling > d.start {
          ceiling := d.start;
        }
        RoomForEntry(entries, i);
        AddMemoryDescriptor(d);
      }
      Cap(ceiling);
      assert Map() == GenMap(entries);
    }

    /** The second loop of GenMemoryMap. */
    method Cap(ceiling: uint64)
      requires Valid()
      modifies desc
      ensures |Map()| == |old(Map())| && forall i :: 0 <= i < |Map()| ==> Map()[i] == Capped(old(Map())[i], ceiling)
    {
      for i := 0 to count
        invariant forall j :: 0 <= j < i ==> desc[j] == Capped(old(desc[j]), ceiling)
        invariant forall j :: i <= j < desc.Length ==> desc[j] == old(desc[j])
      {
        var d := desc[i];
        if d.kind == CONVENTIONAL && d.start > ONE_MB && d.start < FOUR_GB {
          if d.start >= ceiling {
            desc[i] := d.(kind := RESERVED);
          }
        }
      }
    }
  }

  lemma {:induction false} CarveGrows(m: seq<Descriptor>, i: nat, n: nat, d: Descriptor)
    requires i <= n <= |m| && 0 < d.pages * PAGE <= TWO64
    ensures |CarveFrom(m, i, n, d).0| >= |m|
    decreases n - i
  {
    if i < n {
      var (m1, done) := CarveAt(m, i, d);
      if !done { CarveGrows(m1, i + 1, n, d); }
    }
  }

  lemma CarveStepGrows(m: seq<Descriptor>, i: nat, n: nat, d: Descriptor)
    requires i < n <= |m| && 0 < d.pages * PAGE <= TWO64
    ensures |m| <= |CarveAt(m, i, d).0| <= |CarveFrom(m, i, n, d).0|
    ensures CarveFrom(m, i, n, d) == if CarveAt(m, i, d).1 then CarveAt(m, i, d) else CarveFrom(CarveAt(m, i, d).0, i + 1, n, d)
  {
    var (m1, done) := CarveAt(m, i, d);
    if !done { CarveGrows(m1, i + 1, n, d); }
  }

  /** Wrapping around twice is wrapping around once. */
  lemma EndWraps(d: Descriptor)
    ensures (d.start + (d.pages * PAGE) % TWO64) % TWO64 == EndOf(d)
  {
    ModRight(d.start, d.pages * PAGE, TWO64);
  }

  /** The comparisons of the loop decide eligibility. */
  lemma Consider(m: seq<Descriptor>, n: nat, i: nat, best: Option<nat>, end: int, maxStart: nat)
    requires i < |m| && (best.Some? ==> best.value < |m|)
    requires end == (m[i].start + (m[i].pages * PAGE) % TWO64) % TWO64
    requires maxStart == if best.Some? then m[best.value].start else 0
    ensures end == EndOf(m[i])
    ensures Better(m, n, i, best) ==
      if end > ONE_MB && m[i].kind == CONVENTIONAL && m[i].pages >= n && m[i].start > maxStart && end <= FOUR_GB then Some(i) else best
  {
    EndWraps(m[i]);
    hide EndOf;
  }

  lemma RoomForEntry(entries: seq<Entry>, i: nat)
    requires i < |entries| && SaneMap(entries)
    ensures |MapOf(entries, i + 1)| <= |entries|
    ensures Rounded(entries[i]).pages * PAGE <= TWO64 && MapOf(entries, i + 1) == Add(MapOf(entries, i), Rounded(entries[i]))
  {
    RoundedAligned(entries[i]);
    NothingCarved(entries, i + 1);
    ListedShort(entries, i + 1);
  }

  lemma {:induction false} ListedShort(entries: seq<Entry>, n: nat)
    requires n <= |entries|
    ensures |Listed(entries, n)| <= n
  {
    if n > 0 { ListedShort(entries, n - 1); }
  }
}
