/**
 The loader's memory map: carving regions out of conventional memory, and a
 page allocator that works from the top down.
 */
module MemoryMap {
  import opened Words
  import opened Bytes

  const PAGE := 4096
  const ONE_MB := 0x10_0000
  const FOUR_GB := 0x1_0000_0000

  const RESERVED := 0
  const RUNTIME_CODE := 5
  const RUNTIME_DATA := 6
  const CONVENTIONAL := 7
  const ACPI_RECLAIM := 9
  const ACPI_NVS := 10

  datatype Descriptor = Descriptor(kind: nat, start: uint64, pages: uint64, attribute: uint64)

  /** What a page is used for. */
  datatype Use = Use(kind: nat, attribute: uint64)

  function UseOf(d: Descriptor): Use
  {
    Use(d.kind, d.attribute)
  }

  /** Page-aligned, and within the address space. */
  predicate Aligned(d: Descriptor)
  {
    d.start % PAGE == 0 && d.start + d.pages * PAGE <= TWO64
  }

  function First(d: Descriptor): nat
  {
    d.start / PAGE
  }

  /** The page is one of the descriptor's. */
  predicate Covers(d: Descriptor, p: nat)
  {
    First(d) <= p < First(d) + d.pages
  }

  predicate Apart(a: Descriptor, b: Descriptor)
  {
    a.pages == 0 || b.pages == 0 || First(a) + a.pages <= First(b) || First(b) + b.pages <= First(a)
  }

  predicate Disjoint(m: seq<Descriptor>)
  {
    && (forall i :: 0 <= i < |m| ==> Aligned(m[i]))
    && (forall i, j :: 0 <= i < j < |m| ==> Apart(m[i], m[j]))
  }

  /** The use of a page, if any. */
  function Owner(m: seq<Descriptor>, p: nat): Option<Use>
  {
    if m == [] then None
    else if Covers(m[|m| - 1], p) then Some(UseOf(m[|m| - 1]))
    else Owner(m[..|m| - 1], p)
  }

  // ---- adding a descriptor

  /** d lies within the conventional descriptor x. */
  predicate Inside(d: Descriptor, x: Descriptor)
  {
    x.kind == CONVENTIONAL && First(x) <= First(d) && First(d) + d.pages <= First(x) + x.pages
  }

  /** The number of pages from the start of x to the end of d, as the loader computes it. */
  function Reach(x: Descriptor, d: Descriptor): (n: uint64)
    ensures d.pages * PAGE <= TWO64 ==> n >= d.pages
  {
    (((d.start - x.start) % TWO64) / PAGE + d.pages) % TWO64
  }

  /** The part of x that is left above d. */
  function Tail(x: Descriptor, d: Descriptor): Descriptor
    requires x.pages >= Reach(x, d)
  {
    Descriptor(CONVENTIONAL, (d.start + d.pages * PAGE) % TWO64, x.pages - Reach(x, d), x.attribute)
  }

  /** What the loop does with descriptor i; the flag says that d found its place there. */
  function CarveAt(m: seq<Descriptor>, i: nat, d: Descriptor): (seq<Descriptor>, bool)
    requires i < |m| && 0 < d.pages * PAGE <= TWO64
  {
    var x := m[i];
    if x.kind != CONVENTIONAL then (m, false)
    else if x.start < d.start && x.pages >= Reach(x, d) then
      ((if x.pages > Reach(x, d) then m + [Tail(x, d)] else m)[i := x.(pages := Reach(x, d) - d.pages)], false)
    else if x.start == d.start && x.pages == d.pages then (m[i := x.(kind := d.kind, attribute := d.attribute)], true)
    else if x.start == d.start && x.pages > d.pages then
      (m[i := x.(pages := x.pages - d.pages, start := (x.start + d.pages * PAGE) % TWO64)], false)
    else (m, false)
  }

  /** The loop from descriptor i up to n. */
  function CarveFrom(m: seq<Descriptor>, i: nat, n: nat, d: Descriptor): (seq<Descriptor>, bool)
    requires i <= n <= |m| && 0 < d.pages * PAGE <= TWO64
    decreases n - i
  {
    if i == n then (m, false)
    else
      var (m1, done) := CarveAt(m, i, d);
      if done then (m1, true) else CarveFrom(m1, i + 1, n, d)
  }

  function Add(m: seq<Descriptor>, d: Descriptor): seq<Descriptor>
    requires d.pages * PAGE <= TWO64
  {
    if d.pages == 0 then m
    else
      var (m1, done) := CarveFrom(m, 0, |m|, d);
      if done then m1 else m1 + [d]
  }

  /** Aligned addresses compare as their pages do. */
  lemma ReachIs(x: Descriptor, d: Descriptor)
    requires Aligned(x) && Aligned(d)
    ensures x.start == First(x) * PAGE && d.start == First(d) * PAGE
    ensures x.start <= d.start ==> Reach(x, d) == First(d) - First(x) + d.pages
  {
  }

  /** A descriptor apart from d, or d itself being elsewhere, is left alone. */
  lemma CarveApart(m: seq<Descriptor>, i: nat, d: Descriptor)
    requires i < |m| && d.pages > 0 && Aligned(m[i]) && Aligned(d) && Apart(m[i], d)
    ensures CarveAt(m, i, d) == (m, false)
  {
    ReachIs(m[i], d);
  }

  lemma {:induction false} CarveNothing(m: seq<Descriptor>, i: nat, n: nat, d: Descriptor)
    requires i <= n <= |m| && d.pages > 0 && Aligned(d)
    requires forall j :: i <= j < n ==> Aligned(m[j]) && Apart(m[j], d)
    ensures CarveFrom(m, i, n, d) == (m, false)
    decreases n - i
  {
    if i < n {
      CarveApart(m, i, d);
      CarveNothing(m, i + 1, n, d);
    }
  }

  /** Only the descriptor that contains d is carved. */
  lemma {:induction false} CarveOne(m: seq<Descriptor>, i: nat, n: nat, d: Descriptor, x: nat)
    requires i <= x < n <= |m| && d.pages > 0 && Aligned(d)
    requires forall j :: i <= j < n ==> Aligned(m[j]) && (j != x ==> Apart(m[j], d))
    ensures CarveFrom(m, i, n, d) == CarveAt(m, x, d)
    decreases n - i
  {
    if i < x {
      CarveApart(m, i, d);
      CarveOne(m, i + 1, n, d, x);
    } else {
      var (m1, done) := CarveAt(m, x, d);
      if !done { CarveNothing(m1, i + 1, n, d); }
    }
  }

  // ---- the effect on the pages

  lemma {:induction false} OwnerNone(m: seq<Descriptor>, p: nat)
    requires forall i :: 0 <= i < |m| ==> !Covers(m[i], p)
    ensures Owner(m, p) == None
  {
    if m != [] { OwnerNone(m[..|m| - 1], p); }
  }

  /** In a disjoint map, the descriptor that covers a page is its owner. */
  lemma {:induction false} OwnerIs(m: seq<Descriptor>, p: nat, i: nat)
    requires Disjoint(m) && i < |m| && Covers(m[i], p)
    ensures Owner(m, p) == Some(UseOf(m[i]))
  {
    var n := |m| - 1;
    if i < n {
      assert Apart(m[i], m[n]);
      OwnerIs(m[..n], p, i);
    }
  }

  lemma {:induction false} OwnerUnchanged(m: seq<Descriptor>, i: nat, d: Descriptor, p: nat)
    requires i < |m| && !Covers(m[i], p) && !Covers(d, p)
    ensures Owner(m[i := d], p) == Owner(m, p)
  {
    var n := |m| - 1;
    if i < n {
      assert m[i := d][..n] == m[..n][i := d];
      OwnerUnchanged(m[..n], i, d, p);
    } else {
      assert m[i := d][..n] == m[..n];
    }
  }

  /** Shrinking a descriptor frees the pages that it gives up, and keeps the map disjoint. */
  lemma OwnerShrunk(m: seq<Descriptor>, i: nat, d: Descriptor, p: nat)
    requires Disjoint(m) && i < |m| && Aligned(d) && First(m[i]) <= First(d) && First(d) + d.pages <= First(m[i]) + m[i].pages
    ensures Disjoint(m[i := d])
    ensures Owner(m[i := d], p) ==
      if Covers(d, p) then Some(UseOf(d)) else if Covers(m[i], p) then None else Owner(m, p)
  {
    var m1 := m[i := d];
    assert Disjoint(m1) by {
      forall a, b | 0 <= a < b < |m1| ensures Apart(m1[a], m1[b]) { assert Apart(m[a], m[b]); }
    }
    if Covers(d, p) {
      OwnerIs(m1, p, i);
    } else if Covers(m[i], p) {
      forall j | 0 <= j < |m1| ensures !Covers(m1[j], p) {
        if j < i { assert Apart(m[j], m[i]); } else if i < j { assert Apart(m[i], m[j]); }
      }
      OwnerNone(m1, p);
    } else {
      OwnerUnchanged(m, i, d, p);
    }
  }

  lemma OwnerAdded(m: seq<Descriptor>, d: Descriptor, p: nat)
    ensures Owner(m + [d], p) == if Covers(d, p) then Some(UseOf(d)) else Owner(m, p)
  {
    assert (m + [d])[..|m|] == m;
  }

  lemma DisjointAdded(m: seq<Descriptor>, d: Descriptor)
    requires Disjoint(m) && Aligned(d) && forall i :: 0 <= i < |m| ==> Apart(m[i], d)
    ensures Disjoint(m + [d])
  {
  }

  /** The region lies in one conventional descriptor, or apart from all descriptors. */
  predicate Addable(m: seq<Descriptor>, d: Descriptor)
  {
    (exists x :: 0 <= x < |m| && Inside(d, m[x])) || forall i :: 0 <= i < |m| ==> Apart(m[i], d)
  }

  /** m1 is disjoint, and its pages are those of m with d laid over them. */
  ghost predicate Overrides(m: seq<Descriptor>, d: Descriptor, m1: seq<Descriptor>)
  {
    Disjoint(m1) && forall p: nat :: Owner(m1, p) == if Covers(d, p) then Some(UseOf(d)) else Owner(m, p)
  }

  /** Adding a region overrides the use of its pages, and only of those. */
  lemma AddOverrides(m: seq<Descriptor>, d: Descriptor)
    requires Disjoint(m) && Aligned(d) && Addable(m, d)
    ensures Overrides(m, d, Add(m, d))
  {
    if d.pages == 0 {
    } else if forall i :: 0 <= i < |m| ==> Apart(m[i], d) {
      CarveNothing(m, 0, |m|, d);
      AppendOverrides(m, d);
    } else {
      var x :| 0 <= x < |m| && Inside(d, m[x]);
      forall j | 0 <= j < |m| && j != x ensures Apart(m[j], d) {
        if j < x { assert Apart(m[j], m[x]); } else { assert Apart(m[x], m[j]); }
      }
      CarveOne(m, 0, |m|, d, x);
      CarveOverrides(m, x, d);
    }
  }

  lemma AppendOverrides(m: seq<Descriptor>, d: Descriptor)
    requires Disjoint(m) && Aligned(d) && forall i :: 0 <= i < |m| ==> Apart(m[i], d)
    ensures Overrides(m, d, m + [d])
  {
    hide Owner;
    DisjointAdded(m, d);
    forall p: nat ensures Owner(m + [d], p) == if Covers(d, p) then Some(UseOf(d)) else Owner(m, p) { OwnerAdded(m, d, p); }
  }

  lemma CarveOverrides(m: seq<Descriptor>, x: nat, d: Descriptor)
    requires Disjoint(m) && x < |m| && Aligned(d) && d.pages > 0 && Inside(d, m[x])
    requires forall j :: 0 <= j < |m| && j != x ==> Apart(m[j], d)
    ensures var (m1, done) := CarveAt(m, x, d); Overrides(m, d, if done then m1 else m1 + [d])
  {
    hide Owner;
    var c, k := m[x], First(d) - First(m[x]);
    ReachIs(c, d);
    if k > 0 {
      HeadOverrides(m, x, d);
    } else if c.pages == d.pages {
      WholeOverrides(m, x, d);
    } else {
      PrefixOverrides(m, x, d);
    }
  }

  /** d takes all of descriptor x, which is only retyped. */
  lemma WholeOverrides(m: seq<Descriptor>, x: nat, d: Descriptor)
    requires Disjoint(m) && x < |m| && Aligned(d) && m[x].start == d.start && m[x].pages == d.pages
    ensures Overrides(m, d, m[x := m[x].(kind := d.kind, attribute := d.attribute)])
  {
    hide Owner;
    var c := m[x].(kind := d.kind, attribute := d.attribute);
    forall p: nat ensures Disjoint(m[x := c]) && Owner(m[x := c], p) == if Covers(d, p) then Some(UseOf(d)) else Owner(m, p) {
      OwnerShrunk(m, x, c, p);
    }
    assert Disjoint(m[x := c]) by { OwnerShrunk(m, x, c, 0); }
  }

  /** d takes the first pages of descriptor x. */
  lemma PrefixOverrides(m: seq<Descriptor>, x: nat, d: Descriptor)
    requires Disjoint(m) && x < |m| && Aligned(d) && m[x].start == d.start && m[x].pages > d.pages > 0
    requires forall j :: 0 <= j < |m| && j != x ==> Apart(m[j], d)
    ensures var c := m[x].(pages := m[x].pages - d.pages, start := (m[x].start + d.pages * PAGE) % TWO64);
      Overrides(m, d, m[x := c] + [d])
  {
    hide Owner;
    var c := m[x].(pages := m[x].pages - d.pages, start := (m[x].start + d.pages * PAGE) % TWO64);
    assert First(c) == First(m[x]) + d.pages && Aligned(c);
    var m1 := m[x := c];
    assert Disjoint(m1) by { OwnerShrunk(m, x, c, 0); }
    DisjointAdded(m1, d);
    forall p: nat ensures Owner(m1 + [d], p) == if Covers(d, p) then Some(UseOf(d)) else Owner(m, p) {
      OwnerShrunk(m, x, c, p);
      OwnerAdded(m1, d, p);
      if Covers(c, p) { OwnerIs(m, p, x); }
    }
  }

  /** d starts within descriptor x, which keeps its head; what is above d becomes a descriptor of its own. */
  lemma HeadOverrides(m: seq<Descriptor>, x: nat, d: Descriptor)
    requires Disjoint(m) && x < |m| && Aligned(d) && d.pages > 0 && Inside(d, m[x]) && First(m[x]) < First(d)
    requires forall j :: 0 <= j < |m| && j != x ==> Apart(m[j], d)
    ensures var (m1, done) := CarveAt(m, x, d); !done && Overrides(m, d, m1 + [d])
  {
    hide Owner;
    var c, k := m[x], First(d) - First(m[x]);
    ReachIs(c, d);
    var head := c.(pages := k);
    var m1 := m[x := head];
    assert Disjoint(m1) by { OwnerShrunk(m, x, head, 0); }
    if c.pages == k + d.pages {
      assert CarveAt(m, x, d).0 == m1;
      DisjointAdded(m1, d);
    } else {
      var tail := Tail(c, d);
      assert First(tail) == First(d) + d.pages && Aligned(tail);
      assert CarveAt(m, x, d).0 == m1 + [tail];
      forall j | 0 <= j < |m1| ensures Apart(m1[j], tail) {
        if j < x { assert Apart(m[j], m[x]); } else if j > x { assert Apart(m[x], m[j]); }
      }
      DisjointAdded(m1, tail);
      DisjointAdded(m1 + [tail], d);
    }
    var m2 := CarveAt(m, x, d).0;
    forall p: nat ensures Owner(m2 + [d], p) == if Covers(d, p) then Some(UseOf(d)) else Owner(m, p) {
      OwnerShrunk(m, x, head, p);
      if c.pages != k + d.pages { OwnerAdded(m1, Tail(c, d), p); }
      OwnerAdded(m2, d, p);
      if Covers(c, p) { OwnerIs(m, p, x); }
    }
  }

  /** A region that is neither inside a conventional descriptor nor apart from all overlaps one afterwards. */
  lemma AddOverlaps(m: seq<Descriptor>, d: Descriptor)
    requires Disjoint(m) && Aligned(d) && d.pages > 0 && !Addable(m, d)
    ensures !Disjoint(Add(m, d))
  {
    CarveOutside(m, 0, |m|, d);
    var i :| 0 <= i < |m| && !Apart(m[i], d);
    assert (m + [d])[i] == m[i] && (m + [d])[|m|] == d;
  }

  lemma {:induction false} CarveOutside(m: seq<Descriptor>, i: nat, n: nat, d: Descriptor)
    requires i <= n <= |m| && d.pages > 0 && Aligned(d)
    requires forall j :: i <= j < n ==> Aligned(m[j]) && !Inside(d, m[j])
    ensures CarveFrom(m, i, n, d) == (m, false)
    decreases n - i
  {
    if i < n {
      ReachIs(m[i], d);
      CarveOutside(m, i + 1, n, d);
    }
  }

  // ---- finding space

  function EndOf(d: Descriptor): uint64
  {
    (d.start + d.pages * PAGE) % TWO64
  }

  /** The descriptor can serve n pages: conventional, ending above 1 MB, not above 4 GB, and not starting at 0. */
  predicate Eligible(d: Descriptor, n: nat)
  {
    d.kind == CONVENTIONAL && d.pages >= n && ONE_MB < EndOf(d) <= FOUR_GB && d.start > 0
  }

  /** The search stops at a runtime descriptor above 1 MB. */
  predicate Barrier(d: Descriptor)
  {
    d.kind in {RUNTIME_CODE, RUNTIME_DATA} && EndOf(d) > ONE_MB
  }

  /** The search gets as far as descriptor i. */
  predicate Reached(m: seq<Descriptor>, i: nat)
    requires i <= |m|
  {
    forall j :: 0 <= j < i ==> !Barrier(m[j])
  }

  /** The choice of the search from descriptor i on, given the best one so far. */
  function Choose(m: seq<Descriptor>, n: nat, i: nat, best: Option<nat>): Option<nat>
    requires i <= |m| && (best.Some? ==> best.value < |m|)
    decreases |m| - i
  {
    if i == |m| then best
    else
      var b := Better(m, n, i, best);
      if Barrier(m[i]) then b else Choose(m, n, i + 1, b)
  }

  function Better(m: seq<Descriptor>, n: nat, i: nat, best: Option<nat>): (b: Option<nat>)
    requires i < |m| && (best.Some? ==> best.value < |m|)
    ensures b.Some? ==> b.value < |m|
  {
    if Eligible(m[i], n) && (best.Some? ==> m[i].start > m[best.value].start) then Some(i) else best
  }

  /** i is the reachable eligible descriptor with the highest start, the first one of these. */
  predicate Chosen(m: seq<Descriptor>, n: nat, i: nat)
  {
    && i < |m| && Eligible(m[i], n) && Reached(m, i)
    && forall j :: 0 <= j < |m| && Reached(m, j) && Eligible(m[j], n) ==>
         m[j].start <= m[i].start && (j < i ==> m[j].start < m[i].start)
  }

  lemma {:induction false} ChooseIs(m: seq<Descriptor>, n: nat, i: nat, best: Option<nat>)
    requires i <= |m| && Reached(m, i)
    requires match best
      case Some(b) => b < i && Eligible(m[b], n) &&
        forall j :: 0 <= j < i && Eligible(m[j], n) ==> m[j].start <= m[b].start && (j < b ==> m[j].start < m[b].start)
      case None => forall j :: 0 <= j < i ==> !Eligible(m[j], n)
    ensures match Choose(m, n, i, best)
      case Some(b) => Chosen(m, n, b)
      case None => forall j :: 0 <= j < |m| && Reached(m, j) ==> !Eligible(m[j], n)
    decreases |m| - i
  {
    if i < |m| {
      var b := Better(m, n, i, best);
      if Barrier(m[i]) {
        forall j | 0 <= j < |m| && Reached(m, j) ensures j <= i {}
      } else {
        ChooseIs(m, n, i + 1, b);
      }
    }
  }

  /** The region given out: the last n pages of the descriptor. */
  function Region(x: Descriptor, n: nat, kind: nat, attribute: uint64): Descriptor
    requires n <= x.pages
  {
    Descriptor(kind, (x.start + (x.pages - n) * PAGE) % TWO64, n, attribute)
  }

  function Found(m: seq<Descriptor>, n: nat): (i: Option<nat>)
    ensures i.Some? ==> i.value < |m| && Eligible(m[i.value], n)
  {
    ChooseIs(m, n, 0, None);
    Choose(m, n, 0, None)
  }

  /** The map after the region was taken from descriptor i. */
  function Take(m: seq<Descriptor>, i: nat, n: nat, kind: nat, attribute: uint64): seq<Descriptor>
    requires i < |m| && n <= m[i].pages
  {
    if m[i].pages != n then m[i := m[i].(pages := m[i].pages - n)] + [Region(m[i], n, kind, attribute)]
    else m[i := m[i].(kind := kind, attribute := attribute)]
  }

  function Pages(m: seq<Descriptor>): nat
  {
    if m == [] then 0 else Pages(m[..|m| - 1]) + m[|m| - 1].pages
  }

  lemma {:induction false} PagesUpdate(m: seq<Descriptor>, i: nat, d: Descriptor)
    requires i < |m|
    ensures Pages(m[i := d]) == Pages(m) - m[i].pages + d.pages
  {
    var n := |m| - 1;
    if i < n {
      assert m[i := d][..n] == m[..n][i := d];
      PagesUpdate(m[..n], i, d);
    } else {
      assert m[i := d][..n] == m[..n];
    }
  }

  lemma PagesAdded(m: seq<Descriptor>, d: Descriptor)
    ensures Pages(m + [d]) == Pages(m) + d.pages
  {
    assert (m + [d])[..|m|] == m;
  }

  /** Memory is neither lost nor created. */
  lemma TakeConserves(m: seq<Descriptor>, i: nat, n: nat, kind: nat, attribute: uint64)
    requires i < |m| && n <= m[i].pages
    ensures Pages(Take(m, i, n, kind, attribute)) == Pages(m)
  {
    if m[i].pages != n {
      var c := m[i].(pages := m[i].pages - n);
      PagesUpdate(m, i, c);
      PagesAdded(m[i := c], Region(m[i], n, kind, attribute));
    } else {
      PagesUpdate(m, i, m[i].(kind := kind, attribute := attribute));
    }
  }

  /** The region lies in the descriptor it was taken from, at its end, below 4 GB. */
  lemma RegionIs(x: Descriptor, n: nat, kind: nat, attribute: uint64)
    requires Aligned(x) && Eligible(x, n) && n > 0
    ensures var r := Region(x, n, kind, attribute);
      && Aligned(r) && First(r) == First(x) + x.pages - n && First(r) > 0 && r.start > 0
      && r.start + n * PAGE <= FOUR_GB
  {
  }

  lemma RegionUse(x: Descriptor, n: nat, kind: nat, attribute: uint64)
    requires n <= x.pages
    ensures var r := Region(x, n, kind, attribute); r.pages == n && UseOf(r) == Use(kind, attribute)
  {
  }

  /** Taking a region overrides the use of its pages, which were conventional. */
  lemma TakeOverrides(m: seq<Descriptor>, i: nat, n: nat, kind: nat, attribute: uint64)
    requires Disjoint(m) && i < |m| && Eligible(m[i], n) && n > 0
    ensures var r := Region(m[i], n, kind, attribute);
      && Overrides(m, r, Take(m, i, n, kind, attribute))
      && forall p: nat :: Covers(r, p) ==> Owner(m, p) == Some(UseOf(m[i]))
  {
    var x, r := m[i], Region(m[i], n, kind, attribute);
    RegionIs(x, n, kind, attribute);
    RegionUse(x, n, kind, attribute);
    hide Owner, Overrides, Eligible, Region, Aligned, Disjoint;
    forall p: nat | Covers(r, p) ensures Owner(m, p) == Some(UseOf(x)) { OwnerIs(m, p, i); }
    ApartFromPart(m, i, r);
    if x.pages == n {
      AlignedAt(m, i);
      SameStart(x, r);
      WholeOverrides(m, i, r);
    } else {
      LastOverrides(m, i, r, x.(pages := x.pages - n));
    }
  }

  lemma SameStart(a: Descriptor, b: Descriptor)
    requires Aligned(a) && Aligned(b) && First(a) == First(b)
    ensures a.start == b.start
  {
  }

  /** A part of a descriptor is apart from the other descriptors. */
  lemma ApartFromPart(m: seq<Descriptor>, i: nat, r: Descriptor)
    requires Disjoint(m) && i < |m| && First(m[i]) <= First(r) && First(r) + r.pages <= First(m[i]) + m[i].pages
    ensures forall j :: 0 <= j < |m| && j != i ==> Apart(m[j], r)
  {
    forall j | 0 <= j < |m| && j != i ensures Apart(m[j], r) {
      if j < i { assert Apart(m[j], m[i]); } else { assert Apart(m[i], m[j]); }
    }
  }

  lemma LastOverrides(m: seq<Descriptor>, i: nat, r: Descriptor, c: Descriptor)
    requires Disjoint(m) && i < |m| && Aligned(r) && r.pages <= m[i].pages && c == m[i].(pages := m[i].pages - r.pages)
    requires First(r) == First(m[i]) + c.pages
    requires forall j :: 0 <= j < |m| && j != i ==> Apart(m[j], r)
    ensures Overrides(m, r, m[i := c] + [r])
  {
    hide Owner;
    var m1 := m[i := c];
    assert Disjoint(m1) by { OwnerShrunk(m, i, c, 0); }
    DisjointAdded(m1, r);
    forall p: nat ensures Owner(m1 + [r], p) == if Covers(r, p) then Some(UseOf(r)) else Owner(m, p) {
      OwnerShrunk(m, i, c, p);
      OwnerAdded(m1, r, p);
      if Covers(c, p) { OwnerIs(m, p, i); }
    }
  }

  // ---- runs of the allocator

  datatype Order = Order(n: nat, kind: nat, attribute: uint64)

  /** An order for some pages, not to be left conventional. */
  predicate Proper(o: Order)
  {
    o.n > 0 && o.kind != CONVENTIONAL
  }

  /** FindSpace: the new map and the region given out, if any. */
  function FindSpace(m: seq<Descriptor>, o: Order): (seq<Descriptor>, Option<Descriptor>)
  {
    match Found(m, o.n)
    case None => (m, None)
    case Some(i) => (Take(m, i, o.n, o.kind, o.attribute), Some(Region(m[i], o.n, o.kind, o.attribute)))
  }

  function MapAfter(m: seq<Descriptor>, orders: seq<Order>): seq<Descriptor>
    decreases |orders|
  {
    if orders == [] then m else MapAfter(FindSpace(m, orders[0]).0, orders[1..])
  }

  /** The regions given out by a run. */
  function Regions(m: seq<Descriptor>, orders: seq<Order>): seq<Descriptor>
    decreases |orders|
  {
    if orders == [] then []
    else
      var (m1, r) := FindSpace(m, orders[0]);
      (if r.Some? then [r.value] else []) + Regions(m1, orders[1..])
  }

  /** Conventional memory is apart from everything else; other descriptors may share pages. */
  predicate Separated(m: seq<Descriptor>)
  {
    && (forall i :: 0 <= i < |m| ==> Aligned(m[i]))
    && (forall i, j :: 0 <= i < j < |m| && (m[i].kind == CONVENTIONAL || m[j].kind == CONVENTIONAL) ==> Apart(m[i], m[j]))
  }

  predicate FreeIn(d: Descriptor, p: nat)
  {
    d.kind == CONVENTIONAL && Covers(d, p)
  }

  /** The page is conventional memory. */
  predicate Free(m: seq<Descriptor>, p: nat)
  {
    exists i :: 0 <= i < |m| && FreeIn(m[i], p)
  }

  /** In a disjoint map, the free pages are those whose use is conventional. */
  lemma FreeIsOwned(m: seq<Descriptor>, p: nat)
    requires Disjoint(m)
    ensures Free(m, p) <==> Owner(m, p).Some? && Owner(m, p).value.kind == CONVENTIONAL
  {
    hide Disjoint, Owner, Covers;
    if Free(m, p) {
      var i :| 0 <= i < |m| && FreeIn(m[i], p);
      OwnerIs(m, p, i);
    } else if i :| 0 <= i < |m| && Covers(m[i], p) {
      OwnerIs(m, p, i);
    } else {
      OwnerNone(m, p);
    }
  }

  predicate PartOf(d: Descriptor, x: Descriptor)
  {
    First(x) <= First(d) && First(d) + d.pages <= First(x) + x.pages
  }

  /** r lies in one conventional descriptor. */
  predicate InOne(m: seq<Descriptor>, r: Descriptor)
  {
    exists i :: 0 <= i < |m| && Inside(r, m[i])
  }

  /** The conventional descriptors of m1 are those of m, some of them cut. */
  predicate Shrunk(m: seq<Descriptor>, m1: seq<Descriptor>)
  {
    |m| <= |m1| &&
    forall j :: 0 <= j < |m1| && m1[j].kind == CONVENTIONAL ==> j < |m| && m[j].kind == CONVENTIONAL && PartOf(m1[j], m[j])
  }

  /** The parts of a conventional descriptor that was split. */
  lemma TakeParts(m: seq<Descriptor>, i: nat, n: nat, kind: nat, attribute: uint64)
    requires i < |m| && Aligned(m[i]) && Eligible(m[i], n) && n > 0 && kind != CONVENTIONAL
    ensures
      var r, m1 := Region(m[i], n, kind, attribute), Take(m, i, n, kind, attribute);
      && |m| <= |m1| <= |m| + 1 && (|m1| == |m| + 1 ==> m1[|m|] == r)
      && (forall j :: 0 <= j < |m| && j != i ==> m1[j] == m[j])
      && Aligned(r) && PartOf(r, m[i]) && Aligned(m1[i]) && PartOf(m1[i], m[i]) && r.kind == kind
      && (if m1[i].kind == CONVENTIONAL then First(m1[i]) == First(m[i]) && First(r) == First(m1[i]) + m1[i].pages
          else First(r) == First(m[i]) && |m1| == |m|)
      && First(r) + r.pages == First(m[i]) + m[i].pages
  {
    RegionIs(m[i], n, kind, attribute);
    RegionUse(m[i], n, kind, attribute);
    EligibleConventional(m[i], n);
    hide Eligible, Region;
  }

  lemma PartApart(d: Descriptor, x: Descriptor, y: Descriptor)
    requires PartOf(d, x)
    ensures (Apart(x, y) ==> Apart(d, y)) && (Apart(y, x) ==> Apart(y, d))
  {
  }

  lemma TakeSeparated(m: seq<Descriptor>, i: nat, n: nat, kind: nat, attribute: uint64)
    requires Separated(m) && i < |m| && Eligible(m[i], n) && n > 0 && kind != CONVENTIONAL
    ensures
      var r, m1 := Region(m[i], n, kind, attribute), Take(m, i, n, kind, attribute);
      && Separated(m1) && Shrunk(m, m1) && InOne(m, r)
      && forall p: nat :: Free(m1, p) <==> Free(m, p) && !Covers(r, p)
  {
    var r, m1 := Region(m[i], n, kind, attribute), Take(m, i, n, kind, attribute);
    TakeParts(m, i, n, kind, attribute);
    EligibleConventional(m[i], n);
    hide Eligible, Region, Take, Aligned;
    assert Inside(r, m[i]);
    forall a, b | 0 <= a < b < |m1| && (m1[a].kind == CONVENTIONAL || m1[b].kind == CONVENTIONAL) ensures Apart(m1[a], m1[b]) {
      StillApart(m, m1, i, r, a, b);
    }
    forall p: nat ensures Free(m1, p) <==> Free(m, p) && !Covers(r, p) { FreeAfter(m, m1, i, r, p); }
  }

  /** m1 is m with the end r of descriptor i taken out. */
  predicate Taken(m: seq<Descriptor>, m1: seq<Descriptor>, i: nat, r: Descriptor)
  {
    && i < |m| <= |m1| <= |m| + 1 && (|m1| == |m| + 1 ==> m1[|m|] == r)
    && (forall j :: 0 <= j < |m| && j != i ==> m1[j] == m[j])
    && m[i].kind == CONVENTIONAL && r.kind != CONVENTIONAL && PartOf(r, m[i]) && PartOf(m1[i], m[i])
    && First(r) + r.pages == First(m[i]) + m[i].pages
    && (if m1[i].kind == CONVENTIONAL then First(m1[i]) == First(m[i]) && First(r) == First(m1[i]) + m1[i].pages
        else First(r) == First(m[i]) && |m1| == |m|)
  }

  lemma StillApart(m: seq<Descriptor>, m1: seq<Descriptor>, i: nat, r: Descriptor, a: nat, b: nat)
    requires Separated(m) && Taken(m, m1, i, r) && a < b < |m1| && (m1[a].kind == CONVENTIONAL || m1[b].kind == CONVENTIONAL)
    ensures Apart(m1[a], m1[b])
  {
    hide Aligned, PartOf, Apart;
    var x, y := if a == i then m[i] else m1[a], if b == i || b == |m| then m[i] else m1[b];
    if b == |m| {
      if a == i {
        EndApart(m1[a], r);
      } else {
        OtherApart(m, a, i);
        PartApart(r, m[i], m1[a]);
      }
    } else {
      assert Apart(m[a], m[b]);
      if a == i { PartApart(m1[a], m[i], m[b]); }
      if b == i { PartApart(m1[b], m[i], m[a]); }
    }
  }

  lemma EndApart(d: Descriptor, r: Descriptor)
    requires First(r) == First(d) + d.pages
    ensures Apart(d, r)
  {
  }

  lemma OtherApart(m: seq<Descriptor>, a: nat, i: nat)
    requires Separated(m) && a < |m| && i < |m| && a != i && m[i].kind == CONVENTIONAL
    ensures Apart(m[a], m[i])
  {
    hide Aligned;
    if a < i { assert Apart(m[a], m[i]); } else { assert Apart(m[i], m[a]); }
  }

  lemma FreeAfter(m: seq<Descriptor>, m1: seq<Descriptor>, i: nat, r: Descriptor, p: nat)
    requires Separated(m) && Taken(m, m1, i, r)
    ensures Free(m1, p) <==> Free(m, p) && !Covers(r, p)
  {
    hide Aligned, Separated;
    if Free(m1, p) {
      var j :| 0 <= j < |m1| && FreeIn(m1[j], p);
      if j == i {
        assert FreeIn(m[i], p);
      } else {
        assert FreeIn(m[j], p);
        OtherApart(m, j, i);
      }
    }
    if Free(m, p) && !Covers(r, p) {
      var j :| 0 <= j < |m| && FreeIn(m[j], p);
      assert FreeIn(m1[j], p);
    }
  }

  /** A call gives out free pages below 4 GB, all from one descriptor, and these and only these cease to be free. */
  lemma FindSpaceLaw(m: seq<Descriptor>, o: Order)
    requires Separated(m) && Proper(o)
    ensures var (m1, r) := FindSpace(m, o);
      && Separated(m1) && (Disjoint(m) ==> Disjoint(m1)) && Shrunk(m, m1) && Pages(m1) == Pages(m)
      && (r.None? ==> m1 == m)
      && (r.Some? ==> r.value.pages == o.n && Low4(r.value) && InOne(m, r.value))
      && forall p: nat :: Free(m1, p) <==> Free(m, p) && !(r.Some? && Covers(r.value, p))
  {
    hide Owner, Disjoint, Separated, Take, Pages, Region, Eligible, InOne, Free, Overrides;
    var i := Found(m, o.n);
    if i.Some? {
      assert Eligible(m[i.value], o.n);
      EligibleConventional(m[i.value], o.n);
      TakeSeparated(m, i.value, o.n, o.kind, o.attribute);
      TakeConserves(m, i.value, o.n, o.kind, o.attribute);
      RegionUse(m[i.value], o.n, o.kind, o.attribute);
      AlignedAt(m, i.value);
      RegionIs(m[i.value], o.n, o.kind, o.attribute);
      if Disjoint(m) { TakeDisjoint(m, i.value, o); }
    } else {
      ShrunkSame(m);
    }
  }

  lemma TakeDisjoint(m: seq<Descriptor>, i: nat, o: Order)
    requires Disjoint(m) && Proper(o) && i < |m| && Eligible(m[i], o.n)
    ensures Disjoint(Take(m, i, o.n, o.kind, o.attribute))
  {
    hide Take, Disjoint, Region, Owner, Eligible;
    EligibleConventional(m[i], o.n);
    TakeOverrides(m, i, o.n, o.kind, o.attribute);
  }

  lemma ShrunkSame(m: seq<Descriptor>)
    ensures Shrunk(m, m)
  {
  }

  lemma ShrunkTwice(m: seq<Descriptor>, m1: seq<Descriptor>, m2: seq<Descriptor>)
    requires Shrunk(m, m1) && Shrunk(m1, m2)
    ensures Shrunk(m, m2)
  {
  }

  /** Aligned, not at 0, and below 4 GB. */
  predicate Low4(r: Descriptor)
  {
    Aligned(r) && r.start > 0 && r.start + r.pages * PAGE <= FOUR_GB
  }

  lemma EligibleConventional(d: Descriptor, n: nat)
    requires Eligible(d, n)
    ensures d.kind == CONVENTIONAL && n <= d.pages
  {
  }

  lemma AlignedAt(m: seq<Descriptor>, i: nat)
    requires Separated(m) && i < |m|
    ensures Aligned(m[i])
  {
  }

  /** The regions lie each in one conventional descriptor of m, below 4 GB, and pairwise apart. */
  ghost predicate GivenOut(m: seq<Descriptor>, rs: seq<Descriptor>)
  {
    && (forall i :: 0 <= i < |rs| ==> rs[i].pages > 0 && Low4(rs[i]) && InOne(m, rs[i]))
    && (forall i, j :: 0 <= i < j < |rs| ==> Apart(rs[i], rs[j]))
  }

  /** Over every run, the regions given out lie in conventional memory, below 4 GB and pairwise apart; no page is lost. */
  lemma {:induction false} RunLaw(m: seq<Descriptor>, orders: seq<Order>)
    requires Separated(m) && forall i :: 0 <= i < |orders| ==> Proper(orders[i])
    ensures
      var m1 := MapAfter(m, orders);
      Separated(m1) && (Disjoint(m) ==> Disjoint(m1)) && Shrunk(m, m1) && Pages(m1) == Pages(m)
    ensures GivenOut(m, Regions(m, orders))
    decreases |orders|
  {
    hide Disjoint, Separated, Shrunk, FindSpace, Pages, Free, InOne, Apart, Low4;
    if orders == [] {
      ShrunkSame(m);
    } else {
      FindSpaceLaw(m, orders[0]);
      var (m1, r) := FindSpace(m, orders[0]);
      RunLaw(m1, orders[1..]);
      ShrunkTwice(m, m1, MapAfter(m1, orders[1..]));
      GivenOutFirst(m, m1, r, Regions(m1, orders[1..]));
    }
  }

  lemma GivenOutFirst(m: seq<Descriptor>, m1: seq<Descriptor>, r: Option<Descriptor>, rest: seq<Descriptor>)
    requires Shrunk(m, m1) && forall p: nat :: Free(m1, p) <==> Free(m, p) && !(r.Some? && Covers(r.value, p))
    requires r.Some? ==> InOne(m, r.value) && r.value.pages > 0 && Low4(r.value)
    requires GivenOut(m1, rest)
    ensures GivenOut(m, (if r.Some? then [r.value] else []) + rest)
  {
    hide Free, InOne, Apart, Low4, Shrunk;
    forall j | 0 <= j < |rest| ensures InOne(m, rest[j]) && (r.Some? ==> Apart(r.value, rest[j])) {
      StillInOne(m, m1, rest[j]);
      if r.Some? { NotGivenOut(m, m1, r.value, rest[j]); }
    }
  }

  /** What lies in one descriptor of the cut map lies in one of the whole. */
  lemma StillInOne(m: seq<Descriptor>, m1: seq<Descriptor>, b: Descriptor)
    requires Shrunk(m, m1) && InOne(m1, b)
    ensures InOne(m, b)
  {
    var i :| 0 <= i < |m1| && Inside(b, m1[i]);
    assert Inside(b, m[i]);
  }

  /** What is free after a call is not what the call gave out. */
  lemma NotGivenOut(m: seq<Descriptor>, m1: seq<Descriptor>, r: Descriptor, b: Descriptor)
    requires forall p: nat :: Free(m1, p) <==> Free(m, p) && !Covers(r, p)
    requires InOne(m1, b)
    ensures Apart(r, b)
  {
    var p := if First(r) < First(b) then First(b) else First(r);
    var i :| 0 <= i < |m1| && Inside(b, m1[i]);
    if Covers(b, p) {
      assert FreeIn(m1[i], p);
      assert Free(m1, p);
    }
  }

  /** Calls that are served by other descriptors leave descriptor i alone. */
  predicate NeverServes(m: seq<Descriptor>, orders: seq<Order>, i: nat)
    decreases |orders|
  {
    orders != [] ==> Found(m, orders[0].n) != Some(i) && NeverServes(FindSpace(m, orders[0]).0, orders[1..], i)
  }

  lemma {:induction false} Untouched(m: seq<Descriptor>, orders: seq<Order>, i: nat)
    requires i < |m| && NeverServes(m, orders, i)
    ensures i < |MapAfter(m, orders)| && MapAfter(m, orders)[i] == m[i]
    decreases |orders|
  {
    hide Found;
    if orders != [] { Untouched(FindSpace(m, orders[0]).0, orders[1..], i); }
  }

  /** The next call that the same descriptor serves, whatever came between, ends where the earlier one began. */
  lemma TopDown(m: seq<Descriptor>, o: Order, between: seq<Order>, o1: Order, i: nat)
    requires Proper(o) && Proper(o1) && Found(m, o.n) == Some(i) && Aligned(m[i])
    requires var m1 := FindSpace(m, o).0; NeverServes(m1, between, i) && Found(MapAfter(m1, between), o1.n) == Some(i)
    ensures var m1 := FindSpace(m, o).0;
      var a, b := FindSpace(m, o).1.value, FindSpace(MapAfter(m1, between), o1).1.value;
      b.start + b.pages * PAGE == a.start
  {
    hide Found, MapAfter, NeverServes;
    var m1 := FindSpace(m, o).0;
    var m2 := MapAfter(m1, between);
    Untouched(m1, between, i);
    EligibleConventional(m2[i], o1.n);
    TakeParts(m, i, o.n, o.kind, o.attribute);
    RegionIs(m2[i], o1.n, o1.kind, o1.attribute);
    RegionUse(m2[i], o1.n, o1.kind, o1.attribute);
    hide Region, Take, Eligible;
    var a, b := Region(m[i], o.n, o.kind, o.attribute), Region(m2[i], o1.n, o1.kind, o1.attribute);
    StartOfPage(a, b);
  }

  lemma StartOfPage(a: Descriptor, b: Descriptor)
    requires Aligned(a) && Aligned(b) && First(a) == First(b) + b.pages
    ensures b.start + b.pages * PAGE == a.start
  {
  }
}
