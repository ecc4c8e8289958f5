/**
 Looking a window up in the finished structure, and the state it starts from.
 Line numbers are those of DuetPkg/EfiLdr/TianoDecompress.c.
 */
module HuffmanLookup {
  import opened Words
  import opened Bytes
  import opened CanonicalCode
  import opened HuffmanForest
  import opened HuffmanBuild

  /** Follow the bits of w from depth len on, from the value v down to a symbol. */
  function Walk(n: nat, left: seq<uint16>, right: seq<uint16>, v: uint16, w: nat, len: nat): uint16
    requires len <= 16 && w < 0x1_0000
    decreases 16 - len
  {
    if v < n || len == 16 || v >= |left| || v >= |right| then v
    else Walk(n, left, right, if Bit(w, len) == 1 then right[v] else left[v], w, len + 1)
  }

  /** The two-stage lookup: table first, then trees. */
  function Lookup(n: nat, tb: nat, table: seq<uint16>, left: seq<uint16>, right: seq<uint16>, w: nat): uint16
    requires 1 <= tb <= 15 && |table| >= Pow2(tb) && w < 0x1_0000
  {
    Walk(n, left, right, TableAt(tb, table, w), w, tb)
  }

  /** The lookup finds, for every window, the symbol whose code starts it. */
  ghost predicate Decodes(lens: seq<uint8>, tb: nat, table: seq<uint16>, left: seq<uint16>, right: seq<uint16>)
    requires Complete(lens) && 1 <= tb <= 15 && |table| >= Pow2(tb)
  {
    forall w: nat :: w < 0x1_0000 ==> Lookup(|lens|, tb, table, left, right, w) == Symbol(lens, w)
  }

  /** Nodes below n are never visited. */
  lemma {:induction false} WalkFrame(n: nat, left: seq<uint16>, right: seq<uint16>, left': seq<uint16>, right': seq<uint16>,
                                     v: uint16, w: nat, len: nat)
    requires len <= 16 && w < 0x1_0000
    requires |left| == |left'| && |right| == |right'|
    requires forall i :: n <= i < |left| ==> left'[i] == left[i]
    requires forall i :: n <= i < |right| ==> right'[i] == right[i]
    ensures Walk(n, left', right', v, w, len) == Walk(n, left, right, v, w, len)
    decreases 16 - len
  {
    if !(v < n || len == 16 || v >= |left| || v >= |right|) {
      WalkFrame(n, left, right, left', right', if Bit(w, len) == 1 then right[v] else left[v], w, len + 1);
    }
  }

  /** A table survives any change to the nodes below its own. */
  lemma DecodesFrame(lens: seq<uint8>, tb: nat, table: seq<uint16>,
                     left: seq<uint16>, right: seq<uint16>, left': seq<uint16>, right': seq<uint16>)
    requires Complete(lens) && 1 <= tb <= 15 && |table| >= Pow2(tb)
    requires Decodes(lens, tb, table, left, right)
    requires |left| == |left'| && |right| == |right'|
    requires forall i :: |lens| <= i < |left| ==> left'[i] == left[i]
    requires forall i :: |lens| <= i < |right| ==> right'[i] == right[i]
    ensures Decodes(lens, tb, table, left', right')
  {
    forall w: nat | w < 0x1_0000 ensures Lookup(|lens|, tb, table, left', right', w) == Symbol(lens, w) {
      WalkFrame(|lens|, left, right, left', right', TableAt(tb, table, w), w, tb);
      assert Lookup(|lens|, tb, table, left, right, w) == Symbol(lens, w);
    }
  }

  /** The bits of a window and of its symbol's code agree as far as the code goes. */
  lemma SharedPrefix(lens: seq<uint8>, s: nat, w: nat, len: nat)
    requires Complete(lens) && HasCode(lens, s) && InSpan(lens, s, w) && len <= lens[s]
    ensures w < 0x1_0000 && Base(lens, s) < 0x1_0000 && KeyOf(w, len) == KeyOf(Base(lens, s), len)
  {
    BaseAligned(lens, s, w);
    BaseIn(lens, s);
    AlignEqual(w, Base(lens, s), len, lens[s]);
  }

  /** Reading a child of a node. */
  lemma ChildSlot(lens: seq<uint8>, b: Build, w: nat, len: nat)
    requires Shape(lens, b) && Keys(lens, b) && b.tb <= len < 16 && w < 0x1_0000 && KeyOf(w, len) in b.id
    ensures Open(lens, b, KeyOf(w, len + 1))
    ensures SlotOf(lens, b, KeyOf(w, len + 1))
         == if Bit(w, len) == 1 then Right(b.id[KeyOf(w, len)]) else Left(b.id[KeyOf(w, len)])
  {
    KeyOfProper(w, len + 1);
    ParentOfKeyOf(w, len + 1);
    BitIsHalf(w, len);
    SpanHalves(len);
  }

  lemma WalkDown(n: nat, left: seq<uint16>, right: seq<uint16>, v: uint16, w: nat, len: nat)
    requires len < 16 && w < 0x1_0000 && n <= v < |left| && v < |right|
    ensures Walk(n, left, right, v, w, len) == Walk(n, left, right, if Bit(w, len) == 1 then right[v] else left[v], w, len + 1)
  {
  }

  lemma WalkEnds(n: nat, left: seq<uint16>, right: seq<uint16>, v: uint16, w: nat, len: nat)
    requires len <= 16 && w < 0x1_0000 && v < n
    ensures Walk(n, left, right, v, w, len) == v
  {
  }

  lemma FilledHere(lens: seq<uint8>, b: Build, k: Key)
    requires Shape(lens, b) && Keys(lens, b) && Filled(lens, |lens|, b) && Open(lens, b, k)
    ensures Content(lens, |lens|, b.id, k, Read(b, SlotOf(lens, b, k)))
  {
    hide Content, SlotOf, Open;
    assert FilledAt(lens, |lens|, b, k);
  }

  lemma NodeNumber(lens: seq<uint8>, b: Build, k: Key)
    requires Shape(lens, b) && Keys(lens, b) && k in b.id
    ensures |lens| <= b.id[k] < |b.left| && b.id[k] < |b.right| && b.id[k] < 0x1_0000
  {
  }

  /** One step down the tree: to the next node on the way to symbol s, or to s itself. */
  lemma ChildFinds(lens: seq<uint8>, b: Build, s: nat, w: nat, len: nat)
    requires Complete(lens) && Shape(lens, b) && Keys(lens, b)
    requires Paths(lens, |lens|, b.tb, b.id) && Filled(lens, |lens|, b)
    requires HasCode(lens, s) && InSpan(lens, s, w) && w < 0x1_0000 && b.tb <= len < lens[s]
    requires KeyOf(w, len) in b.id
    ensures var i := b.id[KeyOf(w, len)];
      && i < |b.left| && i < |b.right| && len < 16
      && var v := if Bit(w, len) == 1 then b.right[i] else b.left[i];
         if len + 1 < lens[s] then KeyOf(w, len + 1) in b.id && v == b.id[KeyOf(w, len + 1)] else v == s
  {
    hide InSpan, Base, Filled, Paths;
    var k := KeyOf(w, len + 1);
    ChildSlot(lens, b, w, len);
    SharedPrefix(lens, s, w, len + 1);
    FilledHere(lens, b, k);
    if len + 1 < lens[s] {
      OnPath(lens, b, s, len + 1);
    } else {
      BaseIn(lens, s);
      assert LeafAt(lens, s, k);
    }
  }

  lemma OnPath(lens: seq<uint8>, b: Build, s: nat, l: nat)
    requires Bounded(lens) && Paths(lens, |lens|, b.tb, b.id) && s < |lens| && b.tb <= l < lens[s]
    ensures Base(lens, s) < 0x1_0000 && l <= 16 && KeyOf(Base(lens, s), l) in b.id
  {
    hide Base;
    assert PathOf(lens, s, b.tb, lens[s], b.id);
  }

  lemma {:induction false} WalkFinds(lens: seq<uint8>, b: Build, s: nat, w: nat, len: nat)
    requires Complete(lens) && Shape(lens, b) && Keys(lens, b)
    requires Paths(lens, |lens|, b.tb, b.id) && Filled(lens, |lens|, b)
    requires HasCode(lens, s) && InSpan(lens, s, w) && w < 0x1_0000 && b.tb <= len < lens[s]
    requires KeyOf(w, len) in b.id
    ensures Walk(|lens|, b.left, b.right, b.id[KeyOf(w, len)], w, len) == s
    decreases 16 - len
  {
    hide Shape, Keys, Paths, Filled, Complete, InSpan, Base, Walk, KeyOf;
    ChildFinds(lens, b, s, w, len);
    NodeNumber(lens, b, KeyOf(w, len));
    var v := b.id[KeyOf(w, len)];
    WalkDown(|lens|, b.left, b.right, v, w, len);
    if len + 1 < lens[s] {
      WalkFinds(lens, b, s, w, len + 1);
    } else {
      WalkEnds(|lens|, b.left, b.right, s, w, len + 1);
    }
  }

  /** With all symbols inserted, every lookup is right. */
  lemma LookupFinds(lens: seq<uint8>, b: Build, w: nat)
    requires Inv(lens, |lens|, |lens|, b) && w < 0x1_0000
    ensures Lookup(|lens|, b.tb, b.table, b.left, b.right, w) == Symbol(lens, w)
  {
    var s := Symbol(lens, w);
    PrefixesIsInterval(lens, s, w);
    if lens[s] <= b.tb {
      assert TableAt(b.tb, b.table, w) == s;
    } else {
      SharedPrefix(lens, s, w, b.tb);
      assert PathOf(lens, s, b.tb, lens[s], b.id);
      var k := KeyOf(w, b.tb);
      RootOpen(lens, b, s, w);
      assert FilledAt(lens, |lens|, b, k);
      WalkFinds(lens, b, s, w, b.tb);
    }
  }

  /** The first tb bits of a long code name a slot of the table. */
  lemma RootOpen(lens: seq<uint8>, b: Build, s: nat, w: nat)
    requires Complete(lens) && Shape(lens, b) && Keys(lens, b)
    requires HasCode(lens, s) && lens[s] > b.tb && InSpan(lens, s, w) && w < 0x1_0000
    ensures Open(lens, b, KeyOf(w, b.tb)) && SlotOf(lens, b, KeyOf(w, b.tb)) == Root(Top(w, b.tb))
  {
    KeyOfProper(w, b.tb);
    BaseEnd(lens, s);
    AreaMono(lens, b.tb + 1, lens[s]);
    AreaAligned(lens, b.tb, w);
    TopOfAlign(w, b.tb);
  }

  lemma {:induction false} TopOfAlign(w: nat, len: nat)
    requires len <= 16 && w < 0x1_0000
    ensures Top(Align(w, len), len) == Top(w, len)
  {
    AlignTwice(w, len, len);
    TopIsQuotient(w, len);
    TopIsQuotient(Align(w, len), len);
    SameFactor(Top(w, len), Top(Align(w, len), len), Span(len));
  }

  lemma SameFactor(a: nat, b: nat, s: nat)
    requires s > 0 && a * s == b * s
    ensures a == b
  {
    if a < b { MulMono(a + 1, b, s); Distribute(a, 1, s); }
    if b < a { MulMono(b + 1, a, s); Distribute(b, 1, s); }
  }

  /** The code space of the short codes is a whole number of table entries. */
  lemma AreaAligned(lens: seq<uint8>, tb: nat, w: nat)
    requires 1 <= tb <= 15 && w < 0x1_0000 && Area(lens, tb + 1) <= w
    ensures Area(lens, tb + 1) <= Align(w, tb)
    ensures Area(lens, tb + 1) == (FirstCode(lens, tb) + Count(lens, tb)) * Span(tb)
    ensures FirstCode(lens, tb) + Count(lens, tb) <= Top(w, tb)
  {
    hide Top, Align, Count, Rank;
    var q := FirstCode(lens, tb) + Count(lens, tb);
    AreaIsFirstCode(lens, tb);
    Distribute(FirstCode(lens, tb), Count(lens, tb), Span(tb));
    TopIsQuotient(w, tb);
    if q > Top(w, tb) {
      MulMono(Top(w, tb) + 1, q, Span(tb));
      Distribute(Top(w, tb), 1, Span(tb));
    } else {
      MulMono(q, Top(w, tb), Span(tb));
    }
  }

  // ---- before the first symbol

  /** No symbol is inserted and the long part of the table is zero. */
  lemma Start(lens: seq<uint8>, b: Build)
    requires Complete(lens) && Shape(lens, b) && b.id == map[] && b.avail == |lens|
    requires forall w: nat :: Area(lens, b.tb + 1) <= w < 0x1_0000 ==> TableAt(b.tb, b.table, w) == 0
    ensures Inv(lens, 0, 0, b)
  {
    if |lens| == 0 { EmptyArea(lens, 17); }
    forall k | Open(lens, b, k) ensures FilledAt(lens, 0, b, k) {
      assert TableAt(b.tb, b.table, k.start) == 0;
    }
  }

  lemma {:induction false} EmptyArea(lens: seq<uint8>, len: nat)
    requires |lens| == 0
    ensures Area(lens, len) == 0
  {
    if len > 1 { EmptyArea(lens, len - 1); }
  }

  /** How many of the first c symbols have a code of at least len bits. */
  function CountFrom(lens: seq<uint8>, len: nat, c: nat): nat
    requires c <= |lens|
  {
    if c == 0 then 0 else CountFrom(lens, len, c - 1) + (if len <= lens[c - 1] <= 16 then 1 else 0)
  }

  lemma {:induction false} CountFromSplit(lens: seq<uint8>, len: nat, c: nat)
    requires c <= |lens| && len <= 16
    ensures CountFrom(lens, len, c) == Rank(lens, len, c) + CountFrom(lens, len + 1, c)
    ensures CountFrom(lens, len, c) <= c
  {
    if c > 0 { CountFromSplit(lens, len, c - 1); }
  }

  /** The codes of at least len bits take at most Span(len) windows each. */
  lemma {:induction false} AreaTail(lens: seq<uint8>, len: nat)
    requires 1 <= len <= 17
    ensures Kraft(lens) <= Area(lens, len) + CountFrom(lens, len, |lens|) * Span(len)
    decreases 17 - len
  {
    if len <= 16 {
      AreaTail(lens, len + 1);
      CountFromSplit(lens, len, |lens|);
      var m := CountFrom(lens, len + 1, |lens|);
      assert Span(len + 1) <= Span(len) by { if len < 16 { SpanHalves(len); } }
      MulMonoRight(Span(len + 1), Span(len), m);
      Distribute(Count(lens, len), m, Span(len));
    }
  }

  lemma MulMonoRight(a: nat, b: nat, m: nat)
    requires a <= b
    ensures m * a <= m * b
  {
    MulMono(a, b, m);
  }

  /** Too few symbols for all codes to be longer than tb bits. */
  lemma AreaNotZero(lens: seq<uint8>, tb: nat)
    requires Complete(lens) && 1 <= tb <= 15 && |lens| < Pow2(tb + 1)
    ensures Area(lens, tb + 1) > 0
  {
    hide Count, Rank;
    Pow2Values();
    AreaTail(lens, tb + 1);
    CountFromSplit(lens, tb + 1, |lens|);
    if Area(lens, tb + 1) == 0 {
      MulMono(CountFrom(lens, tb + 1, |lens|), Pow2(tb + 1) - 1, Span(tb + 1));
      Pow2Add(tb + 1, 15 - tb);
      Distribute(Pow2(tb + 1) - 1, 1, Span(tb + 1));
    }
  }

  /** The codes up to tb bits fill all windows exactly if there are no longer ones. */
  lemma AreaFull(lens: seq<uint8>, tb: nat)
    requires Complete(lens) && 1 <= tb <= 15
    ensures Area(lens, tb + 1) == 0x1_0000 <==> forall c :: 0 <= c < |lens| ==> lens[c] <= tb
  {
    hide Area, Base, Rank, Span;
    AreaMono(lens, tb + 1, 17);
    if Area(lens, tb + 1) == 0x1_0000 {
      forall c | 0 <= c < |lens| ensures lens[c] <= tb {
        if lens[c] > tb { LongAbove(lens, tb, c); }
      }
    } else {
      var c := Covered(lens, 17, 0xffff);
      if lens[c] <= tb { ShortBelow(lens, tb, c); }
    }
  }

  lemma LongAbove(lens: seq<uint8>, tb: nat, c: nat)
    requires Complete(lens) && HasCode(lens, c) && lens[c] > tb
    ensures Area(lens, tb + 1) < 0x1_0000
  {
    hide Kraft, Rank;
    BaseEnd(lens, c);
    AreaMono(lens, tb + 1, lens[c]);
  }

  lemma ShortBelow(lens: seq<uint8>, tb: nat, c: nat)
    requires Complete(lens) && HasCode(lens, c) && lens[c] <= tb <= 15 && InSpan(lens, c, 0xffff)
    ensures Area(lens, tb + 1) >= 0x1_0000
  {
    hide Kraft, Rank;
    BaseEnd(lens, c);
    AreaMono(lens, lens[c] + 1, tb + 1);
  }

  /**
   The zero-fill of the long part of the table is skipped when its start, a
   16-bit number, is 0. With fewer than 2^(tb+1) symbols that means that the
   short codes fill the whole table and there is no long code.
   */
  lemma ZeroFillSkipped(lens: seq<uint8>, tb: nat)
    requires Complete(lens) && 1 <= tb <= 15 && |lens| < Pow2(tb + 1)
    ensures Area(lens, tb + 1) % 0x1_0000 == 0 <==> forall c :: 0 <= c < |lens| ==> lens[c] <= tb
    ensures Area(lens, tb + 1) % 0x1_0000 == 0 ==> Area(lens, tb + 1) == 0x1_0000
  {
    AreaMono(lens, tb + 1, 17);
    AreaNotZero(lens, tb);
    hide Area, Kraft;
    AreaFull(lens, tb);
  }

  // ---- the insertion loop on values

  /** The arrays of the C code and its node counter. */
  datatype Memory = Memory(table: seq<uint16>, left: seq<uint16>, right: seq<uint16>, avail: nat)

  ghost function MemoryOf(b: Build): Memory
  {
    Memory(b.table, b.left, b.right, b.avail)
  }

  /** The slot exists; a node slot belongs to one of the nodes n to 2n - 2. */
  predicate SlotOk(n: nat, m: Memory, s: Slot)
  {
    match s
    case Root(t) => t < |m.table|
    case Left(i) => n <= i < 2 * n - 1 && i < |m.left|
    case Right(i) => n <= i < 2 * n - 1 && i < |m.right|
  }

  function Get(n: nat, m: Memory, s: Slot): uint16
    requires SlotOk(n, m, s)
  {
    match s
    case Root(t) => m.table[t]
    case Left(i) => m.left[i]
    case Right(i) => m.right[i]
  }

  function Put(n: nat, m: Memory, s: Slot, v: uint16): Memory
    requires SlotOk(n, m, s)
  {
    match s
    case Root(t) => m.(table := m.table[t := v])
    case Left(i) => m.(left := m.left[i := v])
    case Right(i) => m.(right := m.right[i := v])
  }

  /** A node is still free, and its number fits a 16-bit slot. */
  predicate HasRoom(n: nat, m: Memory)
  {
    n <= m.avail < 2 * n - 1 && m.avail < |m.left| && m.avail < |m.right| && m.avail < 0x1_0000
  }

  /** Lines 270-271. */
  function AddNode(n: nat, m: Memory, s: Slot): Memory
    requires SlotOk(n, m, s) && HasRoom(n, m)
  {
    Put(n, m.(left := m.left[m.avail := 0], right := m.right[m.avail := 0]), s, m.avail).(avail := m.avail + 1)
  }

  /** Lines 268-284 along the given bits of the code; None where the C code would leave the arrays. */
  function InsertAlong(n: nat, m: Memory, s: Slot, path: seq<bool>, c: uint16): Option<Memory>
    decreases |path|
  {
    if !SlotOk(n, m, s) then None
    else if path == [] then Some(Put(n, m, s, c))
    else if Get(n, m, s) == 0 && !HasRoom(n, m) then None
    else
      var m1 := if Get(n, m, s) == 0 then AddNode(n, m, s) else m;
      var v := Get(n, m1, s);
      InsertAlong(n, m1, if path[0] then Right(v) else Left(v), path[1..], c)
  }

  /** Bits l to len - 1 of w. */
  function PathBits(w: nat, l: nat, len: nat): (p: seq<bool>)
    requires w < 0x1_0000 && l <= len <= 16
    ensures |p| == len - l
    decreases len - l
  {
    if l == len then [] else [Bit(w, l) == 1] + PathBits(w, l + 1, len)
  }

  // ---- one long symbol on its way down

  /** The pointer of the insertion loop stands at the slot of the first l bits of the code of c. */
  ghost predicate Standing(lens: seq<uint8>, c: nat, b: Build, l: nat, slot: Slot)
  {
    && Complete(lens) && HasCode(lens, c) && b.tb <= l <= lens[c] && Base(lens, c) < 0x1_0000
    && Shape(lens, b) && Keys(lens, b)
    && Open(lens, b, KeyOf(Base(lens, c), l)) && slot == SlotOf(lens, b, KeyOf(Base(lens, c), l))
    && PathOf(lens, c, b.tb, l, b.id)
  }

  /** Some numbering of the nodes in memory makes them the structure for the first c symbols. */
  ghost predicate Built(lens: seq<uint8>, c: nat, tb: nat, m: Memory)
  {
    exists b :: Inv(lens, c, c, b) && b.tb == tb && MemoryOf(b) == m
  }

  /** The same while symbol c is inserted, the pointer being at bit l of its code. */
  ghost predicate Underway(lens: seq<uint8>, c: nat, tb: nat, m: Memory, l: nat, slot: Slot)
  {
    exists b :: Inv(lens, c, c + 1, b) && b.tb == tb && MemoryOf(b) == m && Standing(lens, c, b, l, slot)
  }

  lemma InsertStarts(lens: seq<uint8>, c: nat, tb: nat, m: Memory)
    requires Built(lens, c, tb, m) && HasCode(lens, c) && lens[c] > tb
    ensures Base(lens, c) < 0x1_0000 && tb <= 15 && Underway(lens, c, tb, m, tb, Root(Top(Base(lens, c), tb)))
  {
    var b :| Inv(lens, c, c, b) && b.tb == tb && MemoryOf(b) == m;
    BaseIn(lens, c);
    assert InSpan(lens, c, Base(lens, c));
    RootOpen(lens, b, c, Base(lens, c));
    TracedMore(lens, c, b.id);
    assert Inv(lens, c, c + 1, b);
  }

  lemma StandingAt(lens: seq<uint8>, c: nat, b: Build, l: nat, slot: Slot)
    requires Standing(lens, c, b, l, slot)
    ensures SlotOk(|lens|, MemoryOf(b), slot) && SlotIn(b, slot) && Get(|lens|, MemoryOf(b), slot) == Read(b, slot)
  {
  }

  /** A zero slot on the way is an unallocated node, and a non-zero one is a node. */
  lemma ZeroMeansFree(lens: seq<uint8>, c: nat, b: Build, l: nat, slot: Slot, k: Key)
    requires Inv(lens, c, c + 1, b) && Standing(lens, c, b, l, slot) && l < lens[c] && k == KeyOf(Base(lens, c), l)
    ensures Through(lens, c, k)
    ensures Read(b, slot) == 0 <==> k !in b.id
    ensures k in b.id ==> Read(b, slot) == b.id[k]
  {
    assert FilledAt(lens, c, b, k);
    if k !in b.id { SlotEmpty(lens, c, b, k); }
  }

  lemma AddsNode(lens: seq<uint8>, b: Build, k: Key, slot: Slot)
    requires Allocatable(lens, b, k) && slot == SlotOf(lens, b, k)
    ensures SlotOk(|lens|, MemoryOf(b), slot) && HasRoom(|lens|, MemoryOf(b))
    ensures MemoryOf(Allocated(lens, b, k)) == AddNode(|lens|, MemoryOf(b), slot)
  {
  }

  lemma StandingKept(lens: seq<uint8>, c: nat, b: Build, b': Build, l: nat, slot: Slot, k: Key)
    requires Standing(lens, c, b, l, slot) && k == KeyOf(Base(lens, c), l) && k !in b.id
    requires Shape(lens, b') && Keys(lens, b') && b'.tb == b.tb && b'.id == b.id[k := b.avail]
    ensures Standing(lens, c, b', l, slot)
  {
    SlotStays(lens, b, b', k);
    PathKept(lens, c, b.tb, l, b.id, b'.id);
  }

  lemma PathKept(lens: seq<uint8>, c: nat, tb: nat, l: nat, id: map<Key, nat>, id': map<Key, nat>)
    requires c < |lens| && Base(lens, c) < 0x1_0000 && l <= 16 && PathOf(lens, c, tb, l, id) && id.Keys <= id'.Keys
    ensures PathOf(lens, c, tb, l, id')
  {
  }

  /** Lines 269-272 keep the structure. */
  lemma NodeAdded(lens: seq<uint8>, c: nat, tb: nat, m: Memory, l: nat, slot: Slot)
    requires Underway(lens, c, tb, m, l, slot) && HasCode(lens, c) && l < lens[c]
    requires SlotOk(|lens|, m, slot) && Get(|lens|, m, slot) == 0
    ensures HasRoom(|lens|, m) && Underway(lens, c, tb, AddNode(|lens|, m, slot), l, slot)
  {
    var b :| Inv(lens, c, c + 1, b) && b.tb == tb && MemoryOf(b) == m && Standing(lens, c, b, l, slot);
    var k := KeyOf(Base(lens, c), l);
    StandingAt(lens, c, b, l, slot);
    ZeroMeansFree(lens, c, b, l, slot, k);
    Allocate(lens, c, b, k);
    AddsNode(lens, b, k, slot);
    AllocateKeys(lens, b, k);
    StandingKept(lens, c, b, Allocated(lens, b, k), l, slot, k);
  }

  lemma PathMore(lens: seq<uint8>, c: nat, tb: nat, l: nat, id: map<Key, nat>)
    requires c < |lens| && Base(lens, c) < 0x1_0000 && l < 16 && PathOf(lens, c, tb, l, id)
    requires KeyOf(Base(lens, c), l) in id
    ensures PathOf(lens, c, tb, l + 1, id)
  {
  }

  lemma StandingDown(lens: seq<uint8>, c: nat, b: Build, l: nat, slot: Slot, w: nat)
    requires Standing(lens, c, b, l, slot) && l < lens[c] && w == Base(lens, c) && KeyOf(w, l) in b.id
    ensures var v := b.id[KeyOf(w, l)]; Standing(lens, c, b, l + 1, if Bit(w, l) == 1 then Right(v) else Left(v))
  {
    ChildSlot(lens, b, w, l);
    PathMore(lens, c, b.tb, l, b.id);
  }

  /** Lines 274-278 keep the structure. */
  lemma StepDown(lens: seq<uint8>, c: nat, tb: nat, m: Memory, l: nat, slot: Slot)
    requires Underway(lens, c, tb, m, l, slot) && HasCode(lens, c) && l < lens[c] && Base(lens, c) < 0x1_0000
    requires SlotOk(|lens|, m, slot) && Get(|lens|, m, slot) != 0
    ensures var v := Get(|lens|, m, slot);
      Underway(lens, c, tb, m, l + 1, if Bit(Base(lens, c), l) == 1 then Right(v) else Left(v))
  {
    var b :| Inv(lens, c, c + 1, b) && b.tb == tb && MemoryOf(b) == m && Standing(lens, c, b, l, slot);
    var k := KeyOf(Base(lens, c), l);
    StandingAt(lens, c, b, l, slot);
    ZeroMeansFree(lens, c, b, l, slot, k);
    StandingDown(lens, c, b, l, slot, Base(lens, c));
  }

  lemma InsertAt(lens: seq<uint8>, c: nat, tb: nat, m: Memory, l: nat, slot: Slot)
    requires Underway(lens, c, tb, m, l, slot)
    ensures SlotOk(|lens|, m, slot)
  {
    var b :| Inv(lens, c, c + 1, b) && b.tb == tb && MemoryOf(b) == m && Standing(lens, c, b, l, slot);
    StandingAt(lens, c, b, l, slot);
  }

  /** Line 284 completes the insertion. */
  lemma InsertEnds(lens: seq<uint8>, c: nat, tb: nat, m: Memory, slot: Slot)
    requires HasCode(lens, c) && lens[c] > tb && Underway(lens, c, tb, m, lens[c], slot)
    ensures SlotOk(|lens|, m, slot) && Built(lens, c + 1, tb, Put(|lens|, m, slot, c))
  {
    var b :| Inv(lens, c, c + 1, b) && b.tb == tb && MemoryOf(b) == m && Standing(lens, c, b, lens[c], slot);
    BaseIn(lens, c);
    StandingAt(lens, c, b, lens[c], slot);
    InsertLeaf(lens, c, b, KeyOf(Base(lens, c), lens[c]));
    var b' := Write(b, slot, c);
    assert MemoryOf(b') == Put(|lens|, m, slot, c);
  }

  lemma AddedNonzero(n: nat, m: Memory, s: Slot)
    requires n > 0 && SlotOk(n, m, s) && HasRoom(n, m)
    ensures SlotOk(n, AddNode(n, m, s), s) && Get(n, AddNode(n, m, s), s) == m.avail != 0
  {
  }

  /** What one turn of the loop makes of the arrays and of the pointer. */
  function Turn(n: nat, m: Memory, s: Slot, right: bool): (r: (Memory, Slot))
    requires SlotOk(n, m, s) && (Get(n, m, s) == 0 ==> HasRoom(n, m)) && n > 0
  {
    if Get(n, m, s) == 0 then
      AddedNonzero(n, m, s);
      (AddNode(n, m, s), if right then Right(m.avail) else Left(m.avail))
    else
      (m, if right then Right(Get(n, m, s)) else Left(Get(n, m, s)))
  }

  lemma TurnUnfolds(n: nat, m: Memory, s: Slot, path: seq<bool>, c: uint16)
    requires path != [] && SlotOk(n, m, s) && (Get(n, m, s) == 0 ==> HasRoom(n, m)) && n > 0
    ensures var r := Turn(n, m, s, path[0]); InsertAlong(n, m, s, path, c) == InsertAlong(n, r.0, r.1, path[1..], c)
  {
    if Get(n, m, s) == 0 { AddedNonzero(n, m, s); }
  }

  /** One turn keeps the structure. */
  lemma TurnKeeps(lens: seq<uint8>, c: nat, tb: nat, m: Memory, l: nat, slot: Slot)
    requires HasCode(lens, c) && Base(lens, c) < 0x1_0000 && l < lens[c] && Underway(lens, c, tb, m, l, slot)
    ensures SlotOk(|lens|, m, slot) && (Get(|lens|, m, slot) == 0 ==> HasRoom(|lens|, m))
    ensures var r := Turn(|lens|, m, slot, Bit(Base(lens, c), l) == 1); Underway(lens, c, tb, r.0, l + 1, r.1)
  {
    InsertAt(lens, c, tb, m, l, slot);
    if Get(|lens|, m, slot) == 0 {
      NodeAdded(lens, c, tb, m, l, slot);
      AddedNonzero(|lens|, m, slot);
      StepDown(lens, c, tb, AddNode(|lens|, m, slot), l, slot);
    } else {
      StepDown(lens, c, tb, m, l, slot);
    }
  }

  /** The loop inserts the symbol and keeps the structure. */
  lemma {:induction false} InsertKeepsBuilt(lens: seq<uint8>, c: nat, tb: nat, m: Memory, l: nat, slot: Slot)
    requires HasCode(lens, c) && Base(lens, c) < 0x1_0000 && tb < lens[c] && l <= lens[c] && Underway(lens, c, tb, m, l, slot)
    ensures var r := InsertAlong(|lens|, m, slot, PathBits(Base(lens, c), l, lens[c]), c);
      r.Some? && Built(lens, c + 1, tb, r.value)
    decreases lens[c] - l
  {
    hide Built, Base, Turn, Bit;
    if l == lens[c] {
      InsertEnds(lens, c, tb, m, slot);
    } else {
      TurnKeeps(lens, c, tb, m, l, slot);
      var r := Turn(|lens|, m, slot, Bit(Base(lens, c), l) == 1);
      InsertKeepsBuilt(lens, c, tb, r.0, l + 1, r.1);
      PathTail(Base(lens, c), l, lens[c]);
      TurnUnfolds(|lens|, m, slot, PathBits(Base(lens, c), l, lens[c]), c);
    }
  }

  lemma PathTail(w: nat, l: nat, len: nat)
    requires w < 0x1_0000 && l < len <= 16
    ensures PathBits(w, l, len)[0] == (Bit(w, l) == 1) && PathBits(w, l, len)[1..] == PathBits(w, l + 1, len)
  {
  }

  // ---- what the insertion leaves alone

  /** Only the nodes from n to below 2n - 1 differ. */
  ghost predicate Framed(n: nat, m: Memory, m': Memory)
  {
    && |m.table| == |m'.table| && |m.left| == |m'.left| && |m.right| == |m'.right|
    && (forall i :: 0 <= i < |m.left| && !(n <= i < 2 * n - 1) ==> m'.left[i] == m.left[i])
    && (forall i :: 0 <= i < |m.right| && !(n <= i < 2 * n - 1) ==> m'.right[i] == m.right[i])
  }

  lemma TurnFramed(n: nat, m: Memory, s: Slot, right: bool)
    requires SlotOk(n, m, s) && (Get(n, m, s) == 0 ==> HasRoom(n, m)) && n > 0
    ensures Framed(n, m, Turn(n, m, s, right).0)
  {
  }

  lemma {:induction false} InsertFramed(n: nat, m: Memory, s: Slot, path: seq<bool>, c: uint16)
    requires n > 0 && InsertAlong(n, m, s, path, c).Some?
    ensures Framed(n, m, InsertAlong(n, m, s, path, c).value)
    decreases |path|
  {
    if path != [] {
      var r := Turn(n, m, s, path[0]);
      TurnFramed(n, m, s, path[0]);
      TurnUnfolds(n, m, s, path, c);
      InsertFramed(n, r.0, r.1, path[1..], c);
    }
  }

  // ---- the bits as the C code finds them

  /** Index3 after j turns: line 280 shifts it left in 16 bits. */
  function IndexAfter(code: uint16, j: nat): uint16
  {
    if j == 0 then code else (2 * IndexAfter(code, j - 1) as int) % 0x1_0000
  }

  lemma IndexStart(code: uint16)
    ensures IndexAfter(code, 0) == code
  {
  }

  lemma IndexNext(code: uint16, j: nat)
    ensures IndexAfter(code, j + 1) == (2 * IndexAfter(code, j) as int) % 0x1_0000
  {
  }

  lemma {:induction false} IndexIsShifted(code: uint16, j: nat)
    ensures IndexAfter(code, j) == Low(Shl(code, j), 16)
  {
    if j == 0 {
      Pow2Values();
      LowSmall(code, 16);
    } else {
      IndexIsShifted(code, j - 1);
      LowOfDouble(Shl(code, j - 1));
    }
  }

  lemma LowOfDouble(x: nat)
    ensures Low(2 * x, 16) == (2 * Low(x, 16)) % 0x1_0000
  {
    LowOfShl(x, 0, 1, 16);
    LowLow(x, 15, 16);
    DoubleWord(Low(x, 16));
  }

  lemma DoubleWord(y: nat)
    requires y < Pow2(16)
    ensures 2 * Low(y, 15) == (2 * y) % 0x1_0000
  {
    var h, l := Shr(y, 15), Low(y, 15);
    assert y == h * Pow2(15) + l && h < 2 by {
      HighLow(y, 15);
      ShlIsMul(h, 15);
      ShrStep(y, 15);
      ShrSmall(y, 16);
    }
    assert Pow2(15) == 0x8000;
    TwoHalves(y, h, l);
  }

  lemma TwoHalves(y: nat, h: nat, l: nat)
    requires h < 2 && l < 0x8000 && y == h * 0x8000 + l
    ensures 2 * l == (2 * y) % 0x1_0000
  {
  }

  /** The bit of the code that the shifted Index3 shows under Mask (line 274). */
  lemma MaskedBit(code: uint16, tb: nat, j: nat)
    requires tb + j <= 15
    ensures Shr(IndexAfter(code, j), 15 - tb) % 2 == Bit(code, tb + j)
  {
    IndexIsShifted(code, j);
    ShiftedBit(code, j, 15 - tb, tb + 1);
    ShrIsDiv(code, 15 - tb - j);
  }

  lemma ShiftedBit(x: nat, j: nat, a: nat, t: nat)
    requires j <= a && t >= 1
    ensures Shr(Low(Shl(x, j), a + t), a) % 2 == Shr(x, a - j) % 2
  {
    LowOfShr(Shl(x, j), a, t);
    ShiftBack(x, j, a);
    LowParity(Shr(x, a - j), t);
  }

  lemma LowParity(x: nat, t: nat)
    requires t >= 1
    ensures Low(x, t) % 2 == x % 2
  {
  }

  lemma ShiftBack(x: nat, j: nat, a: nat)
    requires j <= a
    ensures Shr(Shl(x, j), a) == Shr(x, a - j)
  {
    ShlParts(x, 0, j);
    ShrShr(Shl(x, j), j, a - j);
  }

  lemma TopIsShift(code: nat, tb: nat)
    requires code < 0x1_0000 && tb <= 16
    ensures Shr(code, 16 - tb) == Top(code, tb)
  {
    TopIsQuotient(code, tb);
    ShrIsDiv(code, 16 - tb);
  }

  // ---- the outer loop on values

  lemma BuiltStart(lens: seq<uint8>, tb: nat, m: Memory)
    requires Complete(lens) && |lens| < 0x1_0000 && 1 <= tb <= 15 && |m.table| >= Pow2(tb)
    requires |m.left| == |m.right| && 2 * |lens| - 1 <= |m.left| <= 0x1_0000 && m.avail == |lens|
    requires forall w: nat :: Area(lens, tb + 1) <= w < 0x1_0000 ==> TableAt(tb, m.table, w) == 0
    ensures Built(lens, 0, tb, m)
  {
    var b := Build(tb, m.table, m.left, m.right, map[], m.avail);
    Start(lens, b);
    assert MemoryOf(b) == m;
  }

  lemma BuiltSkip(lens: seq<uint8>, c: nat, tb: nat, m: Memory)
    requires Built(lens, c, tb, m) && c < |lens| && lens[c] == 0
    ensures Built(lens, c + 1, tb, m)
  {
    var b :| Inv(lens, c, c, b) && b.tb == tb && MemoryOf(b) == m;
    Skip(lens, c, b);
  }

  lemma BuiltShort(lens: seq<uint8>, c: nat, tb: nat, m: Memory, table': seq<uint16>, lo: nat, hi: nat)
    requires Built(lens, c, tb, m) && HasCode(lens, c) && lens[c] <= tb <= 15
    requires Base(lens, c) == lo * Span(tb) && Base(lens, c) + Span(lens[c]) == hi * Span(tb)
    requires |table'| == |m.table|
    requires forall t :: 0 <= t < |table'| ==> table'[t] == if lo <= t < hi then c else m.table[t]
    ensures Built(lens, c + 1, tb, m.(table := table'))
  {
    var b :| Inv(lens, c, c, b) && b.tb == tb && MemoryOf(b) == m;
    var b' := b.(table := table');
    InsertShort(lens, c, b, b', lo, hi);
    assert MemoryOf(b') == m.(table := table');
  }

  lemma BuiltLong(lens: seq<uint8>, c: nat, tb: nat, m: Memory)
    requires Built(lens, c, tb, m) && HasCode(lens, c) && lens[c] > tb && c < 0x1_0000
    ensures Base(lens, c) < 0x1_0000 && tb <= 15
    ensures var r := InsertAlong(|lens|, m, Root(Top(Base(lens, c), tb)), PathBits(Base(lens, c), tb, lens[c]), c);
      r.Some? && Built(lens, c + 1, tb, r.value)
  {
    InsertStarts(lens, c, tb, m);
    InsertKeepsBuilt(lens, c, tb, m, tb, Root(Top(Base(lens, c), tb)));
  }

  /** With all symbols inserted, the lookup is right. */
  lemma BuiltDecodes(lens: seq<uint8>, tb: nat, m: Memory)
    requires Built(lens, |lens|, tb, m)
    ensures Complete(lens) && 1 <= tb <= 15 && |m.table| >= Pow2(tb) && Decodes(lens, tb, m.table, m.left, m.right)
  {
    var b :| Inv(lens, |lens|, |lens|, b) && b.tb == tb && MemoryOf(b) == m;
    forall w: nat | w < 0x1_0000 ensures Lookup(|lens|, tb, m.table, m.left, m.right, w) == Symbol(lens, w) {
      LookupFinds(lens, b, w);
    }
  }

  // ---- the finished arrays

  /** A child of node i is a symbol or a node with a higher number. */
  predicate ChildOk(n: nat, i: nat, v: nat, avail: nat)
  {
    v < n || i < v < avail
  }

  /** The nodes n to avail - 1 lead downwards only, and the table leads to symbols and nodes. */
  ghost predicate DescendsTo(n: nat, tb: nat, table: seq<uint16>, left: seq<uint16>, right: seq<uint16>, avail: nat)
    requires 1 <= tb <= 15 && |table| >= Pow2(tb)
  {
    && n <= avail <= 2 * n - 1 && avail <= |left| && avail <= |right|
    && (forall w: nat :: w < 0x1_0000 ==> TableAt(tb, table, w) < avail)
    && forall i :: n <= i < avail ==> ChildOk(n, i, left[i], avail) && ChildOk(n, i, right[i], avail)
  }

  /** Fewer than n nodes, and every descent from the table goes on to higher nodes until it ends at a symbol. */
  ghost predicate Descends(n: nat, tb: nat, table: seq<uint16>, left: seq<uint16>, right: seq<uint16>)
    requires 1 <= tb <= 15 && |table| >= Pow2(tb)
  {
    exists avail: nat :: DescendsTo(n, tb, table, left, right, avail)
  }

  /** Every number from n to avail - 1 is some prefix's node. */
  lemma NodeHasKey(n: nat, tb: nat, id: map<Key, nat>, avail: nat, i: nat) returns (k: Key)
    requires Numbered(n, tb, id, avail) && n <= i < avail
    ensures k in id && id[k] == i
  {
    if forall q :: q in id ==> id[q] != i {
      Injected(id, id.Keys, n, avail, i);
      assert false;
    }
    k :| k in id && id[k] == i;
  }

  /** Distinct numbers from n to avail - 1 other than i are at most avail - n - 1. */
  lemma Injected(id: map<Key, nat>, keys: set<Key>, n: nat, avail: nat, i: nat)
    requires keys <= id.Keys && n <= i < avail
    requires forall k :: k in keys ==> n <= id[k] < avail && id[k] != i
    requires forall k, k' {:trigger id[k], id[k']} :: k in keys && k' in keys && id[k] == id[k'] ==> k == k'
    ensures |keys| < avail - n
  {
    var taken := Numbers(id, keys);
    assert i !in taken;
    InRange(taken + {i}, n, avail);
  }

  /** The numbers of some keys; as many as there are keys. */
  lemma Numbers(id: map<Key, nat>, keys: set<Key>) returns (s: set<nat>)
    requires keys <= id.Keys
    requires forall k, k' {:trigger id[k], id[k']} :: k in keys && k' in keys && id[k] == id[k'] ==> k == k'
    ensures |s| == |keys| && forall x :: x in s ==> exists k :: k in keys && id[k] == x
    decreases |keys|
  {
    if keys == {} {
      s := {};
    } else {
      var k :| k in keys;
      var rest := Numbers(id, keys - {k});
      s := rest + {id[k]};
    }
  }

  lemma {:induction false} InRange(s: set<nat>, lo: nat, hi: nat)
    requires lo <= hi && forall x :: x in s ==> lo <= x < hi
    ensures |s| <= hi - lo
    decreases hi
  {
    if lo == hi {
      assert s == {};
    } else {
      InRange(s - {hi - 1}, lo, hi - 1);
    }
  }

  /** What a slot of the finished structure holds. */
  lemma SlotHolds(lens: seq<uint8>, b: Build, k: Key)
    requires Inv(lens, |lens|, |lens|, b) && Open(lens, b, k) && k.len > b.tb
    ensures ChildOk(|lens|, b.id[Parent(k)], Read(b, SlotOf(lens, b, k)), b.avail)
  {
    hide Traced, Paths, Shorts, Complete;
    assert FilledAt(lens, |lens|, b, k);
    if k in b.id {
      assert b.id[Parent(k)] < b.id[k];
    }
  }

  lemma NodeDescends(lens: seq<uint8>, b: Build, k: Key)
    requires Inv(lens, |lens|, |lens|, b) && k in b.id
    ensures b.id[k] < |b.left| && b.id[k] < |b.right|
    ensures ChildOk(|lens|, b.id[k], b.left[b.id[k]], b.avail) && ChildOk(|lens|, b.id[k], b.right[b.id[k]], b.avail)
  {
    hide Traced, Paths, Shorts, Complete, Filled;
    MidAligned(k);
    BitIsHalf(k.start, k.len);
    BitIsHalf(Mid(k), k.len);
    assert Span(k.len + 1) > 0;
    ChildSlot(lens, b, k.start, k.len);
    ChildSlot(lens, b, Mid(k), k.len);
    ParentOfKeyOf(k.start, k.len + 1);
    ParentOfKeyOf(Mid(k), k.len + 1);
    SlotHolds(lens, b, KeyOf(k.start, k.len + 1));
    SlotHolds(lens, b, KeyOf(Mid(k), k.len + 1));
  }

  lemma EntryDescends(lens: seq<uint8>, b: Build, w: nat)
    requires Inv(lens, |lens|, |lens|, b) && w < 0x1_0000
    ensures TableAt(b.tb, b.table, w) < b.avail
  {
    var s := Symbol(lens, w);
    PrefixesIsInterval(lens, s, w);
    if lens[s] > b.tb {
      SharedPrefix(lens, s, w, b.tb);
      assert PathOf(lens, s, b.tb, lens[s], b.id);
      RootOpen(lens, b, s, w);
      assert FilledAt(lens, |lens|, b, KeyOf(w, b.tb));
    }
  }

  lemma BuildDescends(lens: seq<uint8>, b: Build)
    requires Inv(lens, |lens|, |lens|, b)
    ensures 1 <= b.tb <= 15 && |b.table| >= Pow2(b.tb) && DescendsTo(|lens|, b.tb, b.table, b.left, b.right, b.avail)
  {
    hide TableAt, ChildOk, Filled, Paths, Traced, Shorts, Closed, Complete;
    forall w: nat | w < 0x1_0000 ensures TableAt(b.tb, b.table, w) < b.avail { EntryDescends(lens, b, w); }
    forall i | |lens| <= i < b.avail ensures ChildOk(|lens|, i, b.left[i], b.avail) && ChildOk(|lens|, i, b.right[i], b.avail) {
      var k := NodeHasKey(|lens|, b.tb, b.id, b.avail, i);
      NodeDescends(lens, b, k);
    }
  }

  /** With all symbols inserted, the arrays lead from the table down to symbols. */
  lemma BuiltDescends(lens: seq<uint8>, tb: nat, m: Memory)
    requires Built(lens, |lens|, tb, m)
    ensures 1 <= tb <= 15 && |m.table| >= Pow2(tb) && Descends(|lens|, tb, m.table, m.left, m.right)
  {
    hide DescendsTo, Inv;
    var b :| Inv(lens, |lens|, |lens|, b) && b.tb == tb && MemoryOf(b) == m;
    BuildDescends(lens, b);
    assert DescendsTo(|lens|, tb, m.table, m.left, m.right, b.avail);
  }
}
