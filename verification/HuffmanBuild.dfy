/**
 What holds while MakeTable inserts the symbols one after the other, and the
 steps that keep it.
 */
module HuffmanBuild {
  import opened Words
  import opened CanonicalCode
  import opened HuffmanForest

  /** What the C pointer of the insertion loop may point to. */
  datatype Slot = Root(t: nat) | Left(i: nat) | Right(i: nat)

  /** The arrays, and which node stands for which prefix. */
  datatype Build = Build(
    tb: nat,
    table: seq<uint16>, left: seq<uint16>, right: seq<uint16>,
    id: map<Key, nat>, avail: nat)

  ghost predicate SlotIn(b: Build, s: Slot)
  {
    match s
    case Root(t) => t < |b.table|
    case Left(i) => i < |b.left|
    case Right(i) => i < |b.right|
  }

  ghost function Read(b: Build, s: Slot): uint16
    requires SlotIn(b, s)
  {
    match s
    case Root(t) => b.table[t]
    case Left(i) => b.left[i]
    case Right(i) => b.right[i]
  }

  ghost function Write(b: Build, s: Slot, v: uint16): Build
    requires SlotIn(b, s)
  {
    match s
    case Root(t) => b.(table := b.table[t := v])
    case Left(i) => b.(left := b.left[i := v])
    case Right(i) => b.(right := b.right[i := v])
  }

  /** The arrays are large enough for the table and for one node less than there are symbols. */
  ghost predicate Shape(lens: seq<uint8>, b: Build)
  {
    && 1 <= b.tb <= 15
    && |b.table| >= Pow2(b.tb)
    && |b.left| == |b.right| && 2 * |lens| - 1 <= |b.left| <= 0x1_0000
    && |lens| < 0x1_0000
  }

  ghost predicate Keys(lens: seq<uint8>, b: Build)
  {
    Numbered(|lens|, b.tb, b.id, b.avail) && b.avail <= 2 * |lens| - 1 <= |b.left|
  }

  /** The nodes are numbered from n to below avail, one for each prefix. */
  ghost predicate Numbered(n: nat, tb: nat, id: map<Key, nat>, avail: nat)
  {
    && |id| == avail - n
    && (forall k :: k in id ==> Proper(k) && tb <= k.len < 16 && n <= id[k] < avail)
    && (forall k, k' {:trigger id[k], id[k']} :: k in id && k' in id && id[k] == id[k'] ==> k == k')
  }

  /** Nodes hang together, and a child is numbered above its parent. */
  ghost predicate Closed(tb: nat, id: map<Key, nat>)
  {
    forall k {:trigger Parent(k)} :: k in id && k.len > tb ==>
      k.len <= 16 && k.start < 0x1_0000 && Parent(k) in id && id[Parent(k)] < id[k]
  }

  /** Every node is on the way to one of the first d symbols. */
  ghost predicate Traced(lens: seq<uint8>, d: nat, id: map<Key, nat>)
    requires Complete(lens)
  {
    forall k {:trigger OnTheWay(lens, d, k)} :: k in id ==> OnTheWay(lens, d, k)
  }

  /** The prefix k is on the way to one of the first d symbols. */
  ghost predicate OnTheWay(lens: seq<uint8>, d: nat, k: Key)
    requires Complete(lens)
  {
    exists c :: 0 <= c < d && c < |lens| && Through(lens, c, k)
  }

  ghost predicate PathOf(lens: seq<uint8>, c: nat, tb: nat, upto: nat, id: map<Key, nat>)
    requires c < |lens| && Base(lens, c) < 0x1_0000 && upto <= 16
  {
    forall l :: tb <= l < upto ==> KeyOf(Base(lens, c), l) in id
  }

  /** Every node on the way to one of the first c symbols is there. */
  ghost predicate Paths(lens: seq<uint8>, c: nat, tb: nat, id: map<Key, nat>)
    requires Bounded(lens) && c <= |lens|
  {
    forall e :: 0 <= e < c && lens[e] > tb ==> Base(lens, e) < 0x1_0000 && PathOf(lens, e, tb, lens[e], id)
  }

  /** A prefix whose slot exists: a long one of tb bits, or a child of a node. */
  ghost predicate Open(lens: seq<uint8>, b: Build, k: Key)
  {
    && Proper(k) && b.tb <= k.len <= 16
    && (if k.len == b.tb then k.start >= Area(lens, b.tb + 1) else Parent(k) in b.id)
  }

  ghost function SlotOf(lens: seq<uint8>, b: Build, k: Key): (s: Slot)
    requires Shape(lens, b) && Keys(lens, b) && Open(lens, b, k)
    ensures SlotIn(b, s)
  {
    if k.len == b.tb then Root(Top(k.start, b.tb))
    else if k.start == Parent(k).start then Left(b.id[Parent(k)])
    else Right(b.id[Parent(k)])
  }

  /** Symbol e ends at the prefix k. */
  predicate LeafAt(lens: seq<uint8>, e: nat, k: Key)
  {
    HasCode(lens, e) && lens[e] == k.len && Base(lens, e) == k.start
  }

  /** v is the node of the prefix k, or the symbol among the first c ending there, or 0. */
  ghost predicate Content(lens: seq<uint8>, c: nat, id: map<Key, nat>, k: Key, v: uint16)
  {
    && (k in id ==> v == id[k])
    && (forall e :: 0 <= e < c && LeafAt(lens, e, k) ==> v == e)
    && (k !in id && (forall e :: 0 <= e < c ==> !LeafAt(lens, e, k)) ==> v == 0)
  }

  ghost predicate FilledAt(lens: seq<uint8>, c: nat, b: Build, k: Key)
    requires Shape(lens, b) && Keys(lens, b) && Open(lens, b, k)
  {
    Content(lens, c, b.id, k, Read(b, SlotOf(lens, b, k)))
  }

  ghost predicate Filled(lens: seq<uint8>, c: nat, b: Build)
    requires Shape(lens, b) && Keys(lens, b)
  {
    forall k :: Open(lens, b, k) ==> FilledAt(lens, c, b, k)
  }

  /** The table entry for a window. */
  function TableAt(tb: nat, table: seq<uint16>, w: nat): uint16
    requires 1 <= tb <= 15 && |table| >= Pow2(tb) && w < 0x1_0000
  {
    table[Top(w, tb)]
  }

  /** Windows of the short codes among the first c are decoded by the table alone. */
  ghost predicate Shorts(lens: seq<uint8>, c: nat, b: Build)
    requires Shape(lens, b) && c <= |lens|
  {
    forall e, w :: 0 <= e < c && HasCode(lens, e) && lens[e] <= b.tb && w < 0x1_0000 && InSpan(lens, e, w) ==>
      TableAt(b.tb, b.table, w) == e
  }

  /** The first c symbols are inserted; nodes may exist on the way to symbols below d. */
  ghost predicate Inv(lens: seq<uint8>, c: nat, d: nat, b: Build)
  {
    && Complete(lens) && c <= |lens|
    && Shape(lens, b) && Keys(lens, b) && Closed(b.tb, b.id)
    && Traced(lens, d, b.id) && Paths(lens, c, b.tb, b.id) && Filled(lens, c, b) && Shorts(lens, c, b)
  }

  lemma TracedMore(lens: seq<uint8>, d: nat, id: map<Key, nat>)
    requires Complete(lens) && Traced(lens, d, id)
    ensures Traced(lens, d + 1, id)
  {
    forall k | k in id ensures OnTheWay(lens, d + 1, k) {
      assert OnTheWay(lens, d, k);
    }
  }

  // ---- slots

  lemma ParentOrMid(k: Key)
    requires Proper(k) && k.len > 0
    ensures k.start == Parent(k).start || k.start == Parent(k).start + Span(k.len)
  {
  }

  /** Different prefixes have different slots. */
  lemma SlotsDistinct(lens: seq<uint8>, b: Build, k: Key, k': Key)
    requires Shape(lens, b) && Keys(lens, b) && Open(lens, b, k) && Open(lens, b, k')
    requires SlotOf(lens, b, k) == SlotOf(lens, b, k')
    ensures k == k'
  {
    if k.len == b.tb {
      TopInjective(k.start, k'.start, b.tb);
    } else {
      assert b.id[Parent(k)] == b.id[Parent(k')];
      ParentOrMid(k);
      ParentOrMid(k');
    }
  }

  lemma BaseIn(lens: seq<uint8>, c: nat)
    requires Complete(lens) && HasCode(lens, c)
    ensures Base(lens, c) < 0x1_0000 && Align(Base(lens, c), lens[c]) == Base(lens, c)
  {
    assert Span(lens[c]) >= 1;
    assert InSpan(lens, c, Base(lens, c));
    BaseAligned(lens, c, Base(lens, c));
  }

  /** A code that goes on below k and one that ends at k are not both possible. */
  lemma NoLeafOnPath(lens: seq<uint8>, c: nat, e: nat, k: Key)
    requires Complete(lens)
    ensures !(Through(lens, c, k) && LeafAt(lens, e, k))
  {
    if Through(lens, c, k) && LeafAt(lens, e, k) {
      var w := Base(lens, c);
      BaseIn(lens, c);
      assert InSpan(lens, e, w);
      assert InSpan(lens, c, w);
      SpansDisjoint(lens, c, e, w);
    }
  }

  // ---- allocating a node

  ghost function Allocated(lens: seq<uint8>, b: Build, k: Key): Build
    requires Shape(lens, b) && Keys(lens, b) && Open(lens, b, k) && b.avail < 2 * |lens| - 1
  {
    var b0 := b.(left := b.left[b.avail := 0], right := b.right[b.avail := 0]);
    Write(b0, SlotOf(lens, b, k), b.avail).(id := b.id[k := b.avail], avail := b.avail + 1)
  }

  lemma SlotEmpty(lens: seq<uint8>, c: nat, b: Build, k: Key)
    requires Inv(lens, c, c + 1, b) && Open(lens, b, k) && k !in b.id && Through(lens, c, k)
    ensures Read(b, SlotOf(lens, b, k)) == 0
  {
    assert FilledAt(lens, c, b, k);
    forall e: nat | e < c ensures !LeafAt(lens, e, k) {
      NoLeafOnPath(lens, c, e, k);
    }
  }

  /** There is always room for one more node. */
  lemma RoomForNode(lens: seq<uint8>, c: nat, b: Build, k: Key)
    requires Complete(lens) && c < |lens| && Shape(lens, b) && |b.id| == b.avail - |lens|
    requires Traced(lens, c + 1, b.id) && k !in b.id && Through(lens, c, k)
    ensures b.avail < 2 * |lens| - 1 <= |b.left|
  {
    var keys := b.id.Keys + {k};
    assert AllTraced(lens, keys) by {
      forall q | q in keys ensures exists e :: 0 <= e < |lens| && Through(lens, e, q) {
        if q != k {
          assert OnTheWay(lens, c + 1, q);
        }
      }
    }
    FewerNodesThanSymbols(lens, keys);
    assert |keys| == |b.id| + 1;
  }

  ghost predicate Allocatable(lens: seq<uint8>, b: Build, k: Key)
  {
    Shape(lens, b) && Keys(lens, b) && Open(lens, b, k) && k !in b.id && k.len < 16 && b.avail < 2 * |lens| - 1
  }

  lemma AllocateKeys(lens: seq<uint8>, b: Build, k: Key)
    requires Allocatable(lens, b, k)
    ensures
      var b' := Allocated(lens, b, k);
      && Shape(lens, b') && Keys(lens, b') && b'.tb == b.tb
      && b'.id == b.id[k := b.avail] && b'.avail == b.avail + 1
  {
    AllocatedFields(lens, b, k);
    NumberOneMore(|lens|, b.tb, b.id, b.avail, k);
  }

  lemma AllocatedFields(lens: seq<uint8>, b: Build, k: Key)
    requires Allocatable(lens, b, k)
    ensures
      var b' := Allocated(lens, b, k);
      && b'.tb == b.tb && b'.id == b.id[k := b.avail] && b'.avail == b.avail + 1
      && |b'.table| == |b.table| && |b'.left| == |b.left| && |b'.right| == |b.right|
  {
  }

  lemma AllocateRoot(lens: seq<uint8>, b: Build, k: Key)
    requires Allocatable(lens, b, k)
    ensures RootWritten(b, Allocated(lens, b, k), k, b.avail)
  {
  }

  lemma NumberOneMore(n: nat, tb: nat, id: map<Key, nat>, avail: nat, k: Key)
    requires Numbered(n, tb, id, avail) && k !in id && Proper(k) && tb <= k.len < 16
    ensures Numbered(n, tb, id[k := avail], avail + 1)
  {
    hide Proper;
    var id' := id[k := avail];
    assert id'.Keys == id.Keys + {k};
    forall q | q in id' ensures Proper(q) && tb <= q.len < 16 && n <= id'[q] < avail + 1 {
      if q != k { assert q in id; }
    }
    forall q, q' | q in id' && q' in id' && id'[q] == id'[q'] ensures q == q' {
      if q != k && q' != k { assert q in id && q' in id; }
    }
  }

  lemma AllocateClosed(lens: seq<uint8>, b: Build, b': Build, k: Key)
    requires Keys(lens, b) && Keys(lens, b') && Closed(b.tb, b.id) && Open(lens, b, k) && k !in b.id && b'.tb == b.tb
    requires b'.id == b.id[k := b.avail]
    ensures Closed(b'.tb, b'.id)
  {
  }

  lemma AllocateTraced(lens: seq<uint8>, c: nat, b: Build, b': Build, k: Key)
    requires Complete(lens) && c < |lens| && Traced(lens, c + 1, b.id) && Through(lens, c, k)
    requires b'.id == b.id[k := b.avail]
    ensures Traced(lens, c + 1, b'.id)
  {
    forall q | q in b'.id ensures OnTheWay(lens, c + 1, q) {
      if q != k { assert q in b.id; }
    }
  }

  lemma AllocatePaths(lens: seq<uint8>, c: nat, b: Build, b': Build)
    requires Bounded(lens) && c <= |lens| && Paths(lens, c, b.tb, b.id) && b'.tb == b.tb
    requires b.id.Keys <= b'.id.Keys
    ensures Paths(lens, c, b'.tb, b'.id)
  {
    forall e | 0 <= e < c && lens[e] > b.tb ensures Base(lens, e) < 0x1_0000 && PathOf(lens, e, b'.tb, lens[e], b'.id) {
      assert PathOf(lens, e, b.tb, lens[e], b.id);
    }
  }

  /** A slot that is neither written nor one of the new node's keeps its content. */
  lemma ReadOther(b: Build, s: Slot, v: uint16, q: Slot)
    requires SlotIn(b, s) && SlotIn(b, q) && s != q
    ensures SlotIn(Write(b, s, v), q) && Read(Write(b, s, v), q) == Read(b, q)
  {
  }

  lemma ReadWritten(b: Build, s: Slot, v: uint16)
    requires SlotIn(b, s)
    ensures SlotIn(Write(b, s, v), s) && Read(Write(b, s, v), s) == v
  {
  }

  lemma SlotBelow(lens: seq<uint8>, b: Build, q: Key)
    requires Shape(lens, b) && Keys(lens, b) && Open(lens, b, q)
    ensures SlotOf(lens, b, q).Root? || SlotOf(lens, b, q).i < b.avail
  {
  }

  lemma SlotStays(lens: seq<uint8>, b: Build, b': Build, q: Key)
    requires Shape(lens, b) && Keys(lens, b) && Open(lens, b, q)
    requires Shape(lens, b') && Keys(lens, b') && b'.tb == b.tb
    requires forall k :: k in b.id ==> k in b'.id && b'.id[k] == b.id[k]
    ensures Open(lens, b', q) && SlotOf(lens, b', q) == SlotOf(lens, b, q)
  {
  }

  /** Slots that existed before the allocation and are not the written one keep their content. */
  lemma AllocateOld(lens: seq<uint8>, b: Build, k: Key, q: Key)
    requires Allocatable(lens, b, k) && Open(lens, b, q) && q != k
    ensures
      var b' := Allocated(lens, b, k);
      SlotIn(b', SlotOf(lens, b, q)) && Read(b', SlotOf(lens, b, q)) == Read(b, SlotOf(lens, b, q))
  {
    var b0 := b.(left := b.left[b.avail := 0], right := b.right[b.avail := 0]);
    var s, t := SlotOf(lens, b, k), SlotOf(lens, b, q);
    if s == t { SlotsDistinct(lens, b, q, k); }
    SlotBelow(lens, b, q);
    assert Read(b0, t) == Read(b, t);
    ReadOther(b0, s, b.avail, t);
  }

  lemma AllocateSelf(lens: seq<uint8>, b: Build, k: Key)
    requires Allocatable(lens, b, k)
    requires Shape(lens, Allocated(lens, b, k)) && Keys(lens, Allocated(lens, b, k))
    ensures
      var b' := Allocated(lens, b, k);
      Open(lens, b', k) && Read(b', SlotOf(lens, b', k)) == b.avail
  {
    var b0 := b.(left := b.left[b.avail := 0], right := b.right[b.avail := 0]);
    AllocatedFields(lens, b, k);
    SlotStays(lens, b, Allocated(lens, b, k), k);
    ReadWritten(b0, SlotOf(lens, b, k), b.avail);
  }

  /** The children of the new node are empty. */
  lemma AllocateNew(lens: seq<uint8>, b: Build, k: Key, q: Key)
    requires Allocatable(lens, b, k)
    requires Shape(lens, Allocated(lens, b, k)) && Keys(lens, Allocated(lens, b, k))
    requires Open(lens, Allocated(lens, b, k), q) && !Open(lens, b, q)
    ensures q.len > b.tb && Parent(q) == k
    ensures Read(Allocated(lens, b, k), SlotOf(lens, Allocated(lens, b, k), q)) == 0
  {
    var b0 := b.(left := b.left[b.avail := 0], right := b.right[b.avail := 0]);
    AllocatedFields(lens, b, k);
    SlotBelow(lens, b, k);
    var t := SlotOf(lens, Allocated(lens, b, k), q);
    assert t == Left(b.avail) || t == Right(b.avail);
    ReadOther(b0, SlotOf(lens, b, k), b.avail, t);
  }

  /** No symbol inserted so far ends below a prefix that has no node. */
  lemma NoLeafBelow(lens: seq<uint8>, c: nat, b: Build, q: Key, e: nat)
    requires Complete(lens) && c <= |lens| && Paths(lens, c, b.tb, b.id) && Proper(q) && q.len > b.tb && Parent(q) !in b.id && e < c
    ensures !LeafAt(lens, e, q)
  {
  }

  lemma ContentOfNew(lens: seq<uint8>, c: nat, b: Build, b': Build, k: Key, q: Key)
    requires Complete(lens) && c <= |lens| && Paths(lens, c, b.tb, b.id) && Closed(b.tb, b.id)
    requires k !in b.id && b'.id == b.id[k := b.avail]
    requires Proper(q) && q.len > b.tb && Parent(q) == k
    ensures Content(lens, c, b'.id, q, 0)
  {
    forall e: nat | e < c ensures !LeafAt(lens, e, q) {
      NoLeafBelow(lens, c, b, q, e);
    }
  }

  lemma ContentOfNode(lens: seq<uint8>, c: nat, b: Build, b': Build, k: Key)
    requires Complete(lens) && Through(lens, c, k) && b'.id == b.id[k := b.avail] && b.avail < 0x1_0000
    ensures Content(lens, c, b'.id, k, b.avail)
  {
    forall e: nat | e < c ensures !LeafAt(lens, e, k) {
      NoLeafOnPath(lens, c, e, k);
    }
  }

  lemma ContentOfOld(lens: seq<uint8>, c: nat, id: map<Key, nat>, id': map<Key, nat>, k: Key, n: nat, q: Key, v: uint16)
    requires Content(lens, c, id, q, v) && id' == id[k := n] && q != k
    ensures Content(lens, c, id', q, v)
  {
  }

  lemma AllocateFilledOld(lens: seq<uint8>, c: nat, b: Build, b': Build, k: Key, q: Key)
    requires Allocatable(lens, b, k) && q != k && Open(lens, b, q) && FilledAt(lens, c, b, q)
    requires Shape(lens, b') && Keys(lens, b') && Open(lens, b', q) && b'.tb == b.tb && b'.id == b.id[k := b.avail]
    requires b' == Allocated(lens, b, k)
    ensures FilledAt(lens, c, b', q)
  {
    AllocateOld(lens, b, k, q);
    SlotStays(lens, b, b', q);
    ContentOfOld(lens, c, b.id, b'.id, k, b.avail, q, Read(b, SlotOf(lens, b, q)));
  }

  lemma AllocateFilled(lens: seq<uint8>, c: nat, b: Build, b': Build, k: Key, q: Key)
    requires Complete(lens) && c <= |lens| && Allocatable(lens, b, k) && Through(lens, c, k)
    requires Filled(lens, c, b) && Paths(lens, c, b.tb, b.id) && Closed(b.tb, b.id)
    requires Shape(lens, b') && Keys(lens, b') && Open(lens, b', q) && b'.tb == b.tb && b'.id == b.id[k := b.avail]
    requires b' == Allocated(lens, b, k)
    ensures FilledAt(lens, c, b', q)
  {
    if q == k {
      AllocateSelf(lens, b, k);
      ContentOfNode(lens, c, b, b', k);
    } else if Open(lens, b, q) {
      AllocateFilledOld(lens, c, b, b', k, q);
    } else {
      AllocateNew(lens, b, k, q);
      ContentOfNew(lens, c, b, b', k, q);
    }
  }

  lemma Allocate(lens: seq<uint8>, c: nat, b: Build, k: Key)
    requires Inv(lens, c, c + 1, b) && c < |lens|
    requires Open(lens, b, k) && k !in b.id && Through(lens, c, k)
    ensures Read(b, SlotOf(lens, b, k)) == 0
    ensures b.avail < 2 * |lens| - 1 <= |b.left|
    ensures Inv(lens, c, c + 1, Allocated(lens, b, k))
  {
    SlotEmpty(lens, c, b, k);
    RoomForNode(lens, c, b, k);
    var b' := Allocated(lens, b, k);
    AllocateKeys(lens, b, k);
    AllocateRoot(lens, b, k);
    AllocateClosed(lens, b, b', k);
    AllocateTraced(lens, c, b, b', k);
    AllocatePaths(lens, c, b, b');
    forall q | Open(lens, b', q) ensures FilledAt(lens, c, b', q) {
      AllocateFilled(lens, c, b, b', k, q);
    }
    RootsKeepShorts(lens, c, b, b', k, b.avail);
  }

  /** Writing a long slot does not disturb the short codes. */
  lemma RootsKeepShorts(lens: seq<uint8>, c: nat, b: Build, b': Build, k: Key, v: uint16)
    requires Shape(lens, b) && c <= |lens| && Shorts(lens, c, b) && Open(lens, b, k)
    requires Shape(lens, b') && b'.tb == b.tb
    requires RootWritten(b, b', k, v)
    ensures Shorts(lens, c, b')
  {
    forall e: nat, w: nat | e < c && HasCode(lens, e) && lens[e] <= b.tb && w < 0x1_0000 && InSpan(lens, e, w)
      ensures TableAt(b.tb, b'.table, w) == e
    {
      assert TableAt(b.tb, b.table, w) == e;
      RootKeepsShort(lens, b, b', k, v, e, w);
    }
  }

  /** The table is unchanged, or changed at the slot of the prefix k only. */
  ghost predicate RootWritten(b: Build, b': Build, k: Key, v: uint16)
    requires b.tb <= 16 && k.start < 0x1_0000
  {
    || b'.table == b.table
    || (k.len == b.tb && Top(k.start, b.tb) < |b.table| && b'.table == b.table[Top(k.start, b.tb) := v])
  }

  lemma RootKeepsShort(lens: seq<uint8>, b: Build, b': Build, k: Key, v: uint16, e: nat, w: nat)
    requires Shape(lens, b) && Open(lens, b, k) && Shape(lens, b') && b'.tb == b.tb
    requires RootWritten(b, b', k, v)
    requires HasCode(lens, e) && lens[e] <= b.tb && w < 0x1_0000 && InSpan(lens, e, w)
    ensures TableAt(b.tb, b'.table, w) == TableAt(b.tb, b.table, w)
  {
    if k.len == b.tb { LongRootApart(lens, e, w, k); }
  }

  lemma LongRootApart(lens: seq<uint8>, e: nat, w: nat, k: Key)
    requires HasCode(lens, e) && lens[e] <= k.len && w < 0x1_0000 && InSpan(lens, e, w)
    requires Proper(k) && k.start >= Area(lens, k.len + 1)
    ensures Top(w, k.len) != Top(k.start, k.len)
  {
    ShortBelowLong(lens, e, k.len, w);
    if Top(w, k.len) == Top(k.start, k.len) { TopInjective(w, k.start, k.len); }
  }

  lemma ShortBelowLong(lens: seq<uint8>, e: nat, tb: nat, w: nat)
    requires HasCode(lens, e) && lens[e] <= tb && InSpan(lens, e, w)
    ensures w < Area(lens, tb + 1)
  {
    BaseEnd(lens, e);
    AreaMono(lens, lens[e] + 1, tb + 1);
  }

  // ---- finishing a symbol

  ghost predicate Inserting(lens: seq<uint8>, c: nat, b: Build)
  {
    && Inv(lens, c, c + 1, b) && HasCode(lens, c) && lens[c] > b.tb
    && Base(lens, c) < 0x1_0000 && PathOf(lens, c, b.tb, lens[c], b.id)
  }

  /** The slot of the symbol's own code: open, and not a node. */
  lemma LeafSlot(lens: seq<uint8>, c: nat, b: Build)
    requires Inserting(lens, c, b)
    ensures Open(lens, b, Key(lens[c], Base(lens, c))) && Key(lens[c], Base(lens, c)) !in b.id
  {
    var k := Key(lens[c], Base(lens, c));
    BaseIn(lens, c);
    assert Parent(k) == KeyOf(Base(lens, c), lens[c] - 1);
    if k in b.id {
      assert OnTheWay(lens, c + 1, k);
      var e :| 0 <= e < c + 1 && e < |lens| && Through(lens, e, k);
      NoLeafOnPath(lens, e, c, k);
    }
  }

  /** Only symbol c ends at its own code. */
  lemma OnlyLeaf(lens: seq<uint8>, c: nat, e: nat)
    requires Complete(lens) && HasCode(lens, c) && LeafAt(lens, e, Key(lens[c], Base(lens, c)))
    ensures e == c
  {
    BaseIn(lens, e);
    var w := Base(lens, c);
    assert InSpan(lens, e, w);
    assert InSpan(lens, c, w);
    SpansDisjoint(lens, c, e, w);
  }

  lemma WriteKeepsKeys(lens: seq<uint8>, b: Build, k: Key, v: uint16)
    requires Shape(lens, b) && Keys(lens, b) && Open(lens, b, k)
    ensures
      var b' := Write(b, SlotOf(lens, b, k), v);
      && Shape(lens, b') && Keys(lens, b') && b'.id == b.id && b'.tb == b.tb && b'.avail == b.avail
      && RootWritten(b, b', k, v)
  {
  }

  lemma LeafSlots(lens: seq<uint8>, b: Build, k: Key, c: uint16, q: Key)
    requires Shape(lens, b) && Keys(lens, b) && Open(lens, b, k) && Open(lens, b, q)
    ensures
      var b' := Write(b, SlotOf(lens, b, k), c);
      && SlotIn(b', SlotOf(lens, b, q))
      && Read(b', SlotOf(lens, b, q)) == if q == k then c else Read(b, SlotOf(lens, b, q))
  {
    var s, t := SlotOf(lens, b, k), SlotOf(lens, b, q);
    if q != k {
      if s == t { SlotsDistinct(lens, b, q, k); }
      ReadOther(b, s, c, t);
    }
  }

  lemma ContentOfLeaf(lens: seq<uint8>, c: nat, id: map<Key, nat>, k: Key, q: Key, v: uint16)
    requires Complete(lens) && HasCode(lens, c) && k == Key(lens[c], Base(lens, c)) && k !in id
    requires Content(lens, c, id, q, v) && c < 0x1_0000
    ensures Content(lens, c + 1, id, q, if q == k then c else v)
  {
    if q == k {
      forall e: nat | e < c + 1 && LeafAt(lens, e, k) ensures e == c { OnlyLeaf(lens, c, e); }
      assert LeafAt(lens, c, k);
    } else {
      assert !LeafAt(lens, c, q);
    }
  }

  lemma LeafFilled(lens: seq<uint8>, c: nat, b: Build, b': Build, k: Key, q: Key)
    requires Complete(lens) && HasCode(lens, c) && k == Key(lens[c], Base(lens, c))
    requires Shape(lens, b) && Keys(lens, b) && Open(lens, b, k) && k !in b.id && Open(lens, b, q)
    requires Shape(lens, b') && Keys(lens, b') && b' == Write(b, SlotOf(lens, b, k), c) && Open(lens, b', q)
    requires FilledAt(lens, c, b, q)
    ensures FilledAt(lens, c + 1, b', q)
  {
    SlotStays(lens, b', b, q);
    LeafSlots(lens, b, k, c, q);
    ContentOfLeaf(lens, c, b.id, k, q, Read(b, SlotOf(lens, b, q)));
  }

  lemma PathsExtend(lens: seq<uint8>, c: nat, b: Build, b': Build)
    requires Bounded(lens) && c < |lens| && Paths(lens, c, b.tb, b.id) && b'.tb == b.tb && b'.id == b.id
    requires lens[c] > b.tb ==> Base(lens, c) < 0x1_0000 && PathOf(lens, c, b.tb, lens[c], b.id)
    ensures Paths(lens, c + 1, b'.tb, b'.id)
  {
    forall e | 0 <= e < c + 1 && lens[e] > b.tb ensures Base(lens, e) < 0x1_0000 && PathOf(lens, e, b'.tb, lens[e], b'.id) {
      assert PathOf(lens, e, b.tb, lens[e], b.id);
    }
  }

  lemma InsertLeaf(lens: seq<uint8>, c: nat, b: Build, k: Key)
    requires Inserting(lens, c, b) && k == Key(lens[c], Base(lens, c)) && Open(lens, b, k)
    ensures Inv(lens, c + 1, c + 1, Write(b, SlotOf(lens, b, k), c))
  {
    var b' := Write(b, SlotOf(lens, b, k), c);
    WriteKeepsKeys(lens, b, k, c);
    LeafSlot(lens, c, b);
    forall q | Open(lens, b', q) ensures FilledAt(lens, c + 1, b', q) {
      assert FilledAt(lens, c, b, q);
      LeafFilled(lens, c, b, b', k, q);
    }
    RootsKeepShorts(lens, c, b, b', k, c);
    LeafShorts(lens, c, b');
    PathsExtend(lens, c, b, b');
  }

  lemma LeafShorts(lens: seq<uint8>, c: nat, b: Build)
    requires Shape(lens, b) && c < |lens| && lens[c] > b.tb && Shorts(lens, c, b)
    ensures Shorts(lens, c + 1, b)
  {
  }

  /** Symbols without a code are skipped. */
  lemma Skip(lens: seq<uint8>, c: nat, b: Build)
    requires Inv(lens, c, c, b) && c < |lens| && lens[c] == 0
    ensures Inv(lens, c + 1, c + 1, b)
  {
    forall k | Open(lens, b, k) ensures FilledAt(lens, c + 1, b, k) {
      assert FilledAt(lens, c, b, k);
      ContentSkips(lens, c, b.id, k, Read(b, SlotOf(lens, b, k)));
    }
    SkipPaths(lens, c, b);
  }

  lemma ContentSkips(lens: seq<uint8>, c: nat, id: map<Key, nat>, k: Key, v: uint16)
    requires Content(lens, c, id, k, v) && !LeafAt(lens, c, k)
    ensures Content(lens, c + 1, id, k, v)
  {
  }

  lemma SkipPaths(lens: seq<uint8>, c: nat, b: Build)
    requires Complete(lens) && c < |lens| && lens[c] == 0 && Shape(lens, b)
    requires Traced(lens, c, b.id) && Paths(lens, c, b.tb, b.id) && Shorts(lens, c, b)
    ensures Traced(lens, c + 1, b.id) && Paths(lens, c + 1, b.tb, b.id) && Shorts(lens, c + 1, b)
  {
    hide Complete, Shape;
    TracedMore(lens, c, b.id);
  }

  /** A short code fills its stretch of the table. */
  lemma InsertShort(lens: seq<uint8>, c: nat, b: Build, b': Build, lo: nat, hi: nat)
    requires Inv(lens, c, c, b) && HasCode(lens, c) && lens[c] <= b.tb
    requires Base(lens, c) == lo * Span(b.tb) && Base(lens, c) + Span(lens[c]) == hi * Span(b.tb)
    requires Stretched(b, b', lo, hi, c)
    ensures Inv(lens, c + 1, c + 1, b')
  {
    assert Shape(lens, b') && Keys(lens, b') && Closed(b'.tb, b'.id);
    forall k | Open(lens, b', k) ensures FilledAt(lens, c + 1, b', k) {
      ShortFilled(lens, c, b, b', lo, hi, k);
    }
    ShortShorts(lens, c, b, b', lo, hi);
    PathsExtend(lens, c, b, b');
    TracedMore(lens, c, b.id);
  }

  /** b' is b with the table entries from lo to hi set to c. */
  ghost predicate Stretched(b: Build, b': Build, lo: nat, hi: nat, c: nat)
  {
    && |b'.table| == |b.table| && b' == b.(table := b'.table)
    && forall t :: 0 <= t < |b.table| ==> b'.table[t] == if lo <= t < hi then c else b.table[t]
  }

  lemma ShortFilled(lens: seq<uint8>, c: nat, b: Build, b': Build, lo: nat, hi: nat, k: Key)
    requires Shape(lens, b) && Keys(lens, b) && Shape(lens, b') && Keys(lens, b') && Filled(lens, c, b)
    requires HasCode(lens, c) && lens[c] <= b.tb
    requires Base(lens, c) == lo * Span(b.tb) && Base(lens, c) + Span(lens[c]) == hi * Span(b.tb)
    requires Stretched(b, b', lo, hi, c) && Open(lens, b', k)
    ensures FilledAt(lens, c + 1, b', k)
  {
    assert Open(lens, b, k);
    assert SlotOf(lens, b', k) == SlotOf(lens, b, k);
    assert FilledAt(lens, c, b, k);
    if k.len == b.tb {
      StretchIsSpan(lens, c, b.tb, lo, hi, k.start);
      if InSpan(lens, c, k.start) { ShortBelowLong(lens, c, b.tb, k.start); }
    }
    assert !LeafAt(lens, c, k);
  }

  lemma ShortShorts(lens: seq<uint8>, c: nat, b: Build, b': Build, lo: nat, hi: nat)
    requires Shape(lens, b) && Shape(lens, b') && c < |lens| && Shorts(lens, c, b)
    requires HasCode(lens, c) && lens[c] <= b.tb
    requires Base(lens, c) == lo * Span(b.tb) && Base(lens, c) + Span(lens[c]) == hi * Span(b.tb)
    requires Stretched(b, b', lo, hi, c)
    ensures Shorts(lens, c + 1, b')
  {
    forall e: nat, w: nat | e < c + 1 && HasCode(lens, e) && lens[e] <= b.tb && w < 0x1_0000 && InSpan(lens, e, w)
      ensures TableAt(b.tb, b'.table, w) == e
    {
      if e < c { assert TableAt(b.tb, b.table, w) == e; }
      ShortWindow(lens, c, b, b', lo, hi, e, w);
    }
  }

  lemma ShortWindow(lens: seq<uint8>, c: nat, b: Build, b': Build, lo: nat, hi: nat, e: nat, w: nat)
    requires Shape(lens, b) && Shape(lens, b')
    requires HasCode(lens, c) && lens[c] <= b.tb
    requires Base(lens, c) == lo * Span(b.tb) && Base(lens, c) + Span(lens[c]) == hi * Span(b.tb)
    requires Stretched(b, b', lo, hi, c)
    requires HasCode(lens, e) && w < 0x1_0000 && InSpan(lens, e, w)
    ensures TableAt(b.tb, b'.table, w) == if e == c then c else TableAt(b.tb, b.table, w)
  {
    StretchIsSpan(lens, c, b.tb, lo, hi, w);
    if InSpan(lens, c, w) { SpansDisjoint(lens, c, e, w); }
  }

  lemma StretchIsSpan(lens: seq<uint8>, c: nat, tb: nat, lo: nat, hi: nat, w: nat)
    requires HasCode(lens, c) && tb <= 16 && w < 0x1_0000
    requires Base(lens, c) == lo * Span(tb) && Base(lens, c) + Span(lens[c]) == hi * Span(tb)
    ensures InSpan(lens, c, w) <==> lo <= Top(w, tb) < hi
  {
    TopIsQuotient(w, tb);
    QuotientRange(w, Span(tb), lo, hi);
  }

  lemma QuotientRange(w: nat, s: nat, lo: nat, hi: nat)
    requires s > 0
    ensures lo * s <= w < hi * s <==> lo <= w / s < hi
  {
    var q := w / s;
    assert q * s <= w < q * s + s;
    Distribute(q, 1, s);
    if lo <= q { MulMono(lo, q, s); } else { MulMono(q + 1, lo, s); }
    if q < hi { MulMono(q + 1, hi, s); } else { MulMono(hi, q, s); }
  }
}
