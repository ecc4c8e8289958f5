/**
 MakeTable: from code lengths to the two-stage decoding structure. Line numbers
 are those of DuetPkg/EfiLdr/TianoDecompress.c.
 */
module MakeTable {
  import opened Words
  import opened Bytes
  import opened CanonicalCode
  import opened HuffmanForest
  import opened HuffmanBuild
  import opened HuffmanLookup

  const BAD_TABLE: uint16 := 0xffff

  // ---- counting (lines 202-216)

  /** Lines 202-208: Count[0] starts out undefined and is never used. */
  method CountLengths(bitLen: array<uint8>, n: nat) returns (count: array<uint16>)
    requires n <= bitLen.Length && n < 0x1_0000 && Bounded(bitLen[..n])
    ensures fresh(count) && count.Length == 17
    ensures forall l :: 1 <= l <= 16 ==> count[l] == Count(bitLen[..n], l)
  {
    count := new uint16[17];
    for i := 1 to 17
      invariant forall l :: 1 <= l < i ==> count[l] == 0
    {
      count[i] := 0;
    }
    ghost var lens := bitLen[..n];
    for i := 0 to n
      invariant lens == bitLen[..n]
      invariant forall l :: 1 <= l <= 16 ==> count[l] == Rank(lens, l, i) <= i
    {
      assert bitLen[i] == lens[i];
      var m: int := count[bitLen[i]];
      count[bitLen[i]] := (m + 1) % 0x1_0000;
    }
  }

  lemma ModAdd(a: nat, b: nat, m: nat)
    requires m == 0x1_0000
    ensures (a % m + b) % m == (a + b) % m
  {
  }

  lemma AreaOne(lens: seq<uint8>)
    ensures Area(lens, 1) == 0
  {
  }

  lemma NextArea(lens: seq<uint8>, i: nat, s: nat, n: nat)
    requires 1 <= i <= 16 && s == Area(lens, i) % 0x1_0000 && n == Count(lens, i)
    ensures (s + Shl(n, 16 - i)) % 0x1_0000 == Area(lens, i + 1) % 0x1_0000
  {
    ShlIsMul(n, 16 - i);
    ModAdd(Area(lens, i), n * Span(i), 0x1_0000);
  }

  /** Lines 210-216: the start of each length's codes, in 16-bit arithmetic. */
  method StartCodes(ghost lens: seq<uint8>, count: array<uint16>) returns (start: array<uint16>)
    requires count.Length == 17
    requires forall l :: 1 <= l <= 16 ==> count[l] == Count(lens, l)
    ensures fresh(start) && start.Length == 18
    ensures forall l :: 1 <= l <= 17 ==> start[l] == Area(lens, l) % 0x1_0000
  {
    hide Count, Shl, Area;
    start := new uint16[18];
    start[1] := 0;
    AreaOne(lens);
    for i := 1 to 17
      invariant forall l :: 1 <= l <= i ==> start[l] == Area(lens, l) % 0x1_0000
    {
      NextArea(lens, i, start[i], count[i]);
      start[i + 1] := (start[i] + Shl(count[i], 16 - i)) % 0x1_0000;
    }
  }

  // ---- scaling to table entries (lines 223-233)

  /** The next start for length len once the first c symbols are inserted. */
  ghost predicate StartIs(lens: seq<uint8>, tb: nat, c: nat, len: nat, v: nat)
    requires c <= |lens|
  {
    Area(lens, len) < 0x1_0000 ==>
      var next := Area(lens, len) + Rank(lens, len, c) * Span(len);
      if len <= tb then v * Span(tb) == next else v == next % 0x1_0000
  }

  ghost predicate Ready(lens: seq<uint8>, tb: nat, c: nat, start: seq<uint16>, weight: seq<uint16>)
  {
    && tb <= 15 && c <= |lens| && |start| == 18 && |weight| == 17
    && (forall l :: 1 <= l <= 16 ==> StartIs(lens, tb, c, l, start[l]))
    && (forall l :: 1 <= l <= 16 ==> weight[l] == Weight(tb, l))
  }

  /** How far a code of length l advances the start of its length. */
  function Weight(tb: nat, l: nat): nat
    requires l <= 16
  {
    if l <= tb then Pow2(tb - l) else Pow2(16 - l)
  }

  lemma WeightWord(tb: nat, l: nat)
    requires 1 <= l <= 16 && tb <= 15
    ensures Weight(tb, l) < 0x1_0000
  {
    Pow2Word(if l <= tb then tb - l else 16 - l);
  }

  lemma SpanSplit(tb: nat, len: nat)
    requires len <= tb <= 16
    ensures Span(tb) == Pow2(16 - tb) && Span(len) == Pow2(tb - len) * Span(tb)
  {
    Pow2Add(tb - len, 16 - tb);
  }

  lemma ScaledStart(lens: seq<uint8>, tb: nat, len: nat, v: nat)
    requires 1 <= len <= tb <= 15 && v == Area(lens, len) % 0x1_0000
    ensures StartIs(lens, tb, 0, len, Shr(v, 16 - tb))
    ensures Shr(v, 16 - tb) < 0x1_0000
  {
    hide Area, FirstCode, Shr, Span, Pow2;
    ShrSmaller(v, 16 - tb);
    if Area(lens, len) < 0x1_0000 {
      AreaIsFirstCode(lens, len);
      SpanSplit(tb, len);
      Associate(FirstCode(lens, len), Pow2(tb - len), Span(tb));
      ShrIsDiv(v, 16 - tb);
      DivModUnique(v, Span(tb), FirstCode(lens, len) * Pow2(tb - len), 0);
    }
  }

  lemma UnscaledStart(lens: seq<uint8>, tb: nat, len: nat, v: nat)
    requires tb < len && v == Area(lens, len) % 0x1_0000
    ensures StartIs(lens, tb, 0, len, v)
  {
    hide Area, Span;
  }

  lemma Pow2Word(n: nat)
    requires n <= 15
    ensures Pow2(n) < 0x1_0000
  {
    Pow2Mono(n, 15);
    assert Pow2(15) == 0x8000;
  }

  /** The starts and weights of the lengths below i are final; the other starts are unscaled. */
  ghost predicate Scaled(lens: seq<uint8>, tb: nat, i: nat, start: seq<uint16>, weight: seq<uint16>)
    requires |start| == 18 && |weight| == 17 && i <= 17
  {
    && (forall l :: 1 <= l < i ==> StartIs(lens, tb, 0, l, start[l]))
    && (forall l :: 1 <= l < i ==> weight[l] == Weight(tb, l))
    && (forall l :: 1 <= l <= 17 && (i <= l || tb < l) ==> start[l] == Area(lens, l) % 0x1_0000)
  }

  lemma ScaleOne(lens: seq<uint8>, tb: nat, i: nat, start: seq<uint16>, weight: seq<uint16>, v: uint16, g: uint16)
    requires |start| == 18 && |weight| == 17 && 1 <= i <= 16 && Scaled(lens, tb, i, start, weight)
    requires StartIs(lens, tb, 0, i, v) && g == Weight(tb, i) && (tb < i ==> v == start[i])
    ensures Scaled(lens, tb, i + 1, start[i := v], weight[i := g])
  {
  }

  /** Lines 223-233. */
  method ScaleStarts(ghost lens: seq<uint8>, tb: nat, start: array<uint16>) returns (weight: array<uint16>)
    requires 1 <= tb <= 15 && start.Length == 18
    requires forall l :: 1 <= l <= 17 ==> start[l] == Area(lens, l) % 0x1_0000
    modifies start
    ensures fresh(weight) && weight.Length == 17
    ensures Ready(lens, tb, 0, start[..], weight[..])
    ensures start[tb + 1] == Area(lens, tb + 1) % 0x1_0000
  {
    weight := new uint16[17];
    var i := 1;
    while i <= tb
      invariant 1 <= i <= tb + 1 && Scaled(lens, tb, i, start[..], weight[..])
    {
      ghost var s, g := start[..], weight[..];
      ScaledStart(lens, tb, i, start[i]);
      WeightWord(tb, i);
      start[i] := Shr(start[i], 16 - tb);
      weight[i] := Pow2(tb - i);
      ScaleOne(lens, tb, i, s, g, start[i], weight[i]);
      assert start[..] == s[i := start[i]] && weight[..] == g[i := weight[i]];
      i := i + 1;
    }
    LongWeights(lens, tb, start, weight);
  }

  method LongWeights(ghost lens: seq<uint8>, tb: nat, start: array<uint16>, weight: array<uint16>)
    requires 1 <= tb <= 15 && start.Length == 18 && weight.Length == 17 && start != weight
    requires Scaled(lens, tb, tb + 1, start[..], weight[..])
    modifies weight
    ensures Scaled(lens, tb, 17, start[..], weight[..])
  {
    var i := tb + 1;
    while i <= 16
      invariant tb + 1 <= i <= 17 && Scaled(lens, tb, i, start[..], weight[..])
    {
      ghost var g := weight[..];
      UnscaledStart(lens, tb, i, start[i]);
      WeightWord(tb, i);
      weight[i] := Pow2(16 - i);
      ScaleOne(lens, tb, i, start[..], g, start[i], weight[i]);
      assert start[..] == start[..][i := start[i]] && weight[..] == g[i := weight[i]];
      i := i + 1;
    }
  }

  // ---- filling the table (lines 235-289)

  /** Lines 237-242. */
  method ZeroFill(table: array<uint16>, from: nat, tb: nat)
    requires tb <= 15 && from <= Pow2(tb) <= table.Length
    modifies table
    ensures forall t :: 0 <= t < table.Length ==>
      table[t] == if from != 0 && from <= t < Pow2(tb) then 0 else old(table[t])
  {
    if from != 0 {
      var index := from;
      while index != Pow2(tb)
        invariant from <= index <= Pow2(tb)
        invariant forall t :: 0 <= t < table.Length ==> table[t] == if from <= t < index then 0 else old(table[t])
        decreases Pow2(tb) - index
      {
        table[index] := 0;
        index := index + 1;
      }
    }
  }

  /** Lines 258-260. */
  method FillStretch(table: array<uint16>, lo: nat, hi: nat, c: uint16)
    requires lo <= hi <= table.Length
    modifies table
    ensures forall t :: 0 <= t < table.Length ==> table[t] == if lo <= t < hi then c else old(table[t])
  {
    for index := lo to hi
      invariant forall t :: 0 <= t < table.Length ==> table[t] == if lo <= t < index then c else old(table[t])
    {
      table[index] := c;
    }
  }

  /** The arrays as a value. */
  ghost function Mem(table: array<uint16>, left: array<uint16>, right: array<uint16>, avail: nat): Memory
    reads table, left, right
  {
    Memory(table[..], left[..], right[..], avail)
  }

  /** *Pointer */
  method Deref(n: nat, table: array<uint16>, left: array<uint16>, right: array<uint16>, avail: nat, slot: Slot) returns (v: uint16)
    requires SlotOk(n, Mem(table, left, right, avail), slot)
    ensures v == Get(n, Mem(table, left, right, avail), slot)
  {
    match slot {
      case Root(t) => v := table[t];
      case Left(i) => v := left[i];
      case Right(i) => v := right[i];
    }
  }

  /** *Pointer = v */
  method Store(n: nat, table: array<uint16>, left: array<uint16>, right: array<uint16>, avail: nat, slot: Slot, v: uint16)
    requires left != right && left != table && right != table
    requires SlotOk(n, Mem(table, left, right, avail), slot)
    modifies table, left, right
    ensures Mem(table, left, right, avail) == Put(n, old(Mem(table, left, right, avail)), slot, v)
  {
    match slot {
      case Root(t) => table[t] := v;
      case Left(i) => left[i] := v;
      case Right(i) => right[i] := v;
    }
  }

  /** Lines 270-271. */
  method NewNode(n: nat, table: array<uint16>, left: array<uint16>, right: array<uint16>, avail: nat, slot: Slot) returns (avail': nat)
    requires left != right && left != table && right != table
    requires SlotOk(n, Mem(table, left, right, avail), slot) && HasRoom(n, Mem(table, left, right, avail))
    modifies table, left, right
    ensures Mem(table, left, right, avail') == AddNode(n, old(Mem(table, left, right, avail)), slot)
  {
    left[avail] := 0;
    right[avail] := 0;
    Store(n, table, left, right, avail, slot, avail);
    avail' := avail + 1;
  }

  /** Lines 269-281: one turn of the loop. */
  method TakeTurn(n: nat, table: array<uint16>, left: array<uint16>, right: array<uint16>, avail: nat, slot: Slot, bit: bool)
    returns (avail': nat, slot': Slot)
    requires left != right && left != table && right != table && n > 0
    requires SlotOk(n, Mem(table, left, right, avail), slot)
    requires Get(n, Mem(table, left, right, avail), slot) == 0 ==> HasRoom(n, Mem(table, left, right, avail))
    modifies table, left, right
    ensures (Mem(table, left, right, avail'), slot') == Turn(n, old(Mem(table, left, right, avail)), slot, bit)
  {
    var v := Deref(n, table, left, right, avail, slot);
    avail' := avail;
    if v == 0 {
      AddedNonzero(n, Mem(table, left, right, avail), slot);
      avail' := NewNode(n, table, left, right, avail, slot);
      v := Deref(n, table, left, right, avail', slot);
    }
    slot' := if bit then Right(v) else Left(v);
  }

  /** The bits from l on of the code lead from the current arrays and pointer to the goal. */
  ghost predicate Heading(n: nat, m: Memory, slot: Slot, code: uint16, l: nat, len: nat, c: uint16, goal: Memory)
  {
    n > 0 && l <= len <= 16 && InsertAlong(n, m, slot, PathBits(code, l, len), c) == Some(goal)
  }

  lemma HeadingTurn(n: nat, m: Memory, slot: Slot, code: uint16, l: nat, len: nat, c: uint16, goal: Memory)
    requires Heading(n, m, slot, code, l, len, c, goal) && l < len
    ensures SlotOk(n, m, slot) && (Get(n, m, slot) == 0 ==> HasRoom(n, m))
    ensures var r := Turn(n, m, slot, Bit(code, l) == 1); Heading(n, r.0, r.1, code, l + 1, len, c, goal)
  {
    PathTail(code, l, len);
    TurnUnfolds(n, m, slot, PathBits(code, l, len), c);
  }

  /** Lines 264-284: insert a symbol whose code is longer than the table is wide. */
  method InsertLong(n: nat, tb: nat, table: array<uint16>, left: array<uint16>, right: array<uint16>, avail: nat,
                    c: uint16, len: nat, code: uint16, ghost goal: Memory) returns (avail': nat)
    requires left != right && left != table && right != table && tb < len <= 16
    requires Heading(n, Mem(table, left, right, avail), Root(Top(code, tb)), code, tb, len, c, goal)
    modifies table, left, right
    ensures Mem(table, left, right, avail') == goal
  {
    hide Top, Turn, Walk, IndexAfter, Shr;
    IndexStart(code);
    TopIsShift(code, tb);
    var slot := Root(Shr(code, 16 - tb));
    var index3, index := code, len - tb;
    avail' := avail;
    while index != 0
      invariant 0 <= index <= len - tb
      invariant index3 == IndexAfter(code, len - index - tb)
      invariant Heading(n, Mem(table, left, right, avail'), slot, code, len - index, len, c, goal)
      decreases index
    {
      ghost var l := len - index;
      MaskedBit(code, tb, l - tb);
      IndexNext(code, l - tb);
      HeadingTurn(n, Mem(table, left, right, avail'), slot, code, l, len, c, goal);
      avail', slot := TakeTurn(n, table, left, right, avail', slot, Shr(index3, 15 - tb) % 2 == 1);
      index3 := (2 * index3 as int) % 0x1_0000;
      index := index - 1;
    }
    Store(n, table, left, right, avail', slot, c);
  }

  // ---- starts and codes

  /** The start kept for a length is the code of the next symbol of that length. */
  lemma StartOfShort(lens: seq<uint8>, tb: nat, c: nat, v: nat)
    requires Complete(lens) && HasCode(lens, c) && lens[c] <= tb <= 15 && StartIs(lens, tb, c, lens[c], v)
    ensures v * Span(tb) == Base(lens, c)
    ensures (v + Weight(tb, lens[c])) * Span(tb) == Base(lens, c) + Span(lens[c])
    ensures v + Weight(tb, lens[c]) <= Pow2(tb)
  {
    hide Area, Rank, Kraft, Pow2;
    var len := lens[c];
    BaseEnd(lens, c);
    assert Base(lens, c) < 0x1_0000 && Area(lens, len) < 0x1_0000;
    Pow2Add(tb - len, 16 - tb);
    Distribute(v, Pow2(tb - len), Span(tb));
    EntryBound(v + Weight(tb, len), tb);
  }

  lemma EntryBound(a: nat, tb: nat)
    requires tb <= 16 && a * Span(tb) <= 0x1_0000
    ensures a <= Pow2(tb)
  {
    Pow2Values();
    Pow2Add(tb, 16 - tb);
    NotMore(a, Pow2(tb), Span(tb));
  }

  lemma NotMore(a: nat, b: nat, s: nat)
    requires s > 0 && a * s <= b * s
    ensures a <= b
  {
    if a > b {
      MulMono(b + 1, a, s);
      Distribute(b, 1, s);
    }
  }

  lemma StartOfLong(lens: seq<uint8>, tb: nat, c: nat, v: nat)
    requires Complete(lens) && HasCode(lens, c) && lens[c] > tb && StartIs(lens, tb, c, lens[c], v)
    ensures v == Base(lens, c)
  {
    BaseEnd(lens, c);
    assert Span(lens[c]) >= 1;
  }

  lemma NextStart(lens: seq<uint8>, tb: nat, c: nat, v: nat, next: nat)
    requires Complete(lens) && HasCode(lens, c) && tb <= 15 && StartIs(lens, tb, c, lens[c], v)
    requires next == (v + Weight(tb, lens[c])) % 0x1_0000
    ensures StartIs(lens, tb, c + 1, lens[c], next)
  {
    hide Kraft, Area, Pow2, Count;
    var len := lens[c];
    Distribute(Rank(lens, len, c), 1, Span(len));
    if len <= tb {
      StartOfShort(lens, tb, c, v);
      Pow2Word(tb);
    } else {
      StartOfLong(lens, tb, c, v);
    }
  }

  lemma OtherStart(lens: seq<uint8>, tb: nat, c: nat, l: nat, v: nat)
    requires c < |lens| && lens[c] != l && StartIs(lens, tb, c, l, v)
    ensures StartIs(lens, tb, c + 1, l, v)
  {
  }

  lemma ReadyNext(lens: seq<uint8>, tb: nat, c: nat, start: seq<uint16>, weight: seq<uint16>, next: uint16)
    requires Complete(lens) && HasCode(lens, c) && Ready(lens, tb, c, start, weight)
    requires next == (start[lens[c]] as int + weight[lens[c]]) % 0x1_0000
    ensures Ready(lens, tb, c + 1, start[lens[c] := next], weight)
  {
    var start' := start[lens[c] := next];
    forall l | 1 <= l <= 16 ensures StartIs(lens, tb, c + 1, l, start'[l]) {
      if l == lens[c] {
        NextStart(lens, tb, c, start[l], next);
      } else {
        OtherStart(lens, tb, c, l, start[l]);
      }
    }
  }

  lemma ReadySkip(lens: seq<uint8>, tb: nat, c: nat, start: seq<uint16>, weight: seq<uint16>)
    requires c < |lens| && lens[c] == 0 && Ready(lens, tb, c, start, weight)
    ensures Ready(lens, tb, c + 1, start, weight)
  {
    forall l | 1 <= l <= 16 ensures StartIs(lens, tb, c + 1, l, start[l]) {
      OtherStart(lens, tb, c, l, start[l]);
    }
  }

  // ---- the whole function

  ghost predicate Apart(table: array<uint16>, left: array<uint16>, right: array<uint16>)
  {
    left != right && left != table && right != table
  }

  /** Lines 254-288 for one symbol that has a code. */
  method InsertSymbol(n: nat, bitLen: array<uint8>, tb: nat, table: array<uint16>, left: array<uint16>, right: array<uint16>,
                      start: array<uint16>, weight: array<uint16>, c: nat, avail: nat) returns (avail': nat)
    requires n <= bitLen.Length && c < n < 0x1_0000 && 1 <= tb <= 15 && Apart(table, left, right) && bitLen[c] != 0
    requires start.Length == 18 && weight.Length == 17 && table.Length >= Pow2(tb)
    requires {start, weight} !! {table, left, right} && start != weight
    requires Complete(bitLen[..n]) && Ready(bitLen[..n], tb, c, start[..], weight[..])
    requires Built(bitLen[..n], c, tb, Mem(table, left, right, avail))
    modifies table, left, right, start
    ensures Ready(bitLen[..n], tb, c + 1, start[..], weight[..])
    ensures Built(bitLen[..n], c + 1, tb, Mem(table, left, right, avail'))
    ensures Framed(n, old(Mem(table, left, right, avail)), Mem(table, left, right, avail'))
  {
    hide Built, Kraft, Pow2, Weight;
    ghost var lens := bitLen[..n];
    var len: nat := bitLen[c];
    assert len == lens[c];
    avail' := avail;
    var code := start[len];
    var nextCode: uint16 := (start[len] as int + weight[len]) % 0x1_0000;
    ReadyNext(lens, tb, c, start[..], weight[..], nextCode);
    ghost var s := start[..];
    if len <= tb {
      InsertShortSymbol(lens, tb, table, left, right, c, code, nextCode, avail);
    } else {
      avail' := InsertLongSymbol(lens, n, tb, table, left, right, c, len, code, avail);
    }
    start[len] := nextCode;
    assert start[..] == s[len := nextCode];
  }

  method InsertShortSymbol(ghost lens: seq<uint8>, tb: nat, table: array<uint16>, left: array<uint16>, right: array<uint16>,
                           c: uint16, code: uint16, nextCode: uint16, ghost avail: nat)
    requires Complete(lens) && HasCode(lens, c) && lens[c] <= tb <= 15 && Apart(table, left, right)
    requires StartIs(lens, tb, c, lens[c], code) && nextCode == (code as int + Weight(tb, lens[c])) % 0x1_0000
    requires table.Length >= Pow2(tb) && Built(lens, c, tb, Mem(table, left, right, avail))
    modifies table
    ensures Built(lens, c + 1, tb, Mem(table, left, right, avail))
  {
    hide Built, Base, Area, Kraft, Pow2, Span;
    StartOfShort(lens, tb, c, code);
    Pow2Word(tb);
    ghost var m := Mem(table, left, right, avail);
    FillStretch(table, code, nextCode, c);
    BuiltShort(lens, c, tb, m, table[..], code, nextCode);
  }

  method InsertLongSymbol(ghost lens: seq<uint8>, n: nat, tb: nat, table: array<uint16>, left: array<uint16>, right: array<uint16>,
                          c: uint16, len: nat, code: uint16, avail: nat) returns (avail': nat)
    requires Complete(lens) && n == |lens| && HasCode(lens, c) && len == lens[c] > tb && Apart(table, left, right)
    requires StartIs(lens, tb, c, lens[c], code)
    requires Built(lens, c, tb, Mem(table, left, right, avail))
    modifies table, left, right
    ensures Built(lens, c + 1, tb, Mem(table, left, right, avail'))
    ensures Framed(n, old(Mem(table, left, right, avail)), Mem(table, left, right, avail'))
  {
    StartOfLong(lens, tb, c, code);
    ghost var m := Mem(table, left, right, avail);
    BuiltLong(lens, c, tb, m);
    InsertFramed(n, m, Root(Top(code, tb)), PathBits(code, tb, len), c);
    ghost var goal := InsertAlong(n, m, Root(Top(code, tb)), PathBits(code, tb, len), c).value;
    avail' := InsertLong(n, tb, table, left, right, avail, c, len, code, goal);
  }

  /** What the zero-filled table looks like to the build. */
  lemma ZeroFilled(lens: seq<uint8>, tb: nat, from: nat, table: seq<uint16>)
    requires Complete(lens) && 1 <= tb <= 15 && |lens| < Pow2(tb + 1) && |table| >= Pow2(tb)
    requires from == Shr(Area(lens, tb + 1) % 0x1_0000, 16 - tb)
    requires from != 0 ==> forall t :: from <= t < Pow2(tb) ==> table[t] == 0
    ensures forall w: nat :: Area(lens, tb + 1) <= w < 0x1_0000 ==> TableAt(tb, table, w) == 0
  {
    ZeroFillSkipped(lens, tb);
    AreaMono(lens, tb + 1, 17);
    forall w: nat | Area(lens, tb + 1) <= w < 0x1_0000 ensures TableAt(tb, table, w) == 0 {
      FillStart(lens, tb, from, w);
    }
  }

  lemma FillStart(lens: seq<uint8>, tb: nat, from: nat, w: nat)
    requires 1 <= tb <= 15 && 0 < Area(lens, tb + 1) <= w < 0x1_0000
    requires from == Shr(Area(lens, tb + 1), 16 - tb)
    ensures 0 < from <= Top(w, tb)
  {
    hide Area, FirstCode, Count, Top, Align, Shr;
    AreaAligned(lens, tb, w);
    var q := FirstCode(lens, tb) + Count(lens, tb);
    ShrIsDiv(Area(lens, tb + 1), 16 - tb);
    DivModUnique(Area(lens, tb + 1), Span(tb), q, 0);
  }

  lemma FillStartBound(a: nat, tb: nat)
    requires tb <= 15 && a < 0x1_0000
    ensures Shr(a, 16 - tb) <= Pow2(tb)
  {
    TopIsShift(a, tb);
  }

  /** No length is used when no code space is. */
  lemma NothingCoded(lens: seq<uint8>, c: nat)
    requires Bounded(lens) && Kraft(lens) == 0 && c < |lens|
    ensures lens[c] == 0
  {
    if lens[c] > 0 { BaseEnd(lens, c); }
  }

  lemma AreaZero(lens: seq<uint8>, len: nat)
    requires len <= 17 && Kraft(lens) == 0
    ensures Area(lens, len) == 0
  {
    AreaMono(lens, len, 17);
  }

  /** Lines 244-289. */
  method InsertSymbols(n: nat, bitLen: array<uint8>, tb: nat, table: array<uint16>, left: array<uint16>, right: array<uint16>,
                       start: array<uint16>, weight: array<uint16>) returns (avail: nat)
    requires n <= bitLen.Length && n < 0x1_0000 && 1 <= tb <= 15 && Apart(table, left, right)
    requires start.Length == 18 && weight.Length == 17 && table.Length >= Pow2(tb)
    requires {start, weight} !! {table, left, right} && start != weight
    requires Bounded(bitLen[..n]) && (Complete(bitLen[..n]) || Kraft(bitLen[..n]) == 0)
    requires Complete(bitLen[..n]) ==> Ready(bitLen[..n], tb, 0, start[..], weight[..])
    requires Complete(bitLen[..n]) ==> Built(bitLen[..n], 0, tb, Mem(table, left, right, n))
    modifies table, left, right, start
    ensures Complete(bitLen[..n]) ==> Built(bitLen[..n], n, tb, Mem(table, left, right, avail))
    ensures !Complete(bitLen[..n]) ==> Mem(table, left, right, n) == old(Mem(table, left, right, n))
    ensures Framed(n, old(Mem(table, left, right, n)), Mem(table, left, right, avail))
  {
    hide Built, Ready, Pow2;
    avail := n;
    ghost var lens := bitLen[..n];
    for c := 0 to n
      invariant bitLen[..n] == lens
      invariant Complete(lens) ==> Ready(lens, tb, c, start[..], weight[..])
      invariant Complete(lens) ==> Built(lens, c, tb, Mem(table, left, right, avail))
      invariant !Complete(lens) ==> Mem(table, left, right, n) == old(Mem(table, left, right, n))
      invariant Framed(n, old(Mem(table, left, right, n)), Mem(table, left, right, avail))
    {
      assert bitLen[c] == lens[c];
      if bitLen[c] != 0 {
        if Kraft(lens) == 0 { NothingCoded(lens, c); }
        avail := InsertSymbol(n, bitLen, tb, table, left, right, start, weight, c, avail);
      } else if Complete(lens) {
        BuiltSkip(lens, c, tb, Mem(table, left, right, avail));
        ReadySkip(lens, tb, c, start[..], weight[..]);
      }
    }
  }

  /** Lines 235-289: zero the long part of the table and insert the symbols. */
  method FillTable(n: nat, bitLen: array<uint8>, tb: nat, table: array<uint16>, left: array<uint16>, right: array<uint16>,
                   start: array<uint16>, weight: array<uint16>)
    requires 1 <= tb <= 15 && n <= bitLen.Length && n < Pow2(tb + 1) && n < 0x1_0000
    requires table.Length >= Pow2(tb) && left.Length == right.Length && 2 * n - 1 <= left.Length <= 0x1_0000
    requires Apart(table, left, right) && start.Length == 18 && weight.Length == 17
    requires {start, weight} !! {table, left, right} && start != weight
    requires Bounded(bitLen[..n]) && (Complete(bitLen[..n]) || Kraft(bitLen[..n]) == 0)
    requires Ready(bitLen[..n], tb, 0, start[..], weight[..])
    requires start[tb + 1] == Area(bitLen[..n], tb + 1) % 0x1_0000
    modifies table, left, right, start
    ensures !Complete(bitLen[..n]) ==> Mem(table, left, right, n) == old(Mem(table, left, right, n))
    ensures Complete(bitLen[..n]) ==> Decodes(bitLen[..n], tb, table[..], left[..], right[..])
    ensures Complete(bitLen[..n]) ==> Descends(n, tb, table[..], left[..], right[..])
    ensures Framed(n, old(Mem(table, left, right, n)), Mem(table, left, right, n))
  {
    hide Decodes, Descends, Built, Pow2, Area, Kraft, Top;
    ghost var lens := bitLen[..n];
    var index := Shr(start[tb + 1], 16 - tb);
    FillStartBound(start[tb + 1], tb);
    if Kraft(lens) == 0 {
      AreaZero(lens, tb + 1);
      ShrZero(16 - tb);
    }
    ZeroFill(table, index, tb);
    if Complete(lens) {
      ZeroFilled(lens, tb, index, table[..]);
      BuiltStart(lens, tb, Mem(table, left, right, n));
    }
    var avail := InsertSymbols(n, bitLen, tb, table, left, right, start, weight);
    if Complete(lens) {
      BuiltDecodes(lens, tb, Mem(table, left, right, avail));
      BuiltDescends(lens, tb, Mem(table, left, right, avail));
    }
  }

  /**
   Build the decoding structure for the first n code lengths of bitLen. The
   result is 0 exactly if the code space used is a multiple of 2^16; used once,
   every window is then decoded to the symbol whose canonical code starts it.
   Lengths above 16 index Count out of bounds, and code space used twice or more
   lets the table be overrun: both are excluded.
   */
  method Make(n: nat, bitLen: array<uint8>, tb: nat, table: array<uint16>, left: array<uint16>, right: array<uint16>)
    returns (status: uint16)
    requires 1 <= tb <= 15 && n <= bitLen.Length && n < Pow2(tb + 1)
    requires table.Length >= Pow2(tb) && left.Length == right.Length && 2 * n - 1 <= left.Length <= 0x1_0000
    requires Apart(table, left, right)
    requires Bounded(bitLen[..n]) && (Kraft(bitLen[..n]) % 0x1_0000 == 0 ==> Kraft(bitLen[..n]) <= 0x1_0000)
    modifies table, left, right
    ensures status == 0 || status == BAD_TABLE
    ensures status == 0 <==> Kraft(bitLen[..n]) % 0x1_0000 == 0
    ensures !Complete(bitLen[..n]) ==> Mem(table, left, right, n) == old(Mem(table, left, right, n))
    ensures Complete(bitLen[..n]) ==> Decodes(bitLen[..n], tb, table[..], left[..], right[..])
    ensures Complete(bitLen[..n]) ==> Descends(n, tb, table[..], left[..], right[..])
    ensures Framed(n, old(Mem(table, left, right, n)), Mem(table, left, right, n))
  {
    hide Decodes, Descends, Built, Area, Pow2;
    ghost var lens := bitLen[..n];
    assert n < 0x1_0000 by { Pow2Mono(tb + 1, 16); Pow2Values(); }
    var count := CountLengths(bitLen, n);
    var start := StartCodes(lens, count);
    if start[17] != 0 {
      return BAD_TABLE;
    }
    var weight := ScaleStarts(lens, tb, start);
    FillTable(n, bitLen, tb, table, left, right, start, weight);
    return 0;
  }
}
