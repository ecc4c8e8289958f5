/**
 An encoder for the format, as a specification: every way of writing lengths,
 blocks and tokens that the format allows. Decoding undoes it.
 */
module TianoEncode {
  import opened Words
  import opened BitStream
  import opened CanonicalCode
  import opened TianoFormat

  // ---- bits that follow a position

  /** From pos on, the stream is e and then zeros. */
  ghost predicate Follows(s: seq<bit>, pos: nat, e: seq<bit>)
  {
    forall i: nat :: At(s, pos + i) == At(e, i)
  }

  lemma FollowsRest(s: seq<bit>, pos: nat, a: seq<bit>, b: seq<bit>)
    requires Follows(s, pos, a + b)
    ensures Follows(s, pos + |a|, b)
  {
    forall i: nat ensures At(s, pos + |a| + i) == At(b, i) {
      assert At(s, pos + (|a| + i)) == At(a + b, |a| + i);
    }
  }

  /** The number v written with n bits. */
  function Spell(v: nat, n: nat): (e: seq<bit>)
    ensures |e| == n
  {
    if n == 0 then [] else Spell(v / 2, n - 1) + [v % 2]
  }

  lemma {:induction false} SpellBits(s: seq<bit>, pos: nat, v: nat, n: nat, rest: seq<bit>)
    requires v < Pow2(n) && Follows(s, pos, Spell(v, n) + rest)
    ensures Bits(s, pos, n) == v
    decreases n
  {
    if n > 0 {
      var e := Spell(v / 2, n - 1);
      assert e + [v % 2] + rest == e + ([v % 2] + rest);
      SpellBits(s, pos, v / 2, n - 1, [v % 2] + rest);
      assert At(s, pos + (n - 1)) == At(Spell(v, n) + rest, n - 1);
    }
  }

  /** A spelled number is read back, and what follows it follows. */
  lemma ReadsNumber(s: seq<bit>, pos: nat, v: nat, n: nat, rest: seq<bit>)
    requires v < Pow2(n) && Follows(s, pos, Spell(v, n) + rest)
    ensures Bits(s, pos, n) == v && Follows(s, pos + n, rest)
  {
    SpellBits(s, pos, v, n, rest);
    FollowsRest(s, pos, Spell(v, n), rest);
  }

  // ---- symbols

  /** c can be written in the code. */
  ghost predicate Writable(code: PrefixCode, n: nat, c: nat)
  {
    ValidCode(code, n) && match code
      case Single(sym) => c == sym
      case Canonical(lens) => c < n && HasCode(lens, c)
  }

  ghost function SymbolBits(code: PrefixCode, n: nat, c: nat): (e: seq<bit>)
    requires Writable(code, n, c)
    ensures |e| == LengthOf(code, n, c)
  {
    match code
    case Single(_) => []
    case Canonical(lens) => Spell(Code(lens, c), lens[c])
  }

  /** A code has as many bits as its length says. */
  lemma CodeFits(lens: seq<uint8>, c: nat)
    requires Complete(lens) && HasCode(lens, c)
    ensures Code(lens, c) < Pow2(lens[c])
  {
    BaseIsCode(lens, c);
    BaseEnd(lens, c);
    var k, a := Code(lens, c), Pow2(lens[c]);
    Pow2Add(lens[c], 16 - lens[c]);
    Pow2Values();
    if k >= a { MulMono(a, k, Span(lens[c])); }
  }

  /** The window at a written code decodes to its symbol. */
  lemma ReadsSymbol(s: seq<bit>, pos: nat, code: PrefixCode, n: nat, c: nat, rest: seq<bit>)
    requires Writable(code, n, c) && Follows(s, pos, SymbolBits(code, n, c) + rest)
    ensures SymbolIn(code, n, Window(s, pos)) == c
    ensures Follows(s, pos + LengthOf(code, n, c), rest)
  {
    FollowsRest(s, pos, SymbolBits(code, n, c), rest);
    match code
    case Single(_) =>
    case Canonical(lens) =>
      CodeFits(lens, c);
      SpellBits(s, pos, Code(lens, c), lens[c], rest);
      WindowStarts(s, pos, lens[c]);
      SymbolUnique(lens, Window(s, pos), c);
  }

  lemma WindowStarts(s: seq<bit>, pos: nat, len: nat)
    requires len <= 16
    ensures Window(s, pos) / Span(len) == Bits(s, pos, len)
  {
    BitsParts(s, pos, len, 16 - len);
    ShrIsDiv(Window(s, pos), 16 - len);
  }

  // ---- lists of lengths

  function Repeat(b: bit, n: nat): (e: seq<bit>)
    ensures |e| == n && forall i :: 0 <= i < n ==> e[i] == b
  {
    seq(n, _ => b)
  }

  /** Three bits up to 6; above, 111, a 1 for each step above 7, and a 0. */
  function LengthBits(len: nat): (e: seq<bit>)
    ensures |e| == if len < 7 then 3 else len - 3
  {
    if len < 7 then Spell(len, 3) else Spell(7, 3) + Repeat(1, len - 7) + [0]
  }

  lemma {:induction false} CountsOnes(s: seq<bit>, pos: nat, k: nat, end: nat, rest: seq<bit>)
    requires pos + k < end && Follows(s, pos, Repeat(1, k) + [0] + rest)
    ensures Ones(s, pos, end) == k
    decreases k
  {
    var e := Repeat(1, k) + [0] + rest;
    assert At(s, pos + 0) == At(e, 0);
    if k > 0 {
      assert Repeat(1, k) + [0] + rest == [1] + (Repeat(1, k - 1) + [0] + rest);
      FollowsRest(s, pos, [1], Repeat(1, k - 1) + [0] + rest);
      CountsOnes(s, pos + 1, k - 1, end, rest);
    }
  }

  lemma ShortLength(s: seq<bit>, pos: nat, len: nat, rest: seq<bit>)
    requires len < 7 && Follows(s, pos, LengthBits(len) + rest)
    ensures ReadLength(s, pos) == (len, pos + 3)
  {
    Pow2Values();
    hide Follows, Spell, Bits, Ones, Pow2;
    SpellBits(s, pos, len, 3, rest);
  }

  lemma LongLength(s: seq<bit>, pos: nat, len: nat, rest: seq<bit>)
    requires 7 <= len <= 16 && Follows(s, pos, LengthBits(len) + rest)
    ensures ReadLength(s, pos) == (len, pos + len - 3)
  {
    Pow2Values();
    hide Follows, Spell, Bits, Ones, Pow2, Repeat;
    var tail := Repeat(1, len - 7) + [0] + rest;
    assert LengthBits(len) + rest == Spell(7, 3) + tail;
    ReadsNumber(s, pos, 7, 3, tail);
    CountsOnes(s, pos + 3, len - 7, pos + 32, rest);
  }

  lemma ReadsLength(s: seq<bit>, pos: nat, len: nat, rest: seq<bit>)
    requires len <= 16 && Follows(s, pos, LengthBits(len) + rest)
    ensures ReadLength(s, pos) == (len, pos + |LengthBits(len)|)
    ensures Follows(s, pos + |LengthBits(len)|, rest)
  {
    FollowsRest(s, pos, LengthBits(len), rest);
    if len < 7 {
      ShortLength(s, pos, len, rest);
    } else {
      LongLength(s, pos, len, rest);
    }
  }

  /** lens from index i on; after the special-th length, run of the zeros that follow are written as a count. */
  function LengthsBits(lens: seq<uint8>, i: nat, special: nat, run: nat): seq<bit>
    decreases |lens| - i
  {
    if i >= |lens| then []
    else if i + 1 == special then LengthBits(lens[i]) + Spell(run, 2) + LengthsBits(lens, i + 1 + run, special, run)
    else LengthBits(lens[i]) + LengthsBits(lens, i + 1, special, run)
  }

  /** The run may be written: at most 3 zeros, and they are there. */
  predicate RunFits(lens: seq<uint8>, special: nat, run: nat)
  {
    run <= 3 && (special <= |lens| ==> special + run <= |lens| && forall i :: special <= i < special + run ==> lens[i] == 0)
  }

  /** The number announced: that of the lengths, or less if the run goes beyond it. */
  predicate NumberFits(lens: seq<uint8>, special: nat, run: nat, number: nat)
  {
    number == |lens| || (0 < special <= number < |lens| && special + run == |lens|)
  }

  lemma {:induction false} ReadsLengths(s: seq<bit>, pos: nat, lens: seq<uint8>, i: nat, special: nat, run: nat, number: nat, rest: seq<bit>)
    requires Bounded(lens) && RunFits(lens, special, run) && NumberFits(lens, special, run, number)
    requires i <= |lens| && (number == |lens| || i < special || i == |lens|)
    requires Follows(s, pos, LengthsBits(lens, i, special, run) + rest)
    ensures ReadLengths(s, pos, number, special, lens[..i]) == Parsed(lens, pos + |LengthsBits(lens, i, special, run)|)
    ensures Follows(s, pos + |LengthsBits(lens, i, special, run)|, rest)
    decreases |lens| - i
  {
    hide Follows, Bounded, Spell, LengthBits, ReadLength;
    if i == |lens| {
      assert lens[..i] == lens;
      assert LengthsBits(lens, i, special, run) + rest == rest;
    } else {
      ReadsOneLength(s, pos, lens, i, special, run, rest);
      var j := if i + 1 == special then i + 1 + run else i + 1;
      var p := AddLength(s, pos, special, lens[..i]).next;
      ReadsLengths(s, p, lens, j, special, run, number, rest);
    }
  }

  lemma ReadsOneLength(s: seq<bit>, pos: nat, lens: seq<uint8>, i: nat, special: nat, run: nat, rest: seq<bit>)
    requires Bounded(lens) && RunFits(lens, special, run) && i < |lens|
    requires Follows(s, pos, LengthsBits(lens, i, special, run) + rest)
    ensures
      var j := if i + 1 == special then i + 1 + run else i + 1;
      var e := LengthsBits(lens, j, special, run);
      var p := pos + |LengthsBits(lens, i, special, run)| - |e|;
      && AddLength(s, pos, special, lens[..i]) == Parsed(lens[..j], p) && Follows(s, p, e + rest)
  {
    hide Follows, ReadLength, Spell, LengthBits;
    var e := LengthBits(lens[i]);
    if i + 1 == special {
      var more := LengthsBits(lens, i + 1 + run, special, run);
      assert e + Spell(run, 2) + more + rest == e + (Spell(run, 2) + (more + rest));
      ReadsLength(s, pos, lens[i], Spell(run, 2) + (more + rest));
      assert Pow2(2) == 4;
      ReadsNumber(s, pos + |e|, run, 2, more + rest);
      assert lens[..i] + [lens[i]] + Zeros(run) == lens[..i + 1 + run];
    } else {
      var more := LengthsBits(lens, i + 1, special, run);
      assert e + more + rest == e + (more + rest);
      ReadsLength(s, pos, lens[i], more + rest);
      assert lens[..i] + [lens[i]] == lens[..i + 1];
    }
  }

  // ---- codes

  /** How the code of the extra or the position set is written. */
  datatype SmallText = SmallSymbol(sym: nat) | SmallLengths(lens: seq<uint8>, run: nat, number: nat)

  predicate SmallValid(h: SmallText, n: nat, nbit: nat, special: nat)
  {
    match h
    case SmallSymbol(sym) => sym < n && sym < Pow2(nbit)
    case SmallLengths(lens, run, number) =>
      && 0 < number < Pow2(nbit) && NumberFits(lens, special, run, number)
      && Bounded(lens) && RunFits(lens, special, run) && Complete(Fit(lens, n))
  }

  function SmallCode(h: SmallText, n: nat): PrefixCode
  {
    match h
    case SmallSymbol(sym) => Single(sym)
    case SmallLengths(lens, _, _) => Canonical(Fit(lens, n))
  }

  function SmallBits(h: SmallText, nbit: nat, special: nat): seq<bit>
  {
    match h
    case SmallSymbol(sym) => Spell(0, nbit) + Spell(sym, nbit)
    case SmallLengths(lens, run, number) => Spell(number, nbit) + LengthsBits(lens, 0, special, run)
  }

  /** A written small code is read back and exactly its bits are consumed. */
  lemma ReadsSmallCode(s: seq<bit>, pos: nat, h: SmallText, n: nat, nbit: nat, special: nat, rest: seq<bit>)
    requires SmallValid(h, n, nbit, special) && Follows(s, pos, SmallBits(h, nbit, special) + rest)
    ensures ReadSmallCode(s, pos, n, nbit, special) == Parsed(SmallCode(h, n), pos + |SmallBits(h, nbit, special)|)
    ensures Follows(s, pos + |SmallBits(h, nbit, special)|, rest)
    ensures ValidCode(SmallCode(h, n), n)
  {
    hide Follows, Kraft, Spell, LengthsBits, ReadLengths, Bounded;
    match h
    case SmallSymbol(sym) =>
      assert SmallBits(h, nbit, special) + rest == Spell(0, nbit) + (Spell(sym, nbit) + rest);
      ReadsNumber(s, pos, 0, nbit, Spell(sym, nbit) + rest);
      ReadsNumber(s, pos + nbit, sym, nbit, rest);
    case SmallLengths(lens, run, number) =>
      var e := LengthsBits(lens, 0, special, run);
      assert SmallBits(h, nbit, special) + rest == Spell(number, nbit) + (e + rest);
      ReadsNumber(s, pos, number, nbit, e + rest);
      assert lens[..0] == [];
      ReadsLengths(s, pos + nbit, lens, 0, special, run, number, rest);
  }

  /** One symbol of the extra set: one zero, 3 to 18 zeros, 20 to 531 zeros, or a length. */
  datatype Item = OneZero | FewZeros(k: nat) | ManyZeros(k: nat) | OneLength(len: nat)

  predicate ItemValid(i: Item)
  {
    match i
    case OneZero => true
    case FewZeros(k) => k < 16
    case ManyZeros(k) => k < 512
    case OneLength(len) => 1 <= len <= 16
  }

  function ItemSymbol(i: Item): nat
  {
    match i
    case OneZero => 0
    case FewZeros(_) => 1
    case ManyZeros(_) => 2
    case OneLength(len) => len + 2
  }

  function ItemLengths(i: Item): (r: seq<uint8>)
    requires ItemValid(i)
    ensures |r| > 0
  {
    match i
    case OneZero => Zeros(1)
    case FewZeros(k) => Zeros(k + 3)
    case ManyZeros(k) => Zeros(k + 20)
    case OneLength(len) => [len]
  }

  function ItemExtra(i: Item): seq<bit>
  {
    match i
    case FewZeros(k) => Spell(k, 4)
    case ManyZeros(k) => Spell(k, CBIT)
    case _ => []
  }

  ghost predicate ItemsValid(items: seq<Item>, t: PrefixCode)
  {
    ValidCode(t, NT) && forall j :: 0 <= j < |items| ==> ItemValid(items[j]) && Writable(t, NT, ItemSymbol(items[j]))
  }

  ghost function ItemsBits(items: seq<Item>, t: PrefixCode): seq<bit>
    requires ItemsValid(items, t)
  {
    if items == [] then []
    else SymbolBits(t, NT, ItemSymbol(items[0])) + ItemExtra(items[0]) + ItemsBits(items[1..], t)
  }

  function ItemsLengths(items: seq<Item>): seq<uint8>
    requires forall j :: 0 <= j < |items| ==> ItemValid(items[j])
  {
    if items == [] then [] else ItemLengths(items[0]) + ItemsLengths(items[1..])
  }

  lemma ReadsItem(s: seq<bit>, pos: nat, t: PrefixCode, i: Item, acc: seq<uint8>, rest: seq<bit>)
    requires ItemValid(i) && Writable(t, NT, ItemSymbol(i)) && |acc| + |ItemLengths(i)| <= NC
    requires Follows(s, pos, SymbolBits(t, NT, ItemSymbol(i)) + ItemExtra(i) + rest)
    ensures
      var p := pos + |SymbolBits(t, NT, ItemSymbol(i))| + |ItemExtra(i)|;
      AddRun(s, pos, t, acc) == Parsed(acc + ItemLengths(i), p) && Follows(s, p, rest)
  {
    hide Follows, ValidCode, Spell, SymbolIn, LengthOf, SymbolBits, Window, Bits, Writable;
    var c := ItemSymbol(i);
    var e := SymbolBits(t, NT, c);
    assert e + ItemExtra(i) + rest == e + (ItemExtra(i) + rest);
    ReadsSymbol(s, pos, t, NT, c, ItemExtra(i) + rest);
    assert Pow2(4) == 16 && Pow2(9) == 512;
    match i
    case FewZeros(k) => ReadsNumber(s, pos + |e|, k, 4, rest);
    case ManyZeros(k) => ReadsNumber(s, pos + |e|, k, CBIT, rest);
    case OneZero => assert ItemExtra(i) + rest == rest;
    case OneLength(_) => assert ItemExtra(i) + rest == rest;
  }

  /** The items are those needed to reach the announced number; the last one may go beyond it. */
  predicate Reaches(items: seq<Item>, done: nat, number: nat)
    requires forall j :: 0 <= j < |items| ==> ItemValid(items[j])
  {
    if items == [] then done >= number
    else done < number && Reaches(items[1..], done + |ItemLengths(items[0])|, number)
  }

  lemma {:induction false} ReadsItems(s: seq<bit>, pos: nat, t: PrefixCode, items: seq<Item>, acc: seq<uint8>, number: nat, rest: seq<bit>)
    requires ItemsValid(items, t) && |acc| + |ItemsLengths(items)| <= NC && Reaches(items, |acc|, number)
    requires Follows(s, pos, ItemsBits(items, t) + rest)
    ensures ReadCoded(s, pos, t, number, acc) == Parsed(acc + ItemsLengths(items), pos + |ItemsBits(items, t)|)
    ensures Follows(s, pos + |ItemsBits(items, t)|, rest)
    decreases |items|
  {
    hide Follows, ValidCode, SymbolBits, AddRun, ItemExtra, ItemSymbol, ItemLengths, Writable;
    if items == [] {
      assert acc + ItemsLengths(items) == acc;
      assert ItemsBits(items, t) + rest == rest;
    } else {
      var i, more := items[0], ItemsBits(items[1..], t);
      var e := SymbolBits(t, NT, ItemSymbol(i)) + ItemExtra(i);
      assert e + more + rest == e + (more + rest);
      ReadsItem(s, pos, t, i, acc, more + rest);
      var acc1 := acc + ItemLengths(i);
      assert acc + ItemsLengths(items) == acc1 + ItemsLengths(items[1..]);
      ReadsItems(s, pos + |e|, t, items[1..], acc1, number, rest);
    }
  }

  /** How the code of the Char&Len set is written. */
  datatype LargeText = LargeSymbol(sym: nat) | LargeItems(items: seq<Item>, number: nat)

  ghost predicate LargeValid(h: LargeText, t: PrefixCode)
  {
    match h
    case LargeSymbol(sym) => ValidCode(t, NT) && sym < NC
    case LargeItems(items, number) =>
      && ItemsValid(items, t) && 0 < number < 512 && Reaches(items, 0, number)
      && |ItemsLengths(items)| <= NC && Complete(Fit(ItemsLengths(items), NC))
  }

  function LargeCode(h: LargeText): PrefixCode
    requires h.LargeItems? ==> forall j :: 0 <= j < |h.items| ==> ItemValid(h.items[j])
  {
    match h
    case LargeSymbol(sym) => Single(sym)
    case LargeItems(items, _) => Canonical(Fit(ItemsLengths(items), NC))
  }

  ghost function LargeBits(h: LargeText, t: PrefixCode): seq<bit>
    requires LargeValid(h, t)
  {
    match h
    case LargeSymbol(sym) => Spell(0, CBIT) + Spell(sym, CBIT)
    case LargeItems(items, number) => Spell(number, CBIT) + ItemsBits(items, t)
  }

  /** A written Char&Len code is read back and exactly its bits are consumed. */
  lemma ReadsLargeCode(s: seq<bit>, pos: nat, h: LargeText, t: PrefixCode, rest: seq<bit>)
    requires LargeValid(h, t) && Follows(s, pos, LargeBits(h, t) + rest)
    ensures ValidCode(t, NT)
    ensures ReadLargeCode(s, pos, t) == Parsed(LargeCode(h), pos + |LargeBits(h, t)|)
    ensures Follows(s, pos + |LargeBits(h, t)|, rest)
    ensures ValidCode(LargeCode(h), NC)
  {
    hide Follows, Kraft, Spell, ItemsBits, ReadCoded, Bounded;
    assert Pow2(9) == 512;
    match h
    case LargeSymbol(sym) =>
      assert LargeBits(h, t) + rest == Spell(0, CBIT) + (Spell(sym, CBIT) + rest);
      ReadsNumber(s, pos, 0, CBIT, Spell(sym, CBIT) + rest);
      ReadsNumber(s, pos + CBIT, sym, CBIT, rest);
    case LargeItems(items, number) =>
      var e := ItemsBits(items, t);
      assert LargeBits(h, t) + rest == Spell(number, CBIT) + (e + rest);
      ReadsNumber(s, pos, number, CBIT, e + rest);
      ReadsItems(s, pos + CBIT, t, items, [], number, rest);
      assert [] + ItemsLengths(items) == ItemsLengths(items);
  }
}
