/**
 The compressed format, as a parser over the zero-padded bit stream: block
 headers with three self-delimiting lists of code lengths, then literals and
 back-references.
 */
module TianoFormat {
  import opened Words
  import opened BitStream
  import opened CanonicalCode

  const NC := 510
  const CBIT := 9
  const MAXNP := 31
  const NT := 19
  const TBIT := 5

  /** BadTable is the error the decoder reports; Malformed input it does not detect. */
  datatype Parsed<+T> = Parsed(value: T, next: nat) | BadTable | Malformed

  // ---- prefix codes

  /** A header either names a single symbol, which then takes no bits, or lists code lengths. */
  datatype PrefixCode = Single(sym: nat) | Canonical(lens: seq<uint8>)

  ghost predicate ValidCode(code: PrefixCode, n: nat)
  {
    match code
    case Single(sym) => sym < n
    case Canonical(lens) => |lens| == n && Complete(lens)
  }

  /** The symbol that starts the 16-bit window w. */
  ghost function SymbolIn(code: PrefixCode, n: nat, w: nat): (c: nat)
    requires ValidCode(code, n) && w < 0x1_0000
    ensures c < n
  {
    match code
    case Single(sym) => sym
    case Canonical(lens) => Symbol(lens, w)
  }

  ghost function LengthOf(code: PrefixCode, n: nat, c: nat): (len: nat)
    requires ValidCode(code, n) && c < n
    ensures len <= 16
  {
    match code
    case Single(_) => 0
    case Canonical(lens) => lens[c]
  }

  function Window(s: seq<bit>, pos: nat): (w: nat)
    ensures w < 0x1_0000
  {
    Pow2Values();
    Bits(s, pos, 16)
  }

  // ---- lists of code lengths

  function Zeros(n: nat): (z: seq<uint8>)
    ensures |z| == n && forall i :: 0 <= i < n ==> z[i] == 0
  {
    seq(n, _ => 0)
  }

  /** The list cut or padded with zeros to n lengths. */
  function Fit(lens: seq<uint8>, n: nat): (r: seq<uint8>)
    ensures |r| == n
  {
    if |lens| >= n then lens[..n] else lens + Zeros(n - |lens|)
  }

  /** How many one bits follow, looking no further than end. */
  function Ones(s: seq<bit>, pos: nat, end: nat): (k: nat)
    ensures pos <= end ==> pos + k <= end
    decreases end - pos
  {
    if pos >= end || At(s, pos) == 0 then 0 else 1 + Ones(s, pos + 1, end)
  }

  /** A length in the 3-bit/unary code: three bits up to 6, then 111 and one 1 for each step above 7, and a 0. */
  function ReadLength(s: seq<bit>, pos: nat): (nat, nat)
  {
    var v := Bits(s, pos, 3);
    if v < 7 then (v, pos + 3)
    else
      var k := Ones(s, pos + 3, pos + 32);
      (7 + k, pos + 4 + k)
  }

  /** One more length; after the special-th, two bits give a number of zero lengths. */
  function AddLength(s: seq<bit>, pos: nat, special: nat, acc: seq<uint8>): (r: Parsed<seq<uint8>>)
    ensures r.Parsed? ==> |acc| < |r.value| <= |acc| + 4 && (|acc| + 1 != special ==> |r.value| == |acc| + 1)
  {
    var (len, p) := ReadLength(s, pos);
    if len > 16 then Malformed
    else if |acc| + 1 == special then
      assert Bits(s, p, 2) < 4 by { Pow2Values(); }
      Parsed(acc + [len] + Zeros(Bits(s, p, 2)), p + 2)
    else Parsed(acc + [len], p)
  }

  /** Lengths until there are number of them. */
  function ReadLengths(s: seq<bit>, pos: nat, number: nat, special: nat, acc: seq<uint8>): Parsed<seq<uint8>>
    decreases number - |acc|
  {
    if |acc| >= number then Parsed(acc, pos)
    else
      match AddLength(s, pos, special, acc)
      case Parsed(acc1, p) => ReadLengths(s, p, number, special, acc1)
      case _ => Malformed
  }

  lemma {:induction false} LengthsBounded(s: seq<bit>, pos: nat, number: nat, special: nat, acc: seq<uint8>)
    requires Bounded(acc)
    ensures var r := ReadLengths(s, pos, number, special, acc); r.Parsed? ==> Bounded(r.value)
    decreases number - |acc|
  {
    if |acc| < number {
      var r := AddLength(s, pos, special, acc);
      if r.Parsed? { LengthsBounded(s, r.next, number, special, r.value); }
    }
  }

  lemma FitBounded(lens: seq<uint8>, n: nat)
    requires Bounded(lens)
    ensures Bounded(Fit(lens, n))
  {
  }

  /** The code given by a list of lengths. */
  function CodeOfLengths(r: Parsed<seq<uint8>>, n: nat): Parsed<PrefixCode>
  {
    match r
    case Parsed(acc, p) =>
      var lens := Fit(acc, n);
      if Kraft(lens) % 0x1_0000 != 0 then BadTable
      else if Complete(lens) then Parsed(Canonical(lens), p)
      else Malformed
    case _ => Malformed
  }

  /** A single symbol, written with nbit bits. */
  function CodeOfSymbol(s: seq<bit>, pos: nat, n: nat, nbit: nat): Parsed<PrefixCode>
  {
    var sym := Bits(s, pos, nbit);
    if sym < n then Parsed(Single(sym), pos + nbit) else Malformed
  }

  /** The code of the extra set (special 3) or of the position set (no special). */
  function ReadSmallCode(s: seq<bit>, pos: nat, n: nat, nbit: nat, special: nat): Parsed<PrefixCode>
  {
    var number := Bits(s, pos, nbit);
    if number == 0 then CodeOfSymbol(s, pos + nbit, n, nbit)
    else CodeOfLengths(ReadLengths(s, pos + nbit, number, special, []), n)
  }

  /** What one symbol of the extra set adds to the list: a run of zeros or one length. */
  function RunOf(s: seq<bit>, pos: nat, c: nat): (seq<uint8>, nat)
    requires c < NT
  {
    if c == 0 then (Zeros(1), pos)
    else if c == 1 then (Zeros(Bits(s, pos, 4) + 3), pos + 4)
    else if c == 2 then (Zeros(Bits(s, pos, CBIT) + 20), pos + CBIT)
    else ([c - 2], pos)
  }

  /** One more symbol of the extra set; the list must not outgrow the set. */
  ghost function AddRun(s: seq<bit>, pos: nat, t: PrefixCode, acc: seq<uint8>): (r: Parsed<seq<uint8>>)
    requires ValidCode(t, NT)
    ensures r.Parsed? ==> |acc| < |r.value| <= NC
  {
    var c := SymbolIn(t, NT, Window(s, pos));
    var (run, p) := RunOf(s, pos + LengthOf(t, NT, c), c);
    if |acc| + |run| > NC then Malformed else Parsed(acc + run, p)
  }

  /** Lengths coded by the extra set until there are number of them. */
  ghost function ReadCoded(s: seq<bit>, pos: nat, t: PrefixCode, number: nat, acc: seq<uint8>): Parsed<seq<uint8>>
    requires ValidCode(t, NT)
    decreases number - |acc|
  {
    if |acc| >= number then Parsed(acc, pos)
    else
      match AddRun(s, pos, t, acc)
      case Parsed(acc1, p) => ReadCoded(s, p, t, number, acc1)
      case _ => Malformed
  }

  /** The code of the Char&Len set; the decoder does not check it. */
  ghost function ReadLargeCode(s: seq<bit>, pos: nat, t: PrefixCode): Parsed<PrefixCode>
    requires ValidCode(t, NT)
  {
    var number := Bits(s, pos, CBIT);
    if number == 0 then CodeOfSymbol(s, pos + CBIT, NC, CBIT)
    else UncheckedCode(ReadCoded(s, pos + CBIT, t, number, []))
  }

  /** The code given by the lengths, which have to be complete although nobody looks. */
  function UncheckedCode(r: Parsed<seq<uint8>>): Parsed<PrefixCode>
  {
    match r
    case Parsed(acc, p) =>
      if Complete(Fit(acc, NC)) then Parsed(Canonical(Fit(acc, NC)), p) else Malformed
    case _ => Malformed
  }

  // ---- blocks

  /** The codes of the current block and the number of symbols left in it. */
  datatype Block = Block(c: PrefixCode, p: PrefixCode, left: nat)

  ghost predicate ValidBlock(b: Block)
  {
    b.left > 0 ==> ValidCode(b.c, NC) && ValidCode(b.p, MAXNP)
  }

  /** A block header; a size of 0 stands for 65536 symbols. */
  ghost function ReadHeader(s: seq<bit>, pos: nat, pbit: nat): (r: Parsed<Block>)
    ensures r.Parsed? ==> 0 < r.value.left <= 0x1_0000 && ValidBlock(r.value)
  {
    var size := Window(s, pos);
    match ReadSmallCode(s, pos + 16, NT, TBIT, 3)
    case BadTable => BadTable
    case Malformed => Malformed
    case Parsed(t, p1) =>
      SmallCodeValid(s, pos + 16, NT, TBIT, 3);
      match ReadLargeCode(s, p1, t)
      case Parsed(c, p2) =>
        (match ReadSmallCode(s, p2, MAXNP, pbit, 0xffff)
         case BadTable => BadTable
         case Malformed => Malformed
         case Parsed(p, p3) =>
           SmallCodeValid(s, p2, MAXNP, pbit, 0xffff);
           Parsed(Block(c, p, if size == 0 then 0x1_0000 else size), p3))
      case _ => Malformed
  }

  lemma SmallCodeValid(s: seq<bit>, pos: nat, n: nat, nbit: nat, special: nat)
    ensures ReadSmallCode(s, pos, n, nbit, special).Parsed? ==> ValidCode(ReadSmallCode(s, pos, n, nbit, special).value, n)
  {
  }

  /** Start a new block if the current one is used up. */
  ghost function EnsureBlock(s: seq<bit>, pos: nat, pbit: nat, b: Block): (r: Parsed<Block>)
    requires ValidBlock(b)
    ensures r.Parsed? ==> r.value.left > 0 && ValidBlock(r.value)
  {
    if b.left == 0 then ReadHeader(s, pos, pbit) else Parsed(b, pos)
  }

  // ---- literals and back-references

  /** A distance: small ones directly, larger ones as 1 followed by v - 1 more bits. */
  ghost function ReadDistance(s: seq<bit>, pos: nat, p: PrefixCode): (nat, nat)
    requires ValidCode(p, MAXNP)
  {
    var v := SymbolIn(p, MAXNP, Window(s, pos));
    var q := pos + LengthOf(p, MAXNP, v);
    if v <= 1 then (v, q) else (Pow2(v - 1) + Bits(s, q, v - 1), q + v - 1)
  }

  /** A distance fits a 32-bit word. */
  lemma DistanceFits(s: seq<bit>, pos: nat, v: nat)
    requires 1 < v < MAXNP
    ensures Pow2(v - 1) + Bits(s, pos, v - 1) < 0x8000_0000
  {
    Pow2Mono(v - 1, 29);
    Pow2Values();
    Pow2Add(16, 13);
    assert Pow2(13) == 0x2000;
  }

  /** n times: append the byte dist + 1 places back. */
  function CopyBack(out: seq<uint8>, dist: nat, n: nat): (r: seq<uint8>)
    requires dist < |out|
    ensures |r| == |out| + n && r[..|out|] == out
    decreases n
  {
    if n == 0 then out else
      var r := CopyBack(out + [out[|out| - 1 - dist]], dist, n - 1);
      assert r[..|out|] == r[..|out| + 1][..|out|];
      r
  }

  lemma CopyStep(out: seq<uint8>, dist: nat, n: nat)
    requires dist < |out| && n > 0
    ensures CopyBack(out, dist, n) == CopyBack(out + [out[|out| - 1 - dist]], dist, n - 1)
  {
  }

  lemma CopyNothing(out: seq<uint8>, dist: nat)
    requires dist < |out|
    ensures CopyBack(out, dist, 0) == out
  {
  }

  /** A shorter copy is the start of a longer one. */
  lemma {:induction false} CopyBackPrefix(out: seq<uint8>, dist: nat, n: nat, m: nat)
    requires dist < |out| && m <= n
    ensures CopyBack(out, dist, n)[..|out| + m] == CopyBack(out, dist, m)
    decreases m
  {
    if m > 0 {
      var out1 := out + [out[|out| - 1 - dist]];
      CopyBackPrefix(out1, dist, n - 1, m - 1);
    }
  }

  /** A copied stretch repeats the last dist + 1 bytes periodically, however long it is. */
  lemma {:induction false} CopyBackPeriodic(out: seq<uint8>, dist: nat, n: nat, i: nat)
    requires dist < |out| && i < n
    ensures CopyBack(out, dist, n)[|out| + i] == out[|out| - 1 - dist + i % (dist + 1)]
    decreases n
  {
    var x := out[|out| - 1 - dist];
    if i == 0 {
      assert CopyBack(out, dist, n)[..|out| + 1] == out + [x];
    } else {
      var out1 := out + [x];
      CopyBackPeriodic(out1, dist, n - 1, i - 1);
      var j := (i - 1) % (dist + 1);
      if j == dist {
        NextRemainder(i - 1, dist + 1);
      } else {
        NextRemainder(i - 1, dist + 1);
      }
    }
  }

  lemma NextRemainder(i: nat, d: nat)
    requires d > 0
    ensures (i + 1) % d == if i % d == d - 1 then 0 else i % d + 1
  {
    var q, r := i / d, i % d;
    assert i == q * d + r;
    if r == d - 1 {
      Distribute(q, 1, d);
      DivModUnique(i + 1, d, q + 1, 0);
    } else {
      DivModUnique(i + 1, d, q, r + 1);
    }
  }

  /** Corrupt is the reported error, with what was written before it. */
  datatype Outcome = Finished(out: seq<uint8>) | Corrupt(out: seq<uint8>) | Undetected

  /** What is known before the first block. */
  const NO_BLOCK := Block(Single(0), Single(0), 0)

  /** What one symbol of the Char&Len set leads to. */
  datatype Progress = Stop(outcome: Outcome) | Go(out: seq<uint8>, block: Block, next: nat)

  /** A literal; it ends the output if that is full already. */
  function PutLiteral(c: nat, out: seq<uint8>, size: nat, b: Block, next: nat): Progress
    requires c < 256 && |out| <= size
  {
    if |out| == size then Stop(Finished(out)) else Go(out + [c], b, next)
  }

  /** A back-reference; it must not start before the output nor after its end. */
  ghost function PutMatch(s: seq<bit>, pos: nat, p: PrefixCode, len: nat, out: seq<uint8>, size: nat, b: Block): Progress
    requires ValidCode(p, MAXNP) && |out| <= size && len > 0
  {
    var (dist, next) := ReadDistance(s, pos, p);
    if |out| == size || dist >= |out| then Stop(Undetected)
    else if |out| + len >= size then Stop(Finished(CopyBack(out, dist, size - |out|)))
    else Go(CopyBack(out, dist, len), b, next)
  }

  /**
   One symbol. Like the decoder, this reads one more symbol after a literal that
   fills the output; a back-reference there, or one that reaches before the start
   of the output, is undetected corruption.
   */
  ghost function Advance(s: seq<bit>, pos: nat, pbit: nat, b: Block, out: seq<uint8>, size: nat): (r: Progress)
    requires ValidBlock(b) && |out| <= size
    ensures r.Go? ==> |out| < |r.out| <= size && ValidBlock(r.block)
    ensures r.Stop? && r.outcome.Finished? ==> |r.outcome.out| == size
    ensures r.Stop? && r.outcome.Corrupt? ==> r.outcome.out == out
  {
    match EnsureBlock(s, pos, pbit, b)
    case BadTable => Stop(Corrupt(out))
    case Malformed => Stop(Undetected)
    case Parsed(b1, p1) =>
      var c := SymbolIn(b1.c, NC, Window(s, p1));
      var p2 := p1 + LengthOf(b1.c, NC, c);
      var b2 := b1.(left := b1.left - 1);
      if c < 256 then PutLiteral(c, out, size, b2, p2) else PutMatch(s, p2, b1.p, c - 253, out, size, b2)
  }

  /** The output for the stream from pos on. */
  ghost function Expand(s: seq<bit>, pos: nat, pbit: nat, b: Block, out: seq<uint8>, size: nat): Outcome
    requires ValidBlock(b) && |out| <= size
    decreases size - |out|
  {
    match Advance(s, pos, pbit, b, out, size)
    case Stop(outcome) => outcome
    case Go(out1, b1, p1) => Expand(s, p1, pbit, b1, out1, size)
  }

  /** A finished output has the announced size, and output is never taken back. */
  lemma {:induction false} ExpandExtends(s: seq<bit>, pos: nat, pbit: nat, b: Block, out: seq<uint8>, size: nat)
    requires ValidBlock(b) && |out| <= size
    ensures var r := Expand(s, pos, pbit, b, out, size);
      && (r.Finished? ==> |r.out| == size && out <= r.out)
      && (r.Corrupt? ==> |r.out| <= size && out <= r.out)
    decreases size - |out|
  {
    AdvanceExtends(s, pos, pbit, b, out, size);
    var a := Advance(s, pos, pbit, b, out, size);
    if a.Go? { ExpandExtends(s, a.next, pbit, a.block, a.out, size); }
  }

  lemma AdvanceExtends(s: seq<bit>, pos: nat, pbit: nat, b: Block, out: seq<uint8>, size: nat)
    requires ValidBlock(b) && |out| <= size
    ensures var r := Advance(s, pos, pbit, b, out, size);
      && (r.Go? ==> out <= r.out)
      && (r.Stop? && !r.outcome.Undetected? ==> out <= r.outcome.out)
  {
    hide EnsureBlock, SymbolIn, LengthOf, ReadDistance, ValidCode, Window;
  }
}
