/**
 Whole streams: blocks of literals and back-references written in any way the
 format allows decode to the bytes they stand for.
 */
module TianoRoundTrip {
  import opened Words
  import opened BitStream
  import opened CanonicalCode
  import opened TianoFormat
  import opened TianoEncode
  import opened Tiano

  // ---- tokens

  datatype Token = Lit(c: uint8) | Ref(len: nat, dist: nat)

  function BitLength(d: nat): (v: nat)
    ensures v <= 1 ==> v == d
    ensures d <= 1 ==> v == d
  {
    if d == 0 then 0 else 1 + BitLength(d / 2)
  }

  lemma {:induction false} BitLengthBounds(d: nat)
    requires d > 0
    ensures Pow2(BitLength(d) - 1) <= d < Pow2(BitLength(d))
  {
    if d > 1 { BitLengthBounds(d / 2); }
  }

  ghost predicate TokenValid(k: Token, c: PrefixCode, p: PrefixCode, out: seq<uint8>)
  {
    && ValidCode(c, NC) && ValidCode(p, MAXNP)
    && match k
      case Lit(x) => Writable(c, NC, x)
      case Ref(len, dist) =>
        3 <= len <= 256 && dist < |out| && Writable(c, NC, len + 253) && Writable(p, MAXNP, BitLength(dist))
  }

  function Put(k: Token, out: seq<uint8>): (r: seq<uint8>)
    requires k.Ref? ==> k.dist < |out| && k.len > 0
    ensures |r| > |out| && out <= r
  {
    match k
    case Lit(x) => out + [x]
    case Ref(len, dist) => CopyBack(out, dist, len)
  }

  ghost function DistanceBits(dist: nat, p: PrefixCode): seq<bit>
    requires Writable(p, MAXNP, BitLength(dist))
  {
    var v := BitLength(dist);
    SymbolBits(p, MAXNP, v) + if v <= 1 then [] else BitLengthBounds(dist); Spell(dist - Pow2(v - 1), v - 1)
  }

  ghost function TokenBits(k: Token, c: PrefixCode, p: PrefixCode, out: seq<uint8>): seq<bit>
    requires TokenValid(k, c, p, out)
  {
    match k
    case Lit(x) => SymbolBits(c, NC, x)
    case Ref(len, dist) => SymbolBits(c, NC, len + 253) + DistanceBits(dist, p)
  }

  lemma ReadsDistance(s: seq<bit>, pos: nat, dist: nat, p: PrefixCode, rest: seq<bit>)
    requires Writable(p, MAXNP, BitLength(dist)) && Follows(s, pos, DistanceBits(dist, p) + rest)
    ensures ReadDistance(s, pos, p) == (dist, pos + |DistanceBits(dist, p)|)
    ensures Follows(s, pos + |DistanceBits(dist, p)|, rest)
  {
    hide Follows, ValidCode, Spell, SymbolIn, LengthOf, SymbolBits, Window, Bits, Pow2, BitLength;
    var v := BitLength(dist);
    var e := SymbolBits(p, MAXNP, v);
    if v <= 1 {
      assert e + [] + rest == e + rest;
      ReadsSymbol(s, pos, p, MAXNP, v, rest);
    } else {
      BitLengthBounds(dist);
      var low := Spell(dist - Pow2(v - 1), v - 1);
      assert e + low + rest == e + (low + rest);
      ReadsSymbol(s, pos, p, MAXNP, v, low + rest);
      assert Pow2(v) == 2 * Pow2(v - 1) by { Pow2Add(1, v - 1); Pow2Values(); }
      ReadsNumber(s, pos + |e|, dist - Pow2(v - 1), v - 1, rest);
    }
  }

  /** A back-reference that fills the output, or would go on beyond its end, ends the run at once. */
  predicate Ends(k: Token, out: seq<uint8>, size: nat)
    requires k.Ref? ==> k.dist < |out| && k.len > 0
  {
    k.Ref? && |Put(k, out)| >= size
  }

  /** A symbol within a block. */
  lemma AdvanceInBlock(s: seq<bit>, pos: nat, pbit: nat, b: Block, out: seq<uint8>, size: nat)
    requires b.left > 0 && ValidBlock(b) && |out| <= size
    ensures
      var c := SymbolIn(b.c, NC, Window(s, pos));
      var p, b1 := pos + LengthOf(b.c, NC, c), b.(left := b.left - 1);
      Advance(s, pos, pbit, b, out, size)
      == if c < 256 then PutLiteral(c, out, size, b1, p) else PutMatch(s, p, b.p, c - 253, out, size, b1)
  {
    hide ValidCode, SymbolIn, LengthOf, Window, PutLiteral, PutMatch;
  }

  lemma ReadsLiteral(s: seq<bit>, pos: nat, pbit: nat, b: Block, x: uint8, out: seq<uint8>, size: nat, rest: seq<bit>)
    requires b.left > 0 && ValidBlock(b) && Writable(b.c, NC, x) && |out| < size
    requires Follows(s, pos, SymbolBits(b.c, NC, x) + rest)
    ensures
      var p := pos + |SymbolBits(b.c, NC, x)|;
      Follows(s, p, rest) && Advance(s, pos, pbit, b, out, size) == Go(out + [x], b.(left := b.left - 1), p)
  {
    hide Follows, ValidCode, SymbolIn, LengthOf, Window, Advance, SymbolBits, Writable;
    ReadsSymbol(s, pos, b.c, NC, x, rest);
    AdvanceInBlock(s, pos, pbit, b, out, size);
  }

  lemma ReadsReference(s: seq<bit>, pos: nat, pbit: nat, b: Block, len: nat, dist: nat, out: seq<uint8>, size: nat, rest: seq<bit>)
    requires b.left > 0 && ValidBlock(b) && 3 <= len <= 256 && dist < |out| < size
    requires Writable(b.c, NC, len + 253) && Writable(b.p, MAXNP, BitLength(dist))
    requires Follows(s, pos, SymbolBits(b.c, NC, len + 253) + DistanceBits(dist, b.p) + rest)
    ensures
      var p := pos + |SymbolBits(b.c, NC, len + 253)| + |DistanceBits(dist, b.p)|;
      && Follows(s, p, rest)
      && Advance(s, pos, pbit, b, out, size)
         == if |out| + len >= size then Stop(Finished(CopyBack(out, dist, len)[..size]))
            else Go(CopyBack(out, dist, len), b.(left := b.left - 1), p)
  {
    hide Follows, ValidCode, SymbolIn, LengthOf, Window, Advance, SymbolBits, DistanceBits, Writable, ReadDistance, CopyBack, BitLength;
    var e, d := SymbolBits(b.c, NC, len + 253), DistanceBits(dist, b.p);
    assert e + d + rest == e + (d + rest);
    ReadsSymbol(s, pos, b.c, NC, len + 253, d + rest);
    ReadsDistance(s, pos + |e|, dist, b.p, rest);
    AdvanceInBlock(s, pos, pbit, b, out, size);
    if |out| + len >= size { CopyBackPrefix(out, dist, len, size - |out|); }
  }

  lemma ReadsToken(s: seq<bit>, pos: nat, pbit: nat, b: Block, k: Token, out: seq<uint8>, size: nat, rest: seq<bit>)
    requires b.left > 0 && ValidBlock(b) && TokenValid(k, b.c, b.p, out) && |out| < size
    requires Follows(s, pos, TokenBits(k, b.c, b.p, out) + rest)
    ensures
      var p := pos + |TokenBits(k, b.c, b.p, out)|;
      && Follows(s, p, rest)
      && Advance(s, pos, pbit, b, out, size)
         == if Ends(k, out, size) then Stop(Finished(Put(k, out)[..size])) else Go(Put(k, out), b.(left := b.left - 1), p)
  {
    hide Follows, ValidCode, Advance, SymbolBits, DistanceBits, Writable, CopyBack;
    match k
    case Lit(x) => ReadsLiteral(s, pos, pbit, b, x, out, size, rest);
    case Ref(len, dist) => ReadsReference(s, pos, pbit, b, len, dist, out, size, rest);
  }

  // ---- the tokens of a block

  ghost predicate TokensValid(tokens: seq<Token>, c: PrefixCode, p: PrefixCode, out: seq<uint8>)
    decreases |tokens|
  {
    tokens != [] ==> TokenValid(tokens[0], c, p, out) && TokensValid(tokens[1..], c, p, Put(tokens[0], out))
  }

  /** The output after the tokens. */
  ghost function PutAll(tokens: seq<Token>, c: PrefixCode, p: PrefixCode, out: seq<uint8>): (r: seq<uint8>)
    requires TokensValid(tokens, c, p, out)
    ensures |r| >= |out| + |tokens| && out <= r
    decreases |tokens|
  {
    if tokens == [] then out else PutAll(tokens[1..], c, p, Put(tokens[0], out))
  }

  ghost function TokensBits(tokens: seq<Token>, c: PrefixCode, p: PrefixCode, out: seq<uint8>): seq<bit>
    requires TokensValid(tokens, c, p, out)
    decreases |tokens|
  {
    if tokens == [] then []
    else TokenBits(tokens[0], c, p, out) + TokensBits(tokens[1..], c, p, Put(tokens[0], out))
  }

  /** The last token is a back-reference. */
  predicate EndsInRef(tokens: seq<Token>)
  {
    tokens != [] && tokens[|tokens| - 1].Ref?
  }

  /** There is room for a byte before every token. */
  ghost predicate Short(tokens: seq<Token>, c: PrefixCode, p: PrefixCode, out: seq<uint8>, size: nat)
    requires TokensValid(tokens, c, p, out)
    decreases |tokens|
  {
    tokens != [] ==> |out| < size && (|tokens| > 1 ==> Short(tokens[1..], c, p, Put(tokens[0], out), size))
  }

  lemma {:induction false} ReadsTokens(s: seq<bit>, pos: nat, pbit: nat, b: Block, tokens: seq<Token>, out: seq<uint8>, size: nat, rest: seq<bit>)
    requires b.left == |tokens| && ValidBlock(b) && TokensValid(tokens, b.c, b.p, out)
    requires |out| <= size && Short(tokens, b.c, b.p, out, size)
    requires Follows(s, pos, TokensBits(tokens, b.c, b.p, out) + rest)
    ensures
      var p, all := pos + |TokensBits(tokens, b.c, b.p, out)|, PutAll(tokens, b.c, b.p, out);
      && Follows(s, p, rest)
      && (|all| > size ==> EndsInRef(tokens))
      && Expand(s, pos, pbit, b, out, size)
         == if EndsInRef(tokens) && |all| >= size then Finished(all[..size]) else Expand(s, p, pbit, b.(left := 0), all, size)
    decreases |tokens|
  {
    hide Follows, ValidCode, Advance, TokenBits, Writable, Put;
    if tokens == [] {
      assert TokensBits(tokens, b.c, b.p, out) + rest == rest;
    } else {
      var k, out1 := tokens[0], Put(tokens[0], out);
      var e, more := TokenBits(k, b.c, b.p, out), TokensBits(tokens[1..], b.c, b.p, out1);
      assert e + more + rest == e + (more + rest);
      ReadsToken(s, pos, pbit, b, k, out, size, more + rest);
      PutOne(k, out, size);
      if |tokens| > 1 || !Ends(k, out, size) {
        if |tokens| > 1 { NotYetFull(tokens[1..], b.c, b.p, out1, size); }
        ReadsTokens(s, pos + |e|, pbit, b.(left := b.left - 1), tokens[1..], out1, size, rest);
      } else {
        FollowsRest(s, pos + |e|, more, rest);
      }
    }
  }

  lemma PutOne(k: Token, out: seq<uint8>, size: nat)
    requires (k.Ref? ==> k.dist < |out| && k.len > 0) && |out| < size
    ensures |Put(k, out)| <= size || Ends(k, out, size)
  {
  }

  lemma NotYetFull(tokens: seq<Token>, c: PrefixCode, p: PrefixCode, out: seq<uint8>, size: nat)
    requires tokens != [] && TokensValid(tokens, c, p, out) && Short(tokens, c, p, out, size)
    ensures |out| < size
  {
  }

  // ---- blocks

  datatype BlockText = BlockText(t: SmallText, c: LargeText, p: SmallText, tokens: seq<Token>)

  ghost predicate HeaderValid(h: BlockText, pbit: nat)
  {
    && SmallValid(h.t, NT, TBIT, 3) && LargeValid(h.c, SmallCode(h.t, NT)) && SmallValid(h.p, MAXNP, pbit, 0xffff)
    && 0 < |h.tokens| <= 0x1_0000
  }

  ghost function BlockOf(h: BlockText, pbit: nat): Block
    requires HeaderValid(h, pbit)
  {
    Block(LargeCode(h.c), SmallCode(h.p, MAXNP), |h.tokens|)
  }

  ghost function HeaderBits(h: BlockText, pbit: nat): seq<bit>
    requires HeaderValid(h, pbit)
  {
    Spell(|h.tokens| % 0x1_0000, 16) + (SmallBits(h.t, TBIT, 3)
      + (LargeBits(h.c, SmallCode(h.t, NT)) + SmallBits(h.p, pbit, 0xffff)))
  }

  /** A written header is read back and exactly its bits are consumed. */
  lemma ReadsHeader(s: seq<bit>, pos: nat, pbit: nat, h: BlockText, rest: seq<bit>)
    requires HeaderValid(h, pbit) && Follows(s, pos, HeaderBits(h, pbit) + rest)
    ensures
      var p := pos + |HeaderBits(h, pbit)|;
      ReadHeader(s, pos, pbit) == Parsed(BlockOf(h, pbit), p) && Follows(s, p, rest)
  {
    hide Follows, ValidCode, Spell, SmallBits, LargeBits, ReadSmallCode, ReadLargeCode, SmallValid, LargeValid, SmallCode, LargeCode;
    var size, t := |h.tokens| % 0x1_0000, SmallCode(h.t, NT);
    var e1, e2, e3 := SmallBits(h.t, TBIT, 3), LargeBits(h.c, t), SmallBits(h.p, pbit, 0xffff);
    assert HeaderBits(h, pbit) + rest == Spell(size, 16) + (e1 + (e2 + (e3 + rest)));
    Pow2Values();
    ReadsNumber(s, pos, size, 16, e1 + (e2 + (e3 + rest)));
    ReadsSmallCode(s, pos + 16, h.t, NT, TBIT, 3, e2 + (e3 + rest));
    ReadsLargeCode(s, pos + 16 + |e1|, h.c, t, e3 + rest);
    ReadsSmallCode(s, pos + 16 + |e1| + |e2|, h.p, MAXNP, pbit, 0xffff, rest);
  }

  ghost predicate BlocksValid(blocks: seq<BlockText>, pbit: nat, out: seq<uint8>)
    decreases |blocks|
  {
    blocks != [] ==>
      var h := blocks[0];
      && HeaderValid(h, pbit)
      && var b := BlockOf(h, pbit);
         TokensValid(h.tokens, b.c, b.p, out) && BlocksValid(blocks[1..], pbit, PutAll(h.tokens, b.c, b.p, out))
  }

  ghost function PutBlock(h: BlockText, pbit: nat, out: seq<uint8>): (r: seq<uint8>)
    requires HeaderValid(h, pbit) && TokensValid(h.tokens, BlockOf(h, pbit).c, BlockOf(h, pbit).p, out)
    ensures |r| > |out| && out <= r
  {
    PutAll(h.tokens, BlockOf(h, pbit).c, BlockOf(h, pbit).p, out)
  }

  /** The bytes that the blocks stand for, after those in out. */
  ghost function Meaning(blocks: seq<BlockText>, pbit: nat, out: seq<uint8>): (r: seq<uint8>)
    requires BlocksValid(blocks, pbit, out)
    ensures |r| >= |out| + |blocks| && out <= r
    decreases |blocks|
  {
    if blocks == [] then out else Meaning(blocks[1..], pbit, PutBlock(blocks[0], pbit, out))
  }

  ghost function BlockBits(h: BlockText, pbit: nat, out: seq<uint8>): seq<bit>
    requires HeaderValid(h, pbit) && TokensValid(h.tokens, BlockOf(h, pbit).c, BlockOf(h, pbit).p, out)
  {
    HeaderBits(h, pbit) + TokensBits(h.tokens, BlockOf(h, pbit).c, BlockOf(h, pbit).p, out)
  }

  ghost function StreamBits(blocks: seq<BlockText>, pbit: nat, out: seq<uint8>): seq<bit>
    requires BlocksValid(blocks, pbit, out)
    decreases |blocks|
  {
    if blocks == [] then []
    else BlockBits(blocks[0], pbit, out) + StreamBits(blocks[1..], pbit, PutBlock(blocks[0], pbit, out))
  }

  lemma AfterHeader(s: seq<bit>, pos: nat, pbit: nat, b: Block, out: seq<uint8>, size: nat)
    requires b.left == 0 && |out| <= size && ReadHeader(s, pos, pbit).Parsed?
    ensures var r := ReadHeader(s, pos, pbit);
      Expand(s, pos, pbit, b, out, size) == Expand(s, r.next, pbit, r.value, out, size)
  {
    hide ReadHeader, SymbolIn, LengthOf, ValidCode, Window, PutMatch, PutLiteral;
    var r := ReadHeader(s, pos, pbit);
    assert Advance(s, pos, pbit, b, out, size) == Advance(s, r.next, pbit, r.value, out, size);
  }

  ghost predicate ShortBlock(h: BlockText, pbit: nat, out: seq<uint8>, size: nat)
    requires HeaderValid(h, pbit) && TokensValid(h.tokens, BlockOf(h, pbit).c, BlockOf(h, pbit).p, out)
  {
    |out| <= size && Short(h.tokens, BlockOf(h, pbit).c, BlockOf(h, pbit).p, out, size)
  }

  lemma ReadsBlock(s: seq<bit>, pos: nat, pbit: nat, b: Block, h: BlockText, out: seq<uint8>, size: nat, rest: seq<bit>)
    requires b.left == 0 && HeaderValid(h, pbit) && TokensValid(h.tokens, BlockOf(h, pbit).c, BlockOf(h, pbit).p, out)
    requires ShortBlock(h, pbit, out, size) && Follows(s, pos, BlockBits(h, pbit, out) + rest)
    ensures
      var p, all := pos + |BlockBits(h, pbit, out)|, PutBlock(h, pbit, out);
      && Follows(s, p, rest)
      && (|all| > size ==> EndsInRef(h.tokens))
      && Expand(s, pos, pbit, b, out, size)
         == if EndsInRef(h.tokens) && |all| >= size then Finished(all[..size])
            else Expand(s, p, pbit, BlockOf(h, pbit).(left := 0), all, size)
  {
    hide Follows, ValidCode, HeaderBits, TokensBits, HeaderValid, TokensValid, PutAll, Expand, ReadHeader, Short;
    var b1 := BlockOf(h, pbit);
    var e, more := HeaderBits(h, pbit), TokensBits(h.tokens, b1.c, b1.p, out);
    assert e + more + rest == e + (more + rest);
    ReadsHeader(s, pos, pbit, h, more + rest);
    AfterHeader(s, pos, pbit, b, out, size);
    ReadsTokens(s, pos + |e|, pbit, b1, h.tokens, out, size, rest);
  }

  /** The announced size is reached with the last token and not before; a last back-reference may go beyond it. */
  ghost predicate Announced(blocks: seq<BlockText>, pbit: nat, out: seq<uint8>, size: nat)
    requires BlocksValid(blocks, pbit, out)
    decreases |blocks|
  {
    if blocks == [] then |out| == size
    else
      var out1 := PutBlock(blocks[0], pbit, out);
      && ShortBlock(blocks[0], pbit, out, size)
      && if |blocks| == 1 then size <= |out1| else |out1| < size && Announced(blocks[1..], pbit, out1, size)
  }

  /** The zeros after the stream read as a block of zero literals, the first of which finds the output full. */
  lemma PaddingFinishes(s: seq<bit>, pos: nat, pbit: nat, b: Block, out: seq<uint8>)
    requires b.left == 0 && Follows(s, pos, [])
    ensures Expand(s, pos, pbit, b, out, |out|) == Finished(out)
  {
    ZeroBits(s, pos, pos, 16);
    ZeroBits(s, pos, pos + 16, TBIT);
    ZeroBits(s, pos, pos + 16 + TBIT, TBIT);
    var p1 := pos + 16 + 2 * TBIT;
    ZeroBits(s, pos, p1, CBIT);
    ZeroBits(s, pos, p1 + CBIT, CBIT);
    var p2 := p1 + 2 * CBIT;
    ZeroBits(s, pos, p2, pbit);
    ZeroBits(s, pos, p2 + pbit, pbit);
    hide Follows, Bits, Window, SymbolIn, LengthOf, ReadLengths, CodeOfLengths, ReadCoded, PutMatch;
    assert ReadSmallCode(s, pos + 16, NT, TBIT, 3) == Parsed(Single(0), p1);
    assert ReadLargeCode(s, p1, Single(0)) == Parsed(Single(0), p2);
    assert ReadSmallCode(s, p2, MAXNP, pbit, 0xffff) == Parsed(Single(0), p2 + 2 * pbit);
    PaddingBlock(s, pos, pbit, b, out);
  }

  lemma PaddingBlock(s: seq<bit>, pos: nat, pbit: nat, b: Block, out: seq<uint8>)
    requires b.left == 0
    requires var p1 := pos + 16 + 2 * TBIT;
      var p2 := p1 + 2 * CBIT;
      && ReadSmallCode(s, pos + 16, NT, TBIT, 3) == Parsed(Single(0), p1)
      && ReadLargeCode(s, p1, Single(0)) == Parsed(Single(0), p2)
      && ReadSmallCode(s, p2, MAXNP, pbit, 0xffff) == Parsed(Single(0), p2 + 2 * pbit)
    ensures Expand(s, pos, pbit, b, out, |out|) == Finished(out)
  {
    hide Bits, Window, ReadSmallCode, ReadLargeCode, PutMatch;
    var r := ReadHeader(s, pos, pbit);
    assert r.Parsed? && r.value.c == Single(0);
    assert Advance(s, pos, pbit, b, out, |out|) == Stop(Finished(out));
  }

  lemma {:induction false} ZeroBits(s: seq<bit>, start: nat, pos: nat, n: nat)
    requires Follows(s, start, []) && start <= pos
    ensures Bits(s, pos, n) == 0
  {
    if n > 0 {
      ZeroBits(s, start, pos, n - 1);
      assert At(s, start + (pos + n - 1 - start)) == At([], pos + n - 1 - start);
    }
  }

  /** Written blocks decode to what they stand for, up to the announced size. */
  lemma {:induction false} ReadsBlocks(s: seq<bit>, pos: nat, pbit: nat, b: Block, blocks: seq<BlockText>, out: seq<uint8>, size: nat)
    requires b.left == 0 && BlocksValid(blocks, pbit, out) && Announced(blocks, pbit, out, size)
    requires Follows(s, pos, StreamBits(blocks, pbit, out))
    ensures var all := Meaning(blocks, pbit, out); |out| <= size <= |all| && Expand(s, pos, pbit, b, out, size) == Finished(all[..size])
    decreases |blocks|
  {
    hide Follows, BlockBits, PutAll, Expand, HeaderValid, TokensValid, Short;
    if blocks == [] {
      PaddingFinishes(s, pos, pbit, b, out);
      assert out[..size] == out;
    } else {
      var h, more := blocks[0], blocks[1..];
      var out1 := PutBlock(h, pbit, out);
      ReadsBlock(s, pos, pbit, b, h, out, size, StreamBits(more, pbit, out1));
      if |blocks| > 1 || !EndsInRef(h.tokens) {
        ReadsBlocks(s, pos + |BlockBits(h, pbit, out)|, pbit, BlockOf(h, pbit).(left := 0), more, out1, size);
      }
    }
  }

  lemma {:induction false} ShortWhenRoom(tokens: seq<Token>, c: PrefixCode, p: PrefixCode, out: seq<uint8>, size: nat)
    requires TokensValid(tokens, c, p, out) && |PutAll(tokens, c, p, out)| <= size
    ensures Short(tokens, c, p, out, size)
    decreases |tokens|
  {
    hide Writable, ValidCode, CopyBack;
    if tokens != [] { ShortWhenRoom(tokens[1..], c, p, Put(tokens[0], out), size); }
  }

  /** Blocks that stand for exactly the announced size are well announced. */
  lemma {:induction false} ExactlyAnnounced(blocks: seq<BlockText>, pbit: nat, out: seq<uint8>)
    requires BlocksValid(blocks, pbit, out)
    ensures Announced(blocks, pbit, out, |Meaning(blocks, pbit, out)|)
    decreases |blocks|
  {
    hide HeaderValid, TokensValid, PutAll, Short;
    if blocks != [] {
      var h, size := blocks[0], |Meaning(blocks, pbit, out)|;
      ShortWhenRoom(h.tokens, BlockOf(h, pbit).c, BlockOf(h, pbit).p, out, size);
      ExactlyAnnounced(blocks[1..], pbit, PutBlock(h, pbit, out));
    }
  }

  // ---- bytes

  /** The bits as bytes, the last one filled up with zeros. */
  function Pack(e: seq<bit>): (b: seq<uint8>)
    ensures |b| == (|e| + 7) / 8
  {
    Pow2Values();
    seq((|e| + 7) / 8, k requires 0 <= k < (|e| + 7) / 8 => Bits(e, 8 * k, 8) as uint8)
  }

  lemma {:induction false} BeyondEnd(e: seq<bit>, pos: nat, n: nat)
    requires pos >= |e|
    ensures Bits(e, pos, n) == 0
  {
    if n > 0 { BeyondEnd(e, pos, n - 1); }
  }

  lemma PackByte(e: seq<bit>, k: nat)
    ensures ByteAt(Pack(e), k) == Bits(e, 8 * k, 8)
  {
    if k >= |Pack(e)| { BeyondEnd(e, 8 * k, 8); }
  }

  lemma PackedBit(e: seq<bit>, i: nat)
    ensures At(Unpack(Pack(e)), i) == At(e, i)
  {
    hide Pack, Unpack, Bits;
    var k, j := i / 8, i % 8;
    UnpackAt(Pack(e), k, j);
    PackByte(e, k);
    BitsParts(e, 8 * k, j + 1, 7 - j);
    LastBit(e, 8 * k, j);
    assert 8 * k + j == i;
  }

  /** Packed bits unpack to themselves, up to the zeros that follow anyway. */
  lemma PackFollows(e: seq<bit>)
    ensures Follows(Unpack(Pack(e)), 0, e)
  {
    hide Pack, Unpack;
    forall i: nat ensures At(Unpack(Pack(e)), 0 + i) == At(e, i) { PackedBit(e, i); }
  }

  /** A file: the two sizes and the body. */
  function FileOf(body: seq<uint8>, size: nat): seq<uint8>
    requires |body| < 0x1_0000_0000 && size < 0x1_0000_0000
  {
    Word32Bytes(|body|) + Word32Bytes(size) + body
  }

  /** A file is taken for what it is, whatever follows it. */
  lemma FileAdmitted(body: seq<uint8>, size: nat, tail: seq<uint8>, version: nat)
    requires |body| + 8 < 0x1_0000_0000 && size < 0x1_0000_0000 && version in {1, 2}
    ensures var source := FileOf(body, size) + tail;
      && !SizeWraps(source)
      && Admit(source, size, version) == if size == 0 then Nothing else Decoding(body, size, if version == 1 then 4 else 5)
  {
    hide Word32, Word32Bytes;
    var source := FileOf(body, size) + tail;
    assert source[..4] == Word32Bytes(|body|);
    assert source[4..8] == Word32Bytes(size);
    assert source[8..8 + |body|] == body;
  }

  /** A compressed file. */
  ghost function Compressed(blocks: seq<BlockText>, pbit: nat, size: nat): seq<uint8>
    requires BlocksValid(blocks, pbit, []) && size < 0x1_0000_0000
    requires |Pack(StreamBits(blocks, pbit, []))| < 0x1_0000_0000
  {
    FileOf(Pack(StreamBits(blocks, pbit, [])), size)
  }

  /**
   Whatever blocks a compressor chooses, and whatever follows the file, the
   decompressor's outcome is what the blocks stand for, up to the announced size.
   */
  lemma RoundTrip(blocks: seq<BlockText>, tail: seq<uint8>, version: nat, pbit: nat, size: nat)
    requires (version == 1 && pbit == 4) || (version == 2 && pbit == 5)
    requires BlocksValid(blocks, pbit, []) && Announced(blocks, pbit, [], size) && size < 0x1_0000_0000
    requires |Pack(StreamBits(blocks, pbit, []))| + 8 < 0x1_0000_0000
    ensures var body, all, source := Pack(StreamBits(blocks, pbit, [])), Meaning(blocks, pbit, []), Compressed(blocks, pbit, size) + tail;
      && !SizeWraps(source)
      && Admit(source, size, version) == (if size == 0 then Nothing else Decoding(body, size, pbit))
      && size <= |all| && OutcomeOf(body, size, pbit) == Finished(all[..size])
  {
    hide Pack, StreamBits, Meaning, BlocksValid, Announced, Follows, Expand, FileOf, SizeWraps, Admit;
    var e := StreamBits(blocks, pbit, []);
    PackFollows(e);
    ReadsBlocks(Unpack(Pack(e)), 0, pbit, NO_BLOCK, blocks, [], size);
    FileAdmitted(Pack(e), size, tail, version);
  }

  /** A file cut short is rejected, and so are a destination of another length and an unknown version. */
  lemma Rejects(blocks: seq<BlockText>, source: seq<uint8>, dstSize: nat, version: nat, pbit: nat, size: nat)
    requires BlocksValid(blocks, pbit, []) && 0 < size < 0x1_0000_0000
    requires |Pack(StreamBits(blocks, pbit, []))| + 8 < 0x1_0000_0000
    requires var file := Compressed(blocks, pbit, size); source < file || (file <= source && (dstSize != size || version !in {1, 2}))
    ensures !SizeWraps(source) && Admit(source, dstSize, version) == Rejected
  {
    hide Pack, StreamBits, Meaning, BlocksValid, Word32, Word32Bytes;
    var body, file := Pack(StreamBits(blocks, pbit, [])), Compressed(blocks, pbit, size);
    if |source| >= 8 {
      assert source[..8] == file[..8];
      assert source[..4] == file[..8][..4] == Word32Bytes(|body|);
      assert source[4..8] == file[..8][4..8] == Word32Bytes(size);
    }
  }

  /** What a caller of the decompressor gets for the whole file, with or without bytes behind it, and for a part of it. */
  method Restore(ghost blocks: seq<BlockText>, source: seq<uint8>, destination: array<uint8>, version: uint8,
      ghost pbit: nat, ghost size: nat) returns (status: Status)
    requires (version == 1 ==> pbit == 4) && (version != 1 ==> pbit == 5)
    requires BlocksValid(blocks, pbit, []) && Announced(blocks, pbit, [], size) && size < 0x1_0000_0000
    requires |Pack(StreamBits(blocks, pbit, []))| + 8 < 0x1_0000_0000 && |source| < 0x1_0000_0000
    requires var file := Compressed(blocks, pbit, size); source < file || file <= source
    modifies destination
    ensures size > 0 ==>
      (status == Success <==> Compressed(blocks, pbit, size) <= source && destination.Length == size && version in {1, 2})
    ensures size > 0 && status == Success ==>
      size <= |Meaning(blocks, pbit, [])| && destination[..] == Meaning(blocks, pbit, [])[..size]
    ensures size == 0 && |source| >= 8 ==> status == Success
    ensures size == 0 || status != Success ==> destination[..] == old(destination[..])
  {
    hide BlocksValid, Announced, Pack, StreamBits, Meaning, Expand, Word32, Word32Bytes;
    ghost var file := Compressed(blocks, pbit, size);
    if size == 0 {
      Empty(blocks, source, destination.Length, version, pbit);
    } else if file <= source && destination.Length == size && version in {1, 2} {
      assert source == file + source[|file|..];
      RoundTrip(blocks, source[|file|..], version, pbit, size);
    } else {
      Rejects(blocks, source, destination.Length, version, pbit, size);
    }
    status := Decompress(source, destination, version);
  }

  /** A file that announces no output is not looked at further. */
  lemma Empty(blocks: seq<BlockText>, source: seq<uint8>, dstSize: nat, version: nat, pbit: nat)
    requires BlocksValid(blocks, pbit, []) && |Pack(StreamBits(blocks, pbit, []))| + 8 < 0x1_0000_0000
    requires var file := Compressed(blocks, pbit, 0); source < file || file <= source
    ensures !SizeWraps(source) && Admit(source, dstSize, version) == if |source| < 8 then Rejected else Nothing
  {
    hide Pack, StreamBits, BlocksValid, Word32, Word32Bytes;
    var body, file := Pack(StreamBits(blocks, pbit, [])), Compressed(blocks, pbit, 0);
    if |source| >= 8 {
      assert source[..8] == file[..8];
      assert source[..4] == file[..8][..4] == Word32Bytes(|body|);
      assert source[4..8] == file[..8][4..8] == Word32Bytes(0);
    }
  }

  // ---- every file can be written

  /** 256 lengths of 8: the code in which every byte stands for itself. */
  function ByteItems(n: nat): (items: seq<Item>)
    ensures |items| == n && forall i :: 0 <= i < n ==> items[i] == OneLength(8)
  {
    seq(n, _ => OneLength(8))
  }

  lemma {:induction false} ByteLengths(n: nat)
    ensures ItemsLengths(ByteItems(n)) == seq(n, _ => 8 as uint8)
  {
    if n > 0 {
      assert ByteItems(n)[1..] == ByteItems(n - 1);
      ByteLengths(n - 1);
    }
  }

  lemma {:induction false} RankOfBytes(lens: seq<uint8>, len: nat, c: nat)
    requires c <= |lens| && len > 0 && forall i :: 0 <= i < |lens| ==> lens[i] == if i < 256 then 8 else 0
    ensures Rank(lens, len, c) == if len != 8 then 0 else if c < 256 then c else 256
  {
    if c > 0 { RankOfBytes(lens, len, c - 1); }
  }

  lemma {:induction false} AreaOfBytes(lens: seq<uint8>, len: nat)
    requires |lens| >= 256 && forall i :: 0 <= i < |lens| ==> lens[i] == if i < 256 then 8 else 0
    ensures Area(lens, len) == if len <= 8 then 0 else 0x1_0000
  {
    if len > 1 {
      AreaOfBytes(lens, len - 1);
      RankOfBytes(lens, len - 1, |lens|);
      Pow2Values();
    }
  }

  lemma BytesComplete(items: seq<Item>)
    requires items == ByteItems(256)
    ensures |ItemsLengths(items)| == 256 && Complete(Fit(ItemsLengths(items), NC))
    ensures forall x: uint8 :: HasCode(Fit(ItemsLengths(items), NC), x)
  {
    hide Area, ItemsLengths, ByteItems;
    ByteLengths(256);
    var lens := Fit(ItemsLengths(items), NC);
    AreaOfBytes(lens, 17);
  }

  function Stored(tokens: seq<Token>): BlockText
  {
    BlockText(SmallSymbol(10), LargeItems(ByteItems(256), 256), SmallSymbol(0), tokens)
  }

  /** A block in the byte code: the extra set has the one symbol 10, which stands for the length 8. */
  lemma StoredValid(h: BlockText, pbit: nat)
    requires 0 < |h.tokens| <= 0x1_0000 && h == Stored(h.tokens)
    ensures HeaderValid(h, pbit)
    ensures forall x: uint8 :: Writable(BlockOf(h, pbit).c, NC, x)
  {
    hide Kraft, Complete, ItemsLengths, ByteItems, Fit, Reaches;
    BytesComplete(h.c.items);
    assert ItemsValid(h.c.items, Single(10)) by { StoredItems(h.c.items); }
    BytesReach(h.c.items, 256);
    Pow2Values();
  }

  lemma {:induction false} BytesReach(items: seq<Item>, number: nat)
    requires |items| <= number && forall i :: 0 <= i < |items| ==> items[i] == OneLength(8)
    ensures Reaches(items, number - |items|, number)
    decreases |items|
  {
    if items != [] { BytesReach(items[1..], number); }
  }

  lemma StoredItems(items: seq<Item>)
    requires items == ByteItems(256)
    ensures ItemsValid(items, Single(10))
  {
  }

  function Literals(data: seq<uint8>): (k: seq<Token>)
    ensures |k| == |data| && forall i :: 0 <= i < |data| ==> k[i] == Lit(data[i])
  {
    seq(|data|, i requires 0 <= i < |data| => Lit(data[i]))
  }

  lemma LiteralFirst(data: seq<uint8>)
    requires data != []
    ensures var k := Literals(data); k != [] && k[0] == Lit(data[0]) && k[1..] == Literals(data[1..])
  {
  }

  lemma NoTokens(k: seq<Token>, c: PrefixCode, p: PrefixCode, out: seq<uint8>)
    requires k == []
    ensures TokensValid(k, c, p, out) && PutAll(k, c, p, out) == out
  {
  }

  lemma FirstToken(k: seq<Token>, c: PrefixCode, p: PrefixCode, out: seq<uint8>)
    requires k != [] && TokenValid(k[0], c, p, out) && TokensValid(k[1..], c, p, Put(k[0], out))
    ensures TokensValid(k, c, p, out) && PutAll(k, c, p, out) == PutAll(k[1..], c, p, Put(k[0], out))
  {
    hide TokenValid, Put;
  }

  lemma {:induction false} LiteralsStand(data: seq<uint8>, c: PrefixCode, p: PrefixCode, out: seq<uint8>)
    requires ValidCode(c, NC) && ValidCode(p, MAXNP) && forall x: uint8 :: Writable(c, NC, x)
    ensures TokensValid(Literals(data), c, p, out) && PutAll(Literals(data), c, p, out) == out + data
    decreases |data|
  {
    hide ValidCode, Writable, TokensValid, PutAll, Literals;
    var k := Literals(data);
    if data == [] {
      assert out + data == out;
      NoTokens(k, c, p, out);
    } else {
      LiteralFirst(data);
      LiteralsStand(data[1..], c, p, out + [data[0]]);
      assert out + [data[0]] + data[1..] == out + data;
      FirstToken(k, c, p, out);
    }
  }

  lemma StoredBlock(data: seq<uint8>, pbit: nat) returns (h: BlockText)
    requires 0 < |data| <= 0x1_0000
    ensures HeaderValid(h, pbit) && h.tokens == Literals(data)
    ensures ValidCode(BlockOf(h, pbit).c, NC) && ValidCode(BlockOf(h, pbit).p, MAXNP)
    ensures forall x: uint8 :: Writable(BlockOf(h, pbit).c, NC, x)
  {
    hide HeaderValid, Writable, ValidCode, Literals;
    h := Stored(Literals(data));
    StoredValid(h, pbit);
    HeaderCodes(h, pbit);
  }

  /** Every sequence of bytes is what some blocks stand for. */
  lemma {:induction false} EveryFile(data: seq<uint8>, pbit: nat, out: seq<uint8>) returns (blocks: seq<BlockText>)
    ensures BlocksValid(blocks, pbit, out) && Meaning(blocks, pbit, out) == out + data
    ensures Announced(blocks, pbit, out, |out + data|)
    decreases |data|
  {
    hide HeaderValid, Writable, ValidCode, TokensValid, PutAll, Literals, Stored, BlockOf;
    if data == [] {
      blocks := [];
      assert out + data == out;
    } else {
      var n := if |data| <= 0x1_0000 then |data| else 0x1_0000;
      var h := StoredBlock(data[..n], pbit);
      LiteralsStand(data[..n], BlockOf(h, pbit).c, BlockOf(h, pbit).p, out);
      var rest := EveryFile(data[n..], pbit, out + data[..n]);
      blocks := [h] + rest;
      assert blocks[1..] == rest;
      assert out + data[..n] + data[n..] == out + data;
      ExactlyAnnounced(blocks, pbit, out);
    }
  }

  lemma HeaderCodes(h: BlockText, pbit: nat)
    requires HeaderValid(h, pbit)
    ensures ValidCode(BlockOf(h, pbit).c, NC) && ValidCode(BlockOf(h, pbit).p, MAXNP)
  {
    hide Kraft;
  }

  // ---- a file byte by byte

  /** The body of a file of one block with three codes of one symbol each: n times the byte x. */
  predicate OneByteBody(b: seq<uint8>, n: nat, x: uint8)
  {
    |b| == 7 && 0x100 * (b[0] as int) + b[1] == n % 0x1_0000 && b[2] == b[3] == b[6] == 0 && b[4] == x / 16 && b[5] == x % 16 * 16
  }

  lemma {:induction false} AllLiterals(s: seq<bit>, pos: nat, pbit: nat, b: Block, x: uint8, out: seq<uint8>, n: nat)
    requires b.c == Single(x) && b.p == Single(0) && b.left == n && Follows(s, pos, [])
    ensures Expand(s, pos, pbit, b, out, |out| + n) == Finished(out + seq(n, _ => x))
    decreases n
  {
    hide Follows, EnsureBlock, PutMatch, Window, Advance;
    if n == 0 {
      PaddingFinishes(s, pos, pbit, b, out);
      assert out + seq(n, _ => x) == out;
    } else {
      var out1, b1 := out + [x], b.(left := n - 1);
      AdvanceInBlock(s, pos, pbit, b, out, |out| + n);
      AllLiterals(s, pos, pbit, b1, x, out1, n - 1);
      assert out1 + seq(n - 1, _ => x) == out + seq(n, _ => x);
    }
  }

  /** Where a number is 0, all its bits are. */
  lemma {:induction false} ZeroPart(s: seq<bit>, pos: nat, n: nat, i: nat)
    requires Bits(s, pos, n) == 0 && i < n
    ensures At(s, pos + i) == 0
  {
    if i < n - 1 { ZeroPart(s, pos, n - 1, i); }
  }

  lemma {:induction false} NoBits(s: seq<bit>, pos: nat, n: nat)
    requires forall i :: pos <= i < pos + n ==> At(s, i) == 0
    ensures Bits(s, pos, n) == 0
  {
    if n > 0 { NoBits(s, pos, n - 1); }
  }

  lemma WholeByte(b: seq<uint8>, k: nat)
    ensures Bits(Unpack(b), 8 * k, 8) == ByteAt(b, k)
  {
    ByteHead(b, k, 8);
  }

  /** The bits of the seven bytes that are 0 whatever n and x are. */
  lemma ZeroFields(b: seq<uint8>, i: nat)
    requires |b| == 7 && b[2] == b[3] == b[6] == 0 && b[4] < 16 && b[5] % 16 == 0
    requires 16 <= i < 36 || 44 <= i
    ensures At(Unpack(b), i) == 0
  {
    hide Unpack, At, Bits, Shr, Low;
    var s := Unpack(b);
    Pow2Values();
    if 32 <= i < 36 {
      ByteHead(b, 4, 4);
      ShrSmall(b[4], 4);
      ZeroPart(s, 32, 4, i - 32);
    } else if 44 <= i < 48 {
      ByteTail(b, 5, 4);
      ShrIsDiv(b[5], 4);
      ZeroPart(s, 44, 4, i - 44);
    } else {
      WholeByte(b, i / 8);
      ZeroPart(s, 8 * (i / 8), 8, i % 8);
    }
  }

  /** The two numbers in the header. */
  lemma NumberFields(b: seq<uint8>, x: uint8)
    requires |b| == 7 && b[4] == x / 16 && b[5] == x % 16 * 16
    ensures Bits(Unpack(b), 0, 16) == 0x100 * (b[0] as int) + b[1] && Bits(Unpack(b), 36, 8) == x
  {
    hide Unpack, Bits, Shr, Low, Shl;
    var s := Unpack(b);
    Pow2Values();
    WholeByte(b, 0);
    WholeByte(b, 1);
    BitsSplit(s, 0, 8, 8);
    ShlIsMul(b[0], 8);
    ByteTail(b, 4, 4);
    LowSmall(b[4], 4);
    ByteHead(b, 5, 4);
    ShrIsDiv(b[5], 4);
    BitsSplit(s, 36, 4, 4);
    ShlIsMul(b[4], 4);
  }

  lemma ZeroRuns(b: seq<uint8>, n: nat, x: uint8, pbit: nat)
    requires pbit in {4, 5} && OneByteBody(b, n, x)
    ensures
      var s := Unpack(b);
      && Bits(s, 16, 5) == 0 && Bits(s, 21, 5) == 0 && Bits(s, 26, 9) == 0 && Bits(s, 35, 1) == 0
      && Bits(s, 44, pbit) == 0 && Bits(s, 44 + pbit, pbit) == 0 && Follows(s, 44 + 2 * pbit, [])
  {
    hide Unpack, Bits;
    var s := Unpack(b);
    forall i | 16 <= i < 36 || 44 <= i ensures At(s, i) == 0 { ZeroFields(b, i); }
    NoBits(s, 16, 5);
    NoBits(s, 21, 5);
    NoBits(s, 26, 9);
    NoBits(s, 35, 1);
    NoBits(s, 44, pbit);
    NoBits(s, 44 + pbit, pbit);
  }

  /** The block header in the seven bytes, and nothing behind it. */
  lemma OneByteHeader(b: seq<uint8>, n: nat, x: uint8, pbit: nat)
    requires pbit in {4, 5} && 0 < n <= 0x1_0000 && OneByteBody(b, n, x)
    ensures ReadHeader(Unpack(b), 0, pbit) == Parsed(Block(Single(x), Single(0), n), 44 + 2 * pbit)
    ensures Follows(Unpack(b), 44 + 2 * pbit, [])
  {
    hide Unpack, Bits, Follows, ReadLengths, CodeOfLengths, ReadCoded, UncheckedCode, Shl;
    var s := Unpack(b);
    NumberFields(b, x);
    ZeroRuns(b, n, x, pbit);
    BitsSplit(s, 35, 1, 8);
    ShlIsMul(0, 8);
    assert ReadSmallCode(s, 16, NT, TBIT, 3) == Parsed(Single(0), 26);
    assert ReadLargeCode(s, 26, Single(0)) == Parsed(Single(x), 44);
    assert ReadSmallCode(s, 44, MAXNP, pbit, 0xffff) == Parsed(Single(0), 44 + 2 * pbit);
  }

  lemma OneByteOutcome(b: seq<uint8>, n: nat, x: uint8, pbit: nat)
    requires pbit in {4, 5} && 0 < n <= 0x1_0000 && OneByteBody(b, n, x)
    ensures OutcomeOf(b, n, pbit) == Finished(seq(n, _ => x))
  {
    hide Unpack, Expand, ReadHeader, OneByteBody, Follows;
    OneByteHeader(b, n, x, pbit);
    AfterHeader(Unpack(b), 0, pbit, NO_BLOCK, [], n);
    AllLiterals(Unpack(b), 44 + 2 * pbit, pbit, Block(Single(x), Single(0), n), x, [], n);
    assert [] + seq(n, _ => x) == seq(n, _ => x);
  }

  /** Fifteen bytes that stand for n times the byte x, in both versions of the format. */
  lemma OneByteFile(lo: uint8, hi: uint8, top: uint8, x: uint8, version: nat)
    requires version in {1, 2} && 0 < lo as int + 0x100 * hi as int + 0x1_0000 * top as int <= 0x1_0000
    ensures
      var n := lo as int + 0x100 * hi as int + 0x1_0000 * top as int;
      var file := [7, 0, 0, 0, lo, hi, top, 0, hi, lo, 0, 0, x / 16, x % 16 * 16, 0];
      && !SizeWraps(file) && Admit(file, n, version).Decoding?
      && var q := Admit(file, n, version);
         OutcomeOf(q.body, q.size, q.pbit) == Finished(seq(n, _ => x))
  {
    hide Expand, Unpack, OutcomeOf, OneByteBody;
    var n := lo as int + 0x100 * hi as int + 0x1_0000 * top as int;
    var file: seq<uint8> := [7, 0, 0, 0, lo, hi, top, 0, hi, lo, 0, 0, x / 16, x % 16 * 16, 0];
    var body: seq<uint8> := [hi, lo, 0, 0, x / 16, x % 16 * 16, 0];
    assert file[8..8 + 7] == body;
    assert file[..4] == [7, 0, 0, 0] && file[4..8] == [lo, hi, top, 0];
    assert Word32(file[..4]) == 7 && Word32(file[4..8]) == n;
    IsOneByteBody(body, lo, hi, top, x);
    OneByteOutcome(body, n, x, if version == 1 then 4 else 5);
  }

  lemma IsOneByteBody(body: seq<uint8>, lo: uint8, hi: uint8, top: uint8, x: uint8)
    requires 0 < lo as int + 0x100 * hi as int + 0x1_0000 * top as int <= 0x1_0000
    requires body == [hi, lo, 0, 0, x / 16, x % 16 * 16, 0]
    ensures OneByteBody(body, lo as int + 0x100 * hi as int + 0x1_0000 * top as int, x)
  {
    var n := lo as int + 0x100 * hi as int + 0x1_0000 * top as int;
    if top == 0 {
      ModSmall(n, 0x1_0000);
    } else {
      assert n == 0x1_0000;
    }
  }
}
