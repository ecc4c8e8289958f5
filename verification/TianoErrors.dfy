/**
 The corruption that the decompressor reports: an extra or a position code that
 is not complete, behind any blocks.
 */
module TianoErrors {
  import opened Words
  import opened BitStream
  import opened CanonicalCode
  import opened TianoFormat
  import opened TianoEncode
  import opened TianoRoundTrip
  import opened Tiano

  /** Lengths that can be written but whose code is not complete, not even modulo 2^16. */
  predicate BadLengths(h: SmallText, n: nat, nbit: nat, special: nat)
  {
    && h.SmallLengths? && 0 < h.number < Pow2(nbit) && NumberFits(h.lens, special, h.run, h.number)
    && Bounded(h.lens) && RunFits(h.lens, special, h.run) && Kraft(Fit(h.lens, n)) % 0x1_0000 != 0
  }

  lemma ReportsBadLengths(s: seq<bit>, pos: nat, h: SmallText, n: nat, nbit: nat, special: nat, rest: seq<bit>)
    requires BadLengths(h, n, nbit, special) && Follows(s, pos, SmallBits(h, nbit, special) + rest)
    ensures ReadSmallCode(s, pos, n, nbit, special) == BadTable
  {
    hide Follows, Kraft, Spell, LengthsBits, ReadLengths, Bounded;
    var e := LengthsBits(h.lens, 0, special, h.run);
    assert SmallBits(h, nbit, special) + rest == Spell(h.number, nbit) + (e + rest);
    ReadsNumber(s, pos, h.number, nbit, e + rest);
    assert h.lens[..0] == [];
    ReadsLengths(s, pos + nbit, h.lens, 0, special, h.run, h.number, rest);
  }

  /** A header with an extra code that is not complete, or else with such a position code. */
  datatype BadHeader = BadExtra(size: nat, t: SmallText) | BadPosition(size: nat, t: SmallText, c: LargeText, p: SmallText)

  ghost predicate BadHeaderValid(h: BadHeader, pbit: nat)
  {
    h.size < 0x1_0000 && match h
    case BadExtra(_, t) => BadLengths(t, NT, TBIT, 3)
    case BadPosition(_, t, c, p) =>
      SmallValid(t, NT, TBIT, 3) && LargeValid(c, SmallCode(t, NT)) && BadLengths(p, MAXNP, pbit, 0xffff)
  }

  ghost function BadHeaderBits(h: BadHeader, pbit: nat): seq<bit>
    requires BadHeaderValid(h, pbit)
  {
    match h
    case BadExtra(size, t) => Spell(size, 16) + SmallBits(t, TBIT, 3)
    case BadPosition(size, t, c, p) =>
      Spell(size, 16) + (SmallBits(t, TBIT, 3) + (LargeBits(c, SmallCode(t, NT)) + SmallBits(p, pbit, 0xffff)))
  }

  lemma ReportsBadHeader(s: seq<bit>, pos: nat, pbit: nat, h: BadHeader, rest: seq<bit>)
    requires BadHeaderValid(h, pbit) && Follows(s, pos, BadHeaderBits(h, pbit) + rest)
    ensures ReadHeader(s, pos, pbit) == BadTable
  {
    hide Follows, ValidCode, Spell, SmallBits, LargeBits, ReadSmallCode, ReadLargeCode, SmallValid, LargeValid, SmallCode, LargeCode, BadLengths;
    Pow2Values();
    match h
    case BadExtra(size, t) =>
      var e := SmallBits(t, TBIT, 3);
      assert BadHeaderBits(h, pbit) + rest == Spell(size, 16) + (e + rest);
      ReadsNumber(s, pos, size, 16, e + rest);
      ReportsBadLengths(s, pos + 16, t, NT, TBIT, 3, rest);
    case BadPosition(size, t, c, p) =>
      var e1, e2, e3 := SmallBits(t, TBIT, 3), LargeBits(c, SmallCode(t, NT)), SmallBits(p, pbit, 0xffff);
      assert BadHeaderBits(h, pbit) + rest == Spell(size, 16) + (e1 + (e2 + (e3 + rest)));
      ReadsNumber(s, pos, size, 16, e1 + (e2 + (e3 + rest)));
      ReadsSmallCode(s, pos + 16, t, NT, TBIT, 3, e2 + (e3 + rest));
      ReadsLargeCode(s, pos + 16 + |e1|, c, SmallCode(t, NT), e3 + rest);
      ReportsBadLengths(s, pos + 16 + |e1| + |e2|, p, MAXNP, pbit, 0xffff, rest);
  }

  /** Blocks that do not fill the output, and what follows them. */
  lemma {:induction false} ReadsOn(s: seq<bit>, pos: nat, pbit: nat, b: Block, blocks: seq<BlockText>, out: seq<uint8>, size: nat, rest: seq<bit>)
    returns (b1: Block)
    requires b.left == 0 && BlocksValid(blocks, pbit, out) && |Meaning(blocks, pbit, out)| < size
    requires Follows(s, pos, StreamBits(blocks, pbit, out) + rest)
    ensures b1.left == 0 && var p, all := pos + |StreamBits(blocks, pbit, out)|, Meaning(blocks, pbit, out);
      Follows(s, p, rest) && Expand(s, pos, pbit, b, out, size) == Expand(s, p, pbit, b1, all, size)
    decreases |blocks|
  {
    hide Follows, BlockBits, PutAll, Expand, HeaderValid, TokensValid, Short;
    if blocks == [] {
      assert StreamBits(blocks, pbit, out) + rest == rest;
      b1 := b;
    } else {
      var h, more := blocks[0], blocks[1..];
      var out1 := PutBlock(h, pbit, out);
      var e, f := BlockBits(h, pbit, out), StreamBits(more, pbit, out1);
      assert e + f + rest == e + (f + rest);
      ShortWhenRoom(h.tokens, BlockOf(h, pbit).c, BlockOf(h, pbit).p, out, size);
      ReadsBlock(s, pos, pbit, b, h, out, size, f + rest);
      b1 := ReadsOn(s, pos + |e|, pbit, BlockOf(h, pbit).(left := 0), more, out1, size, rest);
    }
  }

  lemma StopsAtBadHeader(s: seq<bit>, pos: nat, pbit: nat, b: Block, out: seq<uint8>, size: nat)
    requires b.left == 0 && |out| <= size && ReadHeader(s, pos, pbit) == BadTable
    ensures Expand(s, pos, pbit, b, out, size) == Corrupt(out)
  {
    hide ReadHeader, SymbolIn, LengthOf, ValidCode, Window, PutMatch, PutLiteral;
  }

  /** Whatever blocks come first and whatever comes behind, such a header ends the decompression with the output so far. */
  lemma ReportsCorruption(blocks: seq<BlockText>, h: BadHeader, rest: seq<bit>, pbit: nat, size: nat)
    requires BlocksValid(blocks, pbit, []) && |Meaning(blocks, pbit, [])| < size && BadHeaderValid(h, pbit)
    ensures var body := Pack(StreamBits(blocks, pbit, []) + (BadHeaderBits(h, pbit) + rest));
      OutcomeOf(body, size, pbit) == Corrupt(Meaning(blocks, pbit, []))
  {
    hide Pack, StreamBits, Meaning, BlocksValid, Follows, Expand, BadHeaderValid, BadHeaderBits, Unpack;
    var e, f := StreamBits(blocks, pbit, []), BadHeaderBits(h, pbit);
    var s := Unpack(Pack(e + (f + rest)));
    PackFollows(e + (f + rest));
    var b := ReadsOn(s, 0, pbit, NO_BLOCK, blocks, [], size, f + rest);
    ReportsBadHeader(s, |e|, pbit, h, rest);
    StopsAtBadHeader(s, |e|, pbit, b, Meaning(blocks, pbit, []), size);
  }

  /** What a caller of the decompressor gets for such a file: an error, the output so far, and the rest untouched. */
  method Report(ghost blocks: seq<BlockText>, ghost h: BadHeader, ghost rest: seq<bit>, ghost tail: seq<uint8>, ghost pbit: nat,
      source: seq<uint8>, destination: array<uint8>, version: uint8) returns (status: Status)
    requires (version == 1 && pbit == 4) || (version == 2 && pbit == 5)
    requires BlocksValid(blocks, pbit, []) && |Meaning(blocks, pbit, [])| < destination.Length < 0x1_0000_0000 && BadHeaderValid(h, pbit)
    requires var body := Pack(StreamBits(blocks, pbit, []) + (BadHeaderBits(h, pbit) + rest));
      && |body| + 8 < 0x1_0000_0000 && |source| < 0x1_0000_0000 && source == FileOf(body, destination.Length) + tail
    modifies destination
    ensures var all := Meaning(blocks, pbit, []);
      && status == InvalidParameter && |all| <= destination.Length && destination[..|all|] == all
      && forall i :: |all| <= i < destination.Length ==> destination[i] == old(destination[i])
  {
    hide BlocksValid, Pack, StreamBits, Meaning, BadHeaderValid, BadHeaderBits, OutcomeOf, FileOf, SizeWraps, Admit;
    FileAdmitted(Pack(StreamBits(blocks, pbit, []) + (BadHeaderBits(h, pbit) + rest)), destination.Length, tail, version);
    ReportsCorruption(blocks, h, rest, pbit, destination.Length);
    status := Decompress(source, destination, version);
  }
}
