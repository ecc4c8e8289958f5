/**
 The EFI 1.1 / Tiano decompressor: bit reader, Huffman tables, block headers
 and the copy loop, all over one scratch record. Line numbers are those of
 DuetPkg/EfiLdr/TianoDecompress.c.
 */
module Tiano {
  import opened Words
  import opened BitStream
  import opened CanonicalCode
  import opened HuffmanForest
  import opened HuffmanBuild
  import opened HuffmanLookup

  import opened TianoFormat
  import opened MakeTable

  const NPT := 31
  const NODES := 1019   // 2 * NC - 1

  /** The table and length arrays in memory are those of the given prefix code. */
  ghost predicate Loaded(code: PrefixCode, n: nat, tb: nat, table: seq<uint16>, lens: seq<uint8>,
                         left: seq<uint16>, right: seq<uint16>)
  {
    && ValidCode(code, n) && 1 <= tb <= 15 && |table| >= Pow2(tb) && |lens| >= n
    && match code
       case Single(sym) => (forall t :: 0 <= t < Pow2(tb) ==> table[t] == sym) && (forall i :: 0 <= i < n ==> lens[i] == 0)
       case Canonical(ls) => lens[..n] == ls && Decodes(ls, tb, table, left, right)
  }

  /** Looking up in a loaded table decodes the prefix code. */
  lemma LoadedLookup(code: PrefixCode, n: nat, tb: nat, table: seq<uint16>, lens: seq<uint8>,
                     left: seq<uint16>, right: seq<uint16>, w: nat)
    requires Loaded(code, n, tb, table, lens, left, right) && w < 0x1_0000
    ensures Lookup(n, tb, table, left, right, w) == SymbolIn(code, n, w)
    ensures lens[SymbolIn(code, n, w)] == LengthOf(code, n, SymbolIn(code, n, w))
  {
    match code
    case Single(sym) => assert TableAt(tb, table, w) == sym;
    case Canonical(ls) =>
      assert Lookup(|ls|, tb, table, left, right, w) == Symbol(ls, w);
      assert lens[..n][Symbol(ls, w)] == ls[Symbol(ls, w)];
  }

  /** Changes to nodes below n do not unload a table over n symbols. */
  lemma LoadedFrame(code: PrefixCode, n: nat, tb: nat, table: seq<uint16>, lens: seq<uint8>,
                    left: seq<uint16>, right: seq<uint16>, left': seq<uint16>, right': seq<uint16>)
    requires Loaded(code, n, tb, table, lens, left, right)
    requires |left| == |left'| && |right| == |right'|
    requires forall i :: n <= i < |left| ==> left'[i] == left[i]
    requires forall i :: n <= i < |right| ==> right'[i] == right[i]
    ensures Loaded(code, n, tb, table, lens, left', right')
  {
    match code
    case Single(sym) =>
    case Canonical(ls) => DecodesFrame(ls, tb, table, left, right, left', right');
  }

  /** The table index of a window is its first bits. */
  lemma TopOfWindow(s: seq<bit>, pos: nat, tb: nat)
    requires tb <= 16
    ensures Bits(s, pos, tb) == Top(Window(s, pos), tb)
  {
    TopIsShift(Window(s, pos), tb);
    BitsParts(s, pos, tb, 16 - tb);
  }

  lemma BitOfWindow(s: seq<bit>, pos: nat, i: nat)
    requires i < 16
    ensures Bit(Window(s, pos), i) == BitStream.At(s, pos + i)
  {
    BitIsShr(Window(s, pos), i);
    BitsParts(s, pos, i + 1, 15 - i);
    LastBit(s, pos, i);
  }

  class ScratchData {
    const src: seq<uint8>        // mSrcBase, mCompSize bytes of it
    const dst: array<uint8>      // mDstBase
    var mOutBuf: uint32
    var mInBuf: uint32
    var mBitCount: uint16
    var mBitBuf: uint32
    var mSubBitBuf: uint32
    var mBlockSize: uint16
    var mCompSize: uint32
    const mOrigSize: uint32
    var mBadTableFlag: uint16
    const mLeft: array<uint16>
    const mRight: array<uint16>
    const mCLen: array<uint8>
    const mPTLen: array<uint8>
    const mCTable: array<uint16>
    const mPTTable: array<uint16>
    const mPBit: uint8

    /** The number of bits shifted into mBitBuf so far. */
    ghost var fed: nat

    /** The number of bytes fetched so far, those after the end of the source included. */
    ghost var fetched: nat

    /** The whole source as bits. */
    ghost const stream: seq<bit>

    /** Lines 773-801: a zeroed scratch record, before the first bits are shifted in. */
    constructor (source: seq<uint8>, destination: array<uint8>, origSize: uint32, pBit: uint8)
      requires |source| < 0x1_0000_0000 && destination.Length == origSize
      ensures src == source && dst == destination && mOrigSize == origSize && mPBit == pBit && stream == Unpack(source)
      ensures Shaped() && dst != mCLen && dst != mPTLen
      ensures fresh({mLeft, mRight, mCTable, mPTTable}) && fresh({mCLen, mPTLen})
      ensures mOutBuf == 0 && mBlockSize == 0 && mBadTableFlag == 0 && fed == 0 && Reading()
    {
      hide Unpack, Shifted;
      src, dst, mOrigSize, mPBit := source, destination, origSize, pBit;
      stream := Unpack(source);
      mOutBuf, mInBuf, mBitCount, mBitBuf, mSubBitBuf := 0, 0, 0, 0, 0;
      mBlockSize, mCompSize, mBadTableFlag, fed, fetched := 0, |source|, 0, 0, 0;
      mLeft := new uint16[NODES](_ => 0);
      mRight := new uint16[NODES](_ => 0);
      mCLen := new uint8[NC](_ => 0);
      mPTLen := new uint8[NPT](_ => 0);
      mCTable := new uint16[4096](_ => 0);
      mPTTable := new uint16[256](_ => 0);
      ShiftedNothing(Unpack(source));
    }

    /** Where the reader is in the source. */
    ghost predicate Fetching()
      reads `mSubBitBuf, `mCompSize, `mInBuf, `fetched
    {
      && stream == Unpack(src) && |src| < 0x1_0000_0000
      && mSubBitBuf == Fetched(src, fetched)
      && mInBuf == (if fetched <= |src| then fetched else |src|) && mCompSize == |src| - mInBuf
    }

    /** The bit reader is where it should be after shifting in the first fed bits. */
    ghost predicate Reading()
      reads `mBitBuf, `mBitCount, `mSubBitBuf, `mCompSize, `mInBuf, `fed, `fetched
    {
      && mBitCount < 8 && 8 * fetched == fed + mBitCount
      && Fetching()
      && mBitBuf == Shifted(stream, fed)
    }

    /** Lines 102-118: the next byte, or a zero byte after the end. */
    method FetchByte()
      requires Fetching()
      modifies `mBitCount, `mSubBitBuf, `mCompSize, `mInBuf, `fetched
      ensures Fetching() && mBitCount == 8 && fetched == old(fetched) + 1
    {
      if mCompSize > 0 {
        mCompSize := mCompSize - 1;
        mSubBitBuf := src[mInBuf];
        mInBuf := mInBuf + 1;
        mBitCount := 8;
      } else {
        mSubBitBuf := 0;
        mBitCount := 8;
      }
      fetched := fetched + 1;
    }

    /** The first fed bits were shifted in, above n vacated ones. */
    ghost predicate Filling(n: nat)
      reads this
    {
      && n <= 32 && mBitCount <= 8 && 8 * fetched == fed + mBitCount
      && Fetching()
      && mBitBuf == Vacated(stream, fed, n)
    }

    /** Line 96: make room for n bits. */
    method Vacate(n: nat)
      requires Reading() && n <= 32
      modifies `mBitBuf
      ensures Filling(n)
    {
      VacateWord(stream, fed, n);
      mBitBuf := Shl32(mBitBuf, n);
    }

    /** Lines 100-118: use up the byte last fetched, whose high bits are stale, and fetch the next. */
    method TakeByte(n: nat) returns (rest: nat)
      requires Filling(n) && mBitCount < n
      modifies `mBitBuf, `mBitCount, `mSubBitBuf, `mCompSize, `mInBuf, `fed, `fetched
      ensures rest == n - old(mBitCount) && mBitCount == 8 && fed == old(fed) + old(mBitCount)
      ensures Filling(rest)
    {
      hide Shl, Low, Shr, Or, OrWord, Shl32;
      RefillAllWord(src, fed, n, mBitCount, fetched);
      rest := n - mBitCount;
      mBitBuf := OrWord(mBitBuf, Shl32(mSubBitBuf, rest));
      fed := fed + mBitCount;
      FetchByte();
    }

    /** Lines 121-122: take the remaining bits out of the byte last fetched. */
    method TakeBits(n: nat)
      requires Filling(n) && n <= mBitCount && (mBitCount == 8 ==> n > 0)
      modifies `mBitBuf, `mBitCount, `fed
      ensures Reading() && fed == old(fed) + n
    {
      RefillLastWord(src, fed, n, mBitCount, fetched);
      mBitCount := mBitCount - n;
      mBitBuf := OrWord(mBitBuf, Shr(mSubBitBuf, mBitCount));
      fed := fed + n;
    }

    /** Shift numOfBits bits out of the buffer at the left and the next ones in at the right. */
    method FillBuf(numOfBits: uint16)
      requires Reading()
      // C leaves a shift by 32 undefined; it happens once, when both buffers are 0
      requires numOfBits < 32 || (numOfBits == 32 && fed == 0)
      modifies `mBitBuf, `mBitCount, `mSubBitBuf, `mCompSize, `mInBuf, `fed, `fetched
      ensures Reading() && fed == old(fed) + numOfBits
    {
      var n: nat := numOfBits;
      Vacate(n);
      while n > mBitCount
        invariant Filling(n) && (mBitCount == 8 ==> n > 0)
        invariant fed + n == old(fed) + numOfBits
        decreases n, 8 - mBitCount
      {
        n := TakeByte(n);
      }
      TakeBits(n);
    }

    /** The next numOfBits bits of the source as a number; they are consumed. */
    method GetBits(numOfBits: uint16) returns (outBits: uint32)
      requires Reading() && fed >= 32
      requires 0 < numOfBits < 32
      modifies `mBitBuf, `mBitCount, `mSubBitBuf, `mCompSize, `mInBuf, `fed, `fetched
      ensures Reading() && fed == old(fed) + numOfBits
      ensures outBits == Bits(stream, old(fed) - 32, numOfBits)
    {
      WindowHead(stream, fed - 32, numOfBits);
      ShrSmaller(mBitBuf, 32 - numOfBits);
      outBits := Shr(mBitBuf, 32 - numOfBits);
      FillBuf(numOfBits);
    }

    /** The next bits, without consuming them. */
    method PeekBits(n: nat) returns (v: uint32)
      requires Reading() && fed >= 32 && n <= 32
      ensures v == Bits(stream, fed - 32, n)
    {
      hide Shr, Shifted, Fetching, Bits;
      WindowHead(stream, fed - 32, n);
      ShrSmaller(mBitBuf, 32 - n);
      v := Shr(mBitBuf, 32 - n);
    }

    /** Bit i of the buffer, as tested with a shifted mask. */
    method PeekBit(i: nat) returns (v: bit)
      requires Reading() && fed >= 32 && i < 32
      ensures v == BitStream.At(stream, fed - 32 + i)
    {
      hide Shr, Shifted, Fetching;
      WindowBit(stream, fed - 32, i);
      v := Shr(mBitBuf, 31 - i) % 2;
    }

    // ---- looking up the next symbol

    ghost predicate Shaped()
    {
      && mLeft.Length == mRight.Length == NODES && mCLen.Length == NC && mPTLen.Length == NPT
      && mCTable.Length == 4096 && mPTTable.Length == 256
      && mLeft != mRight && {mLeft, mRight} !! {mCTable, mPTTable} && mCTable != mPTTable && mCLen != mPTLen
    }

    /** The symbol found by table and trees for the next 16 bits (lines 320-335, 472-487, 565-579). */
    method LookUp(n: nat, tb: nat, table: array<uint16>) returns (sym: uint16)
      requires Reading() && fed >= 32 && 1 <= tb <= 15 && table.Length >= Pow2(tb) && mLeft.Length == mRight.Length
      requires Lookup(n, tb, table[..], mLeft[..], mRight[..], Window(stream, fed - 32)) < n
      ensures sym == Lookup(n, tb, table[..], mLeft[..], mRight[..], Window(stream, fed - 32))
    {
      hide Reading, Top, Bit, Pow2, Window, Bits;
      ghost var w := Window(stream, fed - 32);
      TopOfWindow(stream, fed - 32, tb);
      var top := PeekBits(tb);
      sym := table[top];
      var i := tb;
      ghost var goal := Lookup(n, tb, table[..], mLeft[..], mRight[..], w);
      while sym >= n
        invariant tb <= i <= 16 && Walk(n, mLeft[..], mRight[..], sym, w, i) == goal
        decreases 16 - i
      {
        BitOfWindow(stream, fed - 32, i);
        var b := PeekBit(i);
        if b == 1 {
          sym := mRight[sym];
        } else {
          sym := mLeft[sym];
        }
        i := i + 1;
      }
    }

    // ---- code lengths

    /** Lines 404-408: how many ones follow the first three bits; Mask runs out after 29. */
    method CountOnes() returns (k: nat)
      requires Reading() && fed >= 32
      ensures k == Ones(stream, fed - 32 + 3, fed)
      ensures k <= 29
    {
      hide Reading;
      ghost var pos := fed - 32;
      k := 0;
      while k < 29
        invariant 0 <= k <= 29
        invariant Ones(stream, pos + 3, fed) == k + Ones(stream, pos + (3 + k), fed)
      {
        var v := PeekBit(3 + k);
        if v == 0 { break; }
        k := k + 1;
      }
    }

    /** Lines 401-411: one length in the 3-bit/unary code. */
    method TakeLength() returns (charC: uint16)
      requires Reading() && fed >= 32 && ReadLength(stream, fed - 32).0 <= 16
      modifies `mBitBuf, `mBitCount, `mSubBitBuf, `mCompSize, `mInBuf, `fed, `fetched
      ensures Reading() && fed >= 32 && (charC as int, fed - 32) == ReadLength(stream, old(fed) - 32)
    {
      hide Reading;
      assert Bits(stream, fed - 32, 3) < 8 by { Pow2Values(); }
      var v := PeekBits(3);
      charC := v;
      if charC == 7 {
        var k := CountOnes();
        charC := 7 + k;
      }
      FillBuf(if charC < 7 then 3 else charC - 3);
    }

    /** Lines 416-419: a run of zero lengths. */
    method ZeroRun(lens: array<uint8>, index: nat, run: nat) returns (next: nat)
      requires index + run <= lens.Length
      modifies lens
      ensures next == index + run
      ensures lens[..next] == old(lens[..index]) + Zeros(run)
    {
      next := index;
      while next < index + run
        invariant index <= next <= index + run
        invariant lens[..next] == old(lens[..index]) + Zeros(next - index)
      {
        lens[next] := 0;
        next := next + 1;
      }
    }

    /** Lines 401-420: one turn of the loop. */
    method TakeNext(index: nat, special: nat) returns (next: nat)
      requires Reading() && fed >= 32 && mPTLen.Length == NPT && index < NPT && (special == 3 || special > NPT)
      requires AddLength(stream, fed - 32, special, mPTLen[..index]).Parsed?
      modifies `mBitBuf, `mBitCount, `mSubBitBuf, `mCompSize, `mInBuf, `fed, `fetched, mPTLen
      ensures Reading() && fed >= 32 && next <= NPT
      ensures Parsed(mPTLen[..next], fed - 32) == AddLength(stream, old(fed) - 32, special, old(mPTLen[..index]))
    {
      hide Reading, ReadLength;
      ghost var acc := mPTLen[..index];
      var charC := TakeLength();
      mPTLen[index] := charC;
      next := index + 1;
      assert mPTLen[..next] == acc + [charC];
      if next == special {
        assert Bits(stream, fed - 32, 2) < 4 by { Pow2Values(); }
        var run := GetBits(2);
        next := ZeroRun(mPTLen, next, run);
      }
    }

    /** Lines 397-421: number lengths into mPTLen. */
    method TakeLengths(number: nat, special: nat) returns (index: nat)
      requires Reading() && fed >= 32 && mPTLen.Length == NPT && number <= NPT && (special == 3 || special > NPT)
      requires ReadLengths(stream, fed - 32, number, special, []).Parsed?
      modifies `mBitBuf, `mBitCount, `mSubBitBuf, `mCompSize, `mInBuf, `fed, `fetched, mPTLen
      ensures Reading() && fed >= 32 && index <= NPT
      ensures Parsed(mPTLen[..index], fed - 32) == ReadLengths(stream, old(fed) - 32, number, special, [])
    {
      hide Reading, AddLength;
      index := 0;
      ghost var goal := ReadLengths(stream, fed - 32, number, special, []);
      assert mPTLen[..index] == [];
      while index < number
        invariant Reading() && fed >= 32 && index <= NPT
        invariant ReadLengths(stream, fed - 32, number, special, mPTLen[..index]) == goal
        decreases number - index
      {
        index := TakeNext(index, special);
      }
    }

    /** Lines 423-425: the lengths up to n that were not given are zero. */
    method PadLengths(lens: array<uint8>, index: nat, n: nat)
      requires index <= lens.Length && n <= lens.Length
      modifies lens
      ensures lens[..n] == Fit(old(lens[..index]), n)
    {
      if index < n {
        var next := ZeroRun(lens, index, n - index);
      } else {
        assert lens[..n] == lens[..index][..n];
      }
    }

    /** Lines 386-392 and 458-464: every window decodes to one symbol of length 0. */
    method LoadSingle(table: array<uint16>, lens: array<uint8>, n: nat, tb: nat, sym: uint16)
      requires n <= lens.Length && 1 <= tb <= 15 && table.Length == Pow2(tb) && sym < n
      modifies table, lens
      ensures Loaded(Single(sym), n, tb, table[..], lens[..], mLeft[..], mRight[..])
    {
      for index := 0 to table.Length
        invariant forall t :: 0 <= t < index ==> table[t] == sym
      {
        table[index] := sym;
      }
      for index := 0 to n
        invariant forall t :: 0 <= t < table.Length ==> table[t] == sym
        invariant forall i :: 0 <= i < index ==> lens[i] == 0
      {
        lens[index] := 0;
      }
    }

    /** mPTTable and mPTLen hold the code. */
    ghost predicate SmallLoaded(code: PrefixCode, n: nat)
      reads mPTTable, mPTLen, mLeft, mRight
    {
      Loaded(code, n, 8, mPTTable[..], mPTLen[..], mLeft[..], mRight[..])
    }

    /** mCTable and mCLen hold the code. */
    ghost predicate LargeLoaded(code: PrefixCode)
      reads mCTable, mCLen, mLeft, mRight
    {
      Loaded(code, NC, 12, mCTable[..], mCLen[..], mLeft[..], mRight[..])
    }

    /** The nodes outside n to 2n - 2 are as before. */
    twostate predicate NodesKept(n: nat)
      reads mLeft, mRight
    {
      && (forall i :: 0 <= i < mLeft.Length && !(n <= i < 2 * n - 1) ==> mLeft[i] == old(mLeft[i]))
      && (forall i :: 0 <= i < mRight.Length && !(n <= i < 2 * n - 1) ==> mRight[i] == old(mRight[i]))
    }

    /** Lines 397-427: read the lengths and build the table. */
    method LoadLengths(nn: nat, number: nat, special: nat) returns (status: uint16)
      requires Reading() && fed >= 32 && Shaped() && nn <= NPT && number <= NPT && (special == 3 || special > NPT)
      requires !CodeOfLengths(ReadLengths(stream, fed - 32, number, special, []), nn).Malformed?
      modifies `mBitBuf, `mBitCount, `mSubBitBuf, `mCompSize, `mInBuf, `fed, `fetched, mPTLen, mPTTable, mLeft, mRight
      ensures Reading() && fed >= 32 && NodesKept(nn)
      ensures SmallCodeIs(old(CodeOfLengths(ReadLengths(stream, fed - 32, number, special, []), nn)), nn, status)
    {
      hide Reading, SmallLoaded, Kraft, Bounded, ReadLengths;
      ghost var r := ReadLengths(stream, fed - 32, number, special, []);
      LengthsBounded(stream, fed - 32, number, special, []);
      var index := TakeLengths(number, special);
      PadLengths(mPTLen, index, nn);
      ghost var lens := Fit(r.value, nn);
      assert mPTLen[..nn] == lens;
      FitBounded(r.value, nn);
      status := BuildSmall(nn);
      assert CodeOfLengths(r, nn) == if Complete(lens) then Parsed(Canonical(lens), r.next) else BadTable;
    }

    /** Line 427. */
    method BuildSmall(nn: nat) returns (status: uint16)
      requires Shaped() && nn <= NPT && Bounded(mPTLen[..nn])
      requires Kraft(mPTLen[..nn]) % 0x1_0000 == 0 ==> Complete(mPTLen[..nn])
      modifies mPTTable, mLeft, mRight
      ensures status == 0 <==> Complete(mPTLen[..nn])
      ensures status == 0 ==> SmallLoaded(Canonical(mPTLen[..nn]), nn)
      ensures NodesKept(nn)
    {
      assert Pow2(8) == 256 && Pow2(9) == 512 by { Pow2Values(); }
      status := Make(nn, mPTLen, 8, mPTTable, mLeft, mRight);
    }

    /** The code parsed is in memory, or the error is reported. */
    ghost predicate SmallCodeIs(r: Parsed<PrefixCode>, nn: nat, status: uint16)
      reads this, mPTTable, mPTLen, mLeft, mRight
    {
      match r
      case BadTable => status != 0
      case Malformed => false
      case Parsed(code, next) =>
        status == 0 && fed == next + 32 && SmallLoaded(code, nn)
    }

    /** Lines 384-394: a single symbol. */
    method LoadSymbol(nn: nat, nbit: nat)
      requires Reading() && fed >= 32 && Shaped() && nn <= NPT && 0 < nbit <= 5
      requires CodeOfSymbol(stream, fed - 32, nn, nbit).Parsed?
      modifies `mBitBuf, `mBitCount, `mSubBitBuf, `mCompSize, `mInBuf, `fed, `fetched, mPTLen, mPTTable
      ensures Reading() && fed >= 32
      ensures SmallCodeIs(old(CodeOfSymbol(stream, fed - 32, nn, nbit)), nn, 0)
    {
      hide Reading, Loaded;
      var charC := GetBits(nbit);
      assert Pow2(8) == 256 by { Pow2Values(); }
      LoadSingle(mPTTable, mPTLen, nn, 8, charC);
    }

    /** The code of the extra set or of the position set. */
    method ReadPTLen(nn: nat, nbit: nat, special: nat) returns (status: uint16)
      requires Reading() && fed >= 32 && Shaped() && nn <= NPT && 0 < nbit <= 5 && (special == 3 || special > NPT)
      requires !ReadSmallCode(stream, fed - 32, nn, nbit, special).Malformed?
      modifies `mBitBuf, `mBitCount, `mSubBitBuf, `mCompSize, `mInBuf, `fed, `fetched, mPTLen, mPTTable, mLeft, mRight
      ensures Reading() && fed >= 32 && NodesKept(nn)
      ensures SmallCodeIs(old(ReadSmallCode(stream, fed - 32, nn, nbit, special)), nn, status)
    {
      hide Reading, SmallLoaded, ReadLengths, CodeOfLengths;
      assert Bits(stream, fed - 32, nbit) < 32 by { Pow2Mono(nbit, 5); Pow2Values(); }
      var number := GetBits(nbit);
      if number == 0 {
        LoadSymbol(nn, nbit);
        status := 0;
      } else {
        status := LoadLengths(nn, number, special);
      }
    }

    /** The next symbol of a loaded code, consumed. */
    method TakeSymbol(n: nat, tb: nat, table: array<uint16>, lens: array<uint8>, ghost code: PrefixCode) returns (sym: uint16)
      requires Reading() && fed >= 32 && mLeft.Length == mRight.Length
      requires Loaded(code, n, tb, table[..], lens[..], mLeft[..], mRight[..])
      modifies `mBitBuf, `mBitCount, `mSubBitBuf, `mCompSize, `mInBuf, `fed, `fetched
      ensures Reading() && fed >= 32
      ensures sym == SymbolIn(code, n, Window(stream, old(fed) - 32))
      ensures fed == old(fed) + LengthOf(code, n, sym)
    {
      hide Reading, Lookup, Pow2, Window, SymbolIn;
      LoadedLookup(code, n, tb, table[..], lens[..], mLeft[..], mRight[..], Window(stream, fed - 32));
      sym := LookUp(n, tb, table);
      FillBuf(lens[sym]);
    }

    /** Lines 493-509: how the symbol continues the list of lengths. */
    method TakeRun(charC: uint16, index: nat) returns (next: nat)
      requires Reading() && fed >= 32 && mCLen.Length == NC && charC < NT && index <= NC
      requires index + |RunOf(stream, fed - 32, charC).0| <= NC
      modifies `mBitBuf, `mBitCount, `mSubBitBuf, `mCompSize, `mInBuf, `fed, `fetched, mCLen
      ensures Reading() && fed >= 32 && next <= NC
      ensures mCLen[..next] == old(mCLen[..index]) + RunOf(stream, old(fed) - 32, charC).0
      ensures fed - 32 == RunOf(stream, old(fed) - 32, charC).1
    {
      hide Reading;
      if charC <= 2 {
        var run := 1;
        if charC == 1 {
          var v := GetBits(4);
          run := v + 3;
        } else if charC == 2 {
          var v := GetBits(CBIT);
          run := v + 20;
        }
        next := ZeroRun(mCLen, index, run);
      } else {
        ghost var acc := mCLen[..index];
        mCLen[index] := charC - 2;
        next := index + 1;
        assert mCLen[..next] == acc + [charC - 2];
      }
    }

    /** Lines 472-511: one turn of the loop. */
    method TakeCoded(index: nat, ghost t: PrefixCode) returns (next: nat)
      requires Reading() && fed >= 32 && Shaped() && index <= NC
      requires SmallLoaded(t, NT)
      requires AddRun(stream, fed - 32, t, mCLen[..index]).Parsed?
      modifies `mBitBuf, `mBitCount, `mSubBitBuf, `mCompSize, `mInBuf, `fed, `fetched, mCLen
      ensures Reading() && fed >= 32 && next <= NC
      ensures Parsed(mCLen[..next], fed - 32) == AddRun(stream, old(fed) - 32, t, old(mCLen[..index]))
    {
      hide Reading, Loaded;
      var charC := TakeSymbol(NT, 8, mPTTable, mPTLen, t);
      next := TakeRun(charC, index);
    }

    /** Lines 469-512: number lengths into mCLen. */
    method TakeCodedLengths(number: nat, ghost t: PrefixCode) returns (index: nat)
      requires Reading() && fed >= 32 && Shaped()
      requires ValidCode(t, NT) && SmallLoaded(t, NT)
      requires ReadCoded(stream, fed - 32, t, number, []).Parsed?
      modifies `mBitBuf, `mBitCount, `mSubBitBuf, `mCompSize, `mInBuf, `fed, `fetched, mCLen
      ensures Reading() && fed >= 32 && index <= NC
      ensures Parsed(mCLen[..index], fed - 32) == ReadCoded(stream, old(fed) - 32, t, number, [])
    {
      hide Reading, SmallLoaded, AddRun;
      index := 0;
      ghost var goal := ReadCoded(stream, fed - 32, t, number, []);
      assert mCLen[..index] == [];
      while index < number
        invariant Reading() && fed >= 32 && index <= NC
        invariant SmallLoaded(t, NT)
        invariant ReadCoded(stream, fed - 32, t, number, mCLen[..index]) == goal
        decreases number - index
      {
        index := TakeCoded(index, t);
      }
    }

    /** Lines 469-518: read the lengths and build the table, whatever MakeTable says. */
    method LoadCodedLengths(number: nat, ghost t: PrefixCode)
      requires Reading() && fed >= 32 && Shaped()
      requires ValidCode(t, NT) && SmallLoaded(t, NT)
      requires UncheckedCode(ReadCoded(stream, fed - 32, t, number, [])).Parsed?
      modifies `mBitBuf, `mBitCount, `mSubBitBuf, `mCompSize, `mInBuf, `fed, `fetched, mCLen, mCTable, mLeft, mRight
      ensures Reading() && fed >= 32
      ensures LargeCodeIs(old(UncheckedCode(ReadCoded(stream, fed - 32, t, number, []))))
    {
      hide Reading, SmallLoaded, ReadCoded, Kraft;
      var index := TakeCodedLengths(number, t);
      PadLengths(mCLen, index, NC);
      assert Pow2(12) == 4096 && Pow2(13) == 8192 by { Pow2Values(); }
      var _ := Make(NC, mCLen, 12, mCTable, mLeft, mRight);
    }

    ghost predicate LargeCodeIs(r: Parsed<PrefixCode>)
      reads this, mCTable, mCLen, mLeft, mRight
    {
      r.Parsed? && fed == r.next + 32 && LargeLoaded(r.value)
    }

    /** The code of the Char&Len set. */
    method ReadCLen(ghost t: PrefixCode)
      requires Reading() && fed >= 32 && Shaped()
      requires ValidCode(t, NT) && SmallLoaded(t, NT)
      requires ReadLargeCode(stream, fed - 32, t).Parsed?
      modifies `mBitBuf, `mBitCount, `mSubBitBuf, `mCompSize, `mInBuf, `fed, `fetched, mCLen, mCTable, mLeft, mRight
      ensures Reading() && fed >= 32
      ensures LargeCodeIs(old(ReadLargeCode(stream, fed - 32, t)))
    {
      hide Reading, SmallLoaded, LargeLoaded, ReadCoded, UncheckedCode, CodeOfSymbol;
      var number := GetBits(CBIT);
      if number == 0 {
        LoadLargeSymbol();
      } else {
        LoadCodedLengths(number, t);
      }
    }

    /** Lines 456-466: a single symbol. */
    method LoadLargeSymbol()
      requires Reading() && fed >= 32 && Shaped()
      requires CodeOfSymbol(stream, fed - 32, NC, CBIT).Parsed?
      modifies `mBitBuf, `mBitCount, `mSubBitBuf, `mCompSize, `mInBuf, `fed, `fetched, mCLen, mCTable
      ensures Reading() && fed >= 32
      ensures LargeCodeIs(old(CodeOfSymbol(stream, fed - 32, NC, CBIT)))
    {
      hide Reading, Loaded;
      var charC := GetBits(CBIT);
      assert Pow2(12) == 4096 by { Pow2Values(); }
      LoadSingle(mCTable, mCLen, NC, 12, charC);
    }

    // ---- blocks and symbols

    /** The current block's codes are in memory and its symbol count is mBlockSize. */
    ghost predicate InBlock(b: Block)
      reads this, mCTable, mCLen, mPTTable, mPTLen, mLeft, mRight
    {
      && ValidBlock(b) && mBlockSize == b.left
      && (b.left > 0 ==> LargeLoaded(b.c) && SmallLoaded(b.p, MAXNP))
    }

    /** Building the position table leaves the Char&Len table alone: its nodes lie above. */
    twostate lemma LargeStaysLoaded(c: PrefixCode)
      requires Shaped() && old(LargeLoaded(c)) && NodesKept(MAXNP)
      requires unchanged(mCTable) && unchanged(mCLen)
      ensures LargeLoaded(c)
    {
      LoadedFrame(c, NC, 12, mCTable[..], mCLen[..], old(mLeft[..]), old(mRight[..]), mLeft[..], mRight[..]);
    }

    /** The header parsed is in memory, or the error is reported. */
    ghost predicate HeaderIs(r: Parsed<Block>)
      reads this, mCTable, mCLen, mPTTable, mPTLen, mLeft, mRight
    {
      match r
      case BadTable => mBadTableFlag != 0
      case Malformed => false
      case Parsed(b, next) =>
        && mBadTableFlag == 0 && fed == next + 32 && mBlockSize == b.left % 0x1_0000
        && ValidBlock(b) && b.left > 0 && LargeLoaded(b.c) && SmallLoaded(b.p, MAXNP)
    }

    /** Line 550: the size of the next block. */
    method TakeBlockSize()
      requires Reading() && fed >= 32
      modifies `mBitBuf, `mBitCount, `mSubBitBuf, `mCompSize, `mInBuf, `fed, `fetched, `mBlockSize
      ensures Reading() && fed == old(fed) + 16 && mBlockSize == Window(stream, old(fed) - 32)
    {
      hide Reading, Bits;
      assert Window(stream, fed - 32) < 0x1_0000;
      var size := GetBits(16);
      mBlockSize := size;
    }

    /** Lines 550-561: a block header. */
    method StartBlock()
      requires Reading() && fed >= 32 && Shaped() && mPBit in {4, 5}
      requires !ReadHeader(stream, fed - 32, mPBit).Malformed?
      modifies `mBitBuf, `mBitCount, `mSubBitBuf, `mCompSize, `mInBuf, `fed, `fetched, `mBlockSize, `mBadTableFlag
      modifies mPTLen, mPTTable, mCLen, mCTable, mLeft, mRight
      ensures Reading() && fed >= 32
      ensures HeaderIs(old(ReadHeader(stream, fed - 32, mPBit)))
    {
      hide Reading, SmallLoaded, LargeLoaded, NodesKept, ReadSmallCode, ReadLargeCode, ValidCode, Bits, Window, Unpack;
      ghost var pos := fed - 32;
      TakeBlockSize();
      SmallCodeValid(stream, pos + 16, NT, TBIT, 3);
      mBadTableFlag := ReadPTLen(NT, TBIT, 3);
      if mBadTableFlag != 0 {
        return;
      }
      ghost var t := ReadSmallCode(stream, pos + 16, NT, TBIT, 3).value;
      ReadCLen(t);
      ghost var c := ReadLargeCode(stream, ReadSmallCode(stream, pos + 16, NT, TBIT, 3).next, t).value;
      SmallCodeValid(stream, fed - 32, MAXNP, mPBit, 0xffff);
      label built:
      mBadTableFlag := ReadPTLen(MAXNP, mPBit, 0xffff);
      LargeStaysLoaded@built(c);
    }

    /** A symbol of the Char&Len set, after a header if the block is used up. */
    ghost predicate DecodedC(r: Parsed<Block>, sym: uint16)
      reads this, mCTable, mCLen, mPTTable, mPTLen, mLeft, mRight
    {
      match r
      case BadTable => mBadTableFlag != 0
      case Malformed => false
      case Parsed(b, p) =>
        && mBadTableFlag == 0 && ValidBlock(b) && b.left > 0
        && sym == SymbolIn(b.c, NC, Window(stream, p))
        && fed == p + LengthOf(b.c, NC, sym) + 32
        && InBlock(b.(left := b.left - 1)) && ValidCode(b.p, MAXNP) && SmallLoaded(b.p, MAXNP)
    }

    method DecodeC(ghost b: Block) returns (sym: uint16)
      requires Reading() && fed >= 32 && Shaped() && mPBit in {4, 5} && InBlock(b) && mBadTableFlag == 0
      requires !EnsureBlock(stream, fed - 32, mPBit, b).Malformed?
      modifies `mBitBuf, `mBitCount, `mSubBitBuf, `mCompSize, `mInBuf, `fed, `fetched, `mBlockSize, `mBadTableFlag
      modifies mPTLen, mPTTable, mCLen, mCTable, mLeft, mRight
      ensures Reading() && fed >= 32
      ensures DecodedC(old(EnsureBlock(stream, fed - 32, mPBit, b)), sym)
    {
      hide Reading, SmallLoaded, Loaded, ReadHeader, ValidCode, Bits, Window, SymbolIn, LengthOf;
      ghost var r := EnsureBlock(stream, fed - 32, mPBit, b);
      if mBlockSize == 0 {
        StartBlock();
        if mBadTableFlag != 0 {
          return 0;
        }
      }
      ghost var b1 := r.value;
      mBlockSize := if mBlockSize == 0 then 0xffff else mBlockSize - 1;
      sym := TakeSymbol(NC, 12, mCTable, mCLen, b1.c);
    }

    /** A distance, for a loaded position code. */
    method DecodeP(ghost p: PrefixCode) returns (pos: uint32)
      requires Reading() && fed >= 32 && Shaped() && ValidCode(p, MAXNP) && SmallLoaded(p, MAXNP)
      modifies `mBitBuf, `mBitCount, `mSubBitBuf, `mCompSize, `mInBuf, `fed, `fetched
      ensures Reading() && fed >= 32 && (pos as int, fed - 32) == ReadDistance(stream, old(fed) - 32, p)
    {
      hide Reading, Loaded, ValidCode, Bits, Pow2;
      var val := TakeSymbol(MAXNP, 8, mPTTable, mPTLen, p);
      pos := val;
      if val > 1 {
        DistanceFits(stream, fed - 32, val);
        var low := GetBits(val - 1);
        pos := Pow2(val - 1) + low;
      }
    }

    // ---- the output

    /** The first mOutBuf bytes are the output so far, the others are as they were. */
    twostate predicate Written(out: seq<uint8>)
      reads this, dst
    {
      && |out| <= dst.Length && dst[..|out|] == out
      && forall i :: |out| <= i < dst.Length ==> dst[i] == old(dst[i])
    }

    /** Lines 640-648: copy len bytes, byte by byte, stopping when the output is full. */
    method CopyMatch(len: nat, dist: nat) returns (full: bool)
      requires dst.Length == mOrigSize && dist < mOutBuf < mOrigSize && 0 < len
      modifies `mOutBuf, dst
      ensures full <==> old(mOutBuf) + len >= mOrigSize
      ensures mOutBuf == if full then mOrigSize else old(mOutBuf) + len
      ensures dst[..mOutBuf] == CopyBack(old(dst[..mOutBuf]), dist, mOutBuf - old(mOutBuf))
      ensures forall i :: mOutBuf <= i < dst.Length ==> dst[i] == old(dst[i])
    {
      hide CopyBack;
      var dataIdx, bytesRemain := mOutBuf - dist - 1, len - 1;
      ghost var n := if mOutBuf + len >= mOrigSize then mOrigSize - mOutBuf else len;
      ghost var goal, last := CopyBack(dst[..mOutBuf], dist, n), mOutBuf + n;
      while bytesRemain >= 0
        invariant -1 <= bytesRemain < len && mOutBuf + bytesRemain + 1 == old(mOutBuf) + len
        invariant dist < mOutBuf < mOrigSize && dataIdx == mOutBuf - dist - 1 && mOutBuf + n == last
        invariant CopyBack(dst[..mOutBuf], dist, n) == goal
        invariant forall i :: mOutBuf <= i < dst.Length ==> dst[i] == old(dst[i])
        decreases bytesRemain
      {
        ghost var out := dst[..mOutBuf];
        CopyStep(out, dist, n);
        dst[mOutBuf] := dst[dataIdx];
        assert dst[..mOutBuf + 1] == out + [out[|out| - 1 - dist]];
        mOutBuf, dataIdx := mOutBuf + 1, dataIdx + 1;
        n := n - 1;
        if mOutBuf >= mOrigSize {
          CopyNothing(dst[..mOutBuf], dist);
          return true;
        }
        bytesRemain := bytesRemain - 1;
      }
      CopyNothing(dst[..mOutBuf], dist);
      full := false;
    }

    /** The result promised for the whole stream. */
    twostate predicate Delivers(r: Outcome)
      reads this, dst
    {
      match r
      case Finished(out) => mBadTableFlag == 0 && dst[..] == out
      case Corrupt(out) => mBadTableFlag != 0 && Written(out)
      case Undetected => false
    }

    /** What a symbol led to, read off the state. */
    twostate predicate Advanced(r: Progress, done: bool)
      reads this, dst, mCTable, mCLen, mPTTable, mPTLen, mLeft, mRight
    {
      match r
      case Stop(outcome) => done && mOutBuf <= dst.Length && Delivers(outcome)
      case Go(out, b, next) =>
        && !done && mBadTableFlag == 0 && fed == next + 32 && mOutBuf == |out| && InBlock(b) && Written(out)
    }

    /** Lines 624-628. */
    method StoreLiteral(charC: uint16, ghost b: Block) returns (done: bool)
      requires charC < 256 && fed >= 32 && InBlock(b) && mBadTableFlag == 0
      requires dst.Length == mOrigSize && dst != mCLen && dst != mPTLen && mOutBuf <= mOrigSize
      modifies `mOutBuf, dst
      ensures Advanced(old(PutLiteral(charC, dst[..mOutBuf], mOrigSize, b, fed - 32)), done)
    {
      hide LargeLoaded, SmallLoaded, ValidBlock;
      ghost var out := dst[..mOutBuf];
      if mOutBuf >= mOrigSize {
        return true;
      }
      dst[mOutBuf] := charC;
      mOutBuf := mOutBuf + 1;
      assert dst[..mOutBuf] == out + [charC];
      done := false;
    }

    /** Lines 634-648. */
    method StoreMatch(charC: uint16, ghost p: PrefixCode, ghost b: Block) returns (done: bool)
      requires 256 <= charC < NC && Reading() && fed >= 32 && Shaped() && InBlock(b) && mBadTableFlag == 0
      requires ValidCode(p, MAXNP) && SmallLoaded(p, MAXNP)
      requires dst.Length == mOrigSize && dst != mCLen && dst != mPTLen && mOutBuf <= mOrigSize
      requires PutMatch(stream, fed - 32, p, charC - 253, dst[..mOutBuf], mOrigSize, b) != Stop(Undetected)
      modifies `mBitBuf, `mBitCount, `mSubBitBuf, `mCompSize, `mInBuf, `fed, `fetched, `mOutBuf, dst
      ensures Reading() && fed >= 32
      ensures Advanced(old(PutMatch(stream, fed - 32, p, charC - 253, dst[..mOutBuf], mOrigSize, b)), done)
    {
      hide Reading, LargeLoaded, SmallLoaded, ValidBlock, ValidCode, ReadDistance, CopyBack;
      var dist := DecodeP(p);
      done := CopyMatch(charC - 253, dist);
    }

    /** Lines 615-649: one symbol. */
    method DecodeSymbol(ghost b: Block) returns (done: bool)
      requires Reading() && fed >= 32 && Shaped() && mPBit in {4, 5} && InBlock(b) && mBadTableFlag == 0
      requires dst.Length == mOrigSize && dst != mCLen && dst != mPTLen && mOutBuf <= mOrigSize
      requires Advance(stream, fed - 32, mPBit, b, dst[..mOutBuf], mOrigSize) != Stop(Undetected)
      modifies `mBitBuf, `mBitCount, `mSubBitBuf, `mCompSize, `mInBuf, `fed, `fetched, `mBlockSize, `mBadTableFlag, `mOutBuf
      modifies mPTLen, mPTTable, mCLen, mCTable, mLeft, mRight, dst
      ensures Reading() && fed >= 32
      ensures Advanced(old(Advance(stream, fed - 32, mPBit, b, dst[..mOutBuf], mOrigSize)), done)
    {
      hide Reading, LargeLoaded, SmallLoaded, EnsureBlock, ValidCode, SymbolIn, LengthOf, Window, PutMatch, PutLiteral;
      ghost var r := EnsureBlock(stream, fed - 32, mPBit, b);
      var charC := DecodeC(b);
      if mBadTableFlag != 0 {
        return true;
      }
      ghost var b2 := r.value.(left := r.value.left - 1);
      if charC < 256 {
        done := StoreLiteral(charC, b2);
      } else {
        done := StoreMatch(charC, r.value.p, b2);
      }
    }

    method Decode()
      requires Reading() && fed >= 32 && Shaped() && mPBit in {4, 5} && mBlockSize == 0 && mOutBuf == 0 && mBadTableFlag == 0
      requires dst.Length == mOrigSize && dst != mCLen && dst != mPTLen
      requires !Expand(stream, fed - 32, mPBit, NO_BLOCK, [], mOrigSize).Undetected?
      modifies `mBitBuf, `mBitCount, `mSubBitBuf, `mCompSize, `mInBuf, `fed, `fetched, `mBlockSize, `mBadTableFlag, `mOutBuf
      modifies mPTLen, mPTTable, mCLen, mCTable, mLeft, mRight, dst
      ensures Delivers(old(Expand(stream, fed - 32, mPBit, NO_BLOCK, [], mOrigSize)))
    {
      hide Reading, LargeLoaded, SmallLoaded, Advance, ValidCode;
      ghost var b := NO_BLOCK;
      ghost var goal := Expand(stream, fed - 32, mPBit, b, [], mOrigSize);
      assert dst[..mOutBuf] == [];
      while true
        invariant Reading() && fed >= 32 && InBlock(b) && mBadTableFlag == 0 && mOutBuf <= mOrigSize
        invariant Expand(stream, fed - 32, mPBit, b, dst[..mOutBuf], mOrigSize) == goal
        invariant forall i :: mOutBuf <= i < dst.Length ==> dst[i] == old(dst[i])
        decreases mOrigSize - mOutBuf
      {
        ghost var a := Advance(stream, fed - 32, mPBit, b, dst[..mOutBuf], mOrigSize);
        var done := DecodeSymbol(b);
        if done {
          return;
        }
        b := a.block;
      }
    }
  }

  // ---- the entry point

  datatype Status = Success | InvalidParameter

  /** Lines 749-796: what becomes of a source before any bit of it is decoded. */
  datatype Request = Rejected | Nothing | Decoding(body: seq<uint8>, size: uint32, pbit: nat)

  /** The size check wraps around: a compressed size of 2^32 - 8 or more passes it. */
  predicate SizeWraps(source: seq<uint8>)
  {
    |source| >= 8 && Word32(source[..4]) as int + 8 >= 0x1_0000_0000
  }

  function Admit(source: seq<uint8>, dstSize: nat, version: nat): Request
    requires !SizeWraps(source)
  {
    if |source| < 8 then Rejected
    else
      var comp, orig := Word32(source[..4]), Word32(source[4..8]);
      if orig == 0 then Nothing
      else if |source| < comp + 8 || dstSize != orig || version !in {1, 2} then Rejected
      else Decoding(source[8..8 + comp], orig, if version == 1 then 4 else 5)
  }

  /** The outcome of decoding a body from its first bit. */
  ghost function OutcomeOf(body: seq<uint8>, size: nat, pbit: nat): Outcome
  {
    Expand(Unpack(body), 0, pbit, NO_BLOCK, [], size)
  }

  /** Decompress source into destination, which has to have the announced size. */
  method Decompress(source: seq<uint8>, destination: array<uint8>, version: uint8) returns (status: Status)
    requires |source| < 0x1_0000_0000 && !SizeWraps(source)
    requires
      var q := Admit(source, destination.Length, version);
      q.Decoding? ==> !OutcomeOf(q.body, q.size, q.pbit).Undetected?
    modifies destination
    ensures
      match Admit(source, destination.Length, version)
      case Rejected => status == InvalidParameter && destination[..] == old(destination[..])
      case Nothing => status == Success && destination[..] == old(destination[..])
      case Decoding(body, size, pbit) =>
        Delivered(destination, status, OutcomeOf(body, size, pbit))
  {
    hide Expand, Word32;
    if |source| < 8 {
      return InvalidParameter;
    }
    var comp, orig := Word32(source[..4]), Word32(source[4..8]);
    if orig == 0 {
      return Success;
    }
    if |source| < (comp as int + 8) % 0x1_0000_0000 || destination.Length != orig {
      return InvalidParameter;
    }
    if version != 1 && version != 2 {
      return InvalidParameter;
    }
    status := DecodeBody(source[8..8 + comp], destination, orig, if version == 1 then 4 else 5);
  }

  /** What a decoded body leaves in the destination. */
  twostate predicate Delivered(destination: array<uint8>, status: Status, r: Outcome)
    reads destination
  {
    match r
    case Finished(out) => status == Success && destination[..] == out
    case Corrupt(out) =>
      && status == InvalidParameter && |out| <= destination.Length && destination[..|out|] == out
      && forall i :: |out| <= i < destination.Length ==> destination[i] == old(destination[i])
    case Undetected => false
  }

  /** Lines 797-818: set up the scratch data and decode. */
  method DecodeBody(body: seq<uint8>, destination: array<uint8>, orig: uint32, pbit: uint8) returns (status: Status)
    requires |body| < 0x1_0000_0000 && destination.Length == orig && pbit in {4, 5}
    requires !OutcomeOf(body, orig, pbit).Undetected?
    modifies destination
    ensures Delivered(destination, status, OutcomeOf(body, orig, pbit))
  {
    hide Unpack, Expand;
    var sd := new ScratchData(body, destination, orig, pbit);
    sd.FillBuf(32);
    sd.Decode();
    if sd.mBadTableFlag != 0 {
      status := InvalidParameter;
    } else {
      status := Success;
    }
  }
}
