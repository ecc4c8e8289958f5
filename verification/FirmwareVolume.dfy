/**
 The firmware volume block service: a run-length block map, and an erase that
 checks its whole list before it touches the volume.
 */
module FirmwareVolume {
  import opened Words
  import opened Bytes


  datatype Status = Success | InvalidParameter | AccessDenied

  /** num blocks of length bytes each. */
  datatype Run = Run(num: uint32, length: uint32)

  /** A block of the volume, and the number of blocks of its run from it on. */
  datatype Block = Block(off: nat, length: nat, left: nat)

  /** Runs before the terminating entry: neither empty nor of empty blocks. */
  predicate MapOk(runs: seq<Run>)
  {
    forall i :: 0 <= i < |runs| ==> runs[i].num > 0 && runs[i].length > 0
  }

  function Total(runs: seq<Run>): nat
  {
    if runs == [] then 0 else runs[0].num + Total(runs[1..])
  }

  function RunSize(r: Run): nat
  {
    r.num * r.length
  }

  function Size(runs: seq<Run>): nat
  {
    if runs == [] then 0 else RunSize(runs[0]) + Size(runs[1..])
  }

  /** The block with number lba; an empty entry ends the map. */
  function Locate(runs: seq<Run>, lba: nat): Option<Block>
  {
    if runs == [] || runs[0].num == 0 || runs[0].length == 0 then None
    else if lba < runs[0].num then Some(Block(lba * runs[0].length, runs[0].length, runs[0].num - lba))
    else
      match Locate(runs[1..], lba - runs[0].num)
      case None => None
      case Some(b) => Some(b.(off := RunSize(runs[0]) + b.off))
  }

  /** A block is found exactly for the numbers below the total. */
  lemma {:induction false} LocateIff(runs: seq<Run>, lba: nat)
    requires MapOk(runs)
    ensures Locate(runs, lba).Some? <==> lba < Total(runs)
    decreases |runs|
  {
    if runs != [] && lba >= runs[0].num { LocateIff(runs[1..], lba - runs[0].num); }
  }

  /** Each block starts where the one before it ends; the first starts at 0 and the last ends with the volume. */
  lemma {:induction false} Contiguous(runs: seq<Run>, lba: nat)
    requires MapOk(runs) && lba < Total(runs)
    ensures Locate(runs, lba).Some? && Locate(runs, lba).value.length > 0
    ensures lba == 0 ==> Locate(runs, lba).value.off == 0
    ensures var b := Locate(runs, lba).value;
      b.off + b.length == if lba + 1 < Total(runs) && Locate(runs, lba + 1).Some? then Locate(runs, lba + 1).value.off else Size(runs)
    decreases |runs|
  {
    LocateIff(runs, lba);
    LocateIff(runs, lba + 1);
    var r, rest := runs[0], runs[1..];
    if lba < r.num {
      Distribute(lba, 1, r.length);
      if lba + 1 == r.num && Total(rest) > 0 {
        Contiguous(rest, 0);
      } else if lba + 1 == r.num {
        assert rest == [];
      }
    } else {
      Contiguous(rest, lba - r.num);
    }
  }

  /** Blocks with different numbers do not overlap. */
  lemma {:induction false} Ascending(runs: seq<Run>, a: nat, b: nat)
    requires MapOk(runs) && a < b < Total(runs)
    ensures Locate(runs, a).Some? && Locate(runs, b).Some?
    ensures Locate(runs, a).value.off + Locate(runs, a).value.length <= Locate(runs, b).value.off
    decreases b
  {
    Contiguous(runs, a);
    Contiguous(runs, b);
    LocateIff(runs, a + 1);
    Contiguous(runs, b - 1);
    LocateIff(runs, b);
    if a < b - 1 { Ascending(runs, a, b - 1); }
  }

  lemma {:induction false} WithinVolume(runs: seq<Run>, lba: nat)
    requires MapOk(runs) && lba < Total(runs)
    ensures Locate(runs, lba).Some? && Locate(runs, lba).value.off + Locate(runs, lba).value.length <= Size(runs)
    decreases Total(runs) - lba
  {
    Contiguous(runs, lba);
    if lba + 1 < Total(runs) {
      LocateIff(runs, lba + 1);
      WithinVolume(runs, lba + 1);
    }
  }

  /** Block j of run i: behind the runs before it and j blocks of its own, with the blocks from it on left in the run. */
  lemma {:induction false} LocateInRun(runs: seq<Run>, i: nat, j: nat)
    requires MapOk(runs) && i < |runs| && j < runs[i].num
    ensures Locate(runs, Total(runs[..i]) + j) == Some(Block(Size(runs[..i]) + j * runs[i].length, runs[i].length, runs[i].num - j))
    decreases i
  {
    if i > 0 {
      var rest := runs[1..];
      assert runs[..i][0] == runs[0] && runs[..i][1..] == rest[..i - 1];
      LocateInRun(rest, i - 1, j);
    }
  }

  // ---- the block map, as the service walks it

  function Moved(b: Option<Block>, offset: nat): Option<Block>
  {
    match b
    case None => None
    case Some(x) => Some(x.(off := offset + x.off))
  }

  /** One step of the walk over the map. */
  lemma WalkStep(runs: seq<Run>, i: nat, k: nat, offset: nat)
    requires i < |runs|
    ensures var r := runs[i];
      && Total(runs[i..]) == r.num + Total(runs[i + 1..]) && Size(runs[i..]) == RunSize(r) + Size(runs[i + 1..])
      && Moved(Locate(runs[i..], k), offset)
         == (if r.num == 0 || r.length == 0 then None
             else if k < r.num then Some(Block(offset + k * r.length, r.length, r.num - k))
             else Moved(Locate(runs[i + 1..], k - r.num), offset + RunSize(r)))
  {
    assert runs[i..][1..] == runs[i + 1..];
  }

  lemma WalkEnd(runs: seq<Run>, k: nat, offset: nat)
    ensures Total(runs[|runs|..]) == 0 && Moved(Locate(runs[|runs|..], k), offset) == None
  {
  }

  lemma WalkStart(runs: seq<Run>, k: nat)
    ensures runs[0..] == runs && Moved(Locate(runs, k), 0) == Locate(runs, k)
  {
  }

  /** The sums of the walk stay within their words. */
  lemma NextFits(startLba: nat, offset: nat, r: Run, total: nat, size: nat, restTotal: nat, restSize: nat)
    requires startLba + r.num + restTotal == total < TWO64 && offset + RunSize(r) + restSize == size < 0x1_0000_0000
    ensures (startLba + r.num) % TWO64 == startLba + r.num
    ensures RunSize(r) % 0x1_0000_0000 == RunSize(r) && (offset + RunSize(r)) % TWO64 == offset + RunSize(r)
  {
    hide RunSize;
    ModSmall(startLba + r.num, TWO64);
    ModSmall(RunSize(r), 0x1_0000_0000);
    ModSmall(offset + RunSize(r), TWO64);
  }

  lemma NoWrap(k: nat, r: Run, offset: nat)
    requires k < r.num && offset + RunSize(r) < 0x1_0000_0000
    ensures (offset + k * r.length) % TWO64 == offset + k * r.length
  {
    MulMono(k, r.num, r.length);
    MulMono(0, k, r.length);
    ModSmall(offset + k * r.length, TWO64);
  }

  /** FvbGetLbaAddress, for a volume whose size fits 32 bits. */
  method GetLbaAddress(runs: seq<Run>, lba: nat) returns (b: Option<Block>)
    requires Size(runs) < 0x1_0000_0000 && Total(runs) < TWO64
    ensures b == Locate(runs, lba)
  {
    hide Locate, Total, Size, Moved, RunSize;
    var startLba: nat, offset: nat, i := 0, 0, 0;
    WalkStart(runs, lba);
    while i < |runs|
      invariant 0 <= i <= |runs| && startLba <= lba && startLba + Total(runs[i..]) == Total(runs)
      invariant offset + Size(runs[i..]) == Size(runs)
      invariant Moved(Locate(runs[i..], lba - startLba), offset) == Locate(runs, lba)
    {
      var r := runs[i];
      var k := lba - startLba;
      WalkStep(runs, i, k, offset);
      NextFits(startLba, offset, r, Total(runs), Size(runs), Total(runs[i + 1..]), Size(runs[i + 1..]));
      if r.num == 0 || r.length == 0 {
        return None;
      }
      var nextLba := (startLba + r.num) % TWO64;
      if lba < nextLba {
        NoWrap(k, r, offset);
        return Some(Block((offset + k * r.length) % TWO64, r.length, nextLba - lba));
      }
      startLba := nextLba;
      offset := (offset + RunSize(r) % 0x1_0000_0000) % TWO64;
      i := i + 1;
    }
    WalkEnd(runs, lba - startLba, offset);
    b := None;
  }

  // ---- erasing

  /** num blocks from number start on. */
  datatype Range = Range(start: nat, num: nat)

  /** The check of a range; the sum is taken in 64 bits. */
  predicate RangeOk(r: Range, total: nat)
  {
    r.num > 0 && (r.start + r.num) % TWO64 <= total
  }

  /** The numbers in the first n ranges. */
  function Numbers(ranges: seq<Range>, n: nat): set<nat>
    requires n <= |ranges|
  {
    if n == 0 then {} else Numbers(ranges, n - 1) + Span(ranges[n - 1].start, ranges[n - 1].num)
  }

  function Span(start: nat, num: nat): set<nat>
  {
    if num == 0 then {} else Span(start, num - 1) + {start + num - 1}
  }

  predicate InBlock(runs: seq<Run>, lba: nat, k: nat)
  {
    var b := Locate(runs, lba);
    b.Some? && b.value.off <= k < b.value.off + b.value.length
  }

  predicate InBlocks(runs: seq<Run>, lbas: set<nat>, k: nat)
  {
    exists lba :: lba in lbas && InBlock(runs, lba, k)
  }

  /** The blocks with these numbers are erased and nothing else is changed. */
  ghost predicate ErasedOnly(runs: seq<Run>, before: seq<uint8>, after: seq<uint8>, lbas: set<nat>)
  {
    && |before| == |after|
    && forall k :: 0 <= k < |after| ==> after[k] == if InBlocks(runs, lbas, k) then ERASED else before[k]
  }

  lemma ErasedMore(runs: seq<Run>, before: seq<uint8>, now: seq<uint8>, after: seq<uint8>, lbas: set<nat>, lba: nat)
    requires ErasedOnly(runs, before, now, lbas) && |after| == |now|
    requires forall k :: 0 <= k < |now| ==> after[k] == if InBlock(runs, lba, k) then ERASED else now[k]
    ensures ErasedOnly(runs, before, after, lbas + {lba})
  {
    hide InBlock;
    forall k | 0 <= k < |after| ensures InBlocks(runs, lbas + {lba}, k) <==> InBlocks(runs, lbas, k) || InBlock(runs, lba, k) {
      if InBlock(runs, lba, k) { assert lba in lbas + {lba}; }
      if InBlocks(runs, lbas, k) {
        var x :| x in lbas && InBlock(runs, x, k);
        assert x in lbas + {lba};
      }
    }
  }

  class Volume {
    const memory: array<uint8>
    const runs: seq<Run>
    const numOfBlocks: nat
    var writeEnabled: bool
    var writeStatus: bool

    constructor (memory: array<uint8>, runs: seq<Run>)
      requires MapOk(runs) && memory.Length == Size(runs) < 0x1_0000_0000 && Total(runs) < 0x1_0000_0000
      ensures Valid() && this.memory == memory && this.runs == runs && writeEnabled
    {
      this.memory, this.runs, this.numOfBlocks := memory, runs, Total(runs);
      this.writeEnabled, this.writeStatus := true, true;
    }

    predicate Valid()
    {
      && MapOk(runs) && memory.Length == Size(runs) < 0x1_0000_0000
      && numOfBlocks == Total(runs) < 0x1_0000_0000
    }

    /** FvbEraseBlock. */
    method EraseBlock(lba: nat) returns (status: Status)
      requires Valid()
      modifies memory
      ensures status == (if !writeEnabled || !writeStatus then AccessDenied else if lba >= numOfBlocks then InvalidParameter else Success)
      ensures status != Success ==> memory[..] == old(memory[..])
      ensures status == Success ==>
        forall k :: 0 <= k < memory.Length ==> memory[k] == if InBlock(runs, lba, k) then ERASED else old(memory[k])
    {
      hide Locate, Size, Total;
      if !writeEnabled {
        return AccessDenied;
      }
      if !writeStatus {
        return AccessDenied;
      }
      LocateIff(runs, lba);
      var b := GetLbaAddress(runs, lba);
      if b.None? {
        return InvalidParameter;
      }
      WithinVolume(runs, lba);
      var off, length := b.value.off, b.value.length;
      for i := 0 to length
        invariant forall k :: 0 <= k < memory.Length ==> memory[k] == if off <= k < off + i then ERASED else old(memory[k])
      {
        memory[off + i] := ERASED;
      }
      status := Success;
    }

    /**
     FvbProtocolEraseBlocks; a start of 2^64 - 1 ends the list. The call fails with the volume unchanged or erases
     exactly the listed blocks, unless the end of a range wraps around 64 bits:
     then it fails after erasing the ranges before that one.
     */
    method EraseBlocks(ranges: seq<Range>) returns (status: Status)
      requires Valid() && forall i :: 0 <= i < |ranges| ==> ranges[i].start < TWO64 - 1 && ranges[i].num < 0x1_0000_0000
      modifies memory
      ensures !ListOk(ranges, numOfBlocks) ==> status == InvalidParameter && memory[..] == old(memory[..])
      ensures ListOk(ranges, numOfBlocks) && !Writable() && ranges != [] ==> status == AccessDenied && memory[..] == old(memory[..])
      ensures ListOk(ranges, numOfBlocks) && (Writable() || ranges == []) ==>
        && ErasedOnly(runs, old(memory[..]), memory[..], Numbers(ranges, FirstWrap(ranges)))
        && status == if FirstWrap(ranges) == |ranges| then Success else InvalidParameter
    {
      hide Locate, Size, Total, InBlock;
      for i := 0 to |ranges|
        invariant forall j :: 0 <= j < i ==> RangeOk(ranges[j], numOfBlocks)
      {
        if ranges[i].num == 0 || (ranges[i].start + ranges[i].num) % TWO64 > numOfBlocks {
          return InvalidParameter;
        }
      }
      ghost var before, last := memory[..], FirstWrap(ranges);
      for i := 0 to |ranges|
        invariant i <= last && ErasedOnly(runs, before, memory[..], Numbers(ranges, i))
        invariant i > 0 ==> Writable()
      {
        status := EraseRange(ranges, i, before);
        if status != Success {
          return;
        }
      }
      status := Success;
    }

    predicate Writable()
      reads this
    {
      writeEnabled && writeStatus
    }

    /** The inner loop: the blocks of one range. */
    method EraseRange(ranges: seq<Range>, i: nat, ghost before: seq<uint8>) returns (status: Status)
      requires Valid() && i < |ranges| && ranges[i].start < TWO64 && ranges[i].num < 0x1_0000_0000 && RangeOk(ranges[i], numOfBlocks)
      requires ErasedOnly(runs, before, memory[..], Numbers(ranges, i))
      modifies memory
      ensures status == if !Writable() then AccessDenied else if Wraps(ranges[i]) then InvalidParameter else Success
      ensures status != Success ==> memory[..] == old(memory[..])
      ensures status == Success ==> ErasedOnly(runs, before, memory[..], Numbers(ranges, i + 1))
    {
      hide Locate, Size, Total, InBlock;
      var start := ranges[i].start;
      assert Numbers(ranges, i) + Span(start, 0) == Numbers(ranges, i);
      for n := 0 to ranges[i].num
        invariant n == 0 ==> memory[..] == old(memory[..])
        invariant ErasedOnly(runs, before, memory[..], Numbers(ranges, i) + Span(start, n))
        invariant n > 0 ==> Writable() && !Wraps(ranges[i])
      {
        ghost var now, lbas := memory[..], Numbers(ranges, i) + Span(start, n);
        status := EraseBlock(start + n);
        if status != Success {
          return;
        }
        ErasedMore(runs, before, now, memory[..], lbas, start + n);
        assert lbas + {start + n} == Numbers(ranges, i) + Span(start, n + 1);
      }
      status := Success;
    }
  }

  /** The end of the range wraps around. */
  predicate Wraps(r: Range)
  {
    r.start + r.num >= TWO64
  }

  /** The first range that wraps around. */
  function FirstWrap(ranges: seq<Range>): (n: nat)
    ensures n <= |ranges| && (n < |ranges| ==> Wraps(ranges[n])) && forall i :: 0 <= i < n ==> !Wraps(ranges[i])
  {
    if ranges == [] || Wraps(ranges[0]) then 0 else 1 + FirstWrap(ranges[1..])
  }

  predicate ListOk(ranges: seq<Range>, total: nat)
  {
    forall i :: 0 <= i < |ranges| ==> RangeOk(ranges[i], total)
  }

  /** The range is empty, or ends behind the volume, be it after wrapping around. */
  predicate Bad(r: Range, total: nat)
  {
    r.num == 0 || total < r.start + r.num < TWO64 || total + TWO64 < r.start + r.num
  }

  /** Which lists are refused, which are erased to the end, and which blocks that takes. */
  lemma ListsExactly(ranges: seq<Range>, total: nat)
    requires total < 0x1_0000_0000 && forall i :: 0 <= i < |ranges| ==> ranges[i].start < TWO64 - 1 && ranges[i].num < 0x1_0000_0000
    ensures !ListOk(ranges, total) <==> exists i :: 0 <= i < |ranges| && Bad(ranges[i], total)
    ensures ListOk(ranges, total) && FirstWrap(ranges) == |ranges| <==>
      forall i :: 0 <= i < |ranges| ==> 0 < ranges[i].num && ranges[i].start + ranges[i].num <= total
    ensures forall lba :: lba in Numbers(ranges, FirstWrap(ranges)) <==>
      exists i :: 0 <= i < FirstWrap(ranges) && ranges[i].start <= lba < ranges[i].start + ranges[i].num
  {
    forall i | 0 <= i < |ranges| ensures RangeOk(ranges[i], total) <==> !Bad(ranges[i], total) { BadExactly(ranges[i], total); }
    NumbersExactly(ranges, FirstWrap(ranges));
  }

  lemma BadExactly(r: Range, total: nat)
    requires total < 0x1_0000_0000 && r.start < TWO64 && r.num < 0x1_0000_0000
    ensures RangeOk(r, total) <==> !Bad(r, total)
  {
    var sum := r.start + r.num;
    if sum < TWO64 { ModSmall(sum, TWO64); } else { DivModUnique(sum, TWO64, 1, sum - TWO64); }
  }

  lemma {:induction false} NumbersExactly(ranges: seq<Range>, n: nat)
    requires n <= |ranges|
    ensures forall lba :: lba in Numbers(ranges, n) <==> exists i :: 0 <= i < n && ranges[i].start <= lba < ranges[i].start + ranges[i].num
  {
    if n > 0 {
      NumbersExactly(ranges, n - 1);
      var r := ranges[n - 1];
      SpanExactly(r.start, r.num);
    }
  }

  lemma {:induction false} SpanExactly(start: nat, num: nat)
    ensures forall lba :: lba in Span(start, num) <==> start <= lba < start + num
  {
    if num > 0 { SpanExactly(start, num - 1); }
  }

  /** A list that passes the check, erases block 0 and then fails: all or nothing is lost. */
  lemma WrappingList(total: nat)
    requires 1 <= total < 0x1_0000_0000
    ensures var ranges := [Range(0, 1), Range(TWO64 - 2, 2)];
      ListOk(ranges, total) && FirstWrap(ranges) == 1 && Numbers(ranges, FirstWrap(ranges)) == {0}
  {
    var ranges := [Range(0, 1), Range(TWO64 - 2, 2)];
    assert !Wraps(ranges[0]) && Wraps(ranges[1]);
    assert Span(0, 1) == {0};
    assert Numbers(ranges, 0) == {};
    assert Numbers(ranges, 1) == {0};
  }

  /** A block that was not erased before is changed by such a list. */
  lemma PartlyErased(runs: seq<Run>, before: seq<uint8>, after: seq<uint8>)
    requires MapOk(runs) && Total(runs) >= 1 && |before| == Size(runs) > 0 && before[0] != ERASED
    requires ErasedOnly(runs, before, after, {0})
    ensures after != before
  {
    Contiguous(runs, 0);
    WithinVolume(runs, 0);
    assert InBlock(runs, 0, 0);
    assert InBlocks(runs, {0}, 0);
    assert after[0] == ERASED;
  }
}
