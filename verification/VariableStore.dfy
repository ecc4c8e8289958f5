/**
 The variable driver on bytes: walking, finding, reclaiming and writing
 records in the two stores.
 */
module VariableStore {
  import opened Words
  import opened Bytes
  import opened VariableLog
  import opened VariableLayout
  import opened VariableService
  import opened VariableNames

  /** The place of a record as an offset. */
  function At(log: seq<Record>, i: Option<nat>, align: nat): Option<nat>
    requires i.Some? ==> i.value < |log|
  {
    if i.Some? then Some(Offset(log, i.value, align)) else None
  }

  lemma OffsetStart(log: seq<Record>, align: nat)
    ensures Offset(log, 0, align) == STORE_HEADER_SIZE
  {
  }

  lemma OffsetInjective(log: seq<Record>, i: nat, j: nat, align: nat)
    requires i <= |log| && j <= |log| && Offset(log, i, align) == Offset(log, j, align)
    ensures i == j
  {
    if i < j { OffsetMono(log, i, j, align); } else if j < i { OffsetMono(log, j, i, align); }
  }

  lemma SearchBounds(log: seq<Record>, q: Query)
    ensures FirstAdded(log, q, 0).Some? ==> FirstAdded(log, q, 0).value < |log|
    ensures LastInTransition(log, q, |log|).Some? ==> LastInTransition(log, q, |log|).value < |log|
  {
    FirstAddedIs(log, q, 0);
    LastInTransitionIs(log, q, |log|);
  }

  /** Compare the bytes a of a name with those stored at off, up to the first difference. */
  method CompareName(base: array<uint8>, off: nat, a: seq<uint8>, ghost name: Name, ghost stored: Name) returns (equal: bool)
    requires a == NameBytes(name)
    requires off + NameSize(stored) <= base.Length && base[off..off + NameSize(stored)] == NameBytes(stored)
    ensures equal <==> name == stored
  {
    ghost var b := NameBytes(stored);
    var i := 0;
    while i < |a|
      invariant i <= |a| && i <= |b| && a[..i] == b[..i]
    {
      if i == |b| {
        assert b == a[..i];
        NamesPrefixFree(stored, name);
        assert false;
      }
      assert base[off + i] == base[off..off + NameSize(stored)][i];
      if base[off + i] != a[i] {
        return false;
      }
      i := i + 1;
    }
    assert a == b[..i];
    NamesPrefixFree(name, stored);
    equal := true;
  }

  /** Follow the records from the store header to the end. */
  method WalkBytes(base: array<uint8>, align: nat, ghost log: seq<Record>) returns (off: nat)
    requires HoldsLog(base[..], log, align)
    ensures off == End(log, align)
  {
    hide HoldsRecord, Offset, RecordSize;
    off := STORE_HEADER_SIZE;
    ghost var i: nat := 0;
    OffsetStart(log, align);
    while IsValidHeader(base[..], off)
      invariant i <= |log| && off == Offset(log, i, align)
      decreases |log| - i
    {
      if i == |log| {
        EndIsInvalid(base[..], log, align);
        assert false;
      }
      ParsesRecord(base[..], off, log[i], align);
      OffsetStep(log, i, align);
      off := NextPtr(base[..], off, align);
      i := i + 1;
    }
    if i < |log| {
      ParsesRecord(base[..], off, log[i], align);
      assert false;
    }
  }

  class VariableStorage {
    const base: array<uint8>
    const align: nat
    var lastOffset: nat
    ghost var log: seq<Record>

    ghost predicate Valid()
      reads this, base
    {
      && base.Length < 0x1_0000_0000
      && HoldsLog(base[..], log, align)
      && lastOffset == End(log, align)
    }

    /** A store that is found in memory. */
    constructor Existing(base: array<uint8>, align: nat, ghost log: seq<Record>)
      requires base.Length < 0x1_0000_0000 && HoldsLog(base[..], log, align)
      ensures Valid() && this.base == base && this.align == align && this.log == log
    {
      hide HoldsRecord, Offset;
      EndMin(log, align);
      var off := WalkBytes(base, align, log);
      this.base, this.align, this.log, this.lastOffset := base, align, log, off;
    }

    /** A formatted store without records. */
    constructor Formatted(base: array<uint8>, align: nat, header: seq<uint8>)
      requires STORE_HEADER_SIZE <= base.Length < 0x1_0000_0000 && |header| == STORE_HEADER_SIZE
      modifies base
      ensures Valid() && this.base == base && this.align == align && log == []
      ensures base[..STORE_HEADER_SIZE] == header
    {
      this.base, this.align, this.log, this.lastOffset := base, align, [], STORE_HEADER_SIZE;
      new;
      Erase();
      Write(0, header);
    }

    /** The record at an offset. */
    ghost predicate Points(off: nat, i: nat)
      reads this
    {
      i <= |log| && off == Offset(log, i, align)
    }

    /** IsValidVariableHeader. */
    method IsValidVariableHeader(off: nat, ghost i: nat) returns (valid: bool)
      requires Valid() && Points(off, i)
      ensures valid <==> i < |log|
    {
      hide HoldsRecord, Offset;
      if i < |log| {
        ParsesRecord(base[..], off, log[i], align);
      } else {
        EndIsInvalid(base[..], log, align);
      }
      valid := off + 1 < base.Length && base[off] == 0xaa && base[off + 1] == 0x55;
    }

    /** GetNextVariablePtr, for a valid header. */
    method GetNextVariablePtr(off: nat, ghost i: nat) returns (next: nat)
      requires Valid() && Points(off, i) && i < |log|
      ensures Points(next, i + 1)
    {
      hide HoldsRecord, RecordSize, Offset;
      ParsesRecord(base[..], off, log[i], align);
      OffsetStep(log, i, align);
      next := NextPtr(base[..], off, align);
    }

    /** The record is accessible and has the key, as the driver compares them. */
    method MatchesAt(off: nat, q: Query, ghost i: nat) returns (b: bool)
      requires Valid() && Points(off, i) && i < |log|
      ensures b <==> Matches(log[i], q)
    {
      hide HoldsRecord, RecordSize, Offset, And, NameBytes;
      ParsesRecord(base[..], off, log[i], align);
      if q.runtime && And(WordAt(base[..], off + 4), RUNTIME_ACCESS) == 0 {
        return false;
      }
      if q.name == [] {
        return true;
      }
      if base[off + 16..off + HEADER_SIZE] != q.guid {
        return false;
      }
      b := CompareName(base, off + HEADER_SIZE, NameBytes(q.name), q.name, log[i].name);
    }

    method StateAt(off: nat, ghost i: nat) returns (state: uint8)
      requires Valid() && Points(off, i) && i < |log|
      ensures state == log[i].state
    {
      hide HoldsRecord, RecordSize, Offset;
      ParsesRecord(base[..], off, log[i], align);
      state := base[off + 2];
    }

    method AttributesAt(off: nat, ghost i: nat) returns (attributes: uint32)
      requires Valid() && Points(off, i) && i < |log|
      ensures attributes == log[i].attributes
    {
      hide HoldsRecord, RecordSize, Offset;
      ParsesRecord(base[..], off, log[i], align);
      attributes := WordAt(base[..], off + 4);
    }

    /** The record is live and accessible. */
    method VisibleAt(off: nat, runtime: bool, ghost i: nat) returns (b: bool)
      requires Valid() && Points(off, i) && i < |log|
      ensures b <==> Live(log[i]) && Accessible(log[i], runtime)
    {
      hide HoldsRecord, RecordSize, Offset, And;
      ParsesRecord(base[..], off, log[i], align);
      var state := base[off + 2];
      b := (state == VAR_ADDED || state == IN_TRANSITION) && (!runtime || And(WordAt(base[..], off + 4), RUNTIME_ACCESS) != 0);
    }

    /** The bytes at GetVariableDataPtr. */
    method DataAt(off: nat, ghost i: nat) returns (data: seq<uint8>)
      requires Valid() && Points(off, i) && i < |log|
      ensures data == log[i].data
    {
      hide HoldsRecord, RecordSize, Offset;
      ParsesRecord(base[..], off, log[i], align);
      var d := DataPtr(base[..], off, align);
      data := base[d..d + WordAt(base[..], off + 12)];
      assert data == base[..][d..d + |log[i].data|];
    }

    /** The loop of FindVariable over one store: the first added match, else the last one in transition. */
    method FindIn(q: Query) returns (added: Option<nat>, inDelete: Option<nat>)
      requires Valid()
      ensures var a := FirstAdded(log, q, 0); (a.Some? ==> a.value < |log|) && added == At(log, a, align)
      ensures added.None? ==>
        var d := LastInTransition(log, q, |log|); (d.Some? ==> d.value < |log|) && inDelete == At(log, d, align)
    {
      hide HoldsLog, Offset, Matches;
      SearchBounds(log, q);
      var variable: nat := STORE_HEADER_SIZE;
      ghost var i: nat, d := 0, None;
      OffsetStart(log, align);
      inDelete := None;
      var valid := IsValidVariableHeader(variable, i);
      while variable < base.Length && valid
        invariant Points(variable, i) && (valid <==> i < |log|)
        invariant FirstAdded(log, q, 0) == FirstAdded(log, q, i)
        invariant LastInTransition(log, q, i) == d && (d.Some? ==> d.value < i) && inDelete == At(log, d, align)
        decreases |log| - i
      {
        var state := StateAt(variable, i);
        var matches := MatchesAt(variable, q, i);
        if state == VAR_ADDED {
          if matches {
            return Some(variable), inDelete;
          }
        } else if state == IN_TRANSITION && matches {
          inDelete, d := Some(variable), Some(i);
        }
        variable := GetNextVariablePtr(variable, i);
        i := i + 1;
        valid := IsValidVariableHeader(variable, i);
      }
      if valid { RecordInside(variable, i); }
      added := None;
    }

    /** The loop of GetNextVariableName within one store. */
    method NextIn(start: nat, runtime: bool, ghost first: nat) returns (next: Option<nat>)
      requires Valid() && Points(start, first)
      ensures next == At(log, NextVisible(log, first, runtime), align)
    {
      hide HoldsLog, Offset, NextVisible, Accessible;
      var off: nat := start;
      ghost var i: nat := first;
      var valid := IsValidVariableHeader(off, i);
      while off < base.Length && valid
        invariant Points(off, i) && (valid <==> i < |log|)
        invariant NextVisible(log, first, runtime) == NextVisible(log, i, runtime)
        decreases |log| - i
      {
        var shown := VisibleAt(off, runtime, i);
        VisibleStep(log, i, runtime);
        if shown {
          return Some(off);
        }
        off := GetNextVariablePtr(off, i);
        i := i + 1;
        valid := IsValidVariableHeader(off, i);
      }
      if valid { RecordInside(off, i); }
      VisibleEnd(log, i, runtime);
      next := None;
    }

    lemma RecordInside(off: nat, i: nat)
      requires Valid() && Points(off, i) && i < |log|
      ensures off < base.Length
    {
      ParsesRecord(base[..], off, log[i], align);
    }

    /** ExistNewerVariable. */
    method ExistNewerVariable(off: nat, ghost i: nat) returns (exist: bool)
      requires Valid() && Points(off, i) && i < |log|
      ensures exist <==> ExistNewer(log, i)
    {
      hide HoldsLog, Offset, LiveFor;
      var name, guid := KeyAt(off, i);
      var variable := GetNextVariablePtr(off, i);
      ghost var j := i + 1;
      var valid := IsValidVariableHeader(variable, j);
      while valid
        invariant i < j && Points(variable, j) && (valid <==> j < |log|)
        invariant forall x :: i < x < j ==> !LiveFor(log[x], KeyOf(log[i]))
        decreases |log| - j
      {
        var newer := IsNewer(variable, name, guid, i, j);
        if newer {
          return true;
        }
        variable := GetNextVariablePtr(variable, j);
        j := j + 1;
        valid := IsValidVariableHeader(variable, j);
      }
      exist := false;
    }

    /** The record at off is live and has the key of record i. */
    method IsNewer(off: nat, name: seq<uint8>, guid: Guid, ghost i: nat, ghost j: nat) returns (b: bool)
      requires Valid() && Points(off, j) && i < |log| && j < |log|
      requires name == NameBytes(log[i].name) && guid == log[i].guid
      ensures b <==> LiveFor(log[j], KeyOf(log[i]))
    {
      hide HoldsRecord, RecordSize, Offset, NameBytes;
      ParsesRecord(base[..], off, log[j], align);
      var state := base[off + 2];
      if state != VAR_ADDED && state != IN_TRANSITION {
        return false;
      }
      if base[off + 16..off + HEADER_SIZE] != guid {
        return false;
      }
      b := CompareName(base, off + HEADER_SIZE, name, log[i].name, log[j].name);
    }

    /** The bytes of name and GUID that ExistNewerVariable compares with. */
    method KeyAt(off: nat, ghost i: nat) returns (name: seq<uint8>, guid: Guid)
      requires Valid() && Points(off, i) && i < |log|
      ensures name == NameBytes(log[i].name) && guid == log[i].guid
    {
      hide HoldsRecord, RecordSize, Offset, NameBytes;
      ParsesRecord(base[..], off, log[i], align);
      var n := WordAt(base[..], off + 8);
      name, guid := base[off + HEADER_SIZE..off + HEADER_SIZE + n], base[off + 16..off + HEADER_SIZE];
    }

    /** Erase of the storage. */
    method Erase()
      modifies base
      ensures base[..] == Erased(base.Length)
    {
      for i := 0 to base.Length
        invariant forall j :: 0 <= j < i ==> base[j] == ERASED
      {
        base[i] := ERASED;
      }
    }

    /** Write of the storage. */
    method Write(off: nat, b: seq<uint8>)
      requires off + |b| <= base.Length
      modifies base
      ensures base[..] == Splice(old(base[..]), off, b)
    {
      StoreBytes(base, off, b);
    }

    /** Clear bits in the state byte of a record, at VARIABLE_MEMBER_OFFSET (State, ...). */
    method ClearState(off: nat, mask: uint8, ghost i: nat)
      requires Valid() && Points(off, i) && i < |log|
      modifies `log, base
      ensures Valid() && log == Clear(old(log), i, mask)
      ensures base[..STORE_HEADER_SIZE] == old(base[..STORE_HEADER_SIZE])
    {
      hide HoldsLog, Offset, And;
      var state := StateAt(off, i);
      StateHolds(base[..], log, i, And(state, mask), align);
      ClearEnd(log, i, mask, align);
      Write(off + 2, [And(state, mask)]);
      log := Clear(log, i, mask);
    }

    /** Append the image of a record. */
    method AppendImage(b: seq<uint8>, ghost r: Record)
      requires Valid() && IsImage(b, r, align) && lastOffset + |b| <= base.Length
      modifies `log, `lastOffset, base
      ensures Valid() && log == old(log) + [r]
      ensures base[..STORE_HEADER_SIZE] == old(base[..STORE_HEADER_SIZE])
    {
      hide HoldsLog, Offset, IsImage;
      AppendHolds(base[..], log, r, b, align);
      EndSnoc(log, r, align);
      ImageSize(b, r, align);
      Write(lastOffset, b);
      lastOffset := lastOffset + |b|;
      log := log + [r];
    }

    /** The bytes of a record, and what follows it. */
    method CopyRecord(off: nat, ghost i: nat) returns (b: seq<uint8>, next: nat)
      requires Valid() && Points(off, i) && i < |log|
      ensures IsImage(b, log[i], align) && Points(next, i + 1)
    {
      hide IsImage, RecordSize, Offset;
      next := GetNextVariablePtr(off, i);
      OffsetStep(log, i, align);
      OffsetMono(log, i, |log|, align);
      b := base[off..next];
      assert b == base[..][off..next];
    }

    /** What Reclaim copies of one record; cur is the offset of the current one. */
    method KeepRecord(off: nat, cur: Option<nat>, ghost i: nat, ghost c: Option<nat>) returns (b: seq<uint8>, next: nat)
      requires Valid() && Points(off, i) && i < |log|
      requires (c.Some? ==> c.value < |log|) && cur == At(log, c, align)
      ensures Points(next, i + 1)
      ensures IsKept(b, Keep(log, i, c), align)
    {
      hide HoldsLog, Offset, IsImage, ExistNewer, RecordSize;
      b, next := CopyRecord(off, i);
      var state := StateAt(off, i);
      if state == VAR_ADDED {
        return;
      }
      if state == IN_TRANSITION {
        var exist := ExistNewerVariable(off, i);
        if !exist {
          SameRecord(log, i, c, off, cur, align);
          if cur != Some(off) {
            b := WithStateByte(b, VAR_ADDED, log[i], align);
          }
          return;
        }
      }
      b := [];
    }

    /** Collect the store header and the records to keep. */
    method Collect(cur: Option<nat>, ghost c: Option<nat>) returns (buffer: seq<uint8>)
      requires Valid() && (c.Some? ==> c.value < |log|) && cur == At(log, c, align)
      ensures |buffer| == End(Reclaimed(log, c), align) && HoldsLog(buffer, Reclaimed(log, c), align)
      ensures STORE_HEADER_SIZE <= |buffer| && buffer[..STORE_HEADER_SIZE] == base[..STORE_HEADER_SIZE]
    {
      hide HoldsRecord, Offset, Keep;
      OffsetStart(log, align);
      EndMin(log, align);
      buffer := base[..STORE_HEADER_SIZE];
      var variable: nat := STORE_HEADER_SIZE;
      ghost var i: nat, kept := 0, [];
      OffsetStart([], align);
      var valid := IsValidVariableHeader(variable, i);
      while valid
        invariant Points(variable, i) && (valid <==> i < |log|)
        invariant kept == ReclaimUpTo(log, i, c)
        invariant |buffer| == End(kept, align) && HoldsLog(buffer, kept, align)
        invariant STORE_HEADER_SIZE <= |buffer| && buffer[..STORE_HEADER_SIZE] == base[..STORE_HEADER_SIZE]
        decreases |log| - i
      {
        var b, next := KeepRecord(variable, cur, i, c);
        ghost var more := Keep(log, i, c);
        CollectMore(buffer, kept, more, b, log, i, c, align);
        buffer := buffer + b;
        kept := kept + more;
        variable := next;
        i := i + 1;
        valid := IsValidVariableHeader(variable, i);
      }
    }

    /** Garbage collection: keep the live records, of each key the newest, and promote those in transition but the current one. */
    method Reclaim(cur: Option<nat>, ghost c: Option<nat>)
      requires Valid() && (c.Some? ==> c.value < |log|) && cur == At(log, c, align)
      modifies `log, `lastOffset, base
      ensures Valid() && log == Reclaimed(old(log), c) && lastOffset <= old(lastOffset)
      ensures base[..STORE_HEADER_SIZE] == old(base[..STORE_HEADER_SIZE])
    {
      hide HoldsRecord, Offset, Keep;
      var buffer := Collect(cur, c);
      ghost var kept := Reclaimed(log, c);
      ReclaimShrinks(log, |log|, c, align);
      ErasedTail(buffer, kept, base.Length - |buffer|, align);
      lastOffset := |buffer|;
      Erase();
      Write(0, buffer);
      assert base[..] == buffer + Erased(base.Length - |buffer|);
      log := kept;
    }
  }

  /** b is the image of the record that is kept, if any. */
  ghost predicate IsKept(b: seq<uint8>, kept: seq<Record>, align: nat)
  {
    if kept == [] then b == [] else IsImage(b, kept[0], align)
  }

  /** Comparing offsets compares records. */
  lemma SameRecord(log: seq<Record>, i: nat, c: Option<nat>, off: nat, cur: Option<nat>, align: nat)
    requires i < |log| && (c.Some? ==> c.value < |log|) && off == Offset(log, i, align) && cur == At(log, c, align)
    ensures cur == Some(off) <==> c == Some(i)
  {
    hide Offset;
    if cur == Some(off) { OffsetInjective(log, i, c.value, align); }
  }

  lemma CollectMore(buffer: seq<uint8>, kept: seq<Record>, more: seq<Record>, b: seq<uint8>,
                    log: seq<Record>, i: nat, c: Option<nat>, align: nat)
    requires i < |log| && more == Keep(log, i, c) && IsKept(b, more, align)
    requires |buffer| == End(kept, align) && HoldsLog(buffer, kept, align)
    ensures |buffer + b| == End(kept + more, align) && HoldsLog(buffer + b, kept + more, align)
    ensures |buffer| >= STORE_HEADER_SIZE && (buffer + b)[..STORE_HEADER_SIZE] == buffer[..STORE_HEADER_SIZE]
  {
    hide IsImage, Offset, HoldsLog;
    EndMin(kept, align);
    if more == [] {
      assert buffer + b == buffer && kept + more == kept;
    } else {
      assert more == [more[0]];
      CollectHolds(buffer, kept, more[0], b, align);
    }
  }

  lemma EndMin(log: seq<Record>, align: nat)
    ensures End(log, align) >= STORE_HEADER_SIZE
  {
  }

  /** A copied record with another state. */
  method WithStateByte(b: seq<uint8>, state: uint8, ghost r: Record, ghost align: nat) returns (b': seq<uint8>)
    requires IsImage(b, r, align)
    ensures IsImage(b', WithState(r, state), align)
  {
    hide IsImage;
    ImageSize(b, r, align);
    assert b[0..0 + |b|] == b;
    StateOfImage(b, 0, r, state, align);
    b' := b[2 := state];
    assert Splice(b, 2, [state]) == b';
    assert b'[0..0 + |b|] == b';
  }

  lemma ClearEnd(log: seq<Record>, i: nat, mask: uint8, align: nat)
    requires i < |log|
    ensures End(Clear(log, i, mask), align) == End(log, align)
  {
    OffsetSame(Clear(log, i, mask), log, |log|, align);
  }
}
