/**
 The variable services on the bytes of the two stores. Each method is proved
 to do to the logs what the specification says. Line numbers are those of
 DuetPkg/FSVariable/FSVariable.c.
 */
module VariableDriver {
  import opened Words
  import opened Bytes
  import opened VariableLog
  import opened VariableLayout
  import opened VariableService
  import opened VariableNames
  import opened VariableStore
  import VariableLaws

  const RECLAIM_THRESHOLD := 1024

  /** VARIABLE_POINTER_TRACK: a store and an offset into it. */
  datatype Track = Track(volatile: bool, off: nat)

  function TrackOf(st: Stores, found: Option<Where>, align: nat): Option<Track>
    requires found.Some? ==> Within(st, found.value)
  {
    if found.None? then None
    else Some(Track(found.value.volatile, Offset(LogOf(st, found.value.volatile), found.value.place, align)))
  }

  /** The record with a number, the records of both stores being numbered through. */
  function NumberTrack(st: Stores, j: Option<nat>, align: nat): Option<Track>
    requires j.Some? ==> j.value < |All(st)|
  {
    if j.None? then None
    else if j.value < |st.nv| then Some(Track(false, Offset(st.nv, j.value, align)))
    else Some(Track(true, Offset(st.vol, j.value - |st.nv|, align)))
  }

  /** The image of a record, as UpdateVariable assembles it. */
  function Assemble(r: Record, align: nat): (b: seq<uint8>)
    requires NameSize(r.name) < 0x1_0000_0000 && |r.data| < 0x1_0000_0000
  {
    var n := NameSize(r.name);
    [0xaa, 0x55, r.state, 0] + Word32Bytes(r.attributes) + Word32Bytes(n) + Word32Bytes(|r.data|) + r.guid
      + NameBytes(r.name) + Stale(PadSize(n, align)) + r.data + Stale(PadSize(|r.data|, align))
  }

  /** Bytes whose value does not matter. */
  function Stale(n: nat): (b: seq<uint8>)
    ensures |b| == n
  {
    seq(n, _ => 0)
  }

  lemma AssembleIsImage(r: Record, align: nat)
    requires NameSize(r.name) < 0x1_0000_0000 && |r.data| < 0x1_0000_0000
    ensures IsImage(Assemble(r, align), r, align)
  {
    hide NameBytes, Word32, Word32Bytes, PadSize;
    var b, n, d := Assemble(r, align), NameSize(r.name), DataOffset(r.name, align);
    assert b[4..8] == Word32Bytes(r.attributes);
    assert b[8..12] == Word32Bytes(n);
    assert b[12..16] == Word32Bytes(|r.data|);
    assert b[16..HEADER_SIZE] == r.guid;
    assert b[HEADER_SIZE..HEADER_SIZE + n] == NameBytes(r.name);
    assert b[d..d + |r.data|] == r.data;
  }

  class VariableGlobal {
    const nv: VariableStorage
    const vol: VariableStorage
    const runtime: bool
    const maxSize: nat
    const maxHwErrSize: nat

    /** The stores after each write of a record or a state so far. */
    ghost var history: seq<Stores>

    /** The part of VariableServiceInitialize that prepares the two stores. */
    constructor (nvBase: array<uint8>, volBase: array<uint8>, header: seq<uint8>, align: nat, runtime: bool,
                 maxSize: nat, maxHwErrSize: nat, ghost log: seq<Record>)
      requires nvBase != volBase && nvBase.Length < 0x1_0000_0000 && HoldsLog(nvBase[..], log, align)
      requires STORE_HEADER_SIZE <= volBase.Length < 0x1_0000_0000 && |header| == STORE_HEADER_SIZE
      modifies nvBase, volBase
      ensures Valid() && fresh(nv) && fresh(vol) && nv.base == nvBase && vol.base == volBase
      ensures Cfg() == Config(nvBase.Length, volBase.Length, align, maxSize, maxHwErrSize) && this.runtime == runtime
      ensures Contents() == Stores(if nvBase.Length - End(log, align) < 1024 then Reclaimed(log, None) else log, [])
    {
      hide HoldsLog, Offset, Reclaimed;
      var store := new VariableStorage.Existing(nvBase, align, log);
      if nvBase.Length - store.lastOffset < RECLAIM_THRESHOLD {
        store.Reclaim(None, None);
      }
      var store1 := new VariableStorage.Formatted(volBase, align, header);
      this.nv, this.vol, this.runtime, this.maxSize, this.maxHwErrSize := store, store1, runtime, maxSize, maxHwErrSize;
      this.history := [];
    }

    /** Both stores are in order, and no size computation leaves 32 bits. */
    ghost predicate Valid()
      reads this, nv, vol, nv.base, vol.base
    {
      && nv != vol && nv.base != vol.base && nv.align == vol.align
      && nv.Valid() && vol.Valid()
    }

    ghost function Contents(): Stores
      reads this, nv, vol
    {
      Stores(nv.log, vol.log)
    }

    ghost function Cfg(): Config
    {
      Config(nv.base.Length, vol.base.Length, nv.align, maxSize, maxHwErrSize)
    }

    function Storage(volatile: bool): VariableStorage
    {
      if volatile then vol else nv
    }

    /** FindVariable. */
    method FindVariable(q: Query) returns (track: Option<Track>)
      requires Valid()
      ensures track == TrackOf(Contents(), Find(Contents(), q), nv.align)
    {
      hide FirstAdded, LastInTransition, Offset, HoldsLog;
      ghost var x, y := FirstAdded(nv.log, q, 0), FirstAdded(vol.log, q, 0);
      SearchConcat(nv.log, vol.log, q);
      var added, inDelete := nv.FindIn(q);
      if added.Some? {
        return Some(Track(false, added.value));
      }
      var added1, inDelete1 := vol.FindIn(q);
      if added1.Some? {
        return Some(Track(true, added1.value));
      }
      if inDelete1.Some? {
        return Some(Track(true, inDelete1.value));
      }
      if inDelete.Some? {
        return Some(Track(false, inDelete.value));
      }
      track := None;
    }

    /** Clear bits of the state of a tracked record. */
    method ClearAt(track: Track, mask: uint8, ghost w: Where)
      requires Valid() && Within(Contents(), w) && Some(track) == TrackOf(Contents(), Some(w), nv.align)
      modifies `history, nv`log, vol`log, nv.base, vol.base
      ensures Valid() && Contents() == Retire(old(Contents()), w, mask) && history == old(history) + [Contents()]
    {
      hide HoldsLog, Offset, Clear;
      Storage(track.volatile).ClearState(track.off, mask, w.place);
      history := history + [Contents()];
    }

    /** The new record does not fit behind the last one; the sum is taken in 32 bits. */
    method NoRoom(volatile: bool, size: nat) returns (b: bool)
      requires Valid() && size + Storage(volatile).base.Length < 0x1_0000_0000
      ensures b <==> size + End(LogOf(Contents(), volatile), nv.align) > Storage(volatile).base.Length
    {
      hide HoldsRecord, Offset;
      var s := Storage(volatile);
      b := (size + s.lastOffset) % 0x1_0000_0000 > s.base.Length;
    }

    /** Append r to the store its attributes name. */
    method AppendTo(volatile: bool, r: Record)
      requires Valid() && volatile == IsVolatile(r.attributes) && Fits(Cfg(), Contents(), r)
      modifies `history, nv`log, vol`log, nv`lastOffset, vol`lastOffset, nv.base, vol.base
      ensures Valid() && Contents() == Append(old(Contents()), r) && history == old(history) + [Contents()]
    {
      hide HoldsLog, Offset, IsImage, Assemble, IsVolatile;
      FittingSizes(r, nv.align);
      AssembleIsImage(r, nv.align);
      ImageSize(Assemble(r, nv.align), r, nv.align);
      Storage(volatile).AppendImage(Assemble(r, nv.align), r);
      history := history + [Contents()];
    }

    lemma FittingSizes(r: Record, align: nat)
      requires Valid() && Fits(Cfg(), Contents(), r) && align == nv.align
      ensures NameSize(r.name) < 0x1_0000_0000 && |r.data| < 0x1_0000_0000
    {
      hide HoldsLog, Offset, PadSize;
    }

    /** Lines 1190-1292: reclaim if need be, append, and delete the record that was replaced. */
    method WriteNew(r: Record, track: Option<Track>, pool: bool, ghost found: Option<Where>) returns (status: Status)
      requires Valid() && (found.Some? ==> Within(Contents(), found.value) && found.value.volatile == IsVolatile(r.attributes))
      requires track == TrackOf(Contents(), found, nv.align)
      requires RecordSize(r, nv.align) + Storage(IsVolatile(r.attributes)).base.Length < 0x1_0000_0000
      modifies `history, nv`log, vol`log, nv`lastOffset, vol`lastOffset, nv.base, vol.base
      ensures Valid() && (Contents(), status) == Write(Cfg(), old(Contents()), r, found, runtime, pool)
      ensures Fits(Cfg(), old(Contents()), r) ==>
        var st1 := Append(old(Contents()), r);
        history == old(history) + if found.None? then [st1] else [st1, Retire(st1, found.value, VAR_DELETED)]
    {
      hide HoldsLog, Offset, And, Reclaimed, Clear, RecordSize;
      var volatile := And(r.attributes, NON_VOLATILE) == 0;
      var size := RecordSize(r, nv.align);
      var noRoom := NoRoom(volatile, size);
      if noRoom {
        if !volatile && runtime {
          return OutOfResources;
        }
        if !pool {
          return OutOfResources;
        }
        var cur := if track.Some? && track.value.volatile == volatile then Some(track.value.off) else None;
        Storage(volatile).Reclaim(cur, if found.Some? then Some(found.value.place) else None);
        noRoom := NoRoom(volatile, size);
        if noRoom {
          return OutOfResources;
        }
        AppendTo(volatile, r);
        return Success;
      }
      ghost var st := Contents();
      AppendTo(volatile, r);
      if track.Some? {
        AppendKeepsTrack(st, r, found.value, nv.align);
        ClearAt(track.value, VAR_DELETED, found.value);
      }
      status := Success;
    }

    /** UpdateVariable. */
    method UpdateVariable(r: Record, track: Option<Track>, pool: bool, ghost found: Option<Where>) returns (status: Status)
      requires Valid() && r.state == VAR_ADDED
      requires found.Some? ==> Within(Contents(), found.value) && Live(RecordAt(Contents(), found.value))
      requires track == TrackOf(Contents(), found, nv.align) && KeepsStore(Contents(), r, found)
      requires RecordSize(r, nv.align) + Storage(IsVolatile(r.attributes)).base.Length < 0x1_0000_0000
      modifies `history, nv`log, vol`log, nv`lastOffset, vol`lastOffset, nv.base, vol.base
      ensures Valid() && (Contents(), status) == Update(Cfg(), old(Contents()), r, found, runtime, pool)
      ensures status == Success && VariableLaws.Writes(old(Contents()), r, found) && Fits(Cfg(), old(Contents()), r) ==>
        history == old(history) + VariableLaws.Trace(old(Contents()), r, found)
    {
      hide HoldsLog, Offset, And, Write, Clear, RecordSize;
      var deletes := |r.data| == 0 || And(r.attributes, RUNTIME_ACCESS + BOOTSERVICE_ACCESS) == 0;
      if track.Some? {
        var volatile, off := track.value.volatile, track.value.off;
        var s := Storage(volatile);
        ghost var i := found.value.place;
        var attributes := s.AttributesAt(off, i);
        if runtime && volatile {
          return WriteProtected;
        }
        if runtime && And(attributes, NON_VOLATILE) == 0 {
          return InvalidParameter;
        }
        if deletes {
          ClearAt(track.value, VAR_DELETED, found.value);
          return Success;
        }
        var data := s.DataAt(off, i);
        if data == r.data {
          return Success;
        }
        var state := s.StateAt(off, i);
        if state == VAR_ADDED || state == IN_TRANSITION {
          RetireKeepsTrack(Contents(), found.value, VAR_IN_DELETED_TRANSITION, nv.align);
          RetireFits(Cfg(), Contents(), r, found.value);
          VariableLaws.TraceIs(Contents(), r, found);
          ClearAt(track.value, VAR_IN_DELETED_TRANSITION, found.value);
        }
      } else {
        if deletes {
          return NotFound;
        }
        if runtime && (And(r.attributes, RUNTIME_ACCESS) == 0 || And(r.attributes, NON_VOLATILE) == 0) {
          return InvalidParameter;
        }
        VariableLaws.TraceIs(Contents(), r, found);
      }
      ghost var st := Contents();
      status := WriteNew(r, track, pool, found);
      assert Fits(Cfg(), st, r) && found.Some? ==>
        history == old(history) + [st, Append(st, r), Retire(Append(st, r), found.value, VAR_DELETED)];
    }

    /** The limits on a record, with its pads, leave room in 32 bits. */
    predicate Configured()
    {
      && maxSize + 2 * Pow2(nv.align) + nv.base.Length < 0x1_0000_0000
      && maxSize + 2 * Pow2(nv.align) + vol.base.Length < 0x1_0000_0000
      && maxHwErrSize + 2 * Pow2(nv.align) + nv.base.Length < 0x1_0000_0000
      && maxHwErrSize + 2 * Pow2(nv.align) + vol.base.Length < 0x1_0000_0000
    }

    /** SetVariable, but for the language variables and for updates that move a variable between the stores. */
    method SetVariable(req: Request, pool: bool) returns (status: Status)
      requires Valid() && Configured() && req.Valid() && !HooksLanguage(req)
      requires !Refused(Cfg(), req) ==>
        var r := RecordOf(Cfg(), req); KeepsStore(Contents(), r, FindFor(Contents(), r, runtime))
      modifies `history, nv`log, vol`log, nv`lastOffset, vol`lastOffset, nv.base, vol.base
      ensures Valid() && (Contents(), status) == VariableService.SetVariable(Cfg(), old(Contents()), req, runtime, pool)
    {
      hide HoldsLog, Offset, And, Update, Find, KeepsStore;
      if req.name.None? || req.name.value == [] || req.guid.None? {
        return InvalidParameter;
      }
      if req.dataSize != 0 && req.data.None? {
        return InvalidParameter;
      }
      if And(req.attributes, AUTHENTICATED_WRITE_ACCESS) != 0 {
        return InvalidParameter;
      }
      if And(req.attributes, RUNTIME_ACCESS + BOOTSERVICE_ACCESS) == RUNTIME_ACCESS {
        return InvalidParameter;
      }
      var name := req.name.value;
      if And(req.attributes, HARDWARE_ERROR_RECORD) == HARDWARE_ERROR_RECORD {
        if req.dataSize > maxHwErrSize || HEADER_SIZE + NameSize(name) + req.dataSize > maxHwErrSize {
          return InvalidParameter;
        }
        if !(Chars("HwErrRec") <= name) {
          return InvalidParameter;
        }
      } else {
        if req.dataSize > maxSize || HEADER_SIZE + NameSize(name) + req.dataSize > maxSize {
          return InvalidParameter;
        }
      }
      var q := Query(name, req.guid.value, runtime);
      var track := FindVariable(q);
      FindLive(Contents(), q);
      var r := Record(VAR_ADDED, req.attributes, name, req.guid.value, if req.dataSize == 0 then [] else req.data.value);
      status := UpdateVariable(r, track, pool, Find(Contents(), q));
    }

    /** DuetGetVariable; None stands for a null pointer. */
    method DuetGetVariable(name: Option<Name>, guid: Option<Guid>, dataSize: Option<nat>, hasBuffer: bool)
      returns (status: Status, attributes: uint32, size: nat, data: seq<uint8>)
      requires Valid()
      ensures name.None? || guid.None? || dataSize.None? ==> status == InvalidParameter
      ensures name.Some? && guid.Some? && dataSize.Some? ==>
        match Lookup(Contents(), Query(name.value, guid.value, runtime))
        case None => status == NotFound
        case Some(v) =>
          if dataSize.value < |v.data| then status == BufferTooSmall && size == |v.data|
          else if !hasBuffer then status == InvalidParameter
          else status == Success && attributes == v.attributes && size == |v.data| && data == v.data
    {
      hide HoldsLog, Offset, Find;
      attributes, size, data := 0, 0, [];
      if name.None? || guid.None? || dataSize.None? {
        return InvalidParameter, 0, 0, [];
      }
      ghost var found := Find(Contents(), Query(name.value, guid.value, runtime));
      var track := FindVariable(Query(name.value, guid.value, runtime));
      if track.None? {
        return NotFound, 0, 0, [];
      }
      var s := Storage(track.value.volatile);
      data := s.DataAt(track.value.off, found.value.place);
      size := |data|;
      if dataSize.value >= size {
        if !hasBuffer {
          return InvalidParameter, 0, 0, [];
        }
        attributes := s.AttributesAt(track.value.off, found.value.place);
        return Success, attributes, size, data;
      }
      return BufferTooSmall, 0, size, [];
    }

    /** Find the variable and go on from there: from the one found for an empty name, else from the one after it. */
    method NextTrack(q: Query) returns (next: Option<Track>)
      requires Valid() && q.runtime == runtime
      ensures
        var j := NextRecord(All(Contents()), q);
        (j.Some? ==> j.value < |All(Contents())|) && next == NumberTrack(Contents(), j, nv.align)
    {
      hide HoldsLog, Offset, Search, NextVisible;
      ghost var found := Find(Contents(), q);
      var track := FindVariable(q);
      if track.None? {
        return None;
      }
      var off := track.value.off;
      ghost var i: nat := found.value.place;
      if q.name != [] {
        off := Storage(track.value.volatile).GetNextVariablePtr(off, i);
        i := i + 1;
      }
      next := NextFrom(track.value.volatile, off, i);
    }

    /**
     GetNextVariableName; None stands for a null pointer. The name comes back as
     bytes with its terminator.
     */
    method GetNextVariableName(nameSize: Option<nat>, name: Option<Name>, guid: Option<Guid>)
      returns (status: Status, size: nat, nextName: seq<uint8>, nextGuid: Guid)
      requires Valid()
      ensures nameSize.None? || name.None? || guid.None? ==> status == InvalidParameter
      ensures nameSize.Some? && name.Some? && guid.Some? ==>
        var all := All(Contents());
        match NextRecord(all, Query(name.value, guid.value, runtime))
        case None => status == NotFound
        case Some(j) =>
          && j < |all| && size == NameSize(all[j].name)
          && if size <= nameSize.value then status == Success && nextName == NameBytes(all[j].name) && nextGuid == all[j].guid
             else status == BufferTooSmall
    {
      hide HoldsLog, Offset, NextRecord, NameBytes;
      nextGuid := seq(16, _ => 0);
      if nameSize.None? || name.None? || guid.None? {
        return InvalidParameter, 0, [], nextGuid;
      }
      ghost var j := NextRecord(All(Contents()), Query(name.value, guid.value, runtime));
      var next := NextTrack(Query(name.value, guid.value, runtime));
      if next.None? {
        return NotFound, 0, [], nextGuid;
      }
      ghost var p := if next.value.volatile then j.value - |nv.log| else j.value;
      var bytes, g := Storage(next.value.volatile).KeyAt(next.value.off, p);
      size := |bytes|;
      if size <= nameSize.value {
        return Success, size, bytes, g;
      }
      return BufferTooSmall, size, [], nextGuid;
    }

    /** The next visible record, going over to the volatile store at the end of the other. */
    method NextFrom(volatile: bool, off: nat, ghost i: nat) returns (next: Option<Track>)
      requires Valid() && Storage(volatile).Points(off, i)
      ensures next == NumberTrack(Contents(), NextVisible(All(Contents()), if volatile then |nv.log| + i else i, runtime), nv.align)
    {
      hide HoldsLog, Offset, NextVisible;
      if volatile { VisibleShift(nv.log, vol.log, i, runtime); } else { VisibleConcat(nv.log, vol.log, i, runtime); }
      var o := Storage(volatile).NextIn(off, runtime, i);
      if o.Some? {
        return Some(Track(volatile, o.value));
      }
      if volatile {
        return None;
      }
      OffsetStart(vol.log, vol.align);
      o := vol.NextIn(STORE_HEADER_SIZE, runtime, 0);
      next := if o.Some? then Some(Track(true, o.value)) else None;
    }
  }

  lemma RetireKeepsTrack(st: Stores, w: Where, mask: uint8, align: nat)
    requires Within(st, w)
    ensures Within(Retire(st, w, mask), w) && TrackOf(Retire(st, w, mask), Some(w), align) == TrackOf(st, Some(w), align)
  {
    OffsetSame(LogOf(Retire(st, w, mask), w.volatile), LogOf(st, w.volatile), w.place, align);
  }

  lemma FindLive(st: Stores, q: Query)
    ensures Find(st, q).Some? ==> Live(RecordAt(st, Find(st, q).value))
  {
    SearchWithin(All(st), q);
  }

  lemma AppendKeepsTrack(st: Stores, r: Record, w: Where, align: nat)
    requires Within(st, w)
    ensures Within(Append(st, r), w) && TrackOf(Append(st, r), Some(w), align) == TrackOf(st, Some(w), align)
  {
    OffsetSame(LogOf(Append(st, r), w.volatile), LogOf(st, w.volatile), w.place, align);
  }
}
