/**
 Which requests SetVariable takes, in plain numbers: attribute bits, sizes in
 bytes and the two limits. Line numbers are those of
 DuetPkg/FSVariable/FSVariable.c.
 */
module VariableRequests {
  import opened Words
  import opened Bytes
  import opened VariableLog
  import opened VariableLayout
  import opened VariableService
  import opened VariableLaws

  /** The characters of HwErrRec. */
  const HW_ERR_REC: Name := [0x48, 0x77, 0x45, 0x72, 0x72, 0x52, 0x65, 0x63]

  lemma HwErrRecChars()
    ensures Chars("HwErrRec") == HW_ERR_REC
  {
    var a, b := Chars("HwErrRec"), HW_ERR_REC;
    assert |a| == |b| == 8;
    assert forall i :: 0 <= i < 8 ==> a[i] == b[i];
  }

  /** Lines 1504-1553: which requests are invalid; nothing changes then, and at boot time no other request is. */
  lemma InvalidExactly(cfg: Config, st: Stores, req: Request, runtime: bool, pool: bool)
    requires req.Valid()
    ensures
      var invalid :=
        || req.name in {None, Some([])} || req.guid == None || (req.dataSize != 0 && req.data == None)
        || And(req.attributes, 0x10) != 0 || And(req.attributes, 6) == 4
        || var size := 32 + (2 * |req.name.value| + 2) + req.dataSize;
           if And(req.attributes, 8) == 8 then size > cfg.maxHwErrSize || !(HW_ERR_REC <= req.name.value) else size > cfg.maxSize;
      && (invalid ==> SetVariable(cfg, st, req, runtime, pool) == (st, InvalidParameter))
      && (!runtime && !invalid ==> SetVariable(cfg, st, req, runtime, pool).1 != InvalidParameter)
  {
    hide And, Find, Fits, Retire, ReclaimFor;
    HwErrRecChars();
  }

  /** The record goes behind the others: its header, name and data, the last two padded, end within the store. */
  predicate Room(cfg: Config, log: seq<Record>, volatile: bool, name: Name, data: seq<uint8>)
  {
    var n, d := 2 * |name| + 2, |data|;
    End(log, cfg.align) + 32 + n + PadSize(n, cfg.align) + d + PadSize(d, cfg.align) <= if volatile then cfg.volSize else cfg.nvSize
  }

  /** The variable, if its data is to change, is in the store that the attributes name. */
  predicate StaysPut(st: Stores, k: Key, attributes: uint32, data: seq<uint8>)
  {
    var w := Find(st, BootQuery(k));
    w.Some? && RecordAt(st, w.value).data != data ==> w.value.volatile == (And(attributes, 1) == 0)
  }

  /**
   With valid attributes and room in the store, a set is taken exactly if header,
   name and data are within the limit for its kind; then its data shows, and the
   store that the attributes do not name is left alone.
   */
  lemma TakenExactly(cfg: Config, st: Stores, k: Key, attributes: uint32, data: seq<uint8>, pool: bool)
    requires Good(st) && k.name != [] && data != []
    requires And(attributes, 0x10) == 0 && And(attributes, 6) !in {0, 4} && StaysPut(st, k, attributes, data)
    requires var v := And(attributes, 1) == 0; Room(cfg, if v then st.vol else st.nv, v, k.name, data)
    ensures
      var size := 32 + (2 * |k.name| + 2) + |data|;
      var taken := if And(attributes, 8) == 8 then size <= cfg.maxHwErrSize && HW_ERR_REC <= k.name else size <= cfg.maxSize;
      var (st1, s) := SetVariable(cfg, st, Request(Some(k.name), Some(k.guid), attributes, |data|, Some(data)), false, pool);
      && s == (if taken then Success else InvalidParameter)
      && (if taken then Lookup(st1, BootQuery(k)).Some? && Lookup(st1, BootQuery(k)).value.data == data else st1 == st)
      && (if And(attributes, 1) == 0 then st1.nv == st.nv else st1.vol == st.vol)
  {
    hide And, Good, Update, Find, View, Lookup;
    HwErrRecChars();
    var req := Request(Some(k.name), Some(k.guid), attributes, |data|, Some(data));
    if !Refused(cfg, req) {
      var r := RecordOf(cfg, req);
      assert r == Record(VAR_ADDED, attributes, k.name, k.guid, data);
      SetShows(cfg, st, r, pool);
      SetHome(cfg, st, r, pool);
    }
  }

  lemma SetShows(cfg: Config, st: Stores, r: Record, pool: bool)
    requires Good(st) && r.state == VAR_ADDED && r.name != [] && !Deletes(r)
    requires KeepsStore(st, r, FindFor(st, r, false)) && Fits(cfg, st, r)
    ensures var (st1, s) := Update(cfg, st, r, FindFor(st, r, false), false, pool);
      s == Success && Lookup(st1, BootQuery(KeyOf(r))).Some? && Lookup(st1, BootQuery(KeyOf(r))).value.data == r.data
  {
    hide And, Good, Find, View, Lookup, Deletes, Obeys, Update;
    UpdateObeys(cfg, st, r, pool);
    var (st1, s) := Update(cfg, st, r, FindFor(st, r, false), false, pool);
    FittingSucceeds(cfg, st, r, pool);
    ObeysViews(st, r, st1, s, KeyOf(r));
    LookupIsView(st1, KeyOf(r));
  }

  lemma FittingSucceeds(cfg: Config, st: Stores, r: Record, pool: bool)
    requires !Deletes(r) && Fits(cfg, st, r)
    ensures Update(cfg, st, r, FindFor(st, r, false), false, pool).1 == Success
  {
    hide And, Deletes, RecordSize, Find;
    var found := FindFor(st, r, false);
    if found.Some? { RetireFits(cfg, st, r, found.value); }
  }

  lemma SetHome(cfg: Config, st: Stores, r: Record, pool: bool)
    requires !Deletes(r) && KeepsStore(st, r, FindFor(st, r, false))
    ensures var (st1, s) := Update(cfg, st, r, FindFor(st, r, false), false, pool);
      if IsVolatile(r.attributes) then st1.nv == st.nv else st1.vol == st.vol
  {
    hide And, Deletes, Fits, Reclaimed;
  }

  /**
   If the data is new, a set that is not invalid succeeds exactly if there is room,
   or Reclaim gets its buffer and there is room after it; else it is out of resources.
   */
  lemma StoredExactly(cfg: Config, st: Stores, k: Key, attributes: uint32, data: seq<uint8>, pool: bool)
    requires Good(st) && k.name != [] && data != [] && And(attributes, 6) != 0 && StaysPut(st, k, attributes, data)
    requires Find(st, BootQuery(k)).Some? ==> RecordAt(st, Find(st, BootQuery(k)).value).data != data
    ensures
      var v := And(attributes, 1) == 0;
      var log := if v then st.vol else st.nv;
      var place := PlaceIn(Find(st, BootQuery(k)), v);
      var s := SetVariable(cfg, st, Request(Some(k.name), Some(k.guid), attributes, |data|, Some(data)), false, pool).1;
      s != InvalidParameter ==>
        s == if Room(cfg, log, v, k.name, data) || (pool && Room(cfg, ReclaimedFor(log, place), v, k.name, data)) then Success else OutOfResources
  {
    hide And, Good, Update, Find;
    HwErrRecChars();
    var req := Request(Some(k.name), Some(k.guid), attributes, |data|, Some(data));
    if !Refused(cfg, req) {
      var r := RecordOf(cfg, req);
      assert r == Record(VAR_ADDED, attributes, k.name, k.guid, data);
      var v := IsVolatile(attributes);
      var place := PlaceIn(FindFor(st, r, false), v);
      hide RecordSize, PadSize, Refused, End, ReclaimedFor;
      UpdateWrites(cfg, st, r, FindFor(st, r, false), pool);
      MarkedEnd(LogOf(st, v), place, cfg.align);
    }
  }

  /** Marking a record as in transition changes no offset. */
  lemma MarkedEnd(log: seq<Record>, place: Option<nat>, align: nat)
    requires place.Some? ==> place.value < |log|
    ensures End(Marked(log, place), align) == End(log, align)
  {
    hide And, RecordSize;
    OffsetSame(log, Marked(log, place), |log|, align);
  }

  /**
   No data, or neither access attribute: the value below the newest one shows, every
   other variable is left alone, and without such a variable nothing is found.
   */
  lemma DeletesExactly(cfg: Config, st: Stores, k: Key, attributes: uint32, data: seq<uint8>, pool: bool)
    requires Good(st) && k.name != [] && (data == [] || And(attributes, 6) == 0)
    ensures
      var (st1, s) := SetVariable(cfg, st, Request(Some(k.name), Some(k.guid), attributes, |data|, Some(data)), false, pool);
      var vals := Values(st, k);
      s != InvalidParameter ==>
        && s == (if vals == [] then NotFound else Success)
        && Values(st1, k) == (if vals == [] then [] else vals[..|vals| - 1])
        && (forall k1 :: k1 != k ==> Values(st1, k1) == Values(st, k1))
        && (Lookup(st1, BootQuery(k)) == if |vals| < 2 then None else Some(vals[|vals| - 2]))
  {
    hide And, Good, Find, Values, Update, Lookup;
    var req := Request(Some(k.name), Some(k.guid), attributes, |data|, Some(data));
    if !Refused(cfg, req) {
      var r := RecordOf(cfg, req);
      assert r == Record(VAR_ADDED, attributes, k.name, k.guid, data);
      UpdateObeys(cfg, st, r, pool);
      LookupIsView(Update(cfg, st, r, FindFor(st, r, false), false, pool).0, k);
    }
  }
}
