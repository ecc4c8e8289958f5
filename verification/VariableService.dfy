/**
 What the variable services do to the two logs, and the laws they obey.
 */
module VariableService {
  import opened Words
  import opened Bytes
  import opened VariableLog
  import opened VariableLayout

  datatype Status = Success | InvalidParameter | NotFound | BufferTooSmall | WriteProtected | OutOfResources

  datatype Stores = Stores(nv: seq<Record>, vol: seq<Record>)

  /** A record of one of the two stores. */
  datatype Where = Where(volatile: bool, place: nat)

  datatype Config = Config(nvSize: nat, volSize: nat, align: nat, maxSize: nat, maxHwErrSize: nat)

  function All(st: Stores): seq<Record>
  {
    st.nv + st.vol
  }

  predicate IsVolatile(attributes: uint32)
  {
    And(attributes, NON_VOLATILE) == 0
  }

  function LogOf(st: Stores, volatile: bool): seq<Record>
  {
    if volatile then st.vol else st.nv
  }

  function WithLog(st: Stores, volatile: bool, log: seq<Record>): Stores
  {
    if volatile then st.(vol := log) else st.(nv := log)
  }

  predicate Within(st: Stores, w: Where)
  {
    w.place < |LogOf(st, w.volatile)|
  }

  function RecordAt(st: Stores, w: Where): Record
    requires Within(st, w)
  {
    LogOf(st, w.volatile)[w.place]
  }

  /** Clear bits of the state of a record. */
  function Retire(st: Stores, w: Where, mask: uint8): Stores
    requires Within(st, w)
  {
    WithLog(st, w.volatile, Clear(LogOf(st, w.volatile), w.place, mask))
  }

  /** The record FindVariable points to: the non-volatile store is searched before the volatile one. */
  function Find(st: Stores, q: Query): (r: Option<Where>)
    ensures r.Some? ==> Within(st, r.value)
  {
    var i := Search(All(st), q);
    if i == None then None
    else
      SearchWithin(All(st), q);
      if i.value < |st.nv| then Some(Where(false, i.value)) else Some(Where(true, i.value - |st.nv|))
  }

  lemma SearchWithin(log: seq<Record>, q: Query)
    ensures Search(log, q).Some? ==> Search(log, q).value < |log| && Live(log[Search(log, q).value])
  {
    FirstAddedIs(log, q, 0);
    LastInTransitionIs(log, q, |log|);
  }

  predicate Fits(cfg: Config, st: Stores, r: Record)
  {
    var v := IsVolatile(r.attributes);
    End(LogOf(st, v), cfg.align) + RecordSize(r, cfg.align) <= if v then cfg.volSize else cfg.nvSize
  }

  /** Clearing state bits changes no offset. */
  lemma RetireFits(cfg: Config, st: Stores, r: Record, w: Where)
    requires Within(st, w)
    ensures Fits(cfg, Retire(st, w, VAR_IN_DELETED_TRANSITION), r) <==> Fits(cfg, st, r)
  {
    hide And, RecordSize;
    var v := IsVolatile(r.attributes);
    var a, b := LogOf(st, v), LogOf(Retire(st, w, VAR_IN_DELETED_TRANSITION), v);
    OffsetSame(a, b, |a|, cfg.align);
  }

  function Append(st: Stores, r: Record): Stores
  {
    var v := IsVolatile(r.attributes);
    WithLog(st, v, LogOf(st, v) + [r])
  }

  /** A request to delete: no data, or no access. */
  predicate Deletes(r: Record)
  {
    r.data == [] || And(r.attributes, RUNTIME_ACCESS + BOOTSERVICE_ACCESS) == 0
  }

  /** Reclaim the store that r goes to, keeping the found record in transition. */
  function ReclaimFor(st: Stores, r: Record, found: Option<Where>): Stores
  {
    var v := IsVolatile(r.attributes);
    var cur := if found.Some? && found.value.volatile == v then Some(found.value.place) else None;
    WithLog(st, v, Reclaimed(LogOf(st, v), cur))
  }

  /** Write the new record, reclaiming if need be; pool says whether Reclaim gets its buffer. */
  function Write(cfg: Config, st: Stores, r: Record, found: Option<Where>, runtime: bool, pool: bool): (Stores, Status)
    requires found.Some? ==> Within(st, found.value)
  {
    if Fits(cfg, st, r) then (Supersede(Append(st, r), found), Success)
    else if (!IsVolatile(r.attributes) && runtime) || !pool then (st, OutOfResources)
    else
      var st1 := ReclaimFor(st, r, found);
      if Fits(cfg, st1, r) then (Append(st1, r), Success) else (st1, OutOfResources)
  }

  function Supersede(st: Stores, found: Option<Where>): Stores
    requires found.Some? ==> Within(st, found.value)
  {
    if found.Some? then Retire(st, found.value, VAR_DELETED) else st
  }

  /** An update does not move the variable to the other store. */
  predicate KeepsStore(st: Stores, r: Record, found: Option<Where>)
    requires found.Some? ==> Within(st, found.value)
  {
    found.Some? && !Deletes(r) && RecordAt(st, found.value).data != r.data ==> found.value.volatile == IsVolatile(r.attributes)
  }

  /** UpdateVariable. */
  function Update(cfg: Config, st: Stores, r: Record, found: Option<Where>, runtime: bool, pool: bool): (Stores, Status)
    requires found.Some? ==> Within(st, found.value)
  {
    if found.Some? then
      var w := found.value;
      if runtime && w.volatile then (st, WriteProtected)
      else if runtime && IsVolatile(RecordAt(st, w).attributes) then (st, InvalidParameter)
      else if Deletes(r) then (Retire(st, w, VAR_DELETED), Success)
      else if RecordAt(st, w).data == r.data then (st, Success)
      else Write(cfg, Retire(st, w, VAR_IN_DELETED_TRANSITION), r, found, runtime, pool)
    else if Deletes(r) then (st, NotFound)
    else if runtime && (And(r.attributes, RUNTIME_ACCESS) == 0 || IsVolatile(r.attributes)) then (st, InvalidParameter)
    else Write(cfg, st, r, None, runtime, pool)
  }

  // ---- the services

  /** The arguments of SetVariable; None stands for a null pointer. */
  datatype Request =
    Request(name: Option<Name>, guid: Option<Guid>, attributes: uint32, dataSize: nat, data: Option<seq<uint8>>)
  {
    /** The data pointer, if any, points to dataSize bytes. */
    predicate Valid()
    {
      data.Some? ==> |data.value| == dataSize
    }
  }

  function Chars(s: string): (n: seq<uint16>)
    requires forall i :: 0 <= i < |s| ==> 0 < s[i] as int < 0x1_0000
    ensures |n| == |s| && forall i :: 0 <= i < |s| ==> n[i] == s[i] as int && n[i] != 0
  {
    seq(|s|, i requires 0 <= i < |s| => s[i] as uint16)
  }

  /** Setting one of these also sets related language variables, which is not modelled. */
  predicate HooksLanguage(req: Request)
  {
    && req.dataSize != 0 && req.name.Some?
    && req.name.value in {Chars("PlatformLangCodes"), Chars("LangCodes"), Chars("PlatformLang"), Chars("Lang")}
  }

  /** The parameter checks of SetVariable. */
  predicate Refused(cfg: Config, req: Request)
  {
    || req.name.None? || req.name.value == [] || req.guid.None?
    || (req.dataSize != 0 && req.data.None?)
    || And(req.attributes, AUTHENTICATED_WRITE_ACCESS) != 0
    || And(req.attributes, RUNTIME_ACCESS + BOOTSERVICE_ACCESS) == RUNTIME_ACCESS
    || if And(req.attributes, HARDWARE_ERROR_RECORD) == HARDWARE_ERROR_RECORD
       then TooLong(req, cfg.maxHwErrSize) || !(Chars("HwErrRec") <= req.name.value)
       else TooLong(req, cfg.maxSize)
  }

  predicate TooLong(req: Request, limit: nat)
    requires req.name.Some?
  {
    req.dataSize > limit || HEADER_SIZE + NameSize(req.name.value) + req.dataSize > limit
  }

  /** The record that a request asks to store. */
  function RecordOf(cfg: Config, req: Request): Record
    requires req.Valid() && !Refused(cfg, req)
  {
    Record(VAR_ADDED, req.attributes, req.name.value, req.guid.value, if req.dataSize == 0 then [] else req.data.value)
  }

  function FindFor(st: Stores, r: Record, runtime: bool): (w: Option<Where>)
    ensures w.Some? ==> Within(st, w.value)
  {
    Find(st, Query(r.name, r.guid, runtime))
  }

  function SetVariable(cfg: Config, st: Stores, req: Request, runtime: bool, pool: bool): (Stores, Status)
    requires req.Valid()
  {
    if Refused(cfg, req) then (st, InvalidParameter)
    else
      var r := RecordOf(cfg, req);
      Update(cfg, st, r, FindFor(st, r, runtime), runtime, pool)
  }

  /** The value a lookup finds. */
  function Lookup(st: Stores, q: Query): Option<Value>
  {
    match Find(st, q)
    case Some(w) => Some(ValueOf(RecordAt(st, w)))
    case None => None
  }

  // ---- reclaiming

  predicate AllLive(log: seq<Record>)
  {
    forall i :: 0 <= i < |log| ==> Live(log[i])
  }

  /** No key has two live records. */
  predicate Distinct(log: seq<Record>)
  {
    forall i, j :: 0 <= i < j < |log| && Live(log[i]) ==> !LiveFor(log[j], KeyOf(log[i]))
  }

  lemma {:induction false} TwoLive(log: seq<Record>, i: nat, j: nat, k: Key)
    requires i < j < |log| && LiveFor(log[i], k) && LiveFor(log[j], k)
    ensures |Stack(log, k)| >= 2
  {
    hide Stack;
    StackSplit(log, j, k);
    StackSplit(log[..j], i, k);
    assert log[..j][i] == log[i];
  }

  /** After reclaiming, no key has two live records. */
  lemma ReclaimDistinct(log: seq<Record>, cur: Option<nat>)
    requires Ordered(log)
    ensures Distinct(Reclaimed(log, cur)) && Ordered(Reclaimed(log, cur))
  {
    hide Stack, Reclaimed;
    var out := Reclaimed(log, cur);
    forall i, j | 0 <= i < j < |out| && Live(out[i]) ensures !LiveFor(out[j], KeyOf(out[i])) {
      var k := KeyOf(out[i]);
      ReclaimKeepsTop(log, cur, k);
      if LiveFor(out[j], k) { TwoLive(out, i, j, k); }
    }
  }

  /** After reclaiming, no dead record is left; without a current record, all are added. */
  lemma {:induction false} ReclaimLive(log: seq<Record>, n: nat, cur: Option<nat>)
    requires n <= |log|
    ensures AllLive(ReclaimUpTo(log, n, cur))
    ensures cur == None ==> forall i :: 0 <= i < |ReclaimUpTo(log, n, cur)| ==> ReclaimUpTo(log, n, cur)[i].state == VAR_ADDED
  {
    if n > 0 { ReclaimLive(log, n - 1, cur); }
  }

  lemma {:induction false} ReclaimNothing(log: seq<Record>, n: nat, cur: Option<nat>)
    requires n <= |log| && forall i :: 0 <= i < |log| ==> log[i].state == VAR_ADDED
    ensures ReclaimUpTo(log, n, cur) == log[..n]
  {
    if n > 0 {
      ReclaimNothing(log, n - 1, cur);
      assert log[..n] == log[..n - 1] + [log[n - 1]];
    }
  }

  /** Reclaiming again changes nothing. */
  lemma ReclaimIdempotent(log: seq<Record>)
    ensures Reclaimed(Reclaimed(log, None), None) == Reclaimed(log, None)
  {
    ReclaimLive(log, |log|, None);
    var out := Reclaimed(log, None);
    ReclaimNothing(out, |out|, None);
  }

  /** Reclaiming never makes the log longer, in records or in bytes. */
  lemma {:induction false} ReclaimShrinks(log: seq<Record>, n: nat, cur: Option<nat>, align: nat)
    requires n <= |log|
    ensures |ReclaimUpTo(log, n, cur)| <= n
    ensures End(ReclaimUpTo(log, n, cur), align) <= Offset(log, n, align)
  {
    hide RecordSize, Offset;
    if n > 0 {
      ReclaimShrinks(log, n - 1, cur, align);
      OffsetStep(log, n - 1, align);
      var out, kept := ReclaimUpTo(log, n - 1, cur), Keep(log, n - 1, cur);
      if kept == [] {
        assert out + kept == out;
      } else {
        assert kept == [kept[0]];
        EndSnoc(out, kept[0], align);
        assert RecordSize(kept[0], align) == RecordSize(log[n - 1], align) by { SizeIgnoresState(log[n - 1], VAR_ADDED, align); }
      }
    } else {
      EndEmpty(log, align);
    }
  }

  lemma SizeIgnoresState(r: Record, state: uint8, align: nat)
    ensures RecordSize(WithState(r, state), align) == RecordSize(r, align)
  {
  }

  lemma EndEmpty(log: seq<Record>, align: nat)
    ensures End([], align) == Offset(log, 0, align)
  {
  }

  // ---- the invariant of the stores

  /** No key has live records in both stores. */
  ghost predicate OneStore(st: Stores)
  {
    forall k :: Stack(st.nv, k) == [] || Stack(st.vol, k) == []
  }

  ghost predicate Good(st: Stores)
  {
    Ordered(st.nv) && Ordered(st.vol) && OneStore(st)
  }

  lemma GoodIsOrdered(st: Stores)
    requires Good(st)
    ensures Ordered(All(st))
  {
    hide Stack;
    var all := All(st);
    forall i, j | 0 <= i < j < |all| ensures !Clash(all[i], all[j]) {
      if i < |st.nv| <= j && Clash(all[i], all[j]) {
        StackEmpty(st.nv, KeyOf(all[i]));
        StackEmpty(st.vol, KeyOf(all[i]));
      }
    }
  }

  /** The values of k that are still alive, the newest last. */
  function Values(st: Stores, k: Key): seq<Value>
  {
    Stack(st.nv, k) + Stack(st.vol, k)
  }

  lemma ValuesAll(st: Stores, k: Key)
    ensures Values(st, k) == Stack(All(st), k)
  {
    StackConcat(st.nv, st.vol, k);
  }

  /** What GetVariable shows for k: the newest value. */
  function View(st: Stores, k: Key): Option<Value>
  {
    var s := Values(st, k);
    if s == [] then None else Some(s[|s| - 1])
  }
}
