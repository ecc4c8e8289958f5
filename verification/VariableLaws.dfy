/**
 The laws of the variable services at boot time: what every call keeps, what
 it shows afterwards, and what a run of calls amounts to.
 */
module VariableLaws {
  import opened Words
  import opened Bytes
  import opened VariableLog
  import opened VariableLayout
  import opened VariableService

  // ---- one log

  /** A stack without its top. */
  function Below(s: seq<Value>): seq<Value>
  {
    if s == [] then [] else s[..|s| - 1]
  }

  lemma ClearOrdered(log: seq<Record>, i: nat, mask: uint8)
    requires Ordered(log) && i < |log| && Live(log[i]) && mask in {VAR_IN_DELETED_TRANSITION, VAR_DELETED}
    ensures Ordered(Clear(log, i, mask))
  {
    States();
    hide And;
    var out := Clear(log, i, mask);
    forall a, b | 0 <= a < b < |out| ensures !Clash(out[a], out[b]) {
      assert !Clash(log[a], log[b]);
    }
  }

  /** A record in transition still counts as live. */
  lemma TransitionStacks(log: seq<Record>, i: nat, k: Key)
    requires i < |log| && Live(log[i])
    ensures Stack(Clear(log, i, VAR_IN_DELETED_TRANSITION), k) == Stack(log, k)
  {
    States();
    hide And, Stack;
    StackSplit(log, i, k);
    StackReplace(log, i, WithState(log[i], IN_TRANSITION), k);
  }

  /** Deleting the newest record of its key uncovers what is below it. */
  lemma DeleteStacks(log: seq<Record>, i: nat, k: Key)
    requires i < |log| && Newest(log, KeyOf(log[i]), i)
    ensures Stack(Clear(log, i, VAR_DELETED), k) == if k == KeyOf(log[i]) then Below(Stack(log, k)) else Stack(log, k)
  {
    States();
    hide And, Stack;
    StackSplit(log, i, k);
    StackReplace(log, i, WithState(log[i], And(log[i].state, VAR_DELETED)), k);
    NewestIsTop(log, KeyOf(log[i]), i);
  }

  /** No record of key k is added; those that are live are in transition. */
  predicate NoneAdded(log: seq<Record>, k: Key)
  {
    forall i :: 0 <= i < |log| ==> !(log[i].state == VAR_ADDED && KeyOf(log[i]) == k)
  }

  lemma AppendOrdered(log: seq<Record>, r: Record)
    requires Ordered(log) && NoneAdded(log, KeyOf(r))
    ensures Ordered(log + [r])
  {
    var out := log + [r];
    forall a, b | 0 <= a < b < |out| ensures !Clash(out[a], out[b]) {
      if b < |log| { assert !Clash(log[a], log[b]); }
    }
  }

  lemma AppendStacks(log: seq<Record>, r: Record, k: Key)
    requires r.state == VAR_ADDED
    ensures Stack(log + [r], k) == Stack(log, k) + if k == KeyOf(r) then [ValueOf(r)] else []
  {
    StackConcat(log, [r], k);
    StackOne(r, k);
  }

  /** found is what the search for the key of r finds in the log. */
  predicate FoundIn(log: seq<Record>, k: Key, found: Option<nat>)
  {
    match found
    case Some(i) => Newest(log, k, i)
    case None => forall j :: 0 <= j < |log| ==> !LiveFor(log[j], k)
  }

  lemma PlaceWithin(log: seq<Record>, k: Key, found: Option<nat>)
    requires FoundIn(log, k, found)
    ensures found.Some? ==> found.value < |log|
  {
  }

  /** Mark the record that is to be replaced. */
  function Marked(log: seq<Record>, found: Option<nat>): seq<Record>
    requires found.Some? ==> found.value < |log|
  {
    if found.Some? then Clear(log, found.value, VAR_IN_DELETED_TRANSITION) else log
  }

  lemma MarkedLog(log: seq<Record>, key: Key, found: Option<nat>)
    requires Ordered(log) && FoundIn(log, key, found)
    ensures var m := Marked(log, found);
      |m| == |log| && Ordered(m) && NoneAdded(m, key) && FoundIn(m, key, found)
  {
    States();
    hide And;
    if found.Some? {
      var i, m := found.value, Marked(log, found);
      ClearOrdered(log, i, VAR_IN_DELETED_TRANSITION);
      forall j | 0 <= j < |m| ensures !(m[j].state == VAR_ADDED && KeyOf(m[j]) == key) {
        if j < i { assert !Clash(log[j], log[i]); }
      }
    }
  }

  lemma MarkedStacks(log: seq<Record>, key: Key, found: Option<nat>, k: Key)
    requires FoundIn(log, key, found)
    ensures Stack(Marked(log, found), k) == Stack(log, k)
  {
    if found.Some? { TransitionStacks(log, found.value, k); }
  }

  /** Mark, append, delete the marked record. */
  function Replaced(log: seq<Record>, r: Record, found: Option<nat>): seq<Record>
    requires found.Some? ==> found.value < |log|
  {
    var log1 := Marked(log, found) + [r];
    if found.Some? then Clear(log1, found.value, VAR_DELETED) else log1
  }

  lemma ReplacedOrdered(log: seq<Record>, r: Record, found: Option<nat>)
    requires Ordered(log) && FoundIn(log, KeyOf(r), found) && r.state == VAR_ADDED
    ensures Ordered(Replaced(log, r, found))
  {
    MarkedLog(log, KeyOf(r), found);
    var m := Marked(log, found);
    AppendOrdered(m, r);
    if found.Some? {
      assert (m + [r])[found.value] == m[found.value];
      ClearOrdered(m + [r], found.value, VAR_DELETED);
    }
  }

  /** The new value takes the place of the newest one; other keys keep theirs. */
  lemma ReplacedStacks(log: seq<Record>, r: Record, found: Option<nat>, k: Key)
    requires Ordered(log) && FoundIn(log, KeyOf(r), found) && r.state == VAR_ADDED
    ensures Stack(Replaced(log, r, found), k) == if k == KeyOf(r) then Below(Stack(log, k)) + [ValueOf(r)] else Stack(log, k)
  {
    hide Stack, And, Ordered;
    States();
    MarkedLog(log, KeyOf(r), found);
    MarkedStacks(log, KeyOf(r), found, k);
    var m := Marked(log, found);
    match found
    case None =>
      AppendStacks(m, r, k);
      StackEmpty(log, KeyOf(r));
    case Some(i) =>
      FoundLive(m, KeyOf(r), i);
      DeleteStacks(m, i, k);
      AppendStacks(Clear(m, i, VAR_DELETED), r, k);
      assert Clear(m, i, VAR_DELETED) + [r] == Clear(m + [r], i, VAR_DELETED);
  }

  lemma FoundLive(log: seq<Record>, k: Key, i: nat)
    requires Newest(log, k, i)
    ensures i < |log| && KeyOf(log[i]) == k && Live(log[i])
  {
  }

  /** What Reclaim leaves of the key being replaced stays in transition. */
  lemma {:induction false} ReclaimKeepsTransition(log: seq<Record>, n: nat, key: Key, found: Option<nat>)
    requires n <= |log| && NoneAdded(log, key) && FoundIn(log, key, found)
    ensures NoneAdded(ReclaimUpTo(log, n, found), key)
  {
    if n > 0 {
      ReclaimKeepsTransition(log, n - 1, key, found);
      assert NoneAdded(Keep(log, n - 1, found), key) by {
        var j := n - 1;
        if LiveFor(log[j], key) && found != Some(j) { assert ExistNewer(log, j); }
      }
    }
  }

  function ReclaimedFor(log: seq<Record>, found: Option<nat>): seq<Record>
    requires found.Some? ==> found.value < |log|
  {
    Reclaimed(Marked(log, found), found)
  }

  lemma ReclaimedForLog(log: seq<Record>, key: Key, found: Option<nat>)
    requires Ordered(log) && FoundIn(log, key, found)
    ensures Ordered(ReclaimedFor(log, found)) && NoneAdded(ReclaimedFor(log, found), key)
  {
    MarkedLog(log, key, found);
    var m := Marked(log, found);
    ReclaimDistinct(m, found);
    ReclaimKeepsTransition(m, |m|, key, found);
  }

  lemma ReclaimedForStacks(log: seq<Record>, key: Key, found: Option<nat>, k: Key)
    requires Ordered(log) && FoundIn(log, key, found)
    ensures Stack(ReclaimedFor(log, found), k) == Top(Stack(log, k))
  {
    MarkedLog(log, key, found);
    MarkedStacks(log, key, found, k);
    ReclaimKeepsTop(Marked(log, found), found, k);
  }

  // ---- both stores

  /** The found record's place, if it is in the given store. */
  function PlaceIn(found: Option<Where>, volatile: bool): Option<nat>
  {
    if found.Some? && found.value.volatile == volatile then Some(found.value.place) else None
  }

  function BootQuery(k: Key): Query
  {
    Query(k.name, k.guid, false)
  }

  /** At boot time, FindVariable finds the newest live record of the key, in the store that has one. */
  lemma FindsNewest(st: Stores, k: Key)
    requires Good(st) && k.name != []
    ensures var found := Find(st, BootQuery(k));
      && FoundIn(st.nv, k, PlaceIn(found, false)) && FoundIn(st.vol, k, PlaceIn(found, true))
      && (found.None? <==> Values(st, k) == [])
  {
    hide Stack, Search, Ordered;
    var all := All(st);
    GoodIsOrdered(st);
    OrderedForAll(all, k);
    SearchFindsNewest(all, k);
    ValuesAll(st, k);
    var i := Search(all, BootQuery(k));
    if i.Some? { NewestIsTop(all, k, i.value); }
    NewestOfParts(st, k, i);
  }

  /** A key with a live record in the volatile store has none in the other. */
  lemma NoneInNv(st: Stores, k: Key, j: nat)
    requires OneStore(st) && j < |st.vol| && LiveFor(st.vol[j], k)
    ensures forall x :: 0 <= x < |st.nv| ==> !LiveFor(st.nv[x], k)
  {
    hide Stack, LiveFor;
    StackEmpty(st.nv, k);
    StackEmpty(st.vol, k);
  }

  lemma NewestOfParts(st: Stores, k: Key, i: Option<nat>)
    requires OneStore(st) && if i.Some? then Newest(All(st), k, i.value) else Stack(All(st), k) == []
    ensures FoundIn(st.nv, k, if i.Some? && i.value < |st.nv| then i else None)
    ensures FoundIn(st.vol, k, if i.Some? && i.value >= |st.nv| then Some(i.value - |st.nv|) else None)
  {
    hide Stack, LiveFor, OneStore;
    var all, n := All(st), |st.nv|;
    forall j | 0 <= j < |st.vol| ensures all[n + j] == st.vol[j] {}
    forall j | 0 <= j < n ensures st.nv[j] == all[j] {}
    match i
    case None => StackEmpty(all, k);
    case Some(x) => if x >= n { NoneInNv(st, k, x - n); }
  }

  /** A boot-time lookup shows the newest live value. */
  lemma LookupIsView(st: Stores, k: Key)
    requires Good(st) && k.name != []
    ensures Lookup(st, BootQuery(k)) == View(st, k)
  {
    hide Stack, Find, Ordered;
    FindsNewest(st, k);
    var found := Find(st, BootQuery(k));
    if found.Some? {
      var w := found.value;
      NewestIsTop(LogOf(st, w.volatile), k, w.place);
      StackEmpty(LogOf(st, !w.volatile), k);
    }
  }

  // ---- what an update does

  /** One of the two stores gets a new log. */
  lemma WithLogValues(st: Stores, v: bool, log: seq<Record>, k: Key)
    requires OneStore(st)
    ensures Values(st, k) == if Stack(LogOf(st, !v), k) == [] then Stack(LogOf(st, v), k) else Stack(LogOf(st, !v), k)
    ensures Stack(LogOf(st, !v), k) == [] || Stack(LogOf(st, v), k) == []
    ensures Stack(log, k) == [] || Stack(LogOf(st, !v), k) == [] ==>
      Values(WithLog(st, v, log), k) == if Stack(LogOf(st, !v), k) == [] then Stack(log, k) else Stack(LogOf(st, !v), k)
  {
    hide Stack;
  }

  lemma WithLogGood(st: Stores, v: bool, log: seq<Record>)
    requires Good(st) && Ordered(log)
    requires forall k :: Stack(log, k) == [] || Stack(LogOf(st, !v), k) == []
    ensures Good(WithLog(st, v, log))
  {
    hide Stack, Ordered;
  }

  /** The possible results of writing a new record. */
  datatype Way = Replacing | NoPool | Reclaiming | Full

  predicate Stored(way: Way)
  {
    way.Replacing? || way.Reclaiming?
  }

  function WayOf(cfg: Config, st: Stores, r: Record, place: Option<nat>, pool: bool): Way
    requires place.Some? ==> place.value < |LogOf(st, IsVolatile(r.attributes))|
  {
    var v := IsVolatile(r.attributes);
    var log := LogOf(st, v);
    if Fits(cfg, WithLog(st, v, Marked(log, place)), r) then Replacing
    else if !pool then NoPool
    else if Fits(cfg, WithLog(st, v, ReclaimedFor(log, place)), r) then Reclaiming
    else Full
  }

  /** The log that r was written to, or not, in each of the ways. */
  function LogAfter(log: seq<Record>, r: Record, place: Option<nat>, way: Way): seq<Record>
    requires place.Some? ==> place.value < |log|
  {
    match way
    case Replacing => Replaced(log, r, place)
    case NoPool => Marked(log, place)
    case Reclaiming => ReclaimedFor(log, place) + [r]
    case Full => ReclaimedFor(log, place)
  }

  /** An update that gets as far as writing. */
  predicate Writes(st: Stores, r: Record, found: Option<Where>)
    requires found.Some? ==> Within(st, found.value)
  {
    !Deletes(r) && (found.Some? ==> RecordAt(st, found.value).data != r.data)
  }

  lemma UpdateWrites(cfg: Config, st: Stores, r: Record, found: Option<Where>, pool: bool)
    requires (found.Some? ==> Within(st, found.value)) && KeepsStore(st, r, found) && Writes(st, r, found)
    ensures
      var v := IsVolatile(r.attributes);
      var place := PlaceIn(found, v);
      var way := WayOf(cfg, st, r, place, pool);
      Update(cfg, st, r, found, false, pool)
      == (WithLog(st, v, LogAfter(LogOf(st, v), r, place, way)), if Stored(way) then Success else OutOfResources)
  {
    hide And, Reclaimed, RecordSize, End, Clear;
    var v := IsVolatile(r.attributes);
    if found.Some? {
      assert found.value == Where(v, found.value.place);
      assert Retire(st, found.value, VAR_IN_DELETED_TRANSITION) == WithLog(st, v, Marked(LogOf(st, v), PlaceIn(found, v)));
    } else {
      assert st == WithLog(st, v, LogOf(st, v));
    }
  }

  /** What becomes of the values of a key in the store that was written to; own: it is the key of the new record. */
  function StackAfter(s: seq<Value>, way: Way, own: bool, v: Value): (t: seq<Value>)
    ensures |s| <= 2 ==> |t| <= 2
    ensures |s| <= 1 && !(own && way.Reclaiming?) ==> |t| <= 1
    ensures way.Reclaiming? && !own ==> |t| <= 1
    ensures t == [] ==> s == []
    ensures s != [] && !(own && Stored(way)) ==> t != [] && t[|t| - 1] == s[|s| - 1]
    ensures own && Stored(way) ==> t != [] && t[|t| - 1] == v
    ensures s == [] && !own ==> t == []
    ensures s == [] && !Stored(way) ==> t == []
  {
    match way
    case Replacing => if own then Below(s) + [v] else s
    case NoPool => s
    case Reclaiming => Top(s) + if own then [v] else []
    case Full => Top(s)
  }

  lemma LogAfterOrdered(log: seq<Record>, r: Record, place: Option<nat>, way: Way)
    requires Ordered(log) && FoundIn(log, KeyOf(r), place) && r.state == VAR_ADDED
    ensures Ordered(LogAfter(log, r, place, way))
  {
    hide Ordered, NoneAdded;
    match way
    case Replacing => ReplacedOrdered(log, r, place);
    case NoPool => MarkedLog(log, KeyOf(r), place);
    case Reclaiming =>
      ReclaimedForLog(log, KeyOf(r), place);
      AppendOrdered(ReclaimedFor(log, place), r);
    case Full => ReclaimedForLog(log, KeyOf(r), place);
  }

  lemma LogAfterStacks(log: seq<Record>, r: Record, place: Option<nat>, way: Way, k: Key)
    requires Ordered(log) && FoundIn(log, KeyOf(r), place) && r.state == VAR_ADDED
    ensures Stack(LogAfter(log, r, place, way), k) == StackAfter(Stack(log, k), way, k == KeyOf(r), ValueOf(r))
  {
    hide Ordered, Stack;
    match way
    case Replacing => ReplacedStacks(log, r, place, k);
    case NoPool => MarkedStacks(log, KeyOf(r), place, k);
    case Reclaiming =>
      ReclaimedForStacks(log, KeyOf(r), place, k);
      AppendStacks(ReclaimedFor(log, place), r, k);
    case Full => ReclaimedForStacks(log, KeyOf(r), place, k);
  }

  /** The key has no live record outside the given store. */
  predicate Home(st: Stores, v: bool, k: Key)
  {
    Stack(LogOf(st, !v), k) == []
  }

  /** The state and the values after writing in the given store. */
  lemma AfterWrite(st: Stores, r: Record, place: Option<nat>, way: Way)
    requires Good(st) && r.state == VAR_ADDED
    requires var v := IsVolatile(r.attributes); FoundIn(LogOf(st, v), KeyOf(r), place) && Home(st, v, KeyOf(r))
    ensures
      var v := IsVolatile(r.attributes);
      var st1 := WithLog(st, v, LogAfter(LogOf(st, v), r, place, way));
      && Good(st1)
      && forall k :: Values(st1, k) == if Home(st, v, k) then StackAfter(Values(st, k), way, k == KeyOf(r), ValueOf(r)) else Values(st, k)
  {
    hide Stack, Ordered, StackAfter, LogAfter, Values, IsVolatile, Newest;
    var v := IsVolatile(r.attributes);
    var log := LogOf(st, v);
    assert place.Some? ==> place.value < |log| by { PlaceWithin(log, KeyOf(r), place); }
    var log1 := LogAfter(log, r, place, way);
    LogAfterOrdered(log, r, place, way);
    forall k ensures Stack(log1, k) == StackAfter(Stack(log, k), way, k == KeyOf(r), ValueOf(r)) {
      LogAfterStacks(log, r, place, way, k);
    }
    forall k ensures Stack(log1, k) == [] || Stack(LogOf(st, !v), k) == [] {}
    WithLogGood(st, v, log1);
    forall k ensures Values(WithLog(st, v, log1), k) == if Home(st, v, k) then StackAfter(Values(st, k), way, k == KeyOf(r), ValueOf(r)) else Values(st, k) {
      WithLogValues(st, v, log1, k);
    }
  }

  /** A found record is the newest of its key; the other store has none. */
  lemma FoundHome(st: Stores, r: Record)
    requires Good(st) && r.name != []
    ensures var found := FindFor(st, r, false);
      && (found.None? ==> Values(st, KeyOf(r)) == [] && Home(st, false, KeyOf(r)) && Home(st, true, KeyOf(r)))
      && (found.Some? ==> Home(st, found.value.volatile, KeyOf(r)))
      && (found.Some? ==> Newest(LogOf(st, found.value.volatile), KeyOf(r), found.value.place))
      && View(st, KeyOf(r)) == (if found.Some? then Some(ValueOf(RecordAt(st, found.value))) else None)
      && FoundIn(st.nv, KeyOf(r), PlaceIn(found, false)) && FoundIn(st.vol, KeyOf(r), PlaceIn(found, true))
  {
    hide Stack, Find, Ordered;
    var k := KeyOf(r);
    var found := FindFor(st, r, false);
    FindsNewest(st, k);
    StackEmpty(st.nv, k);
    StackEmpty(st.vol, k);
    if found.Some? {
      NewestIsTop(LogOf(st, found.value.volatile), k, found.value.place);
    }
  }

  lemma AfterDelete(st: Stores, w: Where, key: Key)
    requires Good(st) && Newest(LogOf(st, w.volatile), key, w.place) && Home(st, w.volatile, key)
    ensures var st1 := Retire(st, w, VAR_DELETED);
      Good(st1) && forall k :: Values(st1, k) == if k == key then Below(Values(st, k)) else Values(st, k)
  {
    hide Stack, Ordered, Clear;
    var v, log := w.volatile, LogOf(st, w.volatile);
    var log1 := Clear(log, w.place, VAR_DELETED);
    FoundLive(log, key, w.place);
    ClearOrdered(log, w.place, VAR_DELETED);
    forall k ensures Stack(log1, k) == if k == key then Below(Stack(log, k)) else Stack(log, k) {
      DeleteStacks(log, w.place, k);
    }
    WithLogGood(st, v, log1);
  }

  // ---- the law of one call

  /** What a boot-time update does to the values of every key. */
  ghost predicate Obeys(st: Stores, r: Record, st1: Stores, s: Status)
  {
    var key, v := KeyOf(r), IsVolatile(r.attributes);
    var vals := Values(st, key);
    if Deletes(r) then
      && s == (if vals == [] then NotFound else Success)
      && forall k :: Values(st1, k) == if k == key then Below(Values(st, k)) else Values(st, k)
    else if vals != [] && vals[|vals| - 1].data == r.data then s == Success && st1 == st
    else
      && s in {Success, OutOfResources}
      && exists way :: (s == Success <==> Stored(way)) && Follows(st, st1, v, way, key, ValueOf(r))
  }

  ghost predicate Follows(st: Stores, st1: Stores, v: bool, way: Way, key: Key, value: Value)
  {
    && Home(st, v, key)
    && forall k :: Values(st1, k) == if Home(st, v, k) then StackAfter(Values(st, k), way, k == key, value) else Values(st, k)
  }

  /** Every boot-time update keeps the invariant and obeys the law. */
  lemma UpdateObeys(cfg: Config, st: Stores, r: Record, pool: bool)
    requires Good(st) && r.state == VAR_ADDED && r.name != [] && KeepsStore(st, r, FindFor(st, r, false))
    ensures var (st1, s) := Update(cfg, st, r, FindFor(st, r, false), false, pool);
      Good(st1) && Obeys(st, r, st1, s)
  {
    hide Stack, Ordered, Find, StackAfter, LogAfter, WayOf, Home;
    var found := FindFor(st, r, false);
    FoundHome(st, r);
    if !Deletes(r) && Writes(st, r, found) {
      WriteObeys(cfg, st, r, pool);
    } else if Deletes(r) && found.Some? {
      AfterDelete(st, found.value, KeyOf(r));
    } else {
      hide Values;
    }
  }

  lemma WriteObeys(cfg: Config, st: Stores, r: Record, pool: bool)
    requires Good(st) && r.state == VAR_ADDED && r.name != [] && KeepsStore(st, r, FindFor(st, r, false))
    requires Writes(st, r, FindFor(st, r, false))
    ensures var (st1, s) := Update(cfg, st, r, FindFor(st, r, false), false, pool);
      Good(st1) && Obeys(st, r, st1, s)
  {
    hide Stack, Ordered, Find, Home, Update, Good, WayFor, Follows, IsVolatile;
    FoundHome(st, r);
    WriteFollows(cfg, st, r, pool);
  }

  /** The way in which a boot-time update writes. */
  function WayFor(cfg: Config, st: Stores, r: Record, pool: bool): Way
    requires KeepsStore(st, r, FindFor(st, r, false)) && Writes(st, r, FindFor(st, r, false))
  {
    WayOf(cfg, st, r, PlaceIn(FindFor(st, r, false), IsVolatile(r.attributes)), pool)
  }

  lemma WriteFollows(cfg: Config, st: Stores, r: Record, pool: bool)
    requires Good(st) && r.state == VAR_ADDED && r.name != [] && KeepsStore(st, r, FindFor(st, r, false))
    requires Writes(st, r, FindFor(st, r, false))
    ensures
      var (st1, s) := Update(cfg, st, r, FindFor(st, r, false), false, pool);
      var way := WayFor(cfg, st, r, pool);
      && Good(st1) && s == (if Stored(way) then Success else OutOfResources)
      && Follows(st, st1, IsVolatile(r.attributes), way, KeyOf(r), ValueOf(r))
  {
    hide Stack, Ordered, Find, StackAfter, LogAfter, WayOf, Home, Update, Good;
    var found, v := FindFor(st, r, false), IsVolatile(r.attributes);
    FoundHome(st, r);
    UpdateWrites(cfg, st, r, found, pool);
    AfterWrite(st, r, PlaceIn(found, v), WayFor(cfg, st, r, pool));
  }

  /** No key has more than two live values. */
  ghost predicate Shallow(st: Stores)
  {
    forall k :: |Values(st, k)| <= 2
  }

  /** What the law means for lookups. */
  lemma ObeysViews(st: Stores, r: Record, st1: Stores, s: Status, k: Key)
    requires Obeys(st, r, st1, s)
    ensures k != KeyOf(r) ==> View(st1, k) == View(st, k)
    ensures s != Success ==> View(st1, k) == View(st, k)
    ensures k == KeyOf(r) && s == Success && !Deletes(r) ==>
      View(st1, k) == if View(st, k).Some? && View(st, k).value.data == r.data then View(st, k) else Some(ValueOf(r))
    ensures |Values(st, k)| <= 2 ==> |Values(st1, k)| <= 2
  {
    hide Stack, Values, StackAfter, Home, IsVolatile;
    var vals := Values(st, KeyOf(r));
    if Deletes(r) {
      assert Values(st1, k) == if k == KeyOf(r) then Below(Values(st, k)) else Values(st, k);
    } else if vals == [] || vals[|vals| - 1].data != r.data {
      var way :| (s == Success <==> Stored(way)) && Follows(st, st1, IsVolatile(r.attributes), way, KeyOf(r), ValueOf(r));
    }
  }

  /** A delete that succeeds removes the variable if and only if it has one live record. */
  lemma DeleteRemoves(st: Stores, r: Record, st1: Stores)
    requires Obeys(st, r, st1, Success) && Deletes(r)
    ensures View(st1, KeyOf(r)) == None <==> |Values(st, KeyOf(r))| == 1
    ensures |Values(st, KeyOf(r))| >= 2 ==>
      View(st1, KeyOf(r)) == Some(Values(st, KeyOf(r))[|Values(st, KeyOf(r))| - 2])
  {
    hide Stack, Values;
    assert Values(st1, KeyOf(r)) == Below(Values(st, KeyOf(r)));
  }

  // ---- runs

  datatype Call = Call(req: Request, pool: bool)

  /** The calls a run may consist of: none sets a language variable or moves a variable between the stores. */
  predicate Admissible(cfg: Config, st: Stores, c: Call)
  {
    && c.req.Valid() && !HooksLanguage(c.req)
    && (!Refused(cfg, c.req) ==> var r := RecordOf(cfg, c.req); KeepsStore(st, r, FindFor(st, r, false)))
  }

  function Step(cfg: Config, st: Stores, c: Call): (Stores, Status)
    requires Admissible(cfg, st, c)
  {
    SetVariable(cfg, st, c.req, false, c.pool)
  }

  predicate RunAdmissible(cfg: Config, st: Stores, calls: seq<Call>)
    decreases |calls|
  {
    calls != [] ==> Admissible(cfg, st, calls[0]) && RunAdmissible(cfg, Step(cfg, st, calls[0]).0, calls[1..])
  }

  function Run(cfg: Config, st: Stores, calls: seq<Call>): Stores
    requires RunAdmissible(cfg, st, calls)
    decreases |calls|
  {
    if calls == [] then st else Run(cfg, Step(cfg, st, calls[0]).0, calls[1..])
  }

  predicate IsFor(c: Call, k: Key)
  {
    c.req.name == Some(k.name) && c.req.guid == Some(k.guid)
  }

  /** The call succeeded in setting k, or in deleting it. */
  predicate Sets(cfg: Config, st: Stores, c: Call, k: Key)
    requires Admissible(cfg, st, c)
  {
    IsFor(c, k) && Step(cfg, st, c).1 == Success && !Deletes(RecordOf(cfg, c.req))
  }

  predicate Erases(cfg: Config, st: Stores, c: Call, k: Key)
    requires Admissible(cfg, st, c)
  {
    IsFor(c, k) && Step(cfg, st, c).1 == Success && Deletes(RecordOf(cfg, c.req))
  }

  /** The data of the last successful set of k, unless a successful delete of k followed; known is what held before. */
  function LastSet(cfg: Config, st: Stores, calls: seq<Call>, k: Key, known: Option<seq<uint8>>): Option<seq<uint8>>
    requires RunAdmissible(cfg, st, calls)
    decreases |calls|
  {
    if calls == [] then known
    else
      var c := calls[0];
      LastSet(cfg, Step(cfg, st, c).0, calls[1..], k, Known(cfg, st, c, k, known))
  }

  function Known(cfg: Config, st: Stores, c: Call, k: Key, known: Option<seq<uint8>>): Option<seq<uint8>>
    requires Admissible(cfg, st, c)
  {
    if Sets(cfg, st, c, k) then Some(RecordOf(cfg, c.req).data) else if Erases(cfg, st, c, k) then None else known
  }

  /** One call: the invariant, the depth of the stacks, and what is shown for k. */
  lemma StepLaw(cfg: Config, st: Stores, c: Call, k: Key)
    requires Good(st) && Admissible(cfg, st, c)
    ensures var st1 := Step(cfg, st, c).0;
      && Good(st1)
      && (|Values(st, k)| <= 2 ==> |Values(st1, k)| <= 2)
      && (!Erases(cfg, st, c, k) && !Sets(cfg, st, c, k) ==> View(st1, k) == View(st, k))
      && (Sets(cfg, st, c, k) ==> View(st1, k).Some? && View(st1, k).value.data == RecordOf(cfg, c.req).data)
  {
    hide Good, Update, View, Find, Values, And, Obeys;
    if !Refused(cfg, c.req) {
      var r := RecordOf(cfg, c.req);
      UpdateObeys(cfg, st, r, c.pool);
      var (st1, s) := Step(cfg, st, c);
      ObeysViews(st, r, st1, s, k);
    }
  }

  /**
   Over every run, a lookup shows the data of the last successful set of its key
   unless a delete followed, and the invariant holds at the end.
   */
  lemma {:induction false} RunShowsLastSet(cfg: Config, st: Stores, calls: seq<Call>, k: Key, known: Option<seq<uint8>>)
    requires Good(st) && RunAdmissible(cfg, st, calls)
    requires known.Some? ==> View(st, k).Some? && View(st, k).value.data == known.value
    ensures var st1 := Run(cfg, st, calls);
      && Good(st1)
      && (LastSet(cfg, st, calls, k, known).Some? ==>
            View(st1, k).Some? && View(st1, k).value.data == LastSet(cfg, st, calls, k, known).value)
    decreases |calls|
  {
    hide Good, View, Admissible, Step;
    if calls != [] {
      var c := calls[0];
      StepLaw(cfg, st, c, k);
      RunShowsLastSet(cfg, Step(cfg, st, c).0, calls[1..], k, Known(cfg, st, c, k, known));
    }
  }

  /** Calls for other keys change neither data nor attributes, whatever they reclaim. */
  lemma {:induction false} RunLeavesOthers(cfg: Config, st: Stores, calls: seq<Call>, k: Key)
    requires Good(st) && RunAdmissible(cfg, st, calls) && forall i :: 0 <= i < |calls| ==> !IsFor(calls[i], k)
    ensures View(Run(cfg, st, calls), k) == View(st, k)
    decreases |calls|
  {
    hide Good, View, Admissible, Step;
    if calls != [] {
      StepLaw(cfg, st, calls[0], k);
      RunLeavesOthers(cfg, Step(cfg, st, calls[0]).0, calls[1..], k);
    }
  }

  /** No run makes a stack deeper than two, so two deletes in a row always remove a variable. */
  lemma {:induction false} RunStaysShallow(cfg: Config, st: Stores, calls: seq<Call>)
    requires Good(st) && Shallow(st) && RunAdmissible(cfg, st, calls)
    ensures Shallow(Run(cfg, st, calls)) && Good(Run(cfg, st, calls))
    decreases |calls|
  {
    hide Good, View, Admissible, Step, Values;
    if calls != [] {
      var st1 := Step(cfg, st, calls[0]).0;
      assert Good(st1) by { StepLaw(cfg, st, calls[0], Key([], seq(16, _ => 0))); }
      forall k ensures |Values(st1, k)| <= 2 { StepLaw(cfg, st, calls[0], k); }
      RunStaysShallow(cfg, st1, calls[1..]);
    }
  }

  lemma DeleteTwice(cfg: Config, st: Stores, r: Record, pool: bool)
    requires Good(st) && Shallow(st) && r.state == VAR_ADDED && r.name != [] && Deletes(r)
    ensures
      var st1 := Update(cfg, st, r, FindFor(st, r, false), false, pool).0;
      var st2 := Update(cfg, st1, r, FindFor(st1, r, false), false, pool).0;
      View(st2, KeyOf(r)) == None
  {
    hide Good, Update, Find, Values, And, Deletes;
    UpdateObeys(cfg, st, r, pool);
    var st1 := Update(cfg, st, r, FindFor(st, r, false), false, pool).0;
    UpdateObeys(cfg, st1, r, pool);
    assert Values(st1, KeyOf(r)) == Below(Values(st, KeyOf(r)));
  }

  // ---- deletes after updates

  /**
   An update that had to reclaim keeps the old record in transition: deleting the
   variable then brings the old value back.
   */
  lemma DeleteResurrects(cfg: Config, st: Stores, r: Record, d: Record, pool: bool)
    requires Good(st) && r.state == d.state == VAR_ADDED && r.name != [] && KeyOf(d) == KeyOf(r) && Deletes(d)
    requires KeepsStore(st, r, FindFor(st, r, false)) && Writes(st, r, FindFor(st, r, false))
    requires WayFor(cfg, st, r, pool) == Reclaiming
    ensures
      var (st1, s1) := Update(cfg, st, r, FindFor(st, r, false), false, pool);
      var (st2, s2) := Update(cfg, st1, d, FindFor(st1, d, false), false, pool);
      && s1 == s2 == Success
      && View(st1, KeyOf(r)) == Some(ValueOf(r)) && View(st2, KeyOf(r)) == View(st, KeyOf(r))
  {
    hide Good, Update, Find, Stack, Deletes, WayFor, IsVolatile, Home, KeepsStore, Writes, Values;
    WriteFollows(cfg, st, r, pool);
    var st1 := Update(cfg, st, r, FindFor(st, r, false), false, pool).0;
    DeleteKeepsStore(st1, d, FindFor(st1, d, false));
    UpdateObeys(cfg, st1, d, pool);
    var k := KeyOf(r);
    assert Values(st1, k) == Top(Values(st, k)) + [ValueOf(r)];
  }

  lemma DeleteKeepsStore(st: Stores, d: Record, found: Option<Where>)
    requires (found.Some? ==> Within(st, found.value)) && Deletes(d)
    ensures KeepsStore(st, d, found)
  {
  }

  // ---- interrupted updates

  /** The stores after each write of an update that needs no reclaim: mark, append, delete. */
  function Writing(st: Stores, r: Record, found: Option<Where>, writes: nat): Stores
    requires found.Some? ==> Within(st, found.value)
    requires KeepsStore(st, r, found) && Writes(st, r, found)
  {
    var v := IsVolatile(r.attributes);
    var log, place := LogOf(st, v), PlaceIn(found, v);
    if writes == 0 then st
    else if writes == 1 then WithLog(st, v, Marked(log, place))
    else if writes == 2 then WithLog(st, v, Marked(log, place) + [r])
    else WithLog(st, v, Replaced(log, r, place))
  }

  /** The stores after the writes of such an update, one after the other. */
  function Trace(st: Stores, r: Record, found: Option<Where>): seq<Stores>
    requires found.Some? ==> Within(st, found.value)
    requires KeepsStore(st, r, found) && Writes(st, r, found)
  {
    if found.None? then [Writing(st, r, found, 2)]
    else [Writing(st, r, found, 1), Writing(st, r, found, 2), Writing(st, r, found, 3)]
  }

  /** The writes: mark the found record, append the new one, delete the found one. */
  lemma TraceIs(st: Stores, r: Record, found: Option<Where>)
    requires (found.Some? ==> Within(st, found.value)) && KeepsStore(st, r, found) && Writes(st, r, found)
    ensures Trace(st, r, found) ==
      if found.None? then [Append(st, r)]
      else
        var marked := Retire(st, found.value, VAR_IN_DELETED_TRANSITION);
        [marked, Append(marked, r), Retire(Append(marked, r), found.value, VAR_DELETED)]
  {
    hide And, Deletes;
    var v := IsVolatile(r.attributes);
    if found.Some? {
      assert found.value == Where(v, found.value.place);
    } else {
      assert st == WithLog(st, v, LogOf(st, v));
    }
  }

  /**
   Stopping after any write leaves the invariant and a lookup that shows the old
   value before the second write and the new one from then on.
   */
  lemma InterruptedUpdate(cfg: Config, st: Stores, r: Record, pool: bool, writes: nat, k: Key)
    requires Good(st) && r.state == VAR_ADDED && r.name != []
    requires KeepsStore(st, r, FindFor(st, r, false)) && Writes(st, r, FindFor(st, r, false))
    requires WayFor(cfg, st, r, pool) == Replacing
    ensures var st1 := Writing(st, r, FindFor(st, r, false), writes);
      Good(st1) && View(st1, k) == if k == KeyOf(r) && writes >= 2 then Some(ValueOf(r)) else View(st, k)
    ensures Update(cfg, st, r, FindFor(st, r, false), false, pool) == (Writing(st, r, FindFor(st, r, false), 3), Success)
  {
    hide Good, Update, Find, Stack, Deletes, WayOf, FoundIn, Replaced, Marked, IsVolatile, StackAfter, Home, And, Values;
    var found, v := FindFor(st, r, false), IsVolatile(r.attributes);
    var place := PlaceIn(found, v);
    FoundHome(st, r);
    UpdateWrites(cfg, st, r, found, pool);
    if writes == 1 {
      AfterWrite(st, r, place, NoPool);
    } else if writes == 2 {
      AfterAppend(st, r, place);
    } else if writes > 2 {
      AfterWrite(st, r, place, Replacing);
    }
  }

  /** Between the append and the delete, the old record is in transition below the new one. */
  lemma AfterAppend(st: Stores, r: Record, place: Option<nat>)
    requires Good(st) && r.state == VAR_ADDED
    requires var v := IsVolatile(r.attributes); FoundIn(LogOf(st, v), KeyOf(r), place) && Home(st, v, KeyOf(r))
    ensures
      var v := IsVolatile(r.attributes);
      var st1 := WithLog(st, v, Marked(LogOf(st, v), place) + [r]);
      && Good(st1)
      && forall k :: Values(st1, k) == if k == KeyOf(r) then Values(st, k) + [ValueOf(r)] else Values(st, k)
  {
    hide Stack, Ordered, Values, IsVolatile, Newest, Marked;
    var v := IsVolatile(r.attributes);
    var log := LogOf(st, v);
    PlaceWithin(log, KeyOf(r), place);
    MarkedLog(log, KeyOf(r), place);
    var log1 := Marked(log, place) + [r];
    AppendOrdered(Marked(log, place), r);
    forall k ensures Stack(log1, k) == Stack(log, k) + if k == KeyOf(r) then [ValueOf(r)] else [] {
      MarkedStacks(log, KeyOf(r), place, k);
      AppendStacks(Marked(log, place), r, k);
    }
    forall k ensures Stack(log1, k) == [] || Stack(LogOf(st, !v), k) == [] {}
    WithLogGood(st, v, log1);
    forall k ensures Values(WithLog(st, v, log1), k) == if k == KeyOf(r) then Values(st, k) + [ValueOf(r)] else Values(st, k) {
      WithLogValues(st, v, log1, k);
    }
  }

  // ---- reclaiming a store

  /** Reclaim by itself changes no lookup, whichever record is the current one. */
  lemma ReclaimLaw(st: Stores, v: bool, cur: Option<nat>, k: Key)
    requires Good(st)
    ensures var st1 := WithLog(st, v, Reclaimed(LogOf(st, v), cur)); Good(st1) && View(st1, k) == View(st, k)
  {
    hide Stack, Ordered, Reclaimed;
    var log := LogOf(st, v);
    ReclaimDistinct(log, cur);
    forall k' ensures Stack(Reclaimed(log, cur), k') == Top(Stack(log, k')) { ReclaimKeepsTop(log, cur, k'); }
    WithLogGood(st, v, Reclaimed(log, cur));
  }
}
