/**
 The variable services at runtime, where records without runtime access are
 not seen: what lookups show, and what becomes of sets and deletes at the next
 boot.
 */
module VariableRuntime {
  import opened Words
  import opened Bytes
  import opened VariableLog
  import opened VariableLayout
  import opened VariableService
  import opened VariableLaws

  // ---- lookups

  function RuntimeQuery(k: Key): Query
  {
    Query(k.name, k.guid, true)
  }

  /** The newest value of the key, if any, may be seen at runtime. */
  predicate Unhidden(st: Stores, k: Key)
  {
    View(st, k).Some? ==> And(View(st, k).value.attributes, RUNTIME_ACCESS) != 0
  }

  /** A runtime lookup shows the newest live value that has runtime access, and nothing exactly if there is none. */
  lemma RuntimeLookup(st: Stores, k: Key)
    requires Good(st) && k.name != []
    ensures match Search(All(st), RuntimeQuery(k))
      case Some(i) => NewestVisible(All(st), k, true, i) && Lookup(st, RuntimeQuery(k)) == Some(ValueOf(All(st)[i]))
      case None => Lookup(st, RuntimeQuery(k)) == None && forall j :: 0 <= j < |All(st)| ==> !VisibleFor(All(st)[j], k, true)
  {
    hide Stack, Ordered, OrderedFor, Search, And;
    GoodIsOrdered(st);
    OrderedForAll(All(st), k);
    SearchFindsVisible(All(st), k, true);
  }

  /** Boot time and runtime find the same record exactly if the newest value is not hidden. */
  lemma RuntimeFindIff(st: Stores, k: Key)
    requires Good(st) && k.name != []
    ensures Find(st, RuntimeQuery(k)) == Find(st, BootQuery(k)) <==> Unhidden(st, k)
  {
    hide Stack, Ordered, OrderedFor, Search, And;
    var all := All(st);
    GoodIsOrdered(st);
    OrderedForAll(all, k);
    SearchFindsVisible(all, k, true);
    SearchFindsVisible(all, k, false);
    LookupIsView(st, k);
    var i := Search(all, BootQuery(k));
    if i.Some? && Accessible(all[i.value], true) {
      assert NewestVisible(all, k, true, i.value);
    }
  }

  /** The runtime lookup shows what the boot-time lookup shows exactly if the newest value is not hidden. */
  lemma RuntimeViewIff(st: Stores, k: Key)
    requires Good(st) && k.name != []
    ensures Lookup(st, RuntimeQuery(k)) == View(st, k) <==> Unhidden(st, k)
  {
    hide Good, Find, And, View;
    RuntimeFindIff(st, k);
    LookupIsView(st, k);
    if Lookup(st, RuntimeQuery(k)).Some? { ShownIsAccessible(st, k); }
  }

  lemma ShownIsAccessible(st: Stores, k: Key)
    requires Good(st) && k.name != [] && Lookup(st, RuntimeQuery(k)).Some?
    ensures And(Lookup(st, RuntimeQuery(k)).value.attributes, RUNTIME_ACCESS) != 0
  {
    hide Good, Search, And;
    RuntimeLookup(st, k);
  }

  /** A runtime update is refused, or does what a boot-time update does that gets no buffer for Reclaim. */
  lemma RuntimeUpdate(cfg: Config, st: Stores, r: Record, found: Option<Where>, pool: bool)
    requires (found.Some? ==> Within(st, found.value)) && KeepsStore(st, r, found)
    ensures Update(cfg, st, r, found, true, pool) ==
      if found.Some? && found.value.volatile then (st, WriteProtected)
      else if found.Some? && IsVolatile(RecordAt(st, found.value).attributes) then (st, InvalidParameter)
      else if found.None? && !Deletes(r) && (And(r.attributes, RUNTIME_ACCESS) == 0 || IsVolatile(r.attributes)) then (st, InvalidParameter)
      else Update(cfg, st, r, found, false, false)
  {
    hide And, Fits, Retire, ReclaimFor;
  }

  /** As long as no newer value is hidden, runtime updates keep the invariant and obey the law of boot-time updates. */
  lemma RuntimeObeys(cfg: Config, st: Stores, r: Record, pool: bool)
    requires Good(st) && r.state == VAR_ADDED && r.name != [] && KeepsStore(st, r, FindFor(st, r, true))
    requires Unhidden(st, KeyOf(r))
    ensures var (st1, s) := Update(cfg, st, r, FindFor(st, r, true), true, pool);
      Good(st1) && ((st1 == st && s in {WriteProtected, InvalidParameter}) || Obeys(st, r, st1, s))
  {
    hide Good, Obeys, Find, And, Update, View, Deletes, IsVolatile;
    RuntimeFindIff(st, KeyOf(r));
    RuntimeUpdate(cfg, st, r, FindFor(st, r, true), pool);
    UpdateObeys(cfg, st, r, false);
  }


  // ---- which record a boot-time lookup finds after a runtime set

  /** Boot time finds an added non-volatile record that is not seen at runtime. */
  predicate Shadowed(st: Stores, k: Key)
  {
    match Find(st, BootQuery(k))
    case None => false
    case Some(w) => !w.volatile && RecordAt(st, w).state == VAR_ADDED && !Accessible(RecordAt(st, w), true)
  }

  /** The non-volatile records with the found one dead. */
  function Superseded(nv: seq<Record>, found: Option<Where>): seq<Record>
    requires found.Some? ==> found.value.place < |nv|
  {
    if found.None? then nv
    else
      var i := found.value.place;
      nv[i := WithState(nv[i], And(And(nv[i].state, VAR_IN_DELETED_TRANSITION), VAR_DELETED))]
  }

  /** A runtime set that writes appends its record to the non-volatile store. */
  lemma RuntimeWrites(cfg: Config, st: Stores, r: Record, pool: bool)
    requires Good(st) && r.state == VAR_ADDED && r.name != [] && KeepsStore(st, r, FindFor(st, r, true))
    requires Writes(st, r, FindFor(st, r, true)) && Update(cfg, st, r, FindFor(st, r, true), true, pool).1 == Success
    ensures
      var found := FindFor(st, r, true);
      && (found.Some? ==> !found.value.volatile && found.value.place < |st.nv|)
      && Update(cfg, st, r, found, true, pool).0 == Stores(Superseded(st.nv, found) + [r], st.vol)
  {
    hide Find, And, Good, Fits, Update;
    var found := FindFor(st, r, true);
    RuntimeUpdate(cfg, st, r, found, pool);
    UpdateWrites(cfg, st, r, found, false);
    if found.Some? {
      var i := found.value.place;
      assert Replaced(st.nv, r, Some(i)) == Superseded(st.nv, found) + [r];
    }
  }

  /** The first added record of the key before r, or else r. */
  lemma SearchAfterSet(pre: seq<Record>, r: Record, post: seq<Record>)
    requires r.state == VAR_ADDED && r.name != []
    ensures
      var q := BootQuery(KeyOf(r));
      Search(pre + [r] + post, q) == if FirstAdded(pre, q, 0).Some? then FirstAdded(pre, q, 0) else Some(|pre|)
  {
    hide FirstAdded, LastInTransition, Matches, KeyOf;
    var q, rest := BootQuery(KeyOf(r)), [r] + post;
    assert pre + [r] + post == pre + rest;
    assert rest[0] == r && rest != [];
    FoundAtOnce(rest, q, r);
    FirstAddedConcat(pre, rest, q, 0);
  }

  lemma FoundAtOnce(log: seq<Record>, q: Query, r: Record)
    requires log != [] && log[0] == r && r.state == VAR_ADDED && q == BootQuery(KeyOf(r))
    ensures FirstAdded(log, q, 0) == Some(0)
  {
  }

  /** What boot time and runtime find of one key. */
  lemma BothFind(st: Stores, k: Key)
    requires Good(st) && k.name != []
    ensures var b, w := Find(st, BootQuery(k)), Find(st, RuntimeQuery(k));
      && (b.Some? ==> Newest(LogOf(st, b.value.volatile), k, b.value.place) && View(st, k) == Some(ValueOf(RecordAt(st, b.value))))
      && (b.None? ==> View(st, k) == None)
      && FoundIn(st.nv, k, PlaceIn(b, false)) && FoundIn(st.vol, k, PlaceIn(b, true))
      && (w.Some? ==> LiveFor(RecordAt(st, w.value), k) && Accessible(RecordAt(st, w.value), true) && b.Some? && b.value.volatile == w.value.volatile)
      && (w == b <==> (b.Some? ==> Accessible(RecordAt(st, b.value), true)))
  {
    hide Stack, Ordered, OrderedFor, Search, And;
    var all := All(st);
    FindsNewest(st, k);
    LookupIsView(st, k);
    RuntimeFindIff(st, k);
    GoodIsOrdered(st);
    OrderedForAll(all, k);
    SearchFindsVisible(all, k, true);
    StackEmpty(st.nv, k);
    StackEmpty(st.vol, k);
  }

  /** The added record of the key that is left before the new one is the one that shadows it. */
  lemma FirstAddedLeft(st: Stores, k: Key)
    requires Good(st) && k.name != []
    requires var w := Find(st, RuntimeQuery(k)); w.Some? ==> !w.value.volatile && w.value.place < |st.nv|
    ensures
      var w, b := Find(st, RuntimeQuery(k)), Find(st, BootQuery(k));
      FirstAdded(Superseded(st.nv, w), BootQuery(k), 0) == if Shadowed(st, k) then Some(b.value.place) else None
  {
    hide And, Search, FirstAdded, Stack, Find, OneStore, Superseded;
    BothFind(st, k);
    var w, b, q := Find(st, RuntimeQuery(k)), Find(st, BootQuery(k)), BootQuery(k);
    var pre := Superseded(st.nv, w);
    FirstAddedIs(pre, q, 0);
    var a := FirstAdded(pre, q, 0);
    if Shadowed(st, k) {
      var t := b.value.place;
      SupersededElsewhere(st.nv, w, t);
      assert pre[t] == st.nv[t] && Matches(pre[t], q);
      SupersededAdded(st.nv, w, a.value);
      assert a.value < t ==> !Clash(st.nv[a.value], st.nv[t]);
    } else {
      NoneLeft(st, k);
    }
  }

  /** Without a shadow, no added record of the key is left. */
  lemma NoneLeft(st: Stores, k: Key)
    requires Good(st) && k.name != [] && !Shadowed(st, k)
    requires var w := Find(st, RuntimeQuery(k)); w.Some? ==> !w.value.volatile && w.value.place < |st.nv|
    ensures FirstAdded(Superseded(st.nv, Find(st, RuntimeQuery(k))), BootQuery(k), 0) == None
  {
    hide And, Search, FirstAdded, Stack, Find, OneStore, Superseded, Shadowed;
    BothFind(st, k);
    var w, q := Find(st, RuntimeQuery(k)), BootQuery(k);
    var pre := Superseded(st.nv, w);
    FirstAddedIs(pre, q, 0);
    var a := FirstAdded(pre, q, 0);
    if a.Some? {
      SupersededAdded(st.nv, w, a.value);
      AddedIsNewest(st.nv, k, a.value);
      NotShadowing(st, k, a.value);
    }
  }

  lemma SupersededElsewhere(nv: seq<Record>, found: Option<Where>, i: nat)
    requires (found.Some? ==> found.value.place < |nv|) && i < |nv| && (found.Some? ==> i != found.value.place)
    ensures |Superseded(nv, found)| == |nv| && Superseded(nv, found)[i] == nv[i]
  {
  }

  /** An added record among those left is not the superseded one. */
  lemma SupersededAdded(nv: seq<Record>, found: Option<Where>, i: nat)
    requires (found.Some? ==> found.value.place < |nv| && Live(nv[found.value.place]))
    requires i < |Superseded(nv, found)| && Superseded(nv, found)[i].state == VAR_ADDED
    ensures i < |nv| && Superseded(nv, found)[i] == nv[i] && (found.Some? ==> i != found.value.place)
  {
    States();
    hide And;
  }

  /** Without a shadow, the newest non-volatile record, if it is added, is found at runtime too. */
  lemma NotShadowing(st: Stores, k: Key, i: nat)
    requires Good(st) && k.name != [] && !Shadowed(st, k) && Newest(st.nv, k, i) && st.nv[i].state == VAR_ADDED
    ensures Find(st, RuntimeQuery(k)) == Some(Where(false, i))
  {
    hide And, Search, Stack, Find;
    BothFind(st, k);
    assert Find(st, BootQuery(k)) == Some(Where(false, i));
  }

  lemma AddedIsNewest(log: seq<Record>, k: Key, i: nat)
    requires Ordered(log) && i < |log| && log[i].state == VAR_ADDED && KeyOf(log[i]) == k
    ensures Newest(log, k, i)
  {
    forall j | i < j < |log| ensures !LiveFor(log[j], k) { assert !Clash(log[i], log[j]); }
  }

  // ---- what becomes of a set

  /**
   After a successful runtime set, a boot-time lookup shows the new value, unless
   nothing was written or an added record that was not seen shadows it.
   */
  lemma RuntimeSetShows(cfg: Config, st: Stores, r: Record, pool: bool)
    requires Good(st) && r.state == VAR_ADDED && r.name != [] && !Deletes(r) && KeepsStore(st, r, FindFor(st, r, true))
    requires Update(cfg, st, r, FindFor(st, r, true), true, pool).1 == Success
    ensures
      var st1 := Update(cfg, st, r, FindFor(st, r, true), true, pool).0;
      Lookup(st1, BootQuery(KeyOf(r)))
      == if Writes(st, r, FindFor(st, r, true)) && !Shadowed(st, KeyOf(r)) then Some(ValueOf(r)) else View(st, KeyOf(r))
  {
    hide Good, Search, And, Fits, Deletes, View, Find, Update;
    var found, k := FindFor(st, r, true), KeyOf(r);
    if Writes(st, r, found) {
      RuntimeWrites(cfg, st, r, pool);
      ShowsAfterSet(st, r);
    } else {
      SameDataKept(cfg, st, r, found, pool);
      LookupIsView(st, k);
    }
  }

  lemma SameDataKept(cfg: Config, st: Stores, r: Record, found: Option<Where>, pool: bool)
    requires (found.Some? ==> Within(st, found.value)) && !Deletes(r) && !Writes(st, r, found)
    ensures Update(cfg, st, r, found, true, pool).0 == st
  {
    hide And, Write, Deletes;
  }

  lemma ShowsAfterSet(st: Stores, r: Record)
    requires Good(st) && r.state == VAR_ADDED && r.name != []
    requires var w := FindFor(st, r, true); w.Some? ==> !w.value.volatile && w.value.place < |st.nv|
    ensures
      var st1 := Stores(Superseded(st.nv, FindFor(st, r, true)) + [r], st.vol);
      Lookup(st1, BootQuery(KeyOf(r))) == if Shadowed(st, KeyOf(r)) then View(st, KeyOf(r)) else Some(ValueOf(r))
  {
    hide Good, And, View;
    var w, b, k := FindFor(st, r, true), Find(st, BootQuery(KeyOf(r))), KeyOf(r);
    var pre := Superseded(st.nv, w);
    BothFind(st, k);
    FirstAddedLeft(st, k);
    SearchAfterSet(pre, r, st.vol);
    hide Search, FirstAdded;
    assert All(Stores(pre + [r], st.vol)) == pre + [r] + st.vol;
    if Shadowed(st, k) { SupersededElsewhere(st.nv, w, b.value.place); }
  }

  /** A successful runtime set is lost at the next boot exactly if it wrote nothing or is shadowed, and other data showed before. */
  lemma RuntimeSetLostIff(cfg: Config, st: Stores, r: Record, pool: bool)
    requires Good(st) && r.state == VAR_ADDED && r.name != [] && !Deletes(r) && KeepsStore(st, r, FindFor(st, r, true))
    requires Update(cfg, st, r, FindFor(st, r, true), true, pool).1 == Success
    ensures
      var st1 := Update(cfg, st, r, FindFor(st, r, true), true, pool).0;
      var shown := Lookup(st1, BootQuery(KeyOf(r)));
      && shown.Some?
      && (shown.value.data != r.data <==>
            && (!Writes(st, r, FindFor(st, r, true)) || Shadowed(st, KeyOf(r)))
            && View(st, KeyOf(r)).Some? && View(st, KeyOf(r)).value.data != r.data)
  {
    hide Good, Find, And, Deletes, Update, Lookup, View;
    RuntimeSetShows(cfg, st, r, pool);
    BothFind(st, KeyOf(r));
  }

  // ---- the invariant after a runtime update

  /** Records of other keys may change or be added without effect on k. */
  lemma OtherInserted(a: seq<Record>, r: Record, b: seq<Record>, k: Key)
    requires KeyOf(r) != k && OrderedFor(a + b, k)
    ensures OrderedFor(a + [r] + b, k) && Stack(a + [r] + b, k) == Stack(a + b, k)
  {
    hide Stack, Clash;
    var log, old_ := a + [r] + b, a + b;
    forall i, j | 0 <= i < j < |log| && KeyOf(log[i]) == k ensures !Clash(log[i], log[j]) {
      var i', j' := if i < |a| then i else i - 1, if j < |a| then j else j - 1;
      assert log[i] == old_[i'];
      if j == |a| { OtherNoClash(log[i], r); } else { assert log[j] == old_[j']; }
    }
    StackConcat(a + [r], b, k);
    StackConcat(a, [r], k);
    StackConcat(a, b, k);
    StackOne(r, k);
  }

  lemma OtherNoClash(a: Record, b: Record)
    requires KeyOf(a) != KeyOf(b)
    ensures !Clash(a, b)
  {
  }

  lemma OtherChanged(log: seq<Record>, i: nat, r: Record, k: Key)
    requires i < |log| && KeyOf(log[i]) != k && KeyOf(r) == KeyOf(log[i]) && OrderedFor(log, k)
    ensures OrderedFor(log[i := r], k) && Stack(log[i := r], k) == Stack(log, k)
  {
    hide Stack;
    StackSplit(log, i, k);
    StackReplace(log, i, r, k);
    var log1 := log[i := r];
    forall x, y | 0 <= x < y < |log1| ensures !(KeyOf(log1[x]) == k && Clash(log1[x], log1[y])) {
      assert !(KeyOf(log[x]) == k && Clash(log[x], log[y]));
    }
  }

  /** A lookup shows the newest value in the stack, whatever holds of other keys. */
  lemma LookupIsTop(st: Stores, k: Key)
    requires OrderedFor(All(st), k) && k.name != []
    ensures Lookup(st, BootQuery(k)) == View(st, k)
  {
    hide Stack, OrderedFor, Search;
    var all := All(st);
    SearchFindsNewest(all, k);
    ValuesAll(st, k);
    var i := Search(all, BootQuery(k));
    if i.Some? { NewestIsTop(all, k, i.value); }
  }

  /** A runtime set changes no lookup of another key, even where it breaks the invariant. */
  lemma RuntimeSetOthers(st: Stores, r: Record, k: Key)
    requires Good(st) && r.name != [] && k.name != [] && k != KeyOf(r)
    requires var w := FindFor(st, r, true); w.Some? ==> !w.value.volatile && w.value.place < |st.nv|
    ensures
      var st1 := Stores(Superseded(st.nv, FindFor(st, r, true)) + [r], st.vol);
      Lookup(st1, BootQuery(k)) == View(st, k)
  {
    hide Stack, Ordered, OrderedFor, Find, And;
    var w := FindFor(st, r, true);
    var pre := Superseded(st.nv, w);
    BothFind(st, KeyOf(r));
    GoodIsOrdered(st);
    OrderedForAll(All(st), k);
    ValuesAll(st, k);
    if w.Some? {
      var i := w.value.place;
      OtherChanged(All(st), i, pre[i], k);
      assert pre + st.vol == All(st)[i := pre[i]];
    }
    OtherInserted(pre, r, st.vol, k);
    var st1 := Stores(pre + [r], st.vol);
    assert All(st1) == pre + [r] + st.vol;
    ValuesAll(st1, k);
    LookupIsTop(st1, k);
  }

  /** The newest record of the key is non-volatile and in transition. */
  predicate NewestInTransition(st: Stores, k: Key)
  {
    match Find(st, BootQuery(k))
    case None => false
    case Some(w) => !w.volatile && RecordAt(st, w).state == IN_TRANSITION
  }

  lemma SupersededGood(st: Stores, found: Option<Where>, r: Record)
    requires found.Some? ==> found.value.place < |st.nv| && LiveFor(st.nv[found.value.place], KeyOf(r))
    requires Good(st) && r.state == VAR_ADDED && NoneAdded(Superseded(st.nv, found), KeyOf(r)) && Stack(st.vol, KeyOf(r)) == []
    ensures Good(Stores(Superseded(st.nv, found) + [r], st.vol))
  {
    States();
    hide Stack, And, NoneAdded;
    var pre := Superseded(st.nv, found);
    if found.Some? {
      var i := found.value.place;
      ClearOrdered(st.nv, i, VAR_IN_DELETED_TRANSITION);
      ClearOrdered(Clear(st.nv, i, VAR_IN_DELETED_TRANSITION), i, VAR_DELETED);
      assert pre == Clear(Clear(st.nv, i, VAR_IN_DELETED_TRANSITION), i, VAR_DELETED);
    }
    AppendOrdered(pre, r);
    forall k ensures Stack(pre + [r], k) == [] || Stack(st.vol, k) == [] {
      if k != KeyOf(r) {
        AppendStacks(pre, r, k);
        if found.Some? {
          OrderedForAll(st.nv, k);
          OtherChanged(st.nv, found.value.place, pre[found.value.place], k);
        }
      }
    }
    hide Ordered;
    WithLogGood(st, false, pre + [r]);
  }

  /** A runtime set that writes keeps the invariant exactly if the newest value is not hidden, or is non-volatile and in transition. */
  lemma RuntimeGoodIff(cfg: Config, st: Stores, r: Record, pool: bool)
    requires Good(st) && r.state == VAR_ADDED && r.name != [] && KeepsStore(st, r, FindFor(st, r, true))
    requires Writes(st, r, FindFor(st, r, true)) && Update(cfg, st, r, FindFor(st, r, true), true, pool).1 == Success
    ensures Good(Update(cfg, st, r, FindFor(st, r, true), true, pool).0)
        <==> Unhidden(st, KeyOf(r)) || NewestInTransition(st, KeyOf(r))
  {
    hide Stack, Ordered, Find, And, Fits, Update, Deletes, Obeys, OneStore, Superseded;
    var found, b, k := FindFor(st, r, true), Find(st, BootQuery(KeyOf(r))), KeyOf(r);
    RuntimeWrites(cfg, st, r, pool);
    var pre := Superseded(st.nv, found);
    BothFind(st, k);
    var st1 := Stores(pre + [r], st.vol);
    if Unhidden(st, k) {
      RuntimeObeys(cfg, st, r, pool);
    } else if b.value.volatile {
      TwoStores(st1, r, b.value.place);
    } else if b.value.place < |st.nv| && st.nv[b.value.place].state == VAR_ADDED {
      SupersededElsewhere(st.nv, found, b.value.place);
      ShadowClash(pre, r, b.value.place);
    } else {
      StackEmpty(st.vol, k);
      NoneAddedLeft(st.nv, found, k, b.value.place);
      SupersededGood(st, found, r);
    }
  }

  lemma TwoStores(st: Stores, r: Record, j: nat)
    requires st.nv != [] && st.nv[|st.nv| - 1] == r && Live(r) && j < |st.vol| && LiveFor(st.vol[j], KeyOf(r))
    ensures !Good(st)
  {
    hide Stack, Ordered;
    StackEmpty(st.nv, KeyOf(r));
    StackEmpty(st.vol, KeyOf(r));
    assert LiveFor(st.nv[|st.nv| - 1], KeyOf(r));
  }

  lemma ShadowClash(pre: seq<Record>, r: Record, t: nat)
    requires t < |pre| && pre[t].state == VAR_ADDED && KeyOf(pre[t]) == KeyOf(r) && Live(r)
    ensures !Ordered(pre + [r])
  {
    var log := pre + [r];
    assert Clash(log[t], log[|pre|]);
  }

  lemma NoneAddedLeft(nv: seq<Record>, found: Option<Where>, k: Key, b: nat)
    requires Ordered(nv) && Newest(nv, k, b) && nv[b].state != VAR_ADDED
    requires found.Some? ==> found.value.place < |nv| && Live(nv[found.value.place])
    ensures NoneAdded(Superseded(nv, found), k)
  {
    hide Superseded;
    var pre := Superseded(nv, found);
    forall i | 0 <= i < |pre| ensures !(pre[i].state == VAR_ADDED && KeyOf(pre[i]) == k) {
      if pre[i].state == VAR_ADDED {
        SupersededAdded(nv, found, i);
        if KeyOf(nv[i]) == k { AddedIsNewest(nv, k, i); }
      }
    }
  }

  // ---- deletes and failures

  /** A runtime update that is refused, fails, finds the same data, or deletes. */
  lemma RuntimeElse(cfg: Config, st: Stores, r: Record, pool: bool, k: Key)
    requires Good(st) && r.state == VAR_ADDED && r.name != [] && k.name != [] && KeepsStore(st, r, FindFor(st, r, true))
    requires var s := Update(cfg, st, r, FindFor(st, r, true), true, pool).1; !(s == Success && Writes(st, r, FindFor(st, r, true)))
    ensures
      var (st1, s) := Update(cfg, st, r, FindFor(st, r, true), true, pool);
      && Good(st1)
      && (k != KeyOf(r) || !Deletes(r) || s != Success || !Unhidden(st, k) ==> Lookup(st1, BootQuery(k)) == View(st, k))
  {
    hide Stack, Ordered, Find, And, Fits, Deletes, View, Good, Retire;
    var found := FindFor(st, r, true);
    BothFind(st, KeyOf(r));
    LookupIsView(st, k);
    RuntimeUpdate(cfg, st, r, found, pool);
    if found.Some? && !found.value.volatile {
      ClearedAtRuntime(st, KeyOf(r), k);
      if Writes(st, r, found) { UpdateWrites(cfg, st, r, found, false); }
      assert WithLog(st, false, Marked(st.nv, Some(found.value.place))) == Retire(st, found.value, VAR_IN_DELETED_TRANSITION) by { MarkIsRetire(st, found.value); }
    } else if Writes(st, r, found) {
      UpdateWrites(cfg, st, r, found, false);
    }
  }

  lemma MarkIsRetire(st: Stores, w: Where)
    requires !w.volatile && w.place < |st.nv|
    ensures WithLog(st, false, Marked(st.nv, Some(w.place))) == Retire(st, w, VAR_IN_DELETED_TRANSITION)
  {
  }

  /** No runtime update, whatever becomes of it, changes a boot-time lookup of another key. */
  lemma RuntimeLeavesOthers(cfg: Config, st: Stores, r: Record, pool: bool, k: Key)
    requires Good(st) && r.state == VAR_ADDED && r.name != [] && k.name != [] && KeepsStore(st, r, FindFor(st, r, true))
    requires k != KeyOf(r)
    ensures Lookup(Update(cfg, st, r, FindFor(st, r, true), true, pool).0, BootQuery(k)) == View(st, k)
  {
    hide Good, Find, And, Update, View, Lookup, Deletes;
    if Update(cfg, st, r, FindFor(st, r, true), true, pool).1 == Success && Writes(st, r, FindFor(st, r, true)) {
      RuntimeWrites(cfg, st, r, pool);
      RuntimeSetOthers(st, r, k);
    } else {
      RuntimeElse(cfg, st, r, pool, k);
    }
  }

  /** Marking or deleting the record that runtime finds: what a lookup of any key shows then. */
  lemma ClearedAtRuntime(st: Stores, key: Key, k: Key)
    requires Good(st) && key.name != [] && k.name != [] && Find(st, RuntimeQuery(key)).Some?
    requires !Find(st, RuntimeQuery(key)).value.volatile
    ensures
      var w := Find(st, RuntimeQuery(key)).value;
      var st1, st2 := Retire(st, w, VAR_IN_DELETED_TRANSITION), Retire(st, w, VAR_DELETED);
      && Good(st1) && Lookup(st1, BootQuery(k)) == View(st, k)
      && Good(st2) && (k != key || !Unhidden(st, k) ==> Lookup(st2, BootQuery(k)) == View(st, k))
  {
    hide Stack, Ordered, Find, And, Lookup;
    BothFind(st, key);
    var w, b := Find(st, RuntimeQuery(key)).value, Find(st, BootQuery(key)).value;
    var nv1, nv2 := Clear(st.nv, w.place, VAR_IN_DELETED_TRANSITION), Clear(st.nv, w.place, VAR_DELETED);
    ClearOrdered(st.nv, w.place, VAR_IN_DELETED_TRANSITION);
    ClearOrdered(st.nv, w.place, VAR_DELETED);
    forall q ensures Stack(nv1, q) == Stack(st.nv, q) { TransitionStacks(st.nv, w.place, q); }
    forall q ensures DeadStack(Stack(st.nv, q), Stack(nv2, q), q == key, w != b) {
      DeletedStack(st.nv, w.place, b.place, key, q);
    }
    WithLogGood(st, false, nv1);
    WithLogGood(st, false, nv2);
    LookupIsView(WithLog(st, false, nv1), k);
    LookupIsView(WithLog(st, false, nv2), k);
  }

  /** Deleting a record takes a value out of the stack of its key, not the top one if it is not the newest. */
  predicate DeadStack(s: seq<Value>, t: seq<Value>, own: bool, older: bool)
  {
    && (s == [] ==> t == [])
    && (!own ==> t == s)
    && (own && older ==> s != [] && t != [] && t[|t| - 1] == s[|s| - 1])
  }

  lemma DeletedStack(log: seq<Record>, i: nat, newest: nat, key: Key, k: Key)
    requires i < |log| && LiveFor(log[i], key) && Newest(log, key, newest)
    ensures DeadStack(Stack(log, k), Stack(Clear(log, i, VAR_DELETED), k), k == key, i != newest)
  {
    States();
    hide Stack, And;
    StackSplit(log, i, k);
    StackReplace(log, i, WithState(log[i], And(log[i].state, VAR_DELETED)), k);
    if i < newest {
      StackEmpty(log[i + 1..], key);
      assert LiveFor(log[i + 1..][newest - i - 1], key);
    }
  }

  /** A non-volatile record of the variable k; attributes 3 hide it at runtime, 7 do not. */
  function Sealed(attributes: uint32, x: uint8): Record
  {
    Record(VAR_ADDED, attributes, Chars("k"), seq(16, _ => 0), [x])
  }

  /**
   If the newest value is hidden the law fails: a runtime set of such a
   variable succeeds, and at the next boot the lookup still shows the old value.
   */
  lemma HiddenValueReturns(cfg: Config, st: Stores, r: Record)
    requires st == Stores([Sealed(3, 1)], []) && r == Sealed(7, 2) && Fits(cfg, st, r)
    ensures Good(st) && !Unhidden(st, KeyOf(r)) && Lookup(st, RuntimeQuery(KeyOf(r))) == None
    ensures var (st1, s) := Update(cfg, st, r, FindFor(st, r, true), true, true);
      && s == Success && !Good(st1)
      && Lookup(st1, RuntimeQuery(KeyOf(r))) == Some(ValueOf(r))
      && Lookup(st1, BootQuery(KeyOf(r))) == Some(ValueOf(Sealed(3, 1)))
  {
    var k, a := KeyOf(r), Sealed(3, 1);
    assert And(3, RUNTIME_ACCESS) == 0 && And(7, RUNTIME_ACCESS) == 4 && And(7, NON_VOLATILE) == 1;
    assert And(7, RUNTIME_ACCESS + BOOTSERVICE_ACCESS) == 6;
    hide And, Fits, Good, Search, Update, Chars;
    OneRecord(a, k);
    TwoRecords(a, r, k);
    HiddenUpdate(cfg, a, r);
    assert All(st) == [a] && All(Stores([a, r], [])) == [a, r];
    FirstHidden(Stores([a, r], []));
  }

  lemma HiddenUpdate(cfg: Config, a: Record, r: Record)
    requires !Deletes(r) && And(r.attributes, RUNTIME_ACCESS) != 0 && !IsVolatile(r.attributes) && Fits(cfg, Stores([a], []), r)
    ensures Update(cfg, Stores([a], []), r, None, true, true) == (Stores([a, r], []), Success)
  {
    hide And, Fits, Deletes;
    assert [a] + [r] == [a, r];
  }

  lemma FirstHidden(st: Stores)
    requires !Ordered(All(st)) && st.vol == []
    ensures !Good(st)
  {
    assert All(st) == st.nv;
  }

  lemma OneRecord(a: Record, k: Key)
    requires a.state == VAR_ADDED && KeyOf(a) == k && k.name != [] && !Accessible(a, true)
    ensures Good(Stores([a], [])) && View(Stores([a], []), k) == Some(ValueOf(a))
    ensures Search([a], RuntimeQuery(k)) == None
  {
    hide And;
    var st := Stores([a], []);
    forall k' ensures Stack(st.vol, k') == [] {}
    StackOne(a, k);
    FirstAddedIs([a], RuntimeQuery(k), 0);
    LastInTransitionIs([a], RuntimeQuery(k), 1);
  }

  lemma TwoRecords(a: Record, r: Record, k: Key)
    requires a.state == r.state == VAR_ADDED && KeyOf(a) == KeyOf(r) == k && k.name != []
    requires !Accessible(a, true) && Accessible(r, true)
    ensures !Ordered([a, r]) && Search([a, r], BootQuery(k)) == Some(0) && Search([a, r], RuntimeQuery(k)) == Some(1)
  {
    hide And;
    var log := [a, r];
    assert Clash(log[0], log[1]);
    FirstAddedIs(log, RuntimeQuery(k), 0);
    assert Matches(log[1], RuntimeQuery(k)) && !Matches(log[0], RuntimeQuery(k));
  }
}
