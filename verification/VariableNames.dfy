/**
 Enumerating the variables: what repeated calls of GetNextVariableName return.
 */
module VariableNames {
  import opened Words
  import opened Bytes
  import opened VariableLog
  import opened VariableService

  /** The first visible record from i on. */
  function NextVisible(log: seq<Record>, i: nat, runtime: bool): (r: Option<nat>)
    ensures r.Some? ==> i <= r.value < |log| && Visible(log[r.value], runtime)
    decreases |log| - i
  {
    if i >= |log| then None else if Visible(log[i], runtime) then Some(i) else NextVisible(log, i + 1, runtime)
  }

  /** The record GetNextVariableName returns: the first one found for an empty name, else the next visible one after the named one. */
  function NextRecord(log: seq<Record>, q: Query): Option<nat>
  {
    match Search(log, q)
    case None => None
    case Some(i) => NextVisible(log, if q.name == [] then i else i + 1, q.runtime)
  }

  /** The keys returned by successive calls, each from the name returned before, until one finds nothing. */
  function Calls(log: seq<Record>, q: Query, n: nat): seq<Key>
    decreases n
  {
    if n == 0 then []
    else
      match NextRecord(log, q)
      case None => []
      case Some(j) => [KeyOf(log[j])] + Calls(log, Query(log[j].name, log[j].guid, q.runtime), n - 1)
  }

  /** The keys of the visible records from i on. */
  function Listing(log: seq<Record>, i: nat, runtime: bool): seq<Key>
    decreases |log| - i
  {
    if i >= |log| then []
    else (if Visible(log[i], runtime) then [KeyOf(log[i])] else []) + Listing(log, i + 1, runtime)
  }

  lemma {:induction false} NextVisibleIs(log: seq<Record>, i: nat, runtime: bool)
    ensures match NextVisible(log, i, runtime)
      case Some(j) => i <= j < |log| && Visible(log[j], runtime) && forall x :: i <= x < j ==> !Visible(log[x], runtime)
      case None => forall x :: i <= x < |log| ==> !Visible(log[x], runtime)
    decreases |log| - i
  {
    if i < |log| { NextVisibleIs(log, i + 1, runtime); }
  }

  lemma {:induction false} ListingNext(log: seq<Record>, i: nat, runtime: bool)
    ensures Listing(log, i, runtime) ==
      match NextVisible(log, i, runtime)
      case Some(j) => [KeyOf(log[j])] + Listing(log, j + 1, runtime)
      case None => []
    decreases |log| - i
  {
    hide Visible, KeyOf, NextVisible;
    if i < |log| {
      VisibleStep(log, i, runtime);
      ListingNext(log, i + 1, runtime);
    } else {
      VisibleEnd(log, i, runtime);
    }
  }

  lemma VisibleEnd(log: seq<Record>, i: nat, runtime: bool)
    requires i >= |log|
    ensures NextVisible(log, i, runtime) == None
  {
  }

  lemma VisibleStep(log: seq<Record>, i: nat, runtime: bool)
    requires i < |log|
    ensures NextVisible(log, i, runtime) == if Visible(log[i], runtime) then Some(i) else NextVisible(log, i + 1, runtime)
  {
  }

  function Shift(i: Option<nat>, n: nat): Option<nat>
  {
    if i.Some? then Some(n + i.value) else None
  }

  /** The walk goes over from the end of one log to the start of the other. */
  lemma {:induction false} VisibleConcat(a: seq<Record>, b: seq<Record>, i: nat, runtime: bool)
    requires i <= |a|
    ensures NextVisible(a + b, i, runtime) ==
      if NextVisible(a, i, runtime).Some? then NextVisible(a, i, runtime) else Shift(NextVisible(b, 0, runtime), |a|)
    decreases |a| - i
  {
    if i < |a| { VisibleConcat(a, b, i + 1, runtime); } else { VisibleShift(a, b, 0, runtime); }
  }

  lemma {:induction false} VisibleShift(a: seq<Record>, b: seq<Record>, i: nat, runtime: bool)
    ensures NextVisible(a + b, |a| + i, runtime) == Shift(NextVisible(b, i, runtime), |a|)
    decreases |b| - i
  {
    if i < |b| { VisibleShift(a, b, i + 1, runtime); }
  }

  predicate Named(log: seq<Record>)
  {
    forall i :: 0 <= i < |log| && Live(log[i]) ==> log[i].name != []
  }

  // ---- what the calls return

  /** The newest visible record of k, given the newest one before j. */
  function Latest(log: seq<Record>, k: Key, runtime: bool, best: nat, j: nat): (q: nat)
    requires best < j <= |log| && VisibleFor(log[best], k, runtime)
    requires forall x :: best < x < j ==> !VisibleFor(log[x], k, runtime)
    ensures NewestVisible(log, k, runtime, q) && best <= q
    decreases |log| - j
  {
    if j == |log| then best
    else if VisibleFor(log[j], k, runtime) then Latest(log, k, runtime, j, j + 1)
    else Latest(log, k, runtime, best, j + 1)
  }

  /** The newest visible record with the key of record p. */
  function LastSame(log: seq<Record>, p: nat, runtime: bool): (q: nat)
    requires p < |log| && Visible(log[p], runtime)
    ensures NewestVisible(log, KeyOf(log[p]), runtime, q) && p <= q
  {
    Latest(log, KeyOf(log[p]), runtime, p, p + 1)
  }

  /** The keys returned from record i on: after each one the search goes on behind the newest record of its key. */
  function Names(log: seq<Record>, i: nat, runtime: bool): seq<Key>
    decreases |log| - i
  {
    match NextVisible(log, i, runtime)
    case None => []
    case Some(p) => [KeyOf(log[p])] + Names(log, LastSame(log, p, runtime) + 1, runtime)
  }

  /** Record q lies between a returned record and the newest one of that key, and is jumped over. */
  predicate Jumped(log: seq<Record>, i: nat, runtime: bool, q: nat)
    decreases |log| - i
  {
    match NextVisible(log, i, runtime)
    case None => false
    case Some(p) => p < q < LastSame(log, p, runtime) || Jumped(log, LastSame(log, p, runtime) + 1, runtime, q)
  }

  lemma OneNewest(log: seq<Record>, k: Key, runtime: bool, i: nat, j: nat)
    requires NewestVisible(log, k, runtime, i) && NewestVisible(log, k, runtime, j)
    ensures i == j
  {
    hide VisibleFor;
  }

  /** A name leads to the newest visible record of its key. */
  lemma SearchFindsLast(log: seq<Record>, p: nat, runtime: bool)
    requires Ordered(log) && p < |log| && Visible(log[p], runtime) && log[p].name != []
    ensures Search(log, Query(log[p].name, log[p].guid, runtime)) == Some(LastSame(log, p, runtime))
  {
    hide Search, Ordered, LastSame, Visible;
    var k := KeyOf(log[p]);
    OrderedForAll(log, k);
    SearchFindsVisible(log, k, runtime);
    var i, q := Search(log, Query(k.name, k.guid, runtime)), LastSame(log, p, runtime);
    if i.Some? { OneNewest(log, k, runtime, i.value, q); }
  }

  /** From a visible record on, the calls go on behind the newest record of its key. */
  lemma {:induction false} CallsContinue(log: seq<Record>, p: nat, runtime: bool, n: nat)
    requires Ordered(log) && Named(log) && p < |log| && Visible(log[p], runtime) && n >= |log| - p
    ensures Calls(log, Query(log[p].name, log[p].guid, runtime), n) == Names(log, LastSame(log, p, runtime) + 1, runtime)
    decreases |log| - p
  {
    hide Search, Ordered, Accessible, Calls, NextVisible, LastSame;
    var q := LastSame(log, p, runtime);
    SearchFindsLast(log, p, runtime);
    CallsNext(log, Query(log[p].name, log[p].guid, runtime), q, n);
    var next := NextVisible(log, q + 1, runtime);
    if next.Some? { CallsContinue(log, next.value, runtime, n - 1); }
  }

  /** One more call, from the name of record j. */
  lemma CallsNext(log: seq<Record>, q: Query, j: nat, n: nat)
    requires Search(log, q) == Some(j) && q.name != [] && n > 0
    ensures Calls(log, q, n) ==
      match NextVisible(log, j + 1, q.runtime)
      case None => []
      case Some(x) => [KeyOf(log[x])] + Calls(log, Query(log[x].name, log[x].guid, q.runtime), n - 1)
  {
    hide Search, NextVisible;
  }

  function Start(runtime: bool): Query
  {
    Query([], seq(16, _ => 0), runtime)
  }

  /** From the empty name, the calls return the names from the first record found on, and then find nothing. */
  lemma EnumerationLists(log: seq<Record>, runtime: bool, n: nat)
    requires Ordered(log) && Named(log) && n > |log|
    ensures Calls(log, Start(runtime), n) ==
      match Search(log, Start(runtime)) case Some(i) => Names(log, i, runtime) case None => []
  {
    hide Search, Ordered, Calls, NextVisible, Accessible, LastSame;
    SearchVisible(log, runtime);
    CallsFirst(log, runtime, n);
    var i := Search(log, Start(runtime));
    if i.Some? {
      VisibleStep(log, i.value, runtime);
      CallsContinue(log, i.value, runtime, n - 1);
    }
  }

  // ---- no name twice, and which names are missing

  /** Every returned name has a visible record from i on. */
  lemma {:induction false} NamesFrom(log: seq<Record>, i: nat, runtime: bool, k: Key)
    requires k in Names(log, i, runtime)
    ensures Shown(log, i, runtime, k)
    decreases |log| - i
  {
    hide Visible, LastSame, NextVisible;
    var p := NextVisible(log, i, runtime).value;
    if k != KeyOf(log[p]) { NamesFrom(log, LastSame(log, p, runtime) + 1, runtime, k); }
  }

  /** No name is returned twice. */
  lemma {:induction false} NamesOnce(log: seq<Record>, i: nat, runtime: bool)
    ensures forall a, b :: 0 <= a < b < |Names(log, i, runtime)| ==> Names(log, i, runtime)[a] != Names(log, i, runtime)[b]
    decreases |log| - i
  {
    hide LastSame, NextVisible;
    var next := NextVisible(log, i, runtime);
    if next.Some? {
      var p, k := next.value, KeyOf(log[next.value]);
      var q := LastSame(log, p, runtime);
      var rest := Names(log, q + 1, runtime);
      NamesOnce(log, q + 1, runtime);
      if k in rest { NamesFrom(log, q + 1, runtime, k); }
      assert Names(log, i, runtime) == [k] + rest;
    }
  }

  /** A key is returned exactly if its newest record is not before the start and not jumped over. */
  lemma {:induction false} NamesExact(log: seq<Record>, i: nat, runtime: bool, q: nat)
    requires q < |log| && NewestVisible(log, KeyOf(log[q]), runtime, q)
    ensures KeyOf(log[q]) in Names(log, i, runtime) <==> q >= i && !Jumped(log, i, runtime, q)
    decreases |log| - i
  {
    hide LastSame, NextVisible;
    NextVisibleIs(log, i, runtime);
    var k := KeyOf(log[q]);
    var next := NextVisible(log, i, runtime);
    if q < i {
      if k in Names(log, i, runtime) { NamesFrom(log, i, runtime, k); }
    } else {
      var p := next.value;
      var t := LastSame(log, p, runtime);
      NamesExact(log, t + 1, runtime, q);
      if KeyOf(log[p]) == k { OneNewest(log, k, runtime, t, q); }
      if q <= t { NotJumpedBack(log, t + 1, runtime, q); }
    }
  }

  lemma {:induction false} NotJumpedBack(log: seq<Record>, i: nat, runtime: bool, q: nat)
    requires q < i
    ensures !Jumped(log, i, runtime, q)
    decreases |log| - i
  {
    hide LastSame, NextVisible;
    var next := NextVisible(log, i, runtime);
    if next.Some? { NotJumpedBack(log, LastSame(log, next.value, runtime) + 1, runtime, q); }
  }

  /** Record q is the newest visible one of its key, and the calls pass it by. */
  predicate PassedBy(log: seq<Record>, runtime: bool, q: nat)
    requires q < |log|
  {
    && NewestVisible(log, KeyOf(log[q]), runtime, q)
    && var s := Search(log, Start(runtime));
       s.Some? && (q < s.value || Jumped(log, s.value, runtime, q))
  }

  /** The calls return the key of every visible record. */
  ghost predicate AllReturned(log: seq<Record>, runtime: bool, n: nat)
  {
    forall x :: 0 <= x < |log| && Visible(log[x], runtime) ==> KeyOf(log[x]) in Calls(log, Start(runtime), n)
  }

  /** Which keys are returned: those whose newest record is not passed by. */
  lemma EnumerationExact(log: seq<Record>, runtime: bool, n: nat, q: nat)
    requires Ordered(log) && Named(log) && n > |log| && q < |log| && NewestVisible(log, KeyOf(log[q]), runtime, q)
    ensures KeyOf(log[q]) in Calls(log, Start(runtime), n) <==> !PassedBy(log, runtime, q)
  {
    hide Search, Ordered, Calls, Names, Jumped;
    EnumerationLists(log, runtime, n);
    SearchVisible(log, runtime);
    NamesExact(log, Search(log, Start(runtime)).value, runtime, q);
  }

  /** The enumeration is complete if and only if no newest record is passed by. */
  lemma EnumerationComplete(log: seq<Record>, runtime: bool, n: nat)
    requires Ordered(log) && Named(log) && n > |log|
    ensures AllReturned(log, runtime, n) <==> forall q :: 0 <= q < |log| ==> !PassedBy(log, runtime, q)
  {
    hide Search, Ordered, Named, Calls, PassedBy, LastSame;
    if AllReturned(log, runtime, n) {
      forall q | 0 <= q < |log| ensures !PassedBy(log, runtime, q) {
        if PassedBy(log, runtime, q) {
          PassedIsNewest(log, runtime, q);
          EnumerationExact(log, runtime, n, q);
        }
      }
    }
    if forall q :: 0 <= q < |log| ==> !PassedBy(log, runtime, q) {
      forall x | 0 <= x < |log| && Visible(log[x], runtime) ensures KeyOf(log[x]) in Calls(log, Start(runtime), n) {
        var q := LastSame(log, x, runtime);
        EnumerationExact(log, runtime, n, q);
      }
    }
  }

  lemma PassedIsNewest(log: seq<Record>, runtime: bool, q: nat)
    requires q < |log| && PassedBy(log, runtime, q)
    ensures NewestVisible(log, KeyOf(log[q]), runtime, q)
  {
  }

  /** The first call, from the empty name. */
  lemma CallsFirst(log: seq<Record>, runtime: bool, n: nat)
    requires n > 0
    ensures match Search(log, Start(runtime))
      case None => Calls(log, Start(runtime), n) == []
      case Some(i) =>
        && i < |log| && Visible(log[i], runtime)
        && Calls(log, Start(runtime), n) == [KeyOf(log[i])] + Calls(log, Query(log[i].name, log[i].guid, runtime), n - 1)
  {
    SearchVisible(log, runtime);
    hide Search, NextVisible;
    var i := Search(log, Start(runtime));
    if i.Some? { VisibleStep(log, i.value, runtime); }
  }

  /** The empty name finds a visible record if there is one. */
  lemma SearchVisible(log: seq<Record>, runtime: bool)
    ensures match Search(log, Start(runtime))
      case Some(i) => i < |log| && Visible(log[i], runtime)
      case None => forall x :: 0 <= x < |log| ==> !Visible(log[x], runtime)
  {
    var q := Start(runtime);
    FirstAddedIs(log, q, 0);
    LastInTransitionIs(log, q, |log|);
    forall x | 0 <= x < |log| ensures Matches(log[x], q) <==> Accessible(log[x], runtime) {}
  }

  /** The first visible record is added, or it is the only visible one. */
  predicate AtFirst(log: seq<Record>, runtime: bool)
  {
    match NextVisible(log, 0, runtime)
    case Some(f) => log[f].state == VAR_ADDED || NextVisible(log, f + 1, runtime) == None
    case None => true
  }

  lemma SearchAtFirst(log: seq<Record>, runtime: bool)
    ensures Search(log, Start(runtime)) == NextVisible(log, 0, runtime) <==> AtFirst(log, runtime)
  {
    var q, f := Start(runtime), NextVisible(log, 0, runtime);
    FirstAddedIs(log, q, 0);
    LastInTransitionIs(log, q, |log|);
    NextVisibleIs(log, 0, runtime);
    if f.Some? { NextVisibleIs(log, f.value + 1, runtime); }
    forall x | 0 <= x < |log| ensures Matches(log[x], q) <==> Accessible(log[x], runtime) {}
    hide Matches, Accessible, FirstAdded, LastInTransition, NextVisible;
  }

  lemma {:induction false} ListingSkips(log: seq<Record>, i: nat, j: nat, runtime: bool)
    requires i <= j <= |log|
    ensures |Listing(log, j, runtime)| <= |Listing(log, i, runtime)|
    ensures Listing(log, i, runtime) == Listing(log, j, runtime) <==> forall x :: i <= x < j ==> !Visible(log[x], runtime)
    decreases j - i
  {
    if i < j {
      ListingSkips(log, i + 1, j, runtime);
      if Visible(log[i], runtime) {
        assert |Listing(log, i, runtime)| == 1 + |Listing(log, i + 1, runtime)|;
      }
    }
  }

  /** With distinct keys nothing is jumped over. */
  lemma {:induction false} NamesOfDistinct(log: seq<Record>, i: nat, runtime: bool)
    requires Distinct(log)
    ensures Names(log, i, runtime) == Listing(log, i, runtime)
    decreases |log| - i
  {
    hide LastSame, NextVisible, Listing;
    ListingNext(log, i, runtime);
    var next := NextVisible(log, i, runtime);
    if next.Some? {
      var p, q := next.value, LastSame(log, next.value, runtime);
      assert p == q;
      NamesOfDistinct(log, p + 1, runtime);
    }
  }

  lemma DistinctOrdered(log: seq<Record>)
    requires Distinct(log)
    ensures Ordered(log)
  {
  }

  /** The names from a visible record on are all exactly if it is the first visible one. */
  lemma DistinctFound(log: seq<Record>, runtime: bool, i: nat)
    requires Distinct(log) && i < |log| && Visible(log[i], runtime)
    ensures Names(log, i, runtime) == Listing(log, 0, runtime) <==> NextVisible(log, 0, runtime) == Some(i)
  {
    NamesOfDistinct(log, i, runtime);
    ListingSkips(log, 0, i, runtime);
    NextVisibleIs(log, 0, runtime);
    hide Names, Listing, NextVisible, Distinct;
  }

  lemma DistinctNone(log: seq<Record>, runtime: bool)
    requires forall x :: 0 <= x < |log| ==> !Visible(log[x], runtime)
    ensures NextVisible(log, 0, runtime) == None && Listing(log, 0, runtime) == []
  {
    NextVisibleIs(log, 0, runtime);
    hide Listing;
    ListingNext(log, 0, runtime);
  }

  /** With distinct keys, the enumeration is complete if and only if the first visible record is added or the only one. */
  lemma DistinctComplete(log: seq<Record>, runtime: bool, n: nat)
    requires Distinct(log) && Named(log) && n > |log|
    ensures Calls(log, Start(runtime), n) == Listing(log, 0, runtime) <==> AtFirst(log, runtime)
  {
    DistinctOrdered(log);
    EnumerationLists(log, runtime, n);
    SearchVisible(log, runtime);
    SearchAtFirst(log, runtime);
    hide Search, Distinct, Ordered, Named, Calls, AtFirst, NextVisible, Listing, Visible, Names;
    match Search(log, Start(runtime))
    case Some(i) => DistinctFound(log, runtime, i);
    case None => DistinctNone(log, runtime);
  }

  predicate Shown(log: seq<Record>, i: nat, runtime: bool, k: Key)
  {
    exists x :: i <= x < |log| && Visible(log[x], runtime) && KeyOf(log[x]) == k
  }

  lemma ShownNext(log: seq<Record>, i: nat, runtime: bool, k: Key)
    requires i < |log|
    ensures Shown(log, i, runtime, k) <==> (Visible(log[i], runtime) && KeyOf(log[i]) == k) || Shown(log, i + 1, runtime, k)
  {
  }

  lemma ShownAtEnd(log: seq<Record>, i: nat, runtime: bool, k: Key)
    requires i >= |log|
    ensures !Shown(log, i, runtime, k)
  {
  }

  /** The full listing has the key of every visible record, and of no other. */
  lemma {:induction false} ListingHas(log: seq<Record>, i: nat, runtime: bool, k: Key)
    ensures k in Listing(log, i, runtime) <==> Shown(log, i, runtime, k)
    decreases |log| - i
  {
    hide Shown;
    if i < |log| {
      ListingHas(log, i + 1, runtime, k);
      ShownNext(log, i, runtime, k);
    } else {
      ShownAtEnd(log, i, runtime, k);
    }
  }

  /** Each key is listed once. */
  lemma {:induction false} ListingOnce(log: seq<Record>, i: nat, runtime: bool)
    requires Distinct(log)
    ensures forall a, b :: 0 <= a < b < |Listing(log, i, runtime)| ==> Listing(log, i, runtime)[a] != Listing(log, i, runtime)[b]
    decreases |log| - i
  {
    if i < |log| {
      ListingOnce(log, i + 1, runtime);
      if Visible(log[i], runtime) {
        var k, rest := KeyOf(log[i]), Listing(log, i + 1, runtime);
        ListingHas(log, i + 1, runtime, k);
        assert k !in rest;
        assert Listing(log, i, runtime) == [k] + rest;
      }
    }
  }

  /** After both stores were reclaimed without a current record, the enumeration is complete. */
  lemma ReclaimedIsComplete(st: Stores, runtime: bool, n: nat)
    requires Good(st) && Named(st.nv) && Named(st.vol)
    ensures var log := Reclaimed(st.nv, None) + Reclaimed(st.vol, None);
      n > |log| ==> Calls(log, Start(runtime), n) == Listing(log, 0, runtime)
  {
    hide Stack, Calls, Listing, Reclaimed;
    var a, b := Reclaimed(st.nv, None), Reclaimed(st.vol, None);
    var log := a + b;
    ReclaimDistinct(st.nv, None);
    ReclaimDistinct(st.vol, None);
    ReclaimedAdded(st.nv);
    ReclaimedAdded(st.vol);
    forall i, j | 0 <= i < j < |log| && Live(log[i]) ensures !LiveFor(log[j], KeyOf(log[i])) {
      if i < |a| <= j {
        var k := KeyOf(a[i]);
        ReclaimKeepsTop(st.nv, None, k);
        ReclaimKeepsTop(st.vol, None, k);
        StackEmpty(a, k);
        StackEmpty(b, k);
        assert log[j] == b[j - |a|];
      }
    }
    if n > |log| { DistinctComplete(log, runtime, n); }
  }

  lemma ReclaimedAdded(log: seq<Record>)
    requires Named(log)
    ensures forall i :: 0 <= i < |Reclaimed(log, None)| ==> Reclaimed(log, None)[i].state == VAR_ADDED
    ensures Named(Reclaimed(log, None))
  {
    ReclaimLive(log, |log|, None);
    ReclaimNamed(log, |log|);
  }

  lemma {:induction false} ReclaimNamed(log: seq<Record>, n: nat)
    requires Named(log) && n <= |log|
    ensures Named(ReclaimUpTo(log, n, None))
  {
    if n > 0 { ReclaimNamed(log, n - 1); }
  }
}
