/**
 Enumeration after any boot-time run: at most one key of each store has two
 live records, which makes it easy to say which variables are missing.
 */
module VariableEnumeration {
  import opened Words
  import opened Bytes
  import opened VariableLog
  import opened VariableService
  import opened VariableLaws
  import opened VariableNames

  // ---- jumps that do not overlap

  /** Two live records of one key. */
  predicate Pair(log: seq<Record>, p: nat, q: nat)
  {
    p < q < |log| && Live(log[p]) && LiveFor(log[q], KeyOf(log[p]))
  }

  /** The stretches between live records of the same key do not overlap. */
  ghost predicate Untangled(log: seq<Record>)
  {
    forall p: nat, q: nat, p': nat, q': nat :: Pair(log, p, q) && Pair(log, p', q') && p < p' ==> q < p'
  }

  /** Record q lies between record p and the newest visible one of its key. */
  predicate Straddles(log: seq<Record>, p: nat, runtime: bool, q: nat)
  {
    p < q < |log| && Visible(log[p], runtime) && q < LastSame(log, p, runtime)
  }

  /** From i on, record q lies between an older and the newest visible record of another key. */
  predicate Between(log: seq<Record>, i: nat, runtime: bool, q: nat)
  {
    exists p :: i <= p < q && Straddles(log, p, runtime, q)
  }

  lemma LastSamePair(log: seq<Record>, p: nat, runtime: bool)
    requires p < |log| && Visible(log[p], runtime) && p < LastSame(log, p, runtime)
    ensures Pair(log, p, LastSame(log, p, runtime))
  {
    hide LastSame;
  }

  /** Without overlaps, a record is jumped over exactly if it lies between two records of a key. */
  lemma {:induction false} JumpedIff(log: seq<Record>, i: nat, runtime: bool, q: nat)
    requires Untangled(log) && q < |log|
    ensures Jumped(log, i, runtime, q) <==> Between(log, i, runtime, q)
    decreases |log| - i
  {
    hide LastSame, NextVisible, Untangled, Visible, Between, Straddles;
    var next := NextVisible(log, i, runtime);
    BetweenStep(log, i, runtime, q);
    if next.Some? {
      assert Straddles(log, next.value, runtime, q) <==> next.value < q < LastSame(log, next.value, runtime) by {
        StraddlesIs(log, next.value, runtime, q);
      }
      JumpedIff(log, LastSame(log, next.value, runtime) + 1, runtime, q);
    }
  }

  lemma StraddlesIs(log: seq<Record>, p: nat, runtime: bool, q: nat)
    requires p < |log| && q < |log| && Visible(log[p], runtime)
    ensures Straddles(log, p, runtime, q) <==> p < q < LastSame(log, p, runtime)
  {
    hide LastSame;
  }

  /** The first visible record straddles q, or another one behind its newest record does. */
  lemma BetweenStep(log: seq<Record>, i: nat, runtime: bool, q: nat)
    requires Untangled(log) && q < |log|
    ensures Between(log, i, runtime, q) <==>
      match NextVisible(log, i, runtime)
      case None => false
      case Some(p) => Straddles(log, p, runtime, q) || Between(log, LastSame(log, p, runtime) + 1, runtime, q)
  {
    hide LastSame, NextVisible, Untangled, Straddles;
    NextVisibleIs(log, i, runtime);
    var next := NextVisible(log, i, runtime);
    if Between(log, i, runtime, q) {
      var x :| i <= x < q && Straddles(log, x, runtime, q);
      StraddlesParts(log, x, runtime, q);
      if x != next.value {
        Apart(log, next.value, x, runtime);
        assert Between(log, LastSame(log, next.value, runtime) + 1, runtime, q);
      }
    }
    if next.Some? {
      var t := LastSame(log, next.value, runtime);
      if Straddles(log, next.value, runtime, q) { StraddlesParts(log, next.value, runtime, q); }
      if Between(log, t + 1, runtime, q) {
        var x :| t + 1 <= x < q && Straddles(log, x, runtime, q);
        assert i <= x;
      }
    }
  }

  lemma StraddlesParts(log: seq<Record>, p: nat, runtime: bool, q: nat)
    requires Straddles(log, p, runtime, q)
    ensures p < q < |log| && Visible(log[p], runtime) && q < LastSame(log, p, runtime)
  {
    hide LastSame;
  }

  lemma Apart(log: seq<Record>, p: nat, x: nat, runtime: bool)
    requires Untangled(log) && p < x < |log| && Visible(log[p], runtime) && Visible(log[x], runtime) && x < LastSame(log, x, runtime)
    ensures LastSame(log, p, runtime) < x
  {
    hide LastSame;
    LastSamePair(log, x, runtime);
    if p < LastSame(log, p, runtime) { LastSamePair(log, p, runtime); }
  }

  // ---- one pair a store

  /** At most one key has two live records, and none has more. */
  ghost predicate OnePair(log: seq<Record>)
  {
    exists k0 :: |Stack(log, k0)| <= 2 && forall k :: k != k0 ==> |Stack(log, k)| <= 1
  }

  ghost predicate Lean(st: Stores)
  {
    OnePair(st.nv) && OnePair(st.vol)
  }

  lemma AtMostTwo(log: seq<Record>, k: Key)
    requires OnePair(log)
    ensures |Stack(log, k)| <= 2
  {
    hide Stack;
  }

  lemma OnlyOne(log: seq<Record>, k: Key, k': Key)
    requires OnePair(log) && |Stack(log, k)| >= 2 && |Stack(log, k')| >= 2
    ensures k == k'
  {
    hide Stack;
  }

  lemma PairIsTwo(log: seq<Record>, p: nat, q: nat)
    requires Pair(log, p, q)
    ensures |Stack(log, KeyOf(log[p]))| >= 2
  {
    TwoLive(log, p, q, KeyOf(log[p]));
  }

  lemma ThreeLive(log: seq<Record>, p: nat, q: nat, r: nat)
    requires Pair(log, p, q) && Pair(log, q, r)
    ensures |Stack(log, KeyOf(log[p]))| >= 3
  {
    hide Stack;
    var k := KeyOf(log[p]);
    StackSplit(log, r, k);
    assert Pair(log[..r], p, q);
    PairIsTwo(log[..r], p, q);
  }

  lemma LogUntangled(log: seq<Record>)
    requires OnePair(log)
    ensures Untangled(log)
  {
    hide Stack, OnePair, Pair;
    forall p: nat, q: nat, p': nat, q': nat | Pair(log, p, q) && Pair(log, p', q') ensures p == p' {
      OneStart(log, p, q, p', q');
    }
  }

  /** All pairs have the same older record. */
  lemma OneStart(log: seq<Record>, p: nat, q: nat, p': nat, q': nat)
    requires OnePair(log) && Pair(log, p, q) && Pair(log, p', q')
    ensures p == p'
  {
    hide Stack, OnePair;
    PairIsTwo(log, p, q);
    PairIsTwo(log, p', q');
    OnlyOne(log, KeyOf(log[p]), KeyOf(log[p']));
    AtMostTwo(log, KeyOf(log[p]));
    if p < p' {
      ThreeLive(log, p, p', q');
    } else if p' < p {
      ThreeLive(log, p', p, q);
    }
  }

  /** Pairs do not reach from one store into the other. */
  lemma PairInOneStore(st: Stores, p: nat, q: nat)
    requires OneStore(st) && Pair(All(st), p, q)
    ensures if q < |st.nv| then Pair(st.nv, p, q) else p >= |st.nv| && Pair(st.vol, p - |st.nv|, q - |st.nv|)
  {
    hide Stack;
    var all, n := All(st), |st.nv|;
    if p < n <= q {
      var k := KeyOf(all[p]);
      StackEmpty(st.nv, k);
      StackEmpty(st.vol, k);
    }
  }

  lemma LeanUntangled(st: Stores)
    requires Good(st) && Lean(st)
    ensures Untangled(All(st))
  {
    hide Stack, Ordered, OnePair, Pair, Untangled;
    LogUntangled(st.nv);
    LogUntangled(st.vol);
    UntangledBoth(st);
  }

  lemma UntangledBoth(st: Stores)
    requires OneStore(st) && Untangled(st.nv) && Untangled(st.vol)
    ensures Untangled(All(st))
  {
    hide Stack, Pair, OneStore;
    var all := All(st);
    forall p: nat, q: nat, p': nat, q': nat | Pair(all, p, q) && Pair(all, p', q') && p < p' ensures q < p' {
      PairInOneStore(st, p, q);
      PairInOneStore(st, p', q');
      PairBounds(all, p, q);
      PairBounds(all, p', q');
    }
  }

  lemma PairBounds(log: seq<Record>, p: nat, q: nat)
    requires Pair(log, p, q)
    ensures p < q < |log|
  {
  }

  // ---- stores to start from

  lemma EmptyStores()
    ensures var st := Stores([], []); Good(st) && Lean(st) && AllNamed(st)
  {
    var st := Stores([], []);
    forall k ensures Stack([], k) == [] {}
    assert |Stack([], Key([], seq(16, _ => 0)))| <= 2;
  }

  /** Reclaimed stores have no key with two live records. */
  lemma ReclaimedLean(log: seq<Record>, cur: Option<nat>)
    requires Ordered(log)
    ensures OnePair(Reclaimed(log, cur))
  {
    hide Stack, Ordered, Reclaimed;
    forall k ensures |Stack(Reclaimed(log, cur), k)| <= 1 { ReclaimKeepsTop(log, cur, k); }
    var k0 := Key([], seq(16, _ => 0));
    assert |Stack(Reclaimed(log, cur), k0)| <= 2;
  }

  // ---- every run keeps it

  lemma LeanAfterWrite(log: seq<Record>, r: Record, place: Option<nat>, way: Way)
    requires Ordered(log) && FoundIn(log, KeyOf(r), place) && r.state == VAR_ADDED && OnePair(log)
    ensures OnePair(LogAfter(log, r, place, way))
  {
    hide Stack, Ordered, LogAfter, StackAfter;
    var log1 := LogAfter(log, r, place, way);
    forall k ensures Stack(log1, k) == StackAfter(Stack(log, k), way, k == KeyOf(r), ValueOf(r)) {
      LogAfterStacks(log, r, place, way, k);
    }
    var k0 :| |Stack(log, k0)| <= 2 && forall k :: k != k0 ==> |Stack(log, k)| <= 1;
    if way.Reclaiming? {
      forall k | k != KeyOf(r) ensures |Stack(log1, k)| <= 1 {}
      assert |Stack(log1, KeyOf(r))| <= 2;
    } else {
      forall k | k != k0 ensures |Stack(log1, k)| <= 1 {}
      assert |Stack(log1, k0)| <= 2;
    }
  }

  lemma LeanAfterDelete(log: seq<Record>, i: nat)
    requires i < |log| && Newest(log, KeyOf(log[i]), i) && OnePair(log)
    ensures OnePair(Clear(log, i, VAR_DELETED))
  {
    hide Stack, Clear;
    var log1 := Clear(log, i, VAR_DELETED);
    forall k ensures |Stack(log1, k)| <= |Stack(log, k)| { DeleteStacks(log, i, k); }
    var k0 :| |Stack(log, k0)| <= 2 && forall k :: k != k0 ==> |Stack(log, k)| <= 1;
    assert |Stack(log1, k0)| <= 2;
  }

  lemma UpdateLean(cfg: Config, st: Stores, r: Record, pool: bool)
    requires Good(st) && Lean(st) && r.state == VAR_ADDED && r.name != [] && KeepsStore(st, r, FindFor(st, r, false))
    ensures Lean(Update(cfg, st, r, FindFor(st, r, false), false, pool).0)
  {
    hide Stack, Ordered, Find, LogAfter, WayOf, OnePair, Clear, And;
    var found, v := FindFor(st, r, false), IsVolatile(r.attributes);
    FoundHome(st, r);
    if Writes(st, r, found) {
      UpdateWrites(cfg, st, r, found, pool);
      var place := PlaceIn(found, v);
      LeanAfterWrite(LogOf(st, v), r, place, WayOf(cfg, st, r, place, pool));
    } else if Deletes(r) && found.Some? {
      LeanAfterDelete(LogOf(st, found.value.volatile), found.value.place);
    }
  }

  /** No live record has an empty name. */
  ghost predicate AllNamed(st: Stores)
  {
    forall k: Key :: k.name == [] ==> View(st, k) == None
  }

  lemma NamedLog(st: Stores)
    requires AllNamed(st)
    ensures Named(All(st))
  {
    hide Stack;
    var all := All(st);
    forall i | 0 <= i < |all| && Live(all[i]) ensures all[i].name != [] {
      var k := KeyOf(all[i]);
      if k.name == [] {
        assert View(st, k) == None;
        ValuesAll(st, k);
        StackEmpty(all, k);
      }
    }
  }

  lemma StepKeeps(cfg: Config, st: Stores, c: Call)
    requires Good(st) && Lean(st) && AllNamed(st) && Admissible(cfg, st, c)
    ensures var st1 := Step(cfg, st, c).0; Good(st1) && Lean(st1) && AllNamed(st1)
  {
    hide Good, Lean, View, Find, Update, And;
    var st1 := Step(cfg, st, c).0;
    StepLaw(cfg, st, c, Key([], seq(16, _ => 0)));
    forall k: Key | k.name == [] ensures View(st1, k) == None { StepLaw(cfg, st, c, k); }
    if !Refused(cfg, c.req) { UpdateLean(cfg, st, RecordOf(cfg, c.req), c.pool); }
  }

  lemma {:induction false} RunKeeps(cfg: Config, st: Stores, calls: seq<Call>)
    requires Good(st) && Lean(st) && AllNamed(st) && RunAdmissible(cfg, st, calls)
    ensures var st1 := Run(cfg, st, calls); Good(st1) && Lean(st1) && AllNamed(st1)
    decreases |calls|
  {
    hide Good, Lean, AllNamed, Admissible, Step;
    if calls != [] {
      StepKeeps(cfg, st, calls[0]);
      RunKeeps(cfg, Step(cfg, st, calls[0]).0, calls[1..]);
    }
  }

  // ---- the enumeration after a run

  /** Record q is the newest of its key and lies before the first record found, or between two records of another key. */
  ghost predicate Missing(log: seq<Record>, runtime: bool, q: nat)
    requires q < |log|
  {
    && NewestVisible(log, KeyOf(log[q]), runtime, q)
    && var s := Search(log, Start(runtime));
       s.Some? && (q < s.value || Between(log, s.value, runtime, q))
  }

  /**
   After every boot-time run the enumeration, at boot time or at runtime, ends,
   returns no name twice, and misses exactly the variables whose newest record
   lies before the first one found or between two live records of one key.
   */
  lemma RunEnumerates(cfg: Config, st: Stores, calls: seq<Call>, runtime: bool, n: nat)
    requires Good(st) && Lean(st) && AllNamed(st) && RunAdmissible(cfg, st, calls)
    ensures var log := All(Run(cfg, st, calls));
      n > |log| ==>
        && Enumerated(log, runtime, n)
        && (AllReturned(log, runtime, n) <==> forall q :: 0 <= q < |log| ==> !Missing(log, runtime, q))
  {
    hide Good, Lean, AllNamed, Run, Enumerated, AllReturned, Missing;
    RunKeeps(cfg, st, calls);
    if n > |All(Run(cfg, st, calls))| { StoreEnumerates(Run(cfg, st, calls), runtime, n); }
  }

  /** No name is returned twice; a key is returned exactly if its newest record is not missing; then nothing is found. */
  ghost predicate Enumerated(log: seq<Record>, runtime: bool, n: nat)
  {
    && (forall a, b :: 0 <= a < b < |Calls(log, Start(runtime), n)| ==> Calls(log, Start(runtime), n)[a] != Calls(log, Start(runtime), n)[b])
    && (forall q :: 0 <= q < |log| && NewestVisible(log, KeyOf(log[q]), runtime, q) ==>
          (KeyOf(log[q]) in Calls(log, Start(runtime), n) <==> !Missing(log, runtime, q)))
    && Calls(log, Start(runtime), n) == Calls(log, Start(runtime), |log| + 1)
  }

  lemma StoreEnumerates(st: Stores, runtime: bool, n: nat)
    requires Good(st) && Lean(st) && AllNamed(st) && n > |All(st)|
    ensures var log := All(st);
      Enumerated(log, runtime, n) && (AllReturned(log, runtime, n) <==> forall q :: 0 <= q < |log| ==> !Missing(log, runtime, q))
  {
    hide Lean, AllNamed, Calls, Search, Names, Jumped, Between, Ordered, AllReturned, NewestVisible, Named, Untangled;
    var log := All(st);
    GoodIsOrdered(st);
    NamedLog(st);
    LeanUntangled(st);
    EnumerationLists(log, runtime, n);
    EnumerationLists(log, runtime, |log| + 1);
    EnumerationComplete(log, runtime, n);
    var s := Search(log, Start(runtime));
    if s.Some? { NamesOnce(log, s.value, runtime); }
    forall q | 0 <= q < |log| ensures Missing(log, runtime, q) <==> PassedBy(log, runtime, q) {
      if s.Some? { JumpedIff(log, s.value, runtime, q); }
    }
    forall q | 0 <= q < |log| && NewestVisible(log, KeyOf(log[q]), runtime, q)
      ensures KeyOf(log[q]) in Calls(log, Start(runtime), n) <==> !Missing(log, runtime, q)
    {
      EnumerationExact(log, runtime, n, q);
    }
  }
}
