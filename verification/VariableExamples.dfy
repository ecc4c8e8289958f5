/**
 Two runs from empty stores, worked out call by call: one after which a delete
 shows an old value again, and one after which a variable is never enumerated.
 */
module VariableExamples {
  import opened Words
  import opened Bytes
  import opened VariableLog
  import opened VariableLayout
  import opened VariableService
  import opened VariableLaws
  import opened VariableNames

  // ---- volatile variables with a name of one character and one byte of data

  type Char = c: uint16 | c != 0 witness 1

  function NoGuid(): Guid
  {
    seq(16, _ => 0)
  }

  function KeyFor(c: Char): Key
  {
    Key([c], NoGuid())
  }

  function Sample(state: uint8, c: Char, x: uint8): Record
  {
    Record(state, BOOTSERVICE_ACCESS, [c], NoGuid(), [x])
  }

  /** Stores whose volatile one has room for cap such records. */
  function Room(cap: nat): Config
  {
    Config(STORE_HEADER_SIZE, STORE_HEADER_SIZE + 37 * cap, 0, 100, 100)
  }

  function Set(c: Char, x: uint8): Call
  {
    Call(Request(Some([c]), Some(NoGuid()), BOOTSERVICE_ACCESS, 1, Some([x])), true)
  }

  function Delete(c: Char): Call
  {
    Call(Request(Some([c]), Some(NoGuid()), BOOTSERVICE_ACCESS, 0, None), true)
  }

  function Vol(log: seq<Record>): Stores
  {
    Stores([], log)
  }

  predicate Uniform(log: seq<Record>)
  {
    forall i :: 0 <= i < |log| ==> |log[i].name| == 1 && |log[i].data| == 1
  }

  lemma SampleSize(r: Record)
    requires |r.name| == 1 && |r.data| == 1
    ensures RecordSize(r, 0) == 37
  {
  }

  lemma {:induction false} UniformEnd(log: seq<Record>, i: nat)
    requires Uniform(log) && i <= |log|
    ensures Offset(log, i, 0) == STORE_HEADER_SIZE + 37 * i
  {
    hide RecordSize;
    if i > 0 {
      UniformEnd(log, i - 1);
      SampleSize(log[i - 1]);
    }
  }

  lemma Bits()
    ensures And(BOOTSERVICE_ACCESS, NON_VOLATILE) == 0
    ensures And(BOOTSERVICE_ACCESS, RUNTIME_ACCESS + BOOTSERVICE_ACCESS) == BOOTSERVICE_ACCESS
    ensures And(BOOTSERVICE_ACCESS, AUTHENTICATED_WRITE_ACCESS) == 0 && And(BOOTSERVICE_ACCESS, HARDWARE_ERROR_RECORD) == 0
  {
  }

  /** The two requests pass the checks. */
  lemma Accepted(cap: nat, c: Char, x: uint8)
    ensures Set(c, x).req.Valid() && Delete(c).req.Valid() && !HooksLanguage(Set(c, x).req) && !HooksLanguage(Delete(c).req)
    ensures !Refused(Room(cap), Set(c, x).req) && !Refused(Room(cap), Delete(c).req)
    ensures RecordOf(Room(cap), Set(c, x).req) == Sample(VAR_ADDED, c, x)
    ensures RecordOf(Room(cap), Delete(c).req) == Sample(VAR_ADDED, c, 0).(data := [])
  {
    Bits();
    hide And;
  }

  /** The place of the key is what the search finds. */
  lemma Located(log: seq<Record>, r: Record, place: Option<nat>)
    requires Good(Vol(log)) && r.name != [] && FoundIn(log, KeyOf(r), place)
    ensures FindFor(Vol(log), r, false) == if place.Some? then Some(Where(true, place.value)) else None
  {
    hide Stack, Ordered, Find;
    FoundHome(Vol(log), r);
  }

  /** The log after a set: the record is replaced if there is room, else the log is reclaimed first. */
  function AfterSet(cap: nat, log: seq<Record>, r: Record, place: Option<nat>): seq<Record>
    requires place.Some? ==> place.value < |log|
  {
    if |log| < cap then Replaced(log, r, place) else ReclaimedFor(log, place) + [r]
  }

  lemma SetStep(cap: nat, log: seq<Record>, c: Char, x: uint8, place: Option<nat>)
    requires Good(Vol(log)) && Uniform(log) && FoundIn(log, KeyFor(c), place)
    requires place.Some? ==> log[place.value].data != [x]
    requires |log| < cap || (Uniform(ReclaimedFor(log, place)) && |ReclaimedFor(log, place)| < cap)
    ensures Admissible(Room(cap), Vol(log), Set(c, x))
    ensures Step(Room(cap), Vol(log), Set(c, x)).0 == Vol(AfterSet(cap, log, Sample(VAR_ADDED, c, x), place))
    ensures Good(Vol(AfterSet(cap, log, Sample(VAR_ADDED, c, x), place)))
  {
    var r, st := Sample(VAR_ADDED, c, x), Vol(log);
    Accepted(cap, c, x);
    Bits();
    hide And, Find, Refused, Good, HooksLanguage, RecordOf, Update, Reclaimed, FoundIn;
    Located(log, r, place);
    SetWay(cap, log, r, place);
    UpdateWrites(Room(cap), st, r, FindFor(st, r, false), true);
    StepLaw(Room(cap), st, Set(c, x), KeyFor(c));
  }

  lemma SetWay(cap: nat, log: seq<Record>, r: Record, place: Option<nat>)
    requires Uniform(log) && |r.name| == 1 && |r.data| == 1 && IsVolatile(r.attributes) && (place.Some? ==> place.value < |log|)
    requires |log| < cap || (Uniform(ReclaimedFor(log, place)) && |ReclaimedFor(log, place)| < cap)
    ensures WayOf(Room(cap), Vol(log), r, place, true) == if |log| < cap then Replacing else Reclaiming
  {
    hide And, RecordSize, Offset, ReclaimedFor;
    SampleSize(r);
    var m := Marked(log, place);
    UniformEnd(m, |m|);
    if |log| >= cap {
      var out := ReclaimedFor(log, place);
      UniformEnd(out, |out|);
    }
  }

  lemma DeleteStep(cap: nat, log: seq<Record>, c: Char, i: nat)
    requires Good(Vol(log)) && Newest(log, KeyFor(c), i)
    ensures Admissible(Room(cap), Vol(log), Delete(c))
    ensures Step(Room(cap), Vol(log), Delete(c)) == (Vol(Clear(log, i, VAR_DELETED)), Success)
  {
    var r, st := Sample(VAR_ADDED, c, 0).(data := []), Vol(log);
    Accepted(cap, c, 0);
    hide And, Find, Refused, Good, HooksLanguage, RecordOf, Clear;
    Located(log, r, Some(i));
  }

  /** A run, one call at a time. */
  lemma RunMore(cfg: Config, st: Stores, calls: seq<Call>, st1: Stores, end: Stores)
    requires calls != [] && Admissible(cfg, st, calls[0]) && Step(cfg, st, calls[0]).0 == st1
    requires RunAdmissible(cfg, st1, calls[1..]) && Run(cfg, st1, calls[1..]) == end
    ensures RunAdmissible(cfg, st, calls) && Run(cfg, st, calls) == end
  {
    hide Admissible, Step;
  }

  lemma EmptyGood()
    ensures Good(Vol([]))
  {
  }

  /** Clearing the states of a record, as an update does. */
  lemma SampleStates(c: Char, x: uint8)
    ensures WithState(Sample(VAR_ADDED, c, x), And(VAR_ADDED, VAR_IN_DELETED_TRANSITION)) == Sample(IN_TRANSITION, c, x)
    ensures WithState(Sample(IN_TRANSITION, c, x), And(IN_TRANSITION, VAR_DELETED)) == Sample(0x3c, c, x)
    ensures WithState(Sample(VAR_ADDED, c, x), And(VAR_ADDED, VAR_DELETED)) == Sample(0x3d, c, x)
  {
    States();
  }

  // ---- a delete that shows an old value

  const K: Char := 0x6b

  /** In a volatile store with room for two records: set to 1, 2 and 3, then delete, and the lookup shows 2. */
  lemma ResurrectionExample()
    ensures
      var calls := [Set(K, 1), Set(K, 2), Set(K, 3), Delete(K)];
      && RunAdmissible(Room(2), Vol([]), calls)
      && Lookup(Run(Room(2), Vol([]), calls), BootQuery(KeyFor(K))) == Some(Value(BOOTSERVICE_ACCESS, [2]))
  {
    hide Admissible, Step, Run, RunAdmissible, Good, Lookup, And;
    var l1, l2 := [Sample(VAR_ADDED, K, 1)], [Sample(0x3c, K, 1), Sample(VAR_ADDED, K, 2)];
    var l3, l4 := [Sample(IN_TRANSITION, K, 2), Sample(VAR_ADDED, K, 3)], [Sample(IN_TRANSITION, K, 2), Sample(0x3d, K, 3)];
    EmptyGood();
    SetStep(2, [], K, 1, None);
    assert AfterSet(2, [], Sample(VAR_ADDED, K, 1), None) == l1;
    SecondSet(l1, l2);
    ThirdSet(l2, l3);
    DeleteStep(2, l3, K, 1);
    SampleStates(K, 3);
    assert Clear(l3, 1, VAR_DELETED) == l4;
    LastLookup(l3, l4);
    var cfg, calls := Room(2), [Set(K, 1), Set(K, 2), Set(K, 3), Delete(K)];
    var calls1 := calls[1..];
    var calls2 := calls1[1..];
    var calls3 := calls2[1..];
    assert calls3[1..] == [];
    RunNothing(cfg, Vol(l4));
    RunMore(cfg, Vol(l3), calls3, Vol(l4), Vol(l4));
    RunMore(cfg, Vol(l2), calls2, Vol(l3), Vol(l4));
    RunMore(cfg, Vol(l1), calls1, Vol(l2), Vol(l4));
    RunMore(cfg, Vol([]), calls, Vol(l1), Vol(l4));
  }

  lemma RunNothing(cfg: Config, st: Stores)
    ensures RunAdmissible(cfg, st, []) && Run(cfg, st, []) == st
  {
  }

  lemma SecondSet(l1: seq<Record>, l2: seq<Record>)
    requires l1 == [Sample(VAR_ADDED, K, 1)] && l2 == [Sample(0x3c, K, 1), Sample(VAR_ADDED, K, 2)] && Good(Vol(l1))
    ensures Admissible(Room(2), Vol(l1), Set(K, 2)) && Step(Room(2), Vol(l1), Set(K, 2)).0 == Vol(l2) && Good(Vol(l2))
  {
    hide Admissible, Step, Good, And;
    SetStep(2, l1, K, 2, Some(0));
    SampleStates(K, 1);
    assert Marked(l1, Some(0)) == [Sample(IN_TRANSITION, K, 1)];
    assert Replaced(l1, Sample(VAR_ADDED, K, 2), Some(0)) == l2;
  }

  lemma ThirdSet(l2: seq<Record>, l3: seq<Record>)
    requires l2 == [Sample(0x3c, K, 1), Sample(VAR_ADDED, K, 2)] && Good(Vol(l2))
    requires l3 == [Sample(IN_TRANSITION, K, 2), Sample(VAR_ADDED, K, 3)]
    ensures Admissible(Room(2), Vol(l2), Set(K, 3)) && Step(Room(2), Vol(l2), Set(K, 3)).0 == Vol(l3) && Good(Vol(l3))
  {
    hide Admissible, Step, Good, And;
    SampleStates(K, 2);
    var m := Marked(l2, Some(1));
    assert m == [Sample(0x3c, K, 1), Sample(IN_TRANSITION, K, 2)];
    assert Keep(m, 0, Some(1)) == [] && Keep(m, 1, Some(1)) == [m[1]];
    assert ReclaimUpTo(m, 1, Some(1)) == [];
    assert ReclaimedFor(l2, Some(1)) == [m[1]];
    hide Keep, ReclaimedFor;
    SetStep(2, l2, K, 3, Some(1));
  }

  lemma LastLookup(l3: seq<Record>, l4: seq<Record>)
    requires l3 == [Sample(IN_TRANSITION, K, 2), Sample(VAR_ADDED, K, 3)] && l4 == [Sample(IN_TRANSITION, K, 2), Sample(0x3d, K, 3)]
    ensures Lookup(Vol(l4), BootQuery(KeyFor(K))) == Some(Value(BOOTSERVICE_ACCESS, [2]))
  {
    hide And;
    var q := BootQuery(KeyFor(K));
    assert All(Vol(l4)) == l4;
    FirstAddedIs(l4, q, 0);
    LastInTransitionIs(l4, q, 2);
    assert Matches(l4[0], q);
  }

  // ---- a variable that is never enumerated

  const A: Char := 0x41
  const B: Char := 0x42
  const C: Char := 0x43

  /** The volatile log after setting A, B, A, C and, through Reclaim, A again. */
  function Skipping(): seq<Record>
  {
    [Sample(VAR_ADDED, B, 1), Sample(IN_TRANSITION, A, 2), Sample(VAR_ADDED, C, 1), Sample(VAR_ADDED, A, 3)]
  }

  /** A boot-time run of sets leads from empty stores to that log. */
  lemma SkippingReached()
    ensures
      var calls := [Set(A, 1), Set(B, 1), Set(A, 2), Set(C, 1), Set(A, 3)];
      RunAdmissible(Room(4), Vol([]), calls) && Run(Room(4), Vol([]), calls) == Vol(Skipping()) && Good(Vol(Skipping()))
  {
    hide Admissible, Step, Run, RunAdmissible, Good, And;
    var a, b, c := Sample(VAR_ADDED, A, 1), Sample(VAR_ADDED, B, 1), Sample(VAR_ADDED, C, 1);
    var dead, a2 := Sample(0x3c, A, 1), Sample(VAR_ADDED, A, 2);
    EmptyGood();
    SetStep(4, [], A, 1, None);
    assert AfterSet(4, [], a, None) == [a];
    SetStep(4, [a], B, 1, None);
    assert AfterSet(4, [a], b, None) == [a, b];
    SetAgain([a, b], [dead, b, a2]);
    SetStep(4, [dead, b, a2], C, 1, None);
    assert AfterSet(4, [dead, b, a2], c, None) == [dead, b, a2, c];
    SetFull([dead, b, a2, c]);
    var cfg, end, calls := Room(4), Vol(Skipping()), [Set(A, 1), Set(B, 1), Set(A, 2), Set(C, 1), Set(A, 3)];
    var calls1 := calls[1..];
    var calls2 := calls1[1..];
    var calls3 := calls2[1..];
    var calls4 := calls3[1..];
    assert calls4[1..] == [];
    RunNothing(cfg, end);
    RunMore(cfg, Vol([dead, b, a2, c]), calls4, end, end);
    RunMore(cfg, Vol([dead, b, a2]), calls3, Vol([dead, b, a2, c]), end);
    RunMore(cfg, Vol([a, b]), calls2, Vol([dead, b, a2]), end);
    RunMore(cfg, Vol([a]), calls1, Vol([a, b]), end);
    RunMore(cfg, Vol([]), calls, Vol([a]), end);
  }

  lemma SetAgain(log: seq<Record>, next: seq<Record>)
    requires log == [Sample(VAR_ADDED, A, 1), Sample(VAR_ADDED, B, 1)] && Good(Vol(log))
    requires next == [Sample(0x3c, A, 1), Sample(VAR_ADDED, B, 1), Sample(VAR_ADDED, A, 2)]
    ensures Admissible(Room(4), Vol(log), Set(A, 2)) && Step(Room(4), Vol(log), Set(A, 2)).0 == Vol(next) && Good(Vol(next))
  {
    hide Admissible, Step, Good, And;
    SetStep(4, log, A, 2, Some(0));
    SampleStates(A, 1);
    assert Marked(log, Some(0)) == [Sample(IN_TRANSITION, A, 1), log[1]];
    assert Replaced(log, Sample(VAR_ADDED, A, 2), Some(0)) == next;
  }

  lemma SetFull(log: seq<Record>)
    requires log == [Sample(0x3c, A, 1), Sample(VAR_ADDED, B, 1), Sample(VAR_ADDED, A, 2), Sample(VAR_ADDED, C, 1)] && Good(Vol(log))
    ensures Admissible(Room(4), Vol(log), Set(A, 3)) && Step(Room(4), Vol(log), Set(A, 3)).0 == Vol(Skipping())
    ensures Good(Vol(Skipping()))
  {
    hide Admissible, Step, Good, And;
    SampleStates(A, 2);
    var m := Marked(log, Some(2));
    assert m == [log[0], log[1], Sample(IN_TRANSITION, A, 2), log[3]];
    assert !ExistNewer(m, 2);
    assert Keep(m, 0, Some(2)) == [] && Keep(m, 1, Some(2)) == [m[1]] && Keep(m, 2, Some(2)) == [m[2]] && Keep(m, 3, Some(2)) == [m[3]];
    assert ReclaimUpTo(m, 1, Some(2)) == [];
    assert ReclaimUpTo(m, 2, Some(2)) == [m[1]];
    assert ReclaimUpTo(m, 3, Some(2)) == [m[1], m[2]];
    assert ReclaimedFor(log, Some(2)) == [m[1], m[2], m[3]];
    hide Keep, ReclaimedFor;
    SetStep(4, log, A, 3, Some(2));
  }

  /** In that store C is there, but the calls return B and A and then nothing: the search for A goes on behind its newest record. */
  lemma SkippingExample(n: nat)
    requires n > 4
    ensures
      var log := All(Vol(Skipping()));
      && Lookup(Vol(Skipping()), BootQuery(KeyFor(C))) == Some(Value(BOOTSERVICE_ACCESS, [1]))
      && Calls(log, Start(false), n) == [KeyFor(B), KeyFor(A)] && KeyFor(C) !in Calls(log, Start(false), n)
  {
    hide And, Good, Run, RunAdmissible, Calls, Search, Ordered, Names;
    var log := Skipping();
    SkippingReached();
    assert All(Vol(log)) == log;
    GoodIsOrdered(Vol(log));
    EnumerationLists(log, false, n);
    SkippingSearches(log);
    SkippingNames(log);
  }

  lemma SkippingSearches(log: seq<Record>)
    requires log == Skipping()
    ensures Search(log, Start(false)) == Some(0) && Search(log, BootQuery(KeyFor(C))) == Some(2)
  {
    hide And, LastInTransition;
    FirstAddedIs(log, BootQuery(KeyFor(C)), 0);
    assert Matches(log[2], BootQuery(KeyFor(C)));
    assert !Matches(log[0], BootQuery(KeyFor(C))) && !Matches(log[3], BootQuery(KeyFor(C)));
    assert Matches(log[0], Start(false));
  }

  lemma SkippingNames(log: seq<Record>)
    requires log == Skipping()
    ensures Names(log, 0, false) == [KeyFor(B), KeyFor(A)]
  {
    hide And, LastSame, Names, NextVisible;
    NamesStep(log, 0, 0);
    NamesStep(log, 1, 3);
    NamesEnd(log);
  }

  /** A visible record i whose key has its newest record at q. */
  lemma NamesStep(log: seq<Record>, i: nat, q: nat)
    requires i < |log| && Visible(log[i], false) && NewestVisible(log, KeyOf(log[i]), false, q)
    ensures Names(log, i, false) == [KeyOf(log[i])] + Names(log, q + 1, false)
  {
    hide Visible, NewestVisible, LastSame, NextVisible;
    VisibleStep(log, i, false);
    OneNewest(log, KeyOf(log[i]), false, LastSame(log, i, false), q);
  }

  lemma NamesEnd(log: seq<Record>)
    ensures Names(log, |log|, false) == []
  {
    VisibleEnd(log, |log|, false);
  }
}
