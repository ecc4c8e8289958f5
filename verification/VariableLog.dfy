/**
 The variable store as two logs of records. A record is never rewritten: only
 bits of its state are cleared, and reclaiming drops whole records.
 */
module VariableLog {
  import opened Words
  import opened Bytes

  const VAR_ADDED: uint8 := 0x3f
  const VAR_IN_DELETED_TRANSITION: uint8 := 0xfe
  const VAR_DELETED: uint8 := 0xfd

  /** VAR_ADDED & VAR_IN_DELETED_TRANSITION. */
  const IN_TRANSITION: uint8 := 0x3e

  const NON_VOLATILE := 1
  const BOOTSERVICE_ACCESS := 2
  const RUNTIME_ACCESS := 4
  const HARDWARE_ERROR_RECORD := 8
  const AUTHENTICATED_WRITE_ACCESS := 0x10

  /** A name without its terminator. */
  type Name = n: seq<uint16> | forall i :: 0 <= i < |n| ==> n[i] != 0

  type Guid = g: seq<uint8> | |g| == 16 witness seq(16, _ => 0)

  datatype Key = Key(name: Name, guid: Guid)

  datatype Record = Record(state: uint8, attributes: uint32, name: Name, guid: Guid, data: seq<uint8>)

  datatype Value = Value(attributes: uint32, data: seq<uint8>)

  function KeyOf(r: Record): Key
  {
    Key(r.name, r.guid)
  }

  function ValueOf(r: Record): Value
  {
    Value(r.attributes, r.data)
  }

  predicate Live(r: Record)
  {
    r.state == VAR_ADDED || r.state == IN_TRANSITION
  }

  predicate LiveFor(r: Record, k: Key)
  {
    Live(r) && KeyOf(r) == k
  }

  lemma States()
    ensures And(VAR_ADDED, VAR_IN_DELETED_TRANSITION) == IN_TRANSITION
    ensures And(IN_TRANSITION, VAR_IN_DELETED_TRANSITION) == IN_TRANSITION
    ensures And(VAR_ADDED, VAR_DELETED) == 0x3d && And(IN_TRANSITION, VAR_DELETED) == 0x3c
  {
    hide And;
    ClearLowBits(VAR_ADDED);
    ClearLowBits(IN_TRANSITION);
  }

  function WithState(r: Record, state: uint8): Record
  {
    r.(state := state)
  }

  /** Clear bits of the state of record i. */
  function Clear(log: seq<Record>, i: nat, mask: uint8): (r: seq<Record>)
    requires i < |log|
    ensures |r| == |log|
  {
    log[i := WithState(log[i], And(log[i].state, mask))]
  }

  // ---- the live values of a key

  /** The values of k that are still alive, the newest last. */
  function Stack(log: seq<Record>, k: Key): (s: seq<Value>)
  {
    if log == [] then []
    else Stack(log[..|log| - 1], k) + One(log[|log| - 1], k)
  }

  function One(r: Record, k: Key): seq<Value>
  {
    if LiveFor(r, k) then [ValueOf(r)] else []
  }

  lemma {:induction false} StackConcat(a: seq<Record>, b: seq<Record>, k: Key)
    ensures Stack(a + b, k) == Stack(a, k) + Stack(b, k)
    decreases |b|
  {
    if b == [] {
      assert a + b == a;
    } else {
      var n := |b| - 1;
      assert (a + b)[..|a + b| - 1] == a + b[..n];
      StackConcat(a, b[..n], k);
    }
  }

  lemma StackOne(r: Record, k: Key)
    ensures Stack([r], k) == One(r, k)
  {
    assert [r][..0] == [];
  }

  /** The live values before record i, at it, and after it. */
  lemma StackSplit(log: seq<Record>, i: nat, k: Key)
    requires i < |log|
    ensures Stack(log, k) == Stack(log[..i], k) + One(log[i], k) + Stack(log[i + 1..], k)
  {
    assert log == log[..i] + ([log[i]] + log[i + 1..]);
    StackConcat(log[..i], [log[i]] + log[i + 1..], k);
    StackConcat([log[i]], log[i + 1..], k);
    StackOne(log[i], k);
  }

  lemma {:induction false} StackEmpty(log: seq<Record>, k: Key)
    ensures Stack(log, k) == [] <==> forall j :: 0 <= j < |log| ==> !LiveFor(log[j], k)
  {
    if log != [] {
      var n := |log| - 1;
      StackEmpty(log[..n], k);
    }
  }

  /** i is the newest live record of k. */
  predicate Newest(log: seq<Record>, k: Key, i: nat)
  {
    i < |log| && LiveFor(log[i], k) && forall j :: i < j < |log| ==> !LiveFor(log[j], k)
  }

  lemma NewestIsTop(log: seq<Record>, k: Key, i: nat)
    requires Newest(log, k, i)
    ensures Stack(log[i + 1..], k) == []
    ensures Stack(log, k) == Stack(log[..i], k) + [ValueOf(log[i])]
  {
    StackSplit(log, i, k);
    StackEmpty(log[i + 1..], k);
  }

  /** Replacing a record by one that is live for no other key replaces its place in the stacks. */
  lemma StackReplace(log: seq<Record>, i: nat, r: Record, k: Key)
    requires i < |log|
    ensures Stack(log[i := r], k) == Stack(log[..i], k) + One(r, k) + Stack(log[i + 1..], k)
  {
    var l := log[i := r];
    assert l[..i] == log[..i] && l[i + 1..] == log[i + 1..];
    StackSplit(l, i, k);
  }

  // ---- finding a record

  /** What FindVariable looks for; an empty name matches every record. */
  datatype Query = Query(name: Name, guid: Guid, runtime: bool)

  predicate Accessible(r: Record, runtime: bool)
  {
    !runtime || And(r.attributes, RUNTIME_ACCESS) != 0
  }

  /** The record is live, and accessible at this time. */
  predicate Visible(r: Record, runtime: bool)
  {
    Live(r) && Accessible(r, runtime)
  }

  predicate Matches(r: Record, q: Query)
  {
    Accessible(r, q.runtime) && (q.name == [] || (r.name == q.name && r.guid == q.guid))
  }

  /** The first record from i on that is added and matches. */
  function FirstAdded(log: seq<Record>, q: Query, i: nat): (r: Option<nat>)
    decreases |log| - i
  {
    if i >= |log| then None
    else if log[i].state == VAR_ADDED && Matches(log[i], q) then Some(i)
    else FirstAdded(log, q, i + 1)
  }

  /** The last record before n that is in transition and matches. */
  function LastInTransition(log: seq<Record>, q: Query, n: nat): (r: Option<nat>)
    requires n <= |log|
  {
    if n == 0 then None
    else if log[n - 1].state == IN_TRANSITION && Matches(log[n - 1], q) then Some(n - 1)
    else LastInTransition(log, q, n - 1)
  }

  /** The first added record, or else the last one in transition. */
  function Search(log: seq<Record>, q: Query): Option<nat>
  {
    var a := FirstAdded(log, q, 0);
    if a.Some? then a else LastInTransition(log, q, |log|)
  }

  lemma {:induction false} FirstAddedIs(log: seq<Record>, q: Query, i: nat)
    ensures match FirstAdded(log, q, i)
      case Some(a) => i <= a < |log| && log[a].state == VAR_ADDED && Matches(log[a], q)
        && forall j :: i <= j < a ==> !(log[j].state == VAR_ADDED && Matches(log[j], q))
      case None => forall j :: i <= j < |log| ==> !(log[j].state == VAR_ADDED && Matches(log[j], q))
    decreases |log| - i
  {
    if i < |log| { FirstAddedIs(log, q, i + 1); }
  }

  lemma {:induction false} LastInTransitionIs(log: seq<Record>, q: Query, n: nat)
    requires n <= |log|
    ensures match LastInTransition(log, q, n)
      case Some(a) => a < n && log[a].state == IN_TRANSITION && Matches(log[a], q)
        && forall j :: a < j < n ==> !(log[j].state == IN_TRANSITION && Matches(log[j], q))
      case None => forall j :: 0 <= j < n ==> !(log[j].state == IN_TRANSITION && Matches(log[j], q))
  {
    if n > 0 { LastInTransitionIs(log, q, n - 1); }
  }

  /** Searching one log after the other is searching them as one. */
  lemma SearchConcat(a: seq<Record>, b: seq<Record>, q: Query)
    ensures Search(a + b, q) ==
      var x, y := FirstAdded(a, q, 0), FirstAdded(b, q, 0);
      if x.Some? then x
      else if y.Some? then Some(|a| + y.value)
      else
        var z := LastInTransition(b, q, |b|);
        if z.Some? then Some(|a| + z.value) else LastInTransition(a, q, |a|)
  {
    hide FirstAdded, LastInTransition;
    FirstAddedConcat(a, b, q, 0);
    LastConcat(a, b, q, |b|);
  }

  lemma {:induction false} FirstAddedConcat(a: seq<Record>, b: seq<Record>, q: Query, i: nat)
    requires i <= |a|
    ensures FirstAdded(a + b, q, i) ==
      if FirstAdded(a, q, i).Some? then FirstAdded(a, q, i)
      else if FirstAdded(b, q, 0).Some? then Some(|a| + FirstAdded(b, q, 0).value) else None
    decreases |a| - i
  {
    if i < |a| { FirstAddedConcat(a, b, q, i + 1); } else { FirstAddedShift(a, b, q, 0); }
  }

  lemma {:induction false} FirstAddedShift(a: seq<Record>, b: seq<Record>, q: Query, i: nat)
    ensures FirstAdded(a + b, q, |a| + i) == if FirstAdded(b, q, i).Some? then Some(|a| + FirstAdded(b, q, i).value) else None
    decreases |b| - i
  {
    if i < |b| { FirstAddedShift(a, b, q, i + 1); }
  }

  lemma {:induction false} LastConcat(a: seq<Record>, b: seq<Record>, q: Query, n: nat)
    requires n <= |b|
    ensures LastInTransition(a + b, q, |a| + n) ==
      if LastInTransition(b, q, n).Some? then Some(|a| + LastInTransition(b, q, n).value) else LastInTransition(a, q, |a|)
  {
    if n > 0 { LastConcat(a, b, q, n - 1); } else { LastPrefix(a, b, q, |a|); }
  }

  lemma {:induction false} LastPrefix(a: seq<Record>, b: seq<Record>, q: Query, n: nat)
    requires n <= |a|
    ensures LastInTransition(a + b, q, n) == LastInTransition(a, q, n)
  {
    if n > 0 { LastPrefix(a, b, q, n - 1); }
  }

  // ---- the invariant of a log

  /** An added record with a newer live record of the same key. */
  predicate Clash(r: Record, later: Record)
  {
    r.state == VAR_ADDED && LiveFor(later, KeyOf(r))
  }

  /** All live records of a key but the newest are in transition. */
  predicate Ordered(log: seq<Record>)
  {
    forall i, j :: 0 <= i < j < |log| ==> !Clash(log[i], log[j])
  }

  predicate VisibleFor(r: Record, k: Key, runtime: bool)
  {
    Visible(r, runtime) && KeyOf(r) == k
  }

  /** i is the newest visible record of k. */
  predicate NewestVisible(log: seq<Record>, k: Key, runtime: bool, i: nat)
  {
    i < |log| && VisibleFor(log[i], k, runtime) && forall j :: i < j < |log| ==> !VisibleFor(log[j], k, runtime)
  }

  /** The live records of one key are ordered. */
  predicate OrderedFor(log: seq<Record>, k: Key)
  {
    forall i, j :: 0 <= i < j < |log| ==> !(KeyOf(log[i]) == k && Clash(log[i], log[j]))
  }

  /** The search by key finds the newest visible record, at boot time and at runtime. */
  lemma SearchFindsVisible(log: seq<Record>, k: Key, runtime: bool)
    requires OrderedFor(log, k) && k.name != []
    ensures match Search(log, Query(k.name, k.guid, runtime))
      case Some(i) => NewestVisible(log, k, runtime, i)
      case None => forall j :: 0 <= j < |log| ==> !VisibleFor(log[j], k, runtime)
  {
    hide And, FirstAdded, LastInTransition;
    var q := Query(k.name, k.guid, runtime);
    FirstAddedIs(log, q, 0);
    LastInTransitionIs(log, q, |log|);
    forall j | 0 <= j < |log| ensures Live(log[j]) && Matches(log[j], q) <==> VisibleFor(log[j], k, runtime) {}
    var a := FirstAdded(log, q, 0);
    if a.Some? {
      forall j | a.value < j < |log| ensures !VisibleFor(log[j], k, runtime) {
        assert !(KeyOf(log[a.value]) == k && Clash(log[a.value], log[j]));
      }
    }
  }

  lemma OrderedForAll(log: seq<Record>, k: Key)
    requires Ordered(log)
    ensures OrderedFor(log, k)
  {
    hide Clash;
  }

  /** At boot time the search by key finds the newest live record. */
  lemma SearchFindsNewest(log: seq<Record>, k: Key)
    requires OrderedFor(log, k) && k.name != []
    ensures match Search(log, Query(k.name, k.guid, false))
      case Some(i) => Newest(log, k, i)
      case None => Stack(log, k) == []
  {
    hide Stack, OrderedFor, Search, And;
    SearchFindsVisible(log, k, false);
    StackEmpty(log, k);
    forall j | 0 <= j < |log| ensures VisibleFor(log[j], k, false) <==> LiveFor(log[j], k) {}
  }

  // ---- reclaiming

  /** A newer live record of the same key exists. */
  predicate ExistNewer(log: seq<Record>, i: nat)
    requires i < |log|
  {
    exists j :: i < j < |log| && LiveFor(log[j], KeyOf(log[i]))
  }

  /** What becomes of record i; the current one stays in transition. */
  function Keep(log: seq<Record>, i: nat, cur: Option<nat>): seq<Record>
    requires i < |log|
  {
    if log[i].state == VAR_ADDED then [log[i]]
    else if log[i].state == IN_TRANSITION && !ExistNewer(log, i) then
      [if cur == Some(i) then log[i] else WithState(log[i], VAR_ADDED)]
    else []
  }

  function ReclaimUpTo(log: seq<Record>, n: nat, cur: Option<nat>): seq<Record>
    requires n <= |log|
  {
    if n == 0 then [] else ReclaimUpTo(log, n - 1, cur) + Keep(log, n - 1, cur)
  }

  function Reclaimed(log: seq<Record>, cur: Option<nat>): seq<Record>
  {
    ReclaimUpTo(log, |log|, cur)
  }

  /** The top of a stack alone. */
  function Top(s: seq<Value>): seq<Value>
  {
    if s == [] then [] else [s[|s| - 1]]
  }

  predicate Later(log: seq<Record>, n: nat, k: Key)
  {
    exists j :: n <= j < |log| && LiveFor(log[j], k)
  }

  lemma {:induction false} ReclaimStack(log: seq<Record>, n: nat, cur: Option<nat>, k: Key)
    requires n <= |log| && Ordered(log)
    ensures Stack(ReclaimUpTo(log, n, cur), k) == if Later(log, n, k) then [] else Top(Stack(log[..n], k))
  {
    hide Stack, Keep, One, Later, Ordered;
    if n == 0 {
      assert log[..n] == [];
      StackEmpty([], k);
    } else {
      var i := n - 1;
      ReclaimStack(log, i, cur, k);
      StackConcat(ReclaimUpTo(log, i, cur), Keep(log, i, cur), k);
      KeepStack(log, i, cur, k);
      StackSnoc(log, i, k);
      LaterStep(log, i, k);
    }
  }

  lemma StackSnoc(log: seq<Record>, i: nat, k: Key)
    requires i < |log|
    ensures Stack(log[..i + 1], k) == Stack(log[..i], k) + One(log[i], k)
    ensures One(log[i], k) == if LiveFor(log[i], k) then [ValueOf(log[i])] else []
  {
    assert log[..i + 1][..i] == log[..i];
  }

  lemma LaterStep(log: seq<Record>, i: nat, k: Key)
    requires i < |log|
    ensures Later(log, i, k) <==> LiveFor(log[i], k) || Later(log, i + 1, k)
  {
  }

  lemma KeepStack(log: seq<Record>, i: nat, cur: Option<nat>, k: Key)
    requires i < |log| && Ordered(log)
    ensures Stack(Keep(log, i, cur), k) == if Later(log, i + 1, k) then [] else One(log[i], k)
  {
    hide Stack;
    var s := Keep(log, i, cur);
    if s != [] { StackOne(s[0], k); } else { StackEmpty(s, k); }
    if Later(log, i + 1, k) && LiveFor(log[i], k) {
      var j :| i + 1 <= j < |log| && LiveFor(log[j], k);
      assert !Clash(log[i], log[j]);
    }
  }

  /** Reclaiming leaves of every key exactly its newest value. */
  lemma ReclaimKeepsTop(log: seq<Record>, cur: Option<nat>, k: Key)
    requires Ordered(log)
    ensures Stack(Reclaimed(log, cur), k) == Top(Stack(log, k))
  {
    ReclaimStack(log, |log|, cur, k);
    assert log[..|log|] == log;
  }
}
