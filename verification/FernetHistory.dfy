/** Whole runs of ensureFernetKeys on the stored secret. */
module FernetHistory {
  import opened Wrappers
  import opened FernetSlots
  import opened FernetResize
  import opened FernetRepository
  import opened FernetContents
  import opened FernetRuns
  import opened Times

  /** One call: the spec it sees, when it is made, and whether it fails without effect - because a key
      cannot be generated, or the secret cannot be read or stored. */
  datatype Turn = Turn(spec: Spec, now: int, fails: bool)

  /** A call that takes effect, from secret a to secret b; keys are numbered from serial on, and after it
      from serial'. */
  ghost predicate Called(a: Secret, b: Secret, turn: Turn, serial: nat, serial': nat) {
    && turn.spec.Valid() && Completes(a, turn.spec, turn.now, serial)
    && b == Next(a, turn.spec, turn.now, serial)
    && serial' == serial + KeysNeeded(a, turn.spec, turn.now, serial)
  }

  /** A call that fails leaves the secret alone, but may have generated keys. */
  ghost predicate Moved(a: Secret, b: Secret, turn: Turn, serial: nat, serial': nat) {
    if turn.fails then b == a && serial' >= serial else Called(a, b, turn, serial, serial')
  }

  /** The stored secret before, between and after the calls of a run, and the numbers of the next keys. */
  ghost predicate IsHistory(states: seq<Secret>, turns: seq<Turn>, serials: seq<nat>) {
    && |states| == |serials| == |turns| + 1
    && forall i | 0 <= i < |turns| :: Moved(states[i], states[i + 1], turns[i], serials[i], serials[i + 1])
  }

  function Due(secret: Secret, turn: Turn): bool {
    RotationDue(secret.rotatedAt, turn.spec.Days(), turn.now)
  }

  // ----- Any run on contiguous keys -----

  /** How many keys a call on m contiguous keys generates. */
  function Consumed(m: nat, n: nat, due: bool): nat {
    if due then 1 else if n > m then n - m else 0
  }

  lemma KeysNeededIs(secret: Secret, spec: Spec, now: int, serial: nat, s: seq<Value>)
    requires spec.Valid() && Holds(secret.data, s) && |s| >= 1 && Completes(secret, spec, now, serial)
    ensures KeysNeeded(secret, spec, now, serial) ==
            Consumed(|s|, spec.Keys(), RotationDue(secret.rotatedAt, spec.Days(), now))
  {
    var (d, c) := Started(secret, spec, now, serial);
    var s1 := StartHolds(secret, spec, now, serial, s);
    AddedIs(d, spec.Keys(), c, s1);
  }

  /** The keys the resizing loops start from. */
  lemma StartHolds(secret: Secret, spec: Spec, now: int, serial: nat, s: seq<Value>) returns (s1: seq<Value>)
    requires spec.Valid() && Holds(secret.data, s) && |s| >= 1 && Completes(secret, spec, now, serial)
    ensures var due := RotationDue(secret.rotatedAt, spec.Days(), now);
            && Holds(Started(secret, spec, now, serial).0, s1) && |s1| >= |s|
            && (if due then |s| >= spec.Keys() && |s1| > spec.Keys() else s1 == s)
  {
    CompletesIff(secret, spec, now, serial, s);
    var n := spec.Keys();
    if RotationDue(secret.rotatedAt, spec.Days(), now) {
      StartedHolds(secret, spec, now, serial, s);
      s1 := (if |s| == n then s + [s[0]] else s[n := s[0]])[0 := Generated(serial)];
    } else {
      s1 := s;
    }
  }

  lemma AddedIs(d: Data, n: nat, serial: nat, s: seq<Value>)
    requires n >= 3 && Holds(d, s) && |s| >= 1 && Removable(d, n)
    ensures Added(RemoveAll(d, n), n, serial) == if |s| < n then n - |s| else 0
  {
    RemoveAllHolds(d, n, s);
    AddAllHolds(RemoveAll(d, n), n, serial, Shrunk(s, n));
  }

  /** One call takes keys s to keys t. */
  ghost predicate Changes(s: seq<Value>, t: seq<Value>, n: nat, due: bool, serial: nat, serial': nat) {
    && n >= 3 && |s| >= 1 && |t| == n && (due ==> |s| >= n)
    && t == After(s, n, due, serial) && serial' == serial + Consumed(|s|, n, due)
  }

  /** The same for a call that may fail. */
  ghost predicate Becomes(s: seq<Value>, t: seq<Value>, a: Secret, turn: Turn, serial: nat, serial': nat) {
    if turn.fails then t == s && serial' >= serial
    else Changes(s, t, turn.spec.Keys(), Due(a, turn), serial, serial')
  }

  lemma CallRefines(a: Secret, b: Secret, turn: Turn, serial: nat, serial': nat, s: seq<Value>) returns (t: seq<Value>)
    requires Called(a, b, turn, serial, serial') && Holds(a.data, s) && |s| >= 1
    ensures Holds(b.data, t) && Changes(s, t, turn.spec.Keys(), Due(a, turn), serial, serial')
  {
    NextHolds(a, turn.spec, turn.now, serial, s);
    AfterSize(s, turn.spec.Keys(), Due(a, turn), serial);
    KeysNeededIs(a, turn.spec, turn.now, serial, s);
    t := After(s, turn.spec.Keys(), Due(a, turn), serial);
  }

  lemma MoveRefines(a: Secret, b: Secret, turn: Turn, serial: nat, serial': nat, s: seq<Value>) returns (t: seq<Value>)
    requires Moved(a, b, turn, serial, serial') && Holds(a.data, s) && |s| >= 1
    ensures Holds(b.data, t) && |t| >= 1 && Becomes(s, t, a, turn, serial, serial')
  {
    if turn.fails {
      t := s;
    } else {
      t := CallRefines(a, b, turn, serial, serial', s);
    }
  }

  /** A run on contiguous keys goes on with a further call exactly if that is not due with too few keys;
      otherwise that call never ends. */
  lemma GoesOnIff(secret: Secret, turn: Turn, serial: nat, s: seq<Value>)
    requires turn.spec.Valid() && Holds(secret.data, s) && |s| >= 1
    ensures (exists b, serial' :: Called(secret, b, turn, serial, serial')) <==>
            (Due(secret, turn) ==> |s| >= turn.spec.Keys())
  {
    CompletesIff(secret, turn.spec, turn.now, serial, s);
    if Completes(secret, turn.spec, turn.now, serial) {
      var b := Next(secret, turn.spec, turn.now, serial);
      assert Called(secret, b, turn, serial, serial + KeysNeeded(secret, turn.spec, turn.now, serial));
    }
  }

  /** Over whole runs the in-place calls refine the sequence operation: after every call the secret holds
      what After makes of what it held before, and what it held before if the call failed. */
  lemma {:induction false} HistoryRefines(states: seq<Secret>, turns: seq<Turn>, serials: seq<nat>, s: seq<Value>)
    returns (contents: seq<seq<Value>>)
    requires IsHistory(states, turns, serials) && Holds(states[0].data, s) && |s| >= 1
    ensures |contents| == |states| && contents[0] == s
    ensures forall i | 0 <= i < |states| :: Holds(states[i].data, contents[i])
    ensures forall i | 0 <= i < |turns| ::
              Becomes(contents[i], contents[i + 1], states[i], turns[i], serials[i], serials[i + 1])
    decreases |turns|
  {
    if turns == [] {
      contents := [s];
    } else {
      var t := MoveRefines(states[0], states[1], turns[0], serials[0], serials[1], s);
      var rest := HistoryRefines(states[1..], turns[1..], serials[1..], t);
      contents := [s] + rest;
      forall i: nat | i < |turns|
        ensures Becomes(contents[i], contents[i + 1], states[i], turns[i], serials[i], serials[i + 1])
      {
        if i > 0 {
          assert turns[i] == turns[1..][i - 1];
        }
      }
    }
  }

  /** Rotations are only due while the key count matches the spec. */
  ghost predicate NeverDueResizing(states: seq<Secret>, turns: seq<Turn>, contents: seq<seq<Value>>) {
    |states| == |contents| == |turns| + 1 &&
    forall i | 0 <= i < |turns| && !turns[i].fails ::
      Due(states[i], turns[i]) ==> |contents[i]| == turns[i].spec.Keys()
  }

  lemma ChangeKeepsNewest(s: seq<Value>, t: seq<Value>, n: nat, due: bool, serial: nat, serial': nat)
    requires Changes(s, t, n, due, serial, serial') && (due ==> |s| == n)
    ensures KeepsNewest(Order(s), Order(t), serial)
  {
    OrderKept(s, n, due, serial);
  }

  lemma {:induction false} KeepsNewestUpTo(states: seq<Secret>, turns: seq<Turn>, serials: seq<nat>,
                                           contents: seq<seq<Value>>, k: nat)
    requires |serials| == |turns| + 1 && k <= |turns| && NeverDueResizing(states, turns, contents)
    requires |contents[0]| >= 1
    requires forall i | 0 <= i < |turns| ::
              Becomes(contents[i], contents[i + 1], states[i], turns[i], serials[i], serials[i + 1])
    ensures serials[0] <= serials[k] && |contents[k]| >= 1
    ensures KeepsNewest(Order(contents[0]), Order(contents[k]), serials[0])
  {
    if k == 0 {
      var o := Order(contents[0]);
      assert Splits(o, o, serials[0], [], 0, []);
    } else {
      var turn := turns[k - 1];
      KeepsNewestUpTo(states, turns, serials, contents, k - 1);
      if !turn.fails {
        ChangeKeepsNewest(contents[k - 1], contents[k], turn.spec.Keys(), Due(states[k - 1], turn),
                          serials[k - 1], serials[k]);
        KeepsNewestTransitive(Order(contents[0]), Order(contents[k - 1]), Order(contents[k]),
                              serials[0], serials[k - 1]);
      }
    }
  }

  /** Over any run of calls on the stored secret in which rotations are only due while the key count
      matches the spec, only the oldest keys are ever dropped, and the survivors keep their age order. */
  lemma HistoryKeepsNewest(states: seq<Secret>, turns: seq<Turn>, serials: seq<nat>, contents: seq<seq<Value>>, k: nat)
    requires IsHistory(states, turns, serials) && k <= |turns| && NeverDueResizing(states, turns, contents)
    requires (forall i | 0 <= i < |states| :: Holds(states[i].data, contents[i])) && |contents[0]| >= 1
    ensures |contents[k]| >= 1 && KeepsNewest(Order(contents[0]), Order(contents[k]), serials[0])
  {
    var c := HistoryRefines(states, turns, serials, contents[0]);
    forall i: nat | i < |states|
      ensures c[i] == contents[i]
    {
      HoldsUnique(states[i].data, c[i], contents[i]);
    }
    assert c == contents;
    KeepsNewestUpTo(states, turns, serials, contents, k);
  }

  lemma HoldsUnique(d: Data, s: seq<Value>, t: seq<Value>)
    requires Holds(d, s) && Holds(d, t)
    ensures s == t
  {
    assert |s| <= |t| by {
      assert At(d, |t|).None?;
    }
    assert |t| <= |s| by {
      assert At(d, |s|).None?;
    }
    forall i: nat | i < |s|
      ensures s[i] == t[i]
    {
      assert At(d, i) == Some(s[i]);
    }
  }

  // ----- Runs with a fixed spec -----

  ghost predicate Fixed(turns: seq<Turn>, spec: Spec) {
    forall i | 0 <= i < |turns| :: turns[i].spec == spec
  }

  /** The stored secret holds n keys, contiguous, with a valid timestamp. */
  ghost predicate Settled(secret: Secret, spec: Spec, s: seq<Value>) {
    spec.Valid() && Holds(secret.data, s) && |s| == spec.Keys() && secret.rotatedAt.Some?
  }

  function Rotates(secret: Secret, turn: Turn): bool {
    !turn.fails && Due(secret, turn)
  }

  lemma SettledNext(secret: Secret, spec: Spec, now: int, serial: nat, s: seq<Value>)
    requires Settled(secret, spec, s)
    ensures Completes(secret, spec, now, serial)
    ensures var (due, next) := (RotationDue(secret.rotatedAt, spec.Days(), now), Next(secret, spec, now, serial));
            && KeysNeeded(secret, spec, now, serial) == (if due then 1 else 0)
            && Settled(next, spec, if due then Rotated(s, serial) else s)
            && next.rotatedAt == if due then Some(Truncated(now)) else secret.rotatedAt
  {
    SteadyNext(secret, spec, now, serial, s);
    KeysNeededIs(secret, spec, now, serial, s);
  }

  lemma SettledMove(a: Secret, b: Secret, turn: Turn, serial: nat, serial': nat, s: seq<Value>)
    requires Settled(a, turn.spec, s) && Moved(a, b, turn, serial, serial')
    ensures serial' >= serial + (if Rotates(a, turn) then 1 else 0)
    ensures Settled(b, turn.spec, if Rotates(a, turn) then Rotated(s, serial) else s)
    ensures b.rotatedAt == if Rotates(a, turn) then Some(Truncated(turn.now)) else a.rotatedAt
  {
    SettledNext(a, turn.spec, turn.now, serial, s);
  }

  /** A run with a fixed spec that starts with n contiguous keys s. */
  ghost predicate SettledRun(states: seq<Secret>, spec: Spec, turns: seq<Turn>, serials: seq<nat>, s: seq<Value>) {
    IsHistory(states, turns, serials) && Settled(states[0], spec, s) && Fixed(turns, spec)
  }

  /** The run after its first call. */
  lemma AfterFirst(states: seq<Secret>, spec: Spec, turns: seq<Turn>, serials: seq<nat>, s: seq<Value>)
    returns (t: seq<Value>)
    requires SettledRun(states, spec, turns, serials, s) && turns != []
    ensures SettledRun(states[1..], spec, turns[1..], serials[1..], t)
    ensures serials[1] >= serials[0] + (if Rotates(states[0], turns[0]) then 1 else 0)
    ensures t == if Rotates(states[0], turns[0]) then Rotated(s, serials[0]) else s
    ensures states[1].rotatedAt ==
            if Rotates(states[0], turns[0]) then Some(Truncated(turns[0].now)) else states[0].rotatedAt
  {
    SettledMove(states[0], states[1], turns[0], serials[0], serials[1], s);
    t := if Rotates(states[0], turns[0]) then Rotated(s, serials[0]) else s;
  }

  /** From n contiguous keys every call ends: calls at any times, some of which fail, make up a run. */
  lemma {:induction false} HistoryExists(secret: Secret, spec: Spec, turns: seq<Turn>, serial: nat, s: seq<Value>)
    returns (states: seq<Secret>, serials: seq<nat>)
    requires Settled(secret, spec, s) && Fixed(turns, spec)
    ensures IsHistory(states, turns, serials) && states[0] == secret && serials[0] == serial
    decreases |turns|
  {
    if turns == [] {
      states, serials := [secret], [serial];
    } else {
      var turn := turns[0];
      SettledNext(secret, spec, turn.now, serial, s);
      var next := if turn.fails then secret else Next(secret, spec, turn.now, serial);
      var serial' := if turn.fails then serial else serial + KeysNeeded(secret, spec, turn.now, serial);
      var t := if Rotates(secret, turn) then Rotated(s, serial) else s;
      states, serials := HistoryExists(next, spec, turns[1..], serial', t);
      HistoryBefore(secret, turn, serial, states, turns[1..], serials);
      states, serials := [secret] + states, [serial] + serials;
      assert [turn] + turns[1..] == turns;
    }
  }

  lemma HistoryBefore(secret: Secret, turn: Turn, serial: nat, states: seq<Secret>, turns: seq<Turn>, serials: seq<nat>)
    requires IsHistory(states, turns, serials) && Moved(secret, states[0], turn, serial, serials[0])
    ensures IsHistory([secret] + states, [turn] + turns, [serial] + serials)
  {
  }

  /** The numbers of the keys that the rotations of a run generate. */
  function NewKeys(states: seq<Secret>, turns: seq<Turn>, serials: seq<nat>): seq<nat>
    requires |states| == |serials| == |turns| + 1
    decreases |turns|
  {
    if turns == [] then []
    else (if Rotates(states[0], turns[0]) then [serials[0]] else []) + NewKeys(states[1..], turns[1..], serials[1..])
  }

  lemma {:induction false} NewKeysIncrease(states: seq<Secret>, spec: Spec, turns: seq<Turn>, serials: seq<nat>,
                                           s: seq<Value>)
    requires SettledRun(states, spec, turns, serials, s)
    ensures var keys := NewKeys(states, turns, serials);
            Increasing(keys) && forall i | 0 <= i < |keys| :: serials[0] <= keys[i]
    decreases |turns|
  {
    if turns != [] {
      var t := AfterFirst(states, spec, turns, serials, s);
      NewKeysIncrease(states[1..], spec, turns[1..], serials[1..], t);
    }
  }

  lemma {:induction false} HistoryRotates(states: seq<Secret>, spec: Spec, turns: seq<Turn>, serials: seq<nat>,
                                          s: seq<Value>)
    requires SettledRun(states, spec, turns, serials, s)
    ensures Holds(states[|turns|].data, Rotations(s, NewKeys(states, turns, serials)))
    decreases |turns|
  {
    if turns != [] {
      var t := AfterFirst(states, spec, turns, serials, s);
      HistoryRotates(states[1..], spec, turns[1..], serials[1..], t);
      var rest := NewKeys(states[1..], turns[1..], serials[1..]);
      assert ([serials[0]] + rest)[1..] == rest && [] + rest == rest;
    }
  }

  /** The stored keys are a conveyor belt: if k of the calls rotate, k new keys have entered at the young
      end and the k oldest have left. */
  lemma HistoryOrder(states: seq<Secret>, spec: Spec, turns: seq<Turn>, serials: seq<nat>, s: seq<Value>)
    returns (t: seq<Value>)
    requires SettledRun(states, spec, turns, serials, s)
    ensures Holds(states[|turns|].data, t) && |t| == |s|
    ensures var keys := NewKeys(states, turns, serials);
            Increasing(keys) && Order(t) == (Order(s) + Issued(keys))[|keys|..]
  {
    var keys := NewKeys(states, turns, serials);
    NewKeysIncrease(states, spec, turns, serials, s);
    HistoryRotates(states, spec, turns, serials, s);
    RotationsOrder(s, keys);
    t := Rotations(s, keys);
  }

  lemma OlderThan(s: seq<Value>, serial: nat, serial': nat)
    requires AllOlder(s, serial) && serial <= serial'
    ensures AllOlder(s, serial')
  {
  }

  /** The life of the key generated by rotation j+1 of a run with k rotations: it is stored exactly while
      fewer than n rotations came after it, and then only at its place - staged, then primary, then down
      by one index per rotation. */
  lemma HistoryKeyLife(states: seq<Secret>, spec: Spec, turns: seq<Turn>, serials: seq<nat>, s: seq<Value>, j: nat)
    returns (t: seq<Value>)
    requires SettledRun(states, spec, turns, serials, s)
    requires AllOlder(s, serials[0]) && j < |NewKeys(states, turns, serials)|
    ensures Holds(states[|turns|].data, t) && |t| == spec.Keys()
    ensures var keys := NewKeys(states, turns, serials);
            AtItsPlace(t, keys[j], |keys| - 1 - j)
  {
    var keys := NewKeys(states, turns, serials);
    NewKeysIncrease(states, spec, turns, serials, s);
    HistoryRotates(states, spec, turns, serials, s);
    OlderThan(s, serials[0], keys[0]);
    KeyLife(s, keys, j);
    t := Rotations(s, keys);
  }

  /** No call that takes effect is made after this time. */
  ghost predicate AllBy(turns: seq<Turn>, limit: int) {
    forall i | 0 <= i < |turns| && !turns[i].fails :: turns[i].now <= limit
  }

  /** i rotation periods after the last rotation, less the seconds lost by truncating the timestamps in between. */
  function Lasting(rotatedAt: int, days: nat, i: nat): int {
    rotatedAt + i * (days * DAY) - (i - 1) * SECOND
  }

  lemma PeriodStep(i: nat, period: nat)
    requires i >= 1
    ensures i * period == (i - 1) * period + period
  {
  }

  lemma LastingStep(rotatedAt: int, days: nat, i: nat, now: int)
    requires i >= 1 && RotationDue(Some(rotatedAt), days, now) && now <= Lasting(rotatedAt, days, i)
    ensures i >= 2 && Lasting(rotatedAt, days, i) <= Lasting(Truncated(now), days, i - 1)
  {
    PeriodStep(i, days * DAY);
  }

  lemma LastingFrom(days: nat, i: nat, now: int)
    ensures now + i * (days * DAY - SECOND) <= Lasting(Truncated(now), days, i)
  {
    assert i * (days * DAY - SECOND) == i * (days * DAY) - i * SECOND;
  }

  lemma LaterBy(turns: seq<Turn>, limit: int, limit': int)
    requires turns != [] && AllBy(turns, limit) && limit <= limit'
    ensures AllBy(turns[1..], limit')
  {
  }

  /** The key stored at index i outlasts every call that takes effect until then. */
  lemma {:induction false} HistoryKeyKept(states: seq<Secret>, spec: Spec, turns: seq<Turn>, serials: seq<nat>,
                                          s: seq<Value>, i: nat)
    returns (t: seq<Value>)
    requires SettledRun(states, spec, turns, serials, s) && 1 <= i < |s|
    requires AllBy(turns, Lasting(states[0].rotatedAt.value, spec.Days(), i))
    ensures Holds(states[|turns|].data, t) && s[i] in t
    decreases |turns|
  {
    if turns == [] {
      t := s;
    } else {
      var s' := AfterFirst(states, spec, turns, serials, s);
      var limit := Lasting(states[0].rotatedAt.value, spec.Days(), i);
      if Rotates(states[0], turns[0]) {
        LastingStep(states[0].rotatedAt.value, spec.Days(), i, turns[0].now);
        LaterBy(turns, limit, Lasting(states[1].rotatedAt.value, spec.Days(), i - 1));
        assert s'[i - 1] == s[i];
        t := HistoryKeyKept(states[1..], spec, turns[1..], serials[1..], s', i - 1);
      } else {
        LaterBy(turns, limit, limit);
        t := HistoryKeyKept(states[1..], spec, turns[1..], serials[1..], s', i);
      }
    }
  }

  /** A key that stops being primary in the first call is still stored after every further call that takes
      effect within (n-2) times the rotation period minus one second. */
  lemma HistoryOldPrimaryKept(states: seq<Secret>, spec: Spec, turns: seq<Turn>, serials: seq<nat>, s: seq<Value>)
    returns (t: seq<Value>)
    requires SettledRun(states, spec, turns, serials, s)
    requires turns != [] && Rotates(states[0], turns[0])
    requires AllBy(turns[1..], turns[0].now + (spec.Keys() - 2) * (spec.Days() * DAY - SECOND))
    ensures Holds(states[|turns|].data, t) && s[|s| - 1] in t
  {
    var i := |s| - 2;
    var s' := AfterFirst(states, spec, turns, serials, s);
    assert s'[i] == s[|s| - 1];
    LastingFrom(spec.Days(), i, turns[0].now);
    t := HistoryKeyKept(states[1..], spec, turns[1..], serials[1..], s', i);
  }
}
