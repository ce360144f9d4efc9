/** When Fernet keys are rotated, on the clock: what a call does by the stored timestamp and the time of
    the call, and when a key is gone. */
module FernetClock {
  import opened Sequences
  import opened Wrappers
  import opened FernetSlots
  import opened FernetResize
  import opened FernetRepository
  import opened FernetContents
  import opened FernetRuns
  import opened FernetHistory

  /** The number of keys asked for; the CRD's default is 5. */
  function KeyCount(spec: Spec): nat {
    match spec.maxActiveKeys
    case Some(n) => n
    case None => 5
  }

  /** The rotation period in nanoseconds; the CRD's default is one day. */
  function Period(spec: Spec): int {
    match spec.rotationDays
    case Some(days) => days * 86_400 * 1_000_000_000
    case None => 86_400 * 1_000_000_000
  }

  /** More than one rotation period has passed since the timestamp. */
  predicate Late(secret: Secret, spec: Spec, now: int) {
    secret.rotatedAt.Some? && secret.rotatedAt.value + Period(spec) < now
  }

  lemma LateIsDue(secret: Secret, spec: Spec, now: int)
    ensures Late(secret, spec, now) <==> RotationDue(secret.rotatedAt, spec.Days(), now)
    ensures spec.Keys() == KeyCount(spec)
  {
  }

  /** What a call makes of keys s by the clock: with n keys it rotates exactly if it is late, and otherwise
      keeps them; with another number it shrinks or grows, and is endless exactly if it is late with too few
      keys. It stamps the secret with the second of the call exactly if it changed it or the stamp was
      missing, and generates no more keys than needed. */
  lemma CallByTheClock(secret: Secret, spec: Spec, now: int, serial: nat, s: seq<Value>)
    requires spec.Valid() && Holds(secret.data, s) && |s| >= 1
    ensures var (n, late) := (KeyCount(spec), Late(secret, spec, now));
            && (Completes(secret, spec, now, serial) <==> (late ==> |s| >= n))
            && (Completes(secret, spec, now, serial) ==>
                  var next := Next(secret, spec, now, serial);
                  && (|s| == n ==> Holds(next.data, if late then [Generated(serial)] + s[2..] + [s[0]] else s))
                  && (|s| > n && !late ==> Holds(next.data, [s[0]] + s[1 + |s| - n..]))
                  && (|s| < n ==> Holds(next.data, [s[0]] + Fresh(serial, n - |s|) + s[1..]))
                  && next.rotatedAt == (if late || |s| != n || secret.rotatedAt.None?
                                        then Some(now - now % 1_000_000_000) else secret.rotatedAt)
                  && KeysNeeded(secret, spec, now, serial) ==
                     if late then 1 else if |s| < n then n - |s| else 0)
  {
    LateIsDue(secret, spec, now);
    CompletesIff(secret, spec, now, serial, s);
    if Completes(secret, spec, now, serial) {
      NextHolds(secret, spec, now, serial, s);
      AfterCases(s, spec.Keys(), serial);
      KeysNeededIs(secret, spec, now, serial, s);
      StampIs(secret, spec, now, serial, s);
    }
  }

  lemma StampIs(secret: Secret, spec: Spec, now: int, serial: nat, s: seq<Value>)
    requires spec.Valid() && Holds(secret.data, s) && |s| >= 1 && Completes(secret, spec, now, serial)
    ensures Writes(secret, spec, now, serial) <==>
            Late(secret, spec, now) || |s| != spec.Keys() || secret.rotatedAt.None?
  {
    var n, d := spec.Keys(), Started(secret, spec, now, serial).0;
    LateIsDue(secret, spec, now);
    var s1 := StartHolds(secret, spec, now, serial, s);
    assert At(d, n).Some? <==> |s1| > n;
    if |s1| <= n {
      assert At(d, n - 1).Some? <==> |s1| >= n;
      assert RemoveAll(d, n) == d;
    }
  }

  /** How many calls of a run take effect late, each by the stamp it found. */
  function LateCalls(states: seq<Secret>, turns: seq<Turn>): nat
    requires |states| == |turns| + 1
    decreases |turns|
  {
    if turns == [] then 0
    else (if !turns[0].fails && Late(states[0], turns[0].spec, turns[0].now) then 1 else 0)
         + LateCalls(states[1..], turns[1..])
  }

  lemma {:induction false} LateCallsRotate(states: seq<Secret>, turns: seq<Turn>, serials: seq<nat>)
    requires |states| == |serials| == |turns| + 1
    ensures |NewKeys(states, turns, serials)| == LateCalls(states, turns)
    decreases |turns|
  {
    if turns != [] {
      LateIsDue(states[0], turns[0].spec, turns[0].now);
      LateCallsRotate(states[1..], turns[1..], serials[1..]);
    }
  }

  /** How many late calls the key at index i lasts: one more than there are older keys. */
  function Lasts(n: nat, i: nat): nat {
    if i == 0 then n else i
  }

  /** Of n different keys the one at index i is stored exactly until so many calls have taken effect late:
      it is neither dropped before nor kept longer. */
  lemma HistoryKeyGoneIff(states: seq<Secret>, spec: Spec, turns: seq<Turn>, serials: seq<nat>, s: seq<Value>, i: nat)
    returns (t: seq<Value>)
    requires SettledRun(states, spec, turns, serials, s)
    requires Distinct(s) && AllOlder(s, serials[0]) && i < |s|
    ensures Holds(states[|turns|].data, t)
    ensures s[i] in t <==> LateCalls(states, turns) < Lasts(KeyCount(spec), i)
  {
    var keys := NewKeys(states, turns, serials);
    t := HistoryOrder(states, spec, turns, serials, s);
    NewKeysIncrease(states, spec, turns, serials, s);
    LateCallsRotate(states, turns, serials);
    OnBeltOnce(s, serials[0], keys, i);
    InOrder(t, s[i]);
    var o, belt := Lasts(|s|, i) - 1, Order(s) + Issued(keys);
    if |keys| <= o {
      assert Order(t)[o - |keys|] == belt[o];
    }
  }

  lemma InOrder(t: seq<Value>, v: Value)
    requires |t| >= 1
    ensures v in t <==> v in Order(t)
  {
    assert t == [t[0]] + t[1..];
  }

  /** Among all keys of a run, in age order, an old one is in one place only. */
  lemma OnBeltOnce(s: seq<Value>, serial: nat, keys: seq<nat>, i: nat)
    requires |s| >= 1 && Distinct(s) && AllOlder(s, serial) && i < |s|
    requires forall k | 0 <= k < |keys| :: serial <= keys[k]
    ensures forall b | 0 <= b < |s| + |keys| ::
              (Order(s) + Issued(keys))[b] == s[i] <==> b == Lasts(|s|, i) - 1
  {
    forall b | 0 <= b < |s| + |keys|
      ensures (Order(s) + Issued(keys))[b] == s[i] <==> b == Lasts(|s|, i) - 1
    {
      if b >= |s| {
        assert (Order(s) + Issued(keys))[b] == Generated(keys[b - |s|]);
        assert Older(s[i], serial);
      } else {
        var j := if b == |s| - 1 then 0 else b + 1;
        assert (Order(s) + Issued(keys))[b] == s[j];
        assert j < i ==> s[j] != s[i];
        assert i < j ==> s[i] != s[j];
      }
    }
  }
}
