/** The sequences of Fernet keys that runs of calls go through: the life of a key and the order of the keys. */
module FernetRuns {
  import opened Wrappers
  import opened FernetSlots
  import opened FernetResize
  import opened FernetRepository
  import opened FernetContents
  import opened Times

  // ----- Steady calls -----

  /** With n contiguous keys and a valid timestamp a call rotates when due and otherwise does nothing. */
  lemma SteadyNext(secret: Secret, spec: Spec, now: int, serial: nat, s: seq<Value>)
    requires spec.Valid() && Holds(secret.data, s) && |s| == spec.Keys() && secret.rotatedAt.Some?
    ensures Completes(secret, spec, now, serial)
    ensures !RotationDue(secret.rotatedAt, spec.Days(), now) ==>
              Next(secret, spec, now, serial) == secret && KeysNeeded(secret, spec, now, serial) == 0
    ensures RotationDue(secret.rotatedAt, spec.Days(), now) ==>
              && Holds(Next(secret, spec, now, serial).data, Rotated(s, serial))
              && Next(secret, spec, now, serial).rotatedAt == Some(Truncated(now))
  {
    CompletesIff(secret, spec, now, serial, s);
    if RotationDue(secret.rotatedAt, spec.Days(), now) {
      NextHolds(secret, spec, now, serial, s);
      AfterCases(s, spec.Keys(), serial);
      StartedHolds(secret, spec, now, serial, s);
      assert At(Started(secret, spec, now, serial).0, spec.Keys()).Some?;
    } else {
      assert At(secret.data, spec.Keys()).None? && At(secret.data, spec.Keys() - 1).Some?;
    }
  }

  /** A call on contiguous keys leaves n keys and a valid timestamp, so a second call within the
      rotation period changes nothing and generates nothing. */
  lemma SecondCallIdle(secret: Secret, spec: Spec, now: int, serial: nat, s: seq<Value>, later: int, serial': nat)
    requires spec.Valid() && Holds(secret.data, s) && |s| >= 1 && Completes(secret, spec, now, serial)
    requires !RotationDue(Next(secret, spec, now, serial).rotatedAt, spec.Days(), later)
    ensures var once := Next(secret, spec, now, serial);
            && Completes(once, spec, later, serial')
            && Next(once, spec, later, serial') == once
            && KeysNeeded(once, spec, later, serial') == 0
  {
    var due, once := RotationDue(secret.rotatedAt, spec.Days(), now), Next(secret, spec, now, serial);
    NextHolds(secret, spec, now, serial, s);
    AfterSize(s, spec.Keys(), due, serial);
    assert once.rotatedAt.Some?;
    SteadyNext(once, spec, later, serial', After(s, spec.Keys(), due, serial));
  }

  // ----- Life of a key -----

  function Rotated(s: seq<Value>, serial: nat): seq<Value>
    requires |s| >= 2
  {
    [Generated(serial)] + s[2..] + [s[0]]
  }

  /** Rotations in a row that generate the keys with these numbers. */
  function Rotations(s: seq<Value>, keys: seq<nat>): (t: seq<Value>)
    requires |s| >= 2
    ensures |t| == |s|
    decreases |keys|
  {
    if keys == [] then s else Rotations(Rotated(s, keys[0]), keys[1..])
  }

  function Issued(keys: seq<nat>): seq<Value> {
    seq(|keys|, i requires 0 <= i < |keys| => Generated(keys[i]))
  }

  ghost predicate Increasing(keys: seq<nat>) {
    forall i, j | 0 <= i < j < |keys| :: keys[i] < keys[j]
  }

  /** Rotation is a conveyor belt: in age order, k rotations push k new keys and drop the k oldest. */
  lemma {:induction false} RotationsOrder(s: seq<Value>, keys: seq<nat>)
    requires |s| >= 2
    ensures Order(Rotations(s, keys)) == (Order(s) + Issued(keys))[|keys|..]
    decreases |keys|
  {
    if keys != [] {
      var s', rest := Rotated(s, keys[0]), keys[1..];
      RotationsOrder(s', rest);
      assert Order(s') == Order(s)[1..] + [Generated(keys[0])];
      assert Issued(keys) == [Generated(keys[0])] + Issued(rest);
      assert (Order(s) + Issued(keys))[1..] == Order(s)[1..] + Issued(keys);
      assert Order(s') + Issued(rest) == (Order(s) + Issued(keys))[1..];
      assert (Order(s) + Issued(keys))[1..][|rest|..] == (Order(s) + Issued(keys))[|keys|..];
    }
  }

  /** The index of a key `age` rotations after it was generated: staged, then primary, then down
      by one index per rotation. */
  function Place(n: nat, age: nat): nat
    requires age < n
  {
    if age == 0 then 0 else n - age
  }

  /** Among keys t, one that is `age` rotations old is at its place and nowhere else, or gone. */
  ghost predicate AtItsPlace(t: seq<Value>, key: nat, age: nat) {
    forall i | 0 <= i < |t| :: t[i] == Generated(key) <==> age < |t| && i == Place(|t|, age)
  }

  /** The key generated by rotation j+1 is in the repository in the end exactly when fewer than n
      rotations came after it, and then only at its place. */
  lemma KeyLife(s: seq<Value>, keys: seq<nat>, j: nat)
    requires |s| >= 2 && j < |keys| && Increasing(keys) && AllOlder(s, keys[0])
    ensures AtItsPlace(Rotations(s, keys), keys[j], |keys| - 1 - j)
  {
    RotationsOrder(s, keys);
    var n, t, k := |s|, Rotations(s, keys), |keys|;
    forall i | 0 <= i < n
      ensures t[i] == Generated(keys[j]) <==> i == (if k - 1 - j < n then Place(n, k - 1 - j) else n)
    {
      var o := if i == 0 then n - 1 else i - 1;
      assert t[i] == Order(t)[o] == (Order(s) + Issued(keys))[k..][o];
      OnBelt(s, keys, j, k + o);
    }
  }

  /** Where the key with number keys[j] is among all keys of the run, in age order. */
  lemma OnBelt(s: seq<Value>, keys: seq<nat>, j: nat, b: nat)
    requires |s| >= 2 && j < |keys| && b < |s| + |keys| && Increasing(keys) && AllOlder(s, keys[0])
    ensures (Order(s) + Issued(keys))[b] == Generated(keys[j]) <==> b == |s| + j
  {
    if b >= |s| {
      var m := b - |s|;
      assert (Order(s) + Issued(keys))[b] == Generated(keys[m]);
      assert m < j ==> keys[m] < keys[j];
      assert j < m ==> keys[j] < keys[m];
    } else {
      var i := if b == |s| - 1 then 0 else b + 1;
      assert (Order(s) + Issued(keys))[b] == s[i] && Older(s[i], keys[0]);
      assert keys[0] <= keys[j];
    }
  }

  // ----- Age order over several calls -----

  lemma KeepsNewestTransitive(a: seq<Value>, b: seq<Value>, c: seq<Value>, serial: nat, serial': nat)
    requires KeepsNewest(a, b, serial) && KeepsNewest(b, c, serial') && serial <= serial'
    ensures KeepsNewest(a, c, serial)
  {
    var p, k: nat, q :| Splits(a, b, serial, p, k, q);
    var p', k': nat, q' :| Splits(b, c, serial', p', k', q');
    if k' <= |p| {
      assert c == (p' + p[k'..]) + a[k..] + (q + q');
      assert Splits(a, c, serial, p' + p[k'..], k, q + q');
    } else if k' <= |p| + |a| - k {
      assert c == p' + a[k + (k' - |p|)..] + (q + q');
      assert Splits(a, c, serial, p', k + (k' - |p|), q + q');
    } else {
      var cut := k' - |p| - (|a| - k);
      assert c == p' + a[|a|..] + (q[cut..] + q');
      assert Splits(a, c, serial, p', |a|, q[cut..] + q');
    }
  }

  /** The primary key after a call is the old primary, or the old staged key if the call rotated. */
  lemma PrimaryAfter(s: seq<Value>, n: nat, due: bool, serial: nat)
    requires |s| >= 2 && n >= 3 && (due ==> |s| == n)
    ensures var t := After(s, n, due, serial);
            |t| == n && t[n - 1] == if due then s[0] else s[|s| - 1]
  {
    var t := After(s, n, due, serial);
    OrderAfter(s, n, due, serial);
    assert Order(t)[n - 2] == t[n - 1];
    assert Order(s)[|s| - 2] == s[|s| - 1] && Order(s)[|s| - 1] == s[0];
    if due {
      assert Order(t)[n - 2] == Order(s)[1..][n - 2];
    } else if |s| >= n {
      assert Order(t)[n - 2] == Order(s)[|s| - n..][n - 2];
    } else {
      assert Order(t)[n - 2] == Order(s)[|s| - 2];
    }
  }
}
