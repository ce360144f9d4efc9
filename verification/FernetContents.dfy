/** What one call of ensureFernetKeys does to the sequence of keys. */
module FernetContents {
  import opened Sequences
  import opened Wrappers
  import opened FernetSlots
  import opened FernetResize
  import opened FernetRepository

  /** The keys after a call on keys s. A due call with more than n keys writes the old staged key
      over s[n], which is then already taken. */
  function After(s: seq<Value>, n: nat, due: bool, serial: nat): seq<Value>
    requires |s| >= 1 && n >= 3
    requires due ==> |s| >= n
  {
    if due
    then Shrunk((if |s| == n then s + [s[0]] else s[n := s[0]])[0 := Generated(serial)], n)
    else Grown(Shrunk(s, n), n, serial)
  }

  lemma AfterSize(s: seq<Value>, n: nat, due: bool, serial: nat)
    requires |s| >= 1 && n >= 3 && (due ==> |s| >= n)
    ensures |After(s, n, due, serial)| == n
  {
  }

  lemma StartedHolds(secret: Secret, spec: Spec, now: int, serial: nat, s: seq<Value>)
    requires spec.Valid() && Holds(secret.data, s) && |s| >= 1
    requires RotationDue(secret.rotatedAt, spec.Days(), now) && |s| >= spec.Keys()
    ensures var n := spec.Keys();
            Holds(Started(secret, spec, now, serial).0,
                  (if |s| == n then s + [s[0]] else s[n := s[0]])[0 := Generated(serial)])
  {
    var n, d := spec.Keys(), secret.data;
    assert At(d, 0) == Some(s[0]);
    var e := d[KeyName(n) := s[0]];
    Put(d, n, s[0]);
    Put(e, 0, Generated(serial));
    var t := (if |s| == n then s + [s[0]] else s[n := s[0]])[0 := Generated(serial)];
    forall j: nat
      ensures At(Promoted(d, n, serial), j) == if j < |t| then Some(t[j]) else None
    {
      assert At(e, j) == if j == n then Some(s[0]) else At(d, j);
    }
  }

  /** On contiguous keys the call runs to its end exactly when no rotation is due on too few keys. */
  lemma CompletesIff(secret: Secret, spec: Spec, now: int, serial: nat, s: seq<Value>)
    requires spec.Valid() && Holds(secret.data, s) && |s| >= 1
    ensures Completes(secret, spec, now, serial) <==>
            (RotationDue(secret.rotatedAt, spec.Days(), now) ==> |s| >= spec.Keys())
  {
    var n, d := spec.Keys(), secret.data;
    if RotationDue(secret.rotatedAt, spec.Days(), now) {
      if |s| >= n {
        StartedHolds(secret, spec, now, serial, s);
      } else {
        var v := Lookup(d, 0);
        Put(d, n, v);
        Put(d[KeyName(n) := v], 0, Generated(serial));
        var e := Started(secret, spec, now, serial).0;
        assert At(e, n).Some?;
        assert |s| >= 2 ==> At(e, |s|) == At(d, |s|) == None;
        assert |s| == 1 ==> At(e, 2) == At(d, 2) == None;
      }
    } else {
      assert At(d, n).Some? ==> |s| > n;
    }
  }

  /** On contiguous keys the in-place loops refine the sequence operation After. */
  lemma NextHolds(secret: Secret, spec: Spec, now: int, serial: nat, s: seq<Value>)
    requires spec.Valid() && Holds(secret.data, s) && |s| >= 1 && Completes(secret, spec, now, serial)
    ensures var due := RotationDue(secret.rotatedAt, spec.Days(), now);
            && (due ==> |s| >= spec.Keys())
            && Holds(Next(secret, spec, now, serial).data, After(s, spec.Keys(), due, serial))
  {
    CompletesIff(secret, spec, now, serial, s);
    var n, due := spec.Keys(), RotationDue(secret.rotatedAt, spec.Days(), now);
    var (d, c) := Started(secret, spec, now, serial);
    var s1 := if due then (if |s| == n then s + [s[0]] else s[n := s[0]])[0 := Generated(serial)] else s;
    if due {
      StartedHolds(secret, spec, now, serial, s);
    }
    assert Holds(d, s1);
    RemoveAllHolds(d, n, s1);
    AddAllHolds(RemoveAll(d, n), n, c, Shrunk(s1, n));
    assert At(d, n).Some? <==> |s1| > n;
    assert At(RemoveAll(d, n), n - 1).Some? <==> |Shrunk(s1, n)| >= n;
  }

  /** No call touches an entry of the secret that is not a Fernet key. */
  lemma NextElsewhere(secret: Secret, spec: Spec, now: int, serial: nat)
    requires spec.Valid() && Completes(secret, spec, now, serial)
    ensures SameElsewhere(secret.data, Next(secret, spec, now, serial).data)
  {
    var n, d := spec.Keys(), secret.data;
    Put(d, n, Lookup(d, 0));
    Put(d[KeyName(n) := Lookup(d, 0)], 0, Generated(serial));
    var (e, c) := Started(secret, spec, now, serial);
    assert SameElsewhere(d, e);
    RemoveAllElsewhere(e, n);
    AddAllElsewhere(RemoveAll(e, n), n, c);
  }

  /** The sequence laws: rotation, shrinking and growing. */
  lemma AfterCases(s: seq<Value>, n: nat, serial: nat)
    requires |s| >= 1 && n >= 3
    ensures |s| == n ==> After(s, n, true, serial) == [Generated(serial)] + s[2..] + [s[0]]
    ensures |s| == n ==> After(s, n, false, serial) == s
    ensures |s| > n ==> After(s, n, false, serial) == [s[0]] + s[1 + |s| - n..]
    ensures |s| < n ==> After(s, n, false, serial) == [s[0]] + Fresh(serial, n - |s|) + s[1..]
  {
  }

  // ----- Age order -----

  /** The keys from the oldest secondary through the primary to the staged key. */
  function Order(s: seq<Value>): seq<Value>
    requires |s| >= 1
  {
    s[1..] + [s[0]]
  }

  /** v was generated before the key numbered `serial`, or not by this controller. */
  predicate Older(v: Value, serial: nat) {
    v.Generated? ==> v.serial < serial
  }

  ghost predicate AllOlder(s: seq<Value>, serial: nat) {
    forall i | 0 <= i < |s| :: Older(s[i], serial)
  }

  ghost predicate NoneOlder(s: seq<Value>, serial: nat) {
    forall i | 0 <= i < |s| :: !Older(s[i], serial)
  }

  /** b keeps exactly the newest keys of a, in a's order, between keys generated since. */
  ghost predicate KeepsNewest(a: seq<Value>, b: seq<Value>, serial: nat) {
    exists p: seq<Value>, k: nat, q: seq<Value> :: Splits(a, b, serial, p, k, q)
  }

  ghost predicate Splits(a: seq<Value>, b: seq<Value>, serial: nat, p: seq<Value>, k: nat, q: seq<Value>) {
    k <= |a| && b == p + a[k..] + q && NoneOlder(p, serial) && NoneOlder(q, serial)
  }

  lemma OrderAfter(s: seq<Value>, n: nat, due: bool, serial: nat)
    requires |s| >= 1 && n >= 3 && (due ==> |s| == n)
    ensures |After(s, n, due, serial)| == n
    ensures Order(After(s, n, due, serial)) ==
            if due then Order(s)[1..] + [Generated(serial)]
            else if |s| >= n then Order(s)[|s| - n..]
            else Fresh(serial, n - |s|) + Order(s)
  {
    var t := After(s, n, due, serial);
    if due {
      assert t == [Generated(serial)] + s[2..] + [s[0]];
      assert Order(t) == Order(s)[1..] + [Generated(serial)];
    } else if |s| > n {
      assert t == [s[0]] + s[1 + |s| - n..];
      assert Order(t) == Order(s)[|s| - n..];
    } else if |s| == n {
      assert t == s;
      assert Order(s)[0..] == Order(s);
    } else {
      assert t == [s[0]] + Fresh(serial, n - |s|) + s[1..];
      assert Order(t) == Fresh(serial, n - |s|) + Order(s);
    }
  }

  /** In such a split the older keys of b are one block, and it ends with the newest keys of a. */
  lemma OlderBlock(a: seq<Value>, b: seq<Value>, serial: nat, p: seq<Value>, k: nat, q: seq<Value>)
    requires AllOlder(a, serial) && Splits(a, b, serial, p, k, q)
    ensures forall j | 0 <= j < |b| :: Older(b[j], serial) <==> |p| <= j < |p| + |a| - k
    ensures forall j | |p| <= j < |p| + |a| - k :: b[j] == a[j - |p| + k]
  {
    forall j | 0 <= j < |b|
      ensures Older(b[j], serial) <==> |p| <= j < |p| + |a| - k
    {
      if j < |p| {
        assert b[j] == p[j];
      } else if j < |p| + |a| - k {
        assert b[j] == a[j - |p| + k];
      } else {
        assert b[j] == q[j - |p| - (|a| - k)];
      }
    }
  }

  lemma NewestAtTheEnd(a: seq<Value>, b: seq<Value>, serial: nat, p: seq<Value>, k: nat, q: seq<Value>)
    requires AllOlder(a, serial) && Splits(a, b, serial, p, k, q) && |b| >= 3
    requires !Older(b[|b| - 1], serial) && Older(b[|b| - 2], serial) && Older(b[|b| - 3], serial)
    ensures k + 2 <= |a| && b[|b| - 2] == a[|a| - 1] && b[|b| - 3] == a[|a| - 2]
  {
    OlderBlock(a, b, serial, p, k, q);
    var j := |b| - 2;
    assert |p| <= j < |p| + |a| - k;
    assert |p| <= j - 1 < |p| + |a| - k;
    assert !(|p| <= j + 1 < |p| + |a| - k);
  }

  lemma OrderKept(s: seq<Value>, n: nat, due: bool, serial: nat)
    requires n >= 3 && |s| >= 1 && (due ==> |s| == n)
    ensures KeepsNewest(Order(s), Order(After(s, n, due, serial)), serial)
  {
    var o, t, m := Order(s), Order(After(s, n, due, serial)), |s|;
    OrderAfter(s, n, due, serial);
    var p := if !due && m < n then Fresh(serial, n - m) else [];
    var k := if due then 1 else if m >= n then m - n else 0;
    var q := if due then [Generated(serial)] else [];
    assert t == p + o[k..] + q;
    assert Splits(o, t, serial, p, k, q);
  }

  /** A rotation due while there are more keys than allowed: the new staged key is last in age order,
      and before it are two older keys that are not the two newest of s. */
  lemma DueShrink(s: seq<Value>, n: nat, serial: nat)
    requires n >= 3 && |s| > n && Distinct(s) && AllOlder(s, serial)
    ensures var t, o := Order(After(s, n, true, serial)), Order(s);
            && |t| == n && t[n - 1] == Generated(serial)
            && Older(t[n - 2], serial) && Older(t[n - 3], serial)
            && !(t[n - 2] == o[|s| - 1] && t[n - 3] == o[|s| - 2])
  {
    var m := |s|;
    var s1 := s[n := s[0]][0 := Generated(serial)];
    assert After(s, n, true, serial) == [s1[0]] + s1[1 + m - n..];
    var t := Order(After(s, n, true, serial));
    assert t == s1[1 + m - n..] + [Generated(serial)];
    assert t[n - 2] == if n == m - 1 then s[0] else s[m - 1];
    assert t[n - 3] == if n == m - 2 then s[0] else s[m - 2];
    assert s[m - 1] != s[0];
    assert s[m - 2] != s[m - 1];
  }

  /** A call drops only the oldest keys and keeps the order of the rest exactly when it does not
      combine a rotation with a shrink. A rotation due while there are more keys than allowed
      loses the key at index n, which need not be an old one. */
  lemma OrderKeptIff(s: seq<Value>, n: nat, due: bool, serial: nat)
    requires n >= 3 && |s| >= 1 && (due ==> |s| >= n)
    requires Distinct(s) && AllOlder(s, serial)
    ensures KeepsNewest(Order(s), Order(After(s, n, due, serial)), serial) <==> (due ==> |s| == n)
  {
    if due ==> |s| == n {
      OrderKept(s, n, due, serial);
    } else {
      DueShrink(s, n, serial);
      var o, t := Order(s), Order(After(s, n, due, serial));
      forall p: seq<Value>, k: nat, q: seq<Value>
        ensures !Splits(o, t, serial, p, k, q)
      {
        if Splits(o, t, serial, p, k, q) {
          NewestAtTheEnd(o, t, serial, p, k, q);
          assert false;
        }
      }
    }
  }
}
