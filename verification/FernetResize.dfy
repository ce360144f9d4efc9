/** The outer loops of ensureFernetKeys: when they end, and what they compute on contiguous keys. */
module FernetResize {
  import opened Wrappers
  import opened FernetSlots

  // ----- The removal loop -----

  /** The outer removal loop runs one of these per turn. */
  ghost function RemovePass(d: Data): Data {
    ShiftDown(d, 1)
  }

  ghost function Passes(d: Data, t: nat): Data
    decreases t
  {
    if t == 0 then d else Passes(RemovePass(d), t - 1)
  }

  /** Some number of passes frees entry n, the exit condition of the loop. */
  ghost predicate RemovalCanEnd(d: Data, n: nat) {
    exists t: nat :: FreeAfter(d, n, t)
  }

  ghost predicate FreeAfter(d: Data, n: nat, t: nat) {
    At(Passes(d, t), n).None?
  }

  /** A condition on the data alone for the removal loop to end: entry n is absent, or nothing is missing below it.
      Indices 0 and 1 play no part. */
  ghost predicate Removable(d: Data, n: nat) {
    At(d, n).Some? ==> forall j: nat :: 2 <= j < n ==> At(d, j).Some?
  }

  lemma {:induction false} RemovalEnds(d: Data, n: nat, g: nat)
    requires 2 <= n < g && GapAt(d, 2, g)
    ensures At(Passes(d, g - n), n).None?
    decreases g
  {
    ShiftDownAt(d, 1, g);
    assert At(RemovePass(d), g - 1) == DownAt(d, 1, g, g - 1);
    if g - 1 == n {
      assert Passes(d, 1) == Passes(RemovePass(d), 0);
    } else {
      assert GapAt(RemovePass(d), 2, g - 1);
      RemovalEnds(RemovePass(d), n, g - 1);
    }
  }

  lemma {:induction false} RemovalStuck(d: Data, n: nat, hole: nat, t: nat)
    requires 2 <= hole < n && At(d, n).Some? && At(d, hole).None?
    ensures At(Passes(d, t), n).Some?
    decreases t
  {
    if t > 0 {
      var g := GapExists(d, 2);
      assert g <= hole;
      ShiftDownAt(d, 1, g);
      assert At(RemovePass(d), n) == DownAt(d, 1, g, n);
      assert At(RemovePass(d), hole) == DownAt(d, 1, g, hole);
      RemovalStuck(RemovePass(d), n, hole, t - 1);
    }
  }

  /** The removal loop ends exactly on removable data; otherwise no number of passes frees entry n. */
  lemma RemovalEndsIff(d: Data, n: nat)
    requires n >= 2
    ensures RemovalCanEnd(d, n) <==> Removable(d, n)
  {
    if At(d, n).None? {
      assert FreeAfter(d, n, 0);
    } else if Removable(d, n) {
      var g := GapExists(d, 2);
      RemovalEnds(d, n, g);
      assert FreeAfter(d, n, g - n);
    } else {
      var hole: nat :| 2 <= hole < n && At(d, hole).None?;
      forall t: nat
        ensures !FreeAfter(d, n, t)
      {
        RemovalStuck(d, n, hole, t);
      }
    }
  }

  /** With entry 2 absent a pass is the identity, so an entry n above the hole is never freed. */
  lemma RemovalPassIdle(d: Data)
    requires At(d, 2).None?
    ensures RemovePass(d) == d
  {
  }

  lemma RemovePassKeeps(d: Data, n: nat)
    requires n >= 2 && Removable(d, n) && At(d, n).Some?
    ensures Removable(RemovePass(d), n)
    ensures From(RemovePass(d), n) < From(d, n)
    ensures SameElsewhere(d, RemovePass(d))
    ensures At(RemovePass(d), 0) == At(d, 0)
    ensures forall j: nat :: 1 <= j < n ==> At(RemovePass(d), j).Some?
  {
    var g := GapExists(d, 2);
    assert n < g;
    ShiftDownAt(d, 1, g);
    forall j: nat
      ensures At(RemovePass(d), j) == DownAt(d, 1, g, j)
    {
    }
    assert From(RemovePass(d), n) < From(d, n) by {
      RemovalMeasure(d, n, g);
    }
  }

  /** Each pass drops one name from the entries of index n and above. */
  lemma RemovalMeasure(d: Data, n: nat, g: nat)
    requires 2 <= n < g && GapAt(d, 2, g)
    ensures From(RemovePass(d), n) < From(d, n)
  {
    ShiftDownAt(d, 1, g);
    var e := RemovePass(d);
    assert At(d, g - 1).Some?;
    assert KeyName(g - 1) in From(d, n);
    forall k | k in From(e, n)
      ensures k in From(d, n) && k != KeyName(g - 1)
    {
      var j: nat :| n <= j && k == KeyName(j);
      assert At(e, j) == DownAt(d, 1, g, j);
      assert At(e, j).Some? && j != g - 1 && At(d, j).Some?;
      if k == KeyName(g - 1) {
        KeyNameInjective(j, g - 1);
      }
    }
  }

  /** The whole removal loop: keystoneapi_controller.go:1911-1929. */
  ghost function RemoveAll(d: Data, n: nat): Data
    requires n >= 2 && Removable(d, n)
    decreases From(d, n)
  {
    if KeyName(n) !in d then d
    else
      RemovePassKeeps(d, n);
      RemoveAll(RemovePass(d), n)
  }

  /** The removal loop touches no entry that is not a Fernet key, and not the staged key. */
  lemma {:induction false} RemoveAllElsewhere(d: Data, n: nat)
    requires n >= 2 && Removable(d, n)
    ensures SameElsewhere(d, RemoveAll(d, n))
    ensures At(RemoveAll(d, n), 0) == At(d, 0)
    decreases From(d, n)
  {
    if KeyName(n) in d {
      RemovePassKeeps(d, n);
      RemoveAllElsewhere(RemovePass(d), n);
    }
  }

  // ----- The insertion loop -----

  ghost function AddPass(d: Data, newKey: Value): Data {
    ShiftUp(d, 1, newKey)
  }

  ghost function Missing(d: Data, n: nat): set<nat> {
    set j: nat | 1 <= j < n && At(d, j).None?
  }

  /** A pass fills the lowest missing index, so the insertion loop ends whatever gaps there are. */
  lemma AddPassKeeps(d: Data, n: nat, newKey: Value)
    requires n >= 2 && At(d, n - 1).None?
    ensures Missing(AddPass(d, newKey), n) < Missing(d, n)
    ensures SameElsewhere(d, AddPass(d, newKey))
    ensures At(AddPass(d, newKey), 0) == At(d, 0)
    ensures forall j: nat :: n <= j ==> At(AddPass(d, newKey), j) == At(d, j)
    ensures At(AddPass(d, newKey), n - 1).Some? ==> forall j: nat :: 1 <= j < n ==> At(AddPass(d, newKey), j).Some?
  {
    var g := GapExists(d, 1);
    assert g <= n - 1;
    ShiftUpAt(d, 1, newKey, g);
    var e := AddPass(d, newKey);
    forall j: nat
      ensures At(e, j) == UpAt(d, 1, newKey, g, j)
    {
    }
    assert g in Missing(d, n) && g !in Missing(e, n);
  }

  /** How many keys the insertion loop generates before it ends. */
  ghost function Added(d: Data, n: nat, serial: nat): nat
    requires n >= 2
    decreases Missing(d, n)
  {
    if KeyName(n - 1) in d then 0
    else
      AddPassKeeps(d, n, Generated(serial));
      1 + Added(AddPass(d, Generated(serial)), n, serial + 1)
  }

  /** The whole insertion loop, generating keys from `serial` on: keystoneapi_controller.go:1935-1957. */
  ghost function AddAll(d: Data, n: nat, serial: nat): Data
    requires n >= 2
    decreases Missing(d, n)
  {
    if KeyName(n - 1) in d then d
    else
      AddPassKeeps(d, n, Generated(serial));
      AddAll(AddPass(d, Generated(serial)), n, serial + 1)
  }

  /** The insertion loop touches no entry that is not a Fernet key, and not the staged key. */
  lemma {:induction false} AddAllElsewhere(d: Data, n: nat, serial: nat)
    requires n >= 2
    ensures SameElsewhere(d, AddAll(d, n, serial))
    ensures At(AddAll(d, n, serial), 0) == At(d, 0)
    decreases Missing(d, n)
  {
    if KeyName(n - 1) !in d {
      AddPassKeeps(d, n, Generated(serial));
      AddAllElsewhere(AddPass(d, Generated(serial)), n, serial + 1);
    }
  }

  lemma {:induction false} RemoveAllFills(d: Data, n: nat)
    requires n >= 2 && Removable(d, n) && At(d, n).Some?
    ensures forall j: nat :: 1 <= j < n ==> At(RemoveAll(d, n), j).Some?
    ensures At(RemoveAll(d, n), n).None?
    decreases From(d, n)
  {
    RemovePassKeeps(d, n);
    if At(RemovePass(d), n).Some? {
      RemoveAllFills(RemovePass(d), n);
    }
  }

  lemma {:induction false} AddAllFills(d: Data, n: nat, serial: nat)
    requires n >= 2 && At(d, n - 1).None?
    ensures forall j: nat :: 1 <= j < n ==> At(AddAll(d, n, serial), j).Some?
    decreases Missing(d, n)
  {
    AddPassKeeps(d, n, Generated(serial));
    if At(AddPass(d, Generated(serial)), n - 1).None? {
      AddAllFills(AddPass(d, Generated(serial)), n, serial + 1);
    }
  }

  /** After both loops every index 1 .. n-1 is filled exactly when one of the loops ran
      or nothing was missing to begin with; a lone hole below n-1 is never repaired. */
  lemma FilledIff(d: Data, n: nat, serial: nat)
    requires n >= 2 && Removable(d, n)
    ensures (forall j: nat :: 1 <= j < n ==> At(AddAll(RemoveAll(d, n), n, serial), j).Some?) <==>
            (At(d, n).Some? || At(d, n - 1).None? || forall j: nat :: 1 <= j < n ==> At(d, j).Some?)
  {
    if At(d, n).Some? {
      RemoveAllFills(d, n);
      assert At(RemoveAll(d, n), n - 1).Some?;
    } else if At(d, n - 1).None? {
      AddAllFills(d, n, serial);
    } else {
      assert KeyName(n) !in d && KeyName(n - 1) in d;
      assert AddAll(RemoveAll(d, n), n, serial) == d;
    }
  }

  // ----- Contiguous keys -----

  /** The Fernet entries are exactly s, at indices 0 .. |s|-1. */
  ghost predicate Holds(d: Data, s: seq<Value>) {
    forall j: nat :: At(d, j) == if j < |s| then Some(s[j]) else None
  }

  lemma HoldsGap(d: Data, s: seq<Value>, i: nat)
    requires Holds(d, s) && i <= |s|
    ensures GapAt(d, i, |s|)
  {
  }

  /** The keys left when s is cut down to n: the staged key and the n-1 newest others. */
  function Shrunk(s: seq<Value>, n: nat): seq<Value>
    requires |s| >= 1 && n >= 1
  {
    if |s| <= n then s else [s[0]] + s[1 + |s| - n..]
  }

  lemma ShrunkStep(s: seq<Value>, n: nat)
    requires |s| > n >= 2
    ensures Shrunk([s[0]] + s[2..], n) == Shrunk(s, n)
  {
  }

  lemma RemovePassHolds(d: Data, s: seq<Value>)
    requires Holds(d, s) && |s| > 2
    ensures Holds(RemovePass(d), [s[0]] + s[2..])
  {
    HoldsGap(d, s, 2);
    ShiftDownAt(d, 1, |s|);
    var e, s' := RemovePass(d), [s[0]] + s[2..];
    forall j: nat
      ensures At(e, j) == if j < |s'| then Some(s'[j]) else None
    {
      assert At(e, j) == DownAt(d, 1, |s|, j);
    }
  }

  /** Shrinking m keys to n keeps the staged key and the n-1 newest others: entry 1 goes, pass by pass. */
  lemma {:induction false} RemoveAllHolds(d: Data, n: nat, s: seq<Value>)
    requires n >= 2 && Holds(d, s) && Removable(d, n) && |s| >= 1
    ensures Holds(RemoveAll(d, n), Shrunk(s, n))
    decreases |s|
  {
    if |s| <= n {
      assert At(d, n).None?;
    } else {
      assert At(d, n).Some?;
      RemovePassKeeps(d, n);
      RemovePassHolds(d, s);
      ShrunkStep(s, n);
      RemoveAllHolds(RemovePass(d), n, [s[0]] + s[2..]);
    }
  }

  /** k generated keys starting at `serial`, the latest first. */
  function Fresh(serial: nat, k: nat): seq<Value> {
    seq(k, i requires 0 <= i < k => Generated(serial + k - 1 - i))
  }

  /** The keys after s is filled up to n, the new keys numbered from `serial`. */
  function Grown(s: seq<Value>, n: nat, serial: nat): seq<Value>
    requires |s| >= 1
  {
    if |s| >= n then s else [s[0]] + Fresh(serial, n - |s|) + s[1..]
  }

  lemma GrownStep(s: seq<Value>, n: nat, serial: nat)
    requires 1 <= |s| < n
    ensures Grown([s[0], Generated(serial)] + s[1..], n, serial + 1) == Grown(s, n, serial)
  {
  }

  lemma AddPassHolds(d: Data, s: seq<Value>, newKey: Value)
    requires Holds(d, s) && |s| >= 1
    ensures Holds(AddPass(d, newKey), [s[0], newKey] + s[1..])
  {
    HoldsGap(d, s, 1);
    ShiftUpAt(d, 1, newKey, |s|);
    var e, s' := AddPass(d, newKey), [s[0], newKey] + s[1..];
    forall j: nat
      ensures At(e, j) == if j < |s'| then Some(s'[j]) else None
    {
      assert At(e, j) == UpAt(d, 1, newKey, |s|, j);
    }
  }

  /** Growing m keys to n inserts the new keys just above the staged one, the latest lowest. */
  lemma {:induction false} AddAllHolds(d: Data, n: nat, serial: nat, s: seq<Value>)
    requires n >= 2 && Holds(d, s) && |s| >= 1
    ensures Holds(AddAll(d, n, serial), Grown(s, n, serial))
    ensures Added(d, n, serial) == if |s| < n then n - |s| else 0
    decreases n - |s|
  {
    if |s| >= n {
      assert At(d, n - 1).Some?;
    } else {
      assert At(d, n - 1).None?;
      var newKey := Generated(serial);
      AddPassKeeps(d, n, newKey);
      AddPassHolds(d, s, newKey);
      GrownStep(s, n, serial);
      AddAllHolds(AddPass(d, newKey), n, serial + 1, [s[0], newKey] + s[1..]);
    }
  }
}
