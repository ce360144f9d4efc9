/** When and where endpoint reconciliation converges, from any catalogue and over any run. */
module EndpointConvergence {
  import opened Sequences
  import opened StringOrder
  import opened EndpointModel
  import opened EndpointSteps

  // ----- Deleting what is no longer in the spec -----

  ghost function Stale(spec: map<string, string>, types: seq<string>): set<string> {
    set t | t in types && t !in spec
  }

  lemma StaleSplit(spec: map<string, string>, types: seq<string>)
    requires types != [] && Distinct(types)
    ensures types[0] in spec ==> Stale(spec, types) == Stale(spec, types[1..])
    ensures types[0] !in spec ==>
              && Stale(spec, types) == Stale(spec, types[1..]) + {types[0]}
              && |Stale(spec, types)| == |Stale(spec, types[1..])| + 1
  {
    assert Distinct(types[1..]) && types[0] !in types[1..];
    assert forall t :: t in types <==> t == types[0] || t in types[1..];
    if types[0] !in spec {
      assert Stale(spec, types) == Stale(spec, types[1..]) + {types[0]};
    }
  }

  lemma {:induction false} RemoveStaleKeeps(serviceID: string, spec: map<string, string>, types: seq<string>,
                                            p: Pass, landed: set<nat>)
    requires Inv(p.state)
    ensures var r := RemoveStale(serviceID, spec, types, p, landed);
            && Inv(r.state) && Elsewhere(p.state, r.state, serviceID, INTERFACES - spec.Keys)
            && (Single(p.state, serviceID) ==> Single(r.state, serviceID))
    decreases |types|
  {
    if types != [] && p.ok {
      var t, p1 := types[0], RemoveOne(serviceID, spec, types[0], p, landed);
      var r := RemoveStale(serviceID, spec, types[1..], p1, landed);
      RemoveOneKeeps(serviceID, spec, t, p, landed);
      RemoveStaleKeeps(serviceID, spec, types[1..], p1, landed);
      ElsewhereThen(p.state, p1.state, r.state, serviceID, INTERFACES * {t} - spec.Keys, INTERFACES - spec.Keys);
      ElsewhereMore(p.state, r.state, serviceID,
                    (INTERFACES * {t} - spec.Keys) + (INTERFACES - spec.Keys), INTERFACES - spec.Keys);
      if Single(p.state, serviceID) {
        SingleThen(p.state, p1.state, serviceID, INTERFACES * {t} - spec.Keys, t);
      }
    }
  }

  lemma SingleThen(a: State, b: State, serviceID: string, ts: set<string>, t: string)
    requires Single(a, serviceID) && Elsewhere(a, b, serviceID, ts) && ts <= {t} * INTERFACES
    requires t in INTERFACES ==> Matching(b.entries, serviceID, t) <= Matching(a.entries, serviceID, t)
                                 || |Matching(b.entries, serviceID, t)| <= 1
    ensures Single(b, serviceID)
  {
    forall u | u in INTERFACES
      ensures |Matching(b.entries, serviceID, u)| <= 1
    {
      if u !in ts {
        SameMatching(a, b, serviceID, ts, u);
      } else if |Matching(b.entries, serviceID, t)| > 1 {
        SubsetSize(Matching(b.entries, serviceID, t), Matching(a.entries, serviceID, t));
      }
    }
  }

  lemma SubsetSize<T>(a: set<T>, b: set<T>)
    requires a <= b
    ensures |a| <= |b|
  {
    assert b == a + (b - a);
  }

  lemma {:induction false} RemoveStaleOk(serviceID: string, spec: map<string, string>, types: seq<string>,
                                         p: Pass, landed: set<nat>)
    requires Inv(p.state) && p.ok && Distinct(types)
    ensures var r, n := RemoveStale(serviceID, spec, types, p, landed), |Stale(spec, types)|;
            && (r.ok <==> Stale(spec, types) <= INTERFACES && n <= p.remaining)
            && (r.ok ==> r.remaining == p.remaining - n && r.writes == p.writes + n)
    decreases |types|
  {
    if types != [] {
      var p1 := RemoveOne(serviceID, spec, types[0], p, landed);
      assert Distinct(types[1..]);
      RemoveOneKeeps(serviceID, spec, types[0], p, landed);
      StaleSplit(spec, types);
      if p1.ok {
        RemoveStaleOk(serviceID, spec, types[1..], p1, landed);
      }
    }
  }

  /** An interface that is neither recorded nor registered. */
  ghost predicate Absent(s: State, serviceID: string, t: string) {
    t !in s.ids && Matching(s.entries, serviceID, t) == {}
  }

  lemma AbsentElsewhere(a: State, b: State, serviceID: string, ts: set<string>, t: string)
    requires Absent(a, serviceID, t) && Elsewhere(a, b, serviceID, ts) && t !in ts
    ensures Absent(b, serviceID, t)
  {
    SameMatching(a, b, serviceID, ts, t);
  }

  lemma RemoveOneRemoves(serviceID: string, spec: map<string, string>, t: string, p: Pass, landed: set<nat>)
    requires Inv(p.state) && p.ok && t !in spec && RemoveOne(serviceID, spec, t, p, landed).ok
    ensures var s := RemoveOne(serviceID, spec, t, p, landed).state;
            Inv(s) && Elsewhere(p.state, s, serviceID, {t}) && Absent(s, serviceID, t)
  {
    RemoveOneKeeps(serviceID, spec, t, p, landed);
    DeleteKeeps(serviceID, t, p, landed);
  }

  /** All interfaces of ts are gone, and nothing else changed. */
  ghost predicate Removed(a: State, b: State, serviceID: string, ts: set<string>) {
    Elsewhere(a, b, serviceID, ts) && forall t | t in ts :: Absent(b, serviceID, t)
  }

  lemma RemovedThen(a: State, b: State, c: State, serviceID: string, t: string, ts: set<string>)
    requires Removed(a, b, serviceID, {t}) && Removed(b, c, serviceID, ts) && t !in ts
    ensures Removed(a, c, serviceID, ts + {t})
  {
    ElsewhereThen(a, b, c, serviceID, {t}, ts);
    AbsentElsewhere(b, c, serviceID, ts, t);
    assert {t} + ts == ts + {t};
  }

  lemma {:induction false} RemoveStaleRemoves(serviceID: string, spec: map<string, string>, types: seq<string>,
                                              p: Pass, landed: set<nat>)
    requires Inv(p.state) && p.ok && Distinct(types)
    requires RemoveStale(serviceID, spec, types, p, landed).ok
    ensures Removed(p.state, RemoveStale(serviceID, spec, types, p, landed).state, serviceID, Stale(spec, types))
    decreases |types|
  {
    if types == [] {
      assert Stale(spec, types) == {};
    } else {
      var t, rest := types[0], types[1..];
      var p1 := RemoveOne(serviceID, spec, t, p, landed);
      assert Distinct(rest) && t !in rest;
      StaleSplit(spec, types);
      if t !in spec {
        RemoveOneRemoves(serviceID, spec, t, p, landed);
        RemoveStaleRemoves(serviceID, spec, rest, p1, landed);
        RemovedThen(p.state, p1.state, RemoveStale(serviceID, spec, rest, p1, landed).state,
                    serviceID, t, Stale(spec, rest));
      } else {
        RemoveStaleRemoves(serviceID, spec, rest, p1, landed);
      }
    }
  }

  // ----- Creating and updating -----

  ghost function Unregistered(s: State, serviceID: string, spec: map<string, string>, types: seq<string>): set<string>
    requires forall t | t in types :: t in spec
  {
    set t | t in types && !Registered(s, serviceID, t, spec[t])
  }

  ghost function Elements(types: seq<string>): set<string> {
    set t | t in types
  }

  lemma {:induction false} UpsertAllKeeps(serviceID: string, spec: map<string, string>, types: seq<string>,
                                          p: Pass, landed: set<nat>)
    requires Inv(p.state) && forall t | t in types :: t in spec
    ensures var r := UpsertAll(serviceID, spec, types, p, landed);
            && Inv(r.state) && Elsewhere(p.state, r.state, serviceID, INTERFACES * Elements(types))
            && (Single(p.state, serviceID) ==> Single(r.state, serviceID))
    decreases |types|
  {
    if types != [] && p.ok {
      var t, p1 := types[0], UpsertOne(serviceID, spec, types[0], p, landed);
      var r := UpsertAll(serviceID, spec, types[1..], p1, landed);
      UpsertOneKeeps(serviceID, spec, t, p, landed);
      UpsertAllKeeps(serviceID, spec, types[1..], p1, landed);
      ElsewhereThen(p.state, p1.state, r.state, serviceID, INTERFACES * {t}, INTERFACES * Elements(types[1..]));
      ElsewhereMore(p.state, r.state, serviceID,
                    INTERFACES * {t} + INTERFACES * Elements(types[1..]), INTERFACES * Elements(types));
      if Single(p.state, serviceID) {
        if t in INTERFACES {
          UpsertOneSingle(serviceID, spec, t, p, landed);
        }
        SingleThen(p.state, p1.state, serviceID, INTERFACES * {t}, t);
      }
    }
  }

  /** Handling types[0] does not change which of the other interfaces are registered. */
  lemma UnregisteredSplit(a: State, b: State, serviceID: string, spec: map<string, string>, types: seq<string>)
    requires types != [] && Distinct(types) && forall t | t in types :: t in spec
    requires Elsewhere(a, b, serviceID, {types[0]})
    ensures var t, n := types[0], |Unregistered(a, serviceID, spec, types)|;
            n == |Unregistered(b, serviceID, spec, types[1..])| + Cost(a, serviceID, t, spec[t]) - 1
    ensures forall u | u in types[1..] ::
              Matching(a.entries, serviceID, u) == Matching(b.entries, serviceID, u)
  {
    var t, rest := types[0], types[1..];
    assert t !in rest;
    assert forall u :: u in types <==> u == t || u in rest;
    forall u | u in rest
      ensures Registered(a, serviceID, u, spec[u]) <==> Registered(b, serviceID, u, spec[u])
      ensures Matching(a.entries, serviceID, u) == Matching(b.entries, serviceID, u)
    {
      RegisteredElsewhere(a, b, serviceID, {t}, u, spec[u]);
      SameMatching(a, b, serviceID, {t}, u);
    }
    var us := Unregistered(b, serviceID, spec, rest);
    assert t !in us;
    if Registered(a, serviceID, t, spec[t]) {
      assert Unregistered(a, serviceID, spec, types) == us;
    } else {
      assert Unregistered(a, serviceID, spec, types) == us + {t};
    }
  }

  ghost predicate Unique(s: State, serviceID: string, types: set<string>) {
    types <= INTERFACES && forall t | t in types :: |Matching(s.entries, serviceID, t)| <= 1
  }

  lemma {:induction false} UpsertAllOk(serviceID: string, spec: map<string, string>, types: seq<string>,
                                       p: Pass, landed: set<nat>)
    requires Inv(p.state) && p.ok && Distinct(types) && forall t | t in types :: t in spec
    ensures var r, n := UpsertAll(serviceID, spec, types, p, landed), |Unregistered(p.state, serviceID, spec, types)|;
            && (r.ok <==> Unique(p.state, serviceID, Elements(types)) && |types| + n <= p.remaining)
            && (r.ok ==> r.writes == p.writes + n)
    decreases |types|
  {
    if types == [] {
      assert Unregistered(p.state, serviceID, spec, types) == {};
    } else {
      var t, rest := types[0], types[1..];
      var p1 := UpsertOne(serviceID, spec, t, p, landed);
      assert Distinct(rest);
      UpsertOneKeeps(serviceID, spec, t, p, landed);
      ElsewhereMore(p.state, p1.state, serviceID, INTERFACES * {t}, {t});
      UpsertOneSettles(serviceID, spec, t, p, landed);
      UnregisteredSplit(p.state, p1.state, serviceID, spec, types);
      UniqueSplit(p.state, p1.state, serviceID, types);
      if p1.ok {
        UpsertAllOk(serviceID, spec, rest, p1, landed);
      }
    }
  }

  lemma UniqueSplit(a: State, b: State, serviceID: string, types: seq<string>)
    requires types != []
    requires forall u | u in types[1..] :: Matching(a.entries, serviceID, u) == Matching(b.entries, serviceID, u)
    ensures Unique(a, serviceID, Elements(types)) <==>
            && types[0] in INTERFACES && |Matching(a.entries, serviceID, types[0])| <= 1
            && Unique(b, serviceID, Elements(types[1..]))
  {
    assert Elements(types) == Elements(types[1..]) + {types[0]};
  }

  lemma {:induction false} UpsertAllSettles(serviceID: string, spec: map<string, string>, types: seq<string>,
                                            p: Pass, landed: set<nat>)
    requires Inv(p.state) && p.ok && Distinct(types) && forall t | t in types :: t in spec
    requires UpsertAll(serviceID, spec, types, p, landed).ok
    ensures var r := UpsertAll(serviceID, spec, types, p, landed);
            forall t | t in types :: Settled(r.state, serviceID, t, spec[t])
    decreases |types|
  {
    if types != [] {
      var t, rest := types[0], types[1..];
      var p1, r := UpsertOne(serviceID, spec, t, p, landed), UpsertAll(serviceID, spec, types, p, landed);
      assert Distinct(rest) && t !in rest;
      UpsertOneKeeps(serviceID, spec, t, p, landed);
      UpsertOneSettles(serviceID, spec, t, p, landed);
      UpsertAllKeeps(serviceID, spec, rest, p1, landed);
      UpsertAllSettles(serviceID, spec, rest, p1, landed);
      SettledElsewhere(p1.state, r.state, serviceID, INTERFACES * Elements(rest), t, spec[t]);
    }
  }

  // ----- The whole reconcile -----

  /** Status, catalogue and spec agree: each interface of the spec is recorded, listed and registered
      exactly once, with the URL of the spec, and no other is recorded or listed. */
  ghost predicate Converged(s: State, serviceID: string, spec: map<string, string>) {
    && Consistent(s)
    && s.ids.Keys == spec.Keys
    && forall t | t in spec :: Settled(s, serviceID, t, spec[t])
  }

  /** How many endpoints have to be deleted, created or updated. */
  ghost function Changes(s: State, serviceID: string, spec: map<string, string>): nat {
    |s.ids.Keys - spec.Keys| + |set t | t in spec && !Registered(s, serviceID, t, spec[t])|
  }

  /** However many calls succeed, a reconcile keeps the invariant and touches no endpoint of another
      service, and no interface other than those of the spec and those recorded. */
  lemma ReconcileKeeps(serviceID: string, spec: map<string, string>, s: State, remaining: nat, landed: set<nat>)
    requires Inv(s)
    ensures var r := Reconcile(serviceID, spec, s, remaining, landed).state;
            && Inv(r) && Elsewhere(s, r, serviceID, INTERFACES)
            && (Single(s, serviceID) ==> Single(r, serviceID))
  {
    var p0, olds, news := Pass(s, remaining, 0, true), Listing(s.ids.Keys), Listing(spec.Keys);
    var p := RemoveStale(serviceID, spec, olds, p0, landed);
    var r := UpsertAll(serviceID, spec, news, p, landed);
    RemoveStaleKeeps(serviceID, spec, olds, p0, landed);
    UpsertAllKeeps(serviceID, spec, news, p, landed);
    ElsewhereThen(s, p.state, r.state, serviceID, INTERFACES - spec.Keys, INTERFACES * Elements(news));
    ElsewhereMore(s, r.state, serviceID, (INTERFACES - spec.Keys) + INTERFACES * Elements(news), INTERFACES);
  }

  /** A reconcile succeeds exactly when all interfaces concerned are valid, none of the spec has two
      endpoints, and enough calls succeed: one for each interface of the spec, and one for each change.
      It then makes no other changes. */
  lemma ReconcileOkIff(serviceID: string, spec: map<string, string>, s: State, remaining: nat, landed: set<nat>)
    requires Inv(s)
    ensures var r := Reconcile(serviceID, spec, s, remaining, landed);
            && (r.ok <==> && s.ids.Keys - spec.Keys <= INTERFACES && Unique(s, serviceID, spec.Keys)
                          && |spec| + Changes(s, serviceID, spec) <= remaining)
            && (r.ok ==> r.writes == Changes(s, serviceID, spec))
  {
    var p0, olds, news := Pass(s, remaining, 0, true), Listing(s.ids.Keys), Listing(spec.Keys);
    var p := RemoveStale(serviceID, spec, olds, p0, landed);
    RemoveStaleOk(serviceID, spec, olds, p0, landed);
    RemoveStaleKeeps(serviceID, spec, olds, p0, landed);
    assert Stale(spec, olds) == s.ids.Keys - spec.Keys;
    ListingSize(news, spec.Keys);
    if p.ok {
      UpsertAllOk(serviceID, spec, news, p, landed);
      SameWork(serviceID, spec, s, p.state);
    }
  }

  /** Deleting what is stale does not change what there is to do for the interfaces of the spec. */
  lemma SameWork(serviceID: string, spec: map<string, string>, a: State, b: State)
    requires Elsewhere(a, b, serviceID, INTERFACES - spec.Keys)
    ensures var news := Listing(spec.Keys);
            && Unregistered(b, serviceID, spec, news) == (set t | t in spec && !Registered(a, serviceID, t, spec[t]))
            && (Unique(b, serviceID, Elements(news)) <==> Unique(a, serviceID, spec.Keys))
  {
    assert Elements(Listing(spec.Keys)) == spec.Keys;
    forall t | t in spec
      ensures Matching(a.entries, serviceID, t) == Matching(b.entries, serviceID, t)
      ensures Registered(a, serviceID, t, spec[t]) <==> Registered(b, serviceID, t, spec[t])
    {
      SameMatching(a, b, serviceID, INTERFACES - spec.Keys, t);
      RegisteredElsewhere(a, b, serviceID, INTERFACES - spec.Keys, t, spec[t]);
    }
  }

  lemma {:induction false} ListingSize(types: seq<string>, keys: set<string>)
    requires Lists(types, keys)
    ensures |types| == |keys|
    decreases |types|
  {
    if types == [] {
      assert keys == {};
    } else {
      assert types[0] !in types[1..];
      assert forall t :: t in types <==> t == types[0] || t in types[1..];
      ListingSize(types[1..], keys - {types[0]});
    }
  }

  /** A reconcile that succeeds has converged, and what was recorded before and is not in the spec is
      gone from the catalogue too. */
  lemma ReconcileConverges(serviceID: string, spec: map<string, string>, s: State, remaining: nat, landed: set<nat>)
    requires Inv(s) && Reconcile(serviceID, spec, s, remaining, landed).ok
    ensures var r := Reconcile(serviceID, spec, s, remaining, landed).state;
            && Converged(r, serviceID, spec)
            && forall t | t in s.ids && t !in spec :: Matching(r.entries, serviceID, t) == {}
  {
    var p0, olds, news := Pass(s, remaining, 0, true), Listing(s.ids.Keys), Listing(spec.Keys);
    var p := RemoveStale(serviceID, spec, olds, p0, landed);
    var r := UpsertAll(serviceID, spec, news, p, landed);
    ReconcileKeeps(serviceID, spec, s, remaining, landed);
    RemoveStaleKeeps(serviceID, spec, olds, p0, landed);
    RemoveStaleRemoves(serviceID, spec, olds, p0, landed);
    UpsertAllKeeps(serviceID, spec, news, p, landed);
    UpsertAllSettles(serviceID, spec, news, p, landed);
    forall t | t !in spec
      ensures t !in r.state.ids
      ensures t in s.ids ==> Matching(r.state.entries, serviceID, t) == {}
    {
      if t in s.ids {
        assert t in Stale(spec, olds);
        AbsentElsewhere(p.state, r.state, serviceID, INTERFACES * Elements(news), t);
      } else {
        assert t !in p.state.ids;
      }
    }
    forall t | t in spec
      ensures t in r.state.ids && Settled(r.state, serviceID, t, spec[t])
    {
      assert t in news;
    }
  }

  /** A successful reconcile leaves nothing registered outside the spec exactly when nothing was
      registered that is neither in the spec nor recorded. A create that took effect but was reported
      as failed, for an interface that is then dropped from the spec, is such a case. */
  lemma NothingElseIff(serviceID: string, spec: map<string, string>, s: State, remaining: nat, landed: set<nat>)
    requires Inv(s) && Reconcile(serviceID, spec, s, remaining, landed).ok
    ensures var r := Reconcile(serviceID, spec, s, remaining, landed).state;
            (forall t | t !in spec :: Matching(r.entries, serviceID, t) == {}) <==>
            (forall t | t !in spec && t !in s.ids :: Matching(s.entries, serviceID, t) == {})
  {
    var p0, olds, news := Pass(s, remaining, 0, true), Listing(s.ids.Keys), Listing(spec.Keys);
    var p := RemoveStale(serviceID, spec, olds, p0, landed);
    var r := UpsertAll(serviceID, spec, news, p, landed);
    RemoveStaleKeeps(serviceID, spec, olds, p0, landed);
    RemoveStaleRemoves(serviceID, spec, olds, p0, landed);
    UpsertAllKeeps(serviceID, spec, news, p, landed);
    forall t | t !in spec
      ensures Matching(r.state.entries, serviceID, t) ==
              if t in s.ids then {} else Matching(s.entries, serviceID, t)
    {
      SameMatching(p.state, r.state, serviceID, INTERFACES * Elements(news), t);
      if t in s.ids {
        assert t in Stale(spec, olds);
      } else {
        SameMatching(s, p.state, serviceID, Stale(spec, olds), t);
      }
    }
  }

  lemma {:induction false} UpsertAllConcat(serviceID: string, spec: map<string, string>, a: seq<string>,
                                           b: seq<string>, p: Pass, landed: set<nat>)
    requires forall t | t in a || t in b :: t in spec
    ensures UpsertAll(serviceID, spec, a + b, p, landed) ==
            UpsertAll(serviceID, spec, b, UpsertAll(serviceID, spec, a, p, landed), landed)
    decreases |a|
  {
    if a == [] {
      assert a + b == b;
    } else {
      assert (a + b)[1..] == a[1..] + b;
      UpsertAllConcat(serviceID, spec, a[1..], b, UpsertOne(serviceID, spec, a[0], p, landed), landed);
    }
  }

  /** A second loop that gets through its first k interfaces leaves them settled, even if it fails later. */
  lemma UpsertProgress(serviceID: string, spec: map<string, string>, types: seq<string>, p: Pass, landed: set<nat>,
                       k: nat)
    requires Inv(p.state) && p.ok && Distinct(types) && k <= |types| && forall t | t in types :: t in spec
    requires UpsertAll(serviceID, spec, types[..k], p, landed).ok
    ensures var r := UpsertAll(serviceID, spec, types, p, landed).state;
            forall t | t in types[..k] :: Settled(r, serviceID, t, spec[t])
  {
    var first, rest := types[..k], types[k..];
    assert types == first + rest;
    var q, r := UpsertAll(serviceID, spec, first, p, landed), UpsertAll(serviceID, spec, types, p, landed);
    UpsertAllKeeps(serviceID, spec, first, p, landed);
    UpsertAllSettles(serviceID, spec, first, p, landed);
    UpsertAllConcat(serviceID, spec, first, rest, p, landed);
    UpsertAllKeeps(serviceID, spec, rest, q, landed);
    forall t | t in first
      ensures Settled(r.state, serviceID, t, spec[t])
    {
      SettledElsewhere(q.state, r.state, serviceID, INTERFACES * Elements(rest), t, spec[t]);
    }
  }

  /** What the calls suffice for stays done, even if a later call fails: everything stale, and then the first
      interfaces of the spec in order. */
  lemma ReconcileProgress(serviceID: string, spec: map<string, string>, s: State, remaining: nat, landed: set<nat>,
                          k: nat)
    requires Inv(s) && k <= |Listing(spec.Keys)| && s.ids.Keys - spec.Keys <= INTERFACES
    requires Unique(s, serviceID, Elements(Listing(spec.Keys)[..k]))
    requires |s.ids.Keys - spec.Keys| + k + |Open(s, serviceID, spec, Elements(Listing(spec.Keys)[..k]))| <= remaining
    ensures var r := Reconcile(serviceID, spec, s, remaining, landed).state;
            && (forall t | t in s.ids && t !in spec :: Absent(r, serviceID, t))
            && (forall t | t in Listing(spec.Keys)[..k] :: t in spec && Settled(r, serviceID, t, spec[t]))
  {
    var news := Listing(spec.Keys);
    var p := RemoveStale(serviceID, spec, Listing(s.ids.Keys), Pass(s, remaining, 0, true), landed);
    StaleFirst(serviceID, spec, s, remaining, landed);
    FirstGetThrough(serviceID, spec, s, p, landed, news[..k]);
    UpsertProgress(serviceID, spec, news, p, landed, k);
    StaleStaysGone(serviceID, spec, s, remaining, landed);
  }

  lemma StaleFirst(serviceID: string, spec: map<string, string>, s: State, remaining: nat, landed: set<nat>)
    requires Inv(s) && s.ids.Keys - spec.Keys <= INTERFACES && |s.ids.Keys - spec.Keys| <= remaining
    ensures var p := RemoveStale(serviceID, spec, Listing(s.ids.Keys), Pass(s, remaining, 0, true), landed);
            && p.ok && p.remaining == remaining - |s.ids.Keys - spec.Keys|
            && Inv(p.state) && Elsewhere(s, p.state, serviceID, INTERFACES - spec.Keys)
  {
    var p0, olds := Pass(s, remaining, 0, true), Listing(s.ids.Keys);
    StaleIs(spec, s.ids.Keys);
    RemoveStaleOk(serviceID, spec, olds, p0, landed);
    RemoveStaleLeft(serviceID, spec, olds, p0, landed);
  }

  lemma StaleIs(spec: map<string, string>, keys: set<string>)
    ensures Stale(spec, Listing(keys)) == keys - spec.Keys
  {
  }

  lemma RemoveStaleLeft(serviceID: string, spec: map<string, string>, types: seq<string>, p: Pass, landed: set<nat>)
    requires Inv(p.state)
    ensures var r := RemoveStale(serviceID, spec, types, p, landed);
            Inv(r.state) && Elsewhere(p.state, r.state, serviceID, INTERFACES - spec.Keys)
  {
    RemoveStaleKeeps(serviceID, spec, types, p, landed);
  }

  lemma FirstGetThrough(serviceID: string, spec: map<string, string>, s: State, p: Pass, landed: set<nat>,
                        first: seq<string>)
    requires Inv(p.state) && p.ok && Elsewhere(s, p.state, serviceID, INTERFACES - spec.Keys)
    requires Distinct(first) && forall t | t in first :: t in spec
    requires Unique(s, serviceID, Elements(first))
    requires |first| + |Open(s, serviceID, spec, Elements(first))| <= p.remaining
    ensures UpsertAll(serviceID, spec, first, p, landed).ok
  {
    SameFirst(serviceID, spec, s, p.state, first);
    UpsertAllOk(serviceID, spec, first, p, landed);
  }

  lemma StaleStaysGone(serviceID: string, spec: map<string, string>, s: State, remaining: nat, landed: set<nat>)
    requires Inv(s) && RemoveStale(serviceID, spec, Listing(s.ids.Keys), Pass(s, remaining, 0, true), landed).ok
    ensures forall t | t in s.ids && t !in spec ::
              Absent(Reconcile(serviceID, spec, s, remaining, landed).state, serviceID, t)
  {
    var p0, olds, news := Pass(s, remaining, 0, true), Listing(s.ids.Keys), Listing(spec.Keys);
    var p, r := RemoveStale(serviceID, spec, olds, p0, landed), Reconcile(serviceID, spec, s, remaining, landed);
    RemoveStaleKeeps(serviceID, spec, olds, p0, landed);
    RemoveStaleRemoves(serviceID, spec, olds, p0, landed);
    UpsertAllKeeps(serviceID, spec, news, p, landed);
    forall t | t in s.ids && t !in spec
      ensures Absent(r.state, serviceID, t)
    {
      assert t in Stale(spec, olds);
      AbsentElsewhere(p.state, r.state, serviceID, INTERFACES * Elements(news), t);
    }
  }

  /** Those of these interfaces that have to be created or updated. */
  ghost function Open(s: State, serviceID: string, spec: map<string, string>, types: set<string>): set<string> {
    set t | t in types && t in spec && !Registered(s, serviceID, t, spec[t])
  }

  lemma SameFirst(serviceID: string, spec: map<string, string>, a: State, b: State, first: seq<string>)
    requires Elsewhere(a, b, serviceID, INTERFACES - spec.Keys) && forall t | t in first :: t in spec
    ensures Unregistered(b, serviceID, spec, first) == Open(a, serviceID, spec, Elements(first))
    ensures Unique(b, serviceID, Elements(first)) <==> Unique(a, serviceID, Elements(first))
  {
    forall t | t in first
      ensures Matching(a.entries, serviceID, t) == Matching(b.entries, serviceID, t)
      ensures Registered(a, serviceID, t, spec[t]) <==> Registered(b, serviceID, t, spec[t])
    {
      SameMatching(a, b, serviceID, INTERFACES - spec.Keys, t);
      RegisteredElsewhere(a, b, serviceID, INTERFACES - spec.Keys, t, spec[t]);
    }
  }

  // ----- A second reconcile, and runs -----

  lemma RecordedIdle(s: State, serviceID: string, t: string, url: string, id: nat)
    requires Consistent(s) && Settled(s, serviceID, t, url) && id == s.ids[t]
    ensures Recorded(s, t, url, id) == s
  {
    var i, e := EndpointIdx(t, s.endpoints), Endpoint(t, url, id);
    assert e in s.endpoints;
    var j: nat :| j < |s.endpoints| && s.endpoints[j] == e;
    assert i == j;
    assert With(t, url, id, s.endpoints) == s.endpoints;
    assert s.ids[t := id] == s.ids;
  }

  lemma {:induction false} RemoveStaleIdle(serviceID: string, spec: map<string, string>, types: seq<string>,
                                           p: Pass, landed: set<nat>)
    requires forall t | t in types :: t in spec
    ensures RemoveStale(serviceID, spec, types, p, landed) == p
    decreases |types|
  {
    if types != [] && p.ok {
      RemoveStaleIdle(serviceID, spec, types[1..], p, landed);
    }
  }

  lemma {:induction false} UpsertAllIdle(serviceID: string, spec: map<string, string>, types: seq<string>,
                                         p: Pass, landed: set<nat>)
    requires Converged(p.state, serviceID, spec) && forall t | t in types :: t in spec
    ensures var r := UpsertAll(serviceID, spec, types, p, landed);
            r.state == p.state && r.writes == p.writes
    decreases |types|
  {
    if types != [] && p.ok {
      var t, s := types[0], p.state;
      assert Settled(s, serviceID, t, spec[t]);
      RecordedIdle(s, serviceID, t, spec[t], s.ids[t]);
      UpsertAllIdle(serviceID, spec, types[1..], UpsertOne(serviceID, spec, t, p, landed), landed);
    }
  }

  /** Once converged, a further reconcile changes nothing and asks for no change, however many of its
      calls succeed. */
  lemma ConvergedIdle(serviceID: string, spec: map<string, string>, s: State, remaining: nat, landed: set<nat>)
    requires Converged(s, serviceID, spec)
    ensures var r := Reconcile(serviceID, spec, s, remaining, landed);
            r.state == s && r.writes == 0
  {
    var p := Pass(s, remaining, 0, true);
    RemoveStaleIdle(serviceID, spec, Listing(s.ids.Keys), p, landed);
    UpsertAllIdle(serviceID, spec, Listing(spec.Keys), p, landed);
  }

  /** One reconcile of a run: the spec it sees, how far its calls get, and whether the status patch at
      its end takes effect. */
  datatype Attempt = Attempt(spec: map<string, string>, remaining: nat, landed: set<nat>, patched: bool)

  /** The catalogue and the stored status after it; a lost patch leaves the stored status as it was. */
  ghost function Attempted(serviceID: string, s: State, a: Attempt): State {
    var r := Reconcile(serviceID, a.spec, s, a.remaining, a.landed).state;
    if a.patched then r else r.(ids := s.ids, endpoints := s.endpoints)
  }

  ghost function Run(serviceID: string, s: State, attempts: seq<Attempt>): State
    decreases |attempts|
  {
    if attempts == [] then s else Run(serviceID, Attempted(serviceID, s, attempts[0]), attempts[1..])
  }

  lemma AttemptKeeps(serviceID: string, s: State, a: Attempt)
    requires Inv(s) && Single(s, serviceID)
    ensures var r := Attempted(serviceID, s, a);
            Inv(r) && Single(r, serviceID) && Elsewhere(s, r, serviceID, INTERFACES)
  {
    ReconcileKeeps(serviceID, a.spec, s, a.remaining, a.landed);
    if !a.patched {
      var c, r := Reconcile(serviceID, a.spec, s, a.remaining, a.landed).state, Attempted(serviceID, s, a);
      assert r.entries == c.entries && r.nextID == c.nextID && r.ids == s.ids && r.endpoints == s.endpoints;
      forall id, e: Entry | e.serviceID != serviceID || e.interface !in INTERFACES
        ensures Has(s, id, e) <==> Has(r, id, e)
      {
        assert Has(s, id, e) <==> Has(c, id, e);
      }
    }
  }

  /** Whatever fails, lost status patches included: the status stays consistent, and the other services'
      endpoints stay as they are. */
  lemma {:induction false} RunKeeps(serviceID: string, s: State, attempts: seq<Attempt>)
    requires Inv(s) && Single(s, serviceID)
    ensures var r := Run(serviceID, s, attempts);
            Inv(r) && Single(r, serviceID) && Elsewhere(s, r, serviceID, INTERFACES)
    decreases |attempts|
  {
    if attempts != [] {
      var s1 := Attempted(serviceID, s, attempts[0]);
      AttemptKeeps(serviceID, s, attempts[0]);
      RunKeeps(serviceID, s1, attempts[1..]);
      ElsewhereThen(s, s1, Run(serviceID, s1, attempts[1..]), serviceID, INTERFACES, INTERFACES);
      assert INTERFACES + INTERFACES == INTERFACES;
    }
  }

  /** Six calls are enough for any reconcile of a valid spec: there are three interfaces. */
  lemma SixCallsSuffice(s: State, serviceID: string, spec: map<string, string>)
    requires Single(s, serviceID) && spec.Keys <= INTERFACES
    ensures |spec| + Changes(s, serviceID, spec) <= 6
  {
    var stale, open := s.ids.Keys - spec.Keys, set t | t in spec && !Registered(s, serviceID, t, spec[t]);
    assert |INTERFACES| == 3;
    SubsetSize(stale + spec.Keys, INTERFACES);
    assert stale !! spec.Keys;
    assert |stale + spec.Keys| == |stale| + |spec.Keys|;
    SubsetSize(open, spec.Keys);
    SubsetSize(spec.Keys, INTERFACES);
    assert |spec| == |spec.Keys|;
  }

  /** Whatever failed before, lost status patches included, and whatever the spec was: from a catalogue
      with at most one endpoint per interface, the next reconcile of a valid spec whose first six calls
      succeed and whose status is patched converges. */
  lemma RunRecovers(serviceID: string, s: State, attempts: seq<Attempt>, next: Attempt)
    requires Inv(s) && Single(s, serviceID)
    requires next.spec.Keys <= INTERFACES && next.remaining >= 6 && next.patched
    ensures Converged(Run(serviceID, s, attempts + [next]), serviceID, next.spec)
  {
    var r := Run(serviceID, s, attempts);
    RunKeeps(serviceID, s, attempts);
    SixCallsSuffice(r, serviceID, next.spec);
    ReconcileOkIff(serviceID, next.spec, r, next.remaining, next.landed);
    ReconcileConverges(serviceID, next.spec, r, next.remaining, next.landed);
    RunAppend(serviceID, s, attempts, next);
  }

  lemma {:induction false} RunAppend(serviceID: string, s: State, attempts: seq<Attempt>, next: Attempt)
    ensures Run(serviceID, s, attempts + [next]) == Attempted(serviceID, Run(serviceID, s, attempts), next)
    decreases |attempts|
  {
    if attempts == [] {
      assert attempts + [next] == [next];
      assert [next][1..] == [];
    } else {
      assert (attempts + [next])[1..] == attempts[1..] + [next];
      RunAppend(serviceID, Attempted(serviceID, s, attempts[0]), attempts[1..], next);
    }
  }

  // ----- Deletion -----

  lemma {:induction false} DeleteAllRemoves(serviceID: string, types: seq<string>, p: Pass, landed: set<nat>)
    requires Inv(p.state) && p.ok && DeleteAll(serviceID, types, p, landed).ok
    ensures var r := DeleteAll(serviceID, types, p, landed).state;
            && Elsewhere(p.state, r, serviceID, Elements(types))
            && forall t :: Matching(r.entries, serviceID, t) ==
                           if t in types then {} else Matching(p.state.entries, serviceID, t)
    decreases |types|
  {
    if types != [] {
      var t, rest, p1 := types[0], types[1..], DeleteOne(serviceID, types[0], p, landed);
      var r := DeleteAll(serviceID, rest, p1, landed).state;
      DeleteKeeps(serviceID, t, p, landed);
      DeleteAllRemoves(serviceID, rest, p1, landed);
      ElsewhereThen(p.state, p1.state, r, serviceID, {t}, Elements(rest));
      ElsewhereMore(p.state, r, serviceID, {t} + Elements(rest), Elements(types));
      forall u
        ensures Matching(r.entries, serviceID, u) ==
                if u in types then {} else Matching(p.state.entries, serviceID, u)
      {
        if u != t {
          SameMatching(p.state, p1.state, serviceID, {t}, u);
        }
      }
    }
  }

  /** The deletions get through exactly if all interfaces of the spec are valid and enough calls succeed. */
  lemma DeleteGetsThroughIff(serviceID: string, spec: map<string, string>, s: State, remaining: nat, landed: set<nat>)
    ensures DeleteAll(serviceID, Listing(spec.Keys), Pass(s, remaining, 0, true), landed).ok <==>
            spec.Keys <= {"admin", "internal", "public"} && |spec| <= remaining
  {
    var types := Listing(spec.Keys);
    DeleteAllOkIff(serviceID, types, Pass(s, remaining, 0, true), landed);
    ListingSize(types, spec.Keys);
    assert forall t :: t in types <==> t in spec.Keys;
  }

  lemma {:induction false} DeleteAllOkIff(serviceID: string, types: seq<string>, p: Pass, landed: set<nat>)
    requires p.ok
    ensures DeleteAll(serviceID, types, p, landed).ok <==>
            (forall t | t in types :: t in INTERFACES) && |types| <= p.remaining
    decreases |types|
  {
    if types != [] {
      var q := DeleteOne(serviceID, types[0], p, landed);
      assert forall t :: t in types <==> t == types[0] || t in types[1..];
      if q.ok {
        DeleteAllOkIff(serviceID, types[1..], q, landed);
      }
    }
  }

  /** Deletion goes by the spec, not by the status: it leaves nothing registered for a recorded
      interface exactly when the recorded interfaces outside the spec had nothing registered. In
      particular it cleans up completely after a reconcile of the same spec succeeded. */
  lemma DeleteCompleteIff(serviceID: string, spec: map<string, string>, s: State, remaining: nat, landed: set<nat>)
    requires Inv(s) && DeleteAll(serviceID, Listing(spec.Keys), Pass(s, remaining, 0, true), landed).ok
    ensures var r := DeleteAll(serviceID, Listing(spec.Keys), Pass(s, remaining, 0, true), landed).state;
            && ((forall t | t in s.ids :: Matching(r.entries, serviceID, t) == {}) <==>
                (forall t | t in s.ids && t !in spec :: Matching(s.entries, serviceID, t) == {}))
            && (Converged(s, serviceID, spec) ==> forall t | t in s.ids :: Matching(r.entries, serviceID, t) == {})
  {
    DeleteAllRemoves(serviceID, Listing(spec.Keys), Pass(s, remaining, 0, true), landed);
    assert forall t :: t in Listing(spec.Keys) <==> t in spec;
  }
}
