/** What one round of endpoint reconciliation, for one interface, changes and keeps. */
module EndpointSteps {
  import opened Sequences
  import opened StringOrder
  import opened EndpointModel

  // ----- What is left alone -----

  ghost predicate Has(s: State, id: nat, e: Entry) {
    id in s.entries && s.entries[id] == e
  }

  /** Only endpoints of the service with an interface in ts differ, in the catalogue and in the status. */
  ghost predicate Elsewhere(a: State, b: State, serviceID: string, ts: set<string>) {
    && (forall id, e: Entry | e.serviceID != serviceID || e.interface !in ts :: Has(a, id, e) <==> Has(b, id, e))
    && (forall u | u !in ts :: (u in a.ids <==> u in b.ids) && (u in a.ids && u in b.ids ==> a.ids[u] == b.ids[u]))
    && (forall e: Endpoint | e.interface !in ts :: e in a.endpoints <==> e in b.endpoints)
  }

  lemma ElsewhereThen(a: State, b: State, c: State, serviceID: string, ts: set<string>, us: set<string>)
    requires Elsewhere(a, b, serviceID, ts) && Elsewhere(b, c, serviceID, us)
    ensures Elsewhere(a, c, serviceID, ts + us)
  {
    forall id, e: Entry | e.serviceID != serviceID || e.interface !in ts + us
      ensures Has(a, id, e) <==> Has(c, id, e)
    {
      assert Has(a, id, e) <==> Has(b, id, e);
    }
  }

  lemma SameMatching(a: State, b: State, serviceID: string, ts: set<string>, t: string)
    requires Elsewhere(a, b, serviceID, ts) && t !in ts
    ensures Matching(a.entries, serviceID, t) == Matching(b.entries, serviceID, t)
    ensures forall id | id in Matching(a.entries, serviceID, t) :: a.entries[id] == b.entries[id]
  {
    forall id
      ensures id in Matching(a.entries, serviceID, t) <==> id in Matching(b.entries, serviceID, t)
      ensures id in Matching(a.entries, serviceID, t) ==> a.entries[id] == b.entries[id]
    {
      assert id in Matching(a.entries, serviceID, t) ==> (Has(a, id, a.entries[id]) <==> Has(b, id, a.entries[id]));
      assert id in Matching(b.entries, serviceID, t) ==> (Has(a, id, b.entries[id]) <==> Has(b, id, b.entries[id]));
    }
  }

  // ----- The invariant -----

  /** The status lists each interface once, each with its recorded ID. */
  ghost predicate Consistent(s: State) {
    && EachOnce(s.endpoints)
    && (forall e | e in s.endpoints :: e.interface in s.ids && s.ids[e.interface] == e.id)
  }

  /** Only valid interfaces are recorded, and none has more than one endpoint in the catalogue. */
  ghost predicate Single(s: State, serviceID: string) {
    && s.ids.Keys <= INTERFACES
    && forall t | t in INTERFACES :: |Matching(s.entries, serviceID, t)| <= 1
  }

  ghost predicate Inv(s: State) {
    WellFormed(s) && Consistent(s)
  }

  lemma WithoutList(t: string, a: seq<Endpoint>)
    ensures forall e: Endpoint | e.interface != t :: e in a <==> e in Without(t, a)
    ensures forall e | e in Without(t, a) :: e in a
    ensures EachOnce(a) ==>
              && EachOnce(Without(t, a))
              && (forall e | e in Without(t, a) :: e.interface != t)
  {
    var i, b := EndpointIdx(t, a), Without(t, a);
    if i >= 0 {
      assert a == a[..i] + [a[i]] + a[i + 1..];
      forall k | 0 <= k < |b|
        ensures b[k] == if k < i then a[k] else a[k + 1]
      {
      }
    }
  }

  lemma WithList(t: string, url: string, id: nat, a: seq<Endpoint>)
    ensures Endpoint(t, url, id) in With(t, url, id, a)
    ensures forall e: Endpoint | e.interface != t :: e in a <==> e in With(t, url, id, a)
    ensures EachOnce(a) ==>
              && EachOnce(With(t, url, id, a))
              && (forall e | e in With(t, url, id, a) && e.interface == t :: e == Endpoint(t, url, id))
  {
    var i, b := EndpointIdx(t, a), With(t, url, id, a);
    if i >= 0 {
      assert b[i] == Endpoint(t, url, id);
      forall e: Endpoint | e.interface != t && e in a
        ensures e in b
      {
        var k :| 0 <= k < |a| && a[k] == e;
        assert b[k] == e;
      }
    } else {
      assert b[|a|] == Endpoint(t, url, id);
    }
  }

  lemma RecordedKeeps(s: State, serviceID: string, t: string, url: string, id: nat)
    requires Inv(s) && id != 0
    ensures Inv(Recorded(s, t, url, id)) && Elsewhere(s, Recorded(s, t, url, id), serviceID, {t})
  {
    WithList(t, url, id, s.endpoints);
  }

  lemma DeleteKeeps(serviceID: string, t: string, p: Pass, landed: set<nat>)
    requires Inv(p.state)
    ensures var r := DeleteEndpoint(serviceID, t, p, landed);
            && Inv(r.state) && Elsewhere(p.state, r.state, serviceID, {t})
            && Matching(r.state.entries, serviceID, t) <= Matching(p.state.entries, serviceID, t)
            && (r.ok && p.ok ==> Matching(r.state.entries, serviceID, t) == {})
  {
  }

  lemma RemoveOneKeeps(serviceID: string, spec: map<string, string>, t: string, p: Pass, landed: set<nat>)
    requires Inv(p.state)
    ensures var r := RemoveOne(serviceID, spec, t, p, landed);
            && Inv(r.state) && Elsewhere(p.state, r.state, serviceID, INTERFACES * {t} - spec.Keys)
            && Matching(r.state.entries, serviceID, t) <= Matching(p.state.entries, serviceID, t)
  {
    if t !in spec && t in INTERFACES {
      var q := DeleteEndpoint(serviceID, t, p, landed);
      DeleteKeeps(serviceID, t, p, landed);
      ForgottenKeeps(q.state, serviceID, t);
      ElsewhereThen(p.state, q.state, Forgotten(q.state, t), serviceID, {t}, {t});
      assert INTERFACES * {t} - spec.Keys == {t} == {t} + {t};
    }
  }

  function Forgotten(s: State, t: string): State {
    s.(ids := s.ids - {t}, endpoints := Without(t, s.endpoints))
  }

  lemma ForgottenKeeps(s: State, serviceID: string, t: string)
    requires Inv(s)
    ensures Inv(Forgotten(s, t)) && Elsewhere(s, Forgotten(s, t), serviceID, {t})
  {
    WithoutList(t, s.endpoints);
  }

  lemma CreatedKeeps(s: State, serviceID: string, t: string, url: string)
    requires Inv(s)
    ensures var c := Created(s, serviceID, t, url);
            Inv(c) && Elsewhere(s, c, serviceID, {t}) &&
            Inv(Recorded(c, t, url, s.nextID)) && Elsewhere(s, Recorded(c, t, url, s.nextID), serviceID, {t})
  {
    var c := Created(s, serviceID, t, url);
    assert Inv(c) && Elsewhere(s, c, serviceID, {t});
    RecordedKeeps(c, serviceID, t, url, s.nextID);
    ElsewhereThen(s, c, Recorded(c, t, url, s.nextID), serviceID, {t}, {t});
    assert {t} + {t} == {t};
  }

  lemma UpdatedKeeps(s: State, serviceID: string, t: string, url: string, id: nat)
    requires Inv(s) && id in Matching(s.entries, serviceID, t)
    ensures var c := Updated(s, id, url);
            Inv(c) && Elsewhere(s, c, serviceID, {t}) &&
            Inv(Recorded(c, t, url, id)) && Elsewhere(s, Recorded(c, t, url, id), serviceID, {t})
  {
    var c := Updated(s, id, url);
    assert Inv(c) && Elsewhere(s, c, serviceID, {t});
    RecordedKeeps(c, serviceID, t, url, id);
    ElsewhereThen(s, c, Recorded(c, t, url, id), serviceID, {t}, {t});
    assert {t} + {t} == {t};
  }

  lemma UpsertOneKeeps(serviceID: string, spec: map<string, string>, t: string, p: Pass, landed: set<nat>)
    requires Inv(p.state) && t in spec
    ensures var r := UpsertOne(serviceID, spec, t, p, landed);
            Inv(r.state) && Elsewhere(p.state, r.state, serviceID, INTERFACES * {t})
  {
    var s, found := p.state, Matching(p.state.entries, serviceID, t);
    if t in INTERFACES && p.remaining > 0 {
      assert INTERFACES * {t} == {t};
      if |found| == 0 {
        CreatedKeeps(s, serviceID, t, spec[t]);
      } else if |found| == 1 {
        var id := Only(found);
        assert id in found;
        RecordedKeeps(s, serviceID, t, spec[t], id);
        UpdatedKeeps(s, serviceID, t, spec[t], id);
      }
    }
  }

  lemma ElsewhereMore(a: State, b: State, serviceID: string, ts: set<string>, us: set<string>)
    requires Elsewhere(a, b, serviceID, ts) && ts <= us
    ensures Elsewhere(a, b, serviceID, us)
  {
  }

  // ----- One interface done -----

  /** The catalogue has an endpoint of this interface with this URL. */
  ghost predicate Registered(s: State, serviceID: string, t: string, url: string) {
    exists id :: id in Matching(s.entries, serviceID, t) && s.entries[id].url == url
  }

  /** Status and catalogue agree on this interface, and on this URL. */
  ghost predicate Settled(s: State, serviceID: string, t: string, url: string) {
    && t in s.ids
    && Matching(s.entries, serviceID, t) == {s.ids[t]}
    && s.entries[s.ids[t]].url == url
    && Endpoint(t, url, s.ids[t]) in s.endpoints
  }

  lemma SettledElsewhere(a: State, b: State, serviceID: string, ts: set<string>, t: string, url: string)
    requires Settled(a, serviceID, t, url) && Elsewhere(a, b, serviceID, ts) && t !in ts
    ensures Settled(b, serviceID, t, url)
  {
    SameMatching(a, b, serviceID, ts, t);
    assert a.ids[t] in Matching(a.entries, serviceID, t);
    var e := Endpoint(t, url, a.ids[t]);
    assert e in a.endpoints && e.interface !in ts;
  }

  lemma RegisteredElsewhere(a: State, b: State, serviceID: string, ts: set<string>, t: string, url: string)
    requires Elsewhere(a, b, serviceID, ts) && t !in ts
    ensures Registered(a, serviceID, t, url) <==> Registered(b, serviceID, t, url)
  {
    SameMatching(a, b, serviceID, ts, t);
    assert forall id :: id in Matching(a.entries, serviceID, t) <==> id in Matching(b.entries, serviceID, t);
  }

  /** Looking an interface up costs one call, and changing it one more. */
  ghost function Cost(s: State, serviceID: string, t: string, url: string): nat {
    if Registered(s, serviceID, t, url) then 1 else 2
  }

  lemma RecordedSettles(s: State, serviceID: string, t: string, url: string, id: nat)
    requires id != 0 && Matching(s.entries, serviceID, t) == {id} && s.entries[id].url == url
    ensures Settled(Recorded(s, t, url, id), serviceID, t, url)
  {
    WithList(t, url, id, s.endpoints);
    assert id in Matching(s.entries, serviceID, t);
  }

  lemma UpsertOneSettles(serviceID: string, spec: map<string, string>, t: string, p: Pass, landed: set<nat>)
    requires Inv(p.state) && p.ok && t in spec
    ensures var r, c := UpsertOne(serviceID, spec, t, p, landed), Cost(p.state, serviceID, t, spec[t]);
            && (r.ok <==> t in INTERFACES && |Matching(p.state.entries, serviceID, t)| <= 1 && c <= p.remaining)
            && (r.ok ==> Settled(r.state, serviceID, t, spec[t]))
            && (r.ok ==> r.remaining == p.remaining - c && r.writes == p.writes + c - 1)
  {
    var s, found := p.state, Matching(p.state.entries, serviceID, t);
    if t in INTERFACES && p.remaining > 0 {
      if |found| == 0 {
        var c := Created(s, serviceID, t, spec[t]);
        assert Matching(c.entries, serviceID, t) == {s.nextID};
        RecordedSettles(c, serviceID, t, spec[t], s.nextID);
      } else if |found| == 1 {
        var id := Only(found);
        assert id in found;
        if s.entries[id].url == spec[t] {
          RecordedSettles(s, serviceID, t, spec[t], id);
        } else {
          var c := Updated(s, id, spec[t]);
          assert Matching(c.entries, serviceID, t) == {id};
          RecordedSettles(c, serviceID, t, spec[t], id);
        }
      }
    }
  }

  lemma UpsertOneSingle(serviceID: string, spec: map<string, string>, t: string, p: Pass, landed: set<nat>)
    requires Inv(p.state) && t in spec && |Matching(p.state.entries, serviceID, t)| <= 1
    ensures |Matching(UpsertOne(serviceID, spec, t, p, landed).state.entries, serviceID, t)| <= 1
  {
    var s, found := p.state, Matching(p.state.entries, serviceID, t);
    if t in INTERFACES && p.remaining > 0 {
      if |found| == 0 {
        var c := Created(s, serviceID, t, spec[t]);
        assert Matching(c.entries, serviceID, t) == {s.nextID};
      } else {
        var id := Only(found);
        assert id in found;
        assert Matching(Updated(s, id, spec[t]).entries, serviceID, t) == {id};
      }
    }
  }
}
