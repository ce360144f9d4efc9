/** The endpoint controller's loops over the catalogue and the status, in place. */
module EndpointController {
  import opened StringOrder
  import opened EndpointModel

  /** The OpenStack client. `remaining` more calls succeed; when one that changes something fails, the
      endpoints in `landed` have been changed all the same. */
  class Catalogue {
    var entries: map<nat, Entry>
    var nextID: nat
    var remaining: nat
    var writes: nat
    const landed: set<nat>

    constructor (remaining: nat, landed: set<nat>)
      ensures entries == map[] && nextID == 1 && writes == 0
      ensures this.remaining == remaining && this.landed == landed
    {
      entries, nextID, writes := map[], 1, 0;
      this.remaining, this.landed := remaining, landed;
    }

    method GetEndpoints(serviceID: string, t: string) returns (found: map<nat, Entry>, ok: bool)
      modifies this`remaining
      ensures ok == (old(remaining) > 0) && remaining == if ok then old(remaining) - 1 else 0
      ensures ok ==> found.Keys == Matching(entries, serviceID, t) && forall id | id in found ::
            found[id] == entries[id]
    {
      found := map id | id in entries && entries[id].serviceID == serviceID && entries[id].interface == t ::
            entries[id];
      ok := remaining > 0;
      remaining := if ok then remaining - 1 else 0;
    }

    method CreateEndpoint(serviceID: string, t: string, url: string) returns (id: nat, ok: bool)
      modifies this`entries, this`nextID, this`remaining, this`writes
      ensures ok == (old(remaining) > 0) && remaining == if ok then old(remaining) - 1 else 0
      ensures writes == old(writes) + 1 && id == old(nextID)
      ensures if ok || id in landed then entries == old(entries)[id := Entry(serviceID, t, url)] && nextID == id + 1
              else entries == old(entries) && nextID == old(nextID)
    {
      id, writes := nextID, writes + 1;
      ok := remaining > 0;
      remaining := if ok then remaining - 1 else 0;
      if ok || id in landed {
        entries, nextID := entries[id := Entry(serviceID, t, url)], id + 1;
      }
    }

    method UpdateEndpoint(id: nat, url: string) returns (ok: bool)
      requires id in entries
      modifies this`entries, this`remaining, this`writes
      ensures ok == (old(remaining) > 0) && remaining == if ok then old(remaining) - 1 else 0
      ensures writes == old(writes) + 1
      ensures entries == if ok || id in landed then old(entries)[id := old(entries)[id].(url := url)] else old(entries)
    {
      writes := writes + 1;
      ok := remaining > 0;
      remaining := if ok then remaining - 1 else 0;
      if ok || id in landed {
        entries := entries[id := entries[id].(url := url)];
      }
    }

    method DeleteEndpoint(serviceID: string, t: string) returns (ok: bool)
      modifies this`entries, this`remaining, this`writes
      ensures ok == (old(remaining) > 0) && remaining == if ok then old(remaining) - 1 else 0
      ensures writes == old(writes) + 1
      ensures entries == old(entries) - (if ok then Matching(old(entries), serviceID, t)
                                         else Matching(old(entries), serviceID, t) * landed)
    {
      writes := writes + 1;
      ok := remaining > 0;
      remaining := if ok then remaining - 1 else 0;
      var found := set id | id in entries && entries[id].serviceID == serviceID && entries[id].interface == t;
      entries := entries - (if ok then found else found * landed);
    }
  }

  /** A KeystoneEndpoint that is being reconciled. */
  class Instance {
    const serviceID: string
    const spec: map<string, string>
    var endpointIDs: map<string, nat>
    var endpoints: seq<Endpoint>

    constructor (serviceID: string, spec: map<string, string>)
      ensures this.serviceID == serviceID && this.spec == spec && endpointIDs == map[] && endpoints == []
    {
      this.serviceID, this.spec, endpointIDs, endpoints := serviceID, spec, map[], [];
    }

    ghost function At(os: Catalogue, ok: bool): Pass
      reads this, os
    {
      Pass(State(os.entries, os.nextID, endpointIDs, endpoints), os.remaining, os.writes, ok)
    }

    /** The body of the first loop of reconcileEndpoints. */
    method RemoveIfStale(os: Catalogue, endpointType: string) returns (ok: bool)
      modifies this`endpointIDs, this`endpoints, os
      ensures At(os, ok) == RemoveOne(serviceID, spec, endpointType, old(At(os, true)), os.landed)
    {
      if endpointType !in spec {
        if endpointType !in INTERFACES {
          return false;
        }
        ok := os.DeleteEndpoint(serviceID, endpointType);
        if !ok {
          return false;
        }
        ghost var q := DeleteEndpoint(serviceID, endpointType, old(At(os, true)), os.landed);
        assert At(os, true) == q;
        endpointIDs := endpointIDs - {endpointType};
        ghost var listed := endpoints;
        var idx := EndpointIdx(endpointType, endpoints);
        if idx >= 0 {
          endpoints := endpoints[..idx] + endpoints[idx + 1..];
        }
        assert endpoints == Without(endpointType, listed);
      }
      ok := true;
    }

    /** The body of the second loop. */
    method CreateOrUpdate(os: Catalogue, endpointType: string) returns (ok: bool)
      requires endpointType in spec
      modifies this`endpointIDs, this`endpoints, os
      ensures At(os, ok) == UpsertOne(serviceID, spec, endpointType, old(At(os, true)), os.landed)
    {
      var endpointURL := spec[endpointType];
      if endpointType !in INTERFACES {
        return false;
      }
      var allEndpoints;
      allEndpoints, ok := os.GetEndpoints(serviceID, endpointType);
      if !ok {
        return false;
      }
      assert allEndpoints.Keys == Matching(os.entries, serviceID, endpointType);
      assert |allEndpoints| == |allEndpoints.Keys|;
      var endpointID := 0;
      if |allEndpoints| == 0 {
        endpointID, ok := os.CreateEndpoint(serviceID, endpointType, endpointURL);
        if !ok {
          return false;
        }
      } else if |allEndpoints| == 1 {
        var id :| id in allEndpoints;
        assert id == Only(allEndpoints.Keys);
        endpointID := id;
        if endpointURL != allEndpoints[id].url {
          ok := os.UpdateEndpoint(id, endpointURL);
          if !ok {
            return false;
          }
        }
      } else {
        return false;
      }
      Record(endpointType, endpointURL, endpointID);
    }

    method Record(endpointType: string, endpointURL: string, endpointID: nat)
      modifies this`endpointIDs, this`endpoints
      ensures endpointIDs == if endpointID == 0 then old(endpointIDs)
                             else old(endpointIDs)[endpointType := endpointID]
      ensures endpoints == if endpointID == 0 then old(endpoints)
                           else With(endpointType, endpointURL, endpointID, old(endpoints))
    {
      if endpointID != 0 {
        endpointIDs := endpointIDs[endpointType := endpointID];
        var idx := EndpointIdx(endpointType, endpoints);
        if idx >= 0 {
          endpoints := endpoints[idx := endpoints[idx].(id := endpointID, url := endpointURL)];
        } else {
          endpoints := endpoints + [Endpoint(endpointType, endpointURL, endpointID)];
        }
      }
    }

    method RemoveStaleEndpoints(os: Catalogue) returns (ok: bool)
      modifies this`endpointIDs, this`endpoints, os
      ensures At(os, ok) == RemoveStale(serviceID, spec, Listing(old(endpointIDs).Keys), old(At(os, true)), os.landed)
    {
      ghost var p0 := At(os, true);
      var types := SortedKeys(endpointIDs.Keys);
      var i := 0;
      while i < |types|
        invariant 0 <= i <= |types|
        invariant RemoveStale(serviceID, spec, types[i..], At(os, true), os.landed)
               == RemoveStale(serviceID, spec, types, p0, os.landed)
      {
        ghost var p := At(os, true);
        RemoveStaleNext(serviceID, spec, types, i, p, os.landed);
        ok := RemoveIfStale(os, types[i]);
        assert At(os, ok) == RemoveOne(serviceID, spec, types[i], p, os.landed);
        if !ok {
          return false;
        }
        i := i + 1;
      }
      ok := true;
    }

    method UpsertEndpoints(os: Catalogue) returns (ok: bool)
      modifies this`endpointIDs, this`endpoints, os
      ensures At(os, ok) == UpsertAll(serviceID, spec, Listing(spec.Keys), old(At(os, true)), os.landed)
    {
      ghost var p0 := At(os, true);
      var types := SortedKeys(spec.Keys);
      var i := 0;
      while i < |types|
        invariant 0 <= i <= |types|
        invariant UpsertAll(serviceID, spec, types[i..], At(os, true), os.landed)
               == UpsertAll(serviceID, spec, types, p0, os.landed)
      {
        ghost var p := At(os, true);
        UpsertAllNext(serviceID, spec, types, i, p, os.landed);
        ok := CreateOrUpdate(os, types[i]);
        assert At(os, ok) == UpsertOne(serviceID, spec, types[i], p, os.landed);
        if !ok {
          return false;
        }
        i := i + 1;
      }
      ok := true;
    }

    /** reconcileEndpoints */
    method ReconcileEndpoints(os: Catalogue) returns (ok: bool)
      requires os.writes == 0
      modifies this`endpointIDs, this`endpoints, os
      ensures At(os, ok) == Reconcile(serviceID, spec, old(At(os, true).state), old(os.remaining), os.landed)
    {
      ok := RemoveStaleEndpoints(os);
      if ok {
        ok := UpsertEndpoints(os);
      }
    }

    /** The body of the loop of reconcileDelete. */
    method DeleteInterface(os: Catalogue, endpointType: string) returns (ok: bool)
      modifies os
      ensures At(os, ok) == DeleteOne(serviceID, endpointType, old(At(os, true)), os.landed)
    {
      if endpointType !in INTERFACES {
        return false;
      }
      ok := os.DeleteEndpoint(serviceID, endpointType);
    }

    /** The deletions of reconcileDelete. */
    method DeleteRegistered(os: Catalogue) returns (ok: bool)
      modifies os
      ensures At(os, ok) == DeleteAll(serviceID, Listing(spec.Keys), old(At(os, true)), os.landed)
    {
      ghost var p0 := At(os, true);
      var types := SortedKeys(spec.Keys);
      var i := 0;
      while i < |types|
        invariant 0 <= i <= |types|
        invariant DeleteAll(serviceID, types[i..], At(os, true), os.landed)
               == DeleteAll(serviceID, types, p0, os.landed)
      {
        ghost var p := At(os, true);
        DeleteAllNext(serviceID, types, i, p, os.landed);
        ok := DeleteInterface(os, types[i]);
        assert At(os, ok) == DeleteOne(serviceID, types[i], p, os.landed);
        if !ok {
          return false;
        }
        i := i + 1;
      }
      ok := true;
    }

    /** The deletions of reconcileDelete, and the clearing of the recorded IDs after them. */
    method DeleteEndpoints(os: Catalogue) returns (ok: bool)
      modifies this`endpointIDs, os
      ensures var p := DeleteAll(serviceID, Listing(spec.Keys), old(At(os, true)), os.landed);
              At(os, ok) == if p.ok then p.(state := p.state.(ids := map[])) else p
    {
      ok := DeleteRegistered(os);
      if ok {
        endpointIDs := map[];
      }
    }
  }

  lemma RemoveStaleNext(serviceID: string, spec: map<string, string>, types: seq<string>, i: nat, p: Pass,
                        landed: set<nat>)
    requires i < |types| && p.ok
    ensures var q := RemoveOne(serviceID, spec, types[i], p, landed);
            RemoveStale(serviceID, spec, types[i..], p, landed) ==
            if q.ok then RemoveStale(serviceID, spec, types[i + 1..], q, landed) else q
  {
    assert types[i..][1..] == types[i + 1..];
  }

  lemma UpsertAllNext(serviceID: string, spec: map<string, string>, types: seq<string>, i: nat, p: Pass,
                      landed: set<nat>)
    requires i < |types| && p.ok && forall t | t in types :: t in spec
    ensures var q := UpsertOne(serviceID, spec, types[i], p, landed);
            UpsertAll(serviceID, spec, types[i..], p, landed) ==
            if q.ok then UpsertAll(serviceID, spec, types[i + 1..], q, landed) else q
  {
    assert types[i..][1..] == types[i + 1..];
  }

  lemma DeleteAllNext(serviceID: string, types: seq<string>, i: nat, p: Pass, landed: set<nat>)
    requires i < |types| && p.ok
    ensures var q := DeleteOne(serviceID, types[i], p, landed);
            DeleteAll(serviceID, types[i..], p, landed) ==
            if q.ok then DeleteAll(serviceID, types[i + 1..], q, landed) else q
  {
    assert types[i..][1..] == types[i + 1..];
  }
}
