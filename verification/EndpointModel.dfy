/** Registering the endpoints of a service in the Keystone catalogue: what reconcileEndpoints does to
    the catalogue and to the status of the KeystoneEndpoint, as functions of both. */
module EndpointModel {
  import opened StringOrder

  datatype Entry = Entry(serviceID: string, interface: string, url: string)

  datatype Endpoint = Endpoint(interface: string, url: string, id: nat)

  /** The catalogue and the status. IDs are numbers; 0 stands for the empty ID, and the next endpoint
      to be created gets nextID. */
  datatype State = State(entries: map<nat, Entry>, nextID: nat, ids: map<string, nat>, endpoints: seq<Endpoint>)

  /** A reconcile under way: `remaining` more OpenStack calls succeed, and the one after them fails.
      writes counts the calls that ask for a change. */
  datatype Pass = Pass(state: State, remaining: nat, writes: nat, ok: bool)

  ghost predicate WellFormed(s: State) {
    0 < s.nextID && forall id | id in s.entries :: 0 < id < s.nextID
  }

  /** openstack.GetAvailability knows these interfaces and returns an error for any other. */
  const INTERFACES := {"admin", "internal", "public"}

  ghost function Matching(entries: map<nat, Entry>, serviceID: string, t: string): set<nat> {
    set id | id in entries && entries[id].serviceID == serviceID && entries[id].interface == t
  }

  ghost function Only(found: set<nat>): (id: nat)
    requires |found| == 1
    ensures found == {id}
  {
    var id :| id in found;
    assert |found - {id}| == 0;
    id
  }

  // ----- The status list -----

  /** No interface is listed twice. */
  ghost predicate EachOnce(endpoints: seq<Endpoint>) {
    forall i, j | 0 <= i < j < |endpoints| :: endpoints[i].interface != endpoints[j].interface
  }

  /** getEndpointIdx */
  function EndpointIdx(t: string, endpoints: seq<Endpoint>): (i: int)
    ensures -1 <= i < |endpoints|
    ensures i == -1 ==> forall e | e in endpoints :: e.interface != t
    ensures i >= 0 ==> endpoints[i].interface == t && forall j | 0 <= j < i :: endpoints[j].interface != t
  {
    if endpoints == [] then -1
    else if endpoints[0].interface == t then 0
    else
      var i := EndpointIdx(t, endpoints[1..]);
      assert forall e | e in endpoints :: e == endpoints[0] || e in endpoints[1..];
      assert i >= 0 ==> endpoints[i + 1] == endpoints[1..][i];
      assert forall j | 0 < j < |endpoints| :: endpoints[j] == endpoints[1..][j - 1];
      if i == -1 then -1 else i + 1
  }

  function Without(t: string, endpoints: seq<Endpoint>): seq<Endpoint> {
    var i := EndpointIdx(t, endpoints);
    if i >= 0 then endpoints[..i] + endpoints[i + 1..] else endpoints
  }

  function With(t: string, url: string, id: nat, endpoints: seq<Endpoint>): seq<Endpoint> {
    var i := EndpointIdx(t, endpoints);
    if i >= 0 then endpoints[i := endpoints[i].(id := id, url := url)]
    else endpoints + [Endpoint(t, url, id)]
  }

  // ----- One interface -----

  /** os.DeleteEndpoint removes every matching endpoint. When it fails, those in `landed` are gone all
      the same. */
  ghost function DeleteEndpoint(serviceID: string, t: string, p: Pass, landed: set<nat>): Pass {
    var found := Matching(p.state.entries, serviceID, t);
    if p.remaining == 0 then
      p.(state := p.state.(entries := p.state.entries - found * landed), writes := p.writes + 1, ok := false)
    else
      p.(state := p.state.(entries := p.state.entries - found), writes := p.writes + 1, remaining := p.remaining - 1)
  }

  /** One round of the loop that deletes what is no longer in the spec. */
  ghost function RemoveOne(serviceID: string, spec: map<string, string>, t: string, p: Pass, landed: set<nat>): Pass {
    if t in spec then p
    else if t !in INTERFACES then p.(ok := false)
    else
      var q := DeleteEndpoint(serviceID, t, p, landed);
      if !q.ok then q
      else q.(state := q.state.(ids := q.state.ids - {t}, endpoints := Without(t, q.state.endpoints)))
  }

  function Created(s: State, serviceID: string, t: string, url: string): State {
    s.(entries := s.entries[s.nextID := Entry(serviceID, t, url)], nextID := s.nextID + 1)
  }

  function Updated(s: State, id: nat, url: string): State
    requires id in s.entries
  {
    s.(entries := s.entries[id := s.entries[id].(url := url)])
  }

  function Recorded(s: State, t: string, url: string, id: nat): State {
    if id == 0 then s
    else s.(ids := s.ids[t := id], endpoints := With(t, url, id, s.endpoints))
  }

  /** One round of the loop that creates and updates. A failing create or update may have happened
      all the same: it has if the ID is in `landed`. */
  ghost function UpsertOne(serviceID: string, spec: map<string, string>, t: string, p: Pass, landed: set<nat>): Pass
    requires t in spec
  {
    if t !in INTERFACES || p.remaining == 0 then p.(ok := false)
    else
      var found, rest := Matching(p.state.entries, serviceID, t), p.remaining - 1;
      if |found| == 0 then
        var s := Created(p.state, serviceID, t, spec[t]);
        if rest == 0 then Pass(if p.state.nextID in landed then s else p.state, 0, p.writes + 1, false)
        else Pass(Recorded(s, t, spec[t], p.state.nextID), rest - 1, p.writes + 1, p.ok)
      else if |found| == 1 then
        var id := Only(found);
        if p.state.entries[id].url == spec[t] then p.(state := Recorded(p.state, t, spec[t], id), remaining := rest)
        else
          var s := Updated(p.state, id, spec[t]);
          if rest == 0 then Pass(if id in landed then s else p.state, 0, p.writes + 1, false)
          else Pass(Recorded(s, t, spec[t], id), rest - 1, p.writes + 1, p.ok)
      else
        p.(remaining := rest, ok := false)
  }

  // ----- The loops -----

  ghost function RemoveStale(serviceID: string, spec: map<string, string>, types: seq<string>,
                             p: Pass, landed: set<nat>): Pass
    decreases |types|
  {
    if types == [] || !p.ok then p
    else RemoveStale(serviceID, spec, types[1..], RemoveOne(serviceID, spec, types[0], p, landed), landed)
  }

  ghost function UpsertAll(serviceID: string, spec: map<string, string>, types: seq<string>,
                           p: Pass, landed: set<nat>): Pass
    requires forall t | t in types :: t in spec
    decreases |types|
  {
    if types == [] || !p.ok then p
    else UpsertAll(serviceID, spec, types[1..], UpsertOne(serviceID, spec, types[0], p, landed), landed)
  }

  /** reconcileEndpoints */
  ghost function Reconcile(serviceID: string, spec: map<string, string>, s: State,
                           remaining: nat, landed: set<nat>): Pass {
    var p := RemoveStale(serviceID, spec, Listing(s.ids.Keys), Pass(s, remaining, 0, true), landed);
    UpsertAll(serviceID, spec, Listing(spec.Keys), p, landed)
  }

  ghost function DeleteOne(serviceID: string, t: string, p: Pass, landed: set<nat>): Pass {
    if t !in INTERFACES then p.(ok := false) else DeleteEndpoint(serviceID, t, p, landed)
  }

  /** The deletions of reconcileDelete: every interface of the spec, whatever the status says. */
  ghost function DeleteAll(serviceID: string, types: seq<string>, p: Pass, landed: set<nat>): Pass
    decreases |types|
  {
    if types == [] || !p.ok then p
    else DeleteAll(serviceID, types[1..], DeleteOne(serviceID, types[0], p, landed), landed)
  }
}
