/** The other direction of the finalizer protocol: what is not being deleted comes up. */
module TeardownBringUp {
  import opened Wrappers
  import opened TeardownModel
  import opened TeardownSafety
  import opened TeardownProgress
  import opened TeardownOutcomes

  // ----- Everything comes up -----

  ghost predicate NoneDeleting(w: World) {
    && (w.api.Some? ==> !w.api.value.deleting)
    && (forall n | n in w.services :: !w.services[n].deleting)
    && (forall n | n in w.endpoints :: !w.endpoints[n].deleting)
  }

  /** Reconciles, however their calls turn out, as long as a KeystoneAPI that is reconciled, and a service,
      is reported ready. */
  predicate Favourable(e: Event) {
    match e
    case ReconcileEndpoint(_, _) => true
    case ReconcileService(_, _) => true
    case ReconcileAPI(env) => env.ready
    case ServiceReady(_, ready) => ready
    case _ => false
  }

  /** How far an object has come: it is initialized, has its own finalizer, and holds what it must; the
      KeystoneAPI is set up, and ready. */
  ghost function Rank(w: World, t: Target): nat
    requires Exists(w, t)
  {
    match t
    case TheAPI =>
      if !w.api.value.initialized || Own !in w.api.value.finalizers then 0 else if w.api.value.ready then 2 else 1
    case TheService(n) =>
      var s := w.services[n];
      if !s.initialized then 0 else if Own !in s.finalizers then 1 else if APIHas(w, OfService(n)) then 3 else 2
    case TheEndpoint(n) =>
      var (e, f) := (w.endpoints[n], OfEndpoint(n));
      if !e.initialized then 0 else if Own !in e.finalizers then 1
      else if APIHas(w, f) && ServiceHas(w, e.serviceName, f) then 3 else 2
  }

  /** What an object needs from the others for its last rank. */
  ghost predicate Supported(w: World, t: Target)
    requires Exists(w, t)
  {
    match t
    case TheAPI => true
    case TheService(_) => w.api.Some? && w.api.value.ready
    case TheEndpoint(n) =>
      && w.api.Some? && w.api.value.ready
      && w.endpoints[n].serviceName in w.services && w.services[w.endpoints[n].serviceName].ready
  }

  /** The same objects, in which nothing that was reached is lost. */
  ghost predicate Grows(a: World, b: World) {
    && NoneDeleting(b) && b.services.Keys == a.services.Keys && b.endpoints.Keys == a.endpoints.Keys
    && (a.api.Some? <==> b.api.Some?)
    && (a.api.Some? ==> && a.api.value.finalizers <= b.api.value.finalizers
                        && (a.api.value.initialized ==> b.api.value.initialized)
                        && (a.api.value.ready ==> b.api.value.ready))
    && (forall n | n in a.services :: ServiceGrows(a.services[n], b.services[n]))
    && (forall n | n in a.endpoints :: EndpointGrows(a.endpoints[n], b.endpoints[n]))
  }

  ghost predicate ServiceGrows(s: Service, s': Service) {
    s.finalizers <= s'.finalizers && (s.initialized ==> s'.initialized) && (s.ready ==> s'.ready)
  }

  ghost predicate EndpointGrows(e: Endpoint, e': Endpoint) {
    e.finalizers <= e'.finalizers && (e.initialized ==> e'.initialized) && e'.serviceName == e.serviceName
  }

  lemma EndpointStepGrows(w: World, n: string, env: EndpointEnv)
    requires NoneDeleting(w) && n in w.endpoints
    ensures Grows(w, Step(w, ReconcileEndpoint(n, env)))
  {
    var b, e := Step(w, ReconcileEndpoint(n, env)), w.endpoints[n];
    EndpointTakes(w, n, env);
    assert EndpointGrows(e, b.endpoints[n]);
    forall m | m in w.services
      ensures m in b.services && ServiceGrows(w.services[m], b.services[m]) && !b.services[m].deleting
    {
    }
  }

  lemma ServiceStepGrows(w: World, n: string, env: ServiceEnv)
    requires NoneDeleting(w) && n in w.services
    ensures Grows(w, Step(w, ReconcileService(n, env)))
  {
    ServiceTakes(w, n, env);
    assert ServiceGrows(w.services[n], Step(w, ReconcileService(n, env)).services[n]);
  }

  lemma StepGrows(w: World, e: Event)
    requires NoneDeleting(w) && Possible(w, e) && Favourable(e)
    ensures Grows(w, Step(w, e))
  {
    match e
    case ReconcileEndpoint(n, env) =>
      if n in w.endpoints {
        EndpointStepGrows(w, n, env);
      }
    case ReconcileService(n, env) =>
      if n in w.services {
        ServiceStepGrows(w, n, env);
      }
    case ReconcileAPI(env) =>
      if w.api.Some? {
        APITakes(w, env);
      }
    case ServiceReady(_, _) =>
  }

  lemma GrowsRank(a: World, b: World, t: Target)
    requires Grows(a, b) && Exists(a, t)
    ensures Exists(b, t) && Rank(a, t) <= Rank(b, t) && (Supported(a, t) ==> Supported(b, t))
  {
    match t
    case TheAPI =>
    case TheService(n) => assert ServiceGrows(a.services[n], b.services[n]);
    case TheEndpoint(n) =>
      var name := a.endpoints[n].serviceName;
      assert EndpointGrows(a.endpoints[n], b.endpoints[n]);
      assert name in a.services ==> ServiceGrows(a.services[name], b.services[name]);
  }

  /** A reconcile of this object whose calls work. */
  ghost predicate Serves(e: Event, t: Target) {
    match t
    case TheAPI => e.ReconcileAPI? && e.apiEnv.patches
    case TheService(n) => e.ReconcileService? && e.n == n && ServiceCallsWork(e.serviceEnv) && e.serviceEnv.adminClient
    case TheEndpoint(n) =>
      e.ReconcileEndpoint? && e.n == n && EndpointCallsWork(e.endpointEnv) && e.endpointEnv.adminClient
  }

  function Top(t: Target): nat {
    if t.TheAPI? then 2 else 3
  }

  function Min(a: nat, b: nat): nat {
    if a < b then a else b
  }

  /** It takes the object one rank further. */
  lemma ServedClimbs(w: World, e: Event, t: Target)
    requires NoneDeleting(w) && Possible(w, e) && Favourable(e) && Exists(w, t) && Serves(e, t)
    ensures Exists(Step(w, e), t)
    ensures Rank(Step(w, e), t) >= Min(Rank(w, t) + 1, if Supported(w, t) then Top(t) else 2)
  {
    StepGrows(w, e);
    GrowsRank(w, Step(w, e), t);
    match t
    case TheAPI => APITakes(w, e.apiEnv);
    case TheService(n) => ServiceTakes(w, n, e.serviceEnv);
    case TheEndpoint(n) => EndpointTakes(w, n, e.endpointEnv);
  }

  ghost predicate FavourableRun(w: World, events: seq<Event>) {
    PossibleRun(w, events) && forall e | e in events :: Favourable(e)
  }

  ghost predicate Served(events: seq<Event>, t: Target) {
    exists e :: e in events && Serves(e, t)
  }

  lemma FirstFavourable(w: World, events: seq<Event>)
    requires NoneDeleting(w) && FavourableRun(w, events) && events != []
    ensures Grows(w, Step(w, events[0])) && FavourableRun(Step(w, events[0]), events[1..])
  {
    assert events[0] in events && forall e | e in events[1..] :: e in events;
    StepGrows(w, events[0]);
  }

  lemma {:induction false} RunGrows(w: World, events: seq<Event>, t: Target)
    requires NoneDeleting(w) && FavourableRun(w, events) && Exists(w, t)
    ensures NoneDeleting(Run(w, events)) && Exists(Run(w, events), t)
    ensures Rank(w, t) <= Rank(Run(w, events), t) && (Supported(w, t) ==> Supported(Run(w, events), t))
    decreases |events|
  {
    if events != [] {
      FirstFavourable(w, events);
      GrowsRank(w, Step(w, events[0]), t);
      RunGrows(Step(w, events[0]), events[1..], t);
    }
  }

  /** So does a run in which the object is served somewhere. */
  lemma {:induction false} RunClimbs(w: World, events: seq<Event>, t: Target)
    requires NoneDeleting(w) && FavourableRun(w, events) && Exists(w, t) && Served(events, t)
    ensures Exists(Run(w, events), t)
    ensures Rank(Run(w, events), t) >= Min(Rank(w, t) + 1, if Supported(w, t) then Top(t) else 2)
    decreases |events|
  {
    var x :| x in events && Serves(x, t);
    var e, rest, b := events[0], events[1..], Step(w, events[0]);
    assert forall y :: y in events <==> y == e || y in rest;
    FirstFavourable(w, events);
    GrowsRank(w, b, t);
    if x == e {
      ServedClimbs(w, e, t);
      RunGrows(b, rest, t);
    } else {
      RunClimbs(b, rest, t);
    }
  }

  lemma {:induction false} RunReady(w: World, events: seq<Event>, n: string)
    requires NoneDeleting(w) && FavourableRun(w, events) && n in w.services
    requires w.services[n].ready || ServiceReady(n, true) in events
    ensures n in Run(w, events).services && Run(w, events).services[n].ready
    decreases |events|
  {
    if events != [] {
      var e, rest := events[0], events[1..];
      assert forall y :: y in events <==> y == e || y in rest;
      FirstFavourable(w, events);
      assert ServiceGrows(w.services[n], Step(w, e).services[n]);
      RunReady(Step(w, e), rest, n);
    }
  }

  ghost predicate AllServed(w: World, events: seq<Event>) {
    forall t | Exists(w, t) :: Served(events, t)
  }

  lemma FavourableSplit(w: World, a: seq<Event>, b: seq<Event>)
    requires FavourableRun(w, a + b)
    ensures FavourableRun(w, a) && FavourableRun(Run(w, a), b) && Run(w, a + b) == Run(Run(w, a), b)
  {
    PossibleConcat(w, a, b);
    RunConcat(w, a, b);
    assert forall e | e in a :: e in a + b;
    assert forall e | e in b :: e in a + b;
  }

  lemma {:induction false} PossibleConcat(w: World, a: seq<Event>, b: seq<Event>)
    ensures PossibleRun(w, a + b) <==> PossibleRun(w, a) && PossibleRun(Run(w, a), b)
    decreases |a|
  {
    if a == [] {
      assert a + b == b;
    } else {
      assert (a + b)[1..] == a[1..] + b;
      PossibleConcat(Step(w, a[0]), a[1..], b);
    }
  }

  /** A schedule of four rounds: two serve everything, the third the services, which become ready, and the
      fourth the endpoints. Any other reconciles in it may fail in any way. */
  datatype Rounds = Rounds(first: seq<Event>, second: seq<Event>, third: seq<Event>, fourth: seq<Event>) {
    function All(): seq<Event> {
      ((first + second) + third) + fourth
    }
  }

  ghost predicate BringsUp(w: World, rounds: Rounds) {
    && FavourableRun(w, rounds.All()) && AllServed(w, rounds.first) && AllServed(w, rounds.second)
    && (forall n | n in w.services :: Served(rounds.third, TheService(n)) && ServiceReady(n, true) in rounds.third)
    && (forall n | n in w.endpoints ::
          Served(rounds.fourth, TheEndpoint(n)) && w.endpoints[n].serviceName in w.services)
  }

  lemma TwoRounds(w: World, first: seq<Event>, second: seq<Event>, t: Target)
    requires NoneDeleting(w) && FavourableRun(w, first + second) && Exists(w, t)
    requires Served(first, t) && Served(second, t)
    ensures NoneDeleting(Run(w, first + second)) && Exists(Run(w, first + second), t)
    ensures Rank(Run(w, first + second), t) >= 2
  {
    FavourableSplit(w, first, second);
    RunGrows(w, first, t);
    RunClimbs(w, first, t);
    RunGrows(Run(w, first), second, t);
    RunClimbs(Run(w, first), second, t);
  }

  /** The state after two rounds, and what is left of the schedule. */
  lemma AfterTwo(w: World, rounds: Rounds, t: Target)
    requires NoneDeleting(w) && w.api.Some? && BringsUp(w, rounds) && Exists(w, t)
    ensures var w2 := Run(w, rounds.first + rounds.second);
            && NoneDeleting(w2) && Exists(w2, t) && Rank(w2, t) >= 2
            && FavourableRun(w2, rounds.third) && FavourableRun(Run(w2, rounds.third), rounds.fourth)
            && Run(w, rounds.All()) == Run(Run(w2, rounds.third), rounds.fourth)
  {
    var r12 := rounds.first + rounds.second;
    FavourableSplit(w, r12 + rounds.third, rounds.fourth);
    FavourableSplit(w, r12, rounds.third);
    TwoRounds(w, rounds.first, rounds.second, t);
  }

  /** Everything comes up: from any namespace with a KeystoneAPI in which nothing is being deleted, any such
      schedule leaves every object at its highest rank - set up, ready, and holding what it must. */
  lemma BringUpCompletes(w: World, rounds: Rounds, t: Target)
    requires NoneDeleting(w) && w.api.Some? && BringsUp(w, rounds) && Exists(w, t)
    ensures var b := Run(w, rounds.All());
            NoneDeleting(b) && Exists(b, t) && Rank(b, t) >= Top(t)
  {
    AfterTwo(w, rounds, t);
    match t
    case TheAPI =>
      RunGrows(Run(w, rounds.first + rounds.second), rounds.third, t);
      RunGrows(Run(Run(w, rounds.first + rounds.second), rounds.third), rounds.fourth, t);
    case TheService(n) => ServiceUp(w, rounds, n);
    case TheEndpoint(n) => EndpointUp(w, rounds, n);
  }

  lemma ServiceUp(w: World, rounds: Rounds, n: string)
    requires NoneDeleting(w) && w.api.Some? && BringsUp(w, rounds) && n in w.services
    ensures var (b, t) := (Run(w, rounds.All()), TheService(n));
            NoneDeleting(b) && Exists(b, t) && Rank(b, t) >= 3
  {
    var w2, t := Run(w, rounds.first + rounds.second), TheService(n);
    AfterTwo(w, rounds, t);
    AfterTwo(w, rounds, TheAPI);
    RunGrows(w2, rounds.third, t);
    RunClimbs(w2, rounds.third, t);
    RunGrows(Run(w2, rounds.third), rounds.fourth, t);
  }

  lemma EndpointUp(w: World, rounds: Rounds, n: string)
    requires NoneDeleting(w) && w.api.Some? && BringsUp(w, rounds) && n in w.endpoints
    ensures var (b, t) := (Run(w, rounds.All()), TheEndpoint(n));
            NoneDeleting(b) && Exists(b, t) && Rank(b, t) >= 3
  {
    var w2, t := Run(w, rounds.first + rounds.second), TheEndpoint(n);
    var w3 := Run(w2, rounds.third);
    AfterTwo(w, rounds, t);
    AfterTwo(w, rounds, TheAPI);
    RunGrows(w2, rounds.third, t);
    RunGrows(w2, rounds.third, TheAPI);
    ServiceSupports(w, rounds, n);
    RunClimbs(w3, rounds.fourth, t);
    RunGrows(w3, rounds.fourth, t);
  }

  /** After the third round the service of an endpoint is ready. */
  lemma ServiceSupports(w: World, rounds: Rounds, n: string)
    requires NoneDeleting(w) && BringsUp(w, rounds) && n in w.endpoints
    ensures var w3 := Run(Run(w, rounds.first + rounds.second), rounds.third);
            && n in w3.endpoints && w3.endpoints[n].serviceName in w3.services
            && w3.services[w3.endpoints[n].serviceName].ready
  {
    var r123 := rounds.first + rounds.second + rounds.third;
    FavourableSplit(w, r123, rounds.fourth);
    FavourableSplit(w, rounds.first + rounds.second, rounds.third);
    ServiceStays(w, r123, n);
    assert forall e | e in rounds.third :: e in r123;
    RunReady(w, r123, w.endpoints[n].serviceName);
  }

  lemma {:induction false} ServiceStays(w: World, events: seq<Event>, n: string)
    requires NoneDeleting(w) && FavourableRun(w, events) && n in w.endpoints
    ensures n in Run(w, events).endpoints && Run(w, events).endpoints[n].serviceName == w.endpoints[n].serviceName
    decreases |events|
  {
    if events != [] {
      FirstFavourable(w, events);
      assert EndpointGrows(w.endpoints[n], Step(w, events[0]).endpoints[n]);
      ServiceStays(Step(w, events[0]), events[1..], n);
    }
  }

  /** A KeystoneAPI, a service and an endpoint of it, newly created in an empty namespace. */
  function Creation(service: string, endpoint: string, isExternal: bool): seq<Event> {
    [CreateAPI({}, isExternal), CreateService(service, {}), CreateEndpoint(endpoint, {}, service)]
  }

  /** The namespace afterwards. */
  function New(service: string, endpoint: string, isExternal: bool): World {
    World(Some(API(false, {}, false, false, isExternal)), map[service := Service(false, {}, false, false, "")],
          map[endpoint := Endpoint(false, {}, false, service, "", map[])], {})
  }

  lemma CreationIs(service: string, endpoint: string, isExternal: bool)
    ensures var (w, events) := (World(None, map[], map[], {}), Creation(service, endpoint, isExternal));
            PossibleRun(w, events) && Run(w, events) == New(service, endpoint, isExternal)
  {
    var events, w := Creation(service, endpoint, isExternal), World(None, map[], map[], {});
    var w1 := Step(w, events[0]);
    var w2 := Step(w1, events[1]);
    var w3 := Step(w2, events[2]);
    assert Foreigners({}) == {};
    assert events[1..] == events[1..2] + [events[2]];
    assert w3 == New(service, endpoint, isExternal);
    assert events[1..][1..] == [events[2]] && [events[2]][1..] == [];
    assert Run(w2, [events[2]]) == w3 && PossibleRun(w2, [events[2]]);
    assert Run(w1, events[1..]) == w3 && PossibleRun(w1, events[1..]);
  }

  /** A schedule of this kind. */
  lemma RoundsExist(service: string, endpoint: string, isExternal: bool) returns (rounds: Rounds)
    ensures BringsUp(New(service, endpoint, isExternal), rounds)
  {
    var api := ReconcileAPI(APIEnv(0, false, {}, true, true));
    var svc := ReconcileService(service, ServiceEnv(true, true, true, Done, "", true));
    var ep := ReconcileEndpoint(endpoint, EndpointEnv(true, true, true, true, Done, Done, map[], true));
    var round := [api, svc, ep];
    assert Serves(api, TheAPI) && Serves(svc, TheService(service)) && Serves(ep, TheEndpoint(endpoint));
    assert api in round && svc in round && ep in round;
    rounds := Rounds(round, round, [svc, ServiceReady(service, true)], [ep]);
    assert svc in rounds.third && ServiceReady(service, true) in rounds.third && ep in rounds.fourth;
    FavourableAlways(New(service, endpoint, isExternal), rounds.All(), service);
  }

  lemma {:induction false} FavourableAlways(w: World, events: seq<Event>, service: string)
    requires NoneDeleting(w) && service in w.services
    requires forall e | e in events :: Favourable(e) && (e.ServiceReady? ==> e.n == service)
    ensures FavourableRun(w, events)
    decreases |events|
  {
    if events != [] {
      assert events[0] in events && forall e | e in events[1..] :: e in events;
      StepGrows(w, events[0]);
      FavourableAlways(Step(w, events[0]), events[1..], service);
    }
  }

  /** From an empty namespace to a registered endpoint: after such a schedule one working reconcile records
      the IDs, while the endpoint holds the KeystoneAPI and its service. */
  lemma RegisteredFromNothing(service: string, endpoint: string, isExternal: bool, rounds: Rounds, env: EndpointEnv)
    requires BringsUp(New(service, endpoint, isExternal), rounds)
    requires EndpointCallsWork(env) && env.adminClient
    ensures Run(World(None, map[], map[], {}), Creation(service, endpoint, isExternal)) ==
            New(service, endpoint, isExternal)
    ensures var b := Step(Run(New(service, endpoint, isExternal), rounds.All()), ReconcileEndpoint(endpoint, env));
            && endpoint in b.endpoints && b.endpoints[endpoint].endpointIDs == env.newIDs
            && APIHas(b, OfEndpoint(endpoint)) && ServiceHas(b, service, OfEndpoint(endpoint))
            && APIHas(b, OfService(service)) && APIHas(b, Own)
  {
    var w := New(service, endpoint, isExternal);
    CreationIs(service, endpoint, isExternal);
    BringUpCompletes(w, rounds, TheAPI);
    BringUpCompletes(w, rounds, TheService(service));
    BringUpCompletes(w, rounds, TheEndpoint(endpoint));
    ServiceStays(w, rounds.All(), endpoint);
    ReadyAtTheEnd(w, rounds, service);
    EndpointTakes(Run(w, rounds.All()), endpoint, env);
  }

  lemma ReadyAtTheEnd(w: World, rounds: Rounds, n: string)
    requires NoneDeleting(w) && BringsUp(w, rounds) && n in w.services
    ensures n in Run(w, rounds.All()).services && Run(w, rounds.All()).services[n].ready
  {
    assert forall e | e in rounds.third :: e in rounds.All();
    RunReady(w, rounds.All(), n);
  }
}
