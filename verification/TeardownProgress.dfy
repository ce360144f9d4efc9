/** What the invariant of the finalizer protocol gives: release order, no waiting for a KeystoneAPI
    that is gone, and a teardown that completes. */
module TeardownProgress {
  import opened Wrappers
  import opened TeardownModel
  import opened TeardownSafety

  // ----- What releasing changes -----

  lemma FinalizerCases(f: Finalizer)
    ensures || f == Own || f.Foreign?
            || (exists m: string :: f == OfService(m)) || (exists m: string :: f == OfEndpoint(m))
  {
    match f
    case Own =>
    case OfService(m) => assert f == OfService(m);
    case OfEndpoint(m) => assert f == OfEndpoint(m);
    case Foreign(_) =>
  }

  /** b has the objects of a, except that finalizer f may be gone from the KeystoneAPI and the services. */
  ghost predicate OnlyLoses(a: World, b: World, f: Finalizer) {
    && b.held == a.held && b.endpoints == a.endpoints
    && (a.api.None? ==> b.api.None?)
    && (a.api.Some? && b.api.None? ==> a.api.value.deleting && a.api.value.finalizers <= {f})
    && (b.api.Some? ==> && a.api.Some? && b.api.value.finalizers + {f} == a.api.value.finalizers + {f}
                        && b.api.value.finalizers <= a.api.value.finalizers
                        && b.api.value.deleting == a.api.value.deleting)
    && (forall n | n in b.services :: && n in a.services && b.services[n].finalizers <= a.services[n].finalizers
                                      && b.services[n].deleting == a.services[n].deleting)
  }

  lemma ReleasesOnlyLose(w: World, n: string, serviceName: string, env: EndpointEnv)
    ensures var (w1, ok1) := ReleaseService(w, n, serviceName, env);
            && OnlyLoses(w, w1, OfEndpoint(n)) && w1.api == w.api
            && OnlyLoses(w, ReleaseAPI(w1, OfEndpoint(n), env.updatesAPI).0, OfEndpoint(n))
  {
  }

  /** An endpoint's release path is a loss of its finalizer followed by a write of the endpoint that
      keeps its finalizers or drops its own. */
  lemma EndpointReleaseShape(w: World, n: string, e: Endpoint, env: EndpointEnv) returns (m: World, e': Endpoint)
    ensures OnlyLoses(w, m, OfEndpoint(n))
    ensures e' == e || e' == e.(finalizers := e.finalizers - {Own})
    ensures EndpointRelease(w, n, e, env) == PatchEndpoint(m, n, e', env)
  {
    ReleasesOnlyLose(w, n, e.serviceName, env);
    var (w1, ok1) := ReleaseService(w, n, e.serviceName, env);
    var (w2, ok2) := ReleaseAPI(w1, OfEndpoint(n), env.updatesAPI);
    m := if ok1 then w2 else w1;
    e' := if ok1 && ok2 then e.(finalizers := e.finalizers - {Own}) else e;
  }

  // ----- Safety -----

  /** In every state reached without cutting anything loose, an object with something registered in Keystone
      holds an existing KeystoneAPI, so waiting for a missing KeystoneAPI cannot block its deletion; and an
      endpoint holds its service unless it and the KeystoneAPI are both being deleted. */
  lemma RegisteredHoldsAPI(w: World, events: seq<Event>)
    requires Inv(w) && PossibleRun(w, events) && NoCuts(w, events)
    ensures var b := Run(w, events);
            && (forall n | n in b.endpoints && Registered(b.endpoints[n]) ::
                  && APIHas(b, OfEndpoint(n))
                  && (ServiceHas(b, b.endpoints[n].serviceName, OfEndpoint(n)) || BothDeleting(b, b.endpoints[n])))
            && (forall n | n in b.services && RegisteredService(b.services[n]) :: APIHas(b, OfService(n)))
  {
    RunInv(w, events);
    var b := Run(w, events);
    forall n | n in b.endpoints && Registered(b.endpoints[n])
      ensures APIHas(b, OfEndpoint(n))
      ensures ServiceHas(b, b.endpoints[n].serviceName, OfEndpoint(n)) || BothDeleting(b, b.endpoints[n])
    {
      assert EndpointHolds(b, n, b.endpoints[n]);
    }
    forall n | n in b.services && RegisteredService(b.services[n])
      ensures APIHas(b, OfService(n))
    {
      assert ServiceHolds(b, n, b.services[n]);
    }
  }

  ghost predicate NothingRegistered(w: World) {
    && (forall n | n in w.endpoints :: !Registered(w.endpoints[n]))
    && (forall n | n in w.services :: !RegisteredService(w.services[n]))
  }

  /** b has let go of a dependency, or of the KeystoneAPI's own finalizer. */
  ghost predicate LetsGo(a: World, b: World) {
    (exists d :: d in a.held && d !in b.held) || (APIHas(a, Own) && !APIHas(b, Own))
  }

  /** In internal mode a step lets go only when nothing is registered any more. */
  lemma ReleaseOrder(w: World, e: Event)
    requires Inv(w) && Possible(w, e)
    ensures w.api.Some? && !w.api.value.isExternal && LetsGo(w, Step(w, e)) ==> NothingRegistered(w)
  {
    if !e.ReconcileAPI? {
      ReleasersOnly(w, e);
    } else if w.api.Some? && !w.api.value.isExternal && LetsGo(w, Step(w, e)) {
      assert forall f | f in w.api.value.finalizers :: f == Own;
      forall n | n in w.endpoints
        ensures !Registered(w.endpoints[n])
      {
        assert EndpointHolds(w, n, w.endpoints[n]);
      }
      forall n | n in w.services
        ensures !RegisteredService(w.services[n])
      {
        assert ServiceHolds(w, n, w.services[n]);
      }
    }
  }

  ghost predicate KeepsOwn(a: World, b: World) {
    b.held == a.held && (APIHas(a, Own) ==> APIHas(b, Own))
  }

  lemma EndpointReleaseKeepsOwn(w: World, n: string, e: Endpoint, env: EndpointEnv)
    ensures KeepsOwn(w, EndpointRelease(w, n, e, env))
  {
    var m, e' := EndpointReleaseShape(w, n, e, env);
    assert KeepsOwn(w, m);
  }

  lemma EndpointNormalKeepsOwn(w: World, n: string, e: Endpoint, env: EndpointEnv)
    requires w.api.Some?
    ensures KeepsOwn(w, EndpointNormal(w, n, e, env))
  {
  }

  lemma ServiceReleaseKeepsOwn(w: World, n: string, s: Service, env: ServiceEnv)
    ensures KeepsOwn(w, ServiceRelease(w, n, s, env))
  {
    var m := ReleaseAPI(w, OfService(n), env.updatesAPI).0;
    assert APIHas(w, Own) ==> Own in w.api.value.finalizers - {OfService(n)};
    assert KeepsOwn(w, m);
  }

  lemma ReleasersOnly(w: World, e: Event)
    requires Possible(w, e) && !e.ReconcileAPI?
    ensures KeepsOwn(w, Step(w, e))
  {
    match e
    case ReconcileEndpoint(n, env) =>
      if n in w.endpoints {
        var e := w.endpoints[n];
        EndpointReleaseKeepsOwn(w, n, e, env);
        EndpointReleaseKeepsOwn(w, n, e.(endpointIDs := map[]), env);
        if w.api.Some? {
          EndpointNormalKeepsOwn(w, n, e, env);
        }
      }
    case ReconcileService(n, env) =>
      if n in w.services {
        ServiceReleaseKeepsOwn(w, n, w.services[n], env);
        ServiceReleaseKeepsOwn(w, n, w.services[n].(serviceID := ""), env);
      }
    case _ =>
  }

  /** The same in every state of every run. */
  lemma RunReleaseOrder(w: World, events: seq<Event>, e: Event)
    requires Inv(w) && PossibleRun(w, events) && NoCuts(w, events)
    ensures var c := Run(w, events);
            Possible(c, e) && c.api.Some? && !c.api.value.isExternal && LetsGo(c, Step(c, e)) ==> NothingRegistered(c)
  {
    RunInv(w, events);
    if Possible(Run(w, events), e) {
      ReleaseOrder(Run(w, events), e);
    }
  }

  // ----- Progress -----

  ghost predicate AllDeleting(w: World) {
    && (w.api.Some? ==> w.api.value.deleting)
    && (forall n | n in w.services :: w.services[n].deleting)
    && (forall n | n in w.endpoints :: w.endpoints[n].deleting)
  }

  /** No other operator holds any of the objects. */
  ghost predicate NoForeign(w: World) {
    && (w.api.Some? ==> forall f | f in w.api.value.finalizers :: !f.Foreign?)
    && (forall n | n in w.services :: forall f | f in w.services[n].finalizers :: !f.Foreign?)
    && (forall n | n in w.endpoints :: forall f | f in w.endpoints[n].finalizers :: !f.Foreign?)
  }

  ghost predicate Ready(w: World) {
    Inv(w) && AllDeleting(w) && NoForeign(w)
  }

  /** Every object of b was in a, with at least the same finalizers. */
  ghost predicate Shrinks(a: World, b: World) {
    && (b.api.Some? ==> a.api.Some? && b.api.value.finalizers <= a.api.value.finalizers)
    && (forall n | n in b.services :: n in a.services && b.services[n].finalizers <= a.services[n].finalizers)
    && (forall n | n in b.endpoints :: n in a.endpoints && b.endpoints[n].finalizers <= a.endpoints[n].finalizers)
    && b.held <= a.held
  }

  lemma LossShrinks(w: World, m: World, n: string, e: Endpoint, env: EndpointEnv)
    requires AllDeleting(w) && OnlyLoses(w, m, OfEndpoint(n)) && n in w.endpoints
    requires e.deleting && e.finalizers <= w.endpoints[n].finalizers
    ensures Shrinks(w, PatchEndpoint(m, n, e, env)) && AllDeleting(PatchEndpoint(m, n, e, env))
  {
  }

  lemma EndpointShrinks(w: World, n: string, env: EndpointEnv)
    requires AllDeleting(w)
    ensures Shrinks(w, EndpointStep(w, n, env)) && AllDeleting(EndpointStep(w, n, env))
  {
    if n in w.endpoints {
      var e := w.endpoints[n];
      if !e.initialized {
        LossShrinks(w, w, n, e.(initialized := true), env);
      } else {
        var m, e' := EndpointReleaseShape(w, n, e, env);
        LossShrinks(w, m, n, e', env);
        m, e' := EndpointReleaseShape(w, n, e.(endpointIDs := map[]), env);
        LossShrinks(w, m, n, e', env);
      }
    }
  }

  lemma ReleaseAPIShrinks(w: World, f: Finalizer, updates: Outcome)
    requires AllDeleting(w)
    ensures var b := ReleaseAPI(w, f, updates).0;
            Shrinks(w, b) && AllDeleting(b) && b.services == w.services
  {
  }

  lemma PatchServiceShrinks(w: World, m: World, n: string, s: Service, env: ServiceEnv)
    requires Shrinks(w, m) && AllDeleting(m) && m.services == w.services && n in w.services
    requires s.deleting && s.finalizers <= w.services[n].finalizers
    ensures Shrinks(w, PatchService(m, n, s, env)) && AllDeleting(PatchService(m, n, s, env))
  {
  }

  lemma ServiceShrinks(w: World, n: string, env: ServiceEnv)
    requires AllDeleting(w)
    ensures Shrinks(w, ServiceStep(w, n, env)) && AllDeleting(ServiceStep(w, n, env))
  {
    if n in w.services {
      var s := w.services[n];
      ReleaseAPIShrinks(w, OfService(n), env.updatesAPI);
      var m := ReleaseAPI(w, OfService(n), env.updatesAPI).0;
      PatchServiceShrinks(w, w, n, s.(initialized := true), env);
      PatchServiceShrinks(w, m, n, s, env);
      PatchServiceShrinks(w, m, n, s.(finalizers := s.finalizers - {Own}), env);
      PatchServiceShrinks(w, m, n, s.(serviceID := ""), env);
      PatchServiceShrinks(w, m, n, s.(serviceID := "", finalizers := s.finalizers - {Own}), env);
    }
  }

  lemma APIShrinks(w: World, env: APIEnv)
    requires AllDeleting(w)
    ensures Shrinks(w, APIStep(w, env)) && AllDeleting(APIStep(w, env))
  {
    if w.api.Some? {
      assert APIStep(w, env).services == w.services && APIStep(w, env).endpoints == w.endpoints;
    }
  }

  /** Once everything is being deleted, no reconcile adds a finalizer or an object, however its calls
      turn out - not even one whose status patch is lost. */
  lemma DeletingOnlyShrinks(w: World, e: Event)
    requires AllDeleting(w) && (e.ReconcileEndpoint? || e.ReconcileService? || e.ReconcileAPI?)
    ensures Shrinks(w, Step(w, e)) && AllDeleting(Step(w, e))
  {
    match e
    case ReconcileEndpoint(n, env) => EndpointShrinks(w, n, env);
    case ReconcileService(n, env) => ServiceShrinks(w, n, env);
    case ReconcileAPI(env) => APIShrinks(w, env);
  }

  ghost predicate EndpointCallsWork(env: EndpointEnv) {
    env.readsAPI && env.readsService && env.updatesService.Done? && env.updatesAPI.Done? && env.patches
  }

  ghost predicate ServiceCallsWork(env: ServiceEnv) {
    env.readsAPI && env.updatesAPI.Done? && env.patches
  }

  /** When everything is being deleted, one reconcile whose calls work removes an endpoint. */
  lemma EndpointGone(w: World, n: string, env: EndpointEnv)
    requires Ready(w) && n in w.endpoints && EndpointCallsWork(env)
    ensures var b := EndpointStep(w, n, env);
            Ready(b) && b.endpoints == w.endpoints - {n} && b.services.Keys <= w.services.Keys
  {
    EndpointDropped(w, n, env);
    EndpointStepInv(w, n, env);
    DeletingOnlyShrinks(w, ReconcileEndpoint(n, env));
    ShrinksReady(w, EndpointStep(w, n, env));
  }

  lemma EndpointDropped(w: World, n: string, env: EndpointEnv)
    requires Ready(w) && n in w.endpoints && EndpointCallsWork(env)
    ensures var b := EndpointStep(w, n, env);
            b.endpoints == w.endpoints - {n} && b.services.Keys <= w.services.Keys
  {
    var e := w.endpoints[n];
    assert EndpointShape(e) && EndpointHolds(w, n, e);
    assert Own in e.finalizers && e.finalizers - {Own} == {} by {
      assert exists f :: f in e.finalizers;
    }
    ReleasesOnlyLose(w, n, e.serviceName, env);
  }

  /** Without endpoints, one reconcile whose calls work removes a service. */
  lemma ServiceGone(w: World, n: string, env: ServiceEnv)
    requires Ready(w) && w.endpoints == map[] && n in w.services && ServiceCallsWork(env)
    ensures var b := ServiceStep(w, n, env);
            Ready(b) && b.endpoints == map[] && b.services == w.services - {n}
  {
    ServiceDropped(w, n, env);
    ServiceStepInv(w, n, env);
    DeletingOnlyShrinks(w, ReconcileService(n, env));
    ShrinksReady(w, ServiceStep(w, n, env));
  }

  lemma ShrinksReady(w: World, b: World)
    requires Ready(w) && Inv(b) && Shrinks(w, b) && AllDeleting(b)
    ensures Ready(b)
  {
  }

  lemma ServiceDropped(w: World, n: string, env: ServiceEnv)
    requires Ready(w) && w.endpoints == map[] && n in w.services && ServiceCallsWork(env)
    ensures var b := ServiceStep(w, n, env);
            b.endpoints == map[] && b.services == w.services - {n}
  {
    ServiceOwnOnly(w, n);
    assert {Own} - {Own} == {};
  }

  lemma ServiceOwnOnly(w: World, n: string)
    requires Ready(w) && w.endpoints == map[] && n in w.services
    ensures w.services[n].finalizers == {Own} && w.services[n].initialized
  {
    var s := w.services[n];
    assert ServiceShape(s) && ServiceHeld(w, n, s) && ServiceHolds(w, n, s);
    assert exists f :: f in s.finalizers;
    forall f | f in s.finalizers
      ensures f == Own
    {
      FinalizerCases(f);
    }
  }

  predicate IsReconcile(e: Event) {
    e.ReconcileEndpoint? || e.ReconcileService? || e.ReconcileAPI?
  }

  /** A schedule of reconciles, in which any call may fail as long as nothing is cut loose. */
  ghost predicate Schedule(w: World, events: seq<Event>) {
    (forall e | e in events :: IsReconcile(e)) && NoCuts(w, events)
  }

  lemma ReadyStays(w: World, e: Event)
    requires Ready(w) && IsReconcile(e) && !Cuts(w, e)
    ensures Ready(Step(w, e)) && Shrinks(w, Step(w, e))
  {
    StepInv(w, e);
    DeletingOnlyShrinks(w, e);
    ShrinksReady(w, Step(w, e));
  }

  /** Somewhere in the schedule the endpoint n is reconciled with working calls. */
  ghost predicate ServesEndpoint(events: seq<Event>, n: string) {
    exists e :: e in events && e.ReconcileEndpoint? && e.n == n && EndpointCallsWork(e.endpointEnv)
  }

  ghost predicate ServesService(events: seq<Event>, n: string) {
    exists e :: e in events && e.ReconcileService? && e.n == n && ServiceCallsWork(e.serviceEnv)
  }

  ghost predicate ServesAPI(events: seq<Event>) {
    exists e :: e in events && e.ReconcileAPI? && e.apiEnv.released >= 4 && e.apiEnv.patches
  }

  /** Any schedule that serves every endpoint once removes them all, whatever else fails in it. */
  lemma {:induction false} EndpointsGone(w: World, events: seq<Event>)
    requires Ready(w) && Schedule(w, events) && forall n | n in w.endpoints :: ServesEndpoint(events, n)
    ensures Ready(Run(w, events)) && Run(w, events).endpoints == map[]
    ensures Run(w, events).services.Keys <= w.services.Keys
    decreases |events|
  {
    if events == [] {
      assert forall n :: !ServesEndpoint(events, n);
    } else {
      var e, rest, b := events[0], events[1..], Step(w, events[0]);
      assert IsReconcile(e) && forall x :: x in events <==> x == e || x in rest;
      ReadyStays(w, e);
      forall n | n in b.endpoints
        ensures ServesEndpoint(rest, n)
      {
        var x :| x in events && x.ReconcileEndpoint? && x.n == n && EndpointCallsWork(x.endpointEnv);
        if x == e {
          EndpointGone(w, n, e.endpointEnv);
        }
      }
      EndpointsGone(b, rest);
    }
  }

  lemma {:induction false} ServicesGone(w: World, events: seq<Event>)
    requires Ready(w) && w.endpoints == map[]
    requires Schedule(w, events) && forall n | n in w.services :: ServesService(events, n)
    ensures Ready(Run(w, events)) && Run(w, events).endpoints == map[] && Run(w, events).services == map[]
    decreases |events|
  {
    if events == [] {
      assert forall n :: !ServesService(events, n);
    } else {
      var e, rest, b := events[0], events[1..], Step(w, events[0]);
      assert IsReconcile(e) && forall x :: x in events <==> x == e || x in rest;
      ReadyStays(w, e);
      forall n | n in b.services
        ensures ServesService(rest, n)
      {
        var x :| x in events && x.ReconcileService? && x.n == n && ServiceCallsWork(x.serviceEnv);
        if x == e {
          ServiceGone(w, n, e.serviceEnv);
        }
      }
      ServicesGone(b, rest);
    }
  }

  lemma APIGone(w: World, env: APIEnv)
    requires Ready(w) && w.endpoints == map[] && w.services == map[] && env.released >= 4 && env.patches
    ensures APIStep(w, env) == World(None, map[], map[], {})
  {
    if w.api.Some? {
      var a := w.api.value;
      forall f | f in a.finalizers
        ensures f == Own
      {
        assert APIHeld(w, a);
        FinalizerCases(f);
      }
      assert exists f :: f in a.finalizers;
      assert a.finalizers - {Own} == {};
      APIStepInv(w, env);
    }
  }

  lemma {:induction false} NothingStays(events: seq<Event>)
    requires forall e | e in events :: IsReconcile(e)
    ensures Run(World(None, map[], map[], {}), events) == World(None, map[], map[], {})
    decreases |events|
  {
    if events != [] {
      assert IsReconcile(events[0]) && forall x | x in events[1..] :: x in events;
      NothingStays(events[1..]);
    }
  }

  lemma {:induction false} AllGone(w: World, events: seq<Event>)
    requires Ready(w) && w.endpoints == map[] && w.services == map[]
    requires Schedule(w, events) && ServesAPI(events)
    ensures Run(w, events) == World(None, map[], map[], {})
    decreases |events|
  {
    var x :| x in events && x.ReconcileAPI? && x.apiEnv.released >= 4 && x.apiEnv.patches;
    var e, rest := events[0], events[1..];
    assert IsReconcile(e) && forall y :: y in events <==> y == e || y in rest;
    if x == e {
      APIGone(w, e.apiEnv);
      NothingStays(rest);
    } else {
      assert ServesAPI(rest);
      ReadyStays(w, e);
      AllGone(Step(w, e), rest);
    }
  }

  /** Teardown completes: from any reachable state in which everything is being deleted and nobody else
      holds anything, any schedule of reconciles - most of which may fail - leaves nothing behind, not
      even a held dependency, once it has served every endpoint, then every service, then the KeystoneAPI. */
  lemma TeardownCompletes(w: World, first: seq<Event>, second: seq<Event>, third: seq<Event>)
    requires Ready(w) && Schedule(w, first + second + third)
    requires forall n | n in w.endpoints :: ServesEndpoint(first, n)
    requires forall n | n in w.services :: ServesService(second, n)
    requires ServesAPI(third)
    ensures Run(w, first + second + third) == World(None, map[], map[], {})
  {
    ScheduleSplit(w, first + second, third);
    ScheduleSplit(w, first, second);
    EndpointsGone(w, first);
    ServicesGone(Run(w, first), second);
    AllGone(Run(Run(w, first), second), third);
  }

  lemma ScheduleSplit(w: World, a: seq<Event>, b: seq<Event>)
    requires Schedule(w, a + b)
    ensures Schedule(w, a) && Schedule(Run(w, a), b) && Run(w, a + b) == Run(Run(w, a), b)
  {
    RunConcat(w, a, b);
    assert forall e | e in a :: e in a + b;
    assert forall e | e in b :: e in a + b;
  }

  lemma {:induction false} RunConcat(w: World, a: seq<Event>, b: seq<Event>)
    ensures Run(w, a + b) == Run(Run(w, a), b)
    ensures NoCuts(w, a + b) <==> NoCuts(w, a) && NoCuts(Run(w, a), b)
    decreases |a|
  {
    if a == [] {
      assert a + b == b;
    } else {
      assert (a + b)[1..] == a[1..] + b;
      RunConcat(Step(w, a[0]), a[1..], b);
    }
  }

  /** One working reconcile of a deleting endpoint cleans up after it - which needs a KeystoneAPI, ready or
      being deleted itself, only if something is recorded - and takes its finalizers off everything. */
  lemma EndpointDeleted(w: World, n: string, env: EndpointEnv)
    requires Inv(w) && n in w.endpoints && w.endpoints[n].deleting && w.endpoints[n].initialized
    requires EndpointCallsWork(env)
    requires w.endpoints[n].endpointIDs == map[] ||
             (w.api.Some? && (w.api.value.deleting || (w.api.value.ready && env.adminClient && env.deletes)))
    ensures var b := EndpointStep(w, n, env);
            && !APIHas(b, OfEndpoint(n)) && NoServiceHas(b, OfEndpoint(n))
            && (if w.endpoints[n].finalizers <= {Own} then n !in b.endpoints
                else n in b.endpoints && b.endpoints[n].finalizers == w.endpoints[n].finalizers - {Own})
            && (!APIDeleting(w) && n in b.endpoints ==> b.endpoints[n].endpointIDs == map[])
  {
    var e := w.endpoints[n];
    var e1 := if APIDeleting(w) then e else e.(endpointIDs := map[]);
    ReleasedBoth(w, n, env);
    var w2 := ReleaseAPI(ReleaseService(w, n, e.serviceName, env).0, OfEndpoint(n), env.updatesAPI).0;
    EndpointDeletes(w, n, env);
    ReleaseEnds(w, n, e1, env);
    PutAfterRelease(w2, n, e1.(finalizers := e1.finalizers - {Own}));
    assert e.finalizers <= {Own} <==> e.finalizers - {Own} == {};
  }

  lemma ReleaseEnds(w: World, n: string, e: Endpoint, env: EndpointEnv)
    requires env.patches && ReleaseService(w, n, e.serviceName, env).1
    requires ReleaseAPI(ReleaseService(w, n, e.serviceName, env).0, OfEndpoint(n), env.updatesAPI).1
    ensures EndpointRelease(w, n, e, env) ==
            PutEndpoint(ReleaseAPI(ReleaseService(w, n, e.serviceName, env).0, OfEndpoint(n), env.updatesAPI).0,
                        n, e.(finalizers := e.finalizers - {Own}))
  {
  }

  /** The final write of a deleting endpoint does not concern anybody else's finalizers. */
  lemma PutAfterRelease(w: World, n: string, e: Endpoint)
    requires e.deleting && !APIHas(w, OfEndpoint(n)) && NoServiceHas(w, OfEndpoint(n))
    ensures var b := PutEndpoint(w, n, e);
            && !APIHas(b, OfEndpoint(n)) && NoServiceHas(b, OfEndpoint(n))
            && (if e.finalizers == {} then n !in b.endpoints else n in b.endpoints && b.endpoints[n] == e)
  {
    var b := PutEndpoint(w, n, e);
    assert b.api == w.api && b.services == w.services;
    assert forall m: string :: ServiceHas(b, m, OfEndpoint(n)) ==> ServiceHas(w, m, OfEndpoint(n));
  }

  /** Which delete path is taken. */
  ghost predicate APIDeleting(w: World) {
    w.api.Some? && w.api.value.deleting
  }

  lemma EndpointDeletes(w: World, n: string, env: EndpointEnv)
    requires n in w.endpoints && w.endpoints[n].deleting && w.endpoints[n].initialized && EndpointCallsWork(env)
    requires w.endpoints[n].endpointIDs == map[] ||
             (w.api.Some? && (w.api.value.deleting || (w.api.value.ready && env.adminClient && env.deletes)))
    ensures var e := w.endpoints[n];
            EndpointStep(w, n, env) ==
            EndpointRelease(w, n, if APIDeleting(w) then e else e.(endpointIDs := map[]), env)
  {
  }

  /** With working calls both named finalizers are released. */
  lemma ReleasedBoth(w: World, n: string, env: EndpointEnv)
    requires Inv(w) && n in w.endpoints && EndpointCallsWork(env.(patches := true))
    ensures var (w1, ok1) := ReleaseService(w, n, w.endpoints[n].serviceName, env);
            var (w2, ok2) := ReleaseAPI(w1, OfEndpoint(n), env.updatesAPI);
            ok1 && ok2 && w2.endpoints == w.endpoints && !APIHas(w2, OfEndpoint(n)) && NoServiceHas(w2, OfEndpoint(n))
  {
    ReleaseBothInv(w, n, env);
    ReleaseServiceInv(w, n, w.endpoints[n].serviceName, env);
  }

  /** The same for a service: its own finalizer and the one it has on the KeystoneAPI go. */
  lemma ServiceDeleted(w: World, n: string, env: ServiceEnv)
    requires Inv(w) && n in w.services && w.services[n].deleting && w.services[n].initialized
    requires ServiceCallsWork(env)
    requires w.services[n].serviceID == "" ||
             (w.api.Some? && (w.api.value.deleting || (w.api.value.ready && env.adminClient && env.deletes)))
    ensures var (s, b) := (w.services[n], ServiceStep(w, n, env));
            && !APIHas(b, OfService(n)) && b.endpoints == w.endpoints
            && (if s.finalizers <= {Own} then n !in b.services
                else n in b.services && b.services[n].finalizers == s.finalizers - {Own})
            && (!APIDeleting(w) && n in b.services ==> b.services[n].serviceID == "")
  {
    var s := w.services[n];
    ReleaseAPIInv(w, TheService(n), env.updatesAPI);
    assert s.finalizers <= {Own} <==> s.finalizers - {Own} == {};
  }

  // ----- What a cut leads to -----

  /** An endpoint cut loose while it and the KeystoneAPI are being deleted still counts as registered but
      no longer holds the KeystoneAPI, which can now go away before it. */
  lemma CutLoose(w: World, n: string, env: EndpointEnv)
    requires Inv(w) && EndpointCut(w, n, env) && w.api.value.deleting
    ensures var b := EndpointStep(w, n, env);
            !Inv(b) && b.endpoints == w.endpoints && !APIHas(b, OfEndpoint(n))
  {
    var e := w.endpoints[n];
    assert EndpointShape(e) && EndpointHolds(w, n, e);
    EndpointStepInv(w, n, env);
    ReleaseBothInv(w, n, env);
    EndpointReleaseIs(w, n, e, env);
  }

  /** A registered endpoint that is being deleted waits, whatever its calls do, exactly while there is no
      KeystoneAPI or one that is neither ready nor being deleted. */
  lemma EndpointWaitsIff(w: World, n: string)
    requires n in w.endpoints && Registered(w.endpoints[n])
    requires w.endpoints[n].deleting && w.endpoints[n].initialized
    ensures (forall env :: EndpointStep(w, n, env) == w) <==>
            w.api.None? || (!w.api.value.deleting && !w.api.value.ready)
  {
    var e := w.endpoints[n];
    if w.api.Some? && (w.api.value.deleting || w.api.value.ready) {
      var env := EndpointEnv(true, true, true, true, Done, Done, map[], true);
      var e1 := if w.api.value.deleting then e else e.(endpointIDs := map[]);
      EndpointDeletes(w, n, env);
      EndpointReleaseIs(w, n, e1, env);
      ReleasesOnlyLose(w, n, e.serviceName, env);
      assert EndpointStep(w, n, env) != w;
    }
  }

  lemma ServiceWaitsIff(w: World, n: string)
    requires n in w.services && RegisteredService(w.services[n])
    requires w.services[n].deleting && w.services[n].initialized
    ensures (forall env :: ServiceStep(w, n, env) == w) <==>
            w.api.None? || (!w.api.value.deleting && !w.api.value.ready)
  {
    var s := w.services[n];
    if w.api.Some? && (w.api.value.deleting || w.api.value.ready) {
      var env := ServiceEnv(true, true, true, Done, "", true);
      assert Own !in s.finalizers - {Own};
      assert ServiceStep(w, n, env) != w;
    }
  }
}
