/** The finalizer protocol over whole runs: teardown is ordered, and it never gets stuck. */
module TeardownSafety {
  import opened Wrappers
  import opened TeardownModel

  // ----- The invariant -----

  /** The endpoint still has something registered that its controller must clean up. */
  predicate Registered(e: Endpoint) {
    Own in e.finalizers && e.endpointIDs != map[]
  }

  predicate RegisteredService(s: Service) {
    Own in s.finalizers && s.serviceID != ""
  }

  ghost predicate APIHas(w: World, f: Finalizer) {
    w.api.Some? && f in w.api.value.finalizers
  }

  ghost predicate ServiceHas(w: World, n: string, f: Finalizer) {
    n in w.services && f in w.services[n].finalizers
  }

  ghost predicate EndpointAlive(w: World, n: string) {
    n in w.endpoints && Own in w.endpoints[n].finalizers
  }

  ghost predicate BothDeleting(w: World, e: Endpoint) {
    e.deleting && w.api.Some? && w.api.value.deleting
  }

  ghost predicate EndpointShape(e: Endpoint) {
    && (e.deleting ==> e.finalizers != {})
    && (Own in e.finalizers ==> e.initialized)
    && (!e.initialized ==> e.endpointIDs == map[])
    && (!e.deleting && e.endpointIDs != map[] ==> Own in e.finalizers)
    && (forall f | f in e.finalizers :: f.Own? || f.Foreign?)
  }

  /** A registered endpoint holds the KeystoneAPI, and its service unless it and the KeystoneAPI are
      both being deleted. */
  ghost predicate EndpointHolds(w: World, n: string, e: Endpoint) {
    Registered(e) ==>
      && APIHas(w, OfEndpoint(n))
      && (ServiceHas(w, e.serviceName, OfEndpoint(n)) || BothDeleting(w, e))
  }

  ghost predicate ServiceShape(s: Service) {
    && (s.deleting ==> s.finalizers != {})
    && (Own in s.finalizers ==> s.initialized)
    && (!s.initialized ==> s.serviceID == "")
    && (!s.deleting && s.serviceID != "" ==> Own in s.finalizers)
    && (forall f | f in s.finalizers :: !f.OfService?)
  }

  /** A registered service holds the KeystoneAPI. */
  ghost predicate ServiceHolds(w: World, n: string, s: Service) {
    RegisteredService(s) ==> APIHas(w, OfService(n))
  }

  /** A service is only held by its endpoints, and those will let go of it. */
  ghost predicate ServiceHeld(w: World, n: string, s: Service) {
    forall m: string | OfEndpoint(m) in s.finalizers :: EndpointAlive(w, m) && w.endpoints[m].serviceName == n
  }

  ghost predicate APIShape(a: API) {
    && (a.deleting ==> a.finalizers != {})
    && (Own in a.finalizers ==> a.initialized)
  }

  /** The KeystoneAPI is only held by services and endpoints that will let go of it. */
  ghost predicate APIHeld(w: World, a: API) {
    && (forall m: string | OfEndpoint(m) in a.finalizers :: EndpointAlive(w, m))
    && (forall m: string | OfService(m) in a.finalizers :: m in w.services && Own in w.services[m].finalizers)
  }

  /** Everything but that object t, if it is registered, holds what it should. */
  ghost predicate InvExcept(w: World, t: Target) {
    && (forall n | n in w.endpoints :: EndpointShape(w.endpoints[n])
                                       && (t == TheEndpoint(n) || EndpointHolds(w, n, w.endpoints[n])))
    && (forall n | n in w.services :: ServiceShape(w.services[n]) && ServiceHeld(w, n, w.services[n])
                                      && (t == TheService(n) || ServiceHolds(w, n, w.services[n])))
    && (w.api.Some? ==> APIShape(w.api.value) && APIHeld(w, w.api.value))
    && (w.held != {} ==> APIHas(w, Own) && !w.api.value.isExternal)
  }

  ghost predicate Inv(w: World) {
    InvExcept(w, TheAPI)
  }

  lemma EmptyInv()
    ensures Inv(World(None, map[], map[], {}))
  {
  }

  /** What the reconcile methods require, and keep whatever is cut, holds in every state with the invariant. */
  lemma InvVisible(w: World)
    requires Inv(w)
    ensures Visible(w)
  {
  }

  // ----- Single writes -----

  ghost predicate NoServiceHas(w: World, f: Finalizer) {
    forall n: string :: !ServiceHas(w, n, f)
  }

  /** Writing an endpoint back restores the invariant for it. */
  lemma PutEndpointInv(w: World, n: string, e: Endpoint)
    requires InvExcept(w, TheEndpoint(n))
    requires n in w.endpoints ==> e.serviceName == w.endpoints[n].serviceName
    requires e.finalizers != {} || !e.deleting ==> EndpointShape(e) && EndpointHolds(w, n, e)
    requires Own in e.finalizers || (!APIHas(w, OfEndpoint(n)) && NoServiceHas(w, OfEndpoint(n)))
    ensures Inv(PutEndpoint(w, n, e))
  {
    var b := PutEndpoint(w, n, e);
    forall m | m in b.services
      ensures ServiceHeld(b, m, b.services[m])
    {
      forall o: string | OfEndpoint(o) in b.services[m].finalizers
        ensures EndpointAlive(b, o) && b.endpoints[o].serviceName == m
      {
        assert ServiceHas(w, m, OfEndpoint(o)) && ServiceHeld(w, m, w.services[m]);
      }
    }
  }

  /** Writing a service back restores the invariant for it. */
  lemma PutServiceInv(w: World, n: string, s: Service)
    requires InvExcept(w, TheService(n))
    requires s.finalizers != {} || !s.deleting ==> ServiceShape(s) && ServiceHolds(w, n, s) && ServiceHeld(w, n, s)
    requires forall m: string :: ServiceHas(w, n, OfEndpoint(m)) ==> OfEndpoint(m) in s.finalizers
    requires Own in s.finalizers || !APIHas(w, OfService(n))
    ensures Inv(PutService(w, n, s))
  {
  }

  /** Taking an endpoint's finalizer off its service only matters to that endpoint. */
  lemma DropFromServiceInv(w: World, n: string, name: string)
    requires InvExcept(w, TheEndpoint(n)) && ServiceHas(w, name, OfEndpoint(n))
    ensures var s := w.services[name];
            var b := PutService(w, name, s.(finalizers := s.finalizers - {OfEndpoint(n)}));
            InvExcept(b, TheEndpoint(n)) && NoServiceHas(b, OfEndpoint(n))
  {
    var s := w.services[name];
    var b := PutService(w, name, s.(finalizers := s.finalizers - {OfEndpoint(n)}));
    assert ServiceHeld(w, name, s);
    forall m | m in b.services
      ensures ServiceShape(b.services[m]) && ServiceHeld(b, m, b.services[m]) && ServiceHolds(b, m, b.services[m])
      ensures OfEndpoint(n) !in b.services[m].finalizers
    {
      assert ServiceHeld(w, m, w.services[m]) && ServiceHolds(w, m, w.services[m]);
    }
    if name !in b.services {
      assert s.finalizers == {OfEndpoint(n)};
    }
  }

  /** The finalizer that names the object. */
  ghost function NamedBy(t: Target): Finalizer
    requires !t.TheAPI?
  {
    if t.TheEndpoint? then OfEndpoint(t.name) else OfService(t.name)
  }

  /** Taking a named finalizer off the KeystoneAPI only matters to the object it names. */
  lemma DropFromAPIInv(w: World, t: Target)
    requires !t.TheAPI? && InvExcept(w, t)
    ensures var f := NamedBy(t);
            APIHas(w, f) ==>
              var b := PutAPI(w, w.api.value.(finalizers := w.api.value.finalizers - {f}));
              InvExcept(b, t) && !APIHas(b, f)
  {
    var f := NamedBy(t);
    if APIHas(w, f) {
      var b := PutAPI(w, w.api.value.(finalizers := w.api.value.finalizers - {f}));
      if b.api.None? {
        assert w.api.value.finalizers == {f};
      }
    }
  }

  /** The object is there with its own controller's finalizer. */
  ghost predicate Alive(w: World, t: Target) {
    match t
    case TheAPI => w.api.Some?
    case TheService(n) => n in w.services && Own in w.services[n].finalizers
    case TheEndpoint(n) => EndpointAlive(w, n)
  }

  /** A live endpoint or service may take hold of the KeystoneAPI. */
  lemma AddToAPIInv(w: World, t: Target)
    requires Inv(w) && w.api.Some? && !t.TheAPI?
    requires Alive(w, t)
    ensures var f := NamedBy(t);
            Inv(w.(api := Some(w.api.value.(finalizers := w.api.value.finalizers + {f}))))
  {
    var f := NamedBy(t);
    var b := w.(api := Some(w.api.value.(finalizers := w.api.value.finalizers + {f})));
    assert forall g :: APIHas(w, g) ==> APIHas(b, g);
  }

  /** A live endpoint may take hold of its service. */
  lemma AddToServiceInv(w: World, n: string)
    requires Inv(w) && EndpointAlive(w, n) && w.endpoints[n].serviceName in w.services
    ensures var (name, f) := (w.endpoints[n].serviceName, OfEndpoint(n));
            Inv(w.(services := w.services[name := w.services[name].(finalizers := w.services[name].finalizers + {f})]))
  {
    var (name, f) := (w.endpoints[n].serviceName, OfEndpoint(n));
    var b := w.(services := w.services[name := w.services[name].(finalizers := w.services[name].finalizers + {f})]);
    assert ServiceHeld(w, name, w.services[name]) && ServiceHolds(w, name, w.services[name]);
    assert forall m: string, g :: ServiceHas(w, m, g) ==> ServiceHas(b, m, g);
    forall m | m in b.services
      ensures ServiceShape(b.services[m]) && ServiceHeld(b, m, b.services[m]) && ServiceHolds(b, m, b.services[m])
    {
      assert ServiceHeld(w, m, w.services[m]) && ServiceHolds(w, m, w.services[m]);
    }
  }

  lemma ReleaseAPIInv(w: World, t: Target, updates: Outcome)
    requires !t.TheAPI? && InvExcept(w, t)
    ensures var b := ReleaseAPI(w, NamedBy(t), updates).0;
            InvExcept(b, t) && b.services == w.services && b.endpoints == w.endpoints
    ensures var (b, ok) := ReleaseAPI(w, NamedBy(t), updates);
            && (APIHas(b, NamedBy(t)) <==> APIHas(w, NamedBy(t)) && !updates.Happened())
            && (ok <==> (APIHas(w, NamedBy(t)) ==> updates.Done?))
            && (b.api.Some? ==> w.api.Some? && b.api.value.deleting == w.api.value.deleting)
  {
    DropFromAPIInv(w, t);
  }

  lemma TakeAPIInv(w: World, t: Target, updates: Outcome)
    requires Inv(w) && w.api.Some? && !t.TheAPI? && Alive(w, t)
    ensures var (b, ok) := TakeAPI(w, NamedBy(t), updates);
            && Inv(b) && b.services == w.services && b.endpoints == w.endpoints
            && b.api.Some? && (ok ==> APIHas(b, NamedBy(t)))
  {
    AddToAPIInv(w, t);
  }

  lemma TakeServiceInv(w: World, n: string, env: EndpointEnv)
    requires Inv(w) && EndpointAlive(w, n) && w.endpoints[n].serviceName in w.services
    ensures var (b, ok) := TakeService(w, n, w.endpoints[n].serviceName, env);
            && Inv(b) && b.api == w.api && b.endpoints == w.endpoints
            && (ok ==> ServiceHas(b, w.endpoints[n].serviceName, OfEndpoint(n)))
  {
    AddToServiceInv(w, n);
  }

  // ----- Endpoint steps -----

  /** The patch at the end of an endpoint reconcile restores the invariant exactly if the endpoint, as it
      is then stored, holds what it should. */
  lemma PatchEndpointIff(m: World, n: string, e: Endpoint, env: EndpointEnv)
    requires InvExcept(m, TheEndpoint(n)) && n in m.endpoints && e.serviceName == m.endpoints[n].serviceName
    requires e.finalizers != {} || !e.deleting ==> EndpointShape(e)
    requires Own in e.finalizers || (!APIHas(m, OfEndpoint(n)) && NoServiceHas(m, OfEndpoint(n)))
    ensures Inv(PatchEndpoint(m, n, e, env)) <==> EndpointHolds(m, n, if env.patches then e else m.endpoints[n])
  {
    if env.patches {
      if EndpointHolds(m, n, e) {
        PutEndpointInv(m, n, e);
      } else {
        assert Registered(e);
        var b := PutEndpoint(m, n, e);
        assert b.endpoints[n] == e && b.api == m.api && b.services == m.services;
        assert !EndpointHolds(b, n, e);
      }
    } else if Inv(m) {
      assert EndpointHolds(m, n, m.endpoints[n]);
    }
  }

  lemma ReleaseServiceInv(w: World, n: string, serviceName: string, env: EndpointEnv)
    requires InvExcept(w, TheEndpoint(n)) && n in w.endpoints && w.endpoints[n].serviceName == serviceName
    ensures var b := ReleaseService(w, n, serviceName, env).0;
            InvExcept(b, TheEndpoint(n)) && b.endpoints == w.endpoints && b.api == w.api
    ensures var (b, ok) := ReleaseService(w, n, serviceName, env);
            var f := OfEndpoint(n);
            && (ok <==> env.readsService && (ServiceHas(w, serviceName, f) ==> env.updatesService.Done?))
            && (ServiceHas(b, serviceName, f) <==>
                ServiceHas(w, serviceName, f) && !(env.readsService && env.updatesService.Happened()))
            && (ok ==> NoServiceHas(b, f))
  {
    if ServiceHas(w, serviceName, OfEndpoint(n)) {
      DropFromServiceInv(w, n, serviceName);
    } else {
      forall m: string
        ensures !ServiceHas(w, m, OfEndpoint(n))
      {
        if m in w.services {
          assert ServiceHeld(w, m, w.services[m]);
        }
      }
    }
  }

  /** Both releases of an endpoint's finalizer, and whether both reported success. */
  function ReleaseBoth(w: World, n: string, serviceName: string, env: EndpointEnv): (World, bool) {
    var (w1, ok1) := ReleaseService(w, n, serviceName, env);
    if !ok1 then (w1, false) else ReleaseAPI(w1, OfEndpoint(n), env.updatesAPI)
  }

  lemma ReleaseBothInv(w: World, n: string, env: EndpointEnv)
    requires InvExcept(w, TheEndpoint(n)) && n in w.endpoints
    ensures var m := ReleaseBoth(w, n, w.endpoints[n].serviceName, env).0;
            InvExcept(m, TheEndpoint(n)) && m.endpoints == w.endpoints
    ensures var (name, f) := (w.endpoints[n].serviceName, OfEndpoint(n));
            var (m, ok) := ReleaseBoth(w, n, name, env);
            var ok1 := env.readsService && (ServiceHas(w, name, f) ==> env.updatesService.Done?);
            && (ok <==> ok1 && (APIHas(w, f) ==> env.updatesAPI.Done?))
            && (APIHas(m, f) <==> APIHas(w, f) && !(ok1 && env.updatesAPI.Happened()))
            && (ServiceHas(m, name, f) <==>
                ServiceHas(w, name, f) && !(env.readsService && env.updatesService.Happened()))
            && (m.api.Some? ==> w.api.Some? && m.api.value.deleting == w.api.value.deleting)
            && (ok ==> !APIHas(m, f) && NoServiceHas(m, f))
  {
    var name := w.endpoints[n].serviceName;
    ReleaseServiceInv(w, n, name, env);
    var (w1, ok1) := ReleaseService(w, n, name, env);
    if ok1 {
      ReleaseAPIInv(w1, TheEndpoint(n), env.updatesAPI);
      var m := ReleaseAPI(w1, OfEndpoint(n), env.updatesAPI).0;
      assert forall x: string :: ServiceHas(m, x, OfEndpoint(n)) ==> ServiceHas(w1, x, OfEndpoint(n));
    }
  }

  lemma EndpointReleaseIs(w: World, n: string, e: Endpoint, env: EndpointEnv)
    ensures var (m, ok) := ReleaseBoth(w, n, e.serviceName, env);
            EndpointRelease(w, n, e, env) == PatchEndpoint(m, n,
                  if ok then e.(finalizers := e.finalizers - {Own}) else e, env)
  {
  }

  /** What the release path leaves of the invariant. */
  lemma EndpointReleaseIff(w: World, n: string, e: Endpoint, env: EndpointEnv)
    requires Inv(w) && n in w.endpoints && w.endpoints[n].deleting
    requires e == w.endpoints[n] || e == w.endpoints[n].(endpointIDs := map[])
    ensures var (m, ok) := ReleaseBoth(w, n, e.serviceName, env);
            Inv(EndpointRelease(w, n, e, env)) <==>
            (env.patches && ok) || EndpointHolds(m, n, if env.patches then e else w.endpoints[n])
  {
    var (m, ok) := ReleaseBoth(w, n, e.serviceName, env);
    assert EndpointShape(w.endpoints[n]);
    ReleaseBothInv(w, n, env);
    EndpointReleaseIs(w, n, e, env);
    if ok {
      PatchEndpointIff(m, n, e.(finalizers := e.finalizers - {Own}), env);
    } else {
      if Own !in e.finalizers {
        OwnKept(w, m, n, env);
      }
      PatchEndpointIff(m, n, e, env);
    }
  }

  /** While a release is not complete, the endpoint still has its own finalizer or never held anything. */
  lemma OwnKept(w: World, m: World, n: string, env: EndpointEnv)
    requires Inv(w) && n in w.endpoints && m == ReleaseBoth(w, n, w.endpoints[n].serviceName, env).0
    requires Own !in w.endpoints[n].finalizers
    ensures !APIHas(m, OfEndpoint(n)) && NoServiceHas(m, OfEndpoint(n))
  {
    assert !APIHas(w, OfEndpoint(n));
    forall x: string
      ensures !ServiceHas(w, x, OfEndpoint(n))
    {
      if x in w.services {
        assert ServiceHeld(w, x, w.services[x]);
      }
    }
    assert m == w;
  }

  /** The reconcile cuts the endpoint loose: it takes effect on a finalizer that protects what is registered,
      and what is stored afterwards still says that it is registered. */
  ghost predicate EndpointCut(w: World, n: string, env: EndpointEnv) {
    && n in w.endpoints && Registered(w.endpoints[n]) && w.endpoints[n].deleting && w.api.Some?
    && env.readsAPI && env.readsService
    && if w.api.value.deleting
       then && (ServiceHas(w, w.endpoints[n].serviceName, OfEndpoint(n)) ==> env.updatesService.Done?)
            && env.updatesAPI.Happened() && !(env.patches && env.updatesAPI.Done?)
       else && w.api.value.ready && env.adminClient && env.deletes
            && env.updatesService.Happened() && !env.patches
  }

  lemma EndpointNormalInv(w: World, n: string, env: EndpointEnv)
    requires Inv(w) && EndpointAlive(w, n) && w.api.Some? && !w.endpoints[n].deleting
    ensures Inv(EndpointNormal(w, n, w.endpoints[n], env))
  {
    var e := w.endpoints[n];
    assert EndpointShape(e) && EndpointHolds(w, n, e);
    if env.readsService && e.serviceName in w.services && w.services[e.serviceName].ready {
      var e1 := e.(serviceID := w.services[e.serviceName].serviceID);
      TakeAPIInv(w, TheEndpoint(n), env.updatesAPI);
      var (w1, ok1) := TakeAPI(w, OfEndpoint(n), env.updatesAPI);
      assert EndpointHolds(w1, n, w1.endpoints[n]);
      if !ok1 {
        PatchEndpointIff(w1, n, e1, env);
      } else {
        TakeServiceInv(w1, n, env);
        var (w2, ok2) := TakeService(w1, n, e.serviceName, env);
        assert EndpointHolds(w2, n, w2.endpoints[n]);
        PatchEndpointIff(w2, n, e1, env);
        PatchEndpointIff(w2, n, e1.(endpointIDs := env.newIDs), env);
      }
    }
  }

  lemma DeletingEndpointIff(w: World, n: string, env: EndpointEnv)
    requires Inv(w) && n in w.endpoints && w.endpoints[n].initialized && w.endpoints[n].deleting
    ensures Inv(EndpointStep(w, n, env)) <==> !EndpointCut(w, n, env)
  {
    var e := w.endpoints[n];
    assert EndpointShape(e) && EndpointHolds(w, n, e);
    ReleaseBothInv(w, n, env);
    EndpointReleaseIff(w, n, e, env);
    EndpointReleaseIff(w, n, e.(endpointIDs := map[]), env);
  }

  /** An endpoint reconcile keeps the invariant exactly if it does not cut the endpoint loose. */
  lemma EndpointStepInv(w: World, n: string, env: EndpointEnv)
    requires Inv(w)
    ensures Inv(EndpointStep(w, n, env)) <==> !EndpointCut(w, n, env)
  {
    if n in w.endpoints {
      var e := w.endpoints[n];
      assert EndpointShape(e) && EndpointHolds(w, n, e);
      if !e.initialized {
        PatchEndpointIff(w, n, e.(initialized := true), env);
      } else if e.deleting {
        DeletingEndpointIff(w, n, env);
      } else if Own !in e.finalizers {
        assert e.finalizers + {Own} != {};
        PatchEndpointIff(w, n, e.(finalizers := e.finalizers + {Own}), env);
      } else if w.api.Some? {
        EndpointNormalInv(w, n, env);
      }
    }
  }

  // ----- Service steps -----

  lemma PatchServiceIff(m: World, n: string, s: Service, env: ServiceEnv)
    requires InvExcept(m, TheService(n)) && n in m.services
    requires s.finalizers != {} || !s.deleting ==> ServiceShape(s)
    requires forall f: Finalizer | !f.Own? :: f in s.finalizers <==> f in m.services[n].finalizers
    requires Own in s.finalizers || !APIHas(m, OfService(n))
    ensures Inv(PatchService(m, n, s, env)) <==> ServiceHolds(m, n, if env.patches then s else m.services[n])
  {
    assert ServiceHeld(m, n, m.services[n]);
    assert ServiceHeld(m, n, s);
    if env.patches {
      if ServiceHolds(m, n, s) {
        PutServiceInv(m, n, s);
      } else {
        assert RegisteredService(s);
        var b := PutService(m, n, s);
        assert b.services[n] == s && b.api == m.api;
        assert !ServiceHolds(b, n, s);
      }
    } else if Inv(m) {
      assert ServiceHolds(m, n, m.services[n]);
    }
  }

  lemma ServiceReleaseIff(w: World, n: string, s: Service, env: ServiceEnv)
    requires Inv(w) && n in w.services && w.services[n].deleting
    requires s == w.services[n] || s == w.services[n].(serviceID := "")
    ensures var (m, ok) := ReleaseAPI(w, OfService(n), env.updatesAPI);
            Inv(ServiceRelease(w, n, s, env)) <==>
            (env.patches && ok) || ServiceHolds(m, n, if env.patches then s else w.services[n])
  {
    assert ServiceShape(w.services[n]);
    ReleaseAPIInv(w, TheService(n), env.updatesAPI);
    var (m, ok) := ReleaseAPI(w, OfService(n), env.updatesAPI);
    if ok {
      PatchServiceIff(m, n, s.(finalizers := s.finalizers - {Own}), env);
    } else {
      PatchServiceIff(m, n, s, env);
    }
  }

  /** The same for a service: the KeystoneAPI is let go of while the service stays recorded. */
  ghost predicate ServiceCut(w: World, n: string, env: ServiceEnv) {
    && n in w.services && RegisteredService(w.services[n]) && w.services[n].deleting && w.api.Some?
    && env.readsAPI && env.updatesAPI.Happened()
    && if w.api.value.deleting then !(env.patches && env.updatesAPI.Done?)
       else w.api.value.ready && env.adminClient && env.deletes && !env.patches
  }

  lemma ServiceNormalInv(w: World, n: string, env: ServiceEnv)
    requires Inv(w) && w.api.Some? && Alive(w, TheService(n)) && !w.services[n].deleting
    ensures Inv(ServiceNormal(w, n, w.services[n], env))
  {
    var s := w.services[n];
    assert ServiceShape(s) && ServiceHolds(w, n, s);
    TakeAPIInv(w, TheService(n), env.updatesAPI);
    var (w1, ok) := TakeAPI(w, OfService(n), env.updatesAPI);
    assert ServiceHolds(w1, n, w1.services[n]);
    PatchServiceIff(w1, n, s, env);
    PatchServiceIff(w1, n, s.(serviceID := env.newServiceID), env);
  }

  lemma DeletingServiceIff(w: World, n: string, env: ServiceEnv)
    requires Inv(w) && n in w.services && w.services[n].initialized && w.services[n].deleting
    ensures Inv(ServiceStep(w, n, env)) <==> !ServiceCut(w, n, env)
  {
    var s := w.services[n];
    assert ServiceShape(s) && ServiceHolds(w, n, s);
    ReleaseAPIInv(w, TheService(n), env.updatesAPI);
    ServiceReleaseIff(w, n, s, env);
    ServiceReleaseIff(w, n, s.(serviceID := ""), env);
  }

  /** A service reconcile keeps the invariant exactly if it does not cut the service loose. */
  lemma ServiceStepInv(w: World, n: string, env: ServiceEnv)
    requires Inv(w)
    ensures Inv(ServiceStep(w, n, env)) <==> !ServiceCut(w, n, env)
  {
    if n in w.services {
      var s := w.services[n];
      assert ServiceShape(s) && ServiceHolds(w, n, s);
      if !s.initialized {
        PatchServiceIff(w, n, s.(initialized := true), env);
      } else if s.deleting {
        DeletingServiceIff(w, n, env);
      } else if Own !in s.finalizers {
        PatchServiceIff(w, n, s.(finalizers := s.finalizers + {Own}), env);
      } else if w.api.Some? {
        ServiceNormalInv(w, n, env);
      }
    }
  }

  // ----- KeystoneAPI steps -----

  lemma PutAPIInv(w: World, a: API)
    requires Inv(w) && w.api.Some? && a.isExternal == w.api.value.isExternal
    requires a.finalizers != {} || !a.deleting ==> APIShape(a)
    requires forall f :: APIHas(w, f) && (f.OfEndpoint? || f.OfService?) ==> f in a.finalizers
    requires forall f | f in a.finalizers && (f.OfEndpoint? || f.OfService?) :: APIHas(w, f)
    requires w.held != {} ==> Own in a.finalizers
    requires w.api.value.deleting ==> a.deleting
    ensures Inv(PutAPI(w, a))
  {
  }

  /** Every KeystoneAPI reconcile keeps the invariant, even one whose patch is lost. */
  lemma APIStepInv(w: World, env: APIEnv)
    requires Inv(w)
    ensures Inv(APIStep(w, env))
  {
    if w.api.Some? {
      var a := w.api.value;
      assert APIShape(a) && APIHeld(w, a);
      if !a.deleting && Own !in a.finalizers {
        PutAPIInv(w, a.(finalizers := a.finalizers + {Own}, initialized := true));
      } else if !a.initialized {
        PutAPIInv(w, a.(initialized := true));
      } else if a.deleting {
        APIDeleteInv(w, env);
      } else {
        PutAPIInv(w, a.(ready := env.ready));
        if !a.isExternal {
          var w1 := w.(held := w.held + env.acquired);
          HeldInv(w, w1);
          PutAPIInv(w1, a.(ready := env.ready));
        }
      }
    }
  }

  /** What is held may change freely while an internal KeystoneAPI has its own finalizer. */
  lemma HeldInv(w: World, b: World)
    requires Inv(w) && b == w.(held := b.held)
    requires b.held != {} ==> APIHas(w, Own) && !w.api.value.isExternal
    ensures Inv(b)
  {
    forall m | m in b.services
      ensures ServiceHeld(b, m, b.services[m])
    {
      assert ServiceHeld(w, m, w.services[m]);
    }
  }

  lemma APIDeleteInv(w: World, env: APIEnv)
    requires Inv(w) && w.api.Some? && w.api.value.deleting
    ensures Inv(APIDelete(w, w.api.value, env))
  {
    var a := w.api.value;
    assert APIShape(a);
    if a.isExternal {
      PutAPIInv(w, a.(finalizers := a.finalizers - {Own}));
    } else if exists f | f in a.finalizers :: f != Own {
      PutAPIInv(w, a);
    } else {
      var k := if env.slips then env.released + 1 else env.released;
      var w1 := w.(held := Released(w.held, k));
      assert k >= 3 ==> forall d :: d in w1.held ==> d.Topology? || d.Memcached? || d.Database?;
      assert env.released >= 4 ==> w1.held == {};
      HeldInv(w, w1);
      PutAPIInv(w1, if env.released >= 4 then a.(finalizers := a.finalizers - {Own}) else a);
    }
  }

  // ----- Every step and every run -----

  lemma MetaInv(w: World, t: Target, deleting: bool, finalizers: set<Finalizer>)
    requires Inv(w) && Exists(w, t) && (Deleting(w, t) ==> deleting)
    requires forall f: Finalizer :: !f.Foreign? ==> (f in finalizers <==> f in Finalizers(w, t))
    ensures Inv(PutMeta(w, t, deleting, finalizers))
  {
    match t
    case TheAPI => PutAPIInv(w, w.api.value.(deleting := deleting, finalizers := finalizers));
    case TheService(n) =>
      assert ServiceShape(w.services[n]) && ServiceHeld(w, n, w.services[n]) && ServiceHolds(w, n, w.services[n]);
      PutServiceInv(w, n, w.services[n].(deleting := deleting, finalizers := finalizers));
    case TheEndpoint(n) =>
      assert EndpointShape(w.endpoints[n]) && EndpointHolds(w, n, w.endpoints[n]);
      PutEndpointInv(w, n, w.endpoints[n].(deleting := deleting, finalizers := finalizers));
  }

  /** A new object holds nothing yet and, being absent before, is held by nothing. */
  lemma CreateInv(w: World, b: World)
    requires Inv(w) && b.held == w.held
    requires if w.api.Some? then b.api == w.api
             else b.api.Some? ==> APIShape(b.api.value) && forall f | f in b.api.value.finalizers :: f.Foreign?
    requires forall n | n in w.services :: n in b.services && b.services[n] == w.services[n]
    requires forall n | n in b.services && n !in w.services ::
               ServiceShape(b.services[n]) && forall f | f in b.services[n].finalizers :: f.Foreign?
    requires forall n | n in w.endpoints :: n in b.endpoints && b.endpoints[n] == w.endpoints[n]
    requires forall n | n in b.endpoints && n !in w.endpoints ::
               EndpointShape(b.endpoints[n]) && forall f | f in b.endpoints[n].finalizers :: f.Foreign?
    ensures Inv(b)
  {
    forall m | m in b.services
      ensures ServiceHeld(b, m, b.services[m]) && ServiceHolds(b, m, b.services[m])
    {
      assert m in w.services ==> ServiceHeld(w, m, w.services[m]) && ServiceHolds(w, m, w.services[m]);
    }
    forall m | m in b.endpoints
      ensures EndpointHolds(b, m, b.endpoints[m])
    {
      assert m in w.endpoints ==> EndpointHolds(w, m, w.endpoints[m]);
    }
  }

  /** The reconciles after which something registered is no longer protected. */
  ghost predicate Cuts(w: World, e: Event) {
    match e
    case ReconcileEndpoint(n, env) => EndpointCut(w, n, env)
    case ReconcileService(n, env) => ServiceCut(w, n, env)
    case _ => false
  }

  lemma StepInv(w: World, e: Event)
    requires Inv(w) && Possible(w, e)
    ensures Inv(Step(w, e)) <==> !Cuts(w, e)
  {
    match e
    case ReconcileEndpoint(n, env) => EndpointStepInv(w, n, env);
    case ReconcileService(n, env) => ServiceStepInv(w, n, env);
    case ReconcileAPI(env) => APIStepInv(w, env);
    case RequestDelete(t) => MetaInv(w, t, true, Finalizers(w, t));
    case AddForeign(t, text) => MetaInv(w, t, Deleting(w, t), Finalizers(w, t) + {Foreign(text)});
    case DropForeign(t, text) => MetaInv(w, t, Deleting(w, t), Finalizers(w, t) - {Foreign(text)});
    case ServiceReady(n, ready) =>
      assert ServiceShape(w.services[n]) && ServiceHeld(w, n, w.services[n]) && ServiceHolds(w, n, w.services[n]);
      PutServiceInv(w, n, w.services[n].(ready := ready));
    case _ => CreateInv(w, Step(w, e));
  }

  ghost predicate NoCuts(w: World, events: seq<Event>)
    decreases |events|
  {
    events != [] ==> !Cuts(w, events[0]) && NoCuts(Step(w, events[0]), events[1..])
  }

  /** The invariant holds in every state of the run. */
  ghost predicate InvThroughout(w: World, events: seq<Event>)
    decreases |events|
  {
    Inv(w) && (events != [] ==> InvThroughout(Step(w, events[0]), events[1..]))
  }

  /** Over whole runs: the invariant holds throughout exactly if no reconcile cuts anything loose, whatever
      else fails, is lost, or reports an error although it took effect. */
  lemma {:induction false} RunInvIff(w: World, events: seq<Event>)
    requires Inv(w) && PossibleRun(w, events)
    ensures InvThroughout(w, events) <==> NoCuts(w, events)
    decreases |events|
  {
    if events != [] {
      StepInv(w, events[0]);
      if !Cuts(w, events[0]) {
        RunInvIff(Step(w, events[0]), events[1..]);
      } else {
        assert !InvThroughout(Step(w, events[0]), events[1..]);
      }
    }
  }

  lemma {:induction false} RunInv(w: World, events: seq<Event>)
    requires Inv(w) && PossibleRun(w, events) && NoCuts(w, events)
    ensures Inv(Run(w, events))
    decreases |events|
  {
    if events != [] {
      StepInv(w, events[0]);
      RunInv(Step(w, events[0]), events[1..]);
    }
  }
}
