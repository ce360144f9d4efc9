/** What one reconcile of each controller takes hold of, records and lets go of, as it depends on the
    namespace and on how its calls turn out. */
module TeardownOutcomes {
  import opened Wrappers
  import opened TeardownModel
  import opened TeardownSafety
  import opened TeardownProgress

  // ----- What one reconcile takes and records -----

  /** The reconcile of an endpoint gets past its checks. */
  ghost predicate EndpointReaches(w: World, e: Endpoint, env: EndpointEnv) {
    && e.initialized && Own in e.finalizers && env.readsAPI && w.api.Some? && w.api.value.ready && env.adminClient
    && env.readsService && e.serviceName in w.services && w.services[e.serviceName].ready
  }

  /** After an attempt to add a finalizer to an object that is or is not being deleted. */
  function Taken(finalizers: set<Finalizer>, f: Finalizer, deleting: bool, updates: Outcome): set<Finalizer> {
    if deleting || updates.Failed? then finalizers else finalizers + {f}
  }

  /** And whether the reconcile goes on. */
  predicate TakesOn(finalizers: set<Finalizer>, f: Finalizer, deleting: bool, updates: Outcome) {
    f in finalizers || (!deleting && updates.Done?)
  }

  /** An endpoint that is not being deleted is initialized, then gets its own finalizer, then holds first the
      KeystoneAPI and then its service, and only when it holds both are its IDs recorded. */
  lemma EndpointTakes(w: World, n: string, env: EndpointEnv)
    requires n in w.endpoints && !w.endpoints[n].deleting
    ensures var (e, b, f) := (w.endpoints[n], Step(w, ReconcileEndpoint(n, env)), OfEndpoint(n));
            if !EndpointReaches(w, e, env) then
              && b.api == w.api && b.services == w.services && b.held == w.held
              && b.endpoints == w.endpoints[n := if !env.patches then e
                                                 else if !e.initialized then e.(initialized := true)
                                                 else e.(finalizers := e.finalizers + {Own})]
            else
              var (a, s) := (w.api.value, w.services[e.serviceName]);
              var holdsAPI := TakesOn(a.finalizers, f, a.deleting, env.updatesAPI);
              var holdsBoth := holdsAPI && TakesOn(s.finalizers, f, s.deleting, env.updatesService);
              && b.held == w.held
              && b.api == Some(a.(finalizers := Taken(a.finalizers, f, a.deleting, env.updatesAPI)))
              && b.services == (if holdsAPI
                                then w.services[e.serviceName :=
                                       s.(finalizers := Taken(s.finalizers, f, s.deleting, env.updatesService))]
                                else w.services)
              && b.endpoints == w.endpoints[n := if !env.patches then e
                                                 else e.(serviceID := s.serviceID,
                                                         endpointIDs := if holdsBoth then env.newIDs
                                                                        else e.endpointIDs)]
  {
    var e, f := w.endpoints[n], OfEndpoint(n);
    Same(w.endpoints, n);
    TakenTwice(e.finalizers, Own);
    if EndpointReaches(w, e, env) {
      var a, s := w.api.value, w.services[e.serviceName];
      TakenTwice(a.finalizers, f);
      TakenTwice(s.finalizers, f);
      Same(w.services, e.serviceName);
    }
  }

  lemma TakenTwice(finalizers: set<Finalizer>, f: Finalizer)
    ensures f in finalizers ==> finalizers + {f} == finalizers
  {
  }

  lemma Same<T>(m: map<string, T>, n: string)
    requires n in m
    ensures m[n := m[n]] == m
  {
  }

  ghost predicate ServiceReaches(w: World, s: Service, env: ServiceEnv) {
    && s.initialized && Own in s.finalizers && env.readsAPI && w.api.Some? && w.api.value.ready && env.adminClient
  }

  /** The same for a service, which holds the KeystoneAPI. */
  lemma ServiceTakes(w: World, n: string, env: ServiceEnv)
    requires n in w.services && !w.services[n].deleting
    ensures var (s, b, f) := (w.services[n], Step(w, ReconcileService(n, env)), OfService(n));
            if !ServiceReaches(w, s, env) then
              && b.api == w.api && b.endpoints == w.endpoints && b.held == w.held
              && b.services == w.services[n := if !env.patches then s
                                               else if !s.initialized then s.(initialized := true)
                                               else s.(finalizers := s.finalizers + {Own})]
            else
              var a := w.api.value;
              && b.held == w.held && b.endpoints == w.endpoints
              && b.api == Some(a.(finalizers := Taken(a.finalizers, f, a.deleting, env.updatesAPI)))
              && b.services == w.services[n := if env.patches && TakesOn(a.finalizers, f, a.deleting, env.updatesAPI)
                                               then s.(serviceID := env.newServiceID) else s]
  {
    Same(w.services, n);
    TakenTwice(w.services[n].finalizers, Own);
    if w.api.Some? {
      TakenTwice(w.api.value.finalizers, OfService(n));
    }
  }

  /** A KeystoneAPI that is not being deleted gets its finalizer before it takes hold of anything, which an
      external one never does. */
  lemma APITakes(w: World, env: APIEnv)
    requires w.api.Some? && !w.api.value.deleting
    ensures var (a, b) := (w.api.value, Step(w, ReconcileAPI(env)));
            && b.services == w.services && b.endpoints == w.endpoints
            && b.held == w.held + (if Own in a.finalizers && a.initialized && !a.isExternal then env.acquired else {})
            && b.api == Some(if !env.patches then a
                             else if Own !in a.finalizers then
                               a.(finalizers := a.finalizers + {Own}, initialized := true)
                             else if !a.initialized then a.(initialized := true)
                             else a.(ready := env.ready))
  {
    assert w.held + {} == w.held;
  }

  /** Whatever else is to be done, an object is set up first. */
  lemma SetUpFirst(w: World, n: string, env: EndpointEnv, m: string, serviceEnv: ServiceEnv, apiEnv: APIEnv)
    requires Visible(w)
    ensures n in w.endpoints && !w.endpoints[n].initialized ==>
              Step(w, ReconcileEndpoint(n, env)) ==
              w.(endpoints := w.endpoints[n := w.endpoints[n].(initialized := env.patches)])
    ensures m in w.services && !w.services[m].initialized ==>
              Step(w, ReconcileService(m, serviceEnv)) ==
              w.(services := w.services[m := w.services[m].(initialized := serviceEnv.patches)])
    ensures w.api.Some? && w.api.value.deleting && !w.api.value.initialized ==>
              Step(w, ReconcileAPI(apiEnv)) == w.(api := Some(w.api.value.(initialized := apiEnv.patches)))
  {
    if n in w.endpoints {
      Same(w.endpoints, n);
    }
    if m in w.services {
      Same(w.services, m);
    }
  }

  // ----- What one reconcile lets go of -----

  /** The reconcile of a deleting endpoint cannot start: the KeystoneAPI cannot be read, or what is recorded
      must still be deleted in Keystone, and that does not work. */
  ghost predicate EndpointBlocked(w: World, e: Endpoint, env: EndpointEnv) {
    || !env.readsAPI
    || (e.endpointIDs != map[] && !APIDeleting(w)
        && !(w.api.Some? && w.api.value.ready && env.adminClient && env.deletes))
  }

  /** A write of an object that is being deleted. */
  function Written<T>(m: map<string, T>, n: string, x: T, finalizers: set<Finalizer>): map<string, T> {
    if finalizers == {} then m - {n} else m[n := x]
  }

  /** An endpoint that is being deleted lets go first of its service, then of the KeystoneAPI, then of its own
      finalizer, as far as the calls get; its IDs are forgotten unless the KeystoneAPI is going as well. */
  lemma EndpointLeaves(w: World, n: string, env: EndpointEnv)
    requires Inv(w) && n in w.endpoints && w.endpoints[n].deleting && w.endpoints[n].initialized
    ensures var (e, b, f) := (w.endpoints[n], Step(w, ReconcileEndpoint(n, env)), OfEndpoint(n));
            if EndpointBlocked(w, e, env) then b == w
            else
              var first := env.readsService && (ServiceHas(w, e.serviceName, f) ==> env.updatesService.Done?);
              var both := first && (APIHas(w, f) ==> env.updatesAPI.Done?);
              var e' := e.(endpointIDs := if APIDeleting(w) then e.endpointIDs else map[],
                           finalizers := if both then e.finalizers - {Own} else e.finalizers);
              && OnlyLoses(w, b.(endpoints := w.endpoints), f)
              && (ServiceHas(b, e.serviceName, f) <==>
                  ServiceHas(w, e.serviceName, f) && !(env.readsService && env.updatesService.Happened()))
              && (APIHas(b, f) <==> APIHas(w, f) && !(first && env.updatesAPI.Happened()))
              && b.endpoints == if env.patches then Written(w.endpoints, n, e', e'.finalizers) else w.endpoints
  {
    var e := w.endpoints[n];
    assert EndpointShape(e);
    if EndpointBlocked(w, e, env) {
      Same(w.endpoints, n);
      EndpointStays(w, n, env);
    } else {
      var e1 := e.(endpointIDs := if APIDeleting(w) then e.endpointIDs else map[]);
      ReleaseBothInv(w, n, env);
      EndpointReleaseIs(w, n, e1, env);
      ReleasesOnlyLose(w, n, e.serviceName, env);
      EndpointUnblocked(w, n, env);
    }
  }

  lemma EndpointStays(w: World, n: string, env: EndpointEnv)
    requires Visible(w) && n in w.endpoints && w.endpoints[n].deleting && w.endpoints[n].initialized
    requires EndpointBlocked(w, w.endpoints[n], env)
    ensures EndpointStep(w, n, env) == w
  {
  }

  lemma EndpointUnblocked(w: World, n: string, env: EndpointEnv)
    requires n in w.endpoints && w.endpoints[n].deleting && w.endpoints[n].initialized
    requires !EndpointBlocked(w, w.endpoints[n], env)
    ensures var e := w.endpoints[n];
            EndpointStep(w, n, env) ==
            EndpointRelease(w, n, e.(endpointIDs := if APIDeleting(w) then e.endpointIDs else map[]), env)
  {
  }

  ghost predicate ServiceBlocked(w: World, s: Service, env: ServiceEnv) {
    || !env.readsAPI
    || (s.serviceID != "" && !APIDeleting(w)
        && !(w.api.Some? && w.api.value.ready && env.adminClient && env.deletes))
  }

  /** The same for a service, which lets go of the KeystoneAPI and then of its own finalizer. */
  lemma ServiceLeaves(w: World, n: string, env: ServiceEnv)
    requires Inv(w) && n in w.services && w.services[n].deleting && w.services[n].initialized
    ensures var (s, b, f) := (w.services[n], Step(w, ReconcileService(n, env)), OfService(n));
            if ServiceBlocked(w, s, env) then b == w
            else
              var first := APIHas(w, f) ==> env.updatesAPI.Done?;
              var s' := s.(serviceID := if APIDeleting(w) then s.serviceID else "",
                           finalizers := if first then s.finalizers - {Own} else s.finalizers);
              && OnlyLoses(w, b.(services := w.services), f)
              && (APIHas(b, f) <==> APIHas(w, f) && !env.updatesAPI.Happened())
              && b.services == if env.patches then Written(w.services, n, s', s'.finalizers) else w.services
  {
    var s := w.services[n];
    assert ServiceShape(s);
    if ServiceBlocked(w, s, env) {
      Same(w.services, n);
      ServiceStays(w, n, env);
    } else {
      ReleaseAPIInv(w, TheService(n), env.updatesAPI);
      ReleaseAPILoses(w, OfService(n), env.updatesAPI);
      ServiceUnblocked(w, n, env);
    }
  }

  lemma ServiceStays(w: World, n: string, env: ServiceEnv)
    requires Visible(w) && n in w.services && w.services[n].deleting && w.services[n].initialized
    requires ServiceBlocked(w, w.services[n], env)
    ensures ServiceStep(w, n, env) == w
  {
  }

  lemma ServiceUnblocked(w: World, n: string, env: ServiceEnv)
    requires n in w.services && w.services[n].deleting && w.services[n].initialized
    requires !ServiceBlocked(w, w.services[n], env)
    ensures var s := w.services[n];
            ServiceStep(w, n, env) ==
            ServiceRelease(w, n, s.(serviceID := if APIDeleting(w) then s.serviceID else ""), env)
  {
  }

  lemma ReleaseAPILoses(w: World, f: Finalizer, updates: Outcome)
    ensures OnlyLoses(w, ReleaseAPI(w, f, updates).0, f)
  {
  }

  /** In which order a KeystoneAPI lets go of what it holds. */
  function Turn(d: Dependency): nat {
    match d
    case Topology => 1
    case Memcached => 2
    case Database => 3
  }

  /** A KeystoneAPI that is being deleted: an external one only drops its own finalizer; an internal one waits
      for everybody else's, then lets go of its dependencies in order, as far as its calls get, and of its own
      finalizer only after all of them. */
  lemma APIDeletes(w: World, env: APIEnv)
    requires w.api.Some? && w.api.value.deleting && w.api.value.initialized
    ensures var (a, b) := (w.api.value, APIStep(w, env));
            && b.services == w.services && b.endpoints == w.endpoints
            && (forall d :: d in b.held <==>
                  d in w.held && (a.isExternal || APIWaits(a) || Turn(d) > env.released + (if env.slips then 1 else 0)))
            && (forall f :: APIHas(b, f) <==>
                  APIHas(w, f) && !(f == Own && env.patches && (a.isExternal || (!APIWaits(a) && env.released >= 4))))
  {
    var a, b := w.api.value, APIStep(w, env);
    if f :| f in a.finalizers && f != Own {
      assert f in a.finalizers - {Own};
    } else {
      assert a.finalizers - {Own} == {};
    }
    forall d: Dependency
      ensures d in Released(w.held, if env.slips then env.released + 1 else env.released) <==>
              d in w.held && Turn(d) > env.released + (if env.slips then 1 else 0)
    {
    }
  }

  ghost predicate APIWaits(a: API) {
    exists f | f in a.finalizers :: f != Own
  }
}
