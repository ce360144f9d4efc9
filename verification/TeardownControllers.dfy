/** The reconcile methods of the three controllers, working in place on the objects of a namespace.
    Each ends with the status patch that Go defers. */
module TeardownControllers {
  import opened Wrappers
  import opened TeardownModel

  class Namespace {
    var api: Option<API>
    var services: map<string, Service>
    var endpoints: map<string, Endpoint>
    var held: set<Dependency>

    constructor ()
      ensures Valid() && State() == World(None, map[], map[], {})
    {
      api, services, endpoints, held := None, map[], map[], {};
    }

    ghost function State(): World
      reads this
    {
      World(api, services, endpoints, held)
    }

    /** Patching an object that a reconcile left as it was then changes nothing. */
    ghost predicate Valid()
      reads this
    {
      Visible(State())
    }

    // ----- Writes to the API server -----

    method UpdateAPI(a: API)
      modifies this`api
      ensures State() == PutAPI(old(State()), a) && (old(Valid()) ==> Valid())
    {
      api := if a.deleting && a.finalizers == {} then None else Some(a);
    }

    method UpdateService(n: string, s: Service)
      modifies this`services
      ensures State() == PutService(old(State()), n, s) && (old(Valid()) ==> Valid())
    {
      services := if s.deleting && s.finalizers == {} then services - {n} else services[n := s];
    }

    method UpdateEndpoint(n: string, e: Endpoint)
      modifies this`endpoints
      ensures State() == PutEndpoint(old(State()), n, e) && (old(Valid()) ==> Valid())
    {
      endpoints := if e.deleting && e.finalizers == {} then endpoints - {n} else endpoints[n := e];
    }

    /** controllerutil.AddFinalizer on the KeystoneAPI and the Update that follows. */
    method AddToAPI(f: Finalizer, updates: Outcome) returns (ok: bool)
      requires api.Some?
      modifies this`api
      ensures (State(), ok) == TakeAPI(old(State()), f, updates) && (old(Valid()) ==> Valid())
    {
      if f in api.value.finalizers {
        return true;
      }
      if api.value.deleting || updates.Failed? {
        return false;
      }
      UpdateAPI(api.value.(finalizers := api.value.finalizers + {f}));
      ok := updates.Done?;
    }

    /** The same on the endpoint's service. */
    method AddToService(n: string, name: string, env: EndpointEnv) returns (ok: bool)
      requires name in services
      modifies this`services
      ensures (State(), ok) == TakeService(old(State()), n, name, env) && (old(Valid()) ==> Valid())
    {
      var ksSvc := services[name];
      if OfEndpoint(n) in ksSvc.finalizers {
        return true;
      }
      if ksSvc.deleting || env.updatesService.Failed? {
        return false;
      }
      UpdateService(name, ksSvc.(finalizers := ksSvc.finalizers + {OfEndpoint(n)}));
      ok := env.updatesService.Done?;
    }

    // ----- KeystoneEndpoint -----

    method ReconcileEndpoint(n: string, env: EndpointEnv)
      requires Valid()
      modifies this
      ensures Valid() && State() == EndpointStep(old(State()), n, env)
    {
      if n !in endpoints {
        return;
      }
      var instance := endpoints[n];
      if !instance.initialized {
        instance := instance.(initialized := true);
      } else if !instance.deleting && Own !in instance.finalizers {
        instance := instance.(finalizers := instance.finalizers + {Own});
      } else if !env.readsAPI {
        return;
      } else if api.None? {
        if !(instance.deleting && instance.endpointIDs == map[]) {
          return;
        }
        instance := EndpointReconcileDelete(n, instance, false, env);
      } else if instance.deleting && api.value.deleting {
        instance := EndpointReleaseFinalizers(n, instance, env);
      } else if instance.deleting && instance.endpointIDs == map[] {
        instance := EndpointReconcileDelete(n, instance, false, env);
      } else if !api.value.ready || !env.adminClient {
        return;
      } else if instance.deleting {
        instance := EndpointReconcileDelete(n, instance, true, env);
      } else {
        instance := EndpointReconcileNormal(n, instance, env);
      }
      if env.patches {
        UpdateEndpoint(n, instance);
      }
    }

    /** reconcileDelete; the result is the instance in memory, which the caller patches. */
    method EndpointReconcileDelete(n: string, before: Endpoint, os: bool, env: EndpointEnv) returns (instance: Endpoint)
      requires Valid() && n in endpoints && endpoints[n] == before
      modifies this`api, this`services
      ensures Valid() && PatchEndpoint(State(), n, instance, env) == EndpointDelete(old(State()), n, before, os, env)
    {
      instance := before;
      if os && !env.deletes {
        return;
      }
      instance := instance.(endpointIDs := map[]);
      instance := EndpointReleaseFinalizers(n, instance, env);
    }

    /** reconcileDeleteFinalizersOnly, which is also the second half of reconcileDelete. */
    method EndpointReleaseFinalizers(n: string, before: Endpoint, env: EndpointEnv) returns (instance: Endpoint)
      requires n in endpoints
      modifies this`api, this`services
      ensures PatchEndpoint(State(), n, instance, env) == EndpointRelease(old(State()), n, before, env)
      ensures old(Valid()) ==> Valid()
    {
      instance := before;
      if !env.readsService {
        return;
      }
      if instance.serviceName in services {
        var ksSvc := services[instance.serviceName];
        if OfEndpoint(n) in ksSvc.finalizers {
          if env.updatesService.Happened() {
            UpdateService(instance.serviceName, ksSvc.(finalizers := ksSvc.finalizers - {OfEndpoint(n)}));
          }
          if !env.updatesService.Done? {
            return;
          }
        }
      }
      if api.Some? && OfEndpoint(n) in api.value.finalizers {
        if env.updatesAPI.Happened() {
          UpdateAPI(api.value.(finalizers := api.value.finalizers - {OfEndpoint(n)}));
        }
        if !env.updatesAPI.Done? {
          return;
        }
      }
      instance := instance.(finalizers := instance.finalizers - {Own});
    }

    method EndpointReconcileNormal(n: string, before: Endpoint, env: EndpointEnv) returns (instance: Endpoint)
      requires Valid() && api.Some? && n in endpoints && endpoints[n] == before
      modifies this`api, this`services
      ensures Valid() && PatchEndpoint(State(), n, instance, env) == EndpointNormal(old(State()), n, before, env)
    {
      instance := before;
      if !env.readsService || instance.serviceName !in services {
        return;
      }
      var ksSvc := services[instance.serviceName];
      if !ksSvc.ready {
        return;
      }
      instance := instance.(serviceID := ksSvc.serviceID);
      var ok := AddToAPI(OfEndpoint(n), env.updatesAPI);
      if !ok {
        return;
      }
      ok := AddToService(n, instance.serviceName, env);
      if !ok {
        return;
      }
      instance := instance.(endpointIDs := env.newIDs);
    }

    // ----- KeystoneService -----

    method ReconcileService(n: string, env: ServiceEnv)
      requires Valid()
      modifies this
      ensures Valid() && State() == ServiceStep(old(State()), n, env)
    {
      if n !in services {
        return;
      }
      var instance := services[n];
      if !instance.initialized {
        instance := instance.(initialized := true);
      } else if !instance.deleting && Own !in instance.finalizers {
        instance := instance.(finalizers := instance.finalizers + {Own});
      } else if !env.readsAPI {
        return;
      } else if api.None? {
        if !(instance.deleting && instance.serviceID == "") {
          return;
        }
        instance := ServiceReconcileDelete(n, instance, false, env);
      } else if instance.deleting && api.value.deleting {
        instance := ServiceReleaseFinalizers(n, instance, env);
      } else if instance.deleting && instance.serviceID == "" {
        instance := ServiceReconcileDelete(n, instance, false, env);
      } else if !api.value.ready || !env.adminClient {
        return;
      } else if instance.deleting {
        instance := ServiceReconcileDelete(n, instance, true, env);
      } else {
        instance := ServiceReconcileNormal(n, instance, env);
      }
      if env.patches {
        UpdateService(n, instance);
      }
    }

    /** reconcileDelete; the result is the instance in memory, which the caller patches. */
    method ServiceReconcileDelete(n: string, before: Service, os: bool, env: ServiceEnv) returns (instance: Service)
      requires Valid() && n in services && services[n] == before
      modifies this`api
      ensures Valid() && PatchService(State(), n, instance, env) == ServiceDelete(old(State()), n, before, os, env)
    {
      instance := before;
      if instance.serviceID != "" && os {
        if !env.deletes {
          return;
        }
        instance := instance.(serviceID := "");
      }
      instance := ServiceReleaseFinalizers(n, instance, env);
    }

    /** reconcileDeleteFinalizersOnly, which is also the second half of reconcileDelete. */
    method ServiceReleaseFinalizers(n: string, before: Service, env: ServiceEnv) returns (instance: Service)
      modifies this`api
      ensures PatchService(State(), n, instance, env) == ServiceRelease(old(State()), n, before, env)
      ensures old(Valid()) ==> Valid()
    {
      instance := before;
      if api.Some? && OfService(n) in api.value.finalizers {
        if env.updatesAPI.Happened() {
          UpdateAPI(api.value.(finalizers := api.value.finalizers - {OfService(n)}));
        }
        if !env.updatesAPI.Done? {
          return;
        }
      }
      instance := instance.(finalizers := instance.finalizers - {Own});
    }

    method ServiceReconcileNormal(n: string, before: Service, env: ServiceEnv) returns (instance: Service)
      requires api.Some? && n in services && services[n] == before
      modifies this`api
      ensures PatchService(State(), n, instance, env) == ServiceNormal(old(State()), n, before, env)
      ensures old(Valid()) ==> Valid()
    {
      instance := before;
      var ok := AddToAPI(OfService(n), env.updatesAPI);
      if !ok {
        return;
      }
      instance := instance.(serviceID := env.newServiceID);
    }

    // ----- KeystoneAPI -----

    method ReconcileAPI(env: APIEnv)
      modifies this
      ensures State() == APIStep(old(State()), env)
      ensures old(Valid()) ==> Valid()
    {
      if api.None? {
        return;
      }
      var instance := api.value;
      var isNewInstance := !instance.initialized;
      if !instance.deleting && Own !in instance.finalizers {
        instance := instance.(finalizers := instance.finalizers + {Own}, initialized := true);
      } else if isNewInstance {
        instance := instance.(initialized := true);
      } else if instance.deleting {
        instance := APIReconcileDelete(instance, env);
      } else {
        if !instance.isExternal {
          held := held + env.acquired;
        }
        instance := instance.(ready := env.ready);
      }
      if env.patches {
        UpdateAPI(instance);
      }
    }

    /** reconcileDelete: nothing is released while any other finalizer is on the KeystoneAPI. */
    method APIReconcileDelete(before: API, env: APIEnv) returns (instance: API)
      requires api == Some(before)
      modifies this`held
      ensures PatchAPI(State(), instance, env) == APIDelete(old(State()), before, env)
      ensures old(Valid()) ==> Valid()
    {
      instance := before;
      if instance.isExternal {
        instance := instance.(finalizers := instance.finalizers - {Own});
        return;
      }
      if exists f | f in instance.finalizers :: f != Own {
        return;
      }
      var releases := if env.slips then env.released + 1 else env.released;
      if releases >= 1 {
        held := held - {Topology};
      }
      if env.released < 1 {
        return;
      }
      if releases >= 2 {
        held := held - {Memcached};
      }
      if env.released < 2 {
        return;
      }
      if releases >= 3 {
        held := held - {Database};
      }
      if env.released < 4 {
        return;
      }
      instance := instance.(finalizers := instance.finalizers - {Own});
    }
  }
}
