/** The KeystoneAPI, the KeystoneServices and the KeystoneEndpoints of one namespace, and what one
    reconcile of each controller does to them, as functions of how its calls turn out. */
module TeardownModel {
  import opened Wrappers

  // ----- Objects -----

  /** Own is the finalizer of the object's own controller; the service and endpoint controllers put
      finalizers that name their object on other objects; Foreign ones belong to other operators. */
  datatype Finalizer = Own | OfService(name: string) | OfEndpoint(name: string) | Foreign(text: string)

  /** initialized says that the status conditions have been set up; isExternal is a field of the spec. */
  datatype API = API(deleting: bool, finalizers: set<Finalizer>, initialized: bool, ready: bool, isExternal: bool)

  datatype Service = Service(deleting: bool, finalizers: set<Finalizer>, initialized: bool, ready: bool,
                             serviceID: string)

  datatype Endpoint = Endpoint(deleting: bool, finalizers: set<Finalizer>, initialized: bool,
                               serviceName: string, serviceID: string, endpointIDs: map<string, string>)

  /** What an internal KeystoneAPI holds a finalizer on. */
  datatype Dependency = Topology | Memcached | Database

  datatype World = World(api: Option<API>, services: map<string, Service>, endpoints: map<string, Endpoint>,
                         held: set<Dependency>)

  /** The API server never shows a deleting object without finalizers: it is gone. */
  ghost predicate Visible(w: World) {
    && (w.api.Some? && w.api.value.deleting ==> w.api.value.finalizers != {})
    && (forall n | n in w.services && w.services[n].deleting :: w.services[n].finalizers != {})
    && (forall n | n in w.endpoints && w.endpoints[n].deleting :: w.endpoints[n].finalizers != {})
  }

  // ----- Writes: a deleting object without finalizers goes away -----

  function PutAPI(w: World, a: API): World {
    if a.deleting && a.finalizers == {} then w.(api := None) else w.(api := Some(a))
  }

  function PutService(w: World, n: string, s: Service): World {
    if s.deleting && s.finalizers == {} then w.(services := w.services - {n}) else w.(services := w.services[n := s])
  }

  function PutEndpoint(w: World, n: string, e: Endpoint): World {
    if e.deleting && e.finalizers == {} then w.(endpoints := w.endpoints - {n})
    else w.(endpoints := w.endpoints[n := e])
  }

  // ----- KeystoneEndpoint -----

  /** How the calls of one endpoint reconcile turn out; newIDs is what reconcileEndpoints leaves in
      the status, whether it returns an error or not, and patches says that the deferred status patch
      takes effect. */
  datatype EndpointEnv = EndpointEnv(readsAPI: bool, adminClient: bool, deletes: bool, readsService: bool,
                                     updatesService: Outcome, updatesAPI: Outcome,
                                     newIDs: map<string, string>, patches: bool)

  function PatchEndpoint(w: World, n: string, e: Endpoint, env: EndpointEnv): World {
    if env.patches then PutEndpoint(w, n, e) else w
  }

  /** Removes the endpoint's finalizer from its service; the flag says whether the reconcile goes on. */
  function ReleaseService(w: World, n: string, serviceName: string, env: EndpointEnv): (World, bool) {
    if !env.readsService then (w, false)
    else if serviceName !in w.services then (w, true)
    else
      var s := w.services[serviceName];
      if OfEndpoint(n) !in s.finalizers then (w, true)
      else if env.updatesService.Failed? then (w, false)
      else (PutService(w, serviceName, s.(finalizers := s.finalizers - {OfEndpoint(n)})), env.updatesService.Done?)
  }

  /** Removes a named finalizer from the KeystoneAPI, if there is one. */
  function ReleaseAPI(w: World, f: Finalizer, updates: Outcome): (World, bool) {
    if w.api.None? || f !in w.api.value.finalizers then (w, true)
    else if updates.Failed? then (w, false)
    else (PutAPI(w, w.api.value.(finalizers := w.api.value.finalizers - {f})), updates.Done?)
  }

  /** Adds a named finalizer to the KeystoneAPI. Adding a finalizer to a deleting object is refused. */
  function TakeAPI(w: World, f: Finalizer, updates: Outcome): (World, bool)
    requires w.api.Some?
  {
    var a := w.api.value;
    if f in a.finalizers then (w, true)
    else if a.deleting || updates.Failed? then (w, false)
    else (w.(api := Some(a.(finalizers := a.finalizers + {f}))), updates.Done?)
  }

  /** Adds the endpoint's finalizer to its service. */
  function TakeService(w: World, n: string, serviceName: string, env: EndpointEnv): (World, bool)
    requires serviceName in w.services
  {
    var s := w.services[serviceName];
    if OfEndpoint(n) in s.finalizers then (w, true)
    else if s.deleting || env.updatesService.Failed? then (w, false)
    else (w.(services := w.services[serviceName := s.(finalizers := s.finalizers + {OfEndpoint(n)})]),
          env.updatesService.Done?)
  }

  /** The shared end of both delete paths, with e the endpoint as it stands in memory. */
  function EndpointRelease(w: World, n: string, e: Endpoint, env: EndpointEnv): World {
    var (w1, ok1) := ReleaseService(w, n, e.serviceName, env);
    if !ok1 then PatchEndpoint(w1, n, e, env)
    else
      var (w2, ok2) := ReleaseAPI(w1, OfEndpoint(n), env.updatesAPI);
      if !ok2 then PatchEndpoint(w2, n, e, env)
      else PatchEndpoint(w2, n, e.(finalizers := e.finalizers - {Own}), env)
  }

  /** reconcileDelete of the endpoint controller; os says that there is an OpenStack client. */
  function EndpointDelete(w: World, n: string, e: Endpoint, os: bool, env: EndpointEnv): World {
    if os && !env.deletes then w
    else EndpointRelease(w, n, e.(endpointIDs := map[]), env)
  }

  /** reconcileNormal of the endpoint controller. */
  function EndpointNormal(w: World, n: string, e: Endpoint, env: EndpointEnv): World
    requires w.api.Some?
  {
    if !env.readsService || e.serviceName !in w.services || !w.services[e.serviceName].ready then w
    else
      var e1 := e.(serviceID := w.services[e.serviceName].serviceID);
      var (w1, ok1) := TakeAPI(w, OfEndpoint(n), env.updatesAPI);
      if !ok1 then PatchEndpoint(w1, n, e1, env)
      else
        var (w2, ok2) := TakeService(w1, n, e.serviceName, env);
        if !ok2 then PatchEndpoint(w2, n, e1, env)
        else PatchEndpoint(w2, n, e1.(endpointIDs := env.newIDs), env)
  }

  /** Reconcile of the endpoint controller. */
  function EndpointStep(w: World, n: string, env: EndpointEnv): World {
    if n !in w.endpoints then w
    else
      var e := w.endpoints[n];
      if !e.initialized then PatchEndpoint(w, n, e.(initialized := true), env)
      else if !e.deleting && Own !in e.finalizers then PatchEndpoint(w, n, e.(finalizers := e.finalizers + {Own}), env)
      else if !env.readsAPI then w
      else if w.api.None? then
        if e.deleting && e.endpointIDs == map[] then EndpointDelete(w, n, e, false, env) else w
      else if e.deleting && w.api.value.deleting then EndpointRelease(w, n, e, env)
      else if e.deleting && e.endpointIDs == map[] then EndpointDelete(w, n, e, false, env)
      else if !w.api.value.ready || !env.adminClient then w
      else if e.deleting then EndpointDelete(w, n, e, true, env)
      else EndpointNormal(w, n, e, env)
  }

  // ----- KeystoneService -----

  /** newServiceID is what reconcileService leaves in the status, whether it returns an error or not. */
  datatype ServiceEnv = ServiceEnv(readsAPI: bool, adminClient: bool, deletes: bool, updatesAPI: Outcome,
                                   newServiceID: string, patches: bool)

  function PatchService(w: World, n: string, s: Service, env: ServiceEnv): World {
    if env.patches then PutService(w, n, s) else w
  }

  function ServiceRelease(w: World, n: string, s: Service, env: ServiceEnv): World {
    var (w1, ok) := ReleaseAPI(w, OfService(n), env.updatesAPI);
    PatchService(w1, n, if ok then s.(finalizers := s.finalizers - {Own}) else s, env)
  }

  /** reconcileDelete of the service controller. */
  function ServiceDelete(w: World, n: string, s: Service, os: bool, env: ServiceEnv): World {
    if s.serviceID != "" && os then
      if !env.deletes then w else ServiceRelease(w, n, s.(serviceID := ""), env)
    else ServiceRelease(w, n, s, env)
  }

  /** reconcileNormal of the service controller. */
  function ServiceNormal(w: World, n: string, s: Service, env: ServiceEnv): World
    requires w.api.Some?
  {
    var (w1, ok) := TakeAPI(w, OfService(n), env.updatesAPI);
    PatchService(w1, n, if ok then s.(serviceID := env.newServiceID) else s, env)
  }

  /** Reconcile of the service controller. */
  function ServiceStep(w: World, n: string, env: ServiceEnv): World {
    if n !in w.services then w
    else
      var s := w.services[n];
      if !s.initialized then PatchService(w, n, s.(initialized := true), env)
      else if !s.deleting && Own !in s.finalizers then PatchService(w, n, s.(finalizers := s.finalizers + {Own}), env)
      else if !env.readsAPI then w
      else if w.api.None? then
        if s.deleting && s.serviceID == "" then ServiceDelete(w, n, s, false, env) else w
      else if s.deleting && w.api.value.deleting then ServiceRelease(w, n, s, env)
      else if s.deleting && s.serviceID == "" then ServiceDelete(w, n, s, false, env)
      else if !w.api.value.ready || !env.adminClient then w
      else if s.deleting then ServiceDelete(w, n, s, true, env)
      else ServiceNormal(w, n, s, env)
  }

  // ----- KeystoneAPI -----

  /** released is the number of releases that succeed: topology, Memcached, database, then the
      transport secrets; slips says that the next one reports an error although it took effect.
      acquired is what a normal reconcile takes hold of. */
  datatype APIEnv = APIEnv(released: nat, slips: bool, acquired: set<Dependency>, ready: bool, patches: bool)

  function PatchAPI(w: World, a: API, env: APIEnv): World {
    if env.patches then PutAPI(w, a) else w
  }

  /** The dependencies still held after the first k releases. */
  function Released(held: set<Dependency>, k: nat): set<Dependency> {
    held - (if k >= 1 then {Topology} else {}) - (if k >= 2 then {Memcached} else {})
    - (if k >= 3 then {Database} else {})
  }

  /** reconcileDelete of the KeystoneAPI controller. */
  function APIDelete(w: World, a: API, env: APIEnv): World {
    if a.isExternal then PatchAPI(w, a.(finalizers := a.finalizers - {Own}), env)
    else if exists f | f in a.finalizers :: f != Own then PatchAPI(w, a, env)
    else
      var w1 := w.(held := Released(w.held, if env.slips then env.released + 1 else env.released));
      PatchAPI(w1, if env.released >= 4 then a.(finalizers := a.finalizers - {Own}) else a, env)
  }

  /** Reconcile of the KeystoneAPI controller; of a normal reconcile only what it holds matters. */
  function APIStep(w: World, env: APIEnv): World {
    if w.api.None? then w
    else
      var a := w.api.value;
      if !a.deleting && Own !in a.finalizers then
        PatchAPI(w, a.(finalizers := a.finalizers + {Own}, initialized := true), env)
      else if !a.initialized then PatchAPI(w, a.(initialized := true), env)
      else if a.deleting then APIDelete(w, a, env)
      else if a.isExternal then PatchAPI(w, a.(ready := env.ready), env)
      else PatchAPI(w.(held := w.held + env.acquired), a.(ready := env.ready), env)
  }

  // ----- Runs -----

  datatype Target = TheAPI | TheService(name: string) | TheEndpoint(name: string)

  datatype Event =
    | ReconcileEndpoint(n: string, endpointEnv: EndpointEnv)
    | ReconcileService(n: string, serviceEnv: ServiceEnv)
    | ReconcileAPI(apiEnv: APIEnv)
    | CreateAPI(foreign: set<string>, isExternal: bool)
    | CreateService(n: string, foreign: set<string>)
    | CreateEndpoint(n: string, foreign: set<string>, serviceName: string)
    | RequestDelete(target: Target)
    | AddForeign(target: Target, text: string)
    | DropForeign(target: Target, text: string)
    | ServiceReady(n: string, ready: bool)

  function Foreigners(foreign: set<string>): set<Finalizer> {
    set t | t in foreign :: Foreign(t)
  }

  /** Users and other operators only work on objects that are there, create ones that are not, and
      cannot add finalizers to deleting objects. */
  ghost predicate Possible(w: World, e: Event) {
    match e
    case CreateAPI(_, _) => w.api.None?
    case CreateService(n, _) => n !in w.services
    case CreateEndpoint(n, _, _) => n !in w.endpoints
    case AddForeign(t, _) => Exists(w, t) && !Deleting(w, t)
    case RequestDelete(t) => Exists(w, t)
    case DropForeign(t, _) => Exists(w, t)
    case ServiceReady(n, _) => n in w.services
    case _ => true
  }

  predicate Exists(w: World, t: Target) {
    match t
    case TheAPI => w.api.Some?
    case TheService(n) => n in w.services
    case TheEndpoint(n) => n in w.endpoints
  }

  predicate Deleting(w: World, t: Target)
    requires Exists(w, t)
  {
    match t
    case TheAPI => w.api.value.deleting
    case TheService(n) => w.services[n].deleting
    case TheEndpoint(n) => w.endpoints[n].deleting
  }

  function Finalizers(w: World, t: Target): set<Finalizer>
    requires Exists(w, t)
  {
    match t
    case TheAPI => w.api.value.finalizers
    case TheService(n) => w.services[n].finalizers
    case TheEndpoint(n) => w.endpoints[n].finalizers
  }

  /** Writes an object's metadata. */
  function PutMeta(w: World, t: Target, deleting: bool, finalizers: set<Finalizer>): World
    requires Exists(w, t)
  {
    match t
    case TheAPI => PutAPI(w, w.api.value.(deleting := deleting, finalizers := finalizers))
    case TheService(n) => PutService(w, n, w.services[n].(deleting := deleting, finalizers := finalizers))
    case TheEndpoint(n) => PutEndpoint(w, n, w.endpoints[n].(deleting := deleting, finalizers := finalizers))
  }

  function Step(w: World, e: Event): World {
    match e
    case ReconcileEndpoint(n, env) => EndpointStep(w, n, env)
    case ReconcileService(n, env) => ServiceStep(w, n, env)
    case ReconcileAPI(env) => APIStep(w, env)
    case CreateAPI(foreign, isExternal) =>
      if w.api.Some? then w else w.(api := Some(API(false, Foreigners(foreign), false, false, isExternal)))
    case CreateService(n, foreign) =>
      if n in w.services then w
      else w.(services := w.services[n := Service(false, Foreigners(foreign), false, false, "")])
    case CreateEndpoint(n, foreign, serviceName) =>
      if n in w.endpoints then w
      else w.(endpoints := w.endpoints[n := Endpoint(false, Foreigners(foreign), false, serviceName, "", map[])])
    case RequestDelete(t) => if Exists(w, t) then PutMeta(w, t, true, Finalizers(w, t)) else w
    case AddForeign(t, text) =>
      if Exists(w, t) then PutMeta(w, t, Deleting(w, t), Finalizers(w, t) + {Foreign(text)}) else w
    case DropForeign(t, text) =>
      if Exists(w, t) then PutMeta(w, t, Deleting(w, t), Finalizers(w, t) - {Foreign(text)}) else w
    case ServiceReady(n, ready) =>
      if n in w.services then w.(services := w.services[n := w.services[n].(ready := ready)]) else w
  }

  function Run(w: World, events: seq<Event>): World
    decreases |events|
  {
    if events == [] then w else Run(Step(w, events[0]), events[1..])
  }

  ghost predicate PossibleRun(w: World, events: seq<Event>)
    decreases |events|
  {
    events != [] ==> Possible(w, events[0]) && PossibleRun(Step(w, events[0]), events[1..])
  }
}
