/** The state that the application credential controller works on, and what one normal reconcile
    does to it, as functions of the state and of how the calls to the outside turn out. */
module CredentialModel {
  import opened Sequences
  import opened Wrappers
  import opened CredentialNames
  import CredentialClock
  import Times

  // ----- Secrets as the Kubernetes API keeps them -----

  /** isAC is the label application-credentials=true, service the label application-credential-service. */
  datatype Secret = Secret(isAC: bool, service: Option<string>, acID: string, finalizers: set<string>, deleting: bool)

  type Secrets = map<string, Secret>

  /** An update that sets the finalizers: a deleting object goes away with its last one. */
  function SetFinalizers(secrets: Secrets, n: string, finalizers: set<string>): Secrets
    requires n in secrets
  {
    if secrets[n].deleting && finalizers == {} then secrets - {n}
    else secrets[n := secrets[n].(finalizers := finalizers)]
  }

  /** A delete call: the object goes away at once only if it has no finalizers. */
  function DeleteRequested(secrets: Secrets, n: string): Secrets {
    if n !in secrets then secrets
    else if secrets[n].finalizers == {} then secrets - {n}
    else secrets[n := secrets[n].(deleting := true)]
  }

  /** The secret without its protection finalizer. */
  function Stripped(secrets: Secrets, n: string): Secrets
    requires n in secrets
  {
    if PROTECTION in secrets[n].finalizers then SetFinalizers(secrets, n, secrets[n].finalizers - {PROTECTION})
    else secrets
  }

  ghost predicate SameIdentity(a: Secret, b: Secret) {
    a.isAC == b.isAC && a.service == b.service && a.acID == b.acID
  }

  predicate Labelled(s: Secret, service: string) {
    s.isAC && s.service == Some(service)
  }

  // ----- The cluster -----

  /** The persisted status of an AC resource; expiresAt is None for a nil time. */
  datatype Status = Status(acID: string, secretName: string, previousSecretName: string,
                           expiresAt: Option<int>, securityHash: string)

  const NEW_STATUS := Status("", "", "", None, "")

  /** An AC resource, with the IDs its status has recorded, oldest first. */
  datatype CR = CR(status: Status, recorded: seq<string>, deleting: bool)

  /** live maps the IDs of the credentials that exist in Keystone to the service they were created for;
      lost are those that were never stored: Keystone created them but reported an error, or storing them
      failed and so did the compensating revocation; left are those that outlived their resource; issued
      are all IDs Keystone ever gave out. The resources are keyed by service: their names are ac-<service>. */
  datatype Cluster = Cluster(live: map<string, string>, lost: set<string>, left: set<string>, issued: set<string>,
                             secrets: Secrets, crs: map<string, CR>)

  const NEW_RESOURCE := CR(NEW_STATUS, [], false)

  const EMPTY := Cluster(map[], {}, {}, {}, map[], map[])

  // ----- What the outside does during one reconcile -----

  /** Keystone's answer when asked for a credential; Unseen is one that it creates while the call
      reports an error. */
  datatype Grant = Refused | Granted(id: string, expiresAt: int) | Unseen(id: string)

  datatype Env = Env(
    now: int,
    annotation: string,              // EDPM annotation of the resource, "" if missing
    securityHash: string,            // hash of the security fields of the spec
    graceDays: int,
    readsCurrent: bool,              // reading the current secret yields it or NotFound
    client: bool,                    // the user client and user ID are available
    grant: Grant,
    create: Outcome,                 // creating the secret, if its name is free
    fetches: bool,                   // reading an already existing secret works
    compensates: bool,               // revoking after a failed secret creation takes effect
    persists: bool,                  // the status patch at the end takes effect
    relabels: set<string>,           // secrets whose label update takes effect
    inSync: Option<bool>,            // NodeSet hash check; None if it failed
    listing: Option<seq<string>>,    // the listed secrets; None if listing failed
    revokeFails: set<string>,        // IDs whose revocation reports an error
    updateFails: set<string>,        // secrets whose finalizer update reports an error
    deleteFails: set<string>,        // secrets whose deletion reports an error
    slips: set<string>)              // IDs and secrets on which a call that reports an error takes effect

  /** The listing returns the labelled secrets in some order; it may or may not already contain a
      secret that was relabelled in this reconcile. */
  ghost predicate Lists(names: seq<string>, before: Secrets, after: Secrets, service: string) {
    && Distinct(names)
    && (forall n | n in before && Labelled(before[n], service) :: n in names)
    && (forall n | n in names :: n in after && Labelled(after[n], service))
  }

  /** What the outside guarantees: Keystone never reuses an ID, its IDs have five characters or
      more, and the listing is one. */
  ghost predicate Honest(c: Cluster, service: string, env: Env) {
    && service in c.crs && !c.crs[service].deleting
    && (!env.grant.Refused? ==> env.grant.id !in c.issued && |env.grant.id| >= 5)
    && (env.listing.Some? ==>
          Lists(env.listing.value, c.secrets, Relabelled(c.secrets, c.crs[service].status, service, env.relabels),
                service))
  }

  // ----- Relabelling -----

  /** ensureServiceLabel; relabels are the secrets whose label update takes effect. */
  function Relabel(secrets: Secrets, n: string, service: string, relabels: set<string>): Secrets {
    if n == "" || n !in secrets || secrets[n].service == Some(service) || n !in relabels then secrets
    else secrets[n := secrets[n].(service := Some(service))]
  }

  function Relabelled(secrets: Secrets, status: Status, service: string, relabels: set<string>): Secrets {
    Relabel(Relabel(secrets, status.secretName, service, relabels), status.previousSecretName, service, relabels)
  }

  ghost predicate Names(status: Status, n: string) {
    n != "" && (n == status.secretName || n == status.previousSecretName)
  }

  // ----- Cleanup -----

  /** The secrets cleanup leaves alone. */
  predicate Kept(n: string, s: Secret, status: Status) {
    n == status.secretName || n == status.previousSecretName || HasConsumerFinalizer(s.finalizers)
  }

  /** Result of a cleanup pass: ok is false when it stopped at a failing call. */
  datatype Swept = Swept(live: map<string, string>, secrets: Secrets, ok: bool)

  /** One turn of the cleanup loop: revoke, remove the protection finalizer, delete. */
  function SweepOne(live: map<string, string>, secrets: Secrets, n: string, status: Status, env: Env): Swept
    requires n in secrets
  {
    var s := secrets[n];
    if Kept(n, s, status) then Swept(live, secrets, true)
    else
      var revoked := if s.acID != "" then live - {s.acID} else live;
      if s.acID != "" && s.acID in env.revokeFails then
        Swept(if s.acID in env.slips then revoked else live, secrets, false)
      else
        var unprotected := Stripped(secrets, n);
        if PROTECTION in s.finalizers && n in env.updateFails then
          Swept(revoked, if n in env.slips then unprotected else secrets, false)
        else
          var deleted := DeleteRequested(unprotected, n);
          if n in env.deleteFails then Swept(revoked, if n in env.slips then deleted else unprotected, false)
          else Swept(revoked, deleted, true)
  }

  function Sweep(live: map<string, string>, secrets: Secrets, names: seq<string>, status: Status, env: Env): Swept
    decreases |names|
  {
    if names == [] then Swept(live, secrets, true)
    else if names[0] !in secrets then Sweep(live, secrets, names[1..], status, env)
    else
      var one := SweepOne(live, secrets, names[0], status, env);
      if !one.ok then one else Sweep(one.live, one.secrets, names[1..], status, env)
  }

  /** EDPM credentials are not cleaned up while a NodeSet is out of sync or could not be checked. */
  predicate CleanupAllowed(env: Env) {
    !IsEDPMService(env.annotation) || env.inSync == Some(true)
  }

  function Cleanup(live: map<string, string>, secrets: Secrets, status: Status, env: Env): Swept {
    if !CleanupAllowed(env) then Swept(live, secrets, true)
    else if env.listing.None? then Swept(live, secrets, false)
    else Sweep(live, secrets, env.listing.value, status, env)
  }

  // ----- Rotation -----

  function NewSecret(service: string, id: string): Secret {
    Secret(true, Some(service), id, {PROTECTION}, false)
  }

  /** createImmutableACSecret: the secrets afterwards, and whether it succeeded. */
  function StoreSecret(secrets: Secrets, service: string, id: string, env: Env): (Secrets, bool) {
    var n := ACSecretName(service, id);
    match env.create
    case Done =>
      if n in secrets then (secrets, env.fetches && secrets[n].acID == id)
      else (secrets[n := NewSecret(service, id)], true)
    case Failed => (secrets, false)
    case DoneButFailed => (if n in secrets then secrets else secrets[n := NewSecret(service, id)], false)
  }

  function RotatedStatus(status: Status, service: string, id: string, expiresAt: int, env: Env): Status {
    Status(id, ACSecretName(service, id),
           if status.acID != "" && status.secretName != "" then status.secretName else status.previousSecretName,
           Some(Times.Truncated(expiresAt)), env.securityHash)
  }

  function Rotate(c: Cluster, service: string, env: Env): Cluster
    requires service in c.crs
  {
    if !env.client || env.grant.Refused? then c
    else
      var (id, cr) := (env.grant.id, c.crs[service]);
      var b := c.(live := c.live[id := service], issued := c.issued + {id});
      if env.grant.Unseen? then b.(lost := c.lost + {id})
      else
        var (secrets, stored) := StoreSecret(c.secrets, service, id, env);
        if !stored then
          var unstored := ACSecretName(service, id) in c.secrets || env.create.Failed?;
          if env.compensates then b.(live := c.live - {id}, secrets := secrets)
          else b.(secrets := secrets, lost := if unstored then c.lost + {id} else c.lost)
        else if !env.persists then b.(secrets := secrets)
        else
          var status := RotatedStatus(cr.status, service, id, env.grant.expiresAt, env);
          b.(secrets := secrets, crs := c.crs[service := cr.(status := status, recorded := cr.recorded + [id])])
  }

  // ----- One reconcile -----

  predicate RotationNeeded(c: Cluster, status: Status, env: Env) {
    || CredentialClock.NeedsRotation(status.acID, status.securityHash, env.securityHash, status.expiresAt,
                                     env.graceDays, env.now)
    || (status.secretName != "" && status.secretName !in c.secrets)
  }

  function Maintain(c: Cluster, service: string, env: Env): Cluster
    requires service in c.crs
  {
    var status := c.crs[service].status;
    var secrets := Relabelled(c.secrets, status, service, env.relabels);
    if !env.client then c.(secrets := secrets)
    else
      var swept := Cleanup(c.live, secrets, status, env);
      c.(live := swept.live, secrets := swept.secrets)
  }

  /** reconcileNormal. */
  function NormalStep(c: Cluster, service: string, env: Env): Cluster
    requires service in c.crs
  {
    var status := c.crs[service].status;
    if status.secretName != "" && !env.readsCurrent then c
    else if RotationNeeded(c, status, env) then Rotate(c, service, env)
    else Maintain(c, service, env)
  }

  // ----- Deletion of a resource -----

  /** What the outside does during one delete reconcile. */
  datatype DeleteEnv = DeleteEnv(
    annotation: string,
    inSync: Option<bool>,
    relabels: set<string>,           // secrets whose label update takes effect
    listing: Option<seq<string>>,    // the listed secrets; None if listing failed
    client: bool,                    // KeystoneAPI exists, and the user client and user ID are available
    revokeFails: set<string>,        // IDs whose revocation does not take effect
    updateFails: set<string>,        // secrets whose finalizer update reports an error
    slips: set<string>,              // secrets on which an update that reports an error takes effect
    fetchFails: set<string>,         // secrets that cannot be read
    persists: bool)                  // the patch that removes the resource's finalizer takes effect

  /** State of a delete reconcile; revocations are the calls to Keystone so far, and ok turns false
      when a call fails that ends it. */
  datatype Deletion = Deletion(live: map<string, string>, secrets: Secrets, revocations: seq<string>, ok: bool)

  /** The finalizer update on one secret. */
  function Unprotect(d: Deletion, n: string, env: DeleteEnv): Deletion
    requires n in d.secrets
  {
    var s := d.secrets[n];
    if PROTECTION !in s.finalizers then d
    else
      var e := d.(secrets := Stripped(d.secrets, n));
      if n !in env.updateFails then e
      else if n in env.slips then e.(ok := false)
      else d.(ok := false)
  }

  /** The revocation for one secret: at most one call per credential, failures are ignored. */
  function Revoke(d: Deletion, n: string, env: DeleteEnv): Deletion
    requires n in d.secrets
  {
    var id := d.secrets[n].acID;
    if !env.client || id == "" || id in d.revocations then d
    else d.(revocations := d.revocations + [id], live := if id in env.revokeFails then d.live else d.live - {id})
  }

  /** The single pass over the listed secrets. */
  function Pass(d: Deletion, names: seq<string>, env: DeleteEnv): Deletion
    decreases |names|
  {
    if names == [] || !d.ok then d
    else if names[0] !in d.secrets then Pass(d, names[1..], env)
    else Pass(Unprotect(Revoke(d, names[0], env), names[0], env), names[1..], env)
  }

  /** The fallback for a status-named secret that the listing did not contain. */
  function Fallback(d: Deletion, n: string, processed: seq<string>, env: DeleteEnv): Deletion {
    if !d.ok || n == "" || n in processed then d
    else if n in env.fetchFails then d.(ok := false)
    else if n !in d.secrets then d
    else Unprotect(d, n, env)
  }

  /** reconcileDelete; in the result ok says that the resource's own finalizer is removed in memory. */
  function Delete(live: map<string, string>, secrets: Secrets, status: Status, service: string,
                  env: DeleteEnv): Deletion {
    if IsEDPMService(env.annotation) && env.inSync != Some(true) then Deletion(live, secrets, [], false)
    else
      var d := Deletion(live, Relabelled(secrets, status, service, env.relabels), [], true);
      if env.listing.None? then d.(ok := false)
      else
        var names := env.listing.value;
        Fallback(Fallback(Pass(d, names, env), status.secretName, names, env), status.previousSecretName, names, env)
  }

  ghost predicate DeleteHonest(c: Cluster, service: string, env: DeleteEnv) {
    && service in c.crs && c.crs[service].deleting
    && (env.listing.Some? ==>
          Lists(env.listing.value, c.secrets, Relabelled(c.secrets, c.crs[service].status, service, env.relabels),
                service))
  }

  /** A delete reconcile with the patch at its end: the resource goes once its finalizer is removed. */
  function DeleteStep(c: Cluster, service: string, env: DeleteEnv): Cluster
    requires service in c.crs
  {
    var r := Delete(c.live, c.secrets, c.crs[service].status, service, env);
    var b := c.(live := r.live, secrets := r.secrets);
    if r.ok && env.persists then
      b.(crs := c.crs - {service}, left := c.left + set id | id in r.live && r.live[id] == service)
    else b
  }

  // ----- Runs -----

  /** A reconcile, or something the users, the consumers and the API server do. */
  datatype Event =
    | Reconcile(service: string, env: Env)
    | NewResource(service: string)
    | RequestRemoval(service: string)
    | ReconcileDelete(service: string, deleteEnv: DeleteEnv)
    | AddFinalizer(name: string, finalizer: string)
    | DropFinalizer(name: string, finalizer: string)
    | RequestDelete(name: string)
    | ForceRemove(name: string)

  ghost predicate Possible(c: Cluster, e: Event) {
    match e
    case Reconcile(service, env) => Honest(c, service, env)
    case NewResource(service) => service !in c.crs
    case RequestRemoval(service) => service in c.crs
    case ReconcileDelete(service, env) => DeleteHonest(c, service, env)
    case AddFinalizer(n, f) => n in c.secrets && !c.secrets[n].deleting
    case DropFinalizer(n, f) => n in c.secrets && f != PROTECTION
    case RequestDelete(n) => n in c.secrets
    case ForceRemove(n) => n in c.secrets
  }

  function Step(c: Cluster, e: Event): Cluster {
    match e
    case Reconcile(service, env) => if service in c.crs then NormalStep(c, service, env) else c
    case NewResource(service) => if service in c.crs then c else c.(crs := c.crs[service := NEW_RESOURCE])
    case RequestRemoval(service) =>
      if service in c.crs then c.(crs := c.crs[service := c.crs[service].(deleting := true)]) else c
    case ReconcileDelete(service, env) => if service in c.crs then DeleteStep(c, service, env) else c
    case AddFinalizer(n, f) =>
      if n in c.secrets then c.(secrets := SetFinalizers(c.secrets, n, c.secrets[n].finalizers + {f})) else c
    case DropFinalizer(n, f) =>
      if n in c.secrets then c.(secrets := SetFinalizers(c.secrets, n, c.secrets[n].finalizers - {f})) else c
    case RequestDelete(n) => c.(secrets := DeleteRequested(c.secrets, n))
    case ForceRemove(n) => c.(secrets := c.secrets - {n})
  }

  function Run(c: Cluster, events: seq<Event>): Cluster
    decreases |events|
  {
    if events == [] then c else Run(Step(c, events[0]), events[1..])
  }

  ghost predicate PossibleRun(c: Cluster, events: seq<Event>)
    decreases |events|
  {
    events != [] ==> Possible(c, events[0]) && PossibleRun(Step(c, events[0]), events[1..])
  }
}
