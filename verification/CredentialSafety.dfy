/** Application credentials over whole runs: none is leaked, none is revoked too early, the status
    and its secret agree, and services do not touch each other's secrets. */
module CredentialSafety {
  import opened Wrappers
  import opened CredentialNames
  import opened CredentialModel
  import opened CredentialCleanup
  import opened CredentialDeletion

  // ----- What holds in every reachable state, even if secrets are removed by force -----

  ghost predicate IDsKnown(c: Cluster) {
    && "" !in c.secrets
    && (forall n | n in c.secrets && c.secrets[n].acID != "" :: c.secrets[n].acID in c.issued)
    && (forall id | id in c.live :: id in c.issued && id != "")
    && (forall n, m | n in c.secrets && m in c.secrets && c.secrets[n].acID == c.secrets[m].acID != "" :: n == m)
    && c.left <= c.issued && (forall id | id in c.lost :: id in c.issued && Unstored(c.secrets, id))
  }

  ghost predicate Unstored(secrets: Secrets, id: string) {
    forall n | n in secrets :: secrets[n].acID != id
  }

  /** Only the secret called n stores the credential id, if any does. */
  ghost predicate StoredOnlyIn(secrets: Secrets, id: string, n: string) {
    forall m | m in secrets && secrets[m].acID == id :: m == n
  }

  /** The status is the newest recorded one, and the last two recorded credentials are stored, if at
      all, in the secrets that the status names. */
  ghost predicate StatusRecorded(secrets: Secrets, issued: set<string>, cr: CR) {
    var (r, st) := (cr.recorded, cr.status);
    && (r == [] <==> st.acID == "")
    && (r != [] ==> st.acID == r[|r| - 1] && st.secretName != "")
    && (forall i | 0 <= i < |r| :: r[i] in issued && r[i] != "")
    && (|r| >= 1 ==> StoredOnlyIn(secrets, r[|r| - 1], st.secretName))
    && (|r| >= 2 ==> StoredOnlyIn(secrets, r[|r| - 2], st.previousSecretName))
  }

  /** n is not a secret name that another service generates. */
  ghost predicate NotForeign(service: string, n: string) {
    forall other: string, id: string :: other != service && |id| >= 5 ==> n != ACSecretName(other, id)
  }

  /** The secrets a status names are not labelled for, nor named by the status of, another service. */
  ghost predicate NamesOwn(c: Cluster, service: string)
    requires service in c.crs
  {
    var st := c.crs[service].status;
    && NotForeign(service, st.secretName) && NotForeign(service, st.previousSecretName)
    && (forall n | n in c.secrets && Names(st, n) :: c.secrets[n].service.Some? ==>
          c.secrets[n].service.value == service)
    && (forall other, n | other in c.crs && other != service && Names(st, n) :: !Names(c.crs[other].status, n))
  }

  ghost predicate Safe(c: Cluster) {
    && IDsKnown(c)
    && (forall service | service in c.crs ::
          StatusRecorded(c.secrets, c.issued, c.crs[service]) && NamesOwn(c, service))
  }

  // ----- What holds as long as secrets are only removed by cleanup -----

  ghost predicate Holder(c: Cluster, id: string, n: string) {
    && id in c.live && n in c.secrets && Labelled(c.secrets[n], c.live[id])
    && c.secrets[n].acID == id && PROTECTION in c.secrets[n].finalizers
  }

  /** The service's resource is being deleted. */
  ghost predicate Dissolving(c: Cluster, service: string) {
    service in c.crs && c.crs[service].deleting
  }

  /** The credential is live, and its resource is neither being deleted nor gone since it was created. */
  ghost predicate Attended(c: Cluster, id: string) {
    id in c.live && id !in c.left && !Dissolving(c, c.live[id])
  }

  ghost predicate Held(c: Cluster, id: string) {
    exists n :: Holder(c, id, n)
  }

  /** Every attended credential that was not lost when it was created is stored in a protected secret
      labelled for its service. */
  ghost predicate NoneLeaked(c: Cluster) {
    forall id | Attended(c, id) && id !in c.lost :: Held(c, id)
  }

  /** The current secret is there, protected, and stores the current credential. */
  ghost predicate StatusAgrees(c: Cluster) {
    forall service | service in c.crs && !c.crs[service].deleting :: Agrees(c.secrets, c.crs[service].status)
  }

  ghost predicate Agrees(secrets: Secrets, st: Status) {
    st.secretName != "" ==>
      && st.secretName in secrets && secrets[st.secretName].acID == st.acID
      && PROTECTION in secrets[st.secretName].finalizers
  }

  lemma EmptyClusterSafe()
    ensures Safe(EMPTY) && NoneLeaked(EMPTY) && StatusAgrees(EMPTY)
  {
  }

  // ----- Changes that only take things away -----

  /** b has fewer secrets, with fewer finalizers perhaps, but the same identities, and fewer live credentials. */
  ghost predicate Weakens(a: Cluster, b: Cluster) {
    && b.issued == a.issued && b.crs == a.crs && b.lost == a.lost && b.left == a.left
    && (forall id | id in b.live :: id in a.live && b.live[id] == a.live[id])
    && (forall n | n in b.secrets :: n in a.secrets && SameIdentity(a.secrets[n], b.secrets[n]))
  }

  lemma WeakeningSafe(a: Cluster, b: Cluster)
    requires Safe(a) && Weakens(a, b)
    ensures Safe(b)
  {
    forall service | service in b.crs
      ensures StatusRecorded(b.secrets, b.issued, b.crs[service]) && NamesOwn(b, service)
    {
      assert StatusRecorded(a.secrets, a.issued, a.crs[service]) && NamesOwn(a, service);
    }
  }

  // ----- Relabelling -----

  /** Relabelling only touches unlabelled secrets that the status names. */
  lemma RelabelOnly(c: Cluster, service: string, relabels: set<string>)
    requires Safe(c) && service in c.crs
    ensures var after := Relabelled(c.secrets, c.crs[service].status, service, relabels);
            && after.Keys == c.secrets.Keys
            && forall n | n in c.secrets && !Untouched(c.secrets, after, n) ::
                 && Names(c.crs[service].status, n) && c.secrets[n].service.None?
                 && after[n] == c.secrets[n].(service := Some(service))
  {
    assert NamesOwn(c, service);
  }

  lemma RelabelledSafe(c: Cluster, service: string, relabels: set<string>)
    requires Safe(c) && service in c.crs
    ensures Safe(c.(secrets := Relabelled(c.secrets, c.crs[service].status, service, relabels)))
  {
    var b := c.(secrets := Relabelled(c.secrets, c.crs[service].status, service, relabels));
    RelabelOnly(c, service, relabels);
    forall n | n in b.secrets
      ensures b.secrets[n].acID == c.secrets[n].acID
    {
      if !Untouched(c.secrets, b.secrets, n) {
        assert b.secrets[n] == c.secrets[n].(service := Some(service));
      }
    }
    forall other | other in b.crs
      ensures StatusRecorded(b.secrets, b.issued, b.crs[other]) && NamesOwn(b, other)
    {
      assert StatusRecorded(c.secrets, c.issued, c.crs[other]) && NamesOwn(c, other);
      forall n | n in b.secrets && Names(b.crs[other].status, n)
        ensures b.secrets[n].service.Some? ==> b.secrets[n].service.value == other
      {
        if !Untouched(c.secrets, b.secrets, n) {
          assert Names(c.crs[service].status, n);
        }
      }
    }
  }

  // ----- Maintenance -----

  lemma CleanupWeakens(c: Cluster, service: string, env: Env)
    requires Safe(c) && Honest(c, service, env)
    ensures var b := c.(secrets := Relabelled(c.secrets, c.crs[service].status, service, env.relabels));
            Weakens(b, Maintain(c, service, env))
  {
    var st := c.crs[service].status;
    var secrets := Relabelled(c.secrets, st, service, env.relabels);
    if CleanupAllowed(env) && env.listing.Some? {
      SweepOnly(c.live, secrets, env.listing.value, st, env);
    }
  }

  lemma MaintainSafe(c: Cluster, service: string, env: Env)
    requires Safe(c) && Honest(c, service, env)
    ensures Safe(Maintain(c, service, env))
  {
    RelabelledSafe(c, service, env.relabels);
    CleanupWeakens(c, service, env);
    var b := c.(secrets := Relabelled(c.secrets, c.crs[service].status, service, env.relabels));
    WeakeningSafe(b, Maintain(c, service, env));
  }

  // ----- Rotation -----

  lemma OwnNameNotForeign(service: string, id: string)
    requires |id| >= 5
    ensures NotForeign(service, ACSecretName(service, id)) && NotForeign(service, "")
  {
    forall other: string, id': string | other != service && |id'| >= 5
      ensures ACSecretName(service, id) != ACSecretName(other, id')
    {
      SecretNameInjective(service, id, other, id');
    }
  }

  /** A new ID, with or without a new secret that stores it, disturbs nothing that was recorded. */
  lemma IssueSafe(c: Cluster, service: string, id: string, b: Cluster)
    requires Safe(c) && id !in c.issued && |id| >= 5
    requires b.issued == c.issued + {id} && b.crs == c.crs && b.left == c.left
    requires b.lost == c.lost || (b.lost == c.lost + {id} && b.secrets == c.secrets)
    requires b.live == c.live || b.live == c.live[id := service]
    requires b.secrets == c.secrets || (ACSecretName(service, id) !in c.secrets &&
                                        b.secrets == c.secrets[ACSecretName(service, id) := NewSecret(service, id)])
    ensures Safe(b)
  {
    IssueKnown(c, service, id, b);
    forall other | other in b.crs
      ensures StatusRecorded(b.secrets, b.issued, b.crs[other]) && NamesOwn(b, other)
    {
      assert StatusRecorded(c.secrets, c.issued, c.crs[other]) && NamesOwn(c, other);
    }
  }

  lemma IssueKnown(c: Cluster, service: string, id: string, b: Cluster)
    requires IDsKnown(c) && id !in c.issued && |id| >= 5
    requires b.issued == c.issued + {id} && b.crs == c.crs && b.left == c.left
    requires b.lost == c.lost || (b.lost == c.lost + {id} && b.secrets == c.secrets)
    requires b.live == c.live || b.live == c.live[id := service]
    requires b.secrets == c.secrets || (ACSecretName(service, id) !in c.secrets &&
                                        b.secrets == c.secrets[ACSecretName(service, id) := NewSecret(service, id)])
    ensures IDsKnown(b)
  {
  }

  /** The names of the new status are the new secret's and old ones; nobody else names the new one. */
  lemma RecordNamesOwn(c: Cluster, service: string, cr': CR, n: string)
    requires service in c.crs && NotForeign(service, n)
    requires forall other | other in c.crs :: NamesOwn(c, other)
    requires n in c.secrets && c.secrets[n].service == Some(service)
    requires exists id :: |id| >= 5 && n == ACSecretName(service, id)
    requires var (st, st') := (c.crs[service].status, cr'.status);
             && st'.secretName == n
             && (st'.previousSecretName == st.secretName || st'.previousSecretName == st.previousSecretName)
    ensures forall other | other in c.crs :: NamesOwn(c.(crs := c.crs[service := cr']), other)
  {
    var b, st := c.(crs := c.crs[service := cr']), c.crs[service].status;
    forall other | other in b.crs
      ensures NamesOwn(b, other)
    {
      assert NamesOwn(c, other) && NamesOwn(c, service);
      assert forall m :: Names(cr'.status, m) ==> m == n || Names(st, m);
      assert other != service ==> !Names(c.crs[other].status, n);
      forall o, m | o in b.crs && o != other && Names(b.crs[other].status, m)
        ensures !Names(b.crs[o].status, m)
      {
        assert NamesOwn(c, o);
      }
    }
  }

  lemma RecordStatus(c: Cluster, cr: CR, id: string, expiresAt: int, service: string, env: Env)
    requires StatusRecorded(c.secrets, c.issued, cr) && id in c.issued && id != ""
    requires StoredOnlyIn(c.secrets, id, ACSecretName(service, id))
    ensures StatusRecorded(c.secrets, c.issued, RecordedCR(cr, id, expiresAt, service, env))
  {
    var r := cr.recorded + [id];
    assert r[|r| - 1] == id;
    assert |r| >= 2 ==> r[|r| - 2] == cr.recorded[|cr.recorded| - 1];
  }

  function RecordedCR(cr: CR, id: string, expiresAt: int, service: string, env: Env): CR {
    cr.(status := RotatedStatus(cr.status, service, id, expiresAt, env), recorded := cr.recorded + [id])
  }

  /** Recording the new credential keeps everything in order for its service and the others. */
  lemma RecordSafe(c: Cluster, service: string, id: string, expiresAt: int, env: Env)
    requires Safe(c) && service in c.crs
    requires |id| >= 5 && id in c.issued && id !in c.crs[service].recorded
    requires ACSecretName(service, id) in c.secrets && c.secrets[ACSecretName(service, id)] == NewSecret(service, id)
    ensures Safe(c.(crs := c.crs[service := RecordedCR(c.crs[service], id, expiresAt, service, env)]))
  {
    var cr := c.crs[service];
    var cr' := RecordedCR(cr, id, expiresAt, service, env);
    OwnNameNotForeign(service, id);
    RecordNamesOwn(c, service, cr', ACSecretName(service, id));
    assert StatusRecorded(c.secrets, c.issued, cr);
    RecordStatus(c, cr, id, expiresAt, service, env);
    ReplacedSafe(c, service, cr');
  }

  lemma ReplacedSafe(c: Cluster, service: string, cr: CR)
    requires Safe(c) && service in c.crs && StatusRecorded(c.secrets, c.issued, cr)
    requires forall other | other in c.crs :: NamesOwn(c.(crs := c.crs[service := cr]), other)
    ensures Safe(c.(crs := c.crs[service := cr]))
  {
    var b := c.(crs := c.crs[service := cr]);
    assert IDsKnown(b);
    forall other | other in b.crs
      ensures StatusRecorded(b.secrets, b.issued, b.crs[other]) && NamesOwn(b, other)
    {
      assert other == service || StatusRecorded(c.secrets, c.issued, c.crs[other]);
    }
  }

  /** No secret of this name stores the credential yet. */
  ghost predicate NotStored(secrets: Secrets, service: string, id: string) {
    ACSecretName(service, id) in secrets ==> secrets[ACSecretName(service, id)].acID != id
  }

  lemma GrantIsNew(c: Cluster, service: string, env: Env)
    requires Safe(c) && Honest(c, service, env) && !env.grant.Refused?
    ensures NotStored(c.secrets, service, env.grant.id) && env.grant.id !in c.live
    ensures c.live - {env.grant.id} == c.live
  {
  }

  /** Apart from the status a rotation changes at most these things. */
  lemma RotateShape(c: Cluster, service: string, env: Env)
    requires service in c.crs && env.client && !env.grant.Refused?
    requires NotStored(c.secrets, service, env.grant.id) && c.live - {env.grant.id} == c.live
    ensures var (id, b) := (env.grant.id, Rotate(c, service, env));
            var n := ACSecretName(service, id);
            && b.issued == c.issued + {id} && b.left == c.left
            && (b.lost == c.lost || (b.lost == c.lost + {id} && b.secrets == c.secrets))
            && (b.live == c.live || b.live == c.live[id := service])
            && (b.secrets == c.secrets || (n !in c.secrets && b.secrets == c.secrets[n := NewSecret(service, id)]))
  {
  }

  lemma RotateIssues(c: Cluster, service: string, env: Env)
    requires Safe(c) && Honest(c, service, env) && env.client && !env.grant.Refused?
    ensures Safe(Rotate(c, service, env).(crs := c.crs))
  {
    GrantIsNew(c, service, env);
    RotateShape(c, service, env);
    IssueSafe(c, service, env.grant.id, Rotate(c, service, env).(crs := c.crs));
  }

  lemma RotateSafe(c: Cluster, service: string, env: Env)
    requires Safe(c) && Honest(c, service, env)
    ensures Safe(Rotate(c, service, env))
  {
    if env.client && !env.grant.Refused? {
      var (id, cr) := (env.grant.id, c.crs[service]);
      RotateIssues(c, service, env);
      GrantIsNew(c, service, env);
      if env.grant.Granted? && StoreSecret(c.secrets, service, id, env).1 && env.persists {
        assert StatusRecorded(c.secrets, c.issued, cr);
        RecordSafe(Rotate(c, service, env).(crs := c.crs), service, id, env.grant.expiresAt, env);
      }
    }
  }

  // ----- Deletion of a resource -----

  /** Apart from the relabelling, a delete reconcile only takes things away. */
  lemma DeleteWeakens(c: Cluster, service: string, env: DeleteEnv)
    requires Safe(c) && DeleteHonest(c, service, env)
    ensures var r := Delete(c.live, c.secrets, c.crs[service].status, service, env);
            var b := c.(secrets := Relabelled(c.secrets, c.crs[service].status, service, env.relabels));
            Weakens(b, c.(live := r.live, secrets := r.secrets)) || (r.secrets == c.secrets && r.live == c.live)
  {
    var st := c.crs[service].status;
    DeleteRevokesOnce(c.live, c.secrets, st, service, env);
    if env.listing.Some? {
      var d := Deletion(c.live, Relabelled(c.secrets, st, service, env.relabels), [], true);
      DeleteStrips(d, st, env.listing.value, env);
    }
  }

  lemma DeleteSafe(c: Cluster, service: string, env: DeleteEnv)
    requires Safe(c) && DeleteHonest(c, service, env)
    ensures Safe(DeleteStep(c, service, env))
  {
    var r := Delete(c.live, c.secrets, c.crs[service].status, service, env);
    var b := c.(secrets := Relabelled(c.secrets, c.crs[service].status, service, env.relabels));
    var d := c.(live := r.live, secrets := r.secrets);
    RelabelledSafe(c, service, env.relabels);
    DeleteWeakens(c, service, env);
    if Weakens(b, d) {
      WeakeningSafe(b, d);
    } else {
      assert d == c;
    }
    FewerSafe(d, DeleteStep(c, service, env));
  }

  /** Resources may go, and credentials be left over. */
  lemma FewerSafe(c: Cluster, b: Cluster)
    requires Safe(c) && b == c.(crs := b.crs, left := b.left)
    requires b.left <= c.issued && forall service | service in b.crs ::
          service in c.crs && b.crs[service] == c.crs[service]
    ensures Safe(b)
  {
    forall service | service in b.crs
      ensures StatusRecorded(b.secrets, b.issued, b.crs[service]) && NamesOwn(b, service)
    {
      assert StatusRecorded(c.secrets, c.issued, c.crs[service]) && NamesOwn(c, service);
    }
  }

  lemma RemovalSafe(c: Cluster, service: string)
    requires Safe(c) && service in c.crs
    ensures Safe(c.(crs := c.crs[service := c.crs[service].(deleting := true)]))
  {
    var b := c.(crs := c.crs[service := c.crs[service].(deleting := true)]);
    assert IDsKnown(b);
    forall other | other in b.crs
      ensures StatusRecorded(b.secrets, b.issued, b.crs[other]) && NamesOwn(b, other)
    {
      SameStatusSafe(c, b, other);
    }
  }

  lemma SameStatusSafe(c: Cluster, b: Cluster, service: string)
    requires Safe(c) && b == c.(crs := b.crs) && b.crs.Keys == c.crs.Keys && service in c.crs
    requires forall other | other in c.crs ::
               b.crs[other].status == c.crs[other].status && b.crs[other].recorded == c.crs[other].recorded
    ensures StatusRecorded(b.secrets, b.issued, b.crs[service]) && NamesOwn(b, service)
  {
    assert StatusRecorded(c.secrets, c.issued, c.crs[service]) && NamesOwn(c, service);
    SameNamesOwn(c, b, service);
  }

  lemma SameNamesOwn(c: Cluster, b: Cluster, service: string)
    requires b.secrets == c.secrets && b.crs.Keys == c.crs.Keys && service in c.crs && NamesOwn(c, service)
    requires forall other | other in c.crs :: b.crs[other].status == c.crs[other].status
    ensures NamesOwn(b, service)
  {
  }

  // ----- Every step and every run -----

  lemma StepSafe(c: Cluster, e: Event)
    requires Safe(c) && Possible(c, e)
    ensures Safe(Step(c, e))
  {
    match e
    case Reconcile(service, env) =>
      RotateSafe(c, service, env);
      MaintainSafe(c, service, env);
    case NewResource(service) => NewResourceSafe(c, service);
    case RequestRemoval(service) => RemovalSafe(c, service);
    case ReconcileDelete(service, env) => DeleteSafe(c, service, env);
    case _ =>
      EventWeakens(c, e);
      WeakeningSafe(c, Step(c, e));
  }

  lemma NewResourceSafe(c: Cluster, service: string)
    requires Safe(c) && service !in c.crs
    ensures Safe(c.(crs := c.crs[service := NEW_RESOURCE]))
  {
    var b := c.(crs := c.crs[service := NEW_RESOURCE]);
    OwnNameNotForeign(service, "00000");
    forall other | other in b.crs
      ensures StatusRecorded(b.secrets, b.issued, b.crs[other]) && NamesOwn(b, other)
    {
      assert other in c.crs ==> StatusRecorded(c.secrets, c.issued, c.crs[other]) && NamesOwn(c, other);
    }
  }

  lemma EventWeakens(c: Cluster, e: Event)
    requires Possible(c, e) && (e.AddFinalizer? || e.DropFinalizer? || e.RequestDelete? || e.ForceRemove?)
    ensures Weakens(c, Step(c, e))
  {
  }

  lemma {:induction false} RunSafe(c: Cluster, events: seq<Event>)
    requires Safe(c) && PossibleRun(c, events)
    ensures Safe(Run(c, events))
    decreases |events|
  {
    if events != [] {
      StepSafe(c, events[0]);
      RunSafe(Step(c, events[0]), events[1..]);
    }
  }

  // ----- What a reconcile can change -----

  /** Rotation only adds: a live credential, and at most one secret, which stores it. */
  ghost predicate OnlyAdds(c: Cluster, b: Cluster) {
    && (forall n | n in c.secrets :: Untouched(c.secrets, b.secrets, n))
    && (forall id | id in c.live :: id in b.live && b.live[id] == c.live[id])
    && (forall id | id in b.live && id !in c.live :: id in b.lost || Held(b, id))
    && c.lost <= b.lost && c.left == b.left
  }

  lemma RotateOnlyAdds(c: Cluster, service: string, env: Env)
    requires Safe(c) && Honest(c, service, env)
    ensures OnlyAdds(c, Rotate(c, service, env))
  {
    if env.client && !env.grant.Refused? {
      GrantIsNew(c, service, env);
      GrantOnlyAdds(c, service, env);
    }
  }

  lemma GrantOnlyAdds(c: Cluster, service: string, env: Env)
    requires service in c.crs && env.client && !env.grant.Refused?
    requires NotStored(c.secrets, service, env.grant.id) && env.grant.id !in c.live
    ensures OnlyAdds(c, Rotate(c, service, env))
  {
    var id, b := env.grant.id, Rotate(c, service, env);
    if id in b.live && id !in b.lost {
      assert Holder(b, id, ACSecretName(service, id));
    }
  }

  /** n is swept: a labelled secret that is not kept, whose credential is revoked. */
  ghost predicate Swept(c: Cluster, b: Cluster, service: string, env: Env, n: string)
    requires service in c.crs
  {
    && CleanupAllowed(env) && n in c.secrets && Labelled(c.secrets[n], service)
    && !Kept(n, c.secrets[n], c.crs[service].status)
    && (c.secrets[n].acID != "" ==> c.secrets[n].acID !in b.live)
  }

  /** Maintenance labels unlabelled secrets that the status names, and sweeps; it revokes only what
      it has found in a swept secret. */
  ghost predicate OnlyMaintains(c: Cluster, b: Cluster, service: string, env: Env)
    requires service in c.crs
  {
    && b.crs == c.crs && b.lost == c.lost && b.left == c.left
    && (forall id | id in b.live :: id in c.live && b.live[id] == c.live[id])
    && OnlyTouches(c, b, service, env) && OnlyRevokes(c, b, service, env)
  }

  ghost predicate OnlyTouches(c: Cluster, b: Cluster, service: string, env: Env)
    requires service in c.crs
  {
    forall n | n in c.secrets && !Untouched(c.secrets, b.secrets, n) ::
      || (&& Names(c.crs[service].status, n) && c.secrets[n].service.None?
          && n in b.secrets && b.secrets[n] == c.secrets[n].(service := Some(service)))
      || Swept(c, b, service, env, n)
  }

  ghost predicate OnlyRevokes(c: Cluster, b: Cluster, service: string, env: Env)
    requires service in c.crs
  {
    forall id | id in c.live && id !in b.live :: exists n :: Swept(c, b, service, env, n) && c.secrets[n].acID == id
  }

  lemma MaintainOnly(c: Cluster, service: string, env: Env)
    requires Safe(c) && Honest(c, service, env)
    ensures OnlyMaintains(c, Maintain(c, service, env), service, env)
  {
    var st := c.crs[service].status;
    var relabelled := Relabelled(c.secrets, st, service, env.relabels);
    RelabelOnly(c, service, env.relabels);
    if CleanupAllowed(env) && env.listing.Some? && env.client {
      SweepOnly(c.live, relabelled, env.listing.value, st, env);
      SweepableBefore(c, service, env);
      MaintainTouches(c, service, env);
      MaintainRevokes(c, service, env);
    }
  }

  lemma MaintainTouches(c: Cluster, service: string, env: Env)
    requires Safe(c) && Honest(c, service, env) && CleanupAllowed(env) && env.listing.Some? && env.client
    ensures OnlyTouches(c, Maintain(c, service, env), service, env)
  {
    var st, b := c.crs[service].status, Maintain(c, service, env);
    var relabelled := Relabelled(c.secrets, st, service, env.relabels);
    RelabelOnly(c, service, env.relabels);
    SweepOnly(c.live, relabelled, env.listing.value, st, env);
    SweepableBefore(c, service, env);
    forall n | n in c.secrets && !Untouched(c.secrets, b.secrets, n) && Untouched(relabelled, b.secrets, n)
      ensures !Untouched(c.secrets, relabelled, n)
    {
    }
  }

  lemma MaintainRevokes(c: Cluster, service: string, env: Env)
    requires Safe(c) && Honest(c, service, env) && CleanupAllowed(env) && env.listing.Some? && env.client
    ensures OnlyRevokes(c, Maintain(c, service, env), service, env)
  {
    var st, b := c.crs[service].status, Maintain(c, service, env);
    var relabelled := Relabelled(c.secrets, st, service, env.relabels);
    SweepOnly(c.live, relabelled, env.listing.value, st, env);
    SweepableBefore(c, service, env);
    forall id | id in c.live && id !in b.live
      ensures exists n :: Swept(c, b, service, env, n) && c.secrets[n].acID == id
    {
      var n :| Sweepable(relabelled, env.listing.value, st, n) && relabelled[n].acID == id;
      assert Swept(c, b, service, env, n);
    }
  }

  /** What a cleanup may sweep was already labelled, and not kept, before the relabelling. */
  lemma SweepableBefore(c: Cluster, service: string, env: Env)
    requires Safe(c) && Honest(c, service, env) && env.listing.Some?
    ensures var st := c.crs[service].status;
            var relabelled := Relabelled(c.secrets, st, service, env.relabels);
            forall n | Sweepable(relabelled, env.listing.value, st, n) ::
              && n in c.secrets && relabelled[n] == c.secrets[n] && Labelled(c.secrets[n], service)
              && !Kept(n, c.secrets[n], st)
  {
    var st := c.crs[service].status;
    var relabelled := Relabelled(c.secrets, st, service, env.relabels);
    RelabelOnly(c, service, env.relabels);
    forall n | Sweepable(relabelled, env.listing.value, st, n)
      ensures n in c.secrets && relabelled[n] == c.secrets[n] && Labelled(c.secrets[n], service)
    {
      assert Untouched(c.secrets, relabelled, n);
    }
  }

  // ----- Rotation safety -----

  /** What one event may revoke among the credentials that were live before it. A normal reconcile: only
      one whose secret is neither current nor previous and has no consumer, and only if every status that
      ever recorded it has recorded at least two more since. A delete reconcile: only one stored in a
      secret of its own service, and only if that is so for the statuses of the other services. Both only
      while the EDPM gate is open. */
  ghost predicate MayRevoke(c: Cluster, e: Event, id: string) {
    match e
    case Reconcile(service, env) =>
      && service in c.crs && !c.crs[service].deleting && GateOpen(env.annotation, env.inSync) && env.client
      && (exists n :: n in c.secrets && c.secrets[n].acID == id && Unused(n, c.secrets[n], c.crs[service].status))
      && (forall n | n in c.secrets && c.secrets[n].acID == id :: !Consumed(c.secrets[n].finalizers))
      && (forall other | other in c.crs :: Superseded(c.crs[other].recorded, id))
    case ReconcileDelete(service, env) =>
      && service in c.crs && c.crs[service].deleting && GateOpen(env.annotation, env.inSync) && env.client
      && (exists n :: n in c.secrets && c.secrets[n].acID == id && OfService(c, service, n))
      && (forall other | other in c.crs && other != service :: Superseded(c.crs[other].recorded, id))
    case _ => false
  }

  /** The secret is labelled for the service or named by its status. */
  ghost predicate OfService(c: Cluster, service: string, n: string)
    requires service in c.crs && n in c.secrets
  {
    Labelled(c.secrets[n], service) || Names(c.crs[service].status, n)
  }

  ghost predicate Superseded(recorded: seq<string>, id: string) {
    forall i | 0 <= i < |recorded| && recorded[i] == id :: i + 2 < |recorded|
  }

  /** A credential stored in a labelled secret that its service does not keep is superseded everywhere. */
  lemma UnkeptSuperseded(c: Cluster, service: string, n: string, other: string)
    requires Safe(c) && service in c.crs && other in c.crs
    requires n in c.secrets && Labelled(c.secrets[n], service) && !Kept(n, c.secrets[n], c.crs[service].status)
    requires c.secrets[n].acID != ""
    ensures Superseded(c.crs[other].recorded, c.secrets[n].acID)
  {
    var cr, id := c.crs[other], c.secrets[n].acID;
    assert StatusRecorded(c.secrets, c.issued, cr) && NamesOwn(c, other);
    assert !Names(cr.status, n);
    assert !StoredOnlyIn(c.secrets, id, cr.status.secretName);
    assert !StoredOnlyIn(c.secrets, id, cr.status.previousSecretName);
  }

  /** A credential stored in a secret of one service is superseded in every other. */
  lemma ForeignSuperseded(c: Cluster, service: string, n: string, other: string)
    requires Safe(c) && service in c.crs && other in c.crs && other != service
    requires n in c.secrets && OfService(c, service, n) && c.secrets[n].acID != ""
    ensures Superseded(c.crs[other].recorded, c.secrets[n].acID)
  {
    var cr, id := c.crs[other], c.secrets[n].acID;
    assert StatusRecorded(c.secrets, c.issued, cr) && NamesOwn(c, other);
    assert !Names(cr.status, n);
    assert !StoredOnlyIn(c.secrets, id, cr.status.secretName);
    assert !StoredOnlyIn(c.secrets, id, cr.status.previousSecretName);
  }

  lemma RevokedByCleanup(c: Cluster, service: string, env: Env, id: string)
    requires Safe(c) && Honest(c, service, env) && id in c.live && id !in NormalStep(c, service, env).live
    ensures MayRevoke(c, Reconcile(service, env), id)
  {
    RotateOnlyAdds(c, service, env);
    MaintainOnly(c, service, env);
    var n :| Swept(c, Maintain(c, service, env), service, env, n) && c.secrets[n].acID == id;
    UnusedIff(n, c.secrets[n], c.crs[service].status);
    forall other | other in c.crs
      ensures Superseded(c.crs[other].recorded, id)
    {
      UnkeptSuperseded(c, service, n, other);
    }
  }

  /** A listed secret that stores a credential was labelled for the service or named by its status before. */
  lemma ListedOfService(c: Cluster, service: string, env: DeleteEnv, id: string) returns (n: string)
    requires Safe(c) && DeleteHonest(c, service, env) && env.listing.Some?
    requires StoredIn(id, env.listing.value, c.secrets)
    ensures n in c.secrets && c.secrets[n].acID == id && OfService(c, service, n)
  {
    n :| n in env.listing.value && n in c.secrets && c.secrets[n].acID == id;
    RelabelOnly(c, service, env.relabels);
    var after := Relabelled(c.secrets, c.crs[service].status, service, env.relabels);
    assert n in after && Labelled(after[n], service);
  }

  lemma RevokedByDelete(c: Cluster, service: string, env: DeleteEnv, id: string)
    requires Safe(c) && DeleteHonest(c, service, env) && id in c.live && id !in DeleteStep(c, service, env).live
    ensures MayRevoke(c, ReconcileDelete(service, env), id)
  {
    DeleteRevokesOnce(c.live, c.secrets, c.crs[service].status, service, env);
    var n := ListedOfService(c, service, env, id);
    forall other | other in c.crs && other != service
      ensures Superseded(c.crs[other].recorded, id)
    {
      ForeignSuperseded(c, service, n, other);
    }
  }

  lemma RevokedOnlyWhenSuperseded(c: Cluster, e: Event, id: string)
    requires Safe(c) && Possible(c, e) && id in c.live
    ensures id !in Step(c, e).live ==> MayRevoke(c, e, id)
  {
    if id !in Step(c, e).live {
      if e.Reconcile? {
        RevokedByCleanup(c, e.service, e.env, id);
      } else {
        RevokedByDelete(c, e.service, e.deleteEnv, id);
      }
    }
  }

  /** Rotation safety over any run, whatever is removed by force on the way. */
  lemma RunRevokesOnlySuperseded(c: Cluster, events: seq<Event>, e: Event, id: string)
    requires Safe(c) && PossibleRun(c, events)
    ensures var b := Run(c, events);
            Possible(b, e) && id in b.live && id !in Step(b, e).live ==> MayRevoke(b, e, id)
  {
    RunSafe(c, events);
    if Possible(Run(c, events), e) && id in Run(c, events).live {
      RevokedOnlyWhenSuperseded(Run(c, events), e, id);
    }
  }

  // ----- No leaks, and the status agrees with its secret -----

  lemma MaintainHeld(c: Cluster, service: string, env: Env)
    requires Safe(c) && Honest(c, service, env) && NoneLeaked(c) && StatusAgrees(c)
    ensures NoneLeaked(Maintain(c, service, env)) && StatusAgrees(Maintain(c, service, env))
  {
    var b := Maintain(c, service, env);
    MaintainOnly(c, service, env);
    assert NamesOwn(c, service);
    forall id | Attended(b, id) && id !in b.lost
      ensures Held(b, id)
    {
      assert Attended(c, id);
      var n :| Holder(c, id, n);
      assert Holder(b, id, n);
    }
    MaintainAgrees(c, b, service, env);
  }

  lemma MaintainAgrees(c: Cluster, b: Cluster, service: string, env: Env)
    requires service in c.crs && OnlyMaintains(c, b, service, env) && StatusAgrees(c)
    requires forall other | other in c.crs :: NamesOwn(c, other)
    ensures StatusAgrees(b)
  {
    forall other | other in b.crs && !b.crs[other].deleting
      ensures Agrees(b.secrets, b.crs[other].status)
    {
      var st := c.crs[other].status;
      assert Agrees(c.secrets, st) && NamesOwn(c, other) && (st.secretName != "" ==> Names(st, st.secretName));
    }
  }

  lemma RotateHeld(c: Cluster, service: string, env: Env)
    requires Safe(c) && Honest(c, service, env) && NoneLeaked(c) && StatusAgrees(c)
    ensures NoneLeaked(Rotate(c, service, env)) && StatusAgrees(Rotate(c, service, env))
  {
    var b := Rotate(c, service, env);
    RotateOnlyAdds(c, service, env);
    RotateKeepsFlags(c, service, env);
    forall id | Attended(b, id) && id !in b.lost
      ensures Held(b, id)
    {
      if id in c.live {
        assert Attended(c, id);
        var n :| Holder(c, id, n);
        assert Untouched(c.secrets, b.secrets, n);
        assert Holder(b, id, n);
      }
    }
    RotateAgrees(c, service, env);
  }

  lemma RotateKeepsFlags(c: Cluster, service: string, env: Env)
    requires service in c.crs
    ensures forall other :: Dissolving(Rotate(c, service, env), other) <==> Dissolving(c, other)
  {
  }

  /** If a rotation is recorded, the new secret is there. */
  lemma RotateRecords(c: Cluster, service: string, env: Env)
    requires service in c.crs && env.client && !env.grant.Refused? && NotStored(c.secrets, service, env.grant.id)
    ensures var b := Rotate(c, service, env);
            b.crs == c.crs || (
            && b.crs.Keys == c.crs.Keys && (forall other | other in c.crs && other != service ::
                  b.crs[other] == c.crs[other])
            && Agrees(b.secrets, b.crs[service].status))
  {
  }

  lemma RotateAgrees(c: Cluster, service: string, env: Env)
    requires Safe(c) && Honest(c, service, env) && StatusAgrees(c)
    ensures StatusAgrees(Rotate(c, service, env))
  {
    var b := Rotate(c, service, env);
    RotateOnlyAdds(c, service, env);
    if env.client && !env.grant.Refused? {
      GrantIsNew(c, service, env);
      RotateRecords(c, service, env);
    }
    forall other | other in b.crs && other in c.crs && b.crs[other] == c.crs[other] && !b.crs[other].deleting
      ensures Agrees(b.secrets, b.crs[other].status)
    {
      assert Agrees(c.secrets, c.crs[other].status);
    }
  }

  lemma OutsideHeld(c: Cluster, e: Event)
    requires Possible(c, e) && !e.Reconcile? && !e.ReconcileDelete? && !e.ForceRemove? && NoneLeaked(c)
        && StatusAgrees(c)
    ensures NoneLeaked(Step(c, e)) && StatusAgrees(Step(c, e))
  {
    var b := Step(c, e);
    forall n | n in c.secrets && PROTECTION in c.secrets[n].finalizers
      ensures n in b.secrets && SameIdentity(c.secrets[n], b.secrets[n]) && PROTECTION in b.secrets[n].finalizers
    {
      ProtectedStays(c, e, n);
    }
    forall id | Attended(b, id) && id !in b.lost
      ensures Held(b, id)
    {
      assert Attended(c, id);
      var n :| Holder(c, id, n);
      assert Holder(b, id, n);
    }
    forall service | service in b.crs && !b.crs[service].deleting
      ensures Agrees(b.secrets, b.crs[service].status)
    {
      assert service in c.crs ==> Agrees(c.secrets, c.crs[service].status);
    }
  }

  /** Nothing short of force removes a protected secret. */
  lemma ProtectedStays(c: Cluster, e: Event, n: string)
    requires Possible(c, e) && !e.Reconcile? && !e.ReconcileDelete? && !e.ForceRemove?
    requires n in c.secrets && PROTECTION in c.secrets[n].finalizers
    ensures var b := Step(c, e);
            n in b.secrets && SameIdentity(c.secrets[n], b.secrets[n]) && PROTECTION in b.secrets[n].finalizers
  {
  }

  lemma AttendedElsewhere(c: Cluster, service: string, env: DeleteEnv, id: string)
    requires DeleteHonest(c, service, env) && Attended(DeleteStep(c, service, env), id)
    requires var b := DeleteStep(c, service, env); id in b.live ==> id in c.live && b.live[id] == c.live[id]
    ensures Attended(c, id) && c.live[id] != service
  {
  }

  lemma OthersHeld(c: Cluster, b: Cluster, service: string)
    requires OthersAlone(c, b, service) && NoneLeaked(c) && b.lost == c.lost
    requires forall id | Attended(b, id) :: Attended(c, id) && c.live[id] != service
    ensures NoneLeaked(b)
  {
    forall id | Attended(b, id) && id !in b.lost
      ensures Held(b, id)
    {
      var n :| Holder(c, id, n);
      assert Holder(b, id, n);
    }
  }

  lemma OthersAgree(c: Cluster, b: Cluster, service: string)
    requires OthersAlone(c, b, service) && StatusAgrees(c)
    requires forall other | other in b.crs && !b.crs[other].deleting :: other != service && other in c.crs
    ensures StatusAgrees(b)
  {
    forall other | other in b.crs && !b.crs[other].deleting
      ensures Agrees(b.secrets, b.crs[other].status)
    {
      var st := c.crs[other].status;
      assert Agrees(c.secrets, st);
      assert st.secretName != "" ==> Names(st, st.secretName) && NamedElsewhere(c, service, st.secretName);
    }
  }

  lemma DeleteHeld(c: Cluster, service: string, env: DeleteEnv)
    requires Safe(c) && DeleteHonest(c, service, env) && NoneLeaked(c) && StatusAgrees(c)
    ensures NoneLeaked(DeleteStep(c, service, env)) && StatusAgrees(DeleteStep(c, service, env))
  {
    var b := DeleteStep(c, service, env);
    DeleteIsolated(c, service, env);
    forall id | Attended(b, id)
      ensures Attended(c, id) && c.live[id] != service
    {
      AttendedElsewhere(c, service, env, id);
    }
    OthersHeld(c, b, service);
    OthersAgree(c, b, service);
  }

  lemma StepHeld(c: Cluster, e: Event)
    requires Safe(c) && Possible(c, e) && !e.ForceRemove? && NoneLeaked(c) && StatusAgrees(c)
    ensures NoneLeaked(Step(c, e)) && StatusAgrees(Step(c, e))
  {
    match e
    case Reconcile(service, env) =>
      RotateHeld(c, service, env);
      MaintainHeld(c, service, env);
    case ReconcileDelete(service, env) => DeleteHeld(c, service, env);
    case _ => OutsideHeld(c, e);
  }

  /** As long as nobody removes secrets by force, the attended credentials that are not held in a protected
      secret of their service are exactly the lost ones: those that Keystone created without saying so, and
      those that could neither be stored nor revoked. That covers runs in which users ask for secrets to be
      deleted, status patches are lost, secret names collide, cleanups stop half-way and resources come and
      go. And in every state the status of a resource agrees with its secret. */
  lemma {:induction false} RunHeld(c: Cluster, events: seq<Event>)
    requires Safe(c) && NoneLeaked(c) && StatusAgrees(c) && PossibleRun(c, events)
    requires forall e | e in events :: !e.ForceRemove?
    ensures NoneLeaked(Run(c, events)) && StatusAgrees(Run(c, events))
    ensures forall id | Attended(Run(c, events), id) :: Held(Run(c, events), id) <==> id !in Run(c, events).lost
    decreases |events|
  {
    if events == [] {
      HeldIff(c);
    } else {
      assert events[0] in events;
      assert forall e | e in events[1..] :: e in events;
      StepSafe(c, events[0]);
      StepHeld(c, events[0]);
      RunHeld(Step(c, events[0]), events[1..]);
    }
  }

  lemma HeldIff(c: Cluster)
    requires Safe(c) && NoneLeaked(c)
    ensures forall id | Attended(c, id) :: Held(c, id) <==> id !in c.lost
  {
    forall id | Held(c, id)
      ensures id !in c.lost
    {
      var n :| Holder(c, id, n);
      assert id in c.lost ==> Unstored(c.secrets, id);
    }
  }

  /** The reconcile that loses a credential. */
  ghost predicate Loses(c: Cluster, service: string, env: Env) {
    && service in c.crs && (c.crs[service].status.secretName != "" ==> env.readsCurrent)
    && RotationNeeded(c, c.crs[service].status, env) && env.client
    && (env.grant.Unseen? ||
        (env.grant.Granted? && !env.compensates
         && (env.create.Failed? || (ACSecretName(service, env.grant.id) in c.secrets))))
  }

  /** A step loses a credential exactly if it is a reconcile in which Keystone creates one without saying
      so, or in which the secret cannot be stored and the credential not revoked; and then just that one. */
  lemma LostIff(c: Cluster, e: Event)
    requires Safe(c) && Possible(c, e)
    ensures Step(c, e).lost == c.lost + (if e.Reconcile? && Loses(c, e.service, e.env) then {e.env.grant.id} else {})
  {
    if e.Reconcile? && e.env.grant.Granted? {
      GrantIsNew(c, e.service, e.env);
    }
    assert c.lost + {} == c.lost;
  }

  // ----- Isolation -----

  /** The secrets labelled for other services or named by their statuses, these statuses, and the
      credentials the other services hold are the same. */
  ghost predicate OthersAlone(c: Cluster, b: Cluster, service: string) {
    && (forall n | n in c.secrets && c.secrets[n].service.Some? && c.secrets[n].service.value != service ::
          Untouched(c.secrets, b.secrets, n))
    && (forall n | n in c.secrets && NamedElsewhere(c, service, n) :: Untouched(c.secrets, b.secrets, n))
    && (forall other | other in c.crs && other != service :: other in b.crs && b.crs[other] == c.crs[other])
    && (forall id, n | Holder(c, id, n) && c.live[id] != service :: Holder(b, id, n))
  }

  /** The status of another service names the secret. */
  ghost predicate NamedElsewhere(c: Cluster, service: string, n: string) {
    exists other :: other in c.crs && other != service && Names(c.crs[other].status, n)
  }

  lemma NamedElsewhereOnly(c: Cluster, service: string, n: string)
    requires Safe(c) && service in c.crs && n in c.secrets && NamedElsewhere(c, service, n)
    ensures !OfService(c, service, n)
  {
    var other :| other in c.crs && other != service && Names(c.crs[other].status, n);
    assert NamesOwn(c, other);
  }

  lemma AddsIsolated(c: Cluster, b: Cluster, service: string)
    requires OnlyAdds(c, b)
    requires forall other | other in c.crs && other != service :: other in b.crs && b.crs[other] == c.crs[other]
    ensures OthersAlone(c, b, service)
  {
    forall id, n | Holder(c, id, n)
      ensures Holder(b, id, n)
    {
      assert Untouched(c.secrets, b.secrets, n);
    }
  }

  lemma RotateKeepsOthers(c: Cluster, service: string, env: Env)
    requires service in c.crs
    ensures var b := Rotate(c, service, env);
            forall other | other in c.crs && other != service :: other in b.crs && b.crs[other] == c.crs[other]
  {
  }

  lemma RotateIsolated(c: Cluster, service: string, env: Env)
    requires Safe(c) && Honest(c, service, env)
    ensures OthersAlone(c, Rotate(c, service, env), service)
  {
    RotateOnlyAdds(c, service, env);
    RotateKeepsOthers(c, service, env);
    AddsIsolated(c, Rotate(c, service, env), service);
  }

  lemma MaintainIsolated(c: Cluster, service: string, env: Env)
    requires Safe(c) && Honest(c, service, env)
    ensures OthersAlone(c, Maintain(c, service, env), service)
  {
    var b := Maintain(c, service, env);
    MaintainOnly(c, service, env);
    forall id, n | Holder(c, id, n) && c.live[id] != service
      ensures Holder(b, id, n)
    {
      assert Untouched(c.secrets, b.secrets, n);
      assert id in b.live;
    }
    forall n | n in c.secrets && NamedElsewhere(c, service, n)
      ensures Untouched(c.secrets, b.secrets, n)
    {
      NamedElsewhereOnly(c, service, n);
    }
  }

  /** A reconcile for one service leaves the other services alone. */
  lemma ServicesIsolated(c: Cluster, service: string, env: Env)
    requires Safe(c) && Honest(c, service, env)
    ensures OthersAlone(c, Step(c, Reconcile(service, env)), service)
  {
    RotateIsolated(c, service, env);
    MaintainIsolated(c, service, env);
  }

  /** So does deleting the resource of one service. */
  lemma DeleteIsolated(c: Cluster, service: string, env: DeleteEnv)
    requires Safe(c) && DeleteHonest(c, service, env)
    ensures var b := DeleteStep(c, service, env);
            && OthersAlone(c, b, service)
            && (forall id | id in b.live :: id in c.live && b.live[id] == c.live[id])
  {
    var b, st := DeleteStep(c, service, env), c.crs[service].status;
    DeleteLeavesOthers(c.live, c.secrets, st, service, env);
    DeleteRevokesOnce(c.live, c.secrets, st, service, env);
    assert NamesOwn(c, service);
    forall n | n in c.secrets && NamedElsewhere(c, service, n)
      ensures Untouched(c.secrets, b.secrets, n)
    {
      NamedElsewhereOnly(c, service, n);
    }
    forall id, n | Holder(c, id, n) && c.live[id] != service
      ensures Holder(b, id, n)
    {
      if id !in b.live {
        var m := ListedOfService(c, service, env, id);
        assert false;
      }
    }
  }
}
