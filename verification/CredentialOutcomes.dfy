/** What each reconcile of an application credential achieves, in terms of the spec, the clock and the
    outcomes of its calls; and that recorded credentials exist in Keystone. */
module CredentialOutcomes {
  import opened Sequences
  import opened Wrappers
  import opened CredentialNames
  import opened CredentialClock
  import opened CredentialModel
  import opened CredentialCleanup
  import opened CredentialDeletion
  import opened CredentialSafety

  // ----- Creating and rotating -----

  /** The grace period in nanoseconds, exact for up to 106751 days. */
  function Grace(days: int): int {
    if 0 <= days <= 106_751 then days * 86_400 * 1_000_000_000 else Days(days)
  }

  lemma GraceIsDays(days: int)
    ensures Grace(days) == Days(days)
  {
    if 0 <= days {
      DaysExactIff(days);
    }
  }

  /** The resource has no credential yet, its roles or rules have changed, the credential is about to
      expire, or its secret is missing. */
  ghost predicate Wants(secrets: Secrets, st: Status, env: Env) {
    || st.acID == ""
    || (st.securityHash != "" && st.securityHash != env.securityHash)
    || (st.expiresAt.Some? && st.expiresAt.value - Grace(env.graceDays) < env.now)
    || (st.secretName != "" && st.secretName !in secrets)
  }

  /** The reconcile finds that out and asks Keystone, which creates a credential. */
  ghost predicate Creates(secrets: Secrets, st: Status, env: Env) {
    && Wants(secrets, st, env) && (st.secretName == "" || env.readsCurrent)
    && env.client && !env.grant.Refused?
  }

  /** And its secret can be created and the status patched. */
  ghost predicate Records(secrets: Secrets, service: string, st: Status, env: Env) {
    && Creates(secrets, st, env) && env.grant.Granted? && |env.grant.id| >= 5
    && SecretFor(service, env.grant.id) !in secrets && env.create.Done? && env.persists
  }

  function SecretFor(service: string, id: string): string
    requires |id| >= 5
  {
    "ac-" + service + "-" + id[..5] + "-secret"
  }

  lemma SecretForIs(service: string, id: string)
    requires |id| >= 5
    ensures SecretFor(service, id) == ACSecretName(service, id)
  {
    assert id[..5] == if |id| > 5 then id[..5] else id;
  }

  lemma WantsIff(c: Cluster, service: string, env: Env)
    requires service in c.crs
    ensures var st := c.crs[service].status;
            && (Wants(c.secrets, st, env) <==> RotationNeeded(c, st, env))
            && (Wants(c.secrets, st, env) && (st.secretName == "" || env.readsCurrent) ==>
                  NormalStep(c, service, env) == Rotate(c, service, env))
            && (!Creates(c.secrets, st, env) ==>
                  NormalStep(c, service, env) == c || NormalStep(c, service, env) == Maintain(c, service, env))
  {
    GraceIsDays(env.graceDays);
  }

  /** What the status is after recording a credential. */
  function Replaced(cr: CR, service: string, env: Env): CR
    requires env.grant.Granted? && |env.grant.id| >= 5
  {
    var (st, id, expiresAt) := (cr.status, env.grant.id, env.grant.expiresAt);
    var previous := if st.acID != "" && st.secretName != "" then st.secretName else st.previousSecretName;
    CR(Status(id, SecretFor(service, id), previous, Some(expiresAt - expiresAt % 1_000_000_000), env.securityHash),
       cr.recorded + [id], cr.deleting)
  }

  /** The status changes exactly if a credential is recorded: the first one, or one that replaces what was
      current, with the expiry that Keystone granted, to the second, and the current roles and rules. */
  lemma ReconcileRecords(c: Cluster, service: string, env: Env)
    requires Safe(c) && Honest(c, service, env)
    ensures Step(c, Reconcile(service, env)).crs ==
            if Records(c.secrets, service, c.crs[service].status, env)
            then c.crs[service := Replaced(c.crs[service], service, env)] else c.crs
  {
    if Creates(c.secrets, c.crs[service].status, env) {
      GrantIsNew(c, service, env);
      CreateRecords(c, service, env);
    } else {
      WantsIff(c, service, env);
    }
  }

  lemma CreateRecords(c: Cluster, service: string, env: Env)
    requires Honest(c, service, env) && Creates(c.secrets, c.crs[service].status, env)
    requires NotStored(c.secrets, service, env.grant.id)
    ensures NormalStep(c, service, env).crs ==
            if Records(c.secrets, service, c.crs[service].status, env)
            then c.crs[service := Replaced(c.crs[service], service, env)] else c.crs
  {
    WantsIff(c, service, env);
    SecretForIs(service, env.grant.id);
    RotateRecordsIs(c, service, env);
  }

  lemma RotateRecordsIs(c: Cluster, service: string, env: Env)
    requires service in c.crs && env.client && !env.grant.Refused? && NotStored(c.secrets, service, env.grant.id)
    ensures var (cr, id) := (c.crs[service], env.grant.id);
            Rotate(c, service, env).crs ==
            if env.grant.Granted? && ACSecretName(service, id) !in c.secrets && env.create.Done? && env.persists
            then c.crs[service := RecordedCR(cr, id, env.grant.expiresAt, service, env)]
            else c.crs
  {
  }

  /** Which credentials are created and stay, and what is stored: a secret under the service's name for the
      ID, labelled and protected. One that cannot be stored is revoked again if that works. */
  lemma ReconcileCreates(c: Cluster, service: string, env: Env)
    requires Safe(c) && Honest(c, service, env) && Creates(c.secrets, c.crs[service].status, env)
    ensures var (id, b) := (env.grant.id, Step(c, Reconcile(service, env)));
            var (n, known) := (SecretFor(service, id), env.grant.Granted?);
            && b.live == (if known && (n in c.secrets || !env.create.Done?) && env.compensates
                          then c.live else c.live[id := service])
            && b.issued == c.issued + {id}
            && b.secrets == (if known && n !in c.secrets && !env.create.Failed?
                             then c.secrets[n := Secret(true, Some(service), id, {"openstack.org/ac-secret-protection"},
                                                        false)]
                             else c.secrets)
  {
    WantsIff(c, service, env);
    GrantIsNew(c, service, env);
    SecretForIs(service, env.grant.id);
  }

  // ----- Maintenance -----

  /** A reconcile that finds nothing to create. */
  ghost predicate Maintains(secrets: Secrets, st: Status, env: Env) {
    !Wants(secrets, st, env) && (st.secretName == "" || env.readsCurrent)
  }

  lemma MaintainsIs(c: Cluster, service: string, env: Env)
    requires service in c.crs && Maintains(c.secrets, c.crs[service].status, env)
    ensures NormalStep(c, service, env) == Maintain(c, service, env)
  {
    WantsIff(c, service, env);
  }

  /** A secret after its label update, if that takes effect. */
  function Relabel1(s: Secret, n: string, service: string, relabels: set<string>): Secret {
    if n in relabels then s.(service := Some(service)) else s
  }

  lemma RelabelledAre(secrets: Secrets, status: Status, service: string, relabels: set<string>)
    ensures var b := Relabelled(secrets, status, service, relabels);
            && b.Keys == secrets.Keys
            && forall n | n in secrets ::
                 b[n] == if Names(status, n) then Relabel1(secrets[n], n, service, relabels) else secrets[n]
  {
  }

  /** A secret that maintenance may remove: labelled for the service, unused, and the gate is open. */
  ghost predicate Removable(n: string, s: Secret, service: string, status: Status, env: Env) {
    && Labelled(s, service) && Unused(n, s, status)
    && GateOpen(env.annotation, env.inSync) && env.client && env.listing.Some?
  }

  /** Whatever fails, all other secrets stay, and those that the status names are labelled for the service
      if the update works. */
  lemma MaintainKeeps(c: Cluster, service: string, env: Env)
    requires Safe(c) && Honest(c, service, env) && Maintains(c.secrets, c.crs[service].status, env)
    ensures var (st, b) := (c.crs[service].status, Step(c, Reconcile(service, env)));
            forall n | n in c.secrets && !Removable(n, c.secrets[n], service, st, env) ::
              && n in b.secrets
              && b.secrets[n] == if Names(st, n) then Relabel1(c.secrets[n], n, service, env.relabels) else c.secrets[n]
  {
    var st := c.crs[service].status;
    var secrets := Relabelled(c.secrets, st, service, env.relabels);
    MaintainsIs(c, service, env);
    RelabelledAre(c.secrets, st, service, env.relabels);
    if CleanupAllowed(env) && env.listing.Some? && env.client {
      SweepOnly(c.live, secrets, env.listing.value, st, env);
      SweepableRemovable(c, service, env);
    }
  }

  lemma SweepableRemovable(c: Cluster, service: string, env: Env)
    requires Safe(c) && Honest(c, service, env) && CleanupAllowed(env) && env.listing.Some? && env.client
    ensures var st := c.crs[service].status;
            var secrets := Relabelled(c.secrets, st, service, env.relabels);
            forall n | n in c.secrets && Sweepable(secrets, env.listing.value, st, n) ::
              Removable(n, c.secrets[n], service, st, env)
  {
    var st := c.crs[service].status;
    var secrets := Relabelled(c.secrets, st, service, env.relabels);
    SweepableBefore(c, service, env);
    forall n | n in c.secrets && Sweepable(secrets, env.listing.value, st, n)
      ensures Removable(n, c.secrets[n], service, st, env)
    {
      UnusedIff(n, c.secrets[n], st);
    }
  }

  /** A reconcile that can neither create nor maintain changes nothing. */
  lemma ReconcileWaits(c: Cluster, service: string, env: Env)
    requires service in c.crs
    requires !Creates(c.secrets, c.crs[service].status, env) && !Maintains(c.secrets, c.crs[service].status, env)
    ensures Step(c, Reconcile(service, env)) == c
  {
    WantsIff(c, service, env);
  }

  ghost predicate SweepsWork(env: Env) {
    env.client && env.listing.Some? && env.revokeFails == {} && env.updateFails == {} && env.deleteFails == {}
  }

  lemma {:induction false} SweepWorks(live: map<string, string>, secrets: Secrets, names: seq<string>,
                                      status: Status, env: Env)
    requires SweepsWork(env)
    ensures Sweep(live, secrets, names, status, env).ok
    decreases |names|
  {
    if names != [] {
      if names[0] !in secrets {
        SweepWorks(live, secrets, names[1..], status, env);
      } else {
        var one := SweepOne(live, secrets, names[0], status, env);
        SweepWorks(one.live, one.secrets, names[1..], status, env);
      }
    }
  }

  /** While the gate is open and the calls work, of the service's secrets the used ones stay as they are;
      the others go, unless somebody else's finalizer keeps them, and their credentials are revoked. */
  lemma MaintainSweeps(c: Cluster, service: string, env: Env)
    requires Safe(c) && Honest(c, service, env) && Maintains(c.secrets, c.crs[service].status, env)
    requires GateOpen(env.annotation, env.inSync) && SweepsWork(env)
    ensures var (st, b) := (c.crs[service].status, Step(c, Reconcile(service, env)));
            forall n | n in c.secrets && Labelled(c.secrets[n], service) ::
              if Unused(n, c.secrets[n], st)
              then Gone(c.secrets[n], b.secrets, n) && (c.secrets[n].acID != "" ==> c.secrets[n].acID !in b.live)
              else Untouched(c.secrets, b.secrets, n)
  {
    var st, names := c.crs[service].status, env.listing.value;
    var secrets := Relabelled(c.secrets, st, service, env.relabels);
    MaintainsIs(c, service, env);
    RelabelledAre(c.secrets, st, service, env.relabels);
    SweepWorks(c.live, secrets, names, st, env);
    SweepOnly(c.live, secrets, names, st, env);
    SweepComplete(c.live, secrets, names, st, env);
    forall n | n in c.secrets && Labelled(c.secrets[n], service)
      ensures n in names && secrets[n] == c.secrets[n]
      ensures Unused(n, c.secrets[n], st) <==> Sweepable(secrets, names, st, n)
    {
      UnusedIff(n, c.secrets[n], st);
    }
  }

  // ----- When nothing fails -----

  /** The calls of one reconcile work, and no other secret has the name of the new one. */
  ghost predicate Smooth(c: Cluster, service: string, env: Env) {
    && Honest(c, service, env) && env.readsCurrent && env.client && env.create.Done? && env.persists
    && env.grant.Granted? && SecretFor(service, env.grant.id) !in c.secrets
  }

  /** After such a reconcile the resource has a credential with the current roles and rules, stored in a
      secret that is there; and if it is not a new one, its grace period has not begun. */
  lemma SmoothProvides(c: Cluster, service: string, env: Env)
    requires Safe(c) && Smooth(c, service, env)
    ensures var (a, b) := (c.crs[service], Step(c, Reconcile(service, env)));
            && service in b.crs && b.crs[service].status.acID != ""
            && b.crs[service].status.secretName in b.secrets
            && (b.crs[service].status.securityHash == "" || b.crs[service].status.securityHash == env.securityHash)
            && (b.crs[service].recorded == a.recorded + [env.grant.id] ||
                (&& b.crs[service] == a
                 && (a.status.expiresAt.Some? ==> env.now <= a.status.expiresAt.value - Grace(env.graceDays))))
  {
    var st, b := c.crs[service].status, Step(c, Reconcile(service, env));
    assert StatusRecorded(c.secrets, c.issued, c.crs[service]);
    ReconcileRecords(c, service, env);
    if Creates(c.secrets, st, env) {
      ReconcileCreates(c, service, env);
    } else {
      MaintainKeeps(c, service, env);
    }
  }

  // ----- Deletion -----

  /** Removing the protection from this secret fails. */
  ghost predicate Blocked(secrets: Secrets, n: string, env: DeleteEnv) {
    n in secrets && "openstack.org/ac-secret-protection" in secrets[n].finalizers && n in env.updateFails
  }

  lemma UnprotectOkIff(d: Deletion, n: string, env: DeleteEnv)
    requires n in d.secrets
    ensures var e := Unprotect(Revoke(d, n, env), n, env);
            && (e.ok <==> d.ok && !Blocked(d.secrets, n, env))
            && (e.ok ==> !Blocked(e.secrets, n, env))
            && (forall m | m != n :: Blocked(e.secrets, m, env) <==> Blocked(d.secrets, m, env))
  {
  }

  lemma {:induction false} PassOkIff(d: Deletion, names: seq<string>, env: DeleteEnv)
    ensures Pass(d, names, env).ok <==> d.ok && forall n | n in names :: !Blocked(d.secrets, n, env)
    decreases |names|
  {
    if names != [] && d.ok {
      var n, rest := names[0], names[1..];
      assert forall m :: m in names <==> m == n || m in rest;
      if n in d.secrets {
        var e := Unprotect(Revoke(d, n, env), n, env);
        UnprotectOkIff(d, n, env);
        PassOkIff(e, rest, env);
        forall m | m != n || e.ok
          ensures Blocked(e.secrets, m, env) <==> Blocked(d.secrets, m, env)
        {
        }
      } else {
        PassOkIff(d, rest, env);
      }
    }
  }

  lemma FallbackOkIff(d: Deletion, n: string, processed: seq<string>, env: DeleteEnv)
    ensures Fallback(d, n, processed, env).ok <==>
            d.ok && (n == "" || n in processed || (n !in env.fetchFails && !Blocked(d.secrets, n, env)))
  {
  }

  /** A delete gets through exactly if the gate is open, the secrets can be listed, and none of them and of
      those that the status names resists. Neither a missing client nor failing revocations stop it. */
  lemma DeleteOkIff(live: map<string, string>, secrets: Secrets, status: Status, service: string, env: DeleteEnv)
    ensures Delete(live, secrets, status, service, env).ok <==>
            && GateOpen(env.annotation, env.inSync) && env.listing.Some?
            && (forall n | n in env.listing.value :: !Blocked(secrets, n, env))
            && (forall n | Names(status, n) && n !in env.listing.value ::
                  n !in env.fetchFails && !Blocked(secrets, n, env))
  {
    if GateOpen(env.annotation, env.inSync) && env.listing.Some? {
      var (s1, s2, names) := (status.secretName, status.previousSecretName, env.listing.value);
      var d := Deletion(live, Relabelled(secrets, status, service, env.relabels), [], true);
      var p := Pass(d, names, env);
      var f := Fallback(p, s1, names, env);
      RelabelledAre(secrets, status, service, env.relabels);
      assert forall n :: Blocked(d.secrets, n, env) <==> Blocked(secrets, n, env);
      PassOkIff(d, names, env);
      PassStrips(d, names, env);
      FallbackOkIff(p, s1, names, env);
      FallbackStrips(p, s1, names, env);
      FallbackOkIff(f, s2, names, env);
      assert forall n | n !in names :: Blocked(p.secrets, n, env) <==> Blocked(secrets, n, env);
      assert forall n | n !in names && n != s1 :: Blocked(f.secrets, n, env) <==> Blocked(secrets, n, env);
    }
  }

  /** Behind the open gate a delete labels the secrets that the status names, if the updates work. */
  lemma DeleteLabels(live: map<string, string>, secrets: Secrets, status: Status, service: string, env: DeleteEnv)
    requires GateOpen(env.annotation, env.inSync)
    ensures var r := Delete(live, secrets, status, service, env);
            forall n | n in r.secrets ::
              && n in secrets && r.secrets[n].service ==
                 if Names(status, n) then Relabel1(secrets[n], n, service, env.relabels).service
                 else secrets[n].service
  {
    RelabelledAre(secrets, status, service, env.relabels);
    if env.listing.Some? {
      DeleteStrips(Deletion(live, Relabelled(secrets, status, service, env.relabels), [], true), status,
                   env.listing.value, env);
    }
  }

  /** The resource goes exactly if its delete gets through and is patched; its credentials that could not be
      revoked are then left over, and no others. */
  lemma DeleteRemovesIff(c: Cluster, service: string, env: DeleteEnv)
    requires service in c.crs
    ensures var b := Step(c, ReconcileDelete(service, env));
            var gone := Delete(c.live, c.secrets, c.crs[service].status, service, env).ok && env.persists;
            && b.crs == (if gone then c.crs - {service} else c.crs)
            && b.left == c.left + (if gone then set id | id in b.live && b.live[id] == service else {})
  {
    assert c.left + {} == c.left;
  }

  // ----- Recorded credentials exist -----

  /** The last two recorded credentials of every resource that is not being deleted are live, and the
      service's. */
  ghost predicate RecordedLive(c: Cluster) {
    forall service | service in c.crs && !c.crs[service].deleting ::
      LastTwoLive(c.live, c.crs[service].recorded, service)
  }

  ghost predicate LastTwoLive(live: map<string, string>, recorded: seq<string>, service: string) {
    forall i | 0 <= i < |recorded| && i + 2 >= |recorded| ::
      recorded[i] in live && live[recorded[i]] == service
  }

  /** Credentials that are not superseded are never revoked by what others do. */
  lemma RecordedStay(c: Cluster, e: Event, service: string)
    requires Safe(c) && Possible(c, e) && RecordedLive(c) && service in c.crs && !c.crs[service].deleting
    ensures LastTwoLive(Step(c, e).live, c.crs[service].recorded, service)
  {
    var r := c.crs[service].recorded;
    forall i | 0 <= i < |r| && i + 2 >= |r|
      ensures r[i] in Step(c, e).live && Step(c, e).live[r[i]] == service
    {
      LiveKept(c, e, r[i]);
      RevokedOnlyWhenSuperseded(c, e, r[i]);
      assert !Superseded(r, r[i]);
    }
  }

  /** Nobody takes over a live credential. */
  lemma LiveKept(c: Cluster, e: Event, id: string)
    requires Safe(c) && Possible(c, e) && id in c.live
    ensures id in Step(c, e).live ==> Step(c, e).live[id] == c.live[id]
  {
    match e
    case Reconcile(service, env) =>
      RotateOnlyAdds(c, service, env);
      MaintainOnly(c, service, env);
    case ReconcileDelete(service, env) => DeleteIsolated(c, service, env);
    case _ =>
  }

  lemma StepRecordedLive(c: Cluster, e: Event)
    requires Safe(c) && Possible(c, e) && RecordedLive(c)
    ensures RecordedLive(Step(c, e))
  {
    var b := Step(c, e);
    forall service | service in b.crs && !b.crs[service].deleting
      ensures LastTwoLive(b.live, b.crs[service].recorded, service)
    {
      if service in c.crs && !c.crs[service].deleting {
        RecordedStay(c, e, service);
        if e.Reconcile? && e.service == service {
          NewRecordedLive(c, service, e.env);
        } else {
          RecordKept(c, e, service);
        }
      } else {
        NewlyThere(c, e, service);
      }
    }
  }

  lemma NewlyThere(c: Cluster, e: Event, service: string)
    requires Possible(c, e) && (service in c.crs ==> c.crs[service].deleting)
    requires service in Step(c, e).crs && !Step(c, e).crs[service].deleting
    ensures Step(c, e).crs[service].recorded == []
  {
    if e.Reconcile? {
      RotateKeepsOthers(c, e.service, e.env);
    }
  }

  lemma RecordKept(c: Cluster, e: Event, service: string)
    requires Possible(c, e) && service in c.crs && service in Step(c, e).crs && !(e.Reconcile? && e.service == service)
    ensures Step(c, e).crs[service].recorded == c.crs[service].recorded
  {
    if e.Reconcile? {
      RotateKeepsOthers(c, e.service, e.env);
    }
  }

  lemma NewRecordedLive(c: Cluster, service: string, env: Env)
    requires Safe(c) && Honest(c, service, env)
    requires LastTwoLive(Step(c, Reconcile(service, env)).live, c.crs[service].recorded, service)
    ensures var b := Step(c, Reconcile(service, env));
            service in b.crs && LastTwoLive(b.live, b.crs[service].recorded, service)
  {
    ReconcileRecords(c, service, env);
    if Records(c.secrets, service, c.crs[service].status, env) {
      ReconcileCreates(c, service, env);
    }
  }

  /** In every state of every run, forced removals of secrets included, the current and the previous
      credential of each resource exist in Keystone until the resource is deleted. */
  lemma {:induction false} RunRecordedLive(c: Cluster, events: seq<Event>)
    requires Safe(c) && RecordedLive(c) && PossibleRun(c, events)
    ensures RecordedLive(EMPTY) && RecordedLive(Run(c, events))
    decreases |events|
  {
    if events != [] {
      StepSafe(c, events[0]);
      StepRecordedLive(c, events[0]);
      RunRecordedLive(Step(c, events[0]), events[1..]);
    }
  }
}
