/** When the secret that a status names, if it is there, stores the credential that the status records,
    even if secrets are removed by force. */
module CredentialAgreement {
  import opened Wrappers
  import opened CredentialNames
  import opened CredentialModel
  import opened CredentialCleanup
  import opened CredentialDeletion
  import opened CredentialSafety

  ghost predicate Consistent(secrets: Secrets, st: Status) {
    st.secretName in secrets ==> secrets[st.secretName].acID == st.acID
  }

  ghost predicate Agreement(c: Cluster) {
    forall service | service in c.crs :: Consistent(c.secrets, c.crs[service].status)
  }

  /** The current secret is missing, its replacement collides with its name - the first five characters of
      the IDs agree - and is stored, but not recorded: creating it reported an error, or the status patch is
      lost. */
  ghost predicate Clashes(c: Cluster, service: string, env: Env) {
    && service in c.crs && c.crs[service].status.secretName != "" && c.crs[service].status.secretName !in c.secrets
    && env.readsCurrent && env.client && env.grant.Granted?
    && ACSecretName(service, env.grant.id) == c.crs[service].status.secretName
    && (env.create.DoneButFailed? || (env.create.Done? && !env.persists))
  }

  /** Secrets and statuses that only keep or lose what they had keep the agreement. */
  lemma KeepingAgrees(c: Cluster, b: Cluster)
    requires Agreement(c)
    requires forall n | n in b.secrets :: n in c.secrets && b.secrets[n].acID == c.secrets[n].acID
    requires forall service | service in b.crs :: service in c.crs && b.crs[service].status == c.crs[service].status
    ensures Agreement(b)
  {
    forall service | service in b.crs
      ensures Consistent(b.secrets, b.crs[service].status)
    {
      assert Consistent(c.secrets, c.crs[service].status);
    }
  }

  lemma MaintainConsistent(c: Cluster, service: string, env: Env)
    requires Safe(c) && Honest(c, service, env) && Agreement(c)
    ensures Agreement(Maintain(c, service, env))
  {
    RelabelOnly(c, service, env.relabels);
    CleanupWeakens(c, service, env);
    var b := Maintain(c, service, env);
    var relabelled := Relabelled(c.secrets, c.crs[service].status, service, env.relabels);
    forall n | n in b.secrets
      ensures n in c.secrets && b.secrets[n].acID == c.secrets[n].acID
    {
      assert n in relabelled && (Untouched(c.secrets, relabelled, n) || relabelled[n].acID == c.secrets[n].acID);
    }
    KeepingAgrees(c, b);
  }

  lemma DeleteConsistent(c: Cluster, service: string, env: DeleteEnv)
    requires Safe(c) && DeleteHonest(c, service, env) && Agreement(c)
    ensures Agreement(DeleteStep(c, service, env))
  {
    RelabelOnly(c, service, env.relabels);
    DeleteWeakens(c, service, env);
    var b := DeleteStep(c, service, env);
    var relabelled := Relabelled(c.secrets, c.crs[service].status, service, env.relabels);
    forall n | n in b.secrets
      ensures n in c.secrets && b.secrets[n].acID == c.secrets[n].acID
    {
      assert n in relabelled && (Untouched(c.secrets, relabelled, n) || relabelled[n].acID == c.secrets[n].acID);
    }
    KeepingAgrees(c, b);
  }

  /** What a rotation with a granted credential does to the secrets and to its status. */
  lemma RotateStores(c: Cluster, service: string, env: Env)
    requires Safe(c) && Honest(c, service, env) && env.client && env.grant.Granted?
    ensures var (b, id) := (Rotate(c, service, env), env.grant.id);
            var n := ACSecretName(service, id);
            && b.secrets == (if n in c.secrets || env.create.Failed? then c.secrets
                             else c.secrets[n := NewSecret(service, id)])
            && b.crs.Keys == c.crs.Keys && (forall other | other in c.crs && other != service ::
                  b.crs[other] == c.crs[other])
            && b.crs[service].status == if n !in c.secrets && env.create.Done? && env.persists
                                        then RotatedStatus(c.crs[service].status, service, id, env.grant.expiresAt, env)
                                        else c.crs[service].status
  {
    GrantIsNew(c, service, env);
  }

  /** No other service's status names the secret that a rotation would store. */
  lemma OthersNameElse(c: Cluster, service: string, id: string, other: string)
    requires Safe(c) && other in c.crs && other != service && |id| >= 5
    ensures c.crs[other].status.secretName != ACSecretName(service, id)
  {
    assert NamesOwn(c, other);
  }

  lemma FreshIsNotRecorded(c: Cluster, service: string, id: string)
    requires Safe(c) && service in c.crs && id !in c.issued && id != ""
    ensures c.crs[service].status.acID != id
  {
    assert StatusRecorded(c.secrets, c.issued, c.crs[service]);
  }

  lemma RotateConsistentIff(c: Cluster, service: string, env: Env)
    requires Safe(c) && Honest(c, service, env) && Agreement(c) && env.client && env.grant.Granted?
    ensures var (st, n) := (c.crs[service].status, ACSecretName(service, env.grant.id));
            Agreement(Rotate(c, service, env)) <==>
            !(n == st.secretName && n !in c.secrets
              && (env.create.DoneButFailed? || (env.create.Done? && !env.persists)))
  {
    var (id, st, b) := (env.grant.id, c.crs[service].status, Rotate(c, service, env));
    var n := ACSecretName(service, id);
    RotateStores(c, service, env);
    FreshIsNotRecorded(c, service, id);
    forall other | other in c.crs && other != service
      ensures Consistent(b.secrets, b.crs[other].status)
    {
      OthersNameElse(c, service, id, other);
      assert Consistent(c.secrets, c.crs[other].status);
    }
    assert Consistent(c.secrets, st);
    assert Agreement(b) <==> Consistent(b.secrets, b.crs[service].status);
  }

  lemma ReconcileAgreesIff(c: Cluster, service: string, env: Env)
    requires Safe(c) && Honest(c, service, env) && Agreement(c)
    ensures Agreement(NormalStep(c, service, env)) <==> !Clashes(c, service, env)
  {
    if env.client && env.grant.Granted? {
      RotateConsistentIff(c, service, env);
    } else {
      KeepingAgrees(c, Rotate(c, service, env));
    }
    MaintainConsistent(c, service, env);
    assert "" !in c.secrets;
  }

  /** An event, forced removals included, keeps the agreement exactly if it is not such a reconcile. */
  lemma StepAgreesIff(c: Cluster, e: Event)
    requires Safe(c) && Possible(c, e) && Agreement(c)
    ensures Agreement(Step(c, e)) <==> !(e.Reconcile? && Clashes(c, e.service, e.env))
  {
    match e
    case Reconcile(service, env) => ReconcileAgreesIff(c, service, env);
    case ReconcileDelete(service, env) => DeleteConsistent(c, service, env);
    case NewResource(service) =>
      var b := Step(c, e);
      forall other | other in b.crs
        ensures Consistent(b.secrets, b.crs[other].status)
      {
        assert other in c.crs ==> Consistent(c.secrets, c.crs[other].status);
      }
    case RequestRemoval(_) => KeepingAgrees(c, Step(c, e));
    case _ =>
      EventWeakens(c, e);
      KeepingAgrees(c, Step(c, e));
  }

  ghost predicate NoClashes(c: Cluster, events: seq<Event>)
    decreases |events|
  {
    events != [] ==>
      && !(events[0].Reconcile? && Clashes(c, events[0].service, events[0].env))
      && NoClashes(Step(c, events[0]), events[1..])
  }

  ghost predicate AgreementThroughout(c: Cluster, events: seq<Event>)
    decreases |events|
  {
    Agreement(c) && (events != [] ==> AgreementThroughout(Step(c, events[0]), events[1..]))
  }

  /** Over whole runs: in every state each status agrees with its secret, if that is there, exactly if no
      reconcile of the run clashes. */
  lemma {:induction false} RunAgreesIff(c: Cluster, events: seq<Event>)
    requires Safe(c) && Agreement(c) && PossibleRun(c, events)
    ensures AgreementThroughout(c, events) <==> NoClashes(c, events)
    decreases |events|
  {
    if events != [] {
      var b := Step(c, events[0]);
      StepSafe(c, events[0]);
      StepAgreesIff(c, events[0]);
      if Agreement(b) {
        RunAgreesIff(b, events[1..]);
      } else {
        assert !AgreementThroughout(b, events[1..]);
      }
    }
  }
}
