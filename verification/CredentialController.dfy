/** The reconcile methods of the application credential controller, working in place on the secrets,
    the live Keystone credentials and the persisted statuses. */
module CredentialController {
  import opened Sequences
  import opened Wrappers
  import opened CredentialNames
  import opened CredentialDeletion
  import opened CredentialModel
  import CredentialClock
  import Times

  class Reconciler {
    var live: map<string, string>
    ghost var lost: set<string>
    ghost var left: set<string>
    ghost var issued: set<string>
    var secrets: Secrets
    var crs: map<string, CR>

    constructor ()
      ensures State() == EMPTY
    {
      live, lost, left, issued, secrets, crs := map[], {}, {}, {}, map[], map[];
    }

    ghost function State(): Cluster
      reads this
    {
      Cluster(live, lost, left, issued, secrets, crs)
    }

    /** createImmutableACSecret */
    method CreateImmutableACSecret(service: string, newID: string, env: Env) returns (secretName: string, ok: bool)
      modifies this`secrets
      ensures (secrets, ok) == StoreSecret(old(secrets), service, newID, env)
      ensures secretName == ACSecretName(service, newID)
    {
      secretName := ACSecretName(service, newID);
      var secret := NewSecret(service, newID);
      match env.create
      case Done =>
        if secretName in secrets {
          if !env.fetches {
            return secretName, false;
          }
          var existingACID := secrets[secretName].acID;
          return secretName, existingACID == newID;
        }
        secrets := secrets[secretName := secret];
        ok := true;
      case Failed =>
        ok := false;
      case DoneButFailed =>
        if secretName !in secrets {
          secrets := secrets[secretName := secret];
        }
        ok := false;
    }

    /** ensureServiceLabel */
    method EnsureServiceLabel(n: string, service: string, relabels: set<string>)
      modifies this`secrets
      ensures secrets == Relabel(old(secrets), n, service, relabels)
    {
      if n == "" || n !in secrets {
        return;
      }
      if secrets[n].service == Some(service) {
        return;
      }
      if n in relabels {
        secrets := secrets[n := secrets[n].(service := Some(service))];
      }
    }

    /** cleanupUnusedRotatedSecrets */
    method CleanupUnusedRotatedSecrets(status: Status, env: Env) returns (ok: bool)
      requires env.listing.Some? ==> Distinct(env.listing.value)
      modifies this`secrets, this`live
      ensures Swept(live, secrets, ok) == Cleanup(old(live), old(secrets), status, env)
    {
      if IsEDPMService(env.annotation) {
        if env.inSync.None? {
          return true;
        }
        if !env.inSync.value {
          return true;
        }
      }
      if env.listing.None? {
        return false;
      }
      var names, i := env.listing.value, 0;
      while i < |names|
        invariant 0 <= i <= |names|
        invariant Sweep(live, secrets, names[i..], status, env) == Sweep(old(live), old(secrets), names, status, env)
      {
        var n := names[i];
        assert names[i..][1..] == names[i + 1..];
        i := i + 1;
        if n !in secrets {
          continue;
        }
        var s := secrets[n];
        if n == status.secretName || n == status.previousSecretName || HasConsumerFinalizer(s.finalizers) {
          continue;
        }
        if s.acID != "" {
          if s.acID !in env.revokeFails || s.acID in env.slips {
            live := live - {s.acID};
          }
          if s.acID in env.revokeFails {
            return false;
          }
        }
        if PROTECTION in s.finalizers {
          if n !in env.updateFails || n in env.slips {
            secrets := SetFinalizers(secrets, n, s.finalizers - {PROTECTION});
          }
          if n in env.updateFails {
            return false;
          }
        }
        if n !in env.deleteFails || n in env.slips {
          secrets := DeleteRequested(secrets, n);
        }
        if n in env.deleteFails {
          return false;
        }
      }
      ok := true;
    }

    /** reconcileNormal, with the status patch at its end. */
    method ReconcileNormal(service: string, env: Env)
      requires service in crs
      requires env.listing.Some? ==> Distinct(env.listing.value)
      modifies this
      ensures State() == NormalStep(old(State()), service, env)
    {
      var status := crs[service].status;
      var doRotate := CredentialClock.NeedsRotation(status.acID, status.securityHash, env.securityHash,
                                                    status.expiresAt, env.graceDays, env.now);
      if status.secretName != "" {
        if !env.readsCurrent {
          return;
        }
        if status.secretName !in secrets {
          doRotate := true;
        }
      }
      if doRotate {
        RotateCredential(service, status, env);
        return;
      }
      EnsureServiceLabel(status.secretName, service, env.relabels);
      EnsureServiceLabel(status.previousSecretName, service, env.relabels);
      if env.client {
        var _ := CleanupUnusedRotatedSecrets(status, env);
      }
    }

    /** The creation and rotation branch. */
    method RotateCredential(service: string, before: Status, env: Env)
      requires service in crs && crs[service].status == before
      modifies this
      ensures State() == Rotate(old(State()), service, env)
    {
      var isRotation := before.acID != "";
      if !env.client || env.grant.Refused? {
        return;
      }
      var newID := env.grant.id;
      live, issued := live[newID := service], issued + {newID};
      if env.grant.Unseen? {
        lost := lost + {newID};
        return;
      }
      var expiresAt := env.grant.expiresAt;
      ghost var unstored := ACSecretName(service, newID) in secrets || env.create.Failed?;
      var secretName, ok := CreateImmutableACSecret(service, newID, env);
      if !ok {
        if env.compensates {
          live := live - {newID};
        } else if unstored {
          lost := lost + {newID};
        }
        assert env.compensates ==> live == old(live) - {newID};
        return;
      }
      var status := before;
      if isRotation && status.secretName != "" {
        status := status.(previousSecretName := status.secretName);
      }
      status := status.(acID := newID, secretName := secretName);
      status := status.(expiresAt := Some(Times.Truncated(expiresAt)));
      status := status.(securityHash := env.securityHash);
      if env.persists {
        crs := crs[service := crs[service].(status := status, recorded := crs[service].recorded + [newID])];
      }
    }

    /** reconcileDelete: removed says that the resource's own finalizer was removed, revocations are
        the calls to Keystone in order. */
    method DeleteSecrets(service: string, env: DeleteEnv) returns (removed: bool, revocations: seq<string>)
      requires service in crs
      modifies this`secrets, this`live
      ensures Deletion(live, secrets, revocations, removed) ==
              Delete(old(live), old(secrets), crs[service].status, service, env)
    {
      removed, revocations := false, [];
      if IsEDPMService(env.annotation) {
        if env.inSync.None? {
          return;
        }
        if !env.inSync.value {
          return;
        }
      }
      var status := crs[service].status;
      EnsureServiceLabel(status.secretName, service, env.relabels);
      EnsureServiceLabel(status.previousSecretName, service, env.relabels);
      if env.listing.None? {
        return;
      }
      var names, seen, i, ok := env.listing.value, {}, 0, true;
      ghost var start := Deletion(live, secrets, [], true);
      while i < |names|
        invariant 0 <= i <= |names|
        invariant forall id :: id in seen <==> id in revocations
        invariant Pass(Deletion(live, secrets, revocations, true), names[i..], env) == Pass(start, names, env)
      {
        var n := names[i];
        ghost var d := Deletion(live, secrets, revocations, true);
        PassNext(d, names, i, env);
        i := i + 1;
        if n !in secrets {
          continue;
        }
        var acID := secrets[n].acID;
        if env.client {
          if acID != "" && acID !in seen {
            seen := seen + {acID};
            revocations := revocations + [acID];
            if acID !in env.revokeFails {
              live := live - {acID};
            }
          }
        }
        assert Deletion(live, secrets, revocations, true) == Revoke(d, n, env);
        ok := UnprotectSecret(n, env);
        assert Deletion(live, secrets, revocations, ok) == Unprotect(Revoke(d, n, env), n, env);
        if !ok {
          return;
        }
      }
      ghost var passed := Deletion(live, secrets, revocations, true);
      assert passed == Pass(start, names, env);
      ok := UnprotectNamed(status.secretName, names, env);
      assert Deletion(live, secrets, revocations, ok) == Fallback(passed, status.secretName, names, env);
      if !ok {
        return;
      }
      removed := UnprotectNamed(status.previousSecretName, names, env);
    }

    /** reconcileDelete with the patch at its end, after which a resource without finalizer is gone. */
    method ReconcileDelete(service: string, env: DeleteEnv)
      requires service in crs
      modifies this
      ensures State() == DeleteStep(old(State()), service, env)
    {
      var removed, _ := DeleteSecrets(service, env);
      if removed && env.persists {
        crs := crs - {service};
        left := left + set id | id in live && live[id] == service;
      }
    }

    /** One turn of the fallback loop over the status-named secrets. */
    method UnprotectNamed(n: string, processed: seq<string>, env: DeleteEnv) returns (ok: bool)
      modifies this`secrets
      ensures Deletion(live, secrets, [], ok) == Fallback(Deletion(live, old(secrets), [], true), n, processed, env)
    {
      if n == "" || n in processed {
        return true;
      }
      if n in env.fetchFails {
        return false;
      }
      if n !in secrets {
        return true;
      }
      ok := UnprotectSecret(n, env);
    }

    /** Removing the protection finalizer from a secret and updating it. */
    method UnprotectSecret(n: string, env: DeleteEnv) returns (ok: bool)
      requires n in secrets
      modifies this`secrets
      ensures forall l, r :: Deletion(l, secrets, r, ok) == Unprotect(Deletion(l, old(secrets), r, true), n, env)
    {
      var s := secrets[n];
      if PROTECTION in s.finalizers {
        if n !in env.updateFails || n in env.slips {
          secrets := SetFinalizers(secrets, n, s.finalizers - {PROTECTION});
        }
        if n in env.updateFails {
          return false;
        }
      }
      ok := true;
    }
  }

  lemma PassNext(d: Deletion, names: seq<string>, i: nat, env: DeleteEnv)
    requires i < |names| && d.ok
    ensures Pass(d, names[i..], env) ==
            if names[i] !in d.secrets then Pass(d, names[i + 1..], env)
            else Pass(Unprotect(Revoke(d, names[i], env), names[i], env), names[i + 1..], env)
  {
    assert names[i..][1..] == names[i + 1..];
  }
}
