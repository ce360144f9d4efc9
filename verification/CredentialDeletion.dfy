/** What deleting an application credential resource does: best-effort revocation of all its
    credentials, and removal of the protection finalizer from all its secrets. */
module CredentialDeletion {
  import opened Sequences
  import opened Wrappers
  import opened CredentialNames
  import opened CredentialModel

  // ----- Secrets -----

  /** The secret without its protection finalizer. */
  function Bare(s: Secret): Secret {
    s.(finalizers := s.finalizers - {PROTECTION})
  }

  /** Secrets lose at most their protection finalizer, or go away with it, and only those named do. */
  ghost predicate OnlyStrips(a: Secrets, b: Secrets, names: seq<string>) {
    && (forall n | n in b :: n in a && (b[n] == a[n] || b[n] == Bare(a[n])))
    && (forall n | n in a && n !in names :: n in b && b[n] == a[n])
  }

  ghost predicate Unprotected(secrets: Secrets, n: string) {
    n in secrets ==> PROTECTION !in secrets[n].finalizers
  }

  lemma UnprotectStrips(d: Deletion, n: string, env: DeleteEnv)
    requires n in d.secrets
    ensures var e := Unprotect(Revoke(d, n, env), n, env);
            && OnlyStrips(d.secrets, e.secrets, [n]) && (e.ok ==> d.ok && Unprotected(e.secrets, n))
  {
  }

  lemma {:induction false} PassStrips(d: Deletion, names: seq<string>, env: DeleteEnv)
    ensures var r := Pass(d, names, env);
            && OnlyStrips(d.secrets, r.secrets, names)
            && (r.ok ==> forall n | n in names :: Unprotected(r.secrets, n))
    decreases |names|
  {
    if names != [] && d.ok {
      var rest := names[1..];
      assert names == [names[0]] + rest;
      if names[0] !in d.secrets {
        PassStrips(d, rest, env);
      } else {
        var e := Unprotect(Revoke(d, names[0], env), names[0], env);
        UnprotectStrips(d, names[0], env);
        PassStrips(e, rest, env);
        StripsTwice(d.secrets, e.secrets, Pass(e, rest, env).secrets, [names[0]], rest);
      }
    }
  }

  lemma FallbackStrips(d: Deletion, n: string, processed: seq<string>, env: DeleteEnv)
    ensures var r := Fallback(d, n, processed, env);
            && (r.ok ==> d.ok)
            && OnlyStrips(d.secrets, r.secrets, if n == "" then [] else [n])
            && (r.ok && n != "" && n !in processed ==> Unprotected(r.secrets, n))
  {
  }

  lemma StripsTwice(a: Secrets, b: Secrets, c: Secrets, names: seq<string>, more: seq<string>)
    requires OnlyStrips(a, b, names) && OnlyStrips(b, c, more)
    ensures OnlyStrips(a, c, names + more)
    ensures forall n | Unprotected(b, n) :: Unprotected(c, n)
  {
    assert forall n | n in b :: Bare(Bare(b[n])) == Bare(b[n]);
  }

  /** All that a delete strips: the listed secrets and those the status names. */
  lemma DeleteStrips(d: Deletion, status: Status, names: seq<string>, env: DeleteEnv)
    ensures var r := Fallback(Fallback(Pass(d, names, env), status.secretName, names, env),
                              status.previousSecretName, names, env);
            && (forall n | n in r.secrets :: n in d.secrets && SameIdentity(r.secrets[n], d.secrets[n]))
            && (forall n | n in d.secrets && n !in names && !Names(status, n) ::
                  n in r.secrets && r.secrets[n] == d.secrets[n])
            && (r.ok ==> forall n | n in names || Names(status, n) :: Unprotected(r.secrets, n))
  {
    var (s1, s2) := (status.secretName, status.previousSecretName);
    var p := Pass(d, names, env);
    var f := Fallback(p, s1, names, env);
    var r := Fallback(f, s2, names, env);
    var (n1, n2) := (if s1 == "" then [] else [s1], if s2 == "" then [] else [s2]);
    PassStrips(d, names, env);
    FallbackStrips(p, s1, names, env);
    FallbackStrips(f, s2, names, env);
    StripsTwice(d.secrets, p.secrets, f.secrets, names, n1);
    StripsTwice(d.secrets, f.secrets, r.secrets, names + n1, n2);
  }

  /** If the resource's finalizer goes, no secret that is labelled for the service or named by the
      status is protected any more - even when the listing misses secrets labelled a moment ago. */
  lemma DeleteUnprotectsAll(live: map<string, string>, secrets: Secrets, status: Status, service: string,
                            env: DeleteEnv)
    requires env.listing.Some? ==>
               Lists(env.listing.value, secrets, Relabelled(secrets, status, service, env.relabels), service)
    requires Delete(live, secrets, status, service, env).ok
    ensures var after := Delete(live, secrets, status, service, env).secrets;
            forall n | n in after && (Labelled(after[n], service) || Names(status, n)) :: Unprotected(after, n)
  {
    var relabelled := Relabelled(secrets, status, service, env.relabels);
    DeleteStrips(Deletion(live, relabelled, [], true), status, env.listing.value, env);
    forall n | n in relabelled && Labelled(relabelled[n], service)
      ensures n in env.listing.value || Names(status, n)
    {
    }
  }

  /** Secrets that neither carry the service's label nor are named by the status are left alone. */
  lemma DeleteLeavesOthers(live: map<string, string>, secrets: Secrets, status: Status, service: string, env: DeleteEnv)
    requires env.listing.Some? ==>
               Lists(env.listing.value, secrets, Relabelled(secrets, status, service, env.relabels), service)
    ensures var after := Delete(live, secrets, status, service, env).secrets;
            forall n | n in secrets && !Labelled(secrets[n], service) && !Names(status, n) ::
              n in after && after[n] == secrets[n]
  {
    var relabelled := Relabelled(secrets, status, service, env.relabels);
    forall n | n in secrets && !Names(status, n)
      ensures n in relabelled && relabelled[n] == secrets[n]
    {
    }
    if env.listing.Some? {
      DeleteStrips(Deletion(live, relabelled, [], true), status, env.listing.value, env);
    }
  }

  // ----- Revocations -----

  /** One of the named secrets stores the credential. */
  ghost predicate StoredIn(id: string, names: seq<string>, secrets: Secrets) {
    id != "" && exists n :: n in names && n in secrets && secrets[n].acID == id
  }

  /** From d to r, exactly the credentials of the named secrets may have been revoked, none twice,
      and all of them have been if r is ok. */
  ghost predicate RevokesOnce(d: Deletion, r: Deletion, names: seq<string>, env: DeleteEnv) {
    && Distinct(r.revocations)
    && (forall id | id in d.revocations :: id in r.revocations)
    && (forall id | id in r.revocations :: id in d.revocations || (env.client && StoredIn(id, names, d.secrets)))
    && (r.ok && env.client ==> forall id: string :: StoredIn(id, names, d.secrets) ==> id in r.revocations)
    && (forall id | id in r.live :: id in d.live && r.live[id] == d.live[id])
    && (forall id | id in d.live && id in d.revocations :: id in r.live)
    && (forall id | id in d.live && id !in d.revocations :: id in r.live <==>
          id !in r.revocations || id in env.revokeFails)
  }

  lemma StepRevokesOnce(d: Deletion, n: string, env: DeleteEnv)
    requires n in d.secrets && Distinct(d.revocations)
    ensures var e := Unprotect(Revoke(d, n, env), n, env);
            && Distinct(e.revocations)
            && e.revocations == (if env.client && d.secrets[n].acID != "" && d.secrets[n].acID !in d.revocations
                                 then d.revocations + [d.secrets[n].acID] else d.revocations)
            && (forall id | id in e.live :: id in d.live && e.live[id] == d.live[id])
            && (forall id | id in d.live :: id in e.live <==>
                  id in d.revocations || id !in e.revocations || id in env.revokeFails)
    ensures KeepsIDs(d.secrets, Unprotect(Revoke(d, n, env), n, env).secrets, n)
  {
    UnprotectKeepsIDs(Revoke(d, n, env), n, env);
  }

  /** Only n may be gone, and no secret stores another credential than before. */
  ghost predicate KeepsIDs(a: Secrets, b: Secrets, n: string) {
    && (forall m | m in b :: m in a && b[m].acID == a[m].acID)
    && (forall m | m in a && m != n :: m in b)
  }

  lemma UnprotectKeepsIDs(d: Deletion, n: string, env: DeleteEnv)
    requires n in d.secrets
    ensures KeepsIDs(d.secrets, Unprotect(d, n, env).secrets, n)
    ensures Unprotect(d, n, env).live == d.live && Unprotect(d, n, env).revocations == d.revocations
  {
  }

  lemma {:induction false} PassRevokesOnce(d: Deletion, names: seq<string>, env: DeleteEnv)
    requires Distinct(names) && Distinct(d.revocations)
    ensures RevokesOnce(d, Pass(d, names, env), names, env)
    decreases |names|
  {
    if names != [] && d.ok {
      var rest := names[1..];
      assert Distinct(rest);
      if names[0] !in d.secrets {
        PassRevokesOnce(d, rest, env);
        forall id: string
          ensures StoredIn(id, names, d.secrets) <==> StoredIn(id, rest, d.secrets)
        {
        }
      } else {
        var e := Unprotect(Revoke(d, names[0], env), names[0], env);
        StepRevokesOnce(d, names[0], env);
        PassRevokesOnce(e, rest, env);
        forall id: string
          ensures StoredIn(id, names, d.secrets) <==>
                  StoredIn(id, rest, e.secrets) || (id != "" && id == d.secrets[names[0]].acID)
        {
          StoredInSplit(id, names, d.secrets, e.secrets);
        }
      }
    }
  }

  lemma StoredInSplit(id: string, names: seq<string>, a: Secrets, b: Secrets)
    requires names != [] && names[0] in a && Distinct(names) && KeepsIDs(a, b, names[0])
    ensures StoredIn(id, names, a) <==> StoredIn(id, names[1..], b) || (id != "" && id == a[names[0]].acID)
  {
    if StoredIn(id, names, a) {
      var m :| m in names && m in a && a[m].acID == id;
      assert m == names[0] || m in names[1..];
    }
    if StoredIn(id, names[1..], b) {
      var m :| m in names[1..] && m in b && b[m].acID == id;
      assert m in names;
    }
    if id != "" && id == a[names[0]].acID {
      assert names[0] in names;
    }
  }

  /** Only the single pass revokes. */
  lemma FallbackRevokesNothing(d: Deletion, n: string, processed: seq<string>, env: DeleteEnv)
    ensures var r := Fallback(d, n, processed, env);
            r.live == d.live && r.revocations == d.revocations && (r.ok ==> d.ok)
  {
  }

  lemma DeleteRevokesInPass(live: map<string, string>, secrets: Secrets, status: Status, service: string,
                            env: DeleteEnv)
    requires (IsEDPMService(env.annotation) ==> env.inSync == Some(true)) && env.listing.Some?
    ensures var d := Deletion(live, Relabelled(secrets, status, service, env.relabels), [], true);
            var (p, r) := (Pass(d, env.listing.value, env), Delete(live, secrets, status, service, env));
            r.live == p.live && r.revocations == p.revocations && (r.ok ==> p.ok)
  {
    var names := env.listing.value;
    var p := Pass(Deletion(live, Relabelled(secrets, status, service, env.relabels), [], true), names, env);
    FallbackRevokesNothing(p, status.secretName, names, env);
    FallbackRevokesNothing(Fallback(p, status.secretName, names, env), status.previousSecretName, names, env);
  }

  /** Each credential is revoked at most once; those of the listed secrets are, and no others. A failed
      or negative EDPM check changes nothing. */
  lemma DeleteRevokesOnce(live: map<string, string>, secrets: Secrets, status: Status, service: string, env: DeleteEnv)
    requires env.listing.Some? ==>
               Lists(env.listing.value, secrets, Relabelled(secrets, status, service, env.relabels), service)
    ensures var r := Delete(live, secrets, status, service, env);
            && (env.annotation != "false" && env.inSync != Some(true) ==> r == Deletion(live, secrets, [], false))
            && Distinct(r.revocations)
            && (forall id | id in r.revocations ::
                  env.client && env.listing.Some? && StoredIn(id, env.listing.value, secrets))
            && (r.ok && env.client ==>
                  forall id: string :: StoredIn(id, env.listing.value, secrets) ==> id in r.revocations)
            && (forall id | id in live :: id in r.live <==> id !in r.revocations || id in env.revokeFails)
            && (forall id | id in r.live :: id in live && r.live[id] == live[id])
  {
    if env.listing.Some? && (IsEDPMService(env.annotation) ==> env.inSync == Some(true)) {
      var names, relabelled := env.listing.value, Relabelled(secrets, status, service, env.relabels);
      PassRevokesOnce(Deletion(live, relabelled, [], true), names, env);
      DeleteRevokesInPass(live, secrets, status, service, env);
      forall id: string
        ensures StoredIn(id, names, secrets) <==> StoredIn(id, names, relabelled)
      {
        RelabelledStores(id, names, secrets, status, service, env.relabels);
      }
    }
  }

  lemma RelabelledStores(id: string, names: seq<string>, secrets: Secrets, status: Status, service: string,
                         relabels: set<string>)
    ensures StoredIn(id, names, secrets) <==> StoredIn(id, names, Relabelled(secrets, status, service, relabels))
  {
    var b := Relabelled(secrets, status, service, relabels);
    assert forall n: string :: (n in secrets <==> n in b) && (n in secrets ==> b[n].acID == secrets[n].acID);
  }
}
