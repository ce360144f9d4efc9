/** What a cleanup pass can and cannot do to the secrets and the live credentials. */
module CredentialCleanup {
  import opened Sequences
  import opened Wrappers
  import opened CredentialNames
  import opened CredentialModel

  ghost predicate Untouched(a: Secrets, b: Secrets, n: string) {
    n in a && n in b && a[n] == b[n]
  }

  /** n may be swept: it is listed and not kept. */
  ghost predicate Sweepable(secrets: Secrets, names: seq<string>, status: Status, n: string) {
    n in names && n in secrets && !Kept(n, secrets[n], status)
  }

  /** A pass, complete or stopped half-way, only touches sweepable secrets, has revoked a credential
      before it touches the secret that stores it, and revokes nothing else. */
  ghost predicate SweepsOnly(live: map<string, string>, secrets: Secrets, names: seq<string>, status: Status,
                             r: Swept) {
    && (forall id | id in r.live :: id in live && r.live[id] == live[id])
    && (forall n | n in r.secrets :: n in secrets && SameIdentity(secrets[n], r.secrets[n]))
    && (forall n | n in secrets && !Untouched(secrets, r.secrets, n) ::
          && Sweepable(secrets, names, status, n)
          && (secrets[n].acID != "" ==> secrets[n].acID !in r.live))
    && (forall id | id in live && id !in r.live ::
          exists n :: Sweepable(secrets, names, status, n) && secrets[n].acID == id)
  }

  lemma SweepOneOnly(live: map<string, string>, secrets: Secrets, n: string, status: Status, env: Env)
    requires n in secrets
    ensures SweepsOnly(live, secrets, [n], status, SweepOne(live, secrets, n, status, env))
    ensures forall m | m in secrets && m != n :: Untouched(secrets, SweepOne(live, secrets, n, status, env).secrets, m)
  {
    var s, r := secrets[n], SweepOne(live, secrets, n, status, env);
    assert Kept(n, s, status) ==> r.live == live && r.secrets == secrets;
    assert r.live == live || (s.acID != "" && r.live == live - {s.acID});
    assert r.secrets == secrets || (s.acID != "" ==> s.acID !in r.live);
    SweepOneSecrets(live, secrets, n, status, env);
    assert !Kept(n, s, status) ==> Sweepable(secrets, [n], status, n);
  }

  /** Only n may differ; identities stay, and nothing is new. */
  ghost predicate OnlyOne(a: Secrets, b: Secrets, n: string) {
    && (forall m | m in a && m != n :: Untouched(a, b, m))
    && (forall m | m in b :: m in a && SameIdentity(a[m], b[m]))
  }

  lemma StrippedOnlyOne(a: Secrets, n: string)
    requires n in a
    ensures OnlyOne(a, Stripped(a, n), n)
  {
  }

  lemma DeletedOnlyOne(a: Secrets, n: string)
    ensures OnlyOne(a, DeleteRequested(a, n), n)
  {
  }

  lemma OnlyOneThen(a: Secrets, b: Secrets, c: Secrets, n: string)
    requires OnlyOne(a, b, n) && OnlyOne(b, c, n)
    ensures OnlyOne(a, c, n)
  {
    forall m | m in a && m != n
      ensures Untouched(a, c, m)
    {
      assert Untouched(a, b, m);
    }
  }

  lemma SweepOneSecrets(live: map<string, string>, secrets: Secrets, n: string, status: Status, env: Env)
    requires n in secrets
    ensures OnlyOne(secrets, SweepOne(live, secrets, n, status, env).secrets, n)
  {
    var unprotected := Stripped(secrets, n);
    StrippedOnlyOne(secrets, n);
    DeletedOnlyOne(unprotected, n);
    OnlyOneThen(secrets, unprotected, DeleteRequested(unprotected, n), n);
  }

  lemma {:induction false} SweepOnly(live: map<string, string>, secrets: Secrets, names: seq<string>,
                                     status: Status, env: Env)
    requires Distinct(names)
    ensures SweepsOnly(live, secrets, names, status, Sweep(live, secrets, names, status, env))
    decreases |names|
  {
    if names != [] {
      assert Distinct(names[1..]);
      if names[0] !in secrets {
        SweepOnly(live, secrets, names[1..], status, env);
        SweepsMore(live, secrets, names, status, Sweep(live, secrets, names, status, env));
      } else {
        var one := SweepOne(live, secrets, names[0], status, env);
        SweepOneOnly(live, secrets, names[0], status, env);
        if one.ok {
          SweepOnly(one.live, one.secrets, names[1..], status, env);
          SweepsThen(live, secrets, names, status, one, Sweep(live, secrets, names, status, env));
        } else {
          forall n | Sweepable(secrets, [names[0]], status, n)
            ensures Sweepable(secrets, names, status, n)
          {
          }
        }
      }
    }
  }

  lemma SweepsMore(live: map<string, string>, secrets: Secrets, names: seq<string>, status: Status, r: Swept)
    requires names != [] && SweepsOnly(live, secrets, names[1..], status, r)
    ensures SweepsOnly(live, secrets, names, status, r)
  {
    forall n | Sweepable(secrets, names[1..], status, n)
      ensures Sweepable(secrets, names, status, n)
    {
    }
  }

  /** Sweeping names[0] and then the rest is sweeping names. */
  lemma SweepsThen(live: map<string, string>, secrets: Secrets, names: seq<string>, status: Status, one: Swept,
                   r: Swept)
    requires names != [] && Distinct(names) && names[0] in secrets
    requires SweepsOnly(live, secrets, [names[0]], status, one)
    requires SweepsOnly(one.live, one.secrets, names[1..], status, r)
    ensures SweepsOnly(live, secrets, names, status, r)
  {
    forall n | Sweepable(one.secrets, names[1..], status, n)
      ensures Sweepable(secrets, names, status, n) && one.secrets[n] == secrets[n]
    {
      if !Untouched(secrets, one.secrets, n) {
        assert Sweepable(secrets, [names[0]], status, n);
      }
    }
    forall n | n in secrets && !Untouched(secrets, r.secrets, n)
      ensures Sweepable(secrets, names, status, n) && (secrets[n].acID != "" ==> secrets[n].acID !in r.live)
    {
      if Untouched(secrets, one.secrets, n) {
        assert !Untouched(one.secrets, r.secrets, n);
      } else {
        assert Sweepable(secrets, [names[0]], status, n);
      }
    }
    forall id | id in live && id !in r.live
      ensures exists n :: Sweepable(secrets, names, status, n) && secrets[n].acID == id
    {
      if id in one.live {
        var n :| Sweepable(one.secrets, names[1..], status, n) && one.secrets[n].acID == id;
        assert Sweepable(secrets, names, status, n) && secrets[n].acID == id;
      } else {
        var n :| Sweepable(secrets, [names[0]], status, n) && secrets[n].acID == id;
        assert Sweepable(secrets, names, status, n) && secrets[n].acID == id;
      }
    }
  }

  /** What is left of a swept secret: nothing, unless someone else's finalizer still holds it. */
  ghost predicate Gone(before: Secret, after: Secrets, n: string) {
    var rest := before.finalizers - {PROTECTION};
    if rest == {} then n !in after
    else n in after && after[n] == before.(finalizers := rest, deleting := true)
  }

  /** Every listed secret that is not kept has been dealt with. */
  ghost predicate DealtWith(secrets: Secrets, names: seq<string>, status: Status, r: Swept) {
    forall n | Sweepable(secrets, names, status, n) ::
      Gone(secrets[n], r.secrets, n) && (secrets[n].acID != "" ==> secrets[n].acID !in r.live)
  }

  lemma SweepOneDone(live: map<string, string>, secrets: Secrets, n: string, status: Status, env: Env)
    requires n in secrets && SweepOne(live, secrets, n, status, env).ok
    ensures DealtWith(secrets, [n], status, SweepOne(live, secrets, n, status, env))
  {
    if Sweepable(secrets, [n], status, n) {
      assert Gone(secrets[n], SweepOne(live, secrets, n, status, env).secrets, n);
    }
  }

  lemma DealtWithMore(secrets: Secrets, names: seq<string>, status: Status, r: Swept)
    requires names != [] && names[0] !in secrets && DealtWith(secrets, names[1..], status, r)
    ensures DealtWith(secrets, names, status, r)
  {
    forall n | Sweepable(secrets, names, status, n)
      ensures Sweepable(secrets, names[1..], status, n)
    {
    }
  }

  lemma SweptThen(live: map<string, string>, secrets: Secrets, names: seq<string>, status: Status, one: Swept, r: Swept)
    requires names != [] && Distinct(names) && names[0] in secrets
    requires SweepsOnly(live, secrets, [names[0]], status, one) && DealtWith(secrets, [names[0]], status, one)
    requires SweepsOnly(one.live, one.secrets, names[1..], status, r) && DealtWith(one.secrets, names[1..], status, r)
    ensures DealtWith(secrets, names, status, r)
  {
    forall n | Sweepable(secrets, names, status, n)
      ensures Gone(secrets[n], r.secrets, n) && (secrets[n].acID != "" ==> secrets[n].acID !in r.live)
    {
      if n == names[0] {
        assert Sweepable(secrets, [names[0]], status, n);
        assert !Sweepable(one.secrets, names[1..], status, n);
      } else {
        assert n in names[1..] && Untouched(secrets, one.secrets, n);
        assert Sweepable(one.secrets, names[1..], status, n);
      }
    }
  }

  /** A pass that returns without error has dealt with every listed secret that is not kept. */
  lemma {:induction false} SweepComplete(live: map<string, string>, secrets: Secrets, names: seq<string>,
                                         status: Status, env: Env)
    requires Distinct(names) && Sweep(live, secrets, names, status, env).ok
    ensures DealtWith(secrets, names, status, Sweep(live, secrets, names, status, env))
    decreases |names|
  {
    if names != [] {
      var rest := names[1..];
      assert Distinct(rest);
      if names[0] !in secrets {
        SweepComplete(live, secrets, rest, status, env);
        DealtWithMore(secrets, names, status, Sweep(live, secrets, rest, status, env));
      } else {
        var one := SweepOne(live, secrets, names[0], status, env);
        SweepOneOnly(live, secrets, names[0], status, env);
        SweepOneDone(live, secrets, names[0], status, env);
        SweepComplete(one.live, one.secrets, rest, status, env);
        SweepOnly(one.live, one.secrets, rest, status, env);
        SweptThen(live, secrets, names, status, one, Sweep(one.live, one.secrets, rest, status, env));
      }
    }
  }

  /** A finalizer of the form openstack.org/<...>-ac-consumer says that an operator uses the secret. */
  ghost predicate Consumed(finalizers: set<string>) {
    exists f | f in finalizers :: "openstack.org/" <= f && |f| >= 12 && f[|f| - 12..] == "-ac-consumer"
  }

  /** Neither current nor previous, and no operator uses it. */
  ghost predicate Unused(n: string, s: Secret, status: Status) {
    n != status.secretName && n != status.previousSecretName && !Consumed(s.finalizers)
  }

  lemma UnusedIff(n: string, s: Secret, status: Status)
    ensures Unused(n, s, status) <==> !Kept(n, s, status)
  {
    forall f | f in s.finalizers
      ensures HasPrefix(f, "openstack.org/") && HasSuffix(f, "-ac-consumer") <==>
              "openstack.org/" <= f && |f| >= 12 && f[|f| - 12..] == "-ac-consumer"
    {
    }
  }

  /** No EDPM NodeSet may still be using the old secret: the resource is not for EDPM, or all are in sync. */
  ghost predicate GateOpen(annotation: string, inSync: Option<bool>) {
    annotation == "false" || inSync == Some(true)
  }

  /** After a gated-in pass that returns nil, the secrets labelled for the service are exactly the
      current one, the previous one, those a consumer holds, and terminating ones that a foreign
      finalizer still keeps; no credential of a swept secret is live. */
  lemma CleanupLeaves(live: map<string, string>, secrets: Secrets, service: string, status: Status, env: Env)
    requires GateOpen(env.annotation, env.inSync)
    requires env.listing.Some? && Lists(env.listing.value, secrets, secrets, service)
    requires Cleanup(live, secrets, status, env).ok
    ensures var r := Cleanup(live, secrets, status, env);
            && (forall n | n in secrets && (!Labelled(secrets[n], service) || !Unused(n, secrets[n], status)) ::
                  Untouched(secrets, r.secrets, n))
            && (forall n | n in secrets && Labelled(secrets[n], service) && Unused(n, secrets[n], status) ::
                  && Gone(secrets[n], r.secrets, n)
                  && (secrets[n].acID != "" ==> secrets[n].acID !in r.live))
  {
    var names := env.listing.value;
    SweepOnly(live, secrets, names, status, env);
    SweepComplete(live, secrets, names, status, env);
    forall n | n in secrets
      ensures Unused(n, secrets[n], status) <==> !Kept(n, secrets[n], status)
      ensures Labelled(secrets[n], service) && Unused(n, secrets[n], status) <==> Sweepable(secrets, names, status, n)
    {
      UnusedIff(n, secrets[n], status);
    }
  }

  /** One of the calls for this secret reports an error. */
  ghost predicate Resists(s: Secret, n: string, env: Env) {
    || (s.acID != "" && s.acID in env.revokeFails)
    || (PROTECTION in s.finalizers && n in env.updateFails)
    || n in env.deleteFails
  }

  /** A pass gets through exactly if none of the secrets it has to sweep resists. */
  lemma {:induction false} SweepOkIff(live: map<string, string>, secrets: Secrets, names: seq<string>,
                                      status: Status, env: Env)
    requires Distinct(names)
    ensures Sweep(live, secrets, names, status, env).ok <==>
            forall n | Sweepable(secrets, names, status, n) :: !Resists(secrets[n], n, env)
    decreases |names|
  {
    if names != [] {
      var rest := names[1..];
      assert Distinct(rest) && forall n :: n in names <==> n == names[0] || n in rest;
      if names[0] !in secrets {
        SweepOkIff(live, secrets, rest, status, env);
      } else {
        var one := SweepOne(live, secrets, names[0], status, env);
        SweepOneOnly(live, secrets, names[0], status, env);
        SweepOkIff(one.live, one.secrets, rest, status, env);
        SweepableRest(secrets, one.secrets, names, status);
        assert one.ok <==> (Sweepable(secrets, names, status, names[0]) ==> !Resists(secrets[names[0]], names[0], env));
      }
    }
  }

  lemma SweepableRest(a: Secrets, b: Secrets, names: seq<string>, status: Status)
    requires names != [] && Distinct(names)
    requires forall m | m in a && m != names[0] :: Untouched(a, b, m)
    requires forall m | m in b :: m in a
    ensures forall n | n != names[0] ::
              && (Sweepable(a, names, status, n) <==> Sweepable(b, names[1..], status, n))
              && (Sweepable(a, names, status, n) ==> a[n] == b[n])
    ensures !Sweepable(b, names[1..], status, names[0])
  {
    forall n | n != names[0]
      ensures Sweepable(a, names, status, n) <==> Sweepable(b, names[1..], status, n)
    {
      assert n in a ==> Untouched(a, b, n);
      assert n in names <==> n in names[1..];
    }
  }

  /** It stops at the first one that does. */
  lemma {:induction false} SweepStops(live: map<string, string>, secrets: Secrets, a: seq<string>, b: seq<string>,
                                      status: Status, env: Env)
    ensures var r := Sweep(live, secrets, a, status, env);
            Sweep(live, secrets, a + b, status, env) == if r.ok then Sweep(r.live, r.secrets, b, status, env) else r
    decreases |a|
  {
    if a == [] {
      assert a + b == b;
    } else {
      assert (a + b)[1..] == a[1..] + b;
      if a[0] in secrets {
        var one := SweepOne(live, secrets, a[0], status, env);
        SweepStops(one.live, one.secrets, a[1..], b, status, env);
      } else {
        SweepStops(live, secrets, a[1..], b, status, env);
      }
    }
  }

  /** A listed secret on which another pass has no effect. */
  ghost predicate Spent(live: map<string, string>, secrets: Secrets, n: string) {
    n in secrets ==>
      && secrets[n].deleting && PROTECTION !in secrets[n].finalizers && secrets[n].finalizers != {}
      && (secrets[n].acID != "" ==> secrets[n].acID !in live)
  }

  /** Once everything sweepable is spent, a further pass changes nothing, whichever calls fail in it. */
  lemma {:induction false} SweepRepeated(live: map<string, string>, secrets: Secrets, names: seq<string>,
                                         status: Status, env: Env)
    requires forall n | Sweepable(secrets, names, status, n) :: Spent(live, secrets, n)
    ensures Sweep(live, secrets, names, status, env).live == live
    ensures Sweep(live, secrets, names, status, env).secrets == secrets
    decreases |names|
  {
    if names != [] {
      var rest := names[1..];
      forall n | Sweepable(secrets, rest, status, n)
        ensures Spent(live, secrets, n)
      {
        assert Sweepable(secrets, names, status, n);
      }
      SweepRepeated(live, secrets, rest, status, env);
      if names[0] in secrets {
        var n := names[0];
        if !Kept(n, secrets[n], status) {
          assert Sweepable(secrets, names, status, n);
          assert secrets[n].acID != "" ==> live - {secrets[n].acID} == live;
          assert secrets[n := secrets[n].(deleting := true)] == secrets;
        }
        assert SweepOne(live, secrets, n, status, env).live == live;
        assert SweepOne(live, secrets, n, status, env).secrets == secrets;
      }
    }
  }

  /** Cleanup is safely repeatable: after a pass that returned nil, any further pass over what is
      then listed changes nothing. */
  lemma CleanupRepeatable(live: map<string, string>, secrets: Secrets, service: string, status: Status,
                          env: Env, again: Env)
    requires GateOpen(env.annotation, env.inSync)
    requires env.listing.Some? && Lists(env.listing.value, secrets, secrets, service)
    requires Cleanup(live, secrets, status, env).ok
    requires var r := Cleanup(live, secrets, status, env);
             again.listing.Some? ==> Lists(again.listing.value, r.secrets, r.secrets, service)
    ensures var r := Cleanup(live, secrets, status, env);
            Cleanup(r.live, r.secrets, status, again).(ok := true) == r
  {
    var r := Cleanup(live, secrets, status, env);
    CleanupLeaves(live, secrets, service, status, env);
    SweepOnly(live, secrets, env.listing.value, status, env);
    if again.listing.Some? {
      var names := again.listing.value;
      forall n | Sweepable(r.secrets, names, status, n)
        ensures Spent(r.live, r.secrets, n)
      {
        assert Labelled(secrets[n], service);
        UnusedIff(n, secrets[n], status);
        assert Kept(n, secrets[n], status) ==> Untouched(secrets, r.secrets, n);
        assert Gone(secrets[n], r.secrets, n);
      }
      SweepRepeated(r.live, r.secrets, names, status, again);
    }
  }
}
