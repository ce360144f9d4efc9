/** The secret that holds the Fernet and credential keys, and ensureFernetKeys, which creates,
    rotates and resizes it. */
module FernetRepository {
  import opened Wrappers
  import opened FernetSlots
  import opened FernetResize
  import opened Times

  const DEFAULT_MAX_ACTIVE_KEYS: nat := 5
  const DEFAULT_ROTATION_DAYS: nat := 1

  /** A stored secret. rotatedAt is None when the annotation is missing or does not parse. */
  datatype Secret = Secret(data: Data, rotatedAt: Option<int>)

  /** The spec fields; None is Go's nil pointer. */
  datatype Spec = Spec(maxActiveKeys: Option<nat>, rotationDays: Option<nat>) {
    /** The minimum the CRD schema enforces. */
    ghost predicate Valid() {
      maxActiveKeys.Some? ==> maxActiveKeys.value >= 3
    }

    function Keys(): nat {
      if maxActiveKeys.Some? then maxActiveKeys.value else DEFAULT_MAX_ACTIVE_KEYS
    }

    function Days(): nat {
      if rotationDays.Some? then rotationDays.value else DEFAULT_ROTATION_DAYS
    }
  }

  function RotationDue(rotatedAt: Option<int>, days: nat, now: int): bool {
    rotatedAt.Some? && rotatedAt.value + days * DAY < now
  }

  /** The two writes of a rotation, before the extra key is removed again. */
  function Promoted(d: Data, n: nat, serial: nat): Data {
    d[KeyName(n) := Lookup(d, 0)][KeyName(0) := Generated(serial)]
  }

  /** The data the resizing loops start from, and the serial of the next key. */
  function Started(secret: Secret, spec: Spec, now: int, serial: nat): (Data, nat) {
    if RotationDue(secret.rotatedAt, spec.Days(), now)
    then (Promoted(secret.data, spec.Keys(), serial), serial + 1)
    else (secret.data, serial)
  }

  /** The calls whose removal loop ends (FernetResize.RemovalEndsIff). */
  ghost predicate Completes(secret: Secret, spec: Spec, now: int, serial: nat) {
    Removable(Started(secret, spec, now, serial).0, spec.Keys())
  }

  /** Whether such a call updates the stored secret. */
  ghost predicate Writes(secret: Secret, spec: Spec, now: int, serial: nat)
    requires spec.Valid() && Completes(secret, spec, now, serial)
  {
    var (n, d) := (spec.Keys(), Started(secret, spec, now, serial).0);
    secret.rotatedAt.None? || KeyName(n) in d || KeyName(n - 1) !in RemoveAll(d, n)
  }

  /** The secret after a call that runs to its end, generating keys from `serial` on. */
  ghost function Next(secret: Secret, spec: Spec, now: int, serial: nat): Secret
    requires spec.Valid() && Completes(secret, spec, now, serial)
  {
    var (n, (d, s)) := (spec.Keys(), Started(secret, spec, now, serial));
    if Writes(secret, spec, now, serial)
    then Secret(AddAll(RemoveAll(d, n), n, s), Some(Truncated(now)))
    else secret
  }

  /** How many keys such a call generates. */
  ghost function KeysNeeded(secret: Secret, spec: Spec, now: int, serial: nat): nat
    requires spec.Valid() && Completes(secret, spec, now, serial)
  {
    var (d, s) := Started(secret, spec, now, serial);
    s - serial + Added(RemoveAll(d, spec.Keys()), spec.Keys(), s)
  }

  /** The data of a newly created secret. */
  function Created(n: nat, serial: nat): Data {
    if n == 0 then map["CredentialKeys0" := Generated(serial), "CredentialKeys1" := Generated(serial + 1)]
    else Created(n - 1, serial)[KeyName(n - 1) := Generated(serial + 1 + n)]
  }

  /** The random key generator: keys are numbered in the order they are issued, and a call
      fails once the source of randomness has failed. */
  class KeySource {
    var issued: nat
    var healthyFor: nat

    constructor (issued: nat, healthyFor: nat)
      ensures this.issued == issued && this.healthyFor == healthyFor
    {
      this.issued, this.healthyFor := issued, healthyFor;
    }

    method Generate() returns (key: Option<Value>)
      modifies this
      ensures key.Some? <==> old(healthyFor) > 0
      ensures key.Some? ==> key.value == Generated(old(issued))
      ensures key.Some? ==> issued == old(issued) + 1 && healthyFor == old(healthyFor) - 1
      ensures key.None? ==> issued == old(issued) && healthyFor == old(healthyFor)
    {
      if healthyFor == 0 {
        return None;
      }
      key := Some(Generated(issued));
      issued, healthyFor := issued + 1, healthyFor - 1;
    }
  }

  /** The inner removal loop. */
  method RunRemovalPass(before: Data) returns (d: Data)
    ensures d == RemovePass(before)
  {
    d := before;
    var i := 1;
    while true
      invariant i >= 1 && ShiftDown(d, i) == RemovePass(before)
      decreases From(d, i + 1)
    {
      var key := KeyName(i);
      i := i + 1;
      var nextKey := KeyName(i);
      if nextKey !in d {
        break;
      }
      MoveDownAt(d, i - 1);
      d := d[key := d[nextKey]];
      d := d - {nextKey};
    }
  }

  /** The outer removal loop; it ends on exactly the data its precondition admits. */
  method RemoveExtraKeys(before: Data, n: nat) returns (d: Data, changed: bool)
    requires n >= 2 && Removable(before, n)
    ensures d == RemoveAll(before, n)
    ensures changed <==> KeyName(n) in before
  {
    d, changed := before, false;
    var extraKey := KeyName(n);
    while extraKey in d
      invariant Removable(d, n) && RemoveAll(d, n) == RemoveAll(before, n)
      invariant if changed then extraKey in before else d == before
      decreases From(d, n)
    {
      changed := true;
      RemovePassKeeps(d, n);
      d := RunRemovalPass(d);
    }
  }

  /** The inner insertion loop. */
  method RunInsertionPass(before: Data, newKey: Value) returns (d: Data)
    ensures d == AddPass(before, newKey)
  {
    d := before;
    var i, nextKeyValue, occupied := 1, newKey, true;
    while occupied
      invariant i >= 1
      invariant if occupied then ShiftUp(d, i, nextKeyValue) == AddPass(before, newKey)
                else d == AddPass(before, newKey)
      decreases occupied, From(d, i)
    {
      var key := KeyName(i);
      i := i + 1;
      occupied := key in d;
      var keyValue := Lookup(d, i - 1);
      PutCarriedAt(d, i - 1, nextKeyValue);
      d := d[key := nextKeyValue];
      nextKeyValue := keyValue;
    }
  }

  /** The outer insertion loop; it ends on any data. */
  method AddMissingKeys(before: Data, n: nat, keys: KeySource) returns (ok: bool, d: Data, changed: bool)
    requires n >= 2
    modifies keys
    ensures ok <==> old(keys.healthyFor) >= Added(before, n, old(keys.issued))
    ensures ok ==> d == AddAll(before, n, old(keys.issued))
    ensures ok ==> keys.issued == old(keys.issued) + Added(before, n, old(keys.issued))
    ensures ok ==> (changed <==> KeyName(n - 1) !in before)
  {
    d, changed := before, false;
    var lastKey := KeyName(n - 1);
    while lastKey !in d
      invariant keys.issued + keys.healthyFor == old(keys.issued) + old(keys.healthyFor)
      invariant keys.issued >= old(keys.issued)
      invariant AddAll(d, n, keys.issued) == AddAll(before, n, old(keys.issued))
      invariant keys.issued + Added(d, n, keys.issued) == old(keys.issued) + Added(before, n, old(keys.issued))
      invariant if changed then lastKey !in before else d == before
      decreases Missing(d, n)
    {
      changed := true;
      AddPassKeeps(d, n, Generated(keys.issued));
      var newKey := keys.Generate();
      if newKey.None? {
        return false, d, changed;
      }
      d := RunInsertionPass(d, newKey.value);
    }
    ok := true;
  }

  /** The stored secret; None before it has been created. */
  class Repository {
    var secret: Option<Secret>

    constructor ()
      ensures secret.None?
    {
      secret := None;
    }

    /** ensureFernetKeys. getFails and store are the outcomes of reading the secret and of creating or
        updating it. An error leaves the stored secret alone, unless storing took effect all the same;
        the secret is then the one that a call without error leaves. */
    method EnsureFernetKeys(spec: Spec, now: int, keys: KeySource, getFails: bool, store: Outcome)
      returns (ok: bool)
      requires spec.Valid()
      requires secret.Some? ==> Completes(secret.value, spec, now, keys.issued)
      modifies this, keys
      ensures getFails ==> !ok && secret == old(secret)
      ensures !getFails && old(secret).None? ==>
                var enough := old(keys.healthyFor) >= spec.Keys() + 2;
                && (ok <==> enough && store.Done?)
                && secret == if enough && store.Happened()
                             then Some(Secret(Created(spec.Keys(), old(keys.issued)), Some(Truncated(now))))
                             else None
      ensures !getFails && old(secret).Some? ==>
                var (stored, serial) := (old(secret).value, old(keys.issued));
                var enough := old(keys.healthyFor) >= KeysNeeded(stored, spec, now, serial);
                && (ok <==> enough && (store.Done? || !Writes(stored, spec, now, serial)))
                && secret == Some(if enough && store.Happened() then Next(stored, spec, now, serial) else stored)
                && (enough ==> keys.issued == serial + KeysNeeded(stored, spec, now, serial))
    {
      if getFails {
        return false;
      }
      if secret.None? {
        ok := Create(spec.Keys(), now, keys, store);
      } else {
        ok := Rotate(secret.value, spec, now, keys, store);
      }
    }

    /** The branch for a missing secret. */
    method Create(n: nat, now: int, keys: KeySource, store: Outcome) returns (ok: bool)
      modifies this, keys
      ensures ok <==> old(keys.healthyFor) >= n + 2 && store.Done?
      ensures secret == if old(keys.healthyFor) >= n + 2 && store.Happened()
                        then Some(Secret(Created(n, old(keys.issued)), Some(Truncated(now)))) else old(secret)
    {
      var credentialKeys0 := keys.Generate();
      if credentialKeys0.None? {
        return false;
      }
      var credentialKeys1 := keys.Generate();
      if credentialKeys1.None? {
        return false;
      }
      var fernetKeys := map["CredentialKeys0" := credentialKeys0.value, "CredentialKeys1" := credentialKeys1.value];
      for i := 0 to n
        invariant fernetKeys == Created(i, old(keys.issued))
        invariant keys.issued == old(keys.issued) + 2 + i
        invariant keys.healthyFor + 2 + i == old(keys.healthyFor)
        invariant secret == old(secret)
      {
        var fernetKey := keys.Generate();
        if fernetKey.None? {
          return false;
        }
        fernetKeys := fernetKeys[KeyName(i) := fernetKey.value];
      }
      if store.Happened() {
        secret := Some(Secret(fernetKeys, Some(Truncated(now))));
      }
      ok := store.Done?;
    }

    /** The branch for an existing secret: rotate if due, remove extra keys, add missing keys. */
    method Rotate(stored: Secret, spec: Spec, now: int, keys: KeySource, store: Outcome) returns (ok: bool)
      requires spec.Valid() && secret == Some(stored) && Completes(stored, spec, now, keys.issued)
      modifies this, keys
      ensures var serial := old(keys.issued);
              var enough := old(keys.healthyFor) >= KeysNeeded(stored, spec, now, serial);
              && (ok <==> enough && (store.Done? || !Writes(stored, spec, now, serial)))
              && secret == Some(if enough && store.Happened() then Next(stored, spec, now, serial) else stored)
              && (enough ==> keys.issued == serial + KeysNeeded(stored, spec, now, serial))
    {
      var data, changedKeys, numberKeys := stored.data, stored.rotatedAt.None?, spec.Keys();
      if RotationDue(stored.rotatedAt, spec.Days(), now) {
        data := data[KeyName(numberKeys) := Lookup(data, 0)];
        var fernetKey := keys.Generate();
        if fernetKey.None? {
          return false;
        }
        data := data[KeyName(0) := fernetKey.value];
      }
      assert (data, keys.issued) == Started(stored, spec, now, old(keys.issued));
      ghost var start := data;
      var removed, added, enough;
      data, removed := RemoveExtraKeys(data, numberKeys);
      enough, data, added := AddMissingKeys(data, numberKeys, keys);
      if !enough {
        return false;
      }
      if !(changedKeys || removed || added) {
        return true;
      }
      if store.Happened() {
        secret := Some(Secret(data, Some(Truncated(now))));
      }
      ok := store.Done?;
    }
  }
}
