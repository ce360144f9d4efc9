/** The key items that getVolumes projects from the keystone secret into the pods. */
module KeystoneVolumes {
  import opened Wrappers
  import opened FernetSlots
  import opened FernetResize
  import opened FernetRepository
  import Decimal
  import FernetContents

  datatype KeyToPath = KeyToPath(key: string, path: string)

  const CREDENTIAL_ITEMS: seq<KeyToPath> := [KeyToPath("CredentialKeys0", "0"), KeyToPath("CredentialKeys1", "1")]

  method FernetItems(numberKeys: nat) returns (items: seq<KeyToPath>)
    ensures |items| == numberKeys
    ensures forall i | 0 <= i < numberKeys :: items[i] == KeyToPath(KeyName(i), Decimal.Itoa(i))
  {
    items := [];
    for i := 0 to numberKeys
      invariant |items| == i
      invariant forall j | 0 <= j < i :: items[j] == KeyToPath(KeyName(j), Decimal.Itoa(j))
    {
      items := items + [KeyToPath(KeyName(i), Decimal.Itoa(i))];
    }
  }

  /** Every Fernet and credential item projected for n keys names an entry of the secret. */
  ghost predicate Mountable(d: Data, n: nat) {
    SlotsFilled(d, n) && HasCredentials(d)
  }

  ghost predicate SlotsFilled(d: Data, n: nat) {
    forall i: nat :: i < n ==> At(d, i).Some?
  }

  ghost predicate HasCredentials(d: Data) {
    forall item | item in CREDENTIAL_ITEMS :: item.key in d
  }

  lemma CredentialNamesAreNotSlots()
    ensures !IsSlot("CredentialKeys0") && !IsSlot("CredentialKeys1")
  {
    forall i: nat
      ensures KeyName(i) != "CredentialKeys0" && KeyName(i) != "CredentialKeys1"
    {
      assert KeyName(i)[0] == 'F';
    }
  }

  lemma CredentialsKept(a: Data, b: Data)
    requires SameElsewhere(a, b)
    ensures HasCredentials(a) <==> HasCredentials(b)
  {
    CredentialNamesAreNotSlots();
    assert forall item | item in CREDENTIAL_ITEMS :: item.key in a <==> item.key in b;
  }

  /** The creation path mounts for the same n. */
  lemma {:induction false} CreatedHolds(n: nat, serial: nat)
    ensures forall j: nat :: At(Created(n, serial), j) == if j < n then Some(Generated(serial + 2 + j)) else None
    decreases n
  {
    if n == 0 {
      CredentialNamesAreNotSlots();
      forall j: nat
        ensures At(Created(0, serial), j) == None
      {
        assert IsSlot(KeyName(j));
      }
    } else {
      CreatedHolds(n - 1, serial);
      var d, newest := Created(n - 1, serial), Generated(serial + 1 + n);
      assert Created(n, serial) == d[KeyName(n - 1) := newest];
      Put(d, n - 1, newest);
      forall j: nat
        ensures At(Created(n, serial), j) == if j < n then Some(Generated(serial + 2 + j)) else None
      {
        assert At(d[KeyName(n - 1) := newest], j) == if j == n - 1 then Some(newest) else At(d, j);
      }
    }
  }

  lemma {:induction false} CreatedCredentials(n: nat, serial: nat)
    ensures HasCredentials(Created(n, serial))
    decreases n
  {
    if n > 0 {
      CreatedCredentials(n - 1, serial);
    }
  }

  lemma CreatedMountable(n: nat, serial: nat)
    ensures Mountable(Created(n, serial), n)
    ensures Holds(Created(n, serial), seq(n, i requires 0 <= i < n => Generated(serial + 2 + i)))
  {
    CreatedHolds(n, serial);
    CreatedCredentials(n, serial);
  }

  /** A call starts with a staged key if there was one or it generates one. */
  lemma StagedAtStart(secret: Secret, spec: Spec, now: int, serial: nat)
    requires spec.Valid()
    ensures At(Started(secret, spec, now, serial).0, 0).Some? <==>
            At(secret.data, 0).Some? || RotationDue(secret.rotatedAt, spec.Days(), now)
  {
    var n := spec.Keys();
    Put(secret.data, n, Lookup(secret.data, 0));
    Put(secret.data[KeyName(n) := Lookup(secret.data, 0)], 0, Generated(serial));
  }

  /** For any stored data, contiguous or not: after a call that runs to its end, everything that the
      pods project exists exactly when the credential keys exist, a staged key existed or was
      generated, and one of the resizing loops ran or no other key was missing. */
  lemma MountableIff(secret: Secret, spec: Spec, now: int, serial: nat)
    requires spec.Valid() && Completes(secret, spec, now, serial)
    ensures var (n, d) := (spec.Keys(), Started(secret, spec, now, serial).0);
            Mountable(Next(secret, spec, now, serial).data, n) <==>
            && HasCredentials(secret.data)
            && (At(secret.data, 0).Some? || RotationDue(secret.rotatedAt, spec.Days(), now))
            && (At(d, n).Some? || At(d, n - 1).None? || forall j: nat :: 1 <= j < n ==> At(d, j).Some?)
  {
    var n := spec.Keys();
    var (d, c) := Started(secret, spec, now, serial);
    var after := Next(secret, spec, now, serial).data;
    assert after == AddAll(RemoveAll(d, n), n, c);
    FernetContents.NextElsewhere(secret, spec, now, serial);
    CredentialsKept(secret.data, after);
    SlotsFilledIff(d, n, c);
    StagedAtStart(secret, spec, now, serial);
  }

  lemma SlotsFilledIff(d: Data, n: nat, c: nat)
    requires n >= 3 && Removable(d, n)
    ensures SlotsFilled(AddAll(RemoveAll(d, n), n, c), n) <==>
            && At(d, 0).Some?
            && (At(d, n).Some? || At(d, n - 1).None? || forall j: nat :: 1 <= j < n ==> At(d, j).Some?)
  {
    FilledIff(d, n, c);
    RemoveAllElsewhere(d, n);
    AddAllElsewhere(RemoveAll(d, n), n, c);
    assert At(AddAll(RemoveAll(d, n), n, c), 0) == At(d, 0);
  }
}
