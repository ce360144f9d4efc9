/** Names and finalizers of application credential (AC) resources and their secrets. */
module CredentialNames {

  const PROTECTION := "openstack.org/ac-secret-protection"

  predicate HasPrefix(s: string, prefix: string) {
    prefix <= s
  }

  predicate HasSuffix(s: string, suffix: string) {
    |suffix| <= |s| && s[|s| - |suffix|..] == suffix
  }

  function TrimPrefix(s: string, prefix: string): string {
    if HasPrefix(s, prefix) then s[|prefix|..] else s
  }

  function ACCRName(service: string): string {
    "ac-" + service
  }

  function ServiceName(acName: string): string {
    TrimPrefix(acName, "ac-")
  }

  /** ac-<service>-<first five characters of the ID>-secret. */
  function ACSecretName(service: string, acID: string): string {
    "ac-" + service + "-" + (if |acID| > 5 then acID[..5] else acID) + "-secret"
  }

  /** A control-plane operator holds the secret: openstack.org/<...>-ac-consumer. */
  predicate HasConsumerFinalizer(finalizers: set<string>) {
    exists f | f in finalizers :: HasPrefix(f, "openstack.org/") && HasSuffix(f, "-ac-consumer")
  }

  predicate IsEDPMService(annotation: string) {
    annotation != "false"
  }

  /** Stripping the prefix undoes adding it, and the other way round exactly on prefixed names. */
  lemma NamesInverse(service: string, acName: string)
    ensures ServiceName(ACCRName(service)) == service
    ensures ACCRName(ServiceName(acName)) == acName <==> HasPrefix(acName, "ac-")
  {
    assert ACCRName(service)[3..] == service;
    if HasPrefix(acName, "ac-") {
      assert acName == acName[..3] + acName[3..];
    } else {
      assert HasPrefix(ACCRName(ServiceName(acName)), "ac-");
    }
  }

  /** Prefixed names map to services one to one; an unprefixed name always shares its service
      with the name that adds the prefix. */
  lemma ServiceNameInjective(a: string, b: string)
    ensures HasPrefix(a, "ac-") && HasPrefix(b, "ac-") && ServiceName(a) == ServiceName(b) ==> a == b
    ensures !HasPrefix(a, "ac-") ==> ACCRName(a) != a && ServiceName(ACCRName(a)) == ServiceName(a)
  {
    NamesInverse(a, a);
    NamesInverse(b, b);
  }

  /** For IDs of five characters or more the secret name determines service and ID prefix. */
  lemma SecretNameInjective(s1: string, id1: string, s2: string, id2: string)
    requires |id1| >= 5 && |id2| >= 5
    ensures ACSecretName(s1, id1) == ACSecretName(s2, id2) <==> s1 == s2 && id1[..5] == id2[..5]
  {
    var n1, n2 := ACSecretName(s1, id1), ACSecretName(s2, id2);
    assert n1 == "ac-" + s1 + "-" + id1[..5] + "-secret";
    assert n2 == "ac-" + s2 + "-" + id2[..5] + "-secret";
    if n1 == n2 {
      assert |s1| == |s2|;
      assert n1[3..3 + |s1|] == s1 && n2[3..3 + |s2|] == s2;
      assert n1[4 + |s1|..9 + |s1|] == id1[..5] && n2[4 + |s2|..9 + |s2|] == id2[..5];
    }
  }

  /** Shorter IDs break that: two services can then claim one secret name. */
  lemma ShortIDsCollide()
    ensures ACSecretName("heat", "b-1") == ACSecretName("heat-b", "1")
  {
    assert ACSecretName("heat", "b-1") == "ac-heat-b-1-secret";
    assert ACSecretName("heat-b", "1") == "ac-heat-b-1-secret";
  }
}
