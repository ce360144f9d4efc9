/** Who owns the HAProxy timeout of the route: the defaulting webhook or a human. */
module RouteAnnotations {
  import Decimal

  type Annotations = map<string, string>

  const HAPROXY := "haproxy.router.openshift.io/timeout"
  const FLAG := "api.keystone.openstack.org/timeout"

  /** fmt's %d */
  function Signed(n: int): string {
    if n < 0 then "-" + Decimal.Itoa(-n) else Decimal.Itoa(n)
  }

  lemma SignedInjective(a: int, b: int)
    requires Signed(a) == Signed(b)
    ensures a == b
  {
    assert Signed(a)[0] == '-' <==> a < 0;
    assert Signed(b)[0] == '-' <==> b < 0;
    if a < 0 {
      assert Signed(a)[1..] == Decimal.Itoa(-a) && Signed(b)[1..] == Decimal.Itoa(-b);
      Decimal.ItoaInjective(-a, -b);
    } else {
      Decimal.ItoaInjective(a, b);
    }
  }

  function Timeout(seconds: int): string {
    Signed(seconds) + "s"
  }

  lemma TimeoutInjective(a: int, b: int)
    requires Timeout(a) == Timeout(b)
    ensures a == b
  {
    assert Timeout(a)[..|Timeout(a)| - 1] == Signed(a);
    assert Timeout(b)[..|Timeout(b)| - 1] == Signed(b);
    SignedInjective(a, b);
  }

  /** A human owns the timeout if there is one that differs from what the operator's flag says. */
  predicate HumanOwned(a: Annotations) {
    HAPROXY in a && (FLAG in a ==> a[FLAG] != a[HAPROXY])
  }

  /** The whole effect of a call. */
  function Defaulted(a: Annotations, seconds: int): Annotations {
    if HumanOwned(a) then a - {FLAG} else a[FLAG := Timeout(seconds)][HAPROXY := Timeout(seconds)]
  }

  class Spec {
    var apiTimeout: int
    var annotations: Annotations

    constructor (apiTimeout: int, annotations: Annotations)
      ensures this.apiTimeout == apiTimeout && this.annotations == annotations
    {
      this.apiTimeout, this.annotations := apiTimeout, annotations;
    }

    method SetDefaultRouteAnnotations()
      modifies this`annotations
      ensures annotations == Defaulted(old(annotations), apiTimeout)
    {
      var okKeystoneAPI, okHAProxy := FLAG in annotations, HAPROXY in annotations;
      if !okKeystoneAPI && okHAProxy {
        assert annotations - {FLAG} == annotations;
        return;
      }
      if okKeystoneAPI && okHAProxy && annotations[FLAG] != annotations[HAPROXY] {
        annotations := annotations - {FLAG};
        return;
      }
      var timeout := Timeout(apiTimeout);
      annotations := annotations[FLAG := timeout];
      annotations := annotations[HAPROXY := timeout];
    }
  }

  // ----- Runs -----

  /** The webhook is called with the timeout of that moment, or a human edits an annotation. */
  datatype Event = Defaults(seconds: int) | Sets(key: string, value: string) | Removes(key: string)

  function Step(a: Annotations, e: Event): Annotations {
    match e
    case Defaults(seconds) => Defaulted(a, seconds)
    case Sets(key, value) => a[key := value]
    case Removes(key) => a - {key}
  }

  function Run(a: Annotations, events: seq<Event>): Annotations
    decreases |events|
  {
    if events == [] then a else Run(Step(a, events[0]), events[1..])
  }

  lemma {:induction false} RunLast(a: Annotations, events: seq<Event>)
    requires events != []
    ensures Run(a, events) == Step(Run(a, events[..|events| - 1]), events[|events| - 1])
    decreases |events|
  {
    var n := |events| - 1;
    if n > 0 {
      assert events[1..][..n - 1] == events[..n][1..];
      RunLast(Step(a, events[0]), events[1..]);
    } else {
      assert events[1..] == [] && events[..0] == [];
    }
  }

  lemma DefaultedTwice(a: Annotations, s: int, t: int)
    ensures Defaulted(Defaulted(a, s), t) == Defaulted(a, t)
  {
    if HumanOwned(a) {
      assert a - {FLAG} - {FLAG} == a - {FLAG};
    }
  }

  /** Without human edits any number of calls amounts to the last one: a human's timeout is kept and the
      flag removed, or both annotations follow the timeout of the last call. */
  lemma {:induction false} CallsOnly(a: Annotations, events: seq<Event>)
    requires events != [] && forall e | e in events :: e.Defaults?
    ensures Run(a, events) == Defaulted(a, events[|events| - 1].seconds)
    decreases |events|
  {
    assert events[0] in events;
    if |events| > 1 {
      assert events[1..][|events| - 2] == events[|events| - 1];
      CallsOnly(Step(a, events[0]), events[1..]);
      DefaultedTwice(a, events[0].seconds, events[|events| - 1].seconds);
    }
  }

  /** The edit gives the timeout back to the operator: it removes it, or makes timeout and flag equal. */
  predicate HandsBack(a: Annotations, e: Event) {
    match e
    case Defaults(_) => false
    case Sets(key, value) =>
      || (key == HAPROXY && FLAG in a && a[FLAG] == value)
      || (key == FLAG && HAPROXY in a && a[HAPROXY] == value)
    case Removes(key) => key == HAPROXY
  }

  /** The human's own timeout after a run: what the last edit of it said. */
  function Edited(events: seq<Event>, initial: string): string
    decreases |events|
  {
    if events == [] then initial
    else
      var e := events[|events| - 1];
      if e.Sets? && e.key == HAPROXY then e.value else Edited(events[..|events| - 1], initial)
  }

  ghost predicate NeverHandsBack(a: Annotations, events: seq<Event>) {
    forall k | 0 <= k < |events| :: !HandsBack(Run(a, events[..k]), events[k])
  }

  /** A human's timeout stays, through calls with any timeouts and any other edits, until the human
      hands it back. */
  lemma {:induction false} HumanStays(a: Annotations, events: seq<Event>)
    requires HAPROXY in a && (FLAG !in a || a[FLAG] != a[HAPROXY]) && NeverHandsBack(a, events)
    ensures var r := Run(a, events);
            HAPROXY in r && (FLAG !in r || r[FLAG] != r[HAPROXY]) && r[HAPROXY] == Edited(events, a[HAPROXY])
    decreases |events|
  {
    if events != [] {
      var n := |events| - 1;
      var most := events[..n];
      forall k | 0 <= k < n
        ensures !HandsBack(Run(a, most[..k]), most[k])
      {
        assert most[..k] == events[..k];
      }
      HumanStays(a, most);
      RunLast(a, events);
      assert !HandsBack(Run(a, events[..n]), events[n]);
    }
  }

  /** After a call at the end of any run, either both annotations are the latest timeout, or the flag is
      gone and the timeout is the one that was there before the call. */
  lemma CallDecides(a: Annotations, events: seq<Event>, seconds: int)
    ensures var before, after := Run(a, events), Run(a, events + [Defaults(seconds)]);
            && HAPROXY in after
            && (FLAG in after <==> HAPROXY !in before || (FLAG in before && before[FLAG] == before[HAPROXY]))
            && (FLAG in after ==> after[FLAG] == after[HAPROXY] == Timeout(seconds))
            && (seconds >= 0 ==> Timeout(seconds) == Decimal.Itoa(seconds) + "s")
            && (FLAG !in after ==> HAPROXY in before && after[HAPROXY] == before[HAPROXY])
  {
    var all := events + [Defaults(seconds)];
    assert all[..|all| - 1] == events;
    RunLast(a, all);
  }

  /** The timeout in effect changes with APITimeout exactly while the operator owns it. */
  lemma FollowsIff(a: Annotations, s: int, t: int)
    requires s != t
    ensures Defaulted(a, s)[HAPROXY] != Defaulted(a, t)[HAPROXY] <==>
            HAPROXY !in a || (FLAG in a && a[FLAG] == a[HAPROXY])
  {
    if Timeout(s) == Timeout(t) {
      TimeoutInjective(s, t);
    }
  }

  function EditsOnly(events: seq<Event>): seq<Event>
    decreases |events|
  {
    if events == [] then []
    else if events[0].Defaults? then EditsOnly(events[1..])
    else [events[0]] + EditsOnly(events[1..])
  }

  ghost predicate AgreeOnOthers(a: Annotations, b: Annotations) {
    a - {FLAG, HAPROXY} == b - {FLAG, HAPROXY}
  }

  /** All other annotations are as if the webhook had never been called. */
  lemma {:induction false} OthersUntouched(a: Annotations, b: Annotations, events: seq<Event>)
    requires AgreeOnOthers(a, b)
    ensures AgreeOnOthers(Run(a, events), Run(b, EditsOnly(events)))
    decreases |events|
  {
    if events != [] {
      var e, rest := events[0], events[1..];
      if e.Defaults? {
        assert AgreeOnOthers(Step(a, e), a);
        OthersUntouched(Step(a, e), b, rest);
      } else {
        StepAgrees(a, b, e);
        assert ([e] + EditsOnly(rest))[1..] == EditsOnly(rest);
        OthersUntouched(Step(a, e), Step(b, e), rest);
      }
    }
  }

  lemma StepAgrees(a: Annotations, b: Annotations, e: Event)
    requires AgreeOnOthers(a, b) && !e.Defaults?
    ensures AgreeOnOthers(Step(a, e), Step(b, e))
  {
    var x, y := Step(a, e), Step(b, e);
    forall k | k != FLAG && k != HAPROXY
      ensures k in x <==> k in y
      ensures k in x ==> x[k] == y[k]
    {
      assert k in a - {FLAG, HAPROXY} <==> k in b - {FLAG, HAPROXY};
      assert k in a ==> (a - {FLAG, HAPROXY})[k] == (b - {FLAG, HAPROXY})[k];
    }
  }
}
