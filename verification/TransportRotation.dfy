/** The rotation of the RabbitMQ transport secret: the secret in use carries a consumer finalizer
    until the workload runs on its successor. */
module TransportRotation {
  import opened Wrappers

  /** tracked is the persisted Status.TransportURLSecret; holders are the secrets with the consumer
      finalizer; current is the secret named by the TransportURL object, "" while it names none, None
      while the object does not exist. */
  datatype State = State(tracked: string, holders: set<string>, current: Option<string>)

  /** How far the reconcile gets, and how its calls turn out. */
  datatype Env = Env(
    reaches: bool,        // the steps before the transport secret succeed
    adds: Outcome,        // adding the finalizer to the current secret
    deploys: bool,        // the steps between that and the end succeed
    ready: bool,          // all conditions are true at the end
    releases: Outcome,    // removing the finalizer from the tracked secret
    prunes: bool,         // the pruning at the end works
    pruned: set<string>,  // what it removed if it did not
    persists: bool)       // the status patch takes effect

  // ----- The helpers, as their call sites describe them -----

  /** FinalizeSecretRotation: once ready, let go of the old secret and track the current one. */
  function Finalizes(tracked: string, current: string, ready: bool): bool {
    ready && tracked != current
  }

  // ----- One reconcile -----

  /** The status in memory at the end, the holders, and whether the end was reached. */
  datatype Result = Result(tracked: string, holders: set<string>, completed: bool)

  function Reconcile(s: State, env: Env): Result {
    if !env.reaches || s.current.None? || s.current.value == "" then Result(s.tracked, s.holders, false)
    else
      var current := s.current.value;
      var tracked := if s.tracked == "" then current else s.tracked;
      var holders := if env.adds.Happened() then s.holders + {current} else s.holders;
      if !env.adds.Done? || !env.deploys then Result(tracked, holders, false)
      else if Finalizes(tracked, current, env.ready) && !env.releases.Done? then
        Result(tracked, if env.releases.Happened() then holders - {tracked} else holders, false)
      else
        var holders' := if Finalizes(tracked, current, env.ready) then holders - {tracked} else holders;
        var tracked' := if Finalizes(tracked, current, env.ready) then current else tracked;
        var extra := holders' - {tracked', current};
        Result(tracked', holders' - (if env.prunes then extra else extra * env.pruned), env.prunes)
  }

  function Normal(s: State, env: Env): State {
    var r := Reconcile(s, env);
    State(if env.persists then r.tracked else s.tracked, r.holders, s.current)
  }

  datatype DeleteEnv = DeleteEnv(releasesTracked: Outcome, readsURL: bool, releasesCurrent: Outcome)

  /** The end of reconcileDelete: the holders, and whether the object is let go. */
  function Delete(s: State, env: DeleteEnv): (set<string>, bool) {
    var holders := if env.releasesTracked.Happened() then s.holders - {s.tracked} else s.holders;
    if !env.releasesTracked.Done? || !env.readsURL then (holders, false)
    else if s.current.Some? && s.current.value != "" && s.current.value != s.tracked then
      (if env.releasesCurrent.Happened() then holders - {s.current.value} else holders, env.releasesCurrent.Done?)
    else (holders, true)
  }

  // ----- How far a reconcile gets -----

  /** The TransportURL names a secret, and the reconcile gets to it. */
  predicate Finds(s: State, env: Env) {
    env.reaches && s.current.Some? && s.current.value != ""
  }

  /** The finalizer is on the current secret and everything is deployed. */
  predicate Deployed(s: State, env: Env) {
    Finds(s, env) && env.adds.Done? && env.deploys
  }

  /** Then the tracked secret, if it is another one and the workload is ready, is to be released. */
  predicate Switches(s: State, env: Env) {
    Deployed(s, env) && env.ready && s.tracked != "" && Some(s.tracked) != s.current
  }

  /** The finalizer is put on the current secret before anything is deployed, and stays there whatever comes
      after. Nothing is taken off any secret until everything is deployed: then first the tracked one is
      released, if the workload is ready, and if that works the others are pruned. The reconcile completes
      exactly if all of that works. */
  lemma ReconcileOrder(s: State, env: Env)
    ensures var r := Reconcile(s, env);
            var prunes := Deployed(s, env) && (Switches(s, env) ==> env.releases.Done?);
            && (r.completed <==> prunes && env.prunes)
            && r.tracked == (if Finds(s, env) && s.tracked == "" then s.current.value
                             else if Switches(s, env) && env.releases.Done? then s.current.value else s.tracked)
            && (Finds(s, env) ==>
                  (s.current.value in r.holders <==> s.current.value in s.holders || env.adds.Happened()))
            && (forall n | !Finds(s, env) || n != s.current.value :: n in r.holders <==>
                  n in s.holders && !(if n == s.tracked && n != "" then Switches(s, env) && env.releases.Happened()
                                      else prunes && (env.prunes || n in env.pruned)))
  {
  }

  /** A delete releases the tracked secret and then the current one if that is another; it is done exactly if
      both work. */
  lemma DeleteOrder(s: State, env: DeleteEnv)
    ensures var (holders, done) := Delete(s, env);
            var goesOn := env.releasesTracked.Done? && env.readsURL;
            var other := s.current.Some? && s.current.value != "" && s.current.value != s.tracked;
            && (done <==> goesOn && (other ==> env.releasesCurrent.Done?))
            && (forall n :: n in holders <==>
                  && n in s.holders && !(n == s.tracked && env.releasesTracked.Happened())
                  && !(goesOn && other && Some(n) == s.current && env.releasesCurrent.Happened()))
  {
  }

  // ----- What a completed reconcile leaves -----

  /** A reconcile that reaches its end leaves the finalizer on the current secret and, until the
      workload is ready, on the tracked one if it was there; on nothing else. */
  lemma CompletedHolders(s: State, env: Env)
    requires Reconcile(s, env).completed
    ensures s.current.Some? && s.current.value != ""
    ensures var r, current := Reconcile(s, env), s.current.value;
            && r.holders == {current} + (if env.ready || s.tracked == "" then {} else s.holders * {s.tracked})
            && r.tracked == if env.ready || s.tracked == "" then current else s.tracked
  {
  }

  // ----- The tracked secret is not let go early -----

  ghost predicate Held(s: State) {
    s.tracked != "" && s.tracked in s.holders
  }

  /** The reconcile releases the tracked secret: another one is current and holds the finalizer, the
      workload is ready for it, and the release takes effect. */
  predicate LetsGo(s: State, env: Env) {
    && s.tracked != "" && env.reaches && s.current.Some? && s.current.value != "" && s.current.value != s.tracked
    && env.adds.Done? && env.deploys && env.ready && env.releases.Happened()
  }

  /** And the status does not follow: the release reported an error, or the status patch is lost. */
  predicate LosesTrack(s: State, env: Env) {
    LetsGo(s, env) && !(env.releases.Done? && env.persists)
  }

  /** A held tracked secret is released exactly by such a reconcile, and then the current secret holds the
      finalizer. Afterwards the tracked secret is held exactly if the status followed. */
  lemma HeldIff(s: State, env: Env)
    requires Held(s)
    ensures var t := Normal(s, env);
            && (s.tracked !in t.holders <==> LetsGo(s, env))
            && (LetsGo(s, env) ==> s.current.value in t.holders)
            && (Held(t) <==> !LosesTrack(s, env))
  {
  }

  datatype Event = Names(current: Option<string>) | Reconciles(env: Env)

  function Step(s: State, e: Event): State {
    match e
    case Names(current) => s.(current := current)
    case Reconciles(env) => Normal(s, env)
  }

  function Run(s: State, events: seq<Event>): State
    decreases |events|
  {
    if events == [] then s else Run(Step(s, events[0]), events[1..])
  }

  ghost predicate NeverLosesTrack(s: State, events: seq<Event>)
    decreases |events|
  {
    events != [] ==>
      && !(events[0].Reconciles? && LosesTrack(s, events[0].env))
      && NeverLosesTrack(Step(s, events[0]), events[1..])
  }

  ghost predicate HeldThroughout(s: State, events: seq<Event>)
    decreases |events|
  {
    Held(s) && (events != [] ==> HeldThroughout(Step(s, events[0]), events[1..]))
  }

  /** Over any number of rotations: the tracked secret is held in every state of the run exactly if no
      reconcile loses track. */
  lemma {:induction false} RunHeldIff(s: State, events: seq<Event>)
    requires Held(s)
    ensures HeldThroughout(s, events) <==> NeverLosesTrack(s, events)
    decreases |events|
  {
    if events != [] {
      var t := Step(s, events[0]);
      if events[0].Reconciles? {
        HeldIff(s, events[0].env);
      }
      if Held(t) {
        RunHeldIff(t, events[1..]);
      } else {
        assert !HeldThroughout(t, events[1..]);
      }
    }
  }

  /** Until the workload is ready, the tracked secret does not even change, whatever fails or is lost
      and however often the current one changes. */
  lemma {:induction false} RunKeepsTracked(s: State, events: seq<Event>)
    requires Held(s) && forall e | e in events && e.Reconciles? :: !e.env.ready
    ensures Held(Run(s, events)) && Run(s, events).tracked == s.tracked
    decreases |events|
  {
    if events != [] {
      assert events[0] in events;
      if events[0].Reconciles? {
        HeldIff(s, events[0].env);
      }
      RunKeepsTracked(Step(s, events[0]), events[1..]);
    }
  }

  /** Losing track is not made good: if the secret changes again before the next reconcile, that one lets
      go of the secret in use although the workload is not ready for the new one. */
  lemma LostTrack(s: State, env: Env, next: string, env2: Env)
    requires Held(s) && LosesTrack(s, env)
    requires next != "" && next != s.tracked && Some(next) != s.current
    requires Reconcile(Normal(s, env).(current := Some(next)), env2).completed && !env2.ready
    ensures s.current.value in Normal(s, env).holders
    ensures Normal(Normal(s, env).(current := Some(next)), env2).holders == {next}
  {
    HeldIff(s, env);
    CompletedHolders(Normal(s, env).(current := Some(next)), env2);
    assert s.tracked !in Normal(s, env).holders;
  }

  // ----- Deletion -----

  /** Deletion releases the tracked and the current secret. It leaves no holder exactly if there were
      no others. */
  lemma DeleteCleanIff(s: State, env: DeleteEnv)
    requires Delete(s, env).1
    ensures Delete(s, env).0 == {} <==>
            forall n | n in s.holders :: n == s.tracked || (n != "" && s.current == Some(n))
  {
    assert Delete(s, env).0 == {} <==> forall n | n in s.holders :: n !in Delete(s, env).0;
  }

  /** After a completed reconcile, deletion is clean exactly if no rotation is pending or the
      TransportURL still names the same secret. */
  lemma DeleteAfterCompletedIff(s: State, env: Env, current: Option<string>, del: DeleteEnv)
    requires Reconcile(s, env).completed && Delete(Normal(s, env).(current := current), del).1
    ensures Delete(Normal(s, env).(current := current), del).0 == {} <==>
            current == s.current || Some(Normal(s, env).tracked) == s.current
  {
    var t := Normal(s, env).(current := current);
    CompletedHolders(s, env);
    DeleteCleanIff(t, del);
    assert s.current.value in t.holders;
  }

  // ----- The controller -----

  class Controller {
    var transportURLSecret: string
    var holders: set<string>

    constructor ()
      ensures transportURLSecret == "" && holders == {}
    {
      transportURLSecret, holders := "", {};
    }

    /** FinalizeSecretRotation */
    method FinalizeSecretRotation(old': string, current: string, ready: bool, releases: Outcome)
      returns (name: string, ok: bool)
      modifies this`holders
      ensures ok == (Finalizes(old', current, ready) ==> releases.Done?)
      ensures name == if ok && Finalizes(old', current, ready) then current else old'
      ensures holders == if Finalizes(old', current, ready) && releases.Happened() then old(holders) - {old'}
                         else old(holders)
    {
      if !ready || old' == current {
        return old', true;
      }
      if releases.Happened() {
        holders := holders - {old'};
      }
      if !releases.Done? {
        return old', false;
      }
      return current, true;
    }

    /** The transport secret's part of reconcileNormal. */
    method ReconcileNormal(current: Option<string>, env: Env) returns (completed: bool)
      modifies this
      ensures Result(transportURLSecret, holders, completed)
           == Reconcile(State(old(transportURLSecret), old(holders), current), env)
    {
      if !env.reaches {
        return false;
      }
      var currentTransportSecret := if current.Some? then current.value else "";
      if currentTransportSecret == "" {
        return false;
      }
      if transportURLSecret == "" {
        transportURLSecret := currentTransportSecret;
      }
      if env.adds.Happened() {
        holders := holders + {currentTransportSecret};
      }
      if !env.adds.Done? {
        return false;
      }
      if !env.deploys {
        return false;
      }
      var name, ok := FinalizeSecretRotation(transportURLSecret, currentTransportSecret, env.ready, env.releases);
      if !ok {
        return false;
      }
      transportURLSecret := name;
      var extra := holders - {transportURLSecret, currentTransportSecret};
      holders := holders - (if env.prunes then extra else extra * env.pruned);
      completed := env.prunes;
    }

    /** The transport secret's part of reconcileDelete. */
    method ReconcileDelete(current: Option<string>, env: DeleteEnv) returns (done: bool)
      modifies this`holders
      ensures (holders, done) == Delete(State(transportURLSecret, old(holders), current), env)
    {
      if env.releasesTracked.Happened() {
        holders := holders - {transportURLSecret};
      }
      if !env.releasesTracked.Done? {
        return false;
      }
      if !env.readsURL {
        return false;
      }
      if current.Some? {
        if current.value != "" && current.value != transportURLSecret {
          if env.releasesCurrent.Happened() {
            holders := holders - {current.value};
          }
          if !env.releasesCurrent.Done? {
            return false;
          }
        }
      }
      done := true;
    }
  }
}
