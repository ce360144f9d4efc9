/** How many credentials the reconciles of one resource create over time. */
module CredentialRuns {
  import opened Wrappers
  import opened CredentialNames
  import opened CredentialClock
  import opened CredentialModel
  import opened CredentialSafety
  import opened Times

  /** One reconcile, and the time at which it asks Keystone for a credential if it does. */
  datatype Turn = Turn(env: Env, created: int)

  /** The part of the spec that decides about rotation: the two periods and the hash of the security fields. */
  datatype Spec = Spec(expirationDays: int, graceDays: int, hash: string)

  /** A reconcile of this spec from c to b in which nothing fails, no other secret has the name of the
      new one, and Keystone grants the requested expiry. */
  ghost predicate SmoothTurn(c: Cluster, b: Cluster, service: string, turn: Turn, spec: Spec) {
    var env := turn.env;
    && Honest(c, service, env) && env.readsCurrent && env.client && env.create.Done? && env.persists
    && env.grant.Granted? && env.grant.expiresAt == turn.created + Days(spec.expirationDays)
    && ACSecretName(service, env.grant.id) !in c.secrets
    && env.graceDays == spec.graceDays && env.securityHash == spec.hash
    && b == NormalStep(c, service, env)
  }

  /** What may happen between those reconciles: anything others do, except that no secret is removed by
      force and the resource is not deleted; and reconciles of the resource that get no credential. */
  predicate Bystanding(e: Event, service: string) {
    match e
    case Reconcile(other, env) => other != service || !env.client || env.grant.Refused?
    case RequestRemoval(other) => other != service
    case ReconcileDelete(other, _) => other != service
    case ForceRemove(_) => false
    case _ => true
  }

  datatype Move = Own(turn: Turn) | Meanwhile(event: Event)

  ghost predicate Moves(c: Cluster, b: Cluster, service: string, move: Move, spec: Spec) {
    match move
    case Own(turn) => SmoothTurn(c, b, service, turn, spec)
    case Meanwhile(e) => Possible(c, e) && Bystanding(e, service) && b == Step(c, e)
  }

  ghost predicate SmoothRun(states: seq<Cluster>, service: string, moves: seq<Move>, spec: Spec) {
    && |states| == |moves| + 1
    && forall i | 0 <= i < |moves| :: Moves(states[i], states[i + 1], service, moves[i], spec)
  }

  /** The smooth reconciles of a run. */
  function Turns(moves: seq<Move>): seq<Turn> {
    if moves == [] then []
    else if moves[0].Own? then [moves[0].turn] + Turns(moves[1..])
    else Turns(moves[1..])
  }

  /** A reachable state in which the spec has not changed since the resource's credential was created. */
  ghost predicate Steady(c: Cluster, service: string, spec: Spec) {
    && Safe(c) && NoneLeaked(c) && StatusAgrees(c) && service in c.crs
    && Fixed(c.crs[service].status, spec.hash)
  }

  ghost predicate Fixed(status: Status, hash: string) {
    && (status.acID == "" <==> status.expiresAt.None?)
    && (status.acID != "" ==> status.securityHash == hash)
  }

  /** There is no credential yet, or its grace period has begun. */
  predicate Due(expiresAt: Option<int>, graceDays: int, now: int) {
    expiresAt.None? || now > expiresAt.value - Days(graceDays)
  }

  /** A smooth reconcile records one more credential exactly when one is due, with the expiry asked for. */
  ghost predicate OnTheClock(a: CR, b: CR, turn: Turn, spec: Spec) {
    if Due(a.status.expiresAt, spec.graceDays, turn.env.now)
    then |b.recorded| == |a.recorded| + 1
         && b.status.expiresAt == Some(Truncated(turn.created + Days(spec.expirationDays)))
    else b == a
  }

  lemma TurnOnTheClock(c: Cluster, b: Cluster, service: string, turn: Turn, spec: Spec)
    requires Steady(c, service, spec) && SmoothTurn(c, b, service, turn, spec)
    ensures service in b.crs && Fixed(b.crs[service].status, spec.hash)
    ensures OnTheClock(c.crs[service], b.crs[service], turn, spec)
  {
    assert Agrees(c.secrets, c.crs[service].status);
    assert StatusRecorded(c.secrets, c.issued, c.crs[service]);
  }

  lemma TurnSteady(c: Cluster, b: Cluster, service: string, turn: Turn, spec: Spec)
    requires Steady(c, service, spec) && SmoothTurn(c, b, service, turn, spec)
    ensures Steady(b, service, spec)
  {
    TurnOnTheClock(c, b, service, turn, spec);
    StepSafe(c, Reconcile(service, turn.env));
    StepHeld(c, Reconcile(service, turn.env));
  }

  /** Nobody else touches the resource. */
  lemma BystanderSteady(c: Cluster, e: Event, service: string, spec: Spec)
    requires Steady(c, service, spec) && Possible(c, e) && Bystanding(e, service)
    ensures service in Step(c, e).crs && Step(c, e).crs[service] == c.crs[service]
    ensures Steady(Step(c, e), service, spec)
  {
    StepSafe(c, e);
    StepHeld(c, e);
    if e.Reconcile? && e.service != service {
      ServicesIsolated(c, e.service, e.env);
    } else if e.ReconcileDelete? {
      DeleteIsolated(c, e.service, e.deleteEnv);
    }
  }

  /** What a move does to the resource. */
  ghost predicate MovesRecord(a: CR, b: CR, move: Move, spec: Spec) {
    match move
    case Own(turn) => OnTheClock(a, b, turn, spec)
    case Meanwhile(_) => b == a
  }

  lemma MoveSteady(c: Cluster, b: Cluster, service: string, move: Move, spec: Spec)
    requires Steady(c, service, spec) && Moves(c, b, service, move, spec)
    ensures Steady(b, service, spec) && MovesRecord(c.crs[service], b.crs[service], move, spec)
  {
    match move
    case Own(turn) =>
      TurnOnTheClock(c, b, service, turn, spec);
      TurnSteady(c, b, service, turn, spec);
    case Meanwhile(e) => BystanderSteady(c, e, service, spec);
  }

  lemma {:induction false} RunSteady(states: seq<Cluster>, service: string, moves: seq<Move>, spec: Spec, i: nat)
    requires SmoothRun(states, service, moves, spec) && Steady(states[0], service, spec) && i <= |moves|
    ensures Steady(states[i], service, spec)
  {
    if i > 0 {
      RunSteady(states, service, moves, spec, i - 1);
      MoveSteady(states[i - 1], states[i], service, moves[i - 1], spec);
    }
  }

  /** The resource's record in every state of the run. */
  lemma Records(states: seq<Cluster>, service: string, moves: seq<Move>, spec: Spec) returns (crs: seq<CR>)
    requires SmoothRun(states, service, moves, spec) && Steady(states[0], service, spec)
    ensures |crs| == |states|
    ensures forall i | 0 <= i < |crs| :: service in states[i].crs && crs[i] == states[i].crs[service]
    ensures forall i | 0 <= i < |moves| :: MovesRecord(crs[i], crs[i + 1], moves[i], spec)
  {
    forall i: nat | i < |states|
      ensures Steady(states[i], service, spec)
    {
      RunSteady(states, service, moves, spec, i);
    }
    crs := seq(|states|, i requires 0 <= i < |states| => states[i].crs[service]);
    forall i: nat | i < |moves|
      ensures MovesRecord(crs[i], crs[i + 1], moves[i], spec)
    {
      MoveSteady(states[i], states[i + 1], service, moves[i], spec);
    }
  }

  function Attempts(turns: seq<Turn>): seq<Attempt> {
    seq(|turns|, i requires 0 <= i < |turns| => Attempt(turns[i].env.now, turns[i].created))
  }

  lemma AttemptsFirst(turn: Turn, turns: seq<Turn>)
    ensures Attempts([turn] + turns) == [Attempt(turn.env.now, turn.created)] + Attempts(turns)
  {
  }

  /** The credentials recorded over a run are those that the clock alone predicts for its turns. */
  lemma {:induction false} RecordedByClock(crs: seq<CR>, moves: seq<Move>, spec: Spec)
    requires |crs| == |moves| + 1
    requires forall i | 0 <= i < |moves| :: MovesRecord(crs[i], crs[i + 1], moves[i], spec)
    ensures |crs[|moves|].recorded| == |crs[0].recorded|
            + |Creations(crs[0].status.expiresAt, Attempts(Turns(moves)), spec.expirationDays, spec.graceDays)|
    decreases |moves|
  {
    if moves != [] {
      assert MovesRecord(crs[0], crs[1], moves[0], spec);
      RecordedByClock(crs[1..], moves[1..], spec);
      if moves[0].Own? {
        var rest := Attempts(Turns(moves[1..]));
        AttemptsFirst(moves[0].turn, Turns(moves[1..]));
        assert Attempts(Turns(moves))[1..] == rest;
      }
    }
  }

  /** Each turn falls into the window and reads the clock before it creates. */
  ghost predicate Within(turns: seq<Turn>, start: int, window: nat) {
    forall i | 0 <= i < |turns| :: turns[i].env.now <= turns[i].created && start <= turns[i].created <= start + window
  }

  lemma AttemptsWithin(turns: seq<Turn>, start: int, window: nat)
    requires Within(turns, start, window)
    ensures Ordered(Attempts(turns)) && forall a | a in Attempts(turns) :: start <= a.created <= start + window
  {
  }

  /** Bounded creation: within a window of length W, at most 1 + W/gap credentials are recorded for the
      resource, where gap is expiration minus grace, less a second - whatever consumers, users and the other
      resources do in between. */
  lemma RecordedBounded(states: seq<Cluster>, service: string, moves: seq<Move>, spec: Spec, start: int, window: nat)
    requires SmoothRun(states, service, moves, spec) && Steady(states[0], service, spec)
    requires 0 <= spec.graceDays < spec.expirationDays <= 106_751 && Within(Turns(moves), start, window)
    ensures service in states[0].crs && service in states[|moves|].crs
    ensures var (gap, added) := (Gap(spec.expirationDays, spec.graceDays),
                                 |states[|moves|].crs[service].recorded| - |states[0].crs[service].recorded|);
            gap > 0 && (added - 1) * gap <= window
  {
    var crs := Records(states, service, moves, spec);
    var attempts := Attempts(Turns(moves));
    RecordedByClock(crs, moves, spec);
    AttemptsWithin(Turns(moves), start, window);
    CreationsBounded(crs[0].status.expiresAt, attempts, spec.expirationDays, spec.graceDays, start, window);
  }

  /** And created in time: if the resource's own reconciles follow each other at intervals of at most p, from
      before its credential is due, then in a stretch of time T at least T / (expiration - grace + 2p)
      credentials are recorded. */
  lemma RecordedKeepsUp(states: seq<Cluster>, service: string, moves: seq<Move>, spec: Spec, p: nat)
    requires SmoothRun(states, service, moves, spec) && Steady(states[0], service, spec)
    requires 0 <= spec.graceDays < spec.expirationDays <= 106_751
    requires Turns(moves) != [] && Ordered(Attempts(Turns(moves))) && Dense(Attempts(Turns(moves)), p)
    requires service in states[0].crs
    requires var due := DueFrom(states[0].crs[service].status.expiresAt, Attempts(Turns(moves)), spec.graceDays);
             Turns(moves)[0].env.now <= due + p
    ensures service in states[|moves|].crs
    ensures var due := DueFrom(states[0].crs[service].status.expiresAt, Attempts(Turns(moves)), spec.graceDays);
            var added := |states[|moves|].crs[service].recorded| - |states[0].crs[service].recorded|;
            var step := (spec.expirationDays - spec.graceDays) * 86_400 * 1_000_000_000 + 2 * p;
            Turns(moves)[|Turns(moves)| - 1].env.now <= due + added * step
  {
    var crs := Records(states, service, moves, spec);
    RecordedByClock(crs, moves, spec);
    CreationsKeepUp(crs[0].status.expiresAt, Attempts(Turns(moves)), spec.expirationDays, spec.graceDays, p);
  }
}
