/** When an application credential is rotated, and how many credentials that can create.
    A time.Duration is a signed 64-bit count of nanoseconds. */
module CredentialClock {
  import opened Times
  import opened Wrappers

  const WORD: int := 0x1_0000_0000_0000_0000

  /** Two's-complement wrap-around of int64 arithmetic. */
  function Wrap64(x: int): int {
    (x + WORD / 2) % WORD - WORD / 2
  }

  /** time.Duration(days) * 24 * time.Hour */
  function Days(days: int): int {
    Wrap64(days * DAY)
  }

  /** needsRotation; expiresAt is None for a nil or zero time. */
  predicate NeedsRotation(acID: string, storedHash: string, hash: string, expiresAt: Option<int>, graceDays: int,
                          now: int) {
    || acID == ""
    || (storedHash != "" && hash != storedHash)
    || (expiresAt.Some? && now > expiresAt.value - Days(graceDays))
  }

  /** The duration arithmetic is exact for up to 106751 days, about 292 years, and for no more. */
  lemma DaysExactIff(days: nat)
    ensures Days(days) == days * DAY <==> days <= 106_751
  {
    if days <= 106_751 {
      assert 0 <= days * DAY < WORD / 2;
    } else {
      assert days * DAY >= WORD / 2;
      assert Days(days) < WORD / 2;
    }
  }

  /** One reconcile: the clock read by needsRotation and, later, the one read when creating. */
  datatype Attempt = Attempt(checked: int, created: int)

  /** The creation times over a run of successful reconciles with fixed spec, Keystone honouring
      the requested expiry, and no missing secret. expiresAt is None before the first creation. */
  function Creations(expiresAt: Option<int>, run: seq<Attempt>, expirationDays: int, graceDays: int): seq<int>
    decreases |run|
  {
    if run == [] then []
    else
      var a := run[0];
      if expiresAt.None? || a.checked > expiresAt.value - Days(graceDays)
      then [a.created]
           + Creations(Some(Truncated(a.created + Days(expirationDays))), run[1..], expirationDays, graceDays)
      else Creations(expiresAt, run[1..], expirationDays, graceDays)
  }

  /** Each reconcile reads the clock before it creates. */
  ghost predicate Ordered(run: seq<Attempt>) {
    forall i | 0 <= i < |run| :: run[i].checked <= run[i].created
  }

  function Gap(expirationDays: int, graceDays: int): int {
    (expirationDays - graceDays) * DAY - SECOND
  }

  ghost predicate Spaced(times: seq<int>, gap: int) {
    forall i | 0 <= i < |times| - 1 :: times[i + 1] > times[i] + gap
  }

  /** Consecutive creations are more than expiration minus grace apart, less one second of rounding. */
  lemma {:induction false} CreationsSpaced(expiresAt: Option<int>, run: seq<Attempt>, expirationDays: nat,
                                           graceDays: nat)
    requires Ordered(run) && expirationDays <= 106_751 && graceDays <= 106_751
    ensures var c := Creations(expiresAt, run, expirationDays, graceDays);
            && Spaced(c, Gap(expirationDays, graceDays))
            && (|c| > 0 && expiresAt.Some? ==> c[0] > expiresAt.value - graceDays * DAY)
            && forall t | t in c :: exists a | a in run :: t == a.created
    decreases |run|
  {
    if run != [] {
      DaysExactIff(expirationDays);
      DaysExactIff(graceDays);
      assert Ordered(run[1..]);
      assert run[0] in run;
      var next := Some(Truncated(run[0].created + Days(expirationDays)));
      CreationsSpaced(next, run[1..], expirationDays, graceDays);
      CreationsSpaced(expiresAt, run[1..], expirationDays, graceDays);
      assert forall a | a in run[1..] :: a in run;
    }
  }

  lemma {:induction false} SpacedSum(times: seq<int>, gap: int)
    requires Spaced(times, gap) && |times| >= 1 && gap >= 0
    ensures times[|times| - 1] >= times[0] + (|times| - 1) * gap
  {
    if |times| > 1 {
      var front := times[..|times| - 1];
      assert Spaced(front, gap);
      SpacedSum(front, gap);
      assert times[|times| - 1] > front[|front| - 1] + gap;
      assert (|times| - 1) * gap == (|front| - 1) * gap + gap;
    }
  }

  /** Over a run of length at most `window`, the creations after the first fit into the window
      at that distance: their number is at most 1 + window / gap. */
  lemma CreationsBounded(expiresAt: Option<int>, run: seq<Attempt>, expirationDays: nat, graceDays: nat,
                         start: int, window: nat)
    requires Ordered(run) && graceDays < expirationDays <= 106_751
    requires forall a | a in run :: start <= a.created <= start + window
    ensures var c, gap := Creations(expiresAt, run, expirationDays, graceDays), Gap(expirationDays, graceDays);
            gap > 0 && (|c| - 1) * gap <= window
  {
    var c, gap := Creations(expiresAt, run, expirationDays, graceDays), Gap(expirationDays, graceDays);
    CreationsSpaced(expiresAt, run, expirationDays, graceDays);
    GapPositive(expirationDays, graceDays);
    if |c| > 0 {
      SpacedSum(c, gap);
      assert c[0] in c && c[|c| - 1] in c;
    } else {
      assert (|c| - 1) * gap == -gap;
    }
  }

  /** From the start of one reconcile to the start of the next, and so to its own end, it is at most p. */
  ghost predicate Dense(run: seq<Attempt>, p: nat) {
    forall i | 0 <= i < |run| - 1 :: run[i].created <= run[i + 1].checked <= run[i].checked + p
  }

  /** When the next credential has to be created: the grace period begins, or there is none yet. */
  function DueFrom(expiresAt: Option<int>, run: seq<Attempt>, graceDays: int): int
    requires run != []
  {
    if expiresAt.Some? then expiresAt.value - graceDays * DAY else run[0].checked
  }

  /** A creation moves the due time on by expiration minus grace, less at most one second of rounding. */
  lemma DueMoves(created: int, expirationDays: nat, graceDays: nat)
    requires graceDays < expirationDays <= 106_751
    ensures var (due, lapse) := (Truncated(created + Days(expirationDays)) - graceDays * DAY,
                                 (expirationDays - graceDays) * DAY);
            created + lapse - SECOND < due <= created + lapse && lapse >= DAY
  {
    DaysExactIff(expirationDays);
    GapPositive(expirationDays, graceDays);
  }

  /** One reconcile: whether it creates, and when the next one is due. */
  lemma DueAfter(expiresAt: Option<int>, run: seq<Attempt>, expirationDays: nat, graceDays: nat, p: nat)
    requires |run| >= 2 && Ordered(run) && Dense(run, p) && graceDays < expirationDays <= 106_751
    requires run[0].checked <= DueFrom(expiresAt, run, graceDays) + p
    ensures var (due, lapse) := (DueFrom(expiresAt, run, graceDays), (expirationDays - graceDays) * DAY);
            var creates := expiresAt.None? || run[0].checked > due;
            var next := if creates then Some(Truncated(run[0].created + Days(expirationDays))) else expiresAt;
            var due' := DueFrom(next, run[1..], graceDays);
            && run[1].checked <= due' + p && due' <= (if creates then due + lapse + 2 * p else due)
            && Creations(expiresAt, run, expirationDays, graceDays) ==
               (if creates then [run[0].created] else []) + Creations(next, run[1..], expirationDays, graceDays)
  {
    DaysExactIff(graceDays);
    DueMoves(run[0].created, expirationDays, graceDays);
  }

  lemma {:induction false} KeepsUp(expiresAt: Option<int>, run: seq<Attempt>, expirationDays: nat, graceDays: nat,
                                   p: nat, step: int)
    requires run != [] && Ordered(run) && Dense(run, p) && graceDays < expirationDays <= 106_751
    requires run[0].checked <= DueFrom(expiresAt, run, graceDays) + p
    requires step == (expirationDays - graceDays) * DAY + 2 * p
    ensures run[|run| - 1].checked <=
            DueFrom(expiresAt, run, graceDays) + |Creations(expiresAt, run, expirationDays, graceDays)| * step
    decreases |run|
  {
    if |run| == 1 {
      LastDue(expiresAt, run[0], expirationDays, graceDays, p);
      assert run == [run[0]];
    } else {
      var due, rest := DueFrom(expiresAt, run, graceDays), run[1..];
      var creates := expiresAt.None? || run[0].checked > due;
      var next := if creates then Some(Truncated(run[0].created + Days(expirationDays))) else expiresAt;
      DueAfter(expiresAt, run, expirationDays, graceDays, p);
      KeepsUp(next, rest, expirationDays, graceDays, p, step);
      Chained(run[|run| - 1].checked, due, DueFrom(next, rest, graceDays),
              |Creations(next, rest, expirationDays, graceDays)|, step, creates);
    }
  }

  lemma Chained(last: int, due: int, due': int, k: nat, step: int, creates: bool)
    requires last <= due' + k * step && due' <= if creates then due + step else due
    ensures last <= due + (if creates then k + 1 else k) * step
  {
  }

  /** The other bound: if reconciles follow each other closely, creations keep up with the clock. They are at
      most expiration minus grace and two such intervals apart. */
  lemma CreationsKeepUp(expiresAt: Option<int>, run: seq<Attempt>, expirationDays: nat, graceDays: nat, p: nat)
    requires run != [] && Ordered(run) && Dense(run, p) && graceDays < expirationDays <= 106_751
    requires run[0].checked <= DueFrom(expiresAt, run, graceDays) + p
    ensures var (c, due) := (Creations(expiresAt, run, expirationDays, graceDays), DueFrom(expiresAt, run, graceDays));
            run[|run| - 1].checked <= due + |c| * ((expirationDays - graceDays) * 86_400 * 1_000_000_000 + 2 * p)
  {
    var step := (expirationDays - graceDays) * 86_400 * 1_000_000_000 + 2 * p;
    KeepsUp(expiresAt, run, expirationDays, graceDays, p, step);
  }

  lemma LastDue(expiresAt: Option<int>, a: Attempt, expirationDays: nat, graceDays: nat, p: nat)
    requires graceDays < expirationDays <= 106_751 && a.checked <= DueFrom(expiresAt, [a], graceDays) + p
    ensures var (c, due) := (Creations(expiresAt, [a], expirationDays, graceDays), DueFrom(expiresAt, [a], graceDays));
            |c| <= 1 && a.checked <= due + |c| * ((expirationDays - graceDays) * DAY + 2 * p)
  {
    DaysExactIff(graceDays);
    GapPositive(expirationDays, graceDays);
    assert [a][1..] == [];
  }

  lemma GapPositive(expirationDays: int, graceDays: int)
    requires graceDays < expirationDays
    ensures Gap(expirationDays, graceDays) > 0
  {
    assert (expirationDays - graceDays) * DAY >= DAY;
  }
}
