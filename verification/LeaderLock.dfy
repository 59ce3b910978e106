/** The lease lock: atomic queries on one record, interleaved among instances under a clock. */
module LeaderLock {
  import opened Ordering

  // Times are in nanoseconds.
  type Time = int

  const SECOND: Time := 1_000_000_000
  const LEASE: Time := 60 * SECOND
  const RETRY_INTERVAL: Time := 2 * SECOND
  const MAX_RETRIES: nat := 30

  type InstanceId = string

  datatype LockRow = LockRow(holder: Option<InstanceId>, acquiredAt: Time, expiresAt: Time)

  /** The database clock and the lock record, absent until seeded. */
  datatype LockState = LockState(now: Time, row: Option<LockRow>)

  datatype LockEvent =
    | Tick(elapsed: nat)
    | Seed
    | CheckHeld(id: InstanceId)
    | Claim(id: InstanceId)
    | Release(id: InstanceId)

  predicate Free(row: LockRow, now: Time) {
    row.holder.None? || row.holder.value == "" || row.expiresAt < now
  }

  predicate HeldBy(row: LockRow, id: InstanceId, now: Time) {
    row.holder == Some(id) && row.expiresAt > now
  }

  /** Whether the query an event stands for returns a row. */
  predicate Succeeds(s: LockState, e: LockEvent) {
    match e
    case CheckHeld(id) => s.row.Some? && HeldBy(s.row.value, id, s.now)
    case Claim(id) => s.row.Some? && Free(s.row.value, s.now)
    case _ => true
  }

  function Step(s: LockState, e: LockEvent): LockState {
    match e
    case Tick(elapsed) => s.(now := s.now + elapsed)
    case Seed => if s.row.None? then s.(row := Some(LockRow(None, s.now, s.now))) else s
    case CheckHeld(_) => s
    case Claim(id) => if Succeeds(s, e) then s.(row := Some(LockRow(Some(id), s.now, s.now + LEASE))) else s
    case Release(id) =>
      if s.row.Some? && s.row.value.holder == Some(id)
      then s.(row := Some(s.row.value.(holder := None, expiresAt := s.now))) else s
  }

  function After(s: LockState, events: seq<LockEvent>): LockState {
    if events == [] then s else Step(After(s, events[..|events| - 1]), events[|events| - 1])
  }

  // --- Safety under every interleaving ---

  /** Up to its expiry, a lease taken at time `t` is still on record. */
  ghost predicate LeaseStands(s: LockState, id: InstanceId, t: Time) {
    s.now <= t + LEASE ==> s.row == Some(LockRow(Some(id), t, t + LEASE))
  }

  lemma {:induction false} LeaseKept(s: LockState, id: InstanceId, t: Time, events: seq<LockEvent>)
    requires id != "" && LeaseStands(s, id, t)
    requires Release(id) !in events
    ensures LeaseStands(After(s, events), id, t)
  {
    if events != [] {
      var front := events[..|events| - 1];
      assert forall e | e in front :: e in events;
      assert events[|events| - 1] in events;
      LeaseKept(s, id, t, front);
    }
  }

  /** The event by which another instance would take or confirm the lock. */
  predicate ByAnother(e: LockEvent, id: InstanceId) {
    (e.Claim? || e.CheckHeld?) && e.id != id
  }

  /** No other instance gets or confirms the lock within the lease of a claim by `id`, unless `id` releases it. */
  ghost predicate LeaseSafe(id: InstanceId) {
    forall s, events, e ::
      && Succeeds(s, Claim(id)) && Release(id) !in events && ByAnother(e, id)
      && After(Step(s, Claim(id)), events).now <= s.now + LEASE
      ==> !Succeeds(After(Step(s, Claim(id)), events), e)
  }

  /** Leases are safe for exactly the instances with a name: an empty holder counts as none. */
  lemma SafeIffNamed(id: InstanceId)
    ensures LeaseSafe(id) <==> id != ""
  {
    if id != "" {
      forall s, events, e |
        && Succeeds(s, Claim(id)) && Release(id) !in events && ByAnother(e, id)
        && After(Step(s, Claim(id)), events).now <= s.now + LEASE
        ensures !Succeeds(After(Step(s, Claim(id)), events), e)
      {
        LeaseKept(Step(s, Claim(id)), id, s.now, events);
      }
    } else {
      var s := LockState(0, Some(LockRow(None, 0, 0)));
      var none: seq<LockEvent> := [];
      assert After(Step(s, Claim(id)), none) == Step(s, Claim(id));
      assert Succeeds(s, Claim(id)) && Release(id) !in none && ByAnother(Claim("other"), id);
      assert Succeeds(After(Step(s, Claim(id)), none), Claim("other"));
    }
  }

  /** A release by anyone but the lease's owner leaves the lease as it is. */
  lemma StaleReleaseHarmless(s: LockState, owner: InstanceId, stale: InstanceId, events: seq<LockEvent>)
    requires owner != "" && stale != owner && Succeeds(s, Claim(owner)) && Release(owner) !in events
    requires After(Step(s, Claim(owner)), events).now <= s.now + LEASE
    ensures
      var later := After(Step(s, Claim(owner)), events);
      Step(later, Release(stale)) == later && later.row == Some(LockRow(Some(owner), s.now, s.now + LEASE))
  {
    LeaseKept(Step(s, Claim(owner)), owner, s.now, events);
  }

  /** After a release the instance holds nothing, and a lease it still held is anyone's at once. */
  lemma ReleaseFrees(s: LockState, id: InstanceId)
    ensures Step(s, Release(id)).row.Some? ==> Step(s, Release(id)).row.value.holder != Some(id)
    ensures s.row.Some? && s.row.value.holder == Some(id) ==>
      forall other :: Succeeds(Step(s, Release(id)), Claim(other))
  {
  }

  // --- Where a lease comes from ---

  /** The holder on record claimed the lock at event `k`, and neither it nor a claim by another has undone that. */
  ghost predicate ClaimedAt(s: LockState, events: seq<LockEvent>, id: InstanceId, k: nat) {
    && k < |events| && events[k] == Claim(id) && Succeeds(After(s, events[..k]), Claim(id))
    && Release(id) !in events[k + 1..]
    && (forall i | k < i < |events| && events[i].Claim? :: !Succeeds(After(s, events[..i]), events[i]))
    && After(s, events).row == Some(LockRow(Some(id), After(s, events[..k]).now, After(s, events[..k]).now + LEASE))
  }

  /** An event that leaves the row alone, or has no part in it, does not undo a claim. */
  lemma ClaimStands(s: LockState, front: seq<LockEvent>, last: LockEvent, id: InstanceId, k: nat)
    requires ClaimedAt(s, front, id, k) && After(s, front + [last]).row == After(s, front).row
    requires last != Release(id) && (last.Claim? ==> !Succeeds(After(s, front), last))
    ensures ClaimedAt(s, front + [last], id, k)
  {
    var events := front + [last];
    assert events[..k] == front[..k] && events[k + 1..] == front[k + 1..] + [last];
    forall i | k < i < |events| && events[i].Claim? ensures !Succeeds(After(s, events[..i]), events[i]) {
      assert events[..i] == front[..i];
      if i == |front| { assert front[..i] == front; }
    }
  }

  /** From an unseeded record, a lease on record goes back to a claim that succeeded and was not undone. */
  lemma {:induction false} HolderClaimed(s: LockState, events: seq<LockEvent>) returns (k: nat)
    requires s.row.None?
    requires After(s, events).row.Some? && After(s, events).row.value.holder.Some?
    ensures ClaimedAt(s, events, After(s, events).row.value.holder.value, k)
    decreases |events|
  {
    var n := |events| - 1;
    var front, last := events[..n], events[n];
    var id := After(s, events).row.value.holder.value;
    assert events == front + [last];
    if last == Claim(id) && Succeeds(After(s, front), last) {
      k := n;
      assert events[k + 1..] == [];
    } else {
      k := HolderClaimed(s, front);
      ClaimStands(s, front, last, id, k);
    }
  }

  /** A held check succeeds only within the lease of the holder's own last claim. */
  lemma HeldOnlyWithinLease(s: LockState, events: seq<LockEvent>, id: InstanceId) returns (k: nat)
    requires s.row.None? && Succeeds(After(s, events), CheckHeld(id))
    ensures ClaimedAt(s, events, id, k)
    ensures After(s, events).now < After(s, events[..k]).now + LEASE
  {
    k := HolderClaimed(s, events);
  }

  // --- How long a confirmation holds ---

  /** For `span` from now no other instance gets or confirms the lock, unless `id` releases it. */
  ghost predicate UndisturbedFor(s: LockState, id: InstanceId, span: nat) {
    forall events, e ::
      Release(id) !in events && ByAnother(e, id) && After(s, events).now <= s.now + span
      ==> !Succeeds(After(s, events), e)
  }

  /**
   A confirmed lease can be relied on exactly until it expires: the fast path confirms without extending.
   The row is as a claim leaves it, which by `HolderClaimed` every row with a holder is.
   */
  lemma ConfirmationHoldsIff(s: LockState, id: InstanceId, span: nat)
    requires id != "" && Succeeds(s, CheckHeld(id))
    requires s.row.value.expiresAt == s.row.value.acquiredAt + LEASE
    ensures UndisturbedFor(Step(s, CheckHeld(id)), id, span) <==> s.now + span <= s.row.value.expiresAt
  {
    if s.now + span <= s.row.value.expiresAt {
      forall events, e | Release(id) !in events && ByAnother(e, id) && After(s, events).now <= s.now + span
        ensures !Succeeds(After(s, events), e)
      {
        LeaseKept(s, id, s.row.value.acquiredAt, events);
      }
    } else {
      var other := Claim(id + "'");
      var waited := [Tick(span)];
      assert waited[..0] == [];
      assert After(s, waited) == Step(s, Tick(span));
      assert ByAnother(other, id) && Release(id) !in waited && Succeeds(After(s, waited), other);
    }
  }

  /** So a lease confirmed at 59 seconds may be gone two seconds later. */
  lemma FastPathDoesNotRenew(s: LockState, id: InstanceId, other: InstanceId)
    requires id != "" && Succeeds(s, Claim(id))
    ensures
      var confirmed := After(Step(s, Claim(id)), [Tick(59 * SECOND)]);
      && Succeeds(confirmed, CheckHeld(id))
      && Succeeds(After(confirmed, [CheckHeld(id), Tick(2 * SECOND)]), Claim(other))
  {
    var claimed := Step(s, Claim(id));
    var events := [CheckHeld(id), Tick(2 * SECOND)];
    assert [Tick(59 * SECOND)][..0] == [];
    assert After(claimed, [Tick(59 * SECOND)]) == Step(claimed, Tick(59 * SECOND));
    var confirmed := After(claimed, [Tick(59 * SECOND)]);
    assert events[..1] == [CheckHeld(id)] && events[..1][..0] == [];
    assert After(confirmed, events[..1]) == confirmed;
    assert After(confirmed, events) == Step(confirmed, Tick(2 * SECOND));
  }

  // --- Attempts and retries among the events of others ---

  /** What others and the clock do after an attempt's seed, after its check, and while the loop sleeps. */
  datatype Others = Others(early: seq<LockEvent>, late: seq<LockEvent>, asleep: seq<LockEvent>)

  /** The last event of a run succeeds. */
  predicate LastSucceeds(s: LockState, events: seq<LockEvent>) {
    events != [] && Succeeds(After(s, events[..|events| - 1]), events[|events| - 1])
  }

  /** One attempt: seed, check, and claim unless the check succeeded. */
  function Attempt(s: LockState, id: InstanceId, early: seq<LockEvent>, late: seq<LockEvent>): seq<LockEvent> {
    var checking := [Seed] + early + [CheckHeld(id)];
    if LastSucceeds(s, checking) then checking else checking + late + [Claim(id)]
  }

  /** Attempts two seconds apart until one succeeds or they run out. */
  function Retries(s: LockState, id: InstanceId, others: seq<Others>): seq<LockEvent>
    decreases |others|
  {
    if others == [] then []
    else
      var attempt := Attempt(s, id, others[0].early, others[0].late);
      if LastSucceeds(s, attempt) || |others| == 1 then attempt
      else
        var rested := attempt + [Tick(RETRY_INTERVAL)] + others[0].asleep;
        rested + Retries(After(s, rested), id, others[1..])
  }

  lemma {:induction false} AfterJoin(s: LockState, a: seq<LockEvent>, b: seq<LockEvent>)
    ensures After(s, a + b) == After(After(s, a), b)
    ensures b != [] ==> LastSucceeds(s, a + b) == LastSucceeds(After(s, a), b)
  {
    if b == [] {
      assert a + b == a;
    } else {
      var front := b[..|b| - 1];
      AfterJoin(s, a, front);
      assert (a + b)[..|a + b| - 1] == a + front;
    }
  }

  lemma AfterOne(s: LockState, e: LockEvent)
    ensures After(s, [e]) == Step(s, e) && LastSucceeds(s, [e]) == Succeeds(s, e)
  {
    assert [e][..0] == [];
  }

  /** The run leads to a state, with or without success. */
  ghost predicate EndsWith(s: LockState, events: seq<LockEvent>, end: LockState, success: bool) {
    After(s, events) == end && LastSucceeds(s, events) == success
  }

  lemma AttemptSteps(s: LockState, id: InstanceId, early: seq<LockEvent>, late: seq<LockEvent>)
    ensures
      var checked, events := After(Step(s, Seed), early), Attempt(s, id, early, late);
      if Succeeds(checked, CheckHeld(id)) then EndsWith(s, events, checked, true)
      else
        var claiming := After(checked, late);
        EndsWith(s, events, Step(claiming, Claim(id)), Succeeds(claiming, Claim(id)))
  {
    var checked, checking := After(Step(s, Seed), early), [Seed] + early + [CheckHeld(id)];
    AfterOne(s, Seed);
    AfterJoin(s, [Seed], early);
    AfterJoin(s, [Seed] + early, [CheckHeld(id)]);
    AfterOne(checked, CheckHeld(id));
    AfterJoin(s, checking, late);
    AfterJoin(s, checking + late, [Claim(id)]);
    AfterOne(After(checked, late), Claim(id));
  }

  /** Going on from `now` with the remaining attempts comes to what all of them come to from `s`. */
  ghost predicate Resumes(s: LockState, id: InstanceId, others: seq<Others>, now: LockState, rest: seq<Others>) {
    EndsWith(s, Retries(s, id, others), After(now, Retries(now, id, rest)), LastSucceeds(now, Retries(now, id, rest)))
  }

  lemma RetriesResume(now: LockState, id: InstanceId, rest: seq<Others>, success: bool)
    requires rest != [] && success == LastSucceeds(now, Attempt(now, id, rest[0].early, rest[0].late))
    ensures
      var attempt := Attempt(now, id, rest[0].early, rest[0].late);
      if success || |rest| == 1 then Retries(now, id, rest) == attempt
      else Resumes(now, id, rest, After(After(After(now, attempt), [Tick(RETRY_INTERVAL)]), rest[0].asleep), rest[1..])
  {
    var attempt := Attempt(now, id, rest[0].early, rest[0].late);
    if !success && |rest| > 1 {
      var rested := attempt + [Tick(RETRY_INTERVAL)] + rest[0].asleep;
      AfterJoin(now, attempt, [Tick(RETRY_INTERVAL)]);
      AfterJoin(now, attempt + [Tick(RETRY_INTERVAL)], rest[0].asleep);
      var later := After(now, rested);
      RetriesEnd(later, id, rest[1..]);
      AfterJoin(now, rested, Retries(later, id, rest[1..]));
    }
  }

  /** One attempt ends the loop or leaves it to go on with the others. */
  lemma ResumesNext(s: LockState, id: InstanceId, others: seq<Others>, k: nat, now: LockState)
    requires k < |others| && Resumes(s, id, others, now, others[k..])
    ensures
      var attempt := Attempt(now, id, others[k].early, others[k].late);
      var tried, success := After(now, attempt), LastSucceeds(now, attempt);
      if success || k == |others| - 1 then EndsWith(s, Retries(s, id, others), tried, success)
      else Resumes(s, id, others, After(After(tried, [Tick(RETRY_INTERVAL)]), others[k].asleep), others[k + 1..])
  {
    var rest := others[k..];
    assert rest[0] == others[k] && rest[1..] == others[k + 1..];
    RetriesResume(now, id, rest, LastSucceeds(now, Attempt(now, id, others[k].early, others[k].late)));
  }

  lemma RetriesEnd(s: LockState, id: InstanceId, others: seq<Others>)
    ensures others != [] ==> Retries(s, id, others) != []
  {
  }

  // --- With only the clock at work ---

  predicate TicksOnly(events: seq<LockEvent>) {
    forall e | e in events :: e.Tick?
  }

  function Elapsed(events: seq<LockEvent>): nat {
    if events == [] then 0
    else
      var last := events[|events| - 1];
      Elapsed(events[..|events| - 1]) + if last.Tick? then last.elapsed else 0
  }

  lemma {:induction false} AfterTicks(s: LockState, events: seq<LockEvent>)
    requires TicksOnly(events)
    ensures After(s, events) == s.(now := s.now + Elapsed(events))
  {
    if events != [] {
      var front := events[..|events| - 1];
      assert events[|events| - 1] in events && forall e | e in front :: e in events;
      AfterTicks(s, front);
    }
  }

  /** Nobody else at work: time passes, in queries as well as in sleep. */
  predicate Quiet(others: seq<Others>) {
    forall o | o in others :: TicksOnly(o.early) && TicksOnly(o.late) && TicksOnly(o.asleep)
  }

  function QueryTime(o: Others): nat { Elapsed(o.early) + Elapsed(o.late) }

  /** The time from the first query to the last claim. */
  function Span(others: seq<Others>): nat {
    if others == [] then 0
    else if |others| == 1 then QueryTime(others[0])
    else QueryTime(others[0]) + RETRY_INTERVAL + Elapsed(others[0].asleep) + Span(others[1..])
  }

  /** The lock is free by the time of a claim, or this instance's own still at the time of a check. */
  predicate Obtainable(s: LockState, id: InstanceId, check: nat, claim: nat) {
    s.row.Some? ==>
      || s.row.value.holder.None? || s.row.value.holder.value == ""
      || s.row.value.expiresAt < s.now + claim
      || (s.row.value.holder == Some(id) && s.row.value.expiresAt > s.now + check)
  }

  /** An attempt among ticks succeeds iff the lock is obtainable, and otherwise only time has passed. */
  lemma QuietAttempt(s: LockState, id: InstanceId, early: seq<LockEvent>, late: seq<LockEvent>)
    requires TicksOnly(early) && TicksOnly(late)
    ensures LastSucceeds(s, Attempt(s, id, early, late))
       <==> Obtainable(s, id, Elapsed(early), Elapsed(early) + Elapsed(late))
    ensures !Obtainable(s, id, Elapsed(early), Elapsed(early) + Elapsed(late)) ==>
      After(s, Attempt(s, id, early, late)) == s.(now := s.now + Elapsed(early) + Elapsed(late))
    ensures After(s, Attempt(s, id, early, late)).now <= s.now + Elapsed(early) + Elapsed(late)
  {
    hide Attempt, After, LastSucceeds, Elapsed;
    AttemptSteps(s, id, early, late);
    AfterTicks(Step(s, Seed), early);
    AfterTicks(After(Step(s, Seed), early), late);
  }

  /** With the row kept, the later attempts need only find the lease run out. */
  lemma ObtainableLater(s: LockState, id: InstanceId, check: nat, claim: nat, rest: nat, check': nat, span: nat)
    requires !Obtainable(s, id, check, claim) && check <= claim <= rest
    ensures Obtainable(s.(now := s.now + rest), id, check', span) <==> Obtainable(s, id, check, rest + span)
  {
  }

  /**
   With nobody else at work the retries get the lock iff it is free by the time of the last claim, or this
   instance's own at the time of the first check; otherwise only time has passed.
   */
  lemma {:induction false} QuietRetries(s: LockState, id: InstanceId, others: seq<Others>)
    requires others != [] && Quiet(others)
    ensures LastSucceeds(s, Retries(s, id, others)) <==> Obtainable(s, id, Elapsed(others[0].early), Span(others))
    ensures !Obtainable(s, id, Elapsed(others[0].early), Span(others)) ==>
      After(s, Retries(s, id, others)) == s.(now := s.now + Span(others))
    decreases |others|
  {
    hide Attempt, After, LastSucceeds;
    var o := others[0];
    assert o in others;
    QuietAttempt(s, id, o.early, o.late);
    var success := LastSucceeds(s, Attempt(s, id, o.early, o.late));
    RetriesResume(s, id, others, success);
    if !success && |others| > 1 {
      var rest := QueryTime(o) + RETRY_INTERVAL + Elapsed(o.asleep);
      QuietRest(s, id, o);
      assert Quiet(others[1..]);
      ObtainableLater(s, id, Elapsed(o.early), QueryTime(o), rest, Elapsed(others[1].early), Span(others[1..]));
      QuietRetries(s.(now := s.now + rest), id, others[1..]);
    }
  }

  /** After a failed attempt and the sleep behind it. */
  lemma QuietRest(s: LockState, id: InstanceId, o: Others)
    requires TicksOnly(o.early) && TicksOnly(o.late) && TicksOnly(o.asleep)
    requires !LastSucceeds(s, Attempt(s, id, o.early, o.late))
    ensures After(After(After(s, Attempt(s, id, o.early, o.late)), [Tick(RETRY_INTERVAL)]), o.asleep)
         == s.(now := s.now + QueryTime(o) + RETRY_INTERVAL + Elapsed(o.asleep))
  {
    hide Attempt, After, LastSucceeds;
    QuietAttempt(s, id, o.early, o.late);
    var tried := After(s, Attempt(s, id, o.early, o.late));
    AfterOne(tried, Tick(RETRY_INTERVAL));
    AfterTicks(Step(tried, Tick(RETRY_INTERVAL)), o.asleep);
  }

  /** Attempts whose queries take no time. */
  function Instant(n: nat): seq<Others> {
    seq(n, _ => Others([], [], []))
  }

  lemma {:induction false} InstantSpan(n: nat)
    ensures Quiet(Instant(n)) && Span(Instant(n)) == if n == 0 then 0 else (n - 1) * RETRY_INTERVAL
  {
    if n > 1 {
      assert Instant(n)[1..] == Instant(n - 1);
      InstantSpan(n - 1);
      assert (n - 1) * RETRY_INTERVAL == (n - 2) * RETRY_INTERVAL + RETRY_INTERVAL;
    }
  }

  /** An attempt that takes no time succeeds iff the lock is free or this instance's own. */
  lemma AttemptAlone(s: LockState, id: InstanceId)
    ensures LastSucceeds(s, Attempt(s, id, [], [])) <==> Obtainable(s, id, 0, 0)
    ensures After(s, Attempt(s, id, [], [])).now <= s.now
    ensures !Obtainable(s, id, 0, 0) ==> After(s, Attempt(s, id, [], [])) == s
  {
    QuietAttempt(s, id, [], []);
  }

  /** If queries took no time, `n` attempts would get the lock iff it is had at once or within the sleeps between. */
  lemma RetriesAlone(s: LockState, id: InstanceId, n: nat)
    requires n > 0
    ensures LastSucceeds(s, Retries(s, id, Instant(n))) <==> Obtainable(s, id, 0, (n - 1) * RETRY_INTERVAL)
    ensures !Obtainable(s, id, 0, (n - 1) * RETRY_INTERVAL) ==>
      After(s, Retries(s, id, Instant(n))) == s.(now := s.now + (n - 1) * RETRY_INTERVAL)
  {
    InstantSpan(n);
    QuietRetries(s, id, Instant(n));
  }

  /**
   An instance that starts `wait` after a holder claimed and crashed gets the lock iff the lease runs out
   before its last claim.
   */
  lemma CrashedHolderOutlastsRetries(s: LockState, holder: InstanceId, waiter: InstanceId, wait: nat,
                                     others: seq<Others>)
    requires holder != "" && waiter != holder && Succeeds(s, Claim(holder))
    requires others != [] && Quiet(others)
    ensures
      var waiting := Step(Step(s, Claim(holder)), Tick(wait));
      LastSucceeds(waiting, Retries(waiting, waiter, others)) <==> LEASE < wait + Span(others)
  {
    QuietRetries(Step(Step(s, Claim(holder)), Tick(wait)), waiter, others);
  }

  /** Thirty attempts that take no time of their own span 58 seconds: too short for a lease two seconds old. */
  lemma FiftyEightSeconds(s: LockState, holder: InstanceId, waiter: InstanceId, wait: nat)
    requires holder != "" && waiter != holder && Succeeds(s, Claim(holder))
    ensures
      var waiting := Step(Step(s, Claim(holder)), Tick(wait));
      LastSucceeds(waiting, Retries(waiting, waiter, Instant(MAX_RETRIES))) <==> wait > RETRY_INTERVAL
  {
    InstantSpan(MAX_RETRIES);
    CrashedHolderOutlastsRetries(s, holder, waiter, wait, Instant(MAX_RETRIES));
  }

  // --- The operations ---

  /** The lock table as the database holds it. */
  class LockStore {
    var now: Time
    var row: Option<LockRow>

    constructor (t: Time)
      ensures now == t && row.None?
    {
      now, row := t, None;
    }

    function State(): LockState
      reads this
    {
      LockState(now, row)
    }

    /** Let the clock and other instances run. */
    method Play(events: seq<LockEvent>)
      modifies this
      ensures State() == After(old(State()), events)
    {
      for i := 0 to |events|
        invariant State() == After(old(State()), events[..i])
      {
        assert events[..i + 1][..i] == events[..i];
        var next := Step(State(), events[i]);
        now, row := next.now, next.row;
      }
      assert events[..|events|] == events;
    }
  }

  class SurrealLock {
    const client: LockStore
    const instanceId: InstanceId

    constructor (client: LockStore, instanceId: InstanceId)
      ensures this.client == client && this.instanceId == instanceId
    {
      this.client, this.instanceId := client, instanceId;
    }

    method SeedRecord()
      modifies client
      ensures client.State() == Step(old(client.State()), Seed)
    {
      if client.row.None? {
        client.row := Some(LockRow(None, client.now, client.now));
      }
    }

    method IsHeld() returns (held: bool)
      ensures held == Succeeds(client.State(), CheckHeld(instanceId))
    {
      held := client.row.Some? && client.row.value.holder == Some(instanceId)
        && client.row.value.expiresAt > client.now;
    }

    method ClaimRecord() returns (claimed: bool)
      modifies client
      ensures claimed == old(Succeeds(client.State(), Claim(instanceId)))
      ensures client.State() == Step(old(client.State()), Claim(instanceId))
    {
      claimed := client.row.Some? && Free(client.row.value, client.now);
      if claimed {
        client.row := Some(LockRow(Some(instanceId), client.now, client.now + LEASE));
      }
    }

    /** Seed, check, claim, with whatever others do between; success means the lease is this instance's. */
    method TryAcquire(early: seq<LockEvent>, late: seq<LockEvent>) returns (acquired: bool)
      modifies client
      ensures client.State() == old(After(client.State(), Attempt(client.State(), instanceId, early, late)))
      ensures acquired == old(LastSucceeds(client.State(), Attempt(client.State(), instanceId, early, late)))
      ensures acquired ==> client.row.Some? && HeldBy(client.row.value, instanceId, client.now)
    {
      AttemptSteps(client.State(), instanceId, early, late);
      SeedRecord();
      client.Play(early);
      acquired := IsHeld();
      if !acquired {
        client.Play(late);
        acquired := ClaimRecord();
      }
    }

    method ReleaseRecord()
      modifies client
      ensures client.State() == Step(old(client.State()), Release(instanceId))
    {
      if client.row.Some? && client.row.value.holder == Some(instanceId) {
        client.row := Some(client.row.value.(holder := None, expiresAt := client.now));
      }
    }

    /** Retry for as long as the attempts last. */
    method Acquire(others: seq<Others>) returns (acquired: bool)
      requires |others| == MAX_RETRIES
      modifies client
      ensures client.State() == old(After(client.State(), Retries(client.State(), instanceId, others)))
      ensures acquired == old(LastSucceeds(client.State(), Retries(client.State(), instanceId, others)))
      ensures acquired ==> client.row.Some? && HeldBy(client.row.value, instanceId, client.now)
    {
      hide Attempt, After, LastSucceeds, Retries;
      ghost var s := client.State();
      for attempt := 1 to MAX_RETRIES + 1
        invariant attempt <= MAX_RETRIES ==> Resumes(s, instanceId, others, client.State(), others[attempt - 1..])
        invariant attempt > MAX_RETRIES ==> EndsWith(s, Retries(s, instanceId, others), client.State(), false)
      {
        var o := others[attempt - 1];
        ResumesNext(s, instanceId, others, attempt - 1, client.State());
        acquired := TryAcquire(o.early, o.late);
        if acquired {
          return;
        }
        if attempt < MAX_RETRIES {
          client.Play([Tick(RETRY_INTERVAL)]);
          client.Play(o.asleep);
        }
      }
      return false;
    }
  }
}
