/** Any number of concurrent alert dispatches against one cooldown store, interleaved at their await points.
    A dispatch reserves, calls the provider, then records the delivery or releases its lease;
    a refused dispatch records a skip. The clock never goes back. */
module AlertProtocol {
  import opened Sequences
  import opened AlertFingerprint
  import opened AlertCooldown

  datatype Phase =
    | Ready
    | Retrying
    | Sending(reservedAt: int, until: int)
    | Skipping(at: int, race: bool)
    | Finished(race: bool)

  datatype Dispatch = Dispatch(request: FingerprintInput, lease: int, phase: Phase)

  datatype Event =
    | Reserved(request: FingerprintInput, at: int, until: int)
    | Delivered(request: FingerprintInput, at: int, reservedAt: int, until: int)
    | Failed(request: FingerprintInput, until: int)
    | Skipped(request: FingerprintInput, at: int)

  datatype World = World(now: int, store: Store, dispatches: seq<Dispatch>, log: seq<Event>)

  datatype Action =
    | Tick(to: int)
    | Spawn(request: FingerprintInput, lease: int)
    | DoReserve(c: nat)
    | DoDeliver(c: nat)
    | DoFail(c: nat)
    | DoSkip(c: nat)

  ghost function Fp(ops: TextOps, w: World, c: nat): string
    requires c < |w.dispatches|
  {
    Fingerprint(ops, w.dispatches[c].request)
  }

  ghost predicate Enabled(w: World, a: Action) {
    match a
    case Tick(to) => w.now <= to
    case Spawn(_, _) => true
    case DoReserve(c) => c < |w.dispatches| && (w.dispatches[c].phase.Ready? || w.dispatches[c].phase.Retrying?)
    case DoDeliver(c) => c < |w.dispatches| && w.dispatches[c].phase.Sending?
    case DoFail(c) => c < |w.dispatches| && w.dispatches[c].phase.Sending?
    case DoSkip(c) => c < |w.dispatches| && w.dispatches[c].phase.Skipping?
  }

  ghost function SetPhase(w: World, c: nat, p: Phase): seq<Dispatch>
    requires c < |w.dispatches|
  {
    w.dispatches[c := w.dispatches[c].(phase := p)]
  }

  /** One atomic step. A refused reservation is explained from the state the store returned; only a refusal
      without an explanation is tried a second time. */
  ghost function Step(ops: TextOps, w: World, a: Action): World
    requires Enabled(w, a)
  {
    match a
    case Tick(to) => w.(now := to)
    case Spawn(request, lease) => w.(dispatches := w.dispatches + [Dispatch(request, lease, Ready)])
    case DoReserve(c) =>
      var d := w.dispatches[c];
      var fp := Fp(ops, w, c);
      var sev := d.request.severity;
      if !Blocked(w.store, fp, sev, w.now) then
        World(w.now, AfterReserve(w.store, fp, sev, w.now, w.now + d.lease),
              SetPhase(w, c, Sending(w.now, w.now + d.lease)),
              w.log + [Reserved(d.request, w.now, w.now + d.lease)])
      else if DescribeBlock(w.store[fp], sev, w.now) == Open && d.phase.Ready? then
        w.(dispatches := SetPhase(w, c, Retrying))
      else
        w.(dispatches := SetPhase(w, c, Skipping(w.now, DescribeBlock(w.store[fp], sev, w.now) == Open)))
    case DoDeliver(c) =>
      var d := w.dispatches[c];
      World(w.now, AfterSent(w.store, Fp(ops, w, c), d.request.severity, w.now), SetPhase(w, c, Finished(false)),
            w.log + [Delivered(d.request, w.now, d.phase.reservedAt, d.phase.until)])
    case DoFail(c) =>
      var d := w.dispatches[c];
      w.(store := AfterRelease(w.store, Fp(ops, w, c), d.request.severity, d.phase.until),
         dispatches := SetPhase(w, c, Finished(false)), log := w.log + [Failed(d.request, d.phase.until)])
    case DoSkip(c) =>
      var d := w.dispatches[c];
      w.(store := AfterSkipped(w.store, Fp(ops, w, c), d.request.severity, d.phase.at),
         dispatches := SetPhase(w, c, Finished(d.phase.race)), log := w.log + [Skipped(d.request, d.phase.at)])
  }

  ghost function Start(t: int): World {
    World(t, map[], [], [])
  }

  /** `run` is a legal sequence of steps from `w`. */
  ghost predicate Legal(ops: TextOps, w: World, run: seq<Action>)
    decreases |run|
  {
    run == [] || (Enabled(w, run[0]) && Legal(ops, Step(ops, w, run[0]), run[1..]))
  }

  ghost function After(ops: TextOps, w: World, run: seq<Action>): World
    requires Legal(ops, w, run)
    decreases |run|
  {
    if run == [] then w else After(ops, Step(ops, w, run[0]), run[1..])
  }

  /** Every dispatch of the run asks for a lease no longer than its cooldown, as the default lease is. */
  ghost predicate LeasesFit(run: seq<Action>) {
    forall a | a in run && a.Spawn? :: a.lease <= CooldownMs(a.request.severity)
  }

  /** The default lease is one minute, no longer than any cooldown: one minute, five minutes, one hour, six hours. */
  lemma DefaultLeaseFits(s: Severity)
    ensures DEFAULT_RESERVATION_MS == 60_000 <= CooldownMs(s)
    ensures CooldownMs(P0) == 60_000 && CooldownMs(P1) == 300_000
    ensures CooldownMs(P2) == 3_600_000 && CooldownMs(P3) == 21_600_000
  {}

  // ----- the invariant -----

  ghost predicate InFlight(w: World, c: nat) {
    c < |w.dispatches| && w.dispatches[c].phase.Sending?
  }

  ghost predicate Unexpired(w: World, c: nat) {
    InFlight(w, c) && w.now < w.dispatches[c].phase.until
  }

  ghost predicate WellTimed(w: World, c: nat)
    requires c < |w.dispatches|
  {
    var d := w.dispatches[c];
    d.phase.Sending? ==> d.phase.reservedAt <= w.now && d.phase.until == d.phase.reservedAt + d.lease
  }

  /** The store refuses every reservation until the lease of `c` has run out: through the lease itself,
      or through the cooldown of a delivery that wiped it. */
  ghost predicate Guarded(ops: TextOps, w: World, c: nat)
    requires InFlight(w, c)
  {
    var fp := Fp(ops, w, c);
    var until := w.dispatches[c].phase.until;
    || Lease(w.store, fp) == Some(until)
    || (LastSent(w.store, fp).Some?
        && until <= LastSent(w.store, fp).value + CooldownMs(w.dispatches[c].request.severity))
  }

  /** Of two senders of one fingerprint, the later reserved after the lease of the earlier had run out. */
  ghost predicate Ordered(ops: TextOps, w: World, c: nat, d: nat)
    requires InFlight(w, c) && InFlight(w, d)
  {
    c != d && Fp(ops, w, c) == Fp(ops, w, d) ==>
      || w.dispatches[c].phase.until <= w.dispatches[d].phase.reservedAt
      || w.dispatches[d].phase.until <= w.dispatches[c].phase.reservedAt
  }

  ghost predicate Invariant(ops: TextOps, w: World) {
    && (forall c | 0 <= c < |w.dispatches| :: WellTimed(w, c))
    && (forall c: nat | Unexpired(w, c) :: Guarded(ops, w, c))
    && (forall c: nat, d: nat | InFlight(w, c) && InFlight(w, d) :: Ordered(ops, w, c, d))
  }

  /** Equal fingerprints carry equal severities, so one cooldown length governs each fingerprint. */
  lemma SameSeverity(ops: TextOps, a: FingerprintInput, b: FingerprintInput)
    requires Fingerprint(ops, a) == Fingerprint(ops, b)
    ensures a.severity == b.severity
  {
    FingerprintExact(ops, a, b);
  }

  /** While a guarded sender is unexpired, nobody else can reserve its fingerprint. */
  lemma GuardBlocks(ops: TextOps, w: World, c: nat, d: nat)
    requires Unexpired(w, c) && Guarded(ops, w, c) && WellTimed(w, c)
    requires d < |w.dispatches| && Fp(ops, w, c) == Fp(ops, w, d)
    ensures Blocked(w.store, Fp(ops, w, d), w.dispatches[d].request.severity, w.now)
  {
    hide Fingerprint;
    SameSeverity(ops, w.dispatches[c].request, w.dispatches[d].request);
  }

  lemma ReserveKeepsInvariant(ops: TextOps, w: World, c: nat)
    requires Invariant(ops, w) && Enabled(w, DoReserve(c))
    ensures Invariant(ops, Step(ops, w, DoReserve(c)))
  {
    hide Fingerprint;
    var w' := Step(ops, w, DoReserve(c));
    assert WellTimed(w, c);
    if !Blocked(w.store, Fp(ops, w, c), w.dispatches[c].request.severity, w.now) {
      forall d: nat | InFlight(w, d) && Fp(ops, w, d) == Fp(ops, w, c)
        ensures w.dispatches[d].phase.until <= w.now
      {
        if Unexpired(w, d) {
          assert WellTimed(w, d);
          GuardBlocks(ops, w, d, c);
        }
      }
      forall d: nat | Unexpired(w', d)
        ensures Guarded(ops, w', d)
      {
        if d != c {
          assert Unexpired(w, d) && Guarded(ops, w, d);
        }
      }
      forall d: nat, e: nat | InFlight(w', d) && InFlight(w', e)
        ensures Ordered(ops, w', d, e)
      {
        if d != c && e != c {
          assert Ordered(ops, w, d, e);
        }
      }
      assert forall d | 0 <= d < |w'.dispatches| :: d != c ==> w'.dispatches[d] == w.dispatches[d] && WellTimed(w, d);
    } else {
      PhaseChangeKeepsInvariant(ops, w, c, w'.dispatches[c].phase);
    }
  }

  /** A dispatch that leaves or stays out of the sending phase disturbs nobody, as long as the store is untouched. */
  lemma PhaseChangeKeepsInvariant(ops: TextOps, w: World, c: nat, p: Phase)
    requires Invariant(ops, w) && c < |w.dispatches| && !p.Sending?
    ensures Invariant(ops, w.(dispatches := SetPhase(w, c, p)))
  {
    hide Fingerprint;
    var w' := w.(dispatches := SetPhase(w, c, p));
    assert forall d | 0 <= d < |w'.dispatches| :: WellTimed(w, d) && (d != c ==> w'.dispatches[d] == w.dispatches[d]);
    assert forall d: nat | InFlight(w', d) :: d != c && InFlight(w, d);
    forall d: nat | Unexpired(w', d)
      ensures Guarded(ops, w', d)
    {
      assert Unexpired(w, d) && Guarded(ops, w, d);
    }
    forall d: nat, e: nat | InFlight(w', d) && InFlight(w', e)
      ensures Ordered(ops, w', d, e)
    {
      assert Ordered(ops, w, d, e);
    }
  }

  /** A store change keeps the invariant if it keeps the guard of every unexpired sender. */
  lemma StoreChangeKeepsInvariant(ops: TextOps, w: World, store: Store)
    requires Invariant(ops, w)
    requires forall c: nat | Unexpired(w, c) :: Guarded(ops, w.(store := store), c)
    ensures Invariant(ops, w.(store := store))
  {
    hide Fingerprint;
    var w' := w.(store := store);
    forall c | 0 <= c < |w'.dispatches|
      ensures WellTimed(w', c)
    {
      assert WellTimed(w, c);
    }
    forall c: nat | Unexpired(w', c)
      ensures Guarded(ops, w', c)
    {
      assert Unexpired(w, c);
    }
    forall c: nat, d: nat | InFlight(w', c) && InFlight(w', d)
      ensures Ordered(ops, w', c, d)
    {
      assert InFlight(w, c) && InFlight(w, d) && Ordered(ops, w, c, d);
    }
  }

  /** Every lease is no longer than its cooldown. */
  ghost predicate Fits(w: World) {
    forall c | 0 <= c < |w.dispatches| :: w.dispatches[c].lease <= CooldownMs(w.dispatches[c].request.severity)
  }

  /** A delivery wipes the lease entry. That is harmless to other senders if their leases are short, or if the
      delivery is still within its own lease, because then there is no other unexpired sender. */
  ghost predicate Harmless(w: World, a: Action)
    requires Enabled(w, a)
  {
    a.DoDeliver? ==> Fits(w) || w.now < w.dispatches[a.c].phase.until
  }

  lemma DeliverKeepsInvariant(ops: TextOps, w: World, c: nat)
    requires Invariant(ops, w) && Enabled(w, DoDeliver(c)) && Harmless(w, DoDeliver(c))
    ensures Invariant(ops, Step(ops, w, DoDeliver(c)))
  {
    hide Fingerprint;
    var sev := w.dispatches[c].request.severity;
    var w1 := w.(dispatches := SetPhase(w, c, Finished(false)));
    PhaseChangeKeepsInvariant(ops, w, c, Finished(false));
    InvariantExclusive(ops, w);
    var store := AfterSent(w.store, Fp(ops, w, c), sev, w.now);
    forall d: nat | Unexpired(w1, d)
      ensures Guarded(ops, w1.(store := store), d)
    {
      assert d != c && Unexpired(w, d) && Guarded(ops, w1, d) && WellTimed(w1, d);
      if Fp(ops, w1, d) == Fp(ops, w, c) {
        SameSeverity(ops, w1.dispatches[d].request, w.dispatches[c].request);
        assert !Unexpired(w, c);
      }
    }
    StoreChangeKeepsInvariant(ops, w1, store);
    LogIrrelevant(ops, w1.(store := store), Step(ops, w, DoDeliver(c)));
  }

  lemma LogIrrelevant(ops: TextOps, w: World, v: World)
    requires Invariant(ops, w) && v == w.(log := v.log)
    ensures Invariant(ops, v)
  {
    hide Fingerprint;
    forall c | 0 <= c < |v.dispatches|
      ensures WellTimed(v, c)
    {
      assert WellTimed(w, c);
    }
    forall c: nat | Unexpired(v, c)
      ensures Guarded(ops, v, c)
    {
      assert Unexpired(w, c) && Guarded(ops, w, c);
    }
    forall c: nat, d: nat | InFlight(v, c) && InFlight(v, d)
      ensures Ordered(ops, v, c, d)
    {
      assert InFlight(w, c) && InFlight(w, d) && Ordered(ops, w, c, d);
    }
  }

  /** A release compares timestamps only, yet a lease it clears is never that of another unexpired sender. */
  lemma ReleaseKeepsGuards(ops: TextOps, w: World, c: nat, d: nat)
    requires Invariant(ops, w) && InFlight(w, c) && Unexpired(w, d) && d != c
    ensures Fp(ops, w, d) == Fp(ops, w, c) ==> w.dispatches[d].phase.until != w.dispatches[c].phase.until
    ensures Guarded(ops, w.(store := AfterRelease(w.store, Fp(ops, w, c), w.dispatches[c].request.severity,
                                                  w.dispatches[c].phase.until)), d)
  {
    hide Fingerprint;
    assert Guarded(ops, w, d) && Ordered(ops, w, c, d) && WellTimed(w, c) && WellTimed(w, d);
  }

  lemma FailKeepsInvariant(ops: TextOps, w: World, c: nat)
    requires Invariant(ops, w) && Enabled(w, DoFail(c))
    ensures Invariant(ops, Step(ops, w, DoFail(c)))
  {
    hide Fingerprint;
    var sev := w.dispatches[c].request.severity;
    var store := AfterRelease(w.store, Fp(ops, w, c), sev, w.dispatches[c].phase.until);
    var w1 := w.(dispatches := SetPhase(w, c, Finished(false)));
    PhaseChangeKeepsInvariant(ops, w, c, Finished(false));
    forall d: nat | Unexpired(w1, d)
      ensures Guarded(ops, w1.(store := store), d)
    {
      assert d != c && Unexpired(w, d);
      ReleaseKeepsGuards(ops, w, c, d);
    }
    StoreChangeKeepsInvariant(ops, w1, store);
    LogIrrelevant(ops, w1.(store := store), Step(ops, w, DoFail(c)));
  }

  lemma SkipKeepsInvariant(ops: TextOps, w: World, c: nat)
    requires Invariant(ops, w) && Enabled(w, DoSkip(c))
    ensures Invariant(ops, Step(ops, w, DoSkip(c)))
  {
    hide Fingerprint;
    var d := w.dispatches[c];
    var w1 := w.(dispatches := SetPhase(w, c, Finished(d.phase.race)));
    PhaseChangeKeepsInvariant(ops, w, c, Finished(d.phase.race));
    var store := AfterSkipped(w.store, Fp(ops, w, c), d.request.severity, d.phase.at);
    forall e: nat | Unexpired(w1, e)
      ensures Guarded(ops, w1.(store := store), e)
    {
      assert Guarded(ops, w1, e);
    }
    StoreChangeKeepsInvariant(ops, w1, store);
    LogIrrelevant(ops, w1.(store := store), Step(ops, w, DoSkip(c)));
  }

  lemma TickKeepsInvariant(ops: TextOps, w: World, to: int)
    requires Invariant(ops, w) && w.now <= to
    ensures Invariant(ops, w.(now := to))
  {
    hide Fingerprint;
    var w' := w.(now := to);
    forall c | 0 <= c < |w'.dispatches|
      ensures WellTimed(w', c)
    {
      assert WellTimed(w, c);
    }
    forall c: nat | Unexpired(w', c)
      ensures Guarded(ops, w', c)
    {
      assert Unexpired(w, c) && Guarded(ops, w, c);
    }
    forall c: nat, d: nat | InFlight(w', c) && InFlight(w', d)
      ensures Ordered(ops, w', c, d)
    {
      assert InFlight(w, c) && InFlight(w, d) && Ordered(ops, w, c, d);
    }
  }

  lemma SpawnKeepsInvariant(ops: TextOps, w: World, request: FingerprintInput, lease: int)
    requires Invariant(ops, w)
    ensures Invariant(ops, Step(ops, w, Spawn(request, lease)))
  {
    hide Fingerprint;
    var w' := Step(ops, w, Spawn(request, lease));
    assert forall c | 0 <= c < |w.dispatches| :: w'.dispatches[c] == w.dispatches[c] && WellTimed(w, c);
    assert forall c: nat | InFlight(w', c) :: InFlight(w, c);
    forall c: nat | Unexpired(w', c)
      ensures Guarded(ops, w', c)
    {
      assert Unexpired(w, c) && Guarded(ops, w, c);
    }
    forall c: nat, d: nat | InFlight(w', c) && InFlight(w', d)
      ensures Ordered(ops, w', c, d)
    {
      assert Ordered(ops, w, c, d);
    }
  }

  /** Any step other than a late delivery under long leases keeps the invariant. */
  lemma StepKeepsInvariant(ops: TextOps, w: World, a: Action)
    requires Invariant(ops, w) && Enabled(w, a) && Harmless(w, a)
    ensures Invariant(ops, Step(ops, w, a))
  {
    hide Invariant;
    match a
    case Tick(to) => TickKeepsInvariant(ops, w, to);
    case Spawn(request, lease) => SpawnKeepsInvariant(ops, w, request, lease);
    case DoReserve(c) => ReserveKeepsInvariant(ops, w, c);
    case DoDeliver(c) => DeliverKeepsInvariant(ops, w, c);
    case DoFail(c) => FailKeepsInvariant(ops, w, c);
    case DoSkip(c) => SkipKeepsInvariant(ops, w, c);
  }

  lemma StepKeepsFits(ops: TextOps, w: World, a: Action)
    requires Fits(w) && Enabled(w, a) && (a.Spawn? ==> a.lease <= CooldownMs(a.request.severity))
    ensures Fits(Step(ops, w, a))
  {
    hide Fingerprint, CooldownMs, Blocked, AfterReserve, AfterSent, AfterSkipped, AfterRelease;
  }

  /** Every recorded delivery came back from the provider within its lease. */
  ghost predicate InLease(log: seq<Event>) {
    forall e | e in log && e.Delivered? :: e.at < e.until
  }

  lemma {:induction false} LogGrows(ops: TextOps, w: World, run: seq<Action>)
    requires Legal(ops, w, run)
    ensures w.log <= After(ops, w, run).log
    decreases |run|
  {
    if run != [] {
      assert w.log <= Step(ops, w, run[0]).log;
      LogGrows(ops, Step(ops, w, run[0]), run[1..]);
    }
  }

  /** The first step of a run whose deliveries are all in their leases is in its lease. */
  lemma FirstInLease(ops: TextOps, w: World, run: seq<Action>)
    requires run != [] && Legal(ops, w, run) && InLease(After(ops, w, run).log)
    ensures InLease(Step(ops, w, run[0]).log)
    ensures run[0].DoDeliver? ==> w.now < w.dispatches[run[0].c].phase.until
  {
    hide Fingerprint, Legal, After, AfterReserve, AfterSent, AfterSkipped, AfterRelease, Blocked;
    FirstStep(ops, w, run);
    var w' := Step(ops, w, run[0]);
    LogGrows(ops, w', run[1..]);
    assert forall e | e in w'.log :: e in After(ops, w, run).log;
    if run[0].DoDeliver? {
      var d := w.dispatches[run[0].c];
      assert w'.log[|w.log|] == Delivered(d.request, w.now, d.phase.reservedAt, d.phase.until);
    }
  }

  lemma FirstStep(ops: TextOps, w: World, run: seq<Action>)
    requires run != [] && Legal(ops, w, run)
    ensures Enabled(w, run[0]) && Legal(ops, Step(ops, w, run[0]), run[1..])
    ensures After(ops, w, run) == After(ops, Step(ops, w, run[0]), run[1..])
  {}

  /** Runs in which no lease can be wiped to another sender's harm. */
  ghost predicate SafeRun(ops: TextOps, w: World, run: seq<Action>)
    requires Legal(ops, w, run)
  {
    (Fits(w) && LeasesFit(run)) || InLease(After(ops, w, run).log)
  }

  lemma {:induction false} RunKeepsInvariant(ops: TextOps, w: World, run: seq<Action>)
    requires Invariant(ops, w) && Legal(ops, w, run) && SafeRun(ops, w, run)
    ensures Invariant(ops, After(ops, w, run))
    decreases |run|
  {
    hide Invariant, Step, Enabled, InLease, Fits, CooldownMs;
    if run != [] {
      FirstStep(ops, w, run);
      assert run[0] in run;
      assert forall a | a in run[1..] :: a in run;
      if InLease(After(ops, w, run).log) {
        FirstInLease(ops, w, run);
      } else {
        StepKeepsFits(ops, w, run[0]);
      }
      StepKeepsInvariant(ops, w, run[0]);
      RunKeepsInvariant(ops, Step(ops, w, run[0]), run[1..]);
    }
  }

  lemma StartInvariant(ops: TextOps, t: int)
    ensures Invariant(ops, Start(t))
  {}

  // ----- lease exclusivity and ownership -----

  /** At most one in-flight sender per fingerprint holds an unexpired lease. */
  ghost predicate Exclusive(ops: TextOps, w: World) {
    forall c: nat, d: nat | Unexpired(w, c) && Unexpired(w, d) && Fp(ops, w, c) == Fp(ops, w, d) :: c == d
  }

  /** In every interleaving, if the leases fit or the deliveries come back within them, leases are exclusive and every
      reservation against an unexpired lease is refused. */
  lemma LeaseExclusivity(ops: TextOps, t: int, run: seq<Action>)
    requires Legal(ops, Start(t), run)
    requires LeasesFit(run) || InLease(After(ops, Start(t), run).log)
    ensures var w := After(ops, Start(t), run);
            && Exclusive(ops, w)
            && (forall c: nat, d: nat | Unexpired(w, c) && 0 <= d < |w.dispatches| && Fp(ops, w, c) == Fp(ops, w, d) ::
                  Blocked(w.store, Fp(ops, w, d), w.dispatches[d].request.severity, w.now))
  {
    hide Fingerprint, Step, Enabled, Blocked;
    StartInvariant(ops, t);
    RunKeepsInvariant(ops, Start(t), run);
    var w := After(ops, Start(t), run);
    assert Exclusive(ops, w) by {
      InvariantExclusive(ops, w);
    }
    forall c: nat, d: nat | Unexpired(w, c) && 0 <= d < |w.dispatches| && Fp(ops, w, c) == Fp(ops, w, d)
      ensures Blocked(w.store, Fp(ops, w, d), w.dispatches[d].request.severity, w.now)
    {
      assert Guarded(ops, w, c) && WellTimed(w, c);
      GuardBlocks(ops, w, c, d);
    }
  }

  // ----- the race branch -----

  /** The dispatch neither waits for a second reservation nor was skipped without an explanation. */
  ghost predicate NoRace(p: Phase) {
    match p
    case Retrying => false
    case Skipping(_, race) => !race
    case Finished(race) => !race
    case _ => true
  }

  ghost predicate NoRaces(w: World) {
    forall c | 0 <= c < |w.dispatches| :: NoRace(w.dispatches[c].phase)
  }

  /** The store explains each of its refusals, so no step reaches the second reservation. */
  lemma StepKeepsNoRaces(ops: TextOps, w: World, a: Action)
    requires NoRaces(w) && Enabled(w, a)
    ensures NoRaces(Step(ops, w, a))
  {
    hide Fingerprint, CooldownMs, AfterReserve, AfterSent, AfterSkipped, AfterRelease;
    if a.DoReserve? || a.DoDeliver? || a.DoFail? || a.DoSkip? {
      assert NoRace(w.dispatches[a.c].phase);
    }
  }

  lemma {:induction false} RunKeepsNoRaces(ops: TextOps, w: World, run: seq<Action>)
    requires NoRaces(w) && Legal(ops, w, run)
    ensures NoRaces(After(ops, w, run))
    decreases |run|
  {
    hide NoRaces, Step, Enabled;
    if run != [] {
      StepKeepsNoRaces(ops, w, run[0]);
      RunKeepsNoRaces(ops, Step(ops, w, run[0]), run[1..]);
    }
  }

  /** In every run, whatever the leases and however late the deliveries, the second reservation and the
      `alert_reservation_race` branch are never reached. */
  lemma RaceBranchUnreachable(ops: TextOps, t: int, run: seq<Action>)
    requires Legal(ops, Start(t), run)
    ensures NoRaces(After(ops, Start(t), run))
  {
    RunKeepsNoRaces(ops, Start(t), run);
  }

  lemma InvariantExclusive(ops: TextOps, w: World)
    requires Invariant(ops, w)
    ensures Exclusive(ops, w)
  {
    hide Fingerprint;
    forall c: nat, d: nat | Unexpired(w, c) && Unexpired(w, d) && Fp(ops, w, c) == Fp(ops, w, d)
      ensures c == d
    {
      assert Ordered(ops, w, c, d) && WellTimed(w, c) && WellTimed(w, d);
    }
  }

  /** In every reachable state, a late failure clears no lease of another unexpired sender: that sender's lease
      entry, if present, stays, and the store goes on refusing other reservations until it runs out. */
  lemma ReleaseOwnership(ops: TextOps, t: int, run: seq<Action>, c: nat, d: nat)
    requires Legal(ops, Start(t), run)
    requires LeasesFit(run) || InLease(After(ops, Start(t), run).log)
    requires var w := After(ops, Start(t), run); InFlight(w, c) && Unexpired(w, d) && c != d
    ensures var w := After(ops, Start(t), run);
            var w' := Step(ops, w, DoFail(c));
            && Unexpired(w', d)
            && Guarded(ops, w', d)
            && (Lease(w.store, Fp(ops, w, d)) == Some(w.dispatches[d].phase.until) ==>
                  Lease(w'.store, Fp(ops, w, d)) == Some(w.dispatches[d].phase.until))
  {
    hide Fingerprint;
    StartInvariant(ops, t);
    RunKeepsInvariant(ops, Start(t), run);
    var w := After(ops, Start(t), run);
    ReleaseKeepsGuards(ops, w, c, d);
  }

  // ----- the exact condition on the lease length -----

  ghost predicate UniformRun(run: seq<Action>, severity: Severity, lease: int) {
    forall a | a in run && a.Spawn? :: a.request.severity == severity && a.lease == lease
  }

  ghost predicate AlwaysExclusive(ops: TextOps, severity: Severity, lease: int) {
    forall t, run | Legal(ops, Start(t), run) && UniformRun(run, severity, lease) ::
      Exclusive(ops, After(ops, Start(t), run))
  }

  /** When the first lease has run out. */
  ghost function Expiry(lease: int): int { if lease > 0 then lease else 0 }

  ghost function LatePrefix(request: FingerprintInput, lease: int): seq<Action> {
    [Spawn(request, lease), Spawn(request, lease), Spawn(request, lease), DoReserve(0), Tick(Expiry(lease)),
     DoReserve(1)]
  }

  ghost function OverlapRun(request: FingerprintInput, lease: int): seq<Action> {
    LatePrefix(request, lease) + [DoDeliver(0), Tick(lease + CooldownMs(request.severity)), DoReserve(2)]
  }

  /** The first dispatch holds an expired lease, the second the current one. */
  ghost function OverlapMiddle(ops: TextOps, request: FingerprintInput, lease: int): World {
    var fp, at := Fingerprint(ops, request), Expiry(lease);
    World(at, map[fp := CooldownState(request.severity, None, None, Some(at + lease))],
          [Dispatch(request, lease, Sending(0, lease)), Dispatch(request, lease, Sending(at, at + lease)),
           Dispatch(request, lease, Ready)],
          [Reserved(request, 0, lease), Reserved(request, at, at + lease)])
  }

  lemma LateOpening(ops: TextOps, request: FingerprintInput, lease: int, rest: seq<Action>)
    ensures RunsTo(ops, Start(0), LatePrefix(request, lease) + rest, OverlapMiddle(ops, request, lease), rest)
  {
    hide Fingerprint, Legal, After, CooldownMs;
    var run := LatePrefix(request, lease) + rest;
    assert run[6..] == rest;
    var fp := Fingerprint(ops, request);
    var ready := Dispatch(request, lease, Ready);
    RunStep(ops, Start(0), run);
    var w1 := World(0, map[], [ready], []);
    assert Step(ops, Start(0), run[0]) == w1;
    RunStep(ops, w1, run[1..]);
    var w2 := World(0, map[], [ready, ready], []);
    assert Step(ops, w1, run[1]) == w2;
    RunStep(ops, w2, run[2..]);
    var w3 := World(0, map[], [ready, ready, ready], []);
    assert Step(ops, w2, run[2]) == w3;
    RunStep(ops, w3, run[3..]);
    var w4 := World(0, map[fp := CooldownState(request.severity, None, None, Some(lease))],
                    [Dispatch(request, lease, Sending(0, lease)), ready, ready], [Reserved(request, 0, lease)]);
    assert Step(ops, w3, run[3]) == w4;
    RunStep(ops, w4, run[4..]);
    var w5 := w4.(now := Expiry(lease));
    assert Step(ops, w4, run[4]) == w5;
    RunStep(ops, w5, run[5..]);
    assert Step(ops, w5, run[5]) == OverlapMiddle(ops, request, lease);
  }

  lemma OverlapClosing(ops: TextOps, request: FingerprintInput, lease: int)
    requires lease > CooldownMs(request.severity) > 0
    ensures var rest := [DoDeliver(0), Tick(lease + CooldownMs(request.severity)), DoReserve(2)];
            && Legal(ops, OverlapMiddle(ops, request, lease), rest)
            && !Exclusive(ops, After(ops, OverlapMiddle(ops, request, lease), rest))
  {
    hide Fingerprint, CooldownMs;
    var run := OverlapRun(request, lease);
    var cd := CooldownMs(request.severity);
    var fp := Fingerprint(ops, request);
    assert run[6..] == [DoDeliver(0), Tick(lease + cd), DoReserve(2)];
    var w6 := OverlapMiddle(ops, request, lease);
    var w7 := Step(ops, w6, run[6]);
    RunStep(ops, w6, run[6..]);
    assert w7.store == map[fp := CooldownState(request.severity, Some(lease), None, None)];
    var w8 := Step(ops, w7, run[7]);
    RunStep(ops, w7, run[7..]);
    var w9 := Step(ops, w8, run[8]);
    RunStep(ops, w8, run[8..]);
    assert run[9..] == [];
    assert w9.dispatches[1] == w6.dispatches[1];
    assert Unexpired(w9, 1) && Unexpired(w9, 2) && Fp(ops, w9, 1) == Fp(ops, w9, 2);
  }

  /** A lease longer than the cooldown lets a late delivery wipe it and its cooldown end first:
      two senders are then in flight with unexpired leases. */
  lemma OverlapRunOverlaps(ops: TextOps, request: FingerprintInput, lease: int)
    requires lease > CooldownMs(request.severity)
    ensures Legal(ops, Start(0), OverlapRun(request, lease))
    ensures !Exclusive(ops, After(ops, Start(0), OverlapRun(request, lease)))
  {
    assert CooldownMs(request.severity) > 0;
    hide Exclusive, Legal, After, LatePrefix, OverlapMiddle, Start, CooldownMs;
    LateOpening(ops, request, lease, [DoDeliver(0), Tick(lease + CooldownMs(request.severity)), DoReserve(2)]);
    OverlapClosing(ops, request, lease);
  }

  /** The remaining run from `v` is legal exactly when the whole run from `w` is, and ends in the same world. */
  ghost predicate RunsTo(ops: TextOps, w: World, run: seq<Action>, v: World, rest: seq<Action>) {
    Legal(ops, w, run) == Legal(ops, v, rest) && (Legal(ops, v, rest) ==> After(ops, w, run) == After(ops, v, rest))
  }

  lemma RunStep(ops: TextOps, w: World, run: seq<Action>)
    requires run != [] && Enabled(w, run[0])
    ensures RunsTo(ops, w, run, Step(ops, w, run[0]), run[1..])
  {
    hide Step, Enabled;
  }

  /** With one lease length for one severity, leases are exclusive in every run exactly when the lease is no longer
      than the cooldown. */
  lemma ExclusiveIffLeaseFits(ops: TextOps, severity: Severity, lease: int)
    ensures AlwaysExclusive(ops, severity, lease) <==> lease <= CooldownMs(severity)
  {
    hide Step, Enabled, Exclusive, CooldownMs, OverlapRun;
    if lease <= CooldownMs(severity) {
      forall t, run | Legal(ops, Start(t), run) && UniformRun(run, severity, lease)
        ensures Exclusive(ops, After(ops, Start(t), run))
      {
        assert LeasesFit(run);
        LeaseExclusivity(ops, t, run);
      }
    } else {
      var request := FingerprintInput("", "", severity, "", None, None, "", None);
      OverlapRunOverlaps(ops, request, lease);
      OverlapRunUniform(request, lease);
    }
  }

  lemma OverlapRunUniform(request: FingerprintInput, lease: int)
    ensures UniformRun(OverlapRun(request, lease), request.severity, lease)
  {}
}
