/** How far apart the deliveries of one alert are, over whole runs of the dispatch protocol. */
module AlertSpacing {
  import opened Sequences
  import opened AlertFingerprint
  import opened AlertCooldown
  import opened AlertProtocol

  ghost predicate SameFp(ops: TextOps, a: FingerprintInput, b: FingerprintInput) {
    Fingerprint(ops, a) == Fingerprint(ops, b)
  }

  /** The store remembers the latest recorded delivery of each fingerprint, and no delivery lies in the future. */
  ghost predicate SentRemembered(ops: TextOps, w: World) {
    && (forall e | e in w.log && e.Delivered? ::
          LastSent(w.store, Fingerprint(ops, e.request)).Some?
          && e.at <= LastSent(w.store, Fingerprint(ops, e.request)).value)
    && (forall fp | fp in w.store && w.store[fp].lastSentAt.Some? :: w.store[fp].lastSentAt.value <= w.now)
  }

  /** Every reservation comes at least one cooldown after every delivery recorded before it. */
  ghost predicate ReservationsSpaced(ops: TextOps, log: seq<Event>) {
    forall p, q | 0 <= p < q < |log| && log[p].Delivered? && log[q].Reserved?
                  && SameFp(ops, log[p].request, log[q].request) ::
      log[p].at + CooldownMs(log[q].request.severity) <= log[q].at
  }

  /** Recorded deliveries of one fingerprint are at least one cooldown apart. */
  ghost predicate DeliveriesSpaced(ops: TextOps, log: seq<Event>) {
    forall p, q | 0 <= p < q < |log| && log[p].Delivered? && log[q].Delivered?
                  && SameFp(ops, log[p].request, log[q].request) ::
      log[p].at + CooldownMs(log[q].request.severity) <= log[q].at
  }

  /** An unexpired sender reserved at least one cooldown after every recorded delivery of its fingerprint. */
  ghost predicate SendersSpaced(ops: TextOps, w: World) {
    forall c: nat, e | Unexpired(w, c) && e in w.log && e.Delivered?
                       && SameFp(ops, e.request, w.dispatches[c].request) ::
      e.at + CooldownMs(w.dispatches[c].request.severity) <= w.dispatches[c].phase.reservedAt
  }

  ghost predicate Spaced(ops: TextOps, w: World) {
    SentRemembered(ops, w) && ReservationsSpaced(ops, w.log)
  }

  /** A reservation that succeeds is a full cooldown after each delivery in the log. */
  lemma OpenMeansSpaced(ops: TextOps, w: World, c: nat, e: Event)
    requires SentRemembered(ops, w) && c < |w.dispatches| && e in w.log && e.Delivered?
    requires SameFp(ops, e.request, w.dispatches[c].request)
    requires !Blocked(w.store, Fp(ops, w, c), w.dispatches[c].request.severity, w.now)
    ensures e.at + CooldownMs(w.dispatches[c].request.severity) <= w.now
  {
    hide Fingerprint, CooldownMs;
  }

  lemma StepKeepsSentRemembered(ops: TextOps, w: World, a: Action)
    requires SentRemembered(ops, w) && Enabled(w, a)
    ensures SentRemembered(ops, Step(ops, w, a))
  {
    hide Fingerprint, CooldownMs, Blocked;
    var w' := Step(ops, w, a);
    forall e | e in w'.log && e.Delivered?
      ensures LastSent(w'.store, Fingerprint(ops, e.request)).Some?
              && e.at <= LastSent(w'.store, Fingerprint(ops, e.request)).value
    {
      if e in w.log {
        assert LastSent(w.store, Fingerprint(ops, e.request)).Some?;
      }
    }
  }

  lemma StepKeepsSpaced(ops: TextOps, w: World, a: Action)
    requires Spaced(ops, w) && Enabled(w, a)
    ensures Spaced(ops, Step(ops, w, a))
  {
    hide Fingerprint, CooldownMs, Blocked, AfterReserve, AfterSent, AfterSkipped, AfterRelease, SentRemembered;
    StepKeepsSentRemembered(ops, w, a);
    var w' := Step(ops, w, a);
    forall p, q | 0 <= p < q < |w'.log| && w'.log[p].Delivered? && w'.log[q].Reserved?
                  && SameFp(ops, w'.log[p].request, w'.log[q].request)
      ensures w'.log[p].at + CooldownMs(w'.log[q].request.severity) <= w'.log[q].at
    {
      assert w'.log[p] == w.log[p];
      if q < |w.log| {
        assert w'.log[q] == w.log[q];
      } else {
        OpenMeansSpaced(ops, w, a.c, w.log[p]);
      }
    }
  }

  lemma DeliverKeepsSenders(ops: TextOps, w: World, c: nat)
    requires Invariant(ops, w) && SendersSpaced(ops, w) && Enabled(w, DoDeliver(c))
    requires w.now < w.dispatches[c].phase.until
    ensures SendersSpaced(ops, Step(ops, w, DoDeliver(c)))
  {
    hide Fingerprint, CooldownMs;
    var w' := Step(ops, w, DoDeliver(c));
    InvariantExclusive(ops, w);
    assert Unexpired(w, c);
    forall d: nat, e | Unexpired(w', d) && e in w'.log && e.Delivered?
                       && SameFp(ops, e.request, w'.dispatches[d].request)
      ensures e.at + CooldownMs(w'.dispatches[d].request.severity) <= w'.dispatches[d].phase.reservedAt
    {
      assert d != c && Unexpired(w, d) && w'.dispatches[d] == w.dispatches[d];
      assert e in w.log;
    }
  }

  lemma StepKeepsSenders(ops: TextOps, w: World, a: Action)
    requires Invariant(ops, w) && SentRemembered(ops, w) && SendersSpaced(ops, w) && Enabled(w, a)
    requires InLease(Step(ops, w, a).log)
    ensures SendersSpaced(ops, Step(ops, w, a))
  {
    hide Fingerprint, CooldownMs, AfterReserve, AfterSent, AfterSkipped, AfterRelease, SentRemembered, Invariant,
      Blocked;
    var w' := Step(ops, w, a);
    if a.DoDeliver? {
      var d := w.dispatches[a.c];
      var e := Delivered(d.request, w.now, d.phase.reservedAt, d.phase.until);
      assert w'.log[|w.log|] == e;
      DeliverKeepsSenders(ops, w, a.c);
    } else {
      forall d: nat, e | Unexpired(w', d) && e in w'.log && e.Delivered?
                         && SameFp(ops, e.request, w'.dispatches[d].request)
        ensures e.at + CooldownMs(w'.dispatches[d].request.severity) <= w'.dispatches[d].phase.reservedAt
      {
        assert e in w.log;
        if a.DoReserve? && d == a.c {
          OpenMeansSpaced(ops, w, d, e);
        } else {
          assert Unexpired(w, d) && w'.dispatches[d] == w.dispatches[d];
        }
      }
    }
  }

  lemma StepKeepsDeliveries(ops: TextOps, w: World, a: Action)
    requires Invariant(ops, w) && SendersSpaced(ops, w) && DeliveriesSpaced(ops, w.log) && Enabled(w, a)
    requires InLease(Step(ops, w, a).log)
    ensures DeliveriesSpaced(ops, Step(ops, w, a).log)
  {
    hide Fingerprint, CooldownMs, AfterReserve, AfterSent, AfterSkipped, AfterRelease, Blocked;
    var w' := Step(ops, w, a);
    forall p, q | 0 <= p < q < |w'.log| && w'.log[p].Delivered? && w'.log[q].Delivered?
                  && SameFp(ops, w'.log[p].request, w'.log[q].request)
      ensures w'.log[p].at + CooldownMs(w'.log[q].request.severity) <= w'.log[q].at
    {
      assert w'.log[p] == w.log[p];
      if q < |w.log| {
        assert w'.log[q] == w.log[q];
      } else {
        assert w'.log[q] in w'.log;
        assert Unexpired(w, a.c) && WellTimed(w, a.c);
        assert w.log[p] in w.log;
      }
    }
  }

  lemma {:induction false} RunKeepsSpaced(ops: TextOps, w: World, run: seq<Action>)
    requires Spaced(ops, w) && Legal(ops, w, run)
    ensures Spaced(ops, After(ops, w, run))
    decreases |run|
  {
    hide Spaced, Step, Enabled;
    if run != [] {
      StepKeepsSpaced(ops, w, run[0]);
      RunKeepsSpaced(ops, Step(ops, w, run[0]), run[1..]);
    }
  }

  /** In every run, whatever the lease lengths, a reservation that follows a recorded delivery of its fingerprint
      follows it by at least one cooldown. */
  lemma ReservationSpacing(ops: TextOps, t: int, run: seq<Action>)
    requires Legal(ops, Start(t), run)
    ensures ReservationsSpaced(ops, After(ops, Start(t), run).log)
  {
    assert Spaced(ops, Start(t));
    RunKeepsSpaced(ops, Start(t), run);
  }

  lemma {:induction false} RunKeepsDeliveries(ops: TextOps, w: World, run: seq<Action>)
    requires Invariant(ops, w) && Spaced(ops, w) && SendersSpaced(ops, w) && DeliveriesSpaced(ops, w.log)
    requires Legal(ops, w, run) && InLease(After(ops, w, run).log)
    ensures DeliveriesSpaced(ops, After(ops, w, run).log)
    decreases |run|
  {
    hide Invariant, Step, Enabled, SentRemembered, ReservationsSpaced, SendersSpaced, DeliveriesSpaced, InLease, Fits;
    if run != [] {
      FirstStep(ops, w, run);
      FirstInLease(ops, w, run);
      StepKeepsInvariant(ops, w, run[0]);
      StepKeepsSpaced(ops, w, run[0]);
      StepKeepsSenders(ops, w, run[0]);
      StepKeepsDeliveries(ops, w, run[0]);
      RunKeepsDeliveries(ops, Step(ops, w, run[0]), run[1..]);
    }
  }

  /** In every run whose provider calls that deliver do so within their leases, recorded deliveries of one
      fingerprint are at least one cooldown apart, whatever the lease lengths. */
  lemma DeliverySpacing(ops: TextOps, t: int, run: seq<Action>)
    requires Legal(ops, Start(t), run) && InLease(After(ops, Start(t), run).log)
    ensures DeliveriesSpaced(ops, After(ops, Start(t), run).log)
  {
    StartInvariant(ops, t);
    RunKeepsDeliveries(ops, Start(t), run);
  }

  // ----- the exact condition on the provider's latency -----

  ghost function LateRun(request: FingerprintInput, lease: int): seq<Action> {
    LatePrefix(request, lease) + [DoDeliver(0), DoDeliver(1)]
  }

  /** A delivery that comes back as soon as its lease is over can be recorded in the same millisecond as the delivery of
      the dispatch that took over. */
  lemma LateDeliveryBreaksSpacing(ops: TextOps, request: FingerprintInput, lease: int)
    ensures Legal(ops, Start(0), LateRun(request, lease))
    ensures var log := After(ops, Start(0), LateRun(request, lease)).log;
            && !DeliveriesSpaced(ops, log)
            && forall e | e in log && e.Delivered? :: e.at - e.reservedAt <= Expiry(lease)
  {
    hide Fingerprint;
    var rest := [DoDeliver(0), DoDeliver(1)];
    LateOpening(ops, request, lease, rest);
    var w6, at := OverlapMiddle(ops, request, lease), Expiry(lease);
    var w7 := Step(ops, w6, rest[0]);
    RunStep(ops, w6, rest);
    assert rest[1..] == [DoDeliver(1)];
    var w8 := Step(ops, w7, DoDeliver(1));
    RunStep(ops, w7, rest[1..]);
    assert w8.log == [Reserved(request, 0, lease), Reserved(request, at, at + lease),
                      Delivered(request, at, 0, lease), Delivered(request, at, at, at + lease)];
    assert SameFp(ops, w8.log[2].request, w8.log[3].request);
  }

  /** Every delivery came back at most `bound` milliseconds after its reservation. */
  ghost predicate Prompt(log: seq<Event>, bound: int) {
    forall e | e in log && e.Delivered? :: e.at - e.reservedAt <= bound
  }

  ghost predicate AlwaysSpaced(ops: TextOps, severity: Severity, lease: int, bound: int) {
    forall t, run | Legal(ops, Start(t), run) && UniformRun(run, severity, lease)
                    && Prompt(After(ops, Start(t), run).log, bound) ::
      DeliveriesSpaced(ops, After(ops, Start(t), run).log)
  }

  /** One lease length throughout: in the dispatches and in the log. */
  ghost predicate OneLease(w: World, lease: int) {
    && (forall c | 0 <= c < |w.dispatches| :: w.dispatches[c].lease == lease && WellTimed(w, c))
    && (forall e | e in w.log && e.Delivered? :: e.until == e.reservedAt + lease)
  }

  lemma StepKeepsOneLease(ops: TextOps, w: World, a: Action, lease: int)
    requires OneLease(w, lease) && Enabled(w, a) && (a.Spawn? ==> a.lease == lease)
    ensures OneLease(Step(ops, w, a), lease)
  {
    hide Fingerprint, CooldownMs, Blocked, AfterReserve, AfterSent, AfterSkipped, AfterRelease;
    var w' := Step(ops, w, a);
    assert forall c | 0 <= c < |w.dispatches| :: WellTimed(w, c);
    forall e | e in w'.log && e.Delivered?
      ensures e.until == e.reservedAt + lease
    {
      if e !in w.log {
        assert a.DoDeliver? && WellTimed(w, a.c);
      }
    }
  }

  lemma {:induction false} RunKeepsOneLease(ops: TextOps, w: World, run: seq<Action>, lease: int)
    requires OneLease(w, lease) && Legal(ops, w, run) && forall a | a in run && a.Spawn? :: a.lease == lease
    ensures OneLease(After(ops, w, run), lease)
    decreases |run|
  {
    hide OneLease, Step, Enabled;
    if run != [] {
      assert run[0] in run && forall a | a in run[1..] :: a in run;
      StepKeepsOneLease(ops, w, run[0], lease);
      RunKeepsOneLease(ops, Step(ops, w, run[0]), run[1..], lease);
    }
  }

  /** With one lease length for one severity and a bound on the provider's latency, deliveries are spaced in every run
      exactly when the bound is below the lease. */
  lemma SpacedIffWithinLease(ops: TextOps, severity: Severity, lease: int, bound: int)
    requires bound >= 0
    ensures AlwaysSpaced(ops, severity, lease, bound) <==> bound < lease
  {
    hide Step, Enabled, CooldownMs, DeliveriesSpaced, LateRun, Legal, After;
    if bound < lease {
      forall t, run | Legal(ops, Start(t), run) && UniformRun(run, severity, lease)
                      && Prompt(After(ops, Start(t), run).log, bound)
        ensures DeliveriesSpaced(ops, After(ops, Start(t), run).log)
      {
        RunKeepsOneLease(ops, Start(t), run, lease);
        assert InLease(After(ops, Start(t), run).log);
        DeliverySpacing(ops, t, run);
      }
    } else {
      var request := FingerprintInput("", "", severity, "", None, None, "", None);
      LateDeliveryBreaksSpacing(ops, request, lease);
      LateRunUniform(request, lease);
      assert Prompt(After(ops, Start(0), LateRun(request, lease)).log, bound);
    }
  }

  lemma LateRunUniform(request: FingerprintInput, lease: int)
    ensures UniformRun(LateRun(request, lease), request.severity, lease)
  {}
}
