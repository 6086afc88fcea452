/** What the cooldown store holds, read off the history of the run: which reservations are refused, and what a failed
    delivery gives back. */
module AlertHistory {
  import opened Sequences
  import opened AlertFingerprint
  import opened AlertCooldown
  import opened AlertProtocol

  ghost predicate Of(ops: TextOps, e: Event, fp: string) { Fingerprint(ops, e.request) == fp }

  /** The lease of a fingerprint after a history: set by a reservation, cleared by a delivery, and cleared by a failure
      of the sender that still holds it. */
  ghost function LeaseIn(ops: TextOps, log: seq<Event>, fp: string): Option<int> {
    if log == [] then None
    else
      var before, e := LeaseIn(ops, log[..|log| - 1], fp), log[|log| - 1];
      if !Of(ops, e, fp) then before
      else match e
        case Reserved(_, _, until) => Some(until)
        case Delivered(_, _, _, _) => None
        case Failed(_, until) => if before == Some(until) then None else before
        case Skipped(_, _) => before
  }

  /** The time of the last recorded delivery. */
  ghost function SentIn(ops: TextOps, log: seq<Event>, fp: string): Option<int> {
    if log == [] then None
    else
      var e := log[|log| - 1];
      if Of(ops, e, fp) && e.Delivered? then Some(e.at) else SentIn(ops, log[..|log| - 1], fp)
  }

  /** The latest of the recorded skips. */
  ghost function SkippedIn(ops: TextOps, log: seq<Event>, fp: string): Option<int> {
    if log == [] then None
    else
      var before, e := SkippedIn(ops, log[..|log| - 1], fp), log[|log| - 1];
      if Of(ops, e, fp) && e.Skipped? && (before.None? || before.value < e.at) then Some(e.at) else before
  }

  /** The store says about every fingerprint what its history says. */
  ghost predicate StoreIsHistory(ops: TextOps, w: World) {
    forall fp ::
      && Lease(w.store, fp) == LeaseIn(ops, w.log, fp) && LastSent(w.store, fp) == SentIn(ops, w.log, fp)
      && LastSkipped(w.store, fp) == SkippedIn(ops, w.log, fp)
  }

  lemma HistoryStep(ops: TextOps, log: seq<Event>, e: Event, fp: string)
    ensures SentIn(ops, log + [e], fp) == if Of(ops, e, fp) && e.Delivered? then Some(e.at) else SentIn(ops, log, fp)
    ensures SkippedIn(ops, log + [e], fp)
         == (var before := SkippedIn(ops, log, fp);
             if Of(ops, e, fp) && e.Skipped? && (before.None? || before.value < e.at) then Some(e.at) else before)
    ensures !Of(ops, e, fp) || e.Skipped? ==> LeaseIn(ops, log + [e], fp) == LeaseIn(ops, log, fp)
    ensures Of(ops, e, fp) && e.Reserved? ==> LeaseIn(ops, log + [e], fp) == Some(e.until)
    ensures Of(ops, e, fp) && e.Delivered? ==> LeaseIn(ops, log + [e], fp) == None
    ensures Of(ops, e, fp) && e.Failed? ==>
              LeaseIn(ops, log + [e], fp)
                == if LeaseIn(ops, log, fp) == Some(e.until) then None else LeaseIn(ops, log, fp)
  {
    assert (log + [e])[..|log|] == log;
  }

  lemma StepKeepsHistory(ops: TextOps, w: World, a: Action)
    requires StoreIsHistory(ops, w) && Enabled(w, a)
    ensures StoreIsHistory(ops, Step(ops, w, a))
  {
    hide Fingerprint, CooldownMs, DescribeBlock;
    var w' := Step(ops, w, a);
    if |w'.log| > |w.log| {
      var e := w'.log[|w.log|];
      assert w'.log == w.log + [e];
      forall fp
        ensures Lease(w'.store, fp) == LeaseIn(ops, w'.log, fp) && LastSent(w'.store, fp) == SentIn(ops, w'.log, fp)
        ensures LastSkipped(w'.store, fp) == SkippedIn(ops, w'.log, fp)
      {
        HistoryStep(ops, w.log, e, fp);
        hide LeaseIn, SentIn, SkippedIn;
        assert Lease(w.store, fp) == LeaseIn(ops, w.log, fp);
      }
    }
  }

  lemma {:induction false} RunKeepsHistory(ops: TextOps, w: World, run: seq<Action>)
    requires StoreIsHistory(ops, w) && Legal(ops, w, run)
    ensures StoreIsHistory(ops, After(ops, w, run))
    decreases |run|
  {
    hide StoreIsHistory, Step, Enabled;
    if run != [] {
      StepKeepsHistory(ops, w, run[0]);
      RunKeepsHistory(ops, Step(ops, w, run[0]), run[1..]);
    }
  }

  /** In every reachable state the store is exactly the image of the run's history. */
  lemma StoreReflectsRun(ops: TextOps, t: int, run: seq<Action>)
    requires Legal(ops, Start(t), run)
    ensures StoreIsHistory(ops, After(ops, Start(t), run))
  {
    RunKeepsHistory(ops, Start(t), run);
  }

  // ----- the history without folds -----

  /** A reservation up to `until` that no later reservation has replaced, and neither a later delivery nor a later
      failure of its owner has cleared. */
  ghost predicate LeaseHeld(ops: TextOps, log: seq<Event>, fp: string, until: int) {
    exists p | 0 <= p < |log| ::
      && log[p].Reserved? && Of(ops, log[p], fp) && log[p].until == until
      && forall q | p < q < |log| && Of(ops, log[q], fp) ::
           !log[q].Reserved? && !log[q].Delivered? && !(log[q].Failed? && log[q].until == until)
  }

  lemma HeldStep(ops: TextOps, log: seq<Event>, e: Event, fp: string, until: int)
    ensures LeaseHeld(ops, log + [e], fp, until) <==>
              if Of(ops, e, fp) && e.Reserved? then e.until == until
              else LeaseHeld(ops, log, fp, until)
                   && !(Of(ops, e, fp) && (e.Delivered? || (e.Failed? && e.until == until)))
  {
    hide Of;
    var after, n := log + [e], |log|;
    assert after[n] == e && forall p | 0 <= p < n :: after[p] == log[p];
    if Of(ops, e, fp) && e.Reserved? {
      if e.until == until {
        assert after[n].Reserved? && Of(ops, after[n], fp);
      }
    } else if LeaseHeld(ops, log, fp, until)
              && !(Of(ops, e, fp) && (e.Delivered? || (e.Failed? && e.until == until))) {
      var p :| 0 <= p < n && log[p].Reserved? && Of(ops, log[p], fp) && log[p].until == until
               && forall q | p < q < |log| && Of(ops, log[q], fp) ::
                    !log[q].Reserved? && !log[q].Delivered? && !(log[q].Failed? && log[q].until == until);
      assert after[p] == log[p];
    }
  }

  lemma {:induction false} LeaseInIffHeld(ops: TextOps, log: seq<Event>, fp: string, until: int)
    ensures LeaseIn(ops, log, fp) == Some(until) <==> LeaseHeld(ops, log, fp, until)
  {
    if log != [] {
      var init, e := log[..|log| - 1], log[|log| - 1];
      assert log == init + [e];
      LeaseInIffHeld(ops, init, fp, until);
      HistoryStep(ops, init, e, fp);
      HeldStep(ops, init, e, fp, until);
      hide LeaseIn, LeaseHeld, Of, SentIn, SkippedIn;
    }
  }

  /** Deliveries are recorded in the order of their times. */
  ghost predicate DeliveriesInOrder(w: World) {
    && (forall p, q | 0 <= p < q < |w.log| && w.log[p].Delivered? && w.log[q].Delivered? :: w.log[p].at <= w.log[q].at)
    && (forall e | e in w.log && e.Delivered? :: e.at <= w.now)
  }

  lemma StepKeepsOrder(ops: TextOps, w: World, a: Action)
    requires DeliveriesInOrder(w) && Enabled(w, a)
    ensures DeliveriesInOrder(Step(ops, w, a))
  {
    hide Fingerprint, CooldownMs, Blocked, AfterReserve, AfterSent, AfterSkipped, AfterRelease;
    var w' := Step(ops, w, a);
    forall p, q | 0 <= p < q < |w'.log| && w'.log[p].Delivered? && w'.log[q].Delivered?
      ensures w'.log[p].at <= w'.log[q].at
    {
      assert w'.log[p] == w.log[p] && w.log[p] in w.log;
      assert q < |w.log| ==> w'.log[q] == w.log[q];
    }
  }

  lemma {:induction false} RunKeepsOrder(ops: TextOps, w: World, run: seq<Action>)
    requires DeliveriesInOrder(w) && Legal(ops, w, run)
    ensures DeliveriesInOrder(After(ops, w, run))
    decreases |run|
  {
    hide DeliveriesInOrder, Step, Enabled;
    if run != [] {
      StepKeepsOrder(ops, w, run[0]);
      RunKeepsOrder(ops, Step(ops, w, run[0]), run[1..]);
    }
  }

  ghost predicate InOrder(log: seq<Event>) {
    forall p, q | 0 <= p < q < |log| && log[p].Delivered? && log[q].Delivered? :: log[p].at <= log[q].at
  }

  /** The last delivery of a fingerprint is one of its deliveries, and none is later. */
  lemma {:induction false} SentInIsLatest(ops: TextOps, log: seq<Event>, fp: string)
    requires InOrder(log)
    ensures SentIn(ops, log, fp).Some? ==>
              exists e | e in log :: e.Delivered? && Of(ops, e, fp) && e.at == SentIn(ops, log, fp).value
    ensures forall e | e in log && e.Delivered? && Of(ops, e, fp) ::
              SentIn(ops, log, fp).Some? && e.at <= SentIn(ops, log, fp).value
  {
    hide Of;
    if log != [] {
      var init, last := log[..|log| - 1], log[|log| - 1];
      SentInIsLatest(ops, init, fp);
      assert log == init + [last];
      forall e | e in log && e.Delivered? && Of(ops, e, fp)
        ensures SentIn(ops, log, fp).Some? && e.at <= SentIn(ops, log, fp).value
      {
        if e in init {
          var i :| 0 <= i < |init| && init[i] == e;
          assert log[i] == e;
        }
      }
    }
  }

  /** The exact rule, over whole runs: a reservation is refused if and only if a recorded delivery of the alert is less
      than a cooldown old, or a reservation of it is unexpired and nothing has replaced or cleared it. */
  lemma RefusedIff(ops: TextOps, t: int, run: seq<Action>, request: FingerprintInput)
    requires Legal(ops, Start(t), run)
    ensures var w := After(ops, Start(t), run);
            var fp := Fingerprint(ops, request);
            Blocked(w.store, fp, request.severity, w.now) <==>
              || (exists e | e in w.log :: e.Delivered? && Fingerprint(ops, e.request) == fp
                                           && w.now < e.at + CooldownMs(request.severity))
              || (exists until :: LeaseHeld(ops, w.log, fp, until) && w.now < until)
  {
    hide Fingerprint, Step, Enabled, CooldownMs, LeaseHeld, LeaseIn, SentIn;
    var w := After(ops, Start(t), run);
    var fp := Fingerprint(ops, request);
    StoreReflectsRun(ops, t, run);
    RunKeepsOrder(ops, Start(t), run);
    assert InOrder(w.log);
    SentInIsLatest(ops, w.log, fp);
    forall until
      ensures Lease(w.store, fp) == Some(until) <==> LeaseHeld(ops, w.log, fp, until)
    {
      LeaseInIffHeld(ops, w.log, fp, until);
    }
    assert LastSent(w.store, fp) == SentIn(ops, w.log, fp);
    hide StoreIsHistory, SkippedIn, InOrder;
    BlockedParts(w.store, fp, request.severity, w.now);
  }

  lemma BlockedParts(store: Store, fp: string, severity: Severity, at: int)
    ensures Blocked(store, fp, severity, at) <==>
              || (LastSent(store, fp).Some? && at < LastSent(store, fp).value + CooldownMs(severity))
              || (Lease(store, fp).Some? && at < Lease(store, fp).value)
  {
    hide CooldownMs;
  }

  /** What a refusal says: a running cooldown comes first and is named with its end; otherwise the lease is. */
  lemma RefusalExplained(store: Store, fp: string, severity: Severity, at: int)
    requires fp in store
    ensures var sent, lease, why := LastSent(store, fp), Lease(store, fp), DescribeBlock(store[fp], severity, at);
            var cooling := sent.Some? && at < sent.value + CooldownMs(severity);
            && (cooling ==> why == CooldownActive(sent.value + CooldownMs(severity)))
            && (!cooling && lease.Some? && at < lease.value ==> why == DeliveryReserved(lease.value))
            && (!cooling && !(lease.Some? && at < lease.value) ==> why == Open)
  {
    hide CooldownMs;
  }

  /** A failed delivery gives its alert back: if the sender still holds the lease and no cooldown is running, any
      dispatch of the alert that reserves at that same time succeeds; recorded deliveries and skips are kept. */
  lemma FailureFreesAlert(ops: TextOps, t: int, run: seq<Action>, c: nat, d: nat)
    requires Legal(ops, Start(t), run)
    requires var w := After(ops, Start(t), run);
             && InFlight(w, c) && LeaseHeld(ops, w.log, Fp(ops, w, c), w.dispatches[c].phase.until)
             && (forall e | e in w.log && e.Delivered? && Of(ops, e, Fp(ops, w, c)) ::
                   e.at + CooldownMs(w.dispatches[c].request.severity) <= w.now)
             && d < |w.dispatches| && w.dispatches[d].phase.Ready? && Fp(ops, w, d) == Fp(ops, w, c)
    ensures var w := After(ops, Start(t), run);
            var w' := Step(ops, w, DoFail(c));
            var fp := Fp(ops, w, c);
            && LastSent(w'.store, fp) == LastSent(w.store, fp) && LastSkipped(w'.store, fp) == LastSkipped(w.store, fp)
            && d != c && w'.dispatches[d] == w.dispatches[d]
            && Step(ops, w', DoReserve(d)).dispatches[d].phase == Sending(w.now, w.now + w.dispatches[d].lease)
  {
    hide Fingerprint, CooldownMs, LeaseHeld, LeaseIn, SentIn, SkippedIn, Legal, After;
    var w := After(ops, Start(t), run);
    var fp, severity := Fp(ops, w, c), w.dispatches[c].request.severity;
    StoreReflectsRun(ops, t, run);
    LeaseInIffHeld(ops, w.log, fp, w.dispatches[c].phase.until);
    DeliveriesDone(ops, t, run, fp, severity);
    SameSeverity(ops, w.dispatches[c].request, w.dispatches[d].request);
    assert Lease(w.store, fp) == Some(w.dispatches[c].phase.until);
    var w' := Step(ops, w, DoFail(c));
    BlockedParts(w'.store, fp, severity, w.now);
  }

  lemma DeliveriesDone(ops: TextOps, t: int, run: seq<Action>, fp: string, severity: Severity)
    requires Legal(ops, Start(t), run)
    requires forall e | e in After(ops, Start(t), run).log && e.Delivered? && Of(ops, e, fp) ::
               e.at + CooldownMs(severity) <= After(ops, Start(t), run).now
    ensures var w := After(ops, Start(t), run);
            LastSent(w.store, fp).Some? ==> LastSent(w.store, fp).value + CooldownMs(severity) <= w.now
  {
    hide Fingerprint, CooldownMs, SentIn, LeaseIn, SkippedIn, Step, Enabled;
    var w := After(ops, Start(t), run);
    StoreReflectsRun(ops, t, run);
    RunKeepsOrder(ops, Start(t), run);
    assert InOrder(w.log);
    SentInIsLatest(ops, w.log, fp);
    assert LastSent(w.store, fp) == SentIn(ops, w.log, fp);
  }

  /** What a reservation step does in every reachable state: it takes the lease from now on if it is not refused, and
      otherwise goes on to record a skip at this time. */
  lemma ReserveDecides(ops: TextOps, t: int, run: seq<Action>, c: nat)
    requires Legal(ops, Start(t), run) && Enabled(After(ops, Start(t), run), DoReserve(c))
    ensures var w := After(ops, Start(t), run);
            var d := w.dispatches[c];
            Step(ops, w, DoReserve(c)).dispatches[c].phase
              == if Blocked(w.store, Fp(ops, w, c), d.request.severity, w.now) then Skipping(w.now, false)
                 else Sending(w.now, w.now + d.lease)
  {
    hide Fingerprint, CooldownMs, Legal, After;
    RaceBranchUnreachable(ops, t, run);
  }
}
