/** The in-memory cooldown store behind alert dispatch: one state per fingerprint, one atomic step per method. */
module AlertCooldown {
  import opened Sequences
  import opened AlertFingerprint

  /** Times are epoch milliseconds. */
  datatype CooldownState = CooldownState(
    severity: Severity, lastSentAt: Option<int>, lastSkippedAt: Option<int>, reservedUntil: Option<int>)

  type Store = map<string, CooldownState>

  const DEFAULT_RESERVATION_MS := 60_000

  function CooldownMs(s: Severity): int {
    match s
    case P0 => 60_000
    case P1 => 5 * 60_000
    case P2 => 60 * 60_000
    case P3 => 6 * 60 * 60_000
  }

  datatype Block = Open | CooldownActive(until: int) | DeliveryReserved(until: int)

  /** Why a delivery at `at` is held back, if it is. */
  function DescribeBlock(state: CooldownState, severity: Severity, at: int): Block {
    if state.lastSentAt.Some? && at < state.lastSentAt.value + CooldownMs(severity) then
      CooldownActive(state.lastSentAt.value + CooldownMs(severity))
    else if state.reservedUntil.Some? && at < state.reservedUntil.value then
      DeliveryReserved(state.reservedUntil.value)
    else Open
  }

  predicate Blocked(store: Store, fp: string, severity: Severity, at: int) {
    fp in store && DescribeBlock(store[fp], severity, at) != Open
  }

  function LastSent(store: Store, fp: string): Option<int> {
    if fp in store then store[fp].lastSentAt else None
  }

  function LastSkipped(store: Store, fp: string): Option<int> {
    if fp in store then store[fp].lastSkippedAt else None
  }

  function Lease(store: Store, fp: string): Option<int> {
    if fp in store then store[fp].reservedUntil else None
  }

  function LatestOf(current: Option<int>, next: int): int {
    if current.Some? && current.value >= next then current.value else next
  }

  function AfterReserve(store: Store, fp: string, severity: Severity, at: int, until: int): Store {
    if Blocked(store, fp, severity, at) then store
    else store[fp := CooldownState(severity, LastSent(store, fp), LastSkipped(store, fp), Some(until))]
  }

  function AfterRelease(store: Store, fp: string, severity: Severity, until: int): Store {
    if Lease(store, fp) != Some(until) then store
    else store[fp := CooldownState(severity, LastSent(store, fp), LastSkipped(store, fp), None)]
  }

  function AfterSent(store: Store, fp: string, severity: Severity, at: int): Store {
    store[fp := CooldownState(severity, Some(at), LastSkipped(store, fp), None)]
  }

  function AfterSkipped(store: Store, fp: string, severity: Severity, at: int): Store {
    store[fp := CooldownState(severity, LastSent(store, fp), Some(LatestOf(LastSkipped(store, fp), at)),
                              Lease(store, fp))]
  }

  /** `createInMemoryAlertCooldownStore`: a map that the four methods reassign. */
  class InMemoryCooldownStore {
    var states: Store

    constructor ()
      ensures states == map[]
    {
      states := map[];
    }

    /** The answer decides, for every severity and time, whether a reservation would be refused. */
    method FindByFingerprint(fp: string) returns (state: Option<CooldownState>)
      ensures forall severity, at ::
                Blocked(states, fp, severity, at) <==> state.Some? && DescribeBlock(state.value, severity, at) != Open
      ensures state.None? <==> fp !in states
    {
      state := if fp in states then Some(states[fp]) else None;
    }

    /** Check-and-set: a refusal changes nothing and returns the state that caused it. */
    method ReserveDelivery(fp: string, severity: Severity, at: int, until: int)
      returns (reserved: bool, state: CooldownState)
      modifies this
      ensures states == AfterReserve(old(states), fp, severity, at, until)
      ensures reserved <==> !Blocked(old(states), fp, severity, at)
      ensures fp in states && state == states[fp]
      ensures !reserved ==> DescribeBlock(state, severity, at) != Open
    {
      if fp in states && DescribeBlock(states[fp], severity, at) != Open {
        return false, states[fp];
      }
      state := CooldownState(
        severity,
        if fp in states then states[fp].lastSentAt else None,
        if fp in states then states[fp].lastSkippedAt else None,
        Some(until));
      states := states[fp := state];
      reserved := true;
    }

    /** Clears the lease only if the caller still holds it. */
    method ReleaseDeliveryReservation(fp: string, severity: Severity, until: int) returns (state: CooldownState)
      modifies this
      ensures states == AfterRelease(old(states), fp, severity, until)
      ensures fp in states ==> state == states[fp]
      ensures fp !in states ==> state == CooldownState(severity, None, None, None)
    {
      if fp !in states {
        return CooldownState(severity, None, None, None);
      }
      var previous := states[fp];
      if !(previous.reservedUntil.Some? && previous.reservedUntil.value == until) {
        return previous;
      }
      state := CooldownState(severity, previous.lastSentAt, previous.lastSkippedAt, None);
      states := states[fp := state];
    }

    method RecordSent(fp: string, severity: Severity, at: int) returns (state: CooldownState)
      modifies this
      ensures states == AfterSent(old(states), fp, severity, at)
      ensures fp in states && state == states[fp]
    {
      state := CooldownState(severity, Some(at), if fp in states then states[fp].lastSkippedAt else None, None);
      states := states[fp := state];
    }

    method RecordSkipped(fp: string, severity: Severity, at: int) returns (state: CooldownState)
      modifies this
      ensures states == AfterSkipped(old(states), fp, severity, at)
      ensures fp in states && state == states[fp]
    {
      var previous := if fp in states then states[fp] else CooldownState(severity, None, None, None);
      var skipped := if previous.lastSkippedAt.Some? && previous.lastSkippedAt.value >= at
                     then previous.lastSkippedAt.value else at;
      state := CooldownState(severity, previous.lastSentAt, Some(skipped), previous.reservedUntil);
      states := states[fp := state];
    }
  }
}
