/** The legacy event handler (Services/EventHandlerService.cs): two event
    types share one handler, there is no event cursor and no transaction,
    and an event is recognised as outdated inside the diff by the creation
    time of the court roles already stored. */
module LegacyEventHandler {
  import opened Wrappers
  import opened Domain
  import opened Events
  import opened RoleStore
  import opened CourtRoles
  import EventHandler
  import Strings
  import Ssn

  const CaseStatusUpdated := "no.altinn.events.digitalt-dodsbo.v1.case-status-updated"
  const HeirRolesUpdated := "no.altinn.events.digitalt-dodsbo.v1.heir-roles-updated"

  /** The add half of the legacy diff: either the adds, or a silent bail
      because the event is outdated. */
  datatype LegacyPlan = Bail | Plan(adds: seq<RoleAssignment>)

  /** Some current court role was created at or after the event time. */
  predicate Outdated(current: seq<RoleAssignment>, time: Instant) {
    exists c :: c in current && c.created >= time
  }

  /** The current add plan in the legacy plan's terms. */
  function AsLegacy(r: Result<seq<RoleAssignment>, Exception>): Result<LegacyPlan, Exception> {
    match r
    case Success(adds) => Success(Plan(adds))
    case Failure(e) => Failure(e)
  }

  /** The legacy add loop: per entry the identity number is checked, then
      the outdated test bails out of the whole diff, then the role
      namespace is checked. The outdated test does not depend on the entry,
      so it fires at the first entry with a valid identity number. */
  function PlanAdds(heirs: seq<HeirRole>, current: seq<RoleAssignment>, estateSsn: string, time: Instant, prefix: string)
    : (r: Result<LegacyPlan, Exception>)
    ensures |heirs| == 0 ==> r == Success(Plan([]))
    ensures |heirs| > 0 && Outdated(current, time) ==>
      r == if Ssn.IsValidSsn(heirs[0].nin) then Success(Bail) else Failure(ArgumentException("Nin", None))
    ensures !Outdated(current, time) ==> r == AsLegacy(EventHandler.PlanAdds(heirs, current, estateSsn, time, prefix))
    decreases |heirs|
  {
    if |heirs| == 0 then Success(Plan([]))
    else
      var h := heirs[0];
      if !Ssn.IsValidSsn(h.nin) then Failure(ArgumentException("Nin", None))
      else if Outdated(current, time) then Success(Bail)
      else if !Strings.StartsWith(h.role, prefix) then Failure(ArgumentException("Rolecode must start with " + prefix, None))
      else
        var rest :- PlanAdds(heirs[1..], current, estateSsn, time, prefix);
        match rest
        case Bail => Success(Bail)
        case Plan(adds) =>
          var own := if Held(current, h.nin, h.role) then [] else [NewCourtRole(estateSsn, h, time)];
          Success(Plan(own + adds))
  }

  /** The legacy `UpdateCourtAssignedRoleAssignments`. Without a transaction
      every insert and delete is durable on its own, so a failing insert
      leaves the inserts before it in the table. */
  function UpdateCourtAssignedRoleAssignments(codes: RoleCodes, s: Store, estateSsn: string, heirs: seq<HeirRole>, time: Instant)
    : (r: Applied)
    ensures r.failure.Some? && r.failure.value.ArgumentException? ==> r.store == s
    ensures r.failure.Some? ==> r.failure.value.ArgumentException? || r.failure.value.DbUpdateException?
  {
    var current := CurrentCourtRoles(s, estateSsn, codes.courtPrefix);
    match PlanAdds(heirs, current, estateSsn, time, codes.courtPrefix)
    case Failure(e) => Applied(s, Some(e))
    case Success(Bail) => Applied(s, None)
    case Success(Plan(adds)) =>
      var inserted := InsertAll(s, adds);
      if inserted.failure.Some? then inserted
      else Applied(RemoveAll(inserted.store, RemovalKeys(current, heirs, estateSsn)), None)
  }

  /** An outdated event whose first entry has a valid identity number
      changes nothing and reports nothing. */
  lemma OutdatedEventBails(codes: RoleCodes, s: Store, estateSsn: string, heirs: seq<HeirRole>, time: Instant)
    requires |heirs| > 0 && Ssn.IsValidSsn(heirs[0].nin)
    requires Outdated(CurrentCourtRoles(s, estateSsn, codes.courtPrefix), time)
    ensures UpdateCourtAssignedRoleAssignments(codes, s, estateSsn, heirs, time) == Applied(s, None)
  {
  }

  /** An empty heir list never reaches the outdated test: every court row of
      the estate without a delegating heir is deleted, whatever its age, and
      every other row is kept. */
  lemma EmptyListClearsCourtRoles(codes: RoleCodes, s: Store, estateSsn: string, time: Instant)
    ensures UpdateCourtAssignedRoleAssignments(codes, s, estateSsn, [], time).failure.None?
    ensures forall x :: x in UpdateCourtAssignedRoleAssignments(codes, s, estateSsn, [], time).store.rows <==>
      x in s.rows && !(InScope(x, estateSsn, codes.courtPrefix) && x.heirSsn.None?)
  {
    var current := CurrentCourtRoles(s, estateSsn, codes.courtPrefix);
    var keys := RemovalKeys(current, [], estateSsn);
    assert InsertAll(s, []).store == s;
    forall x | x in s.rows ensures KeyOf(x) in keys <==> InScope(x, estateSsn, codes.courtPrefix) && x.heirSsn.None? {
      if InScope(x, estateSsn, codes.courtPrefix) && x.heirSsn.None? {
        assert x in current && !Listed([], x.recipientSsn, x.roleCode);
        assert RemovalKey(estateSsn, x) == KeyOf(x);
      }
    }
  }

  /** When no current court role is as new as the event, the legacy diff
      does what the current one does: the same failures, and on success the
      same table. */
  lemma AgreesWithCurrentWhenNotOutdated(codes: RoleCodes, s: Store, estateSsn: string, heirs: seq<HeirRole>, time: Instant)
    requires !Outdated(CurrentCourtRoles(s, estateSsn, codes.courtPrefix), time)
    ensures var legacy := UpdateCourtAssignedRoleAssignments(codes, s, estateSsn, heirs, time);
      var current := EventHandler.UpdateCourtAssignedRoleAssignments(codes, s, estateSsn, heirs, time);
      && (legacy.failure.None? <==> current.Success?)
      && (current.Success? ==> legacy.store == current.value)
      && (current.Failure? ==> legacy.failure == Some(current.error))
  {
  }

  /** An event that added a court role is outdated once it is applied: the
      role it added carries the event time. Redelivering it therefore bails
      without writing, the legacy handler's only protection against
      replays. */
  lemma ReplayAfterAddBails(codes: RoleCodes, s: Store, estateSsn: string, heirs: seq<HeirRole>, time: Instant, h: HeirRole)
    requires !Outdated(CurrentCourtRoles(s, estateSsn, codes.courtPrefix), time)
    requires UpdateCourtAssignedRoleAssignments(codes, s, estateSsn, heirs, time).failure.None?
    requires h in heirs && !Held(CurrentCourtRoles(s, estateSsn, codes.courtPrefix), h.nin, h.role)
    ensures var s' := UpdateCourtAssignedRoleAssignments(codes, s, estateSsn, heirs, time).store;
      && Outdated(CurrentCourtRoles(s', estateSsn, codes.courtPrefix), time)
      && UpdateCourtAssignedRoleAssignments(codes, s', estateSsn, heirs, time) == Applied(s', None)
  {
    var prefix := codes.courtPrefix;
    AgreesWithCurrentWhenNotOutdated(codes, s, estateSsn, heirs, time);
    var s' := UpdateCourtAssignedRoleAssignments(codes, s, estateSsn, heirs, time).store;
    assert EventHandler.UpdateCourtAssignedRoleAssignments(codes, s, estateSsn, heirs, time) == Success(s');
    EventHandler.DiffCoversHeirList(codes, s, estateSsn, heirs, time, h);
    var x :| x in s'.rows && InScope(x, estateSsn, prefix) && x.recipientSsn == h.nin && x.roleCode == h.role;
    EventHandler.DiffAddsOnlyNewCourtRows(codes, s, estateSsn, heirs, time, x);
    assert x !in s.rows;
    assert x.created == time;
    assert x in CurrentCourtRoles(s', estateSsn, prefix);
    var j :| 0 <= j < |heirs| && heirs[j] == h;
    assert !HasInvalidEntry(heirs, prefix);
    assert EntryError(heirs[0], prefix).None?;
    OutdatedEventBails(codes, s', estateSsn, heirs, time);
  }

  /** What the legacy handler needs besides the table; the proxy step has
      the same shape as in the current handler. */
  type Env = EventHandler.Env

  /** The legacy `HandleEstateInstanceCreatedOrUpdated`: the data check,
      then the wipe or the diff followed by the proxy step. A failure in the
      proxy step leaves the diff's writes in place. */
  function HandleEstateInstanceCreatedOrUpdated(env: Env, s: Store, ev: CloudEvent): (r: Applied)
    ensures ev.data.None? ==> r == Applied(s, Some(ArgumentNullException("Data")))
    ensures ev.data.Some? && IsFeilfort(ev.data.value) ==> r == Applied(RemoveAllRoleAssignmentsForEstate(s, env.estateOf(ev.subject)), None)
  {
    if ev.data.None? then Applied(s, Some(ArgumentNullException("Data")))
    else
      var estateSsn := env.estateOf(ev.subject);
      var data := ev.data.value;
      if IsFeilfort(data) then Applied(RemoveAllRoleAssignmentsForEstate(s, estateSsn), None)
      else
        var diff := UpdateCourtAssignedRoleAssignments(env.codes, s, estateSsn, data.heirRoles, ev.time);
        if diff.failure.Some? then diff
        else
          match env.proxy(estateSsn, diff.store)
          case Failure(e) => Applied(diff.store, Some(e))
          case Success(proxied) => Applied(proxied, None)
  }

  /** The legacy `HandleEvent`: both estate event types go to the same
      handler, the subscription handshake does nothing and any other type is
      rejected without effect. */
  function HandleEvent(env: Env, s: Store, ev: CloudEvent): (r: Applied)
    ensures ev.eventType == EventHandler.ValidateSubscription ==> r == Applied(s, None)
    ensures ev.eventType !in [CaseStatusUpdated, HeirRolesUpdated, EventHandler.ValidateSubscription] ==>
      r == Applied(s, Some(ArgumentException("Unknown event type", None)))
    ensures ev.eventType in [CaseStatusUpdated, HeirRolesUpdated] ==> r == HandleEstateInstanceCreatedOrUpdated(env, s, ev)
  {
    if ev.eventType == CaseStatusUpdated || ev.eventType == HeirRolesUpdated then HandleEstateInstanceCreatedOrUpdated(env, s, ev)
    else if ev.eventType == EventHandler.ValidateSubscription then Applied(s, None)
    else Applied(s, Some(ArgumentException("Unknown event type", None)))
  }

  /** Both estate event types are handled alike. */
  lemma EstateEventTypesAlike(env: Env, s: Store, ev: CloudEvent)
    ensures HandleEvent(env, s, ev.(eventType := CaseStatusUpdated)) == HandleEvent(env, s, ev.(eventType := HeirRolesUpdated))
  {
  }

  /** After a bail the proxy step still runs, on the untouched table. */
  lemma ProxyRunsAfterBail(env: Env, s: Store, ev: CloudEvent)
    requires ev.data.Some? && !IsFeilfort(ev.data.value)
    requires |ev.data.value.heirRoles| > 0 && Ssn.IsValidSsn(ev.data.value.heirRoles[0].nin)
    requires Outdated(CurrentCourtRoles(s, env.estateOf(ev.subject), env.codes.courtPrefix), ev.time)
    ensures HandleEstateInstanceCreatedOrUpdated(env, s, ev) ==
      match env.proxy(env.estateOf(ev.subject), s)
      case Failure(e) => Applied(s, Some(e))
      case Success(proxied) => Applied(proxied, None)
  {
    OutdatedEventBails(env.codes, s, env.estateOf(ev.subject), ev.data.value.heirRoles, ev.time);
  }

  /** A bad heir entry is reported before anything is written, unless an
      earlier bail ended the diff: the table and the proxy step are left
      alone. */
  lemma InvalidEntryWritesNothing(env: Env, s: Store, ev: CloudEvent)
    requires ev.data.Some? && !IsFeilfort(ev.data.value)
    requires UpdateCourtAssignedRoleAssignments(env.codes, s, env.estateOf(ev.subject), ev.data.value.heirRoles, ev.time).failure.Some?
    requires UpdateCourtAssignedRoleAssignments(env.codes, s, env.estateOf(ev.subject), ev.data.value.heirRoles, ev.time).failure.value.ArgumentException?
    ensures HandleEstateInstanceCreatedOrUpdated(env, s, ev).store == s
    ensures HandleEstateInstanceCreatedOrUpdated(env, s, ev).failure.Some?
  {
  }
}
