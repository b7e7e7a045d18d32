/** The current event handler (src/oed-authz/Services/EventHandlerService.cs):
    dispatch on the event type, the per-(estate, event type) ordering guard,
    the court-assigned role diff, the wipe of a wrongly filed estate and the
    all-or-nothing transaction around them. */
module EventHandler {
  import opened Wrappers
  import opened Domain
  import opened Events
  import opened RoleStore
  import opened CourtRoles
  import Strings
  import Seqs

  const CaseStatusUpdateValidated := "no.altinn.events.digitalt-dodsbo.v1.case-status-update-validated"
  const ValidateSubscription := "platform.events.validatesubscription"

  // ---------------------------------------------------------------------
  // Court-assigned role diff

  /** The add half of the diff loop: every entry is validated in list order
      and the first bad one aborts; an entry whose pair no current court row
      holds yields a new row. */
  function PlanAdds(heirs: seq<HeirRole>, current: seq<RoleAssignment>, estateSsn: string, time: Instant, prefix: string)
    : (r: Result<seq<RoleAssignment>, Exception>)
    ensures r.Success? <==> forall i :: 0 <= i < |heirs| ==> EntryError(heirs[i], prefix).None?
    ensures r.Failure? ==> exists i :: FirstInvalid(heirs, prefix, i) && r.error == EntryError(heirs[i], prefix).value
    ensures r.Success? ==> r.value == Seqs.Map((h: HeirRole) => NewCourtRole(estateSsn, h, time),
      Seqs.Filter((h: HeirRole) => !Held(current, h.nin, h.role), heirs))
    decreases |heirs|
  {
    if |heirs| == 0 then Success([])
    else
      var h := heirs[0];
      match EntryError(h, prefix)
      case Some(e) => Failure(e)
      case None =>
        var rest := PlanAdds(heirs[1..], current, estateSsn, time, prefix);
        assert forall i :: 1 <= i < |heirs| ==> heirs[i] == heirs[1..][i - 1];
        if rest.Failure? then
          var k :| FirstInvalid(heirs[1..], prefix, k) && rest.error == EntryError(heirs[1..][k], prefix).value;
          assert FirstInvalid(heirs, prefix, k + 1);
          rest
        else
          var own := if Held(current, h.nin, h.role) then [] else [NewCourtRole(estateSsn, h, time)];
          Success(own + rest.value)
  }

  /** `UpdateCourtAssignedRoleAssignments`: validate and plan the adds, plan
      the deletes of current court rows the list no longer names, then run
      the inserts before the deletes. */
  function UpdateCourtAssignedRoleAssignments(codes: RoleCodes, s: Store, estateSsn: string, heirs: seq<HeirRole>, time: Instant)
    : (r: Result<Store, Exception>)
    ensures r.Failure? && r.error.ArgumentException? <==> HasInvalidEntry(heirs, codes.courtPrefix)
    ensures r.Failure? && !r.error.ArgumentException? ==> r.error.DbUpdateException?
  {
    var current := CurrentCourtRoles(s, estateSsn, codes.courtPrefix);
    var adds :- PlanAdds(heirs, current, estateSsn, time, codes.courtPrefix);
    var removes := RemovalKeys(current, heirs, estateSsn);
    var applied := InsertAll(s, adds);
    if applied.failure.Some? then Failure(applied.failure.value)
    else Success(RemoveAll(applied.store, removes))
  }

  /** A stored row the diff deletes: a court row of the estate, without a
      delegating heir, whose pair the heir list no longer names. */
  predicate Stale(x: RoleAssignment, estateSsn: string, prefix: string, heirs: seq<HeirRole>) {
    InScope(x, estateSsn, prefix) && x.heirSsn.None? && !Listed(heirs, x.recipientSsn, x.roleCode)
  }

  /** A row the diff adds: a court grant without a delegating heir, created at
      the event time, for a pair the heir list names and no court row of the
      estate held before, with an identity value never handed out before. */
  predicate Added(x: RoleAssignment, s: Store, estateSsn: string, prefix: string, heirs: seq<HeirRole>, time: Instant) {
    && x.heirSsn.None?
    && x.created == time
    && x.justification.None?
    && x.id >= s.nextId
    && InScope(x, estateSsn, prefix)
    && Listed(heirs, x.recipientSsn, x.roleCode)
    && !Held(CurrentCourtRoles(s, estateSsn, prefix), x.recipientSsn, x.roleCode)
  }

  /** Some court row of the estate grants `role` to `nin`. */
  predicate CourtPairHeld(rows: seq<RoleAssignment>, estateSsn: string, prefix: string, nin: string, role: string) {
    exists x :: x in rows && InScope(x, estateSsn, prefix) && x.recipientSsn == nin && x.roleCode == role
  }

  /** The rows the diff inserts, before the store stamps their ids. */
  function PlannedAdds(codes: RoleCodes, s: Store, estateSsn: string, heirs: seq<HeirRole>, time: Instant): seq<RoleAssignment>
    requires !HasInvalidEntry(heirs, codes.courtPrefix)
  {
    PlanAdds(heirs, CurrentCourtRoles(s, estateSsn, codes.courtPrefix), estateSsn, time, codes.courtPrefix).value
  }

  /** The successful diff as one batch of inserts followed by one batch of
      deletes. */
  lemma DiffShape(codes: RoleCodes, s: Store, estateSsn: string, heirs: seq<HeirRole>, time: Instant)
    requires UpdateCourtAssignedRoleAssignments(codes, s, estateSsn, heirs, time).Success?
    ensures !HasInvalidEntry(heirs, codes.courtPrefix)
    ensures InsertAll(s, PlannedAdds(codes, s, estateSsn, heirs, time)).failure.None?
    ensures UpdateCourtAssignedRoleAssignments(codes, s, estateSsn, heirs, time).value ==
      RemoveAll(InsertAll(s, PlannedAdds(codes, s, estateSsn, heirs, time)).store,
                RemovalKeys(CurrentCourtRoles(s, estateSsn, codes.courtPrefix), heirs, estateSsn))
  {
    var current := CurrentCourtRoles(s, estateSsn, codes.courtPrefix);
    var plan := PlanAdds(heirs, current, estateSsn, time, codes.courtPrefix);
    assert plan.Success?;
    var applied := InsertAll(s, plan.value);
    assert applied.failure.None?;
  }

  /** A stored row survives the diff exactly when it is not stale: rows of
      other estates, rows outside the court namespace, delegated rows and
      court rows the list still names are all kept as they were. */
  lemma DiffDeletesExactlyStaleRows(codes: RoleCodes, s: Store, estateSsn: string, heirs: seq<HeirRole>, time: Instant, x: RoleAssignment)
    requires UpdateCourtAssignedRoleAssignments(codes, s, estateSsn, heirs, time).Success?
    requires x in s.rows
    ensures x in UpdateCourtAssignedRoleAssignments(codes, s, estateSsn, heirs, time).value.rows <==>
      !Stale(x, estateSsn, codes.courtPrefix, heirs)
  {
    DiffShape(codes, s, estateSsn, heirs, time);
    var current := CurrentCourtRoles(s, estateSsn, codes.courtPrefix);
    if Stale(x, estateSsn, codes.courtPrefix, heirs) {
      assert x in current;
      assert RemovalKey(estateSsn, x) == KeyOf(x);
    }
  }

  /** The `i`-th inserted row is an added court grant. */
  lemma StampedRowIsAdded(codes: RoleCodes, s: Store, estateSsn: string, heirs: seq<HeirRole>, time: Instant, i: int)
    requires !HasInvalidEntry(heirs, codes.courtPrefix)
    requires 0 <= i < |PlannedAdds(codes, s, estateSsn, heirs, time)|
    ensures Added(Stamp(PlannedAdds(codes, s, estateSsn, heirs, time), s.nextId)[i], s, estateSsn, codes.courtPrefix, heirs, time)
  {
    var prefix := codes.courtPrefix;
    var current := CurrentCourtRoles(s, estateSsn, prefix);
    var adds := PlannedAdds(codes, s, estateSsn, heirs, time);
    var unheld := Seqs.Filter((h: HeirRole) => !Held(current, h.nin, h.role), heirs);
    assert adds == Seqs.Map((h: HeirRole) => NewCourtRole(estateSsn, h, time), unheld);
    var h := unheld[i];
    assert h in heirs && !Held(current, h.nin, h.role);
    var j :| 0 <= j < |heirs| && heirs[j] == h;
    assert EntryError(heirs[j], prefix).None?;
    var x := Stamp(adds, s.nextId)[i];
    assert x == NewCourtRole(estateSsn, h, time).(id := s.nextId + i);
    assert Listed(heirs, x.recipientSsn, x.roleCode);
  }

  /** Every row the diff leaves that was not stored before is an added court
      grant. */
  lemma DiffAddsOnlyNewCourtRows(codes: RoleCodes, s: Store, estateSsn: string, heirs: seq<HeirRole>, time: Instant, x: RoleAssignment)
    requires UpdateCourtAssignedRoleAssignments(codes, s, estateSsn, heirs, time).Success?
    requires x in UpdateCourtAssignedRoleAssignments(codes, s, estateSsn, heirs, time).value.rows
    ensures x in s.rows || Added(x, s, estateSsn, codes.courtPrefix, heirs, time)
  {
    DiffShape(codes, s, estateSsn, heirs, time);
    var adds := PlannedAdds(codes, s, estateSsn, heirs, time);
    var stamped := Stamp(adds, s.nextId);
    assert InsertAll(s, adds).store.rows == s.rows + stamped;
    assert x in s.rows + stamped;
    if x !in s.rows {
      var i :| 0 <= i < |stamped| && stamped[i] == x;
      StampedRowIsAdded(codes, s, estateSsn, heirs, time, i);
    }
  }

  /** After the diff every pair of the heir list is held by a court row of
      the estate. */
  lemma DiffCoversHeirList(codes: RoleCodes, s: Store, estateSsn: string, heirs: seq<HeirRole>, time: Instant, h: HeirRole)
    requires UpdateCourtAssignedRoleAssignments(codes, s, estateSsn, heirs, time).Success?
    requires h in heirs
    ensures CourtPairHeld(UpdateCourtAssignedRoleAssignments(codes, s, estateSsn, heirs, time).value.rows,
                          estateSsn, codes.courtPrefix, h.nin, h.role)
  {
    DiffShape(codes, s, estateSsn, heirs, time);
    var prefix := codes.courtPrefix;
    var s' := UpdateCourtAssignedRoleAssignments(codes, s, estateSsn, heirs, time).value;
    var current := CurrentCourtRoles(s, estateSsn, prefix);
    var adds := PlannedAdds(codes, s, estateSsn, heirs, time);
    var stamped := Stamp(adds, s.nextId);
    assert InsertAll(s, adds).store.rows == s.rows + stamped;
    var keys := RemovalKeys(current, heirs, estateSsn);
    var j :| 0 <= j < |heirs| && heirs[j] == h;
    assert EntryError(heirs[j], prefix).None?;
    if Held(current, h.nin, h.role) {
      var c :| c in current && c.recipientSsn == h.nin && c.roleCode == h.role;
      DiffDeletesExactlyStaleRows(codes, s, estateSsn, heirs, time, c);
      assert c in s'.rows;
    } else {
      var unheld := Seqs.Filter((g: HeirRole) => !Held(current, g.nin, g.role), heirs);
      assert adds == Seqs.Map((g: HeirRole) => NewCourtRole(estateSsn, g, time), unheld);
      assert h in unheld;
      var i :| 0 <= i < |unheld| && unheld[i] == h;
      var x := stamped[i];
      assert x == NewCourtRole(estateSsn, h, time).(id := s.nextId + i);
      assert KeyOf(x) !in keys;
      assert x in s'.rows;
    }
  }

  /** Rows outside the diff's scope (other estates, other role namespaces)
      are neither deleted nor created by it. */
  lemma DiffLeavesOutOfScopeRowsAlone(codes: RoleCodes, s: Store, estateSsn: string, heirs: seq<HeirRole>, time: Instant, x: RoleAssignment)
    requires UpdateCourtAssignedRoleAssignments(codes, s, estateSsn, heirs, time).Success?
    requires !InScope(x, estateSsn, codes.courtPrefix)
    ensures x in UpdateCourtAssignedRoleAssignments(codes, s, estateSsn, heirs, time).value.rows <==> x in s.rows
  {
    if x in s.rows {
      DiffDeletesExactlyStaleRows(codes, s, estateSsn, heirs, time, x);
    }
    if x in UpdateCourtAssignedRoleAssignments(codes, s, estateSsn, heirs, time).value.rows {
      DiffAddsOnlyNewCourtRows(codes, s, estateSsn, heirs, time, x);
    }
  }

  /** When no court row of the estate is delegated (all have a null heir),
      the diff leaves the estate's court pairs equal to the heir list's
      pairs. */
  lemma DiffCourtPairsEqualHeirList(codes: RoleCodes, s: Store, estateSsn: string, heirs: seq<HeirRole>, time: Instant, nin: string, role: string)
    requires UpdateCourtAssignedRoleAssignments(codes, s, estateSsn, heirs, time).Success?
    requires forall i :: 0 <= i < |s.rows| && InScope(s.rows[i], estateSsn, codes.courtPrefix) ==> s.rows[i].heirSsn.None?
    ensures CourtPairHeld(UpdateCourtAssignedRoleAssignments(codes, s, estateSsn, heirs, time).value.rows, estateSsn, codes.courtPrefix, nin, role)
      <==> Listed(heirs, nin, role)
  {
    var prefix := codes.courtPrefix;
    var s' := UpdateCourtAssignedRoleAssignments(codes, s, estateSsn, heirs, time).value;
    if Listed(heirs, nin, role) {
      var h :| h in heirs && h.nin == nin && h.role == role;
      DiffCoversHeirList(codes, s, estateSsn, heirs, time, h);
    }
    if CourtPairHeld(s'.rows, estateSsn, prefix, nin, role) {
      var x :| x in s'.rows && InScope(x, estateSsn, prefix) && x.recipientSsn == nin && x.roleCode == role;
      DiffAddsOnlyNewCourtRows(codes, s, estateSsn, heirs, time, x);
      if x in s.rows {
        DiffDeletesExactlyStaleRows(codes, s, estateSsn, heirs, time, x);
        var i :| 0 <= i < |s.rows| && s.rows[i] == x;
      }
    }
  }

  /** The diff keeps the table well formed. */
  lemma DiffPreservesWellFormed(codes: RoleCodes, s: Store, estateSsn: string, heirs: seq<HeirRole>, time: Instant)
    requires WellFormed(s)
    requires UpdateCourtAssignedRoleAssignments(codes, s, estateSsn, heirs, time).Success?
    ensures WellFormed(UpdateCourtAssignedRoleAssignments(codes, s, estateSsn, heirs, time).value)
  {
    DiffShape(codes, s, estateSsn, heirs, time);
    var adds := PlannedAdds(codes, s, estateSsn, heirs, time);
    InsertAllPreservesWellFormed(s, adds);
    RemoveAllPreservesWellFormed(InsertAll(s, adds).store, RemovalKeys(CurrentCourtRoles(s, estateSsn, codes.courtPrefix), heirs, estateSsn));
  }

  /** The `i`-th planned row fits its columns and its key is free. */
  lemma PlannedAddIsInsertable(codes: RoleCodes, s: Store, estateSsn: string, heirs: seq<HeirRole>, time: Instant, i: int)
    requires !HasInvalidEntry(heirs, codes.courtPrefix)
    requires |estateSsn| <= Schema.SsnColumnWidth
    requires forall k :: 0 <= k < |heirs| ==> |heirs[k].role| <= Schema.RoleCodeMaxLength
    requires 0 <= i < |PlannedAdds(codes, s, estateSsn, heirs, time)|
    ensures Schema.FitsColumns(PlannedAdds(codes, s, estateSsn, heirs, time)[i])
    ensures !KeyTaken(s.rows, KeyOf(PlannedAdds(codes, s, estateSsn, heirs, time)[i]))
  {
    var prefix := codes.courtPrefix;
    var current := CurrentCourtRoles(s, estateSsn, prefix);
    var unheld := Seqs.Filter((h: HeirRole) => !Held(current, h.nin, h.role), heirs);
    var adds := PlannedAdds(codes, s, estateSsn, heirs, time);
    assert adds == Seqs.Map((h: HeirRole) => NewCourtRole(estateSsn, h, time), unheld);
    var h := unheld[i];
    assert h in heirs && !Held(current, h.nin, h.role);
    var j :| 0 <= j < |heirs| && heirs[j] == h;
    assert EntryError(heirs[j], prefix).None?;
    assert adds[i] == NewCourtRole(estateSsn, h, time);
  }

  /** Planned rows never share a key when the list repeats no pair. */
  lemma PlannedAddsDistinct(codes: RoleCodes, s: Store, estateSsn: string, heirs: seq<HeirRole>, time: Instant)
    requires !HasInvalidEntry(heirs, codes.courtPrefix)
    requires NoDuplicatePairs(heirs)
    ensures var adds := PlannedAdds(codes, s, estateSsn, heirs, time);
      forall i, j :: 0 <= i < j < |adds| ==> KeyOf(adds[i]) != KeyOf(adds[j])
  {
    var current := CurrentCourtRoles(s, estateSsn, codes.courtPrefix);
    var unheld := Seqs.Filter((h: HeirRole) => !Held(current, h.nin, h.role), heirs);
    var adds := PlannedAdds(codes, s, estateSsn, heirs, time);
    assert adds == Seqs.Map((h: HeirRole) => NewCourtRole(estateSsn, h, time), unheld);
    var differ := (a: HeirRole, b: HeirRole) => (a.nin, a.role) != (b.nin, b.role);
    assert Seqs.Pairwise(differ, heirs);
    Seqs.FilterKeepsPairwise((h: HeirRole) => !Held(current, h.nin, h.role), differ, heirs);
    forall i, j | 0 <= i < j < |adds| ensures KeyOf(adds[i]) != KeyOf(adds[j]) {
      assert differ(unheld[i], unheld[j]);
    }
  }

  /** With valid entries, no (identity number, role) pair listed twice and
      values that fit their columns, the diff cannot hit a unique index: it
      succeeds. */
  lemma DiffSucceeds(codes: RoleCodes, s: Store, estateSsn: string, heirs: seq<HeirRole>, time: Instant)
    requires !HasInvalidEntry(heirs, codes.courtPrefix)
    requires NoDuplicatePairs(heirs)
    requires |estateSsn| <= Schema.SsnColumnWidth
    requires forall i :: 0 <= i < |heirs| ==> |heirs[i].role| <= Schema.RoleCodeMaxLength
    ensures UpdateCourtAssignedRoleAssignments(codes, s, estateSsn, heirs, time).Success?
  {
    var adds := PlannedAdds(codes, s, estateSsn, heirs, time);
    forall i | 0 <= i < |adds| ensures Schema.FitsColumns(adds[i]) && !KeyTaken(s.rows, KeyOf(adds[i])) {
      PlannedAddIsInsertable(codes, s, estateSsn, heirs, time, i);
    }
    PlannedAddsDistinct(codes, s, estateSsn, heirs, time);
    InsertAllSucceeds(s, adds);
    var current := CurrentCourtRoles(s, estateSsn, codes.courtPrefix);
    assert PlanAdds(heirs, current, estateSsn, time, codes.courtPrefix) == Success(adds);
  }


  // ---------------------------------------------------------------------
  // Orchestration

  /** What the handler cannot see: the role-code constants, the estate
      number carried by an event subject, and the collective-proxy step,
      which reads and rewrites the table inside the same transaction. */
  datatype Env = Env(
    codes: RoleCodes,
    estateOf: string -> string,
    proxy: (string, Store) -> Result<Store, Exception>)

  /** The event cursor table is keyed by (estate, event type). */
  datatype CursorKey = CursorKey(estateSsn: string, eventType: string)

  /** The width of the cursor table's event-type column; its estate column
      is `character(11)`, as in the role table. */
  const EventTypeMaxLength: nat := 255

  /** A cursor row whose values fit the cursor table's columns. A new cursor
      is written when the transaction saves, so a key that does not fit
      makes the save fail. */
  predicate CursorFits(key: CursorKey) {
    |key.estateSsn| <= Schema.SsnColumnWidth && |key.eventType| <= EventTypeMaxLength
  }

  /** Every stored cursor fits its columns: the table cannot hold any other. */
  predicate CursorsFit(st: State) {
    forall k :: k in st.cursors ==> CursorFits(k)
  }

  /** Everything the handler persists: the role table and the watermark of
      every cursor. */
  datatype State = State(roles: Store, cursors: map<CursorKey, Instant>)

  /** How a delivered event ended. `Failed` carries the exception the handler
      lets escape; the caller turns it into a retry. */
  datatype Outcome = Ignored | Discarded | Committed | Failed(error: Exception)

  datatype Response = Response(state: State, outcome: Outcome)

  /** The cursor an event is checked against. */
  function CursorOf(env: Env, ev: CloudEvent): CursorKey {
    CursorKey(env.estateOf(ev.subject), ev.eventType)
  }

  /** `GetOrCreateEventCursorForUpdate`: the stored watermark, or the default
      instant for a cursor created on the spot. */
  function WatermarkOf(cursors: map<CursorKey, Instant>, key: CursorKey): (w: Instant)
    ensures key !in cursors ==> w == DefaultInstant
  {
    if key in cursors then cursors[key] else DefaultInstant
  }

  /** `EventIsOutOfOrder`: a cursor still at the default instant accepts
      anything; otherwise an event not strictly newer than the watermark is
      out of order, ties included. */
  function EventIsOutOfOrder(watermark: Instant, time: Instant): (outOfOrder: bool)
    ensures watermark == DefaultInstant ==> !outOfOrder
    ensures !outOfOrder <==> watermark == DefaultInstant || watermark < time
  {
    watermark != DefaultInstant && time <= watermark
  }

  /** Raising a watermark never lets through an event the lower one
      discarded, and an accepted event's own time discards it from then on. */
  lemma RaisedWatermarkDiscardsMore(w1: Instant, w2: Instant, time: Instant)
    requires w1 <= w2
    ensures EventIsOutOfOrder(w1, time) ==> EventIsOutOfOrder(w2, time)
    ensures time != DefaultInstant ==> EventIsOutOfOrder(time, time)
  {
  }

  /** The work done inside the transaction once the guard passed: wipe a
      wrongly filed estate, or run the diff and then the proxy step. */
  function ApplyEventData(env: Env, roles: Store, estateSsn: string, data: EventData, time: Instant): (r: Result<Store, Exception>)
    ensures IsFeilfort(data) ==> r == Success(RemoveAllRoleAssignmentsForEstate(roles, estateSsn))
    ensures !IsFeilfort(data) && HasInvalidEntry(data.heirRoles, env.codes.courtPrefix) ==> r.Failure? && r.error.ArgumentException?
  {
    if IsFeilfort(data) then Success(RemoveAllRoleAssignmentsForEstate(roles, estateSsn))
    else
      var updated :- UpdateCourtAssignedRoleAssignments(env.codes, roles, estateSsn, data.heirRoles, time);
      env.proxy(estateSsn, updated)
  }

  /** `HandleEstateInstanceCreatedOrUpdated` with its transaction: on every
      path but the commit the state is the one before the call, and the
      commit advances exactly the event's cursor to the event time. */
  function HandleEstateInstanceCreatedOrUpdated(env: Env, st: State, ev: CloudEvent): (r: Response)
    ensures r.outcome.Ignored? == false
    ensures !r.outcome.Committed? ==> r.state == st
    ensures r.outcome.Discarded? <==> EventIsOutOfOrder(WatermarkOf(st.cursors, CursorOf(env, ev)), ev.time)
    ensures r.outcome.Committed? ==> r.state.cursors == st.cursors[CursorOf(env, ev) := ev.time]
    ensures r.outcome.Committed? ==> ev.data.Some?
    ensures r.outcome.Committed? ==> CursorOf(env, ev) in st.cursors || CursorFits(CursorOf(env, ev))
    ensures && !r.outcome.Discarded? && ev.data.Some?
            && ApplyEventData(env, st.roles, CursorOf(env, ev).estateSsn, ev.data.value, ev.time).Success?
            && CursorOf(env, ev) !in st.cursors && !CursorFits(CursorOf(env, ev))
            ==> r.outcome == Failed(DbUpdateException(ValueTooLong))
  {
    var key := CursorOf(env, ev);
    if EventIsOutOfOrder(WatermarkOf(st.cursors, key), ev.time) then Response(st, Discarded)
    else if ev.data.None? then Response(st, Failed(ArgumentNullException("Data")))
    else
      match ApplyEventData(env, st.roles, key.estateSsn, ev.data.value, ev.time)
      case Failure(e) => Response(st, Failed(e))
      case Success(roles) =>
        if key !in st.cursors && !CursorFits(key) then Response(st, Failed(DbUpdateException(ValueTooLong)))
        else Response(State(roles, st.cursors[key := ev.time]), Committed)
  }

  /** `HandleEvent`: dispatch on the event type. The subscription handshake
      is acknowledged without effect and an unknown type is rejected before
      any transaction is opened. */
  function HandleEvent(env: Env, st: State, ev: CloudEvent): (r: Response)
    ensures !r.outcome.Committed? ==> r.state == st
    ensures r.outcome.Ignored? <==> ev.eventType == ValidateSubscription
    ensures ev.eventType != CaseStatusUpdateValidated && ev.eventType != ValidateSubscription
      ==> r.outcome == Failed(ArgumentException("Unknown event type", None))
    ensures r.outcome.Committed? ==> ev.eventType == CaseStatusUpdateValidated && r.state.cursors == st.cursors[CursorOf(env, ev) := ev.time]
    ensures forall k :: k in st.cursors ==> k in r.state.cursors && st.cursors[k] <= r.state.cursors[k]
  {
    if ev.eventType == CaseStatusUpdateValidated then HandleEstateInstanceCreatedOrUpdated(env, st, ev)
    else if ev.eventType == ValidateSubscription then Response(st, Ignored)
    else Response(st, Failed(ArgumentException("Unknown event type", None)))
  }

  /** The ordering guard discards an event exactly when its cursor exists,
      has left the default instant and is not older than the event. */
  lemma DiscardedIff(env: Env, st: State, ev: CloudEvent)
    ensures HandleEvent(env, st, ev).outcome.Discarded? <==>
      && ev.eventType == CaseStatusUpdateValidated
      && CursorOf(env, ev) in st.cursors
      && st.cursors[CursorOf(env, ev)] != DefaultInstant
      && ev.time <= st.cursors[CursorOf(env, ev)]
  {
  }

  /** The first event of an (estate, event type) pair is never discarded. */
  lemma FirstEventNeverDiscarded(env: Env, st: State, ev: CloudEvent)
    requires CursorOf(env, ev) !in st.cursors
    ensures !HandleEvent(env, st, ev).outcome.Discarded?
  {
  }

  /** The guard runs before the data check: an event without data is
      discarded silently when out of order and rejected otherwise. */
  lemma MissingDataAfterGuard(env: Env, st: State, ev: CloudEvent)
    requires ev.eventType == CaseStatusUpdateValidated
    requires ev.data.None?
    ensures HandleEvent(env, st, ev) ==
      if EventIsOutOfOrder(WatermarkOf(st.cursors, CursorOf(env, ev)), ev.time) then Response(st, Discarded)
      else Response(st, Failed(ArgumentNullException("Data")))
  {
  }

  /** `e` is the exception of the first bad entry of the list. */
  ghost predicate FirstEntryError(heirs: seq<HeirRole>, prefix: string, e: Exception) {
    exists i :: FirstInvalid(heirs, prefix, i) && e == EntryError(heirs[i], prefix).value
  }

  /** A bad heir entry anywhere in the list rolls the whole event back,
      cursor included, and reports the first bad entry. */
  lemma InvalidEntryRollsBack(env: Env, st: State, ev: CloudEvent)
    requires ev.eventType == CaseStatusUpdateValidated
    requires !EventIsOutOfOrder(WatermarkOf(st.cursors, CursorOf(env, ev)), ev.time)
    requires ev.data.Some? && !IsFeilfort(ev.data.value)
    requires HasInvalidEntry(ev.data.value.heirRoles, env.codes.courtPrefix)
    ensures HandleEvent(env, st, ev).state == st
    ensures HandleEvent(env, st, ev).outcome.Failed?
    ensures FirstEntryError(ev.data.value.heirRoles, env.codes.courtPrefix, HandleEvent(env, st, ev).outcome.error)
  {
    var key := CursorOf(env, ev);
    var heirs := ev.data.value.heirRoles;
    var prefix := env.codes.courtPrefix;
    var current := CurrentCourtRoles(st.roles, key.estateSsn, prefix);
    var plan := PlanAdds(heirs, current, key.estateSsn, ev.time, prefix);
    assert plan.Failure?;
    assert UpdateCourtAssignedRoleAssignments(env.codes, st.roles, key.estateSsn, heirs, ev.time) == Failure(plan.error);
  }

  /** An accepted wrongly-filed event wipes the estate and commits, unless
      it needs a new cursor that does not fit the cursor table; then the save
      fails and nothing changes. */
  lemma FeilfortWipesEstate(env: Env, st: State, ev: CloudEvent)
    requires ev.eventType == CaseStatusUpdateValidated
    requires !EventIsOutOfOrder(WatermarkOf(st.cursors, CursorOf(env, ev)), ev.time)
    requires ev.data.Some? && IsFeilfort(ev.data.value)
    ensures HandleEvent(env, st, ev).outcome.Committed? <==> CursorOf(env, ev) in st.cursors || CursorFits(CursorOf(env, ev))
    ensures !HandleEvent(env, st, ev).outcome.Committed? ==> HandleEvent(env, st, ev) == Response(st, Failed(DbUpdateException(ValueTooLong)))
    ensures HandleEvent(env, st, ev).outcome.Committed? ==>
      forall r :: r in HandleEvent(env, st, ev).state.roles.rows <==> r in st.roles.rows && r.estateSsn != env.estateOf(ev.subject)
  {
  }

  /** The wipe skips both the diff and the proxy step: neither the heir list
      nor the proxy step has any bearing on a wrongly-filed event. */
  lemma FeilfortSkipsDiffAndProxy(env: Env, st: State, ev: CloudEvent,
                                   proxy: (string, Store) -> Result<Store, Exception>, heirs: seq<HeirRole>)
    requires ev.data.Some? && IsFeilfort(ev.data.value)
    ensures HandleEvent(env, st, ev) ==
      HandleEvent(env.(proxy := proxy), st, ev.(data := Some(ev.data.value.(heirRoles := heirs))))
  {
  }

  /** Otherwise an accepted event runs the diff and hands its result to the
      proxy step; the event commits exactly when both succeed and the cursor
      can be saved, with the proxy step's table. */
  lemma DiffThenProxy(env: Env, st: State, ev: CloudEvent)
    requires ev.eventType == CaseStatusUpdateValidated
    requires !EventIsOutOfOrder(WatermarkOf(st.cursors, CursorOf(env, ev)), ev.time)
    requires ev.data.Some? && !IsFeilfort(ev.data.value)
    ensures var estateSsn := env.estateOf(ev.subject);
      var diff := UpdateCourtAssignedRoleAssignments(env.codes, st.roles, estateSsn, ev.data.value.heirRoles, ev.time);
      && (HandleEvent(env, st, ev).outcome.Committed? <==>
            && diff.Success? && env.proxy(estateSsn, diff.value).Success?
            && (CursorOf(env, ev) in st.cursors || CursorFits(CursorOf(env, ev))))
      && (HandleEvent(env, st, ev).outcome.Committed? ==> HandleEvent(env, st, ev).state.roles == env.proxy(estateSsn, diff.value).value)
  {
  }

  /** Two committed events on the same cursor: the later one is strictly
      newer, unless the earlier one carried the default instant. */
  lemma AcceptedTimesIncrease(env: Env, st: State, ev1: CloudEvent, ev2: CloudEvent)
    requires HandleEvent(env, st, ev1).outcome.Committed?
    requires HandleEvent(env, HandleEvent(env, st, ev1).state, ev2).outcome.Committed?
    requires CursorOf(env, ev1) == CursorOf(env, ev2)
    requires ev1.time != DefaultInstant
    ensures ev1.time < ev2.time
  {
    var st1 := HandleEvent(env, st, ev1).state;
    assert st1.cursors[CursorOf(env, ev1)] == ev1.time;
    assert !HandleEvent(env, st1, ev2).outcome.Discarded?;
  }

  /** Redelivering a committed event changes nothing: it is discarded. */
  lemma ReplayIsDiscarded(env: Env, st: State, ev: CloudEvent)
    requires HandleEvent(env, st, ev).outcome.Committed?
    requires ev.time != DefaultInstant
    ensures var st1 := HandleEvent(env, st, ev).state;
      HandleEvent(env, st1, ev) == Response(st1, Discarded)
  {
  }

  /** An event older than a committed one on the same cursor is discarded. */
  lemma OlderAfterNewerDiscarded(env: Env, st: State, newer: CloudEvent, older: CloudEvent)
    requires HandleEvent(env, st, newer).outcome.Committed?
    requires newer.time != DefaultInstant
    requires older.eventType == newer.eventType && env.estateOf(older.subject) == env.estateOf(newer.subject)
    requires older.time <= newer.time
    ensures var st1 := HandleEvent(env, st, newer).state;
      HandleEvent(env, st1, older) == Response(st1, Discarded)
  {
  }

  /** The handler only ever stores cursors that fit their columns. */
  lemma HandleEventKeepsCursorsFit(env: Env, st: State, ev: CloudEvent)
    requires CursorsFit(st)
    ensures CursorsFit(HandleEvent(env, st, ev).state)
  {
    var r := HandleEvent(env, st, ev);
    if r.outcome.Committed? {
      forall k | k in r.state.cursors ensures CursorFits(k) {
        if k != CursorOf(env, ev) {
          assert k in st.cursors;
        }
      }
    }
  }

  /** An event whose estate number is wider than the cursor's column can
      never commit: its cursor cannot have been stored, and creating it fails
      the save. */
  lemma OverWideEstateNeverCommits(env: Env, st: State, ev: CloudEvent)
    requires CursorsFit(st)
    requires |env.estateOf(ev.subject)| > Schema.SsnColumnWidth
    ensures !HandleEvent(env, st, ev).outcome.Committed?
    ensures HandleEvent(env, st, ev).state == st
  {
    assert !CursorFits(CursorOf(env, ev));
    assert CursorOf(env, ev) !in st.cursors;
  }

  /** The proxy step keeps a well-formed table well formed. */
  ghost predicate ProxyKeepsWellFormed(env: Env) {
    forall estateSsn, s :: WellFormed(s) && env.proxy(estateSsn, s).Success? ==> WellFormed(env.proxy(estateSsn, s).value)
  }

  /** Handling any event keeps the table well formed, given a proxy step
      that does. */
  lemma HandleEventPreservesWellFormed(env: Env, st: State, ev: CloudEvent)
    requires WellFormed(st.roles)
    requires ProxyKeepsWellFormed(env)
    ensures WellFormed(HandleEvent(env, st, ev).state.roles)
  {
    var r := HandleEvent(env, st, ev);
    if r.outcome.Committed? {
      var estateSsn := env.estateOf(ev.subject);
      var data := ev.data.value;
      if IsFeilfort(data) {
        WipePreservesWellFormed(st.roles, estateSsn);
      } else {
        DiffPreservesWellFormed(env.codes, st.roles, estateSsn, data.heirRoles, ev.time);
      }
    }
  }

  /** A stream of deliveries handled one after the other. */
  function Run(env: Env, st: State, evs: seq<CloudEvent>): State
    decreases |evs|
  {
    if |evs| == 0 then st else Run(env, HandleEvent(env, st, evs[0]).state, evs[1..])
  }

  /** Along any stream no cursor disappears and no watermark moves back. */
  lemma {:induction false} RunWatermarksNeverDecrease(env: Env, st: State, evs: seq<CloudEvent>)
    ensures forall k :: k in st.cursors ==> k in Run(env, st, evs).cursors && st.cursors[k] <= Run(env, st, evs).cursors[k]
    decreases |evs|
  {
    if |evs| > 0 {
      RunWatermarksNeverDecrease(env, HandleEvent(env, st, evs[0]).state, evs[1..]);
    }
  }

  /** Along any stream the table stays well formed, given a proxy step that
      keeps it so. */
  lemma {:induction false} RunPreservesWellFormed(env: Env, st: State, evs: seq<CloudEvent>)
    requires WellFormed(st.roles)
    requires ProxyKeepsWellFormed(env)
    ensures WellFormed(Run(env, st, evs).roles)
    decreases |evs|
  {
    if |evs| > 0 {
      HandleEventPreservesWellFormed(env, st, evs[0]);
      RunPreservesWellFormed(env, HandleEvent(env, st, evs[0]).state, evs[1..]);
    }
  }
}
