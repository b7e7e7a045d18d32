/** The legacy policy information point (Services/PolicyInformationPointService.cs):
    the query is chosen by which of CoveredBy (the recipient) and OfferedBy
    (the estate) are given, and the answer names parties, not rows. The
    repository it calls is not part of this model; its three reads are
    taken to be the exact-match reads of the role table. */
module LegacyPip {
  import opened Wrappers
  import opened Domain
  import opened RoleStore
  import Seqs

  datatype PipRequest = PipRequest(coveredBy: Option<string>, offeredBy: Option<string>)

  datatype PipRoleAssignment = PipRoleAssignment(offeredBy: string, coveredBy: string, roleCode: string)

  datatype PipResponse = PipResponse(roleAssignments: seq<PipRoleAssignment>)

  /** `GetRoleAssignmentsForUser(coveredBy)`: the recipient's rows in every
      estate. */
  function ForUser(s: Store, coveredBy: string): (out: seq<RoleAssignment>)
    ensures forall r :: r in out <==> r in s.rows && r.recipientSsn == coveredBy
  {
    Seqs.Filter((r: RoleAssignment) => r.recipientSsn == coveredBy, s.rows)
  }

  /** A row answers a request that names at least one party when it agrees
      with every party named. */
  predicate Matches(r: RoleAssignment, req: PipRequest) {
    && (req.coveredBy.Some? || req.offeredBy.Some?)
    && (req.coveredBy.Some? ==> r.recipientSsn == req.coveredBy.value)
    && (req.offeredBy.Some? ==> r.estateSsn == req.offeredBy.value)
  }

  /** The rows the request selects. */
  function Selected(s: Store, req: PipRequest): (rows: seq<RoleAssignment>)
    ensures req.coveredBy.None? && req.offeredBy.None? ==> rows == []
    ensures forall r :: r in rows <==> r in s.rows && Matches(r, req)
  {
    if req.coveredBy.Some? && req.offeredBy.Some? then ForPerson(s, req.offeredBy.value, req.coveredBy.value)
    else if req.coveredBy.Some? then ForUser(s, req.coveredBy.value)
    else if req.offeredBy.Some? then ForEstate(s, req.offeredBy.value)
    else []
  }

  function ToPip(r: RoleAssignment): PipRoleAssignment {
    PipRoleAssignment(r.estateSsn, r.recipientSsn, r.roleCode)
  }

  /** `HandlePipRequest`: one answer row per selected row, in order. */
  function HandlePipRequest(s: Store, req: PipRequest): (resp: PipResponse)
    ensures |resp.roleAssignments| == |Selected(s, req)|
    ensures forall i :: 0 <= i < |resp.roleAssignments| ==>
      var r := Selected(s, req)[i];
      resp.roleAssignments[i] == PipRoleAssignment(r.estateSsn, r.recipientSsn, r.roleCode)
  {
    PipResponse(Seqs.Map(ToPip, Selected(s, req)))
  }

  /** Naming the estate as well narrows the recipient's answer to that
      estate, keeping the order. */
  lemma EstateNarrowsRecipientAnswer(s: Store, coveredBy: string, offeredBy: string)
    ensures HandlePipRequest(s, PipRequest(Some(coveredBy), Some(offeredBy))).roleAssignments ==
      Seqs.Filter((p: PipRoleAssignment) => p.offeredBy == offeredBy,
                  HandlePipRequest(s, PipRequest(Some(coveredBy), None)).roleAssignments)
  {
    Seqs.FilterFilter(
      (r: RoleAssignment) => r.recipientSsn == coveredBy,
      (r: RoleAssignment) => r.estateSsn == offeredBy,
      (r: RoleAssignment) => r.estateSsn == offeredBy && r.recipientSsn == coveredBy,
      s.rows);
    Seqs.FilterMap(ToPip, (p: PipRoleAssignment) => p.offeredBy == offeredBy,
                   (r: RoleAssignment) => r.estateSsn == offeredBy, ForUser(s, coveredBy));
  }

  /** Every answer row names the estate, recipient and role of a selected
      row, and every selected row is named. */
  lemma AnswerNamesStoredTriples(s: Store, req: PipRequest, p: PipRoleAssignment)
    ensures p in HandlePipRequest(s, req).roleAssignments <==> exists r :: r in Selected(s, req) && p == ToPip(r)
  {
    var rows := Selected(s, req);
    var out := HandlePipRequest(s, req).roleAssignments;
    if exists r :: r in rows && p == ToPip(r) {
      var r :| r in rows && p == ToPip(r);
      var i :| 0 <= i < |rows| && rows[i] == r;
      assert out[i] == p;
    }
  }
}
