/** The endpoint for external parties (Controllers/ExternalAuthorizationController.cs):
    unless the caller's scope claim grants all roles, only the probate role
    is disclosed. */
module ExternalAuthorization {
  import opened Wrappers
  import opened Domain
  import opened Web
  import Strings
  import Seqs

  datatype Claim = Claim(claimType: string, value: string)

  datatype ExternalAuthorizationRequest = ExternalAuthorizationRequest(estateSsn: Option<string>, recipientSsn: Option<string>)

  /** A row of the PIP answer, as far as this endpoint reads it. */
  datatype QueriedRole = QueriedRole(roleCode: string, created: Instant)

  datatype ExternalRoleAssignment = ExternalRoleAssignment(role: string, created: Instant)

  datatype ExternalAuthorizationResponse = ExternalAuthorizationResponse(
    estateSsn: Option<string>,
    recipientSsn: Option<string>,
    roleAssignments: seq<ExternalRoleAssignment>)

  /** The PIP query this endpoint calls, keyed by From (the estate) and To
      (the recipient). */
  type PipQuery = (Option<string>, Option<string>) -> Result<seq<QueriedRole>, Exception>

  const ScopeClaimType := "scope"

  /** The claim type is "scope", compared ignoring case. */
  predicate IsScopeClaim(c: Claim) {
    Strings.EqualsIgnoreCase(c.claimType, ScopeClaimType)
  }

  /** Claim `k` is the first scope claim. */
  predicate IsFirstScopeClaim(claims: seq<Claim>, k: int) {
    && 0 <= k < |claims|
    && IsScopeClaim(claims[k])
    && forall i :: 0 <= i < k ==> !IsScopeClaim(claims[i])
  }

  /** The index of the first scope claim, if any. */
  function FirstScopeClaim(claims: seq<Claim>): (k: Option<nat>)
    ensures k.None? <==> forall i :: 0 <= i < |claims| ==> !IsScopeClaim(claims[i])
    ensures k.Some? ==> k.value < |claims| && IsScopeClaim(claims[k.value])
    ensures k.Some? ==> forall i :: 0 <= i < k.value ==> !IsScopeClaim(claims[i])
    decreases |claims|
  {
    if |claims| == 0 then None
    else if IsScopeClaim(claims[0]) then Some(0)
    else
      var rest := FirstScopeClaim(claims[1..]);
      assert forall i :: 1 <= i < |claims| ==> claims[i] == claims[1..][i - 1];
      if rest.None? then None else Some(rest.value + 1)
  }

  /** `HasAllRolesScope`: the value of the first scope claim contains the
      all-roles scope; a caller without a scope claim is bad input. */
  function HasAllRolesScope(claims: seq<Claim>, scopeAllRoles: string): (r: Result<bool, Exception>)
    ensures r.Failure? <==> forall i :: 0 <= i < |claims| ==> !IsScopeClaim(claims[i])
    ensures r.Failure? ==> r.error == ArgumentException("Missing scope claim", None)
    ensures r.Success? ==> exists k :: IsFirstScopeClaim(claims, k) && (r.value <==> exists j: nat :: Strings.OccursAt(claims[k].value, scopeAllRoles, j))
  {
    match FirstScopeClaim(claims)
    case None => Failure(ArgumentException("Missing scope claim", None))
    case Some(k) => Success(Strings.Contains(claims[k].value, scopeAllRoles))
  }

  function ToExternal(q: QueriedRole): ExternalRoleAssignment {
    ExternalRoleAssignment(q.roleCode, q.created)
  }

  /** The disclosed rows: the probate rows only, or all of them. */
  function Disclosed(rows: seq<QueriedRole>, probateOnly: bool, probateRoleCode: string): (out: seq<QueriedRole>)
    ensures probateOnly ==> forall i :: 0 <= i < |out| ==> out[i].roleCode == probateRoleCode
    ensures probateOnly ==> forall q :: q in out <==> q in rows && q.roleCode == probateRoleCode
    ensures !probateOnly ==> out == rows
  {
    if probateOnly then Seqs.Filter((q: QueriedRole) => q.roleCode == probateRoleCode, rows) else rows
  }

  /** `HandleRequest`: query, narrow to probate when asked, map. */
  function HandleRequest(query: PipQuery, req: ExternalAuthorizationRequest, probateOnly: bool, probateRoleCode: string)
    : (r: Result<ExternalAuthorizationResponse, Exception>)
    ensures r.Failure? <==> query(req.estateSsn, req.recipientSsn).Failure?
    ensures r.Success? ==> r.value.estateSsn == req.estateSsn && r.value.recipientSsn == req.recipientSsn
    ensures r.Success? ==> |r.value.roleAssignments| == |Disclosed(query(req.estateSsn, req.recipientSsn).value, probateOnly, probateRoleCode)|
    ensures r.Success? && probateOnly ==> forall i :: 0 <= i < |r.value.roleAssignments| ==> r.value.roleAssignments[i].role == probateRoleCode
    ensures r.Success? && !probateOnly ==> |r.value.roleAssignments| == |query(req.estateSsn, req.recipientSsn).value|
  {
    var rows :- query(req.estateSsn, req.recipientSsn);
    var out := Seqs.Map(ToExternal, Disclosed(rows, probateOnly, probateRoleCode));
    Success(ExternalAuthorizationResponse(req.estateSsn, req.recipientSsn, out))
  }

  /** The action `GetRoles`: the scope is read before the query runs, so a
      caller without a scope claim gets a 400 whatever the query would
      answer. */
  function GetRoles(claims: seq<Claim>, scopeAllRoles: string, probateRoleCode: string, query: PipQuery, req: ExternalAuthorizationRequest)
    : (reply: Reply<ExternalAuthorizationResponse>)
    ensures HasAllRolesScope(claims, scopeAllRoles).Failure? ==> reply.Problem? && reply.statusCode == BadRequest
    ensures reply.Ok? <==> HasAllRolesScope(claims, scopeAllRoles).Success? && query(req.estateSsn, req.recipientSsn).Success?
    ensures reply.Thrown? ==> query(req.estateSsn, req.recipientSsn).Failure? && !reply.error.IsArgumentException()
  {
    CatchBadInput(
      var all :- HasAllRolesScope(claims, scopeAllRoles);
      HandleRequest(query, req, !all, probateRoleCode))
  }

  /** Without a scope claim the query is never consulted. */
  lemma ScopeReadBeforeQuery(claims: seq<Claim>, scopeAllRoles: string, probateRoleCode: string,
                             query1: PipQuery, query2: PipQuery, req: ExternalAuthorizationRequest)
    requires forall i :: 0 <= i < |claims| ==> !IsScopeClaim(claims[i])
    ensures GetRoles(claims, scopeAllRoles, probateRoleCode, query1, req) == GetRoles(claims, scopeAllRoles, probateRoleCode, query2, req)
  {
  }

  /** A caller whose first scope claim lacks the all-roles scope sees only
      probate rows, one per probate row of the answer, in order. */
  lemma NarrowScopeSeesProbateOnly(claims: seq<Claim>, scopeAllRoles: string, probateRoleCode: string,
                                   query: PipQuery, req: ExternalAuthorizationRequest)
    requires HasAllRolesScope(claims, scopeAllRoles) == Success(false)
    requires query(req.estateSsn, req.recipientSsn).Success?
    ensures GetRoles(claims, scopeAllRoles, probateRoleCode, query, req).Ok?
    ensures GetRoles(claims, scopeAllRoles, probateRoleCode, query, req).body.roleAssignments ==
      Seqs.Map(ToExternal, Seqs.Filter((q: QueriedRole) => q.roleCode == probateRoleCode, query(req.estateSsn, req.recipientSsn).value))
  {
  }

  /** A caller with the all-roles scope sees every row of the answer, in
      order, with role and creation time copied. */
  lemma FullScopeSeesEverything(claims: seq<Claim>, scopeAllRoles: string, probateRoleCode: string,
                                query: PipQuery, req: ExternalAuthorizationRequest, i: int)
    requires HasAllRolesScope(claims, scopeAllRoles) == Success(true)
    requires query(req.estateSsn, req.recipientSsn).Success?
    requires 0 <= i < |query(req.estateSsn, req.recipientSsn).value|
    ensures GetRoles(claims, scopeAllRoles, probateRoleCode, query, req).Ok?
    ensures var body := GetRoles(claims, scopeAllRoles, probateRoleCode, query, req).body;
      var q := query(req.estateSsn, req.recipientSsn).value[i];
      i < |body.roleAssignments| && body.roleAssignments[i].role == q.roleCode && body.roleAssignments[i].created == q.created
  {
  }
}
