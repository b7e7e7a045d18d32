/** The internal PIP endpoint (Controllers/PipController.cs): it maps the
    request onto the query, drops the individual-proxy rows, which involve
    a third party, and turns bad input into a 400. */
module PipController {
  import opened Wrappers
  import opened Domain
  import opened RoleStore
  import opened Web
  import PipService
  import Seqs

  datatype PipRequestDto = PipRequestDto(from: Option<string>, to: Option<string>)

  datatype PipRoleAssignmentDto = PipRoleAssignmentDto(from: string, to: string, role: string, created: Instant)

  datatype PipResponseDto = PipResponseDto(roleAssignments: seq<PipRoleAssignmentDto>)

  /** The request the controller builds: From is the estate, To the
      recipient. */
  function ToPipRequest(dto: PipRequestDto): PipService.PipRequest {
    PipService.PipRequest(dto.from, dto.to)
  }

  function ToDto(p: PipService.PipRoleAssignment): PipRoleAssignmentDto {
    PipRoleAssignmentDto(p.estateSsn, p.recipientSsn, p.roleCode, p.created)
  }

  /** `RemoveIndividualProxyRole`: every row but the individual-proxy ones,
      in their order. */
  function RemoveIndividualProxyRole(codes: RoleCodes, rows: seq<PipService.PipRoleAssignment>): (kept: seq<PipService.PipRoleAssignment>)
    ensures forall i :: 0 <= i < |kept| ==> kept[i].roleCode != codes.individualProxy
    ensures forall p :: p in kept <==> p in rows && p.roleCode != codes.individualProxy
  {
    Seqs.Filter((p: PipService.PipRoleAssignment) => p.roleCode != codes.individualProxy, rows)
  }

  /** Without individual-proxy rows the filter keeps the list as it is. */
  lemma RemoveKeepsOtherRoles(codes: RoleCodes, rows: seq<PipService.PipRoleAssignment>)
    requires forall i :: 0 <= i < |rows| ==> rows[i].roleCode != codes.individualProxy
    ensures RemoveIndividualProxyRole(codes, rows) == rows
  {
    Seqs.FilterKeepsAll((p: PipService.PipRoleAssignment) => p.roleCode != codes.individualProxy, rows);
  }

  /** The filter works row by row: filtering a concatenation filters each
      part and keeps them in order. */
  lemma RemoveDistributes(codes: RoleCodes, a: seq<PipService.PipRoleAssignment>, b: seq<PipService.PipRoleAssignment>)
    ensures RemoveIndividualProxyRole(codes, a + b) == RemoveIndividualProxyRole(codes, a) + RemoveIndividualProxyRole(codes, b)
  {
    Seqs.FilterConcat((p: PipService.PipRoleAssignment) => p.roleCode != codes.individualProxy, a, b);
  }

  /** On a single row the filter drops it exactly when it carries the
      individual-proxy role. */
  lemma RemoveSingleRow(codes: RoleCodes, p: PipService.PipRoleAssignment)
    ensures RemoveIndividualProxyRole(codes, [p]) == if p.roleCode == codes.individualProxy then [] else [p]
  {
    assert [p][1..] == [];
  }

  /** The response rows for the service's rows. */
  function ToDtos(rows: seq<PipService.PipRoleAssignment>): (out: seq<PipRoleAssignmentDto>)
    ensures |out| == |rows|
    ensures forall i :: 0 <= i < |rows| ==> out[i] == ToDto(rows[i])
    ensures forall d :: d in out <==> exists p :: p in rows && d == ToDto(p)
  {
    var out := Seqs.Map(ToDto, rows);
    assert forall p :: p in rows ==> ToDto(p) in out by {
      forall p | p in rows ensures ToDto(p) in out {
        var i :| 0 <= i < |rows| && rows[i] == p;
        assert out[i] == ToDto(p);
      }
    }
    out
  }

  /** `HandleRequest`: query, filter, map. */
  function HandleRequest(codes: RoleCodes, s: Store, dto: PipRequestDto): (r: Result<PipResponseDto, Exception>)
    ensures r.Failure? <==> PipService.Refused(ToPipRequest(dto))
    ensures r.Failure? ==> r == Failure(PipService.HandlePipRequest(s, ToPipRequest(dto)).error)
    ensures r.Success? ==> var kept := RemoveIndividualProxyRole(codes, PipService.HandlePipRequest(s, ToPipRequest(dto)).value.roleAssignments);
      && |r.value.roleAssignments| == |kept|
      && forall i :: 0 <= i < |kept| ==> r.value.roleAssignments[i] == ToDto(kept[i])
    ensures r.Success? ==> forall d :: d in r.value.roleAssignments <==>
      exists p :: p in PipService.HandlePipRequest(s, ToPipRequest(dto)).value.roleAssignments && p.roleCode != codes.individualProxy && d == ToDto(p)
  {
    var response :- PipService.HandlePipRequest(s, ToPipRequest(dto));
    Success(PipResponseDto(ToDtos(RemoveIndividualProxyRole(codes, response.roleAssignments))))
  }

  /** Every response row stands for a stored row of the requested estate
      (and recipient, when given) whose role is not the individual proxy,
      and every such stored row is answered. */
  lemma ResponseMatchesTable(codes: RoleCodes, s: Store, dto: PipRequestDto, d: PipRoleAssignmentDto)
    requires HandleRequest(codes, s, dto).Success?
    ensures d in HandleRequest(codes, s, dto).value.roleAssignments <==>
      exists x :: x in s.rows && PipService.Answers(x, dto.from.value, dto.to) && x.roleCode != codes.individualProxy && d == ToDto(PipService.Project(x))
  {
    var rows := PipService.HandlePipRequest(s, ToPipRequest(dto)).value.roleAssignments;
    if d in HandleRequest(codes, s, dto).value.roleAssignments {
      var p :| p in rows && p.roleCode != codes.individualProxy && d == ToDto(p);
      var x :| x in s.rows && PipService.Answers(x, dto.from.value, dto.to) && p == PipService.Project(x);
    }
    if exists x :: x in s.rows && PipService.Answers(x, dto.from.value, dto.to) && x.roleCode != codes.individualProxy && d == ToDto(PipService.Project(x)) {
      var x :| x in s.rows && PipService.Answers(x, dto.from.value, dto.to) && x.roleCode != codes.individualProxy && d == ToDto(PipService.Project(x));
      assert PipService.Project(x) in rows;
    }
  }

  /** The action `HandlePipRequest`. */
  function HandlePipRequest(codes: RoleCodes, s: Store, dto: PipRequestDto): (reply: Reply<PipResponseDto>)
    ensures reply.Ok? <==> !PipService.Refused(ToPipRequest(dto))
    ensures !reply.Ok? ==> reply.Problem? && reply.statusCode == BadRequest && reply.title == "Bad Input"
  {
    CatchBadInput(HandleRequest(codes, s, dto))
  }

  /** A malformed From gets the estate message in the problem detail. */
  lemma InvalidFromDetail(codes: RoleCodes, s: Store, dto: PipRequestDto)
    requires dto.from.None?
    ensures HandlePipRequest(codes, s, dto) ==
      Problem("Bad Input", "ArgumentException: " + "Invalid EstateSsn" + " (Parameter '" + "pipRequest" + "')", BadRequest)
  {
    assert PipService.HandlePipRequest(s, ToPipRequest(dto)) == Failure(PipService.InvalidEstateSsn);
    assert HandleRequest(codes, s, dto) == Failure(PipService.InvalidEstateSsn);
  }

  /** No response row carries the individual-proxy role. */
  lemma NoIndividualProxyRows(codes: RoleCodes, s: Store, dto: PipRequestDto, i: int)
    requires HandlePipRequest(codes, s, dto).Ok?
    requires 0 <= i < |HandlePipRequest(codes, s, dto).body.roleAssignments|
    ensures HandlePipRequest(codes, s, dto).body.roleAssignments[i].role != codes.individualProxy
  {
    var rows := HandlePipRequest(codes, s, dto).body.roleAssignments;
    assert rows[i] in rows;
  }
}
