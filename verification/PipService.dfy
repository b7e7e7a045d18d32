/** The policy information point query (src/oed-authz/Services/PipService.cs):
    validate the estate and the optional recipient, read the estate's or the
    recipient's rows, and copy them into the response. */
module PipService {
  import opened Wrappers
  import opened Domain
  import opened RoleStore
  import Ssn
  import Seqs

  datatype PipRequest = PipRequest(estateSsn: Option<string>, recipientSsn: Option<string>)

  datatype PipRoleAssignment = PipRoleAssignment(
    id: nat,
    estateSsn: string,
    roleCode: string,
    created: Instant,
    heirSsn: Option<string>,
    recipientSsn: string)

  datatype PipResponse = PipResponse(estateSsn: string, roleAssignments: seq<PipRoleAssignment>)

  const InvalidEstateSsn := ArgumentException("Invalid EstateSsn", Some("pipRequest"))
  const InvalidRecipientSsn := ArgumentException("Invalid RecipientSsn", Some("pipRequest"))

  /** `char.IsWhiteSpace`: the Unicode space separators, the line and
      paragraph separators and the control characters U+0009 to U+000D,
      U+0085. */
  predicate IsWhiteSpace(c: char) {
    || ('\U{0009}' <= c <= '\U{000D}')
    || c == '\U{0020}' || c == '\U{0085}' || c == '\U{00A0}' || c == '\U{1680}'
    || ('\U{2000}' <= c <= '\U{200A}')
    || c == '\U{2028}' || c == '\U{2029}' || c == '\U{202F}' || c == '\U{205F}' || c == '\U{3000}'
  }

  /** `string.IsNullOrWhiteSpace`. */
  predicate IsNullOrWhiteSpace(s: Option<string>) {
    s.None? || forall i :: 0 <= i < |s.value| ==> IsWhiteSpace(s.value[i])
  }

  /** Blank means missing, empty or made of white space only, including
      the non-breaking and typographic spaces .NET counts as white space. */
  lemma BlankCases()
    ensures IsNullOrWhiteSpace(None) && IsNullOrWhiteSpace(Some(""))
    ensures IsNullOrWhiteSpace(Some(" \t\r\n"))
    ensures IsNullOrWhiteSpace(Some("\U{00A0}\U{2003}\U{3000}"))
    ensures !IsNullOrWhiteSpace(Some(" 1 "))
  {
    assert !IsWhiteSpace(" 1 "[1]);
  }

  /** The request is refused: a missing, blank or malformed estate number,
      or a recipient number that is present and malformed. */
  predicate Refused(req: PipRequest) {
    || IsNullOrWhiteSpace(req.estateSsn)
    || !Ssn.IsValidSsn(req.estateSsn.value)
    || (req.recipientSsn.Some? && !Ssn.IsValidSsn(req.recipientSsn.value))
  }

  /** The blank test adds nothing to the validity test: a valid identity
      number is never blank. */
  lemma BlankTestSubsumed(s: string)
    requires Ssn.IsValidSsn(s)
    ensures !IsNullOrWhiteSpace(Some(s))
  {
    assert !IsWhiteSpace(s[0]);
  }

  /** The response row for a stored row: every column but the
      justification. */
  function Project(r: RoleAssignment): PipRoleAssignment {
    PipRoleAssignment(r.id, r.estateSsn, r.roleCode, r.created, r.heirSsn, r.recipientSsn)
  }

  /** A stored row answers the (validated) request. */
  predicate Answers(r: RoleAssignment, estateSsn: string, recipientSsn: Option<string>) {
    r.estateSsn == estateSsn && (recipientSsn.Some? ==> r.recipientSsn == recipientSsn.value)
  }

  /** The repository read a validated request makes: the recipient's rows
      in the estate when a recipient is given, otherwise all of the
      estate's. */
  function Read(s: Store, estateSsn: string, recipientSsn: Option<string>): seq<RoleAssignment> {
    if recipientSsn.Some? then ForPerson(s, estateSsn, recipientSsn.value) else ForEstate(s, estateSsn)
  }

  /** The rows read for a validated request, each copied into a response
      row: one response row per row read, in the order read. */
  function Answer(s: Store, estateSsn: string, recipientSsn: Option<string>): (out: seq<PipRoleAssignment>)
    ensures |out| == |Read(s, estateSsn, recipientSsn)|
    ensures forall i :: 0 <= i < |out| ==> out[i] == Project(Read(s, estateSsn, recipientSsn)[i])
    ensures forall p :: p in out <==> exists x :: x in s.rows && Answers(x, estateSsn, recipientSsn) && p == Project(x)
  {
    var rows := Read(s, estateSsn, recipientSsn);
    assert forall x :: x in rows <==> x in s.rows && Answers(x, estateSsn, recipientSsn);
    var out := Seqs.Map(Project, rows);
    assert forall p :: p in out ==> exists x :: x in rows && p == Project(x);
    assert forall x :: x in rows ==> Project(x) in out by {
      forall x | x in rows ensures Project(x) in out {
        var i :| 0 <= i < |rows| && rows[i] == x;
        assert out[i] == Project(x);
      }
    }
    out
  }

  /** `HandlePipRequest`. */
  function HandlePipRequest(s: Store, req: PipRequest): (r: Result<PipResponse, Exception>)
    ensures r.Failure? <==> Refused(req)
    ensures IsNullOrWhiteSpace(req.estateSsn) || !Ssn.IsValidSsn(req.estateSsn.value) ==> r == Failure(InvalidEstateSsn)
    ensures !IsNullOrWhiteSpace(req.estateSsn) && Ssn.IsValidSsn(req.estateSsn.value) && Refused(req) ==> r == Failure(InvalidRecipientSsn)
    ensures r.Success? ==> r.value.estateSsn == req.estateSsn.value
    ensures r.Success? ==> |r.value.roleAssignments| == |Read(s, req.estateSsn.value, req.recipientSsn)|
    ensures r.Success? ==> forall p :: p in r.value.roleAssignments <==>
      exists x :: x in s.rows && Answers(x, req.estateSsn.value, req.recipientSsn) && p == Project(x)
  {
    if IsNullOrWhiteSpace(req.estateSsn) || !Ssn.IsValidSsn(req.estateSsn.value) then Failure(InvalidEstateSsn)
    else if req.recipientSsn.Some? && !Ssn.IsValidSsn(req.recipientSsn.value) then Failure(InvalidRecipientSsn)
    else Success(PipResponse(req.estateSsn.value, Answer(s, req.estateSsn.value, req.recipientSsn)))
  }

  /** The answer for a recipient is the answer for the whole estate narrowed
      to that recipient, in the same order. */
  lemma RecipientAnswerNarrowsEstateAnswer(s: Store, estateSsn: string, recipientSsn: string)
    requires Ssn.IsValidSsn(estateSsn) && Ssn.IsValidSsn(recipientSsn)
    ensures HandlePipRequest(s, PipRequest(Some(estateSsn), Some(recipientSsn))).Success?
    ensures HandlePipRequest(s, PipRequest(Some(estateSsn), Some(recipientSsn))).value.roleAssignments ==
      Seqs.Filter((p: PipRoleAssignment) => p.recipientSsn == recipientSsn,
                  HandlePipRequest(s, PipRequest(Some(estateSsn), None)).value.roleAssignments)
  {
    BlankTestSubsumed(estateSsn);
    ForPersonNarrowsForEstate(s, estateSsn, recipientSsn);
    Seqs.FilterMap(Project, (p: PipRoleAssignment) => p.recipientSsn == recipientSsn,
                   (r: RoleAssignment) => r.recipientSsn == recipientSsn, ForEstate(s, estateSsn));
  }

  /** Each response row carries its stored row's values, in table order. */
  lemma ResponseFollowsTable(s: Store, req: PipRequest, i: int)
    requires HandlePipRequest(s, req).Success?
    requires 0 <= i < |HandlePipRequest(s, req).value.roleAssignments|
    ensures |HandlePipRequest(s, req).value.roleAssignments| ==
      |(if req.recipientSsn.Some? then ForPerson(s, req.estateSsn.value, req.recipientSsn.value) else ForEstate(s, req.estateSsn.value))|
    ensures var p := HandlePipRequest(s, req).value.roleAssignments[i];
      var x := (if req.recipientSsn.Some? then ForPerson(s, req.estateSsn.value, req.recipientSsn.value) else ForEstate(s, req.estateSsn.value))[i];
      && p.id == x.id && p.estateSsn == x.estateSsn && p.roleCode == x.roleCode
      && p.created == x.created && p.heirSsn == x.heirSsn && p.recipientSsn == x.recipientSsn
  {
  }
}
