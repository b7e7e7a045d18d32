/** The pieces of role reconciliation that the current and the legacy event
    handler share: which stored rows are court-assigned, when an heir entry
    is acceptable, what a new or a stale court role looks like, and the wipe
    of a wrongly filed estate. */
module CourtRoles {
  import opened Wrappers
  import opened Domain
  import opened Events
  import opened RoleStore
  import Strings
  import Ssn
  import Seqs

  /** A row is in scope of the diff for `estateSsn` when it belongs to the
      estate and its role code carries the court namespace prefix. */
  predicate InScope(r: RoleAssignment, estateSsn: string, prefix: string) {
    r.estateSsn == estateSsn && Strings.StartsWith(r.roleCode, prefix)
  }

  /** The current court-assigned roles of the estate: the estate's rows
      narrowed to the court prefix, in table order. */
  function CurrentCourtRoles(s: Store, estateSsn: string, prefix: string): (current: seq<RoleAssignment>)
    ensures forall r :: r in current <==> r in s.rows && InScope(r, estateSsn, prefix)
  {
    Seqs.Filter((r: RoleAssignment) => Strings.StartsWith(r.roleCode, prefix), ForEstate(s, estateSsn))
  }

  /** Some current row grants `role` to `nin`. */
  predicate Held(current: seq<RoleAssignment>, nin: string, role: string) {
    exists c :: c in current && c.recipientSsn == nin && c.roleCode == role
  }

  /** The heir list names the pair (`recipientSsn`, `roleCode`). */
  predicate Listed(heirs: seq<HeirRole>, recipientSsn: string, roleCode: string) {
    exists h :: h in heirs && h.nin == recipientSsn && h.role == roleCode
  }

  /** The exception an heir entry raises, if any: the identity number is
      checked before the role namespace. */
  function EntryError(h: HeirRole, prefix: string): (e: Option<Exception>)
    ensures e.None? <==> Ssn.IsValidSsn(h.nin) && Strings.StartsWith(h.role, prefix)
    ensures e.Some? ==> e.value.ArgumentException?
  {
    if !Ssn.IsValidSsn(h.nin) then Some(ArgumentException("Nin", None))
    else if !Strings.StartsWith(h.role, prefix) then Some(ArgumentException("Rolecode must start with " + prefix, None))
    else None
  }

  /** Entry `i` is the first one of the list that raises. */
  predicate FirstInvalid(heirs: seq<HeirRole>, prefix: string, i: int) {
    && 0 <= i < |heirs|
    && EntryError(heirs[i], prefix).Some?
    && forall j :: 0 <= j < i ==> EntryError(heirs[j], prefix).None?
  }

  /** Some entry of the list raises. */
  predicate HasInvalidEntry(heirs: seq<HeirRole>, prefix: string) {
    exists i :: 0 <= i < |heirs| && EntryError(heirs[i], prefix).Some?
  }

  /** The row added for an heir entry: a court grant without a delegating
      heir, created at the event time. */
  function NewCourtRole(estateSsn: string, h: HeirRole, time: Instant): RoleAssignment {
    RoleAssignment(0, h.role, estateSsn, None, h.nin, time, None)
  }

  /** The delete issued for a stale current row: its estate, recipient and
      role code, and no delegating heir. */
  function RemovalKey(estateSsn: string, c: RoleAssignment): RoleKey {
    RoleKey(estateSsn, c.recipientSsn, c.roleCode, None)
  }

  /** The deletes for the current rows whose pair the heir list no longer
      names, in table order. */
  function RemovalKeys(current: seq<RoleAssignment>, heirs: seq<HeirRole>, estateSsn: string): (keys: seq<RoleKey>)
    ensures forall k :: k in keys <==> exists c :: c in current && !Listed(heirs, c.recipientSsn, c.roleCode) && k == RemovalKey(estateSsn, c)
  {
    var stale := Seqs.Filter((c: RoleAssignment) => !Listed(heirs, c.recipientSsn, c.roleCode), current);
    var keys := Seqs.Map((c: RoleAssignment) => RemovalKey(estateSsn, c), stale);
    assert forall k :: k in keys ==> exists i :: 0 <= i < |stale| && k == RemovalKey(estateSsn, stale[i]);
    assert forall c :: c in stale ==> RemovalKey(estateSsn, c) in keys by {
      forall c | c in stale ensures RemovalKey(estateSsn, c) in keys {
        var i :| 0 <= i < |stale| && stale[i] == c;
        assert keys[i] == RemovalKey(estateSsn, c);
      }
    }
    keys
  }

  /** The heir list names no (identity number, role) pair twice. */
  predicate NoDuplicatePairs(heirs: seq<HeirRole>) {
    forall i, j :: 0 <= i < j < |heirs| ==> (heirs[i].nin, heirs[i].role) != (heirs[j].nin, heirs[j].role)
  }

  /** `RemoveAllRoleAssignmentsForEstate`: one delete per row of the estate,
      which together remove every row of the estate, whatever its role code
      or heir, and nothing else. */
  function RemoveAllRoleAssignmentsForEstate(s: Store, estateSsn: string): (out: Store)
    ensures out.nextId == s.nextId
    ensures forall r :: r in out.rows <==> r in s.rows && r.estateSsn != estateSsn
  {
    var keys := Seqs.Map(KeyOf, ForEstate(s, estateSsn));
    assert forall r :: r in s.rows && r.estateSsn == estateSsn ==> KeyOf(r) in keys by {
      forall r | r in s.rows && r.estateSsn == estateSsn ensures KeyOf(r) in keys {
        var est := ForEstate(s, estateSsn);
        var i :| 0 <= i < |est| && est[i] == r;
        assert keys[i] == KeyOf(r);
      }
    }
    assert forall k :: k in keys ==> k.estateSsn == estateSsn;
    RemoveAll(s, keys)
  }

  /** The wipe keeps the table well formed. */
  lemma WipePreservesWellFormed(s: Store, estateSsn: string)
    requires WellFormed(s)
    ensures WellFormed(RemoveAllRoleAssignmentsForEstate(s, estateSsn))
  {
    RemoveAllPreservesWellFormed(s, Seqs.Map(KeyOf, ForEstate(s, estateSsn)));
  }
}
