/** The table constraints of the role-assignment entity
    (RoleAssignmentConfiguration.cs): column widths and the two unique
    indexes. */
module Schema {
  import opened Wrappers
  import opened Domain

  /** `estateSsn`, `recipientSsn` and `heirSsn` are `character(11)`. */
  const SsnColumnWidth: nat := 11
  const RoleCodeMaxLength: nat := 60
  const JustificationMaxLength: nat := 255

  /** No value exceeds its column. The justification is optional. */
  predicate FitsColumns(r: RoleAssignment) {
    && |r.estateSsn| <= SsnColumnWidth
    && |r.recipientSsn| <= SsnColumnWidth
    && (r.heirSsn.Some? ==> |r.heirSsn.value| <= SsnColumnWidth)
    && |r.roleCode| <= RoleCodeMaxLength
    && (r.justification.Some? ==> |r.justification.value| <= JustificationMaxLength)
  }

  /** `constraint_roleassignment` on (estate, recipient, role code, heir) as
      SQL reads it: NULLs are distinct, so two rows without a delegating heir
      never clash on this index. */
  predicate IndexOneHolds(rows: seq<RoleAssignment>) {
    forall i, j :: 0 <= i < j < |rows| && rows[i].heirSsn.Some? && rows[j].heirSsn.Some? ==>
      KeyOf(rows[i]) != KeyOf(rows[j])
  }

  /** `idx_unique_collective_roleassignments`: among the rows without a
      delegating heir, (estate, recipient, role code) is unique. */
  predicate IndexTwoHolds(rows: seq<RoleAssignment>) {
    forall i, j :: 0 <= i < j < |rows| && rows[i].heirSsn.None? && rows[j].heirSsn.None? ==>
      (rows[i].estateSsn, rows[i].recipientSsn, rows[i].roleCode) !=
      (rows[j].estateSsn, rows[j].recipientSsn, rows[j].roleCode)
  }

  /** The business key is unique, comparing an absent heir equal to an absent
      heir. */
  predicate KeysUnique(rows: seq<RoleAssignment>) {
    forall i, j :: 0 <= i < j < |rows| ==> KeyOf(rows[i]) != KeyOf(rows[j])
  }

  /** `roleassignments_pkey`. */
  predicate IdsUnique(rows: seq<RoleAssignment>) {
    forall i, j :: 0 <= i < j < |rows| ==> rows[i].id != rows[j].id
  }

  /** The two indexes together say exactly that the business key is unique:
      the filtered index closes the gap SQL's NULL semantics leave in the
      first one. */
  lemma IndexesMeanUniqueKeys(rows: seq<RoleAssignment>)
    ensures IndexOneHolds(rows) && IndexTwoHolds(rows) <==> KeysUnique(rows)
  {
    if IndexOneHolds(rows) && IndexTwoHolds(rows) {
      forall i, j | 0 <= i < j < |rows| ensures KeyOf(rows[i]) != KeyOf(rows[j]) {
        if rows[i].heirSsn.None? && rows[j].heirSsn.None? {
          assert (rows[i].estateSsn, rows[i].recipientSsn, rows[i].roleCode) !=
                 (rows[j].estateSsn, rows[j].recipientSsn, rows[j].roleCode);
        }
      }
    }
  }

  /** The first index alone does not protect rows without a delegating heir:
      two identical collective grants satisfy it. */
  lemma IndexOneAloneAdmitsDuplicates(r: RoleAssignment)
    requires r.heirSsn.None?
    ensures IndexOneHolds([r, r.(id := r.id + 1)])
    ensures !KeysUnique([r, r.(id := r.id + 1)])
  {
    var rows := [r, r.(id := r.id + 1)];
    assert KeyOf(rows[0]) == KeyOf(rows[1]);
  }
}
