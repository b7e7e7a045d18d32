/** The role-assignment repository (Repositories/RoleAssignmentsRepository.cs)
    as operations on an immutable table: exact-match reads, insert and
    exact-match delete. */
module RoleStore {
  import opened Wrappers
  import opened Domain
  import opened Schema
  import Seqs

  /** The table and the next identity value the database hands out. */
  datatype Store = Store(rows: seq<RoleAssignment>, nextId: nat)

  /** What the table constraints guarantee about every reachable table:
      values fit their columns, the business key is unique (the two unique
      indexes together, by `Schema.IndexesMeanUniqueKeys`), the primary key
      is unique and the identity sequence is ahead of every stored id. */
  predicate WellFormed(s: Store) {
    && (forall i :: 0 <= i < |s.rows| ==> FitsColumns(s.rows[i]))
    && (forall i :: 0 <= i < |s.rows| ==> s.rows[i].id < s.nextId)
    && Distinct(s.rows)
  }

  /** Business key and primary key are pairwise distinct. */
  predicate Distinct(rows: seq<RoleAssignment>) {
    forall i, j :: 0 <= i < j < |rows| ==> DistinctRows(rows[i], rows[j])
  }

  predicate DistinctRows(a: RoleAssignment, b: RoleAssignment) {
    KeyOf(a) != KeyOf(b) && a.id != b.id
  }

  /** A well-formed table satisfies both unique indexes and the primary key. */
  lemma WellFormedMeetsConstraints(s: Store)
    requires WellFormed(s)
    ensures IndexOneHolds(s.rows) && IndexTwoHolds(s.rows) && IdsUnique(s.rows)
  {
    IndexesMeanUniqueKeys(s.rows);
  }

  const Empty := Store([], 1)

  predicate KeyTaken(rows: seq<RoleAssignment>, k: RoleKey) {
    exists i :: 0 <= i < |rows| && KeyOf(rows[i]) == k
  }

  /** `GetRoleAssignmentsForEstate`: the rows of one estate, in table order. */
  function ForEstate(s: Store, estateSsn: string): (out: seq<RoleAssignment>)
    ensures forall r :: r in out <==> r in s.rows && r.estateSsn == estateSsn
  {
    Seqs.Filter((r: RoleAssignment) => r.estateSsn == estateSsn, s.rows)
  }

  /** `GetRoleAssignmentsForPerson`: the rows of one recipient within one
      estate, in table order. */
  function ForPerson(s: Store, estateSsn: string, recipientSsn: string): (out: seq<RoleAssignment>)
    ensures forall r :: r in out <==> r in s.rows && r.estateSsn == estateSsn && r.recipientSsn == recipientSsn
  {
    Seqs.Filter((r: RoleAssignment) => r.estateSsn == estateSsn && r.recipientSsn == recipientSsn, s.rows)
  }

  /** The person query is the estate query narrowed to the recipient, with
      the relative order kept. */
  lemma ForPersonNarrowsForEstate(s: Store, estateSsn: string, recipientSsn: string)
    ensures ForPerson(s, estateSsn, recipientSsn) ==
            Seqs.Filter((r: RoleAssignment) => r.recipientSsn == recipientSsn, ForEstate(s, estateSsn))
  {
    Seqs.FilterFilter(
      (r: RoleAssignment) => r.estateSsn == estateSsn,
      (r: RoleAssignment) => r.recipientSsn == recipientSsn,
      (r: RoleAssignment) => r.estateSsn == estateSsn && r.recipientSsn == recipientSsn,
      s.rows);
  }

  /** `AddRoleAssignment`: the database assigns the next identity value and
      refuses a value wider than its column or a second row with the same
      business key. */
  function Insert(s: Store, r: RoleAssignment): (res: Result<Store, Exception>)
    ensures res.Failure? <==> !FitsColumns(r) || KeyTaken(s.rows, KeyOf(r))
    ensures res.Failure? ==> res.error.DbUpdateException?
    ensures res.Success? ==> res.value.rows == s.rows + [r.(id := s.nextId)]
    ensures res.Success? ==> res.value.nextId > s.nextId
  {
    if !FitsColumns(r) then Failure(DbUpdateException(ValueTooLong))
    else if KeyTaken(s.rows, KeyOf(r)) then Failure(DbUpdateException(UniqueViolation))
    else Success(Store(s.rows + [r.(id := s.nextId)], s.nextId + 1))
  }

  /** A successful insert keeps every table constraint. */
  lemma InsertPreservesWellFormed(s: Store, r: RoleAssignment)
    requires WellFormed(s)
    requires Insert(s, r).Success?
    ensures WellFormed(Insert(s, r).value)
  {
    var rows' := Insert(s, r).value.rows;
    forall i, j | 0 <= i < j < |rows'| ensures DistinctRows(rows'[i], rows'[j]) {
      if j == |s.rows| {
        assert KeyOf(rows'[i]) != KeyOf(r);
      }
    }
  }

  /** `RemoveRoleAssignment` by business key: deletes every row agreeing on
      estate, recipient, role code and heir (an absent heir matches only an
      absent heir). */
  function Remove(s: Store, k: RoleKey): (out: Store)
    ensures out.nextId == s.nextId
    ensures forall r :: r in out.rows <==> r in s.rows && KeyOf(r) != k
  {
    Store(Seqs.Filter((r: RoleAssignment) => KeyOf(r) != k, s.rows), s.nextId)
  }

  /** `RemoveRoleAssignment` as called: only the four key fields of the
      argument matter, never its id, creation time or justification. */
  function RemoveMatching(s: Store, pattern: RoleAssignment): (out: Store)
    ensures forall r :: r in out.rows <==> r in s.rows && KeyOf(r) != KeyOf(pattern)
  {
    Remove(s, KeyOf(pattern))
  }

  /** Two patterns agreeing on the key fields delete the same rows. */
  lemma RemoveIgnoresIdAndCreated(s: Store, p: RoleAssignment, q: RoleAssignment)
    requires p.estateSsn == q.estateSsn && p.recipientSsn == q.recipientSsn
    requires p.roleCode == q.roleCode && p.heirSsn == q.heirSsn
    ensures RemoveMatching(s, p) == RemoveMatching(s, q)
  {
  }

  /** Removing a key no row carries changes nothing. */
  lemma RemoveAbsentIsNoop(s: Store, k: RoleKey)
    requires !KeyTaken(s.rows, k)
    ensures Remove(s, k) == s
  {
    Seqs.FilterKeepsAll((r: RoleAssignment) => KeyOf(r) != k, s.rows);
  }

  /** Removing twice is removing once. */
  lemma RemoveIdempotent(s: Store, k: RoleKey)
    ensures Remove(Remove(s, k), k) == Remove(s, k)
  {
    var once := Remove(s, k);
    assert !KeyTaken(once.rows, k);
    RemoveAbsentIsNoop(once, k);
  }

  /** A null-heir delete never touches an individually delegated row. */
  lemma NullHeirRemoveSparesDelegations(s: Store, estateSsn: string, recipientSsn: string, roleCode: string, r: RoleAssignment)
    requires r in s.rows && r.heirSsn.Some?
    ensures r in Remove(s, RoleKey(estateSsn, recipientSsn, roleCode, None)).rows
  {
  }

  /** Deleting rows keeps every table constraint. */
  lemma {:induction false} RemovePreservesWellFormed(s: Store, k: RoleKey)
    requires WellFormed(s)
    ensures WellFormed(Remove(s, k))
  {
    SubsequencePreservesWellFormed(s, (r: RoleAssignment) => KeyOf(r) != k);
  }

  lemma SubsequencePreservesWellFormed(s: Store, keep: RoleAssignment -> bool)
    requires WellFormed(s)
    ensures WellFormed(Store(Seqs.Filter(keep, s.rows), s.nextId))
  {
    assert Seqs.Pairwise(DistinctRows, s.rows);
    Seqs.FilterKeepsPairwise(keep, DistinctRows, s.rows);
  }

  /** The rows a batch of inserts adds: identity values are handed out in
      order, starting at `from`. */
  function Stamp(rows: seq<RoleAssignment>, from: nat): (out: seq<RoleAssignment>)
    ensures |out| == |rows|
    ensures forall i :: 0 <= i < |rows| ==> out[i] == rows[i].(id := from + i)
  {
    seq(|rows|, i requires 0 <= i < |rows| => rows[i].(id := from + i))
  }

  /** A batch of writes: the table after the writes that ran, and the
      exception of the first write that failed, if any. */
  datatype Applied = Applied(store: Store, failure: Option<Exception>)

  /** `foreach ... AddRoleAssignment(...)`: the inserts run in order and stop
      at the first one the store refuses. */
  function InsertAll(s: Store, rows: seq<RoleAssignment>): (a: Applied)
    ensures a.failure.None? ==> a.store == Store(s.rows + Stamp(rows, s.nextId), s.nextId + |rows|)
    ensures a.failure.Some? ==> a.failure.value.DbUpdateException?
    decreases |rows|
  {
    if |rows| == 0 then Applied(s, None)
    else
      match Insert(s, rows[0])
      case Failure(e) => Applied(s, Some(e))
      case Success(s1) =>
        StampStep(s, rows, s1);
        InsertAll(s1, rows[1..])
  }

  /** The table `k` successful inserts of a batch leave behind. */
  function AfterInserts(s: Store, rows: seq<RoleAssignment>, k: nat): Store
    requires k <= |rows|
  {
    Store(s.rows + Stamp(rows[..k], s.nextId), s.nextId + k)
  }

  /** A batch that stops early has still written the rows before the one
      refused: nothing undoes them without an enclosing transaction. */
  lemma {:induction false} InsertAllWritesPrefix(s: Store, rows: seq<RoleAssignment>)
    ensures exists k :: 0 <= k <= |rows| && InsertAll(s, rows).store == AfterInserts(s, rows, k)
    decreases |rows|
  {
    if |rows| == 0 {
      assert InsertAll(s, rows).store == AfterInserts(s, rows, 0);
    } else {
      var r := Insert(s, rows[0]);
      if r.Failure? {
        assert InsertAll(s, rows).store == AfterInserts(s, rows, 0);
      } else {
        var s1 := r.value;
        assert InsertAll(s, rows) == InsertAll(s1, rows[1..]);
        InsertAllWritesPrefix(s1, rows[1..]);
        var k :| 0 <= k <= |rows[1..]| && InsertAll(s1, rows[1..]).store == AfterInserts(s1, rows[1..], k);
        StampPrefixStep(s, rows, k);
      }
    }
  }

  lemma StampPrefixStep(s: Store, rows: seq<RoleAssignment>, k: nat)
    requires k < |rows|
    requires Insert(s, rows[0]).Success?
    ensures AfterInserts(Insert(s, rows[0]).value, rows[1..], k) == AfterInserts(s, rows, k + 1)
  {
    var n := s.nextId;
    var s1 := Insert(s, rows[0]).value;
    assert s1 == Store(s.rows + [rows[0].(id := n)], n + 1);
    var lhs := s1.rows + Stamp(rows[1..][..k], n + 1);
    var rhs := s.rows + Stamp(rows[..k + 1], n);
    assert |lhs| == |rhs| == |s.rows| + k + 1;
    forall i | 0 <= i < |lhs| ensures lhs[i] == rhs[i] {
      if i == |s.rows| {
        assert lhs[i] == rows[0].(id := n);
        assert rhs[i] == rows[..k + 1][0].(id := n);
      } else if i > |s.rows| {
        var j := i - |s.rows| - 1;
        assert lhs[i] == rows[1..][..k][j].(id := n + 1 + j);
        assert rhs[i] == rows[..k + 1][j + 1].(id := n + j + 1);
        assert rows[1..][..k][j] == rows[j + 1] == rows[..k + 1][j + 1];
      }
    }
    assert lhs == rhs;
  }

  /** The store after the first insert, followed by the rest stamped from
      there, is the whole batch stamped from the start. */
  lemma StampStep(s: Store, rows: seq<RoleAssignment>, s1: Store)
    requires |rows| > 0
    requires s1 == Store(s.rows + [rows[0].(id := s.nextId)], s.nextId + 1)
    ensures Store(s1.rows + Stamp(rows[1..], s1.nextId), s1.nextId + |rows[1..]|) ==
            Store(s.rows + Stamp(rows, s.nextId), s.nextId + |rows|)
  {
    var lhs := s1.rows + Stamp(rows[1..], s1.nextId);
    var rhs := s.rows + Stamp(rows, s.nextId);
    assert |lhs| == |rhs|;
    forall i | 0 <= i < |lhs| ensures lhs[i] == rhs[i] {
      if i > |s.rows| {
        assert lhs[i] == rows[1..][i - |s.rows| - 1].(id := s.nextId + 1 + (i - |s.rows| - 1));
      }
    }
    assert lhs == rhs;
  }

  lemma StampCons(rows: seq<RoleAssignment>, from: nat)
    requires |rows| > 0
    ensures Stamp(rows, from) == [rows[0].(id := from)] + Stamp(rows[1..], from + 1)
  {
  }

  /** Inserts whose rows fit their columns and whose keys are pairwise
      distinct and not yet taken all succeed. */
  lemma {:induction false} InsertAllSucceeds(s: Store, rows: seq<RoleAssignment>)
    requires forall i :: 0 <= i < |rows| ==> FitsColumns(rows[i]) && !KeyTaken(s.rows, KeyOf(rows[i]))
    requires forall i, j :: 0 <= i < j < |rows| ==> KeyOf(rows[i]) != KeyOf(rows[j])
    ensures InsertAll(s, rows).failure.None?
    decreases |rows|
  {
    if |rows| > 0 {
      var s1 := Insert(s, rows[0]).value;
      forall i | 0 <= i < |rows[1..]| ensures !KeyTaken(s1.rows, KeyOf(rows[1..][i])) {
        var k := KeyOf(rows[1..][i]);
        assert rows[1..][i] == rows[i + 1];
        forall m | 0 <= m < |s1.rows| ensures KeyOf(s1.rows[m]) != k {
          if m < |s.rows| {
            assert s1.rows[m] == s.rows[m];
          }
        }
      }
      InsertAllSucceeds(s1, rows[1..]);
    }
  }

  /** Successful batch inserts keep every table constraint. */
  lemma {:induction false} InsertAllPreservesWellFormed(s: Store, rows: seq<RoleAssignment>)
    requires WellFormed(s)
    ensures WellFormed(InsertAll(s, rows).store)
    decreases |rows|
  {
    if |rows| > 0 {
      match Insert(s, rows[0])
      case Failure(_) =>
      case Success(s1) =>
        InsertPreservesWellFormed(s, rows[0]);
        InsertAllPreservesWellFormed(s1, rows[1..]);
    }
  }

  /** `foreach ... RemoveRoleAssignment(...)`: deletes by each key in turn. */
  function RemoveAll(s: Store, keys: seq<RoleKey>): (out: Store)
    ensures out.nextId == s.nextId
    ensures forall r :: r in out.rows <==> r in s.rows && KeyOf(r) !in keys
    decreases |keys|
  {
    if |keys| == 0 then s
    else
      var out := RemoveAll(Remove(s, keys[0]), keys[1..]);
      assert forall k :: k in keys <==> k == keys[0] || k in keys[1..];
      out
  }

  lemma {:induction false} RemoveAllPreservesWellFormed(s: Store, keys: seq<RoleKey>)
    requires WellFormed(s)
    ensures WellFormed(RemoveAll(s, keys))
    decreases |keys|
  {
    if |keys| > 0 {
      RemovePreservesWellFormed(s, keys[0]);
      RemoveAllPreservesWellFormed(Remove(s, keys[0]), keys[1..]);
    }
  }
}
