/** The entities shared by the write and read sides: role assignments, the
    configurable role codes and the exceptions the services throw. */
module Domain {
  import opened Wrappers

  /** A point in time. 0 stands for `default(DateTimeOffset)`, which is also
      its minimum value, so no instant lies below it. Every instant is taken
      to be in UTC already, so `ToUniversalTime` is the identity. */
  type Instant = nat

  const DefaultInstant: Instant := 0

  /** One row of the role-assignment table: `roleCode` granted to
      `recipientSsn` over the estate `estateSsn`, optionally on behalf of the
      delegating heir `heirSsn`. `id` is assigned by the store. */
  datatype RoleAssignment = RoleAssignment(
    id: nat,
    roleCode: string,
    estateSsn: string,
    heirSsn: Option<string>,
    recipientSsn: string,
    created: Instant,
    justification: Option<string>)

  /** The business key (estate, recipient, role code, delegating heir). Two
      rows differing only in the delegating heir are distinct grants. */
  datatype RoleKey = RoleKey(estateSsn: string, recipientSsn: string, roleCode: string, heirSsn: Option<string>)

  function KeyOf(r: RoleAssignment): RoleKey {
    RoleKey(r.estateSsn, r.recipientSsn, r.roleCode, r.heirSsn)
  }

  /** The role-code constants. Their values live in configuration that is not
      part of this model, so they are parameters everywhere. */
  datatype RoleCodes = RoleCodes(
    courtPrefix: string,
    probate: string,
    individualProxy: string,
    collectiveProxy: string)

  /** Why the store refused a write (a `DbUpdateException` from the database). */
  datatype StoreError = UniqueViolation | ValueTooLong

  /** The exceptions that leave the services. */
  datatype Exception =
    | ArgumentException(message: string, paramName: Option<string>)
    | ArgumentNullException(nullParam: string)
    | DbUpdateException(reason: StoreError)
    | Unexpected(description: string)
  {
    /** `catch (ArgumentException)` also catches its subclass
        `ArgumentNullException`. */
    predicate IsArgumentException() {
      ArgumentException? || ArgumentNullException?
    }

    /** `ex.GetType().Name`. */
    function TypeName(): string {
      match this
      case ArgumentException(_, _) => "ArgumentException"
      case ArgumentNullException(_) => "ArgumentNullException"
      case DbUpdateException(_) => "DbUpdateException"
      case Unexpected(_) => "Exception"
    }

    /** `ex.Message`: an argument exception names its parameter in a
        trailing "(Parameter '...')"; a null argument gets the runtime's
        fixed text. */
    function Message(): (m: string)
      ensures this.ArgumentException? ==> |this.message| <= |m| && m[..|this.message|] == this.message
      ensures this.ArgumentException? && this.paramName.None? ==> m == this.message
      ensures this.ArgumentException? && this.paramName.Some? ==>
        var tail := " (Parameter '" + this.paramName.value + "')";
        |m| == |this.message| + |tail| && m[|this.message|..] == tail
      ensures this.ArgumentNullException? ==>
        var tail := "(Parameter '" + this.nullParam + "')";
        |tail| <= |m| && m[|m| - |tail|..] == tail
    {
      match this
      case ArgumentException(m, None) => m
      case ArgumentException(m, Some(p)) => m + " (Parameter '" + p + "')"
      case ArgumentNullException(p) => "Value cannot be null. (Parameter '" + p + "')"
      case DbUpdateException(UniqueViolation) => "duplicate key value violates unique constraint"
      case DbUpdateException(ValueTooLong) => "value too long for type"
      case Unexpected(d) => d
    }
  }
}
