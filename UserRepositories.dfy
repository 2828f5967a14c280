/** The user table and the queries declared on it (repositories/UserRepository.java), with the
    store's @NotNull constraints from models/User.java. */
module UserRepositories {
  import opened Wrappers
  import opened Errors
  import opened Dates
  import opened LikePatterns
  import opened Users
  import opened Filters

  // ---------------------------------------------------------------------------------------------
  // The hand-written @Query and the derived finder, over the table as a sequence of rows.

  /** `:startDate IS NULL OR :endDate IS NULL OR u.birthdate BETWEEN :startDate AND :endDate`,
      both bounds included. A null birthdate is never between. */
  predicate BirthdateMatch(u: UserRecord, startDate: Option<Date>, endDate: Option<Date>) {
    || startDate.None?
    || endDate.None?
    || (u.birthdate.Some? && NotAfter(startDate.value, u.birthdate.value) && NotAfter(u.birthdate.value, endDate.value))
  }

  /** `:name IS NULL OR UPPER(u.name) LIKE UPPER(:name)`. A null name never matches. */
  predicate NameMatch(u: UserRecord, name: Option<string>) {
    name.None? || (u.name.Some? && LikeIgnoreCase(u.name.value, name.value))
  }

  /** The WHERE clause of `findAllByBirthdateBetweenAndNameContainingIgnoreCase`: the date group
      OR the name group. */
  predicate BirthdateOrNameMatch(u: UserRecord, startDate: Option<Date>, endDate: Option<Date>, name: Option<string>) {
    BirthdateMatch(u, startDate, endDate) || NameMatch(u, name)
  }

  function FindAllByBirthdateBetweenAndNameContainingIgnoreCase(
    rows: seq<UserRecord>, startDate: Option<Date>, endDate: Option<Date>, name: Option<string>): (r: seq<UserRecord>)
    ensures |r| <= |rows|
    ensures forall i :: 0 <= i < |r| ==> r[i] in rows && BirthdateOrNameMatch(r[i], startDate, endDate, name)
    ensures forall i :: 0 <= i < |rows| && BirthdateOrNameMatch(rows[i], startDate, endDate, name) ==> rows[i] in r
  {
    Filter(rows, (u: UserRecord) => BirthdateOrNameMatch(u, startDate, endDate, name))
  }

  /** A null start or end date, or a null name, makes its group true: every row is returned
      (in particular when all three are null). */
  lemma NullParameterReturnsAll(rows: seq<UserRecord>, startDate: Option<Date>, endDate: Option<Date>, name: Option<string>)
    requires startDate.None? || endDate.None? || name.None?
    ensures FindAllByBirthdateBetweenAndNameContainingIgnoreCase(rows, startDate, endDate, name) == rows
  {
    FilterKeepsAll(rows, (u: UserRecord) => BirthdateOrNameMatch(u, startDate, endDate, name));
  }

  /** With both bounds given, the date group holds exactly for birthdates in the closed range. */
  lemma BetweenIsInclusive(u: UserRecord, startDate: Date, endDate: Date, birthdate: Date)
    requires u.birthdate == Some(birthdate)
    ensures BirthdateMatch(u, Some(startDate), Some(endDate)) <==>
      (Before(startDate, birthdate) || startDate == birthdate) && (Before(birthdate, endDate) || birthdate == endDate)
  {
    BeforeIsStrictTotalOrder(startDate, birthdate, endDate);
    BeforeIsStrictTotalOrder(birthdate, endDate, startDate);
  }

  /** The groups are OR-ed: a user born in the range is returned whatever the name pattern. */
  lemma InRangeIgnoresName(rows: seq<UserRecord>, i: nat, startDate: Option<Date>, endDate: Option<Date>, name: Option<string>)
    requires i < |rows| && BirthdateMatch(rows[i], startDate, endDate)
    ensures rows[i] in FindAllByBirthdateBetweenAndNameContainingIgnoreCase(rows, startDate, endDate, name)
  {
  }

  /** Without wildcards the name group is equality up to ASCII case: the pattern is not wrapped in
      `%`, so it does not test containment. */
  lemma LiteralNameIsCaseInsensitiveEquality(u: UserRecord, name: string)
    requires IsLiteral(name) && u.name.Some?
    ensures NameMatch(u, Some(name)) <==> Upper(u.name.value) == Upper(name)
  {
    LikeIgnoreCaseLiteral(u.name.value, name);
  }

  /** `findOneByUsername`: the first row with that username, or empty. */
  function FindOneByUsername(rows: seq<UserRecord>, username: string): (r: Option<UserRecord>)
    ensures r.None? <==> forall i :: 0 <= i < |rows| ==> rows[i].username != Some(username)
    ensures r.Some? ==> r.value in rows && r.value.username == Some(username)
  {
    FindFirst(rows, (u: UserRecord) => u.username == Some(username))
  }

  // ---------------------------------------------------------------------------------------------
  // The table.

  /** The stored users by id; identifiers come from a counter. */
  class UserRepository {
    var rows: map<int, UserRecord>
    var nextId: int

    /** Every row is keyed by its own id, drawn below the counter, and satisfies the @NotNull
        constraints. */
    ghost predicate Valid()
      reads this
    {
      && 1 <= nextId
      && (forall k :: k in rows ==> 1 <= k < nextId && rows[k].id == Some(k) && Storable(rows[k]))
    }

    constructor ()
      ensures Valid() && rows == map[]
    {
      rows, nextId := map[], 1;
    }

    function FindById(id: int): Option<UserRecord>
      reads this
    {
      if id in rows then Some(rows[id]) else None
    }

    function ExistsById(id: int): (r: bool)
      reads this
      ensures r <==> FindById(id).Some?
    {
      id in rows
    }

    /** The key `save` writes: the user's own id when that row exists, else a new identifier. */
    function TargetId(u: UserRecord): int
      reads this
    {
      if u.id.Some? && u.id.value in rows then u.id.value else nextId
    }

    /** `save`: refused with NotNullViolation when a @NotNull column is null; otherwise the row
        under TargetId(u) becomes `u` with that id. Nothing changes on failure. */
    method Save(u: UserRecord) returns (r: Result<UserRecord, ErrorKind>)
      requires Valid()
      modifies this
      ensures Valid()
      ensures r.Success? <==> Storable(u)
      ensures !Storable(u) ==> r == Failure(NotNullViolation)
      ensures r.Failure? ==> rows == old(rows) && nextId == old(nextId)
      ensures r.Success? ==>
        && r.value == u.(id := Some(old(TargetId(u))))
        && rows == old(rows)[old(TargetId(u)) := r.value]
        && (old(TargetId(u)) in old(rows) <==> nextId == old(nextId))
    {
      if !Storable(u) {
        return Failure(NotNullViolation);
      }
      var k := TargetId(u);
      var saved := u.(id := Some(k));
      if k !in rows {
        nextId := nextId + 1;
      }
      rows := rows[k := saved];
      return Success(saved);
    }

    /** `delete(entity)`: removes the row with the entity's id; an entity without an id is ignored. */
    method Delete(u: UserRecord)
      requires Valid()
      modifies this
      ensures Valid()
      ensures rows == if u.id.Some? then old(rows) - {u.id.value} else old(rows)
      ensures nextId == old(nextId)
    {
      if u.id.Some? {
        rows := rows - {u.id.value};
      }
    }

    /** The rows with identifiers from `from` upwards, in identifier order. */
    function RowsFrom(from: int): seq<UserRecord>
      reads this
      decreases nextId - from
    {
      if from >= nextId then []
      else (if from in rows then [rows[from]] else []) + RowsFrom(from + 1)
    }

    /** The scan from `from` lists rows by strictly increasing identifier, all at least `from`. */
    lemma {:induction false} RowsFromIncreasing(from: int)
      requires Valid() && 1 <= from
      ensures forall i :: 0 <= i < |RowsFrom(from)| ==> RowsFrom(from)[i].id.Some? && from <= RowsFrom(from)[i].id.value
      ensures forall i, j :: 0 <= i < j < |RowsFrom(from)| ==> RowsFrom(from)[i].id.value < RowsFrom(from)[j].id.value
      decreases nextId - from
    {
      if from < nextId {
        RowsFromIncreasing(from + 1);
        var rest := RowsFrom(from + 1);
        if from in rows {
          assert RowsFrom(from) == [rows[from]] + rest;
          forall i, j | 0 <= i < j < |RowsFrom(from)|
            ensures RowsFrom(from)[i].id.value < RowsFrom(from)[j].id.value
          {
            if i == 0 {
              assert RowsFrom(from)[j] == rest[j - 1];
            } else {
              assert RowsFrom(from)[i] == rest[i - 1] && RowsFrom(from)[j] == rest[j - 1];
            }
          }
        } else {
          assert RowsFrom(from) == rest;
        }
      }
    }

    /** The scan from `from` has one entry per stored identifier from `from` up to the counter. */
    lemma {:induction false} RowsFromLength(from: int)
      ensures |RowsFrom(from)| == |set k | k in rows && from <= k < nextId|
      decreases nextId - from
    {
      var above := set k | k in rows && from <= k < nextId;
      if from < nextId {
        RowsFromLength(from + 1);
        var aboveNext := set k | k in rows && from + 1 <= k < nextId;
        if from in rows {
          assert above == {from} + aboveNext;
        } else {
          assert above == aboveNext;
        }
      } else {
        assert above == {};
      }
    }

    /** The whole table as the store scans it (`findAll()`). */
    function Rows(): seq<UserRecord>
      reads this
    {
      RowsFrom(1)
    }

    lemma {:induction false} RowsFromAreTheStoredRows(from: int, u: UserRecord)
      requires Valid() && 1 <= from
      ensures u in RowsFrom(from) <==> exists k :: from <= k && k in rows && rows[k] == u
      decreases nextId - from
    {
      if from < nextId {
        RowsFromAreTheStoredRows(from + 1, u);
        if u in RowsFrom(from) && u !in RowsFrom(from + 1) {
          assert from in rows && rows[from] == u;
        }
      }
    }

    /** The scan returns exactly the stored users, each row once and by increasing identifier. */
    lemma RowsAreTheStoredUsers()
      requires Valid()
      ensures forall u :: u in Rows() <==> u in rows.Values
      ensures |Rows()| == |rows|
      ensures forall i :: 0 <= i < |Rows()| ==> Rows()[i].id.Some?
      ensures forall i, j :: 0 <= i < j < |Rows()| ==> Rows()[i].id.value < Rows()[j].id.value
      ensures forall i, j :: 0 <= i < j < |Rows()| ==> Rows()[i] != Rows()[j]
    {
      RowsFromIncreasing(1);
      RowsFromLength(1);
      assert (set k | k in rows && 1 <= k < nextId) == rows.Keys;
      forall u ensures u in Rows() <==> u in rows.Values {
        RowsFromAreTheStoredRows(1, u);
      }
    }

    /** With all parameters null the query returns every stored user. */
    lemma AllNullReturnsEveryStoredUser()
      requires Valid()
      ensures forall u :: u in FindAllByBirthdateBetweenAndNameContainingIgnoreCase(Rows(), None, None, None)
                          <==> u in rows.Values
    {
      NullParameterReturnsAll(Rows(), None, None, None);
      RowsAreTheStoredUsers();
    }
  }
}
