/**
 * The user repository: single-row reads and writes on the users table.
 *
 * The table is held in memory as the sequence of its rows in insertion order.  Each call
 * takes `fault`, the error code the database driver reports for that call (None when the
 * statement succeeds); whether a row is found is decided by the rows themselves.
 */
module Repository {
  import opened Wrappers
  import opened Model

  /** MySQL's error number for a duplicate primary key. */
  const ErDupEntry: nat := 1062

  /** The errors a gorm statement reports. */
  datatype DbError = ErrRecordNotFound | DriverError(code: nat)

  predicate HasID(rows: seq<User>, id: nat) {
    exists i :: 0 <= i < |rows| && rows[i].ID == id
  }

  predicate HasEmail(rows: seq<User>, email: string) {
    exists i :: 0 <= i < |rows| && rows[i].Email == email
  }

  ghost predicate UniqueIDs(rows: seq<User>) {
    forall i, j :: 0 <= i < j < |rows| ==> rows[i].ID != rows[j].ID
  }

  ghost predicate UniqueEmails(rows: seq<User>) {
    forall i, j :: 0 <= i < j < |rows| ==> rows[i].Email != rows[j].Email
  }

  function Max(a: nat, b: nat): (m: nat)
    ensures a <= m && b <= m && (m == a || m == b)
  {
    if a < b then b else a
  }

  /** The row `SELECT ... WHERE id = ?` finds, if any. */
  function Lookup(rows: seq<User>, id: nat): (r: Option<User>)
    ensures r.Some? ==> r.value in rows && r.value.ID == id
    ensures r.None? <==> !HasID(rows, id)
  {
    if rows == [] then None
    else if rows[0].ID == id then Some(rows[0])
    else
      var rest := Lookup(rows[1..], id);
      assert HasID(rows, id) ==> HasID(rows[1..], id) by {
        if HasID(rows, id) {
          var i :| 0 <= i < |rows| && rows[i].ID == id;
          assert rows[1..][i - 1].ID == id;
        }
      }
      rest
  }

  /** The row `WHERE email = ? ... First` finds: of the rows with that e-mail, the one with the least primary key. */
  function FirstByEmail(rows: seq<User>, email: string): (r: Option<User>)
    ensures r.Some? ==> r.value in rows && r.value.Email == email
    ensures r.Some? ==> forall i :: 0 <= i < |rows| && rows[i].Email == email ==> r.value.ID <= rows[i].ID
    ensures r.None? <==> !HasEmail(rows, email)
  {
    if rows == [] then None
    else
      var rest := FirstByEmail(rows[1..], email);
      assert forall i :: 1 <= i < |rows| ==> rows[i] == rows[1..][i - 1];
      if rows[0].Email == email && (rest.None? || rows[0].ID <= rest.value.ID) then Some(rows[0])
      else rest
  }

  /** The value `SELECT count(*) ... WHERE email = ?` yields. */
  function CountByEmail(rows: seq<User>, email: string): (n: nat)
    ensures n <= |rows|
    ensures n > 0 <==> HasEmail(rows, email)
  {
    if rows == [] then 0
    else
      assert forall i :: 1 <= i < |rows| ==> rows[i] == rows[1..][i - 1];
      (if rows[0].Email == email then 1 else 0) + CountByEmail(rows[1..], email)
  }

  /** The rows after `UPDATE ... WHERE id = u.ID` wrote every field of `u`. */
  function Overwrite(rows: seq<User>, u: User): (r: seq<User>)
    ensures |r| == |rows|
    ensures forall i :: 0 <= i < |rows| ==> r[i].ID == rows[i].ID
    ensures forall i :: 0 <= i < |rows| && rows[i].ID == u.ID ==> r[i] == u
    ensures forall i :: 0 <= i < |rows| && rows[i].ID != u.ID ==> r[i] == rows[i]
  {
    if rows == [] then []
    else [if rows[0].ID == u.ID then u else rows[0]] + Overwrite(rows[1..], u)
  }

  /** The rows after `DELETE ... WHERE id = ?`. */
  function RemoveID(rows: seq<User>, id: nat): (r: seq<User>)
    ensures |r| <= |rows|
    ensures forall x :: x in r <==> x in rows && x.ID != id
  {
    if rows == [] then []
    else if rows[0].ID == id then RemoveID(rows[1..], id)
    else [rows[0]] + RemoveID(rows[1..], id)
  }

  /** gorm's `First`: a driver error, else the row, else `ErrRecordNotFound`. */
  function First(row: Option<User>, fault: Option<nat>): (r: Result<User, DbError>)
    ensures r.Success? <==> fault.None? && row.Some?
    ensures r.Success? ==> r.value == row.value
    ensures r.Failure? && fault.None? ==> r.error == ErrRecordNotFound
    ensures fault.Some? ==> r == Failure(DriverError(fault.value))
  {
    if fault.Some? then Failure(DriverError(fault.value))
    else if row.None? then Failure(ErrRecordNotFound)
    else Success(row.value)
  }

  /** gorm's `Count`: a driver error, else the count. */
  function Count(n: nat, fault: Option<nat>): (r: Result<nat, DbError>)
    ensures fault.None? ==> r == Success(n)
    ensures fault.Some? ==> r == Failure(DriverError(fault.value))
  {
    if fault.Some? then Failure(DriverError(fault.value)) else Success(n)
  }

  /** After a row with a fresh key is appended, the lookups of its key and its e-mail find a row. */
  lemma {:induction false} AppendedIsFound(rows: seq<User>, s: User)
    requires !HasID(rows, s.ID)
    ensures Lookup(rows + [s], s.ID) == Some(s)
    ensures HasEmail(rows + [s], s.Email) && FirstByEmail(rows + [s], s.Email).Some?
    ensures CountByEmail(rows + [s], s.Email) > 0
  {
    var all := rows + [s];
    assert all[|rows|] == s;
    if rows != [] {
      assert all[1..] == rows[1..] + [s];
      assert forall i :: 0 <= i < |rows[1..]| ==> rows[1..][i] == rows[i + 1];
      AppendedIsFound(rows[1..], s);
    }
  }

  /** A key is in a non-empty table iff it is the first row's or in the rest. */
  lemma HasIDCons(rows: seq<User>, id: nat)
    requires rows != []
    ensures HasID(rows, id) <==> rows[0].ID == id || HasID(rows[1..], id)
  {
    if HasID(rows, id) && rows[0].ID != id {
      var i :| 0 <= i < |rows| && rows[i].ID == id;
      assert rows[1..][i - 1].ID == id;
    }
    if HasID(rows[1..], id) {
      var i :| 0 <= i < |rows[1..]| && rows[1..][i].ID == id;
      assert rows[i + 1].ID == id;
    }
  }

  /** Overwriting the row with key `u.ID` changes what that key finds and nothing else. */
  lemma {:induction false} LookupAfterOverwrite(rows: seq<User>, u: User, id: nat)
    ensures Lookup(Overwrite(rows, u), id) == if id == u.ID && HasID(rows, id) then Some(u) else Lookup(rows, id)
  {
    if rows != [] {
      LookupAfterOverwrite(rows[1..], u, id);
      assert Overwrite(rows, u)[1..] == Overwrite(rows[1..], u);
      HasIDCons(rows, id);
    }
  }

  /** Removing key `id` makes that key find nothing and leaves every other key as it was. */
  lemma {:induction false} LookupAfterRemove(rows: seq<User>, id: nat, k: nat)
    ensures Lookup(RemoveID(rows, id), k) == if k == id then None else Lookup(rows, k)
  {
    if rows != [] {
      LookupAfterRemove(rows[1..], id, k);
      if rows[0].ID != id {
        assert RemoveID(rows, id)[1..] == RemoveID(rows[1..], id);
      }
    }
  }

  /**
   * The users table.  `rows` holds the live rows in insertion order; `nextID` is the table's
   * AUTO_INCREMENT counter.
   */
  class UserRepository {
    var rows: seq<User>
    var nextID: nat

    /** Keys are unique, positive and below the AUTO_INCREMENT counter. */
    ghost predicate Valid()
      reads this
    {
      && UniqueIDs(rows)
      && 1 <= nextID
      && forall i :: 0 <= i < |rows| ==> 1 <= rows[i].ID < nextID
    }

    constructor ()
      ensures Valid() && rows == [] && nextID == 1
    {
      rows, nextID := [], 1;
    }

    /** `FindByID`: not found is `(nil, nil)`; any other error comes back unchanged with no user. */
    method FindByID(id: nat, fault: Option<nat>) returns (user: Option<User>, err: Option<DbError>)
      ensures fault.Some? ==> user == None && err == Some(DriverError(fault.value))
      ensures fault.None? ==> err == None && user == Lookup(rows, id)
    {
      var result := First(Lookup(rows, id), fault);
      if result.Failure? {
        if result.error == ErrRecordNotFound {
          return None, None;
        }
        return None, Some(result.error);
      }
      return Some(result.value), None;
    }

    /** `FindByEmail`: not found is `(nil, nil)`, else the matching row with the least key; errors pass through. */
    method FindByEmail(email: string, fault: Option<nat>) returns (user: Option<User>, err: Option<DbError>)
      ensures fault.Some? ==> user == None && err == Some(DriverError(fault.value))
      ensures fault.None? ==> err == None && user == FirstByEmail(rows, email)
    {
      var result := First(FirstByEmail(rows, email), fault);
      if result.Failure? {
        if result.error == ErrRecordNotFound {
          return None, None;
        }
        return None, Some(result.error);
      }
      return Some(result.value), None;
    }

    /** `ExistsByEmail`: true iff some row has the e-mail; on error false together with the error. */
    method ExistsByEmail(email: string, fault: Option<nat>) returns (found: bool, err: Option<DbError>)
      ensures fault.Some? ==> !found && err == Some(DriverError(fault.value))
      ensures fault.None? ==> err == None && (found <==> HasEmail(rows, email))
    {
      var result := Count(CountByEmail(rows, email), fault);
      if result.Failure? {
        return false, Some(result.error);
      }
      return result.value > 0, None;
    }

    /**
     * `Create`: inserts the row.  A zero key takes the AUTO_INCREMENT value, a key already in
     * the table is a duplicate-key error; `saved` is the record with the key the store gave it.
     */
    method Create(u: User, fault: Option<nat>) returns (saved: User, err: Option<DbError>)
      requires Valid()
      modifies this
      ensures Valid()
      ensures fault.Some? ==> err == Some(DriverError(fault.value))
      ensures fault.None? && u.ID != 0 && HasID(old(rows), u.ID) ==> err == Some(DriverError(ErDupEntry))
      ensures err.Some? ==> saved == u && rows == old(rows) && nextID == old(nextID)
      ensures fault.None? && !(u.ID != 0 && HasID(old(rows), u.ID)) ==>
        && err == None
        && saved == (if u.ID == 0 then u.(ID := old(nextID)) else u)
        && rows == old(rows) + [saved]
        && nextID == Max(old(nextID), saved.ID + 1)
    {
      if fault.Some? {
        return u, Some(DriverError(fault.value));
      }
      if u.ID != 0 && HasID(rows, u.ID) {
        return u, Some(DriverError(ErDupEntry));
      }
      saved := if u.ID == 0 then u.(ID := nextID) else u;
      assert !HasID(rows, saved.ID);
      rows := rows + [saved];
      nextID := Max(nextID, saved.ID + 1);
      err := None;
    }

    /**
     * `Update` (gorm `Save`): overwrites the row with the same key; a record whose key is zero
     * or not in the table is inserted as `Create` would.
     */
    method Update(u: User, fault: Option<nat>) returns (saved: User, err: Option<DbError>)
      requires Valid()
      modifies this
      ensures Valid()
      ensures fault.Some? ==> err == Some(DriverError(fault.value)) && rows == old(rows) && nextID == old(nextID)
      ensures fault.None? && HasID(old(rows), u.ID) ==>
        err == None && saved == u && rows == Overwrite(old(rows), u) && nextID == old(nextID)
      ensures fault.None? && !HasID(old(rows), u.ID) ==>
        && err == None
        && saved == (if u.ID == 0 then u.(ID := old(nextID)) else u)
        && rows == old(rows) + [saved]
        && nextID == Max(old(nextID), saved.ID + 1)
    {
      if fault.Some? {
        return u, Some(DriverError(fault.value));
      }
      if HasID(rows, u.ID) {
        rows := Overwrite(rows, u);
        return u, None;
      }
      saved, err := Create(u, None);
    }

    /** `Delete`: removes the row with that key, if there is one; errors pass through. */
    method Delete(id: nat, fault: Option<nat>) returns (err: Option<DbError>)
      requires Valid()
      modifies this
      ensures Valid() && nextID == old(nextID)
      ensures fault.Some? ==> err == Some(DriverError(fault.value)) && rows == old(rows)
      ensures fault.None? ==> err == None && rows == RemoveID(old(rows), id)
    {
      if fault.Some? {
        return Some(DriverError(fault.value));
      }
      RemovePreservesKeys(rows, id, nextID);
      rows := RemoveID(rows, id);
      return None;
    }
  }

  /** Removing rows keeps keys unique and within bounds. */
  lemma {:induction false} RemovePreservesKeys(rows: seq<User>, id: nat, bound: nat)
    requires UniqueIDs(rows) && forall i :: 0 <= i < |rows| ==> 1 <= rows[i].ID < bound
    ensures UniqueIDs(RemoveID(rows, id))
    ensures forall i :: 0 <= i < |RemoveID(rows, id)| ==> 1 <= RemoveID(rows, id)[i].ID < bound
  {
    if rows != [] {
      RemovePreservesKeys(rows[1..], id, bound);
      var rest := RemoveID(rows[1..], id);
      if rows[0].ID != id {
        var r := [rows[0]] + rest;
        forall i, j | 0 <= i < j < |r| ensures r[i].ID != r[j].ID {
          if i == 0 {
            assert r[j] in rows[1..];
          }
        }
      }
    }
  }
}
