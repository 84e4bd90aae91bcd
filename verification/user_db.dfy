/**
 * The single-table user store (`src/db/user.rs`, `UserRepository`): the
 * `User` table as a map from email bytes to rows, each operation a short
 * transaction that either commits its whole effect or fails before commit.
 */
module UserDb {
  import opened Wrappers
  import opened Utf8
  import opened UserModels
  import opened SetClause

  /** The `User` table, keyed by the email column. */
  type Table = map<Bytes, User>

  /** Each row sits under its own email, and ids are unique. */
  predicate WellFormed(t: Table)
  {
    && (forall e :: e in t ==> t[e].email == e)
    && (forall e1, e2 :: e1 in t && e2 in t && e1 != e2 ==> t[e1].id != t[e2].id)
  }

  /** The database round trips where the connection or the server may fail. */
  datatype Step = BeginTx | SelectRow | UpdateRow | DeleteRow | CommitTx

  datatype RepoError =
    | HashFailed          // the password hasher failed
    | RowNotFound         // `fetch_one` found no row
    | Database(at: Step)  // the database failed at this step

  /** What the database makes of a SET clause: the new `fullName` and `image` values, or a rejected statement. */
  datatype ColumnValues = ColumnValues(fullName: Bytes, image: Option<Bytes>)

  /** The result of an operation and the table it leaves committed. */
  datatype Effect = Effect(result: Result<User, RepoError>, table: Table)

  function Fails(fault: Option<Step>, step: Step): bool
  {
    fault == Some(step)
  }

  /** Whether the failure falls on one of the steps an operation performs. */
  predicate FaultIn(fault: Option<Step>, steps: set<Step>)
  {
    fault.Some? && fault.value in steps
  }

  // ---------------------------------------------------------------------------
  // The operations as functions of the table

  function FindByEmailSpec(t: Table, email: string, fault: Option<Step>): Result<User, RepoError>
  {
    var key := Encode(email);
    if Fails(fault, SelectRow) then Err(Database(SelectRow))
    else if key !in t then Err(RowNotFound)
    else Ok(t[key])
  }

  function CreateSpec(t: Table, newUser: NewUser, hash: string -> Option<string>, fault: Option<Step>): Effect
  {
    var key := Encode(newUser.email);
    match hash(newUser.password)
    case None => Effect(Err(HashFailed), t)
    case Some(h) =>
      if Fails(fault, BeginTx) || Fails(fault, UpdateRow) || Fails(fault, SelectRow) then Effect(Err(Database(fault.value)), t)
      else if key !in t then Effect(Err(RowNotFound), t)
      else if Fails(fault, CommitTx) then Effect(Err(Database(CommitTx)), t)
      else
        var row := t[key].(password := Some(Encode(h)));
        Effect(Ok(row), t[key := row])
  }

  /** The column/value pairs of `as_hashmap` in one of the two orders a `HashMap` may yield them. */
  function HashmapEntries(patch: UpdateProfile, swapped: bool): (entries: seq<Entry>)
    ensures |entries| == 2
  {
    var name := ("full_name", patch.fullName.GetOr(""));
    var image := ("image", patch.image.GetOr(""));
    if swapped then [image, name] else [name, image]
  }

  /** The SET clause `update` sends, as the builder writes it (`len() - 2` never underflows here). */
  function UpdateClause(patch: UpdateProfile, swapped: bool): string
  {
    ProfileClauseNeverUnderflows(patch, swapped);
    SetClause.SetClause(HashmapEntries(patch, swapped))
  }

  function UpdateSpec(t: Table, patch: UpdateProfile, email: string, swapped: bool,
                      exec: string -> Option<ColumnValues>, fault: Option<Step>): Effect
  {
    var key := Encode(email);
    var values := exec(UpdateClause(patch, swapped));
    if Fails(fault, BeginTx) then Effect(Err(Database(BeginTx)), t)
    else if Fails(fault, UpdateRow) || values.None? then Effect(Err(Database(UpdateRow)), t)
    else if Fails(fault, SelectRow) then Effect(Err(Database(SelectRow)), t)
    else if key !in t then Effect(Err(RowNotFound), t)
    else if Fails(fault, CommitTx) then Effect(Err(Database(CommitTx)), t)
    else
      var row := t[key].(fullName := values.value.fullName, image := values.value.image);
      Effect(Ok(row), t[key := row])
  }

  function DeleteSpec(t: Table, email: string, fault: Option<Step>): Effect
  {
    var key := Encode(email);
    if Fails(fault, BeginTx) || Fails(fault, SelectRow) then Effect(Err(Database(fault.value)), t)
    else if key !in t then Effect(Err(RowNotFound), t)
    else if Fails(fault, DeleteRow) || Fails(fault, CommitTx) then Effect(Err(Database(fault.value)), t)
    else Effect(Ok(t[key]), t - {key})
  }

  // ---------------------------------------------------------------------------
  // The repository

  class UserRepository {
    var rows: Table

    ghost predicate Valid()
      reads this
    {
      WellFormed(rows)
    }

    constructor (initial: Table)
      requires WellFormed(initial)
      ensures Valid() && rows == initial
    {
      rows := initial;
    }

    /** `SELECT ... WHERE email = ?` with `fetch_one`. */
    method FindByEmail(email: string, fault: Option<Step>) returns (r: Result<User, RepoError>)
      requires Valid()
      ensures r == FindByEmailSpec(rows, email, fault)
      ensures r.Ok? ==> r.value.email == Encode(email)
    {
      var key := Encode(email);
      if fault == Some(SelectRow) {
        return Err(Database(SelectRow));
      }
      if key !in rows {
        return Err(RowNotFound);
      }
      r := Ok(rows[key]);
    }

    /** Hash the password, then in one transaction UPDATE the row's password and SELECT the row. */
    method Create(newUser: NewUser, hash: string -> Option<string>, fault: Option<Step>)
      returns (r: Result<User, RepoError>)
      requires Valid()
      modifies this
      ensures Valid()
      ensures Effect(r, rows) == CreateSpec(old(rows), newUser, hash, fault)
    {
      var passwordHash := hash(newUser.password);
      if passwordHash.None? {
        return Err(HashFailed);
      }
      if fault == Some(BeginTx) {
        return Err(Database(BeginTx));
      }
      var committed := rows;
      // UPDATE User SET password = ? WHERE email = ?
      if fault == Some(UpdateRow) {
        return Err(Database(UpdateRow));
      }
      var key := Encode(newUser.email);
      if key in rows {
        rows := rows[key := rows[key].(password := Some(Encode(passwordHash.value)))];
      }
      // SELECT ... WHERE email = ?
      if fault == Some(SelectRow) {
        rows := committed;
        return Err(Database(SelectRow));
      }
      if key !in rows {
        rows := committed;
        return Err(RowNotFound);
      }
      var user := rows[key];
      if fault == Some(CommitTx) {
        rows := committed;
        return Err(Database(CommitTx));
      }
      r := Ok(user);
    }

    /**
     * Render the patch as a SET clause, then in one transaction run the UPDATE
     * and SELECT the row. `swapped` picks the order the map yields its pairs in.
     */
    method Update(patch: UpdateProfile, email: string, swapped: bool,
                  exec: string -> Option<ColumnValues>, fault: Option<Step>)
      returns (r: Result<User, RepoError>)
      requires Valid()
      modifies this
      ensures Valid()
      ensures Effect(r, rows) == UpdateSpec(old(rows), patch, email, swapped, exec, fault)
    {
      var m := patch.AsHashmap();
      var entries := if swapped then [("image", m["image"]), ("full_name", m["full_name"])]
                     else [("full_name", m["full_name"]), ("image", m["image"])];
      assert entries == HashmapEntries(patch, swapped);
      ProfileClauseNeverUnderflows(patch, swapped);
      var clause := SetClause.SetClause(entries);
      if fault == Some(BeginTx) {
        return Err(Database(BeginTx));
      }
      var committed := rows;
      var values := exec(clause);
      if fault == Some(UpdateRow) || values.None? {
        return Err(Database(UpdateRow));
      }
      var key := Encode(email);
      if key in rows {
        rows := rows[key := rows[key].(fullName := values.value.fullName, image := values.value.image)];
      }
      if fault == Some(SelectRow) {
        rows := committed;
        return Err(Database(SelectRow));
      }
      if key !in rows {
        rows := committed;
        return Err(RowNotFound);
      }
      var user := rows[key];
      if fault == Some(CommitTx) {
        rows := committed;
        return Err(Database(CommitTx));
      }
      r := Ok(user);
    }

    /** In one transaction SELECT the row, DELETE it, and return the row as it was. */
    method Delete(email: string, fault: Option<Step>) returns (r: Result<User, RepoError>)
      requires Valid()
      modifies this
      ensures Valid()
      ensures Effect(r, rows) == DeleteSpec(old(rows), email, fault)
    {
      if fault == Some(BeginTx) {
        return Err(Database(BeginTx));
      }
      var committed := rows;
      var key := Encode(email);
      if fault == Some(SelectRow) {
        return Err(Database(SelectRow));
      }
      if key !in rows {
        return Err(RowNotFound);
      }
      var user := rows[key];
      if fault == Some(DeleteRow) {
        return Err(Database(DeleteRow));
      }
      rows := rows - {key};
      if fault == Some(CommitTx) {
        rows := committed;
        return Err(Database(CommitTx));
      }
      r := Ok(user);
    }
  }

  // ---------------------------------------------------------------------------
  // What the operations promise

  /** A lookup succeeds exactly when a row has that email, and returns that row. */
  lemma FindByEmailFindsRow(t: Table, email: string, fault: Option<Step>)
    requires WellFormed(t)
    ensures FindByEmailSpec(t, email, fault).Ok? <==> !Fails(fault, SelectRow) && Encode(email) in t
    ensures FindByEmailSpec(t, email, fault).Ok? ==>
      FindByEmailSpec(t, email, fault).value == t[Encode(email)] &&
      FindByEmailSpec(t, email, fault).value.email == Encode(email)
  {
  }

  /**
   * `create` never adds a row: without a row for the email it fails and the
   * table is unchanged; otherwise only that row's password changes, to the hash.
   */
  lemma CreateNeverAddsRow(t: Table, newUser: NewUser, hash: string -> Option<string>, fault: Option<Step>)
    requires WellFormed(t)
    ensures var eff := CreateSpec(t, newUser, hash, fault);
      && eff.table.Keys == t.Keys
      && WellFormed(eff.table)
      && (Encode(newUser.email) !in t ==> eff.result.Err? && eff.table == t)
      && (eff.result.Err? ==> eff.table == t)
      && (eff.result.Ok? <==>
            && hash(newUser.password).Some?
            && !FaultIn(fault, {BeginTx, UpdateRow, SelectRow, CommitTx})
            && Encode(newUser.email) in t)
      && (eff.result.Ok? ==>
            var key := Encode(newUser.email);
            && eff.result.value == eff.table[key]
            && eff.table[key] == t[key].(password := Some(Encode(hash(newUser.password).value)))
            && eff.result.value.email == key
            && (forall e :: e in t && e != key ==> eff.table[e] == t[e]))
  {
    var eff := CreateSpec(t, newUser, hash, fault);
    var key := Encode(newUser.email);
    if eff.result.Ok? {
      forall e1, e2 | e1 in eff.table && e2 in eff.table && e1 != e2
        ensures eff.table[e1].id != eff.table[e2].id
      {
        assert eff.table[e1].id == t[e1].id && eff.table[e2].id == t[e2].id;
      }
    }
  }

  /** The pairs of `as_hashmap` are ASCII exactly when both values are: the keys are ASCII. */
  lemma ProfilePairsAscii(patch: UpdateProfile, swapped: bool)
    ensures PairsAscii(HashmapEntries(patch, swapped)) <==>
      IsAscii(patch.fullName.GetOr("")) && IsAscii(patch.image.GetOr(""))
  {
    var entries := HashmapEntries(patch, swapped);
    assert IsAscii("full_name") && IsAscii("image");
    var name, image := patch.fullName.GetOr(""), patch.image.GetOr("");
    if IsAscii(name) && IsAscii(image) {
      assert forall i :: 0 <= i < 2 ==> IsAscii(entries[i].0) && IsAscii(entries[i].1);
    } else if swapped {
      assert !IsAscii(entries[0].1) || !IsAscii(entries[1].1);
    } else {
      assert !IsAscii(entries[0].1) || !IsAscii(entries[1].1);
    }
  }

  /**
   * The update sends the assignments `full_name = nullif('…', '')` and
   * `image = nullif('…', '')` separated by ",  ", in either order; when a
   * value holds a multi-byte character, part of the trailing ", " is left
   * behind (a "," or the whole ", ").
   */
  lemma UpdateClauseText(patch: UpdateProfile, swapped: bool)
    ensures var name := Assignment(("full_name", patch.fullName.GetOr("")));
            var image := Assignment(("image", patch.image.GetOr("")));
            var clean := if swapped then image + ",  " + name else name + ",  " + image;
            && (IsAscii(patch.fullName.GetOr("")) && IsAscii(patch.image.GetOr("")) ==>
                  UpdateClause(patch, swapped) == clean)
            && (!IsAscii(patch.fullName.GetOr("")) || !IsAscii(patch.image.GetOr("")) ==>
                  UpdateClause(patch, swapped) == clean + "," || UpdateClause(patch, swapped) == clean + ", ")
  {
    var name := ("full_name", patch.fullName.GetOr(""));
    var image := ("image", patch.image.GetOr(""));
    var entries := HashmapEntries(patch, swapped);
    if swapped {
      assert entries == [image, name];
      TwoPairAssignments(image, name);
    } else {
      assert entries == [name, image];
      TwoPairAssignments(name, image);
    }
    ProfilePairsAscii(patch, swapped);
    if PairsAscii(entries) {
      SetClauseAscii(entries);
    } else {
      SetClauseMultiByte(entries);
    }
  }

  /**
   * Values are pasted into the clause unescaped: a full name that closes the
   * quote adds an assignment of its own (here to `password`) to the text sent.
   */
  lemma QuotedNameAddsAssignment(a: string, b: string)
    requires IsAscii(a) && IsAscii(b)
    ensures UpdateClause(UpdateProfile(Some(a + "', ''), password = nullif('" + b), None), false) ==
      "full_name = nullif('" + a + "', ''), password = nullif('" + b + "', '')" + ",  " + "image = nullif('', '')"
  {
    var v := a + "', ''), password = nullif('" + b;
    InjectedName(a, b);
    UpdateClauseText(UpdateProfile(Some(v), None), false);
  }

  lemma InjectedName(a: string, b: string)
    requires IsAscii(a) && IsAscii(b)
    ensures IsAscii(a + "', ''), password = nullif('" + b) && IsAscii("")
    ensures Assignment(("full_name", a + "', ''), password = nullif('" + b)) ==
      "full_name = nullif('" + a + "', ''), password = nullif('" + b + "', '')"
    ensures Assignment(("image", "")) == "image = nullif('', '')"
  {
    InjectedNameAscii(a, b);
    assert "full_name" + " = nullif('" == "full_name = nullif('";
  }

  lemma InjectedNameAscii(a: string, b: string)
    requires IsAscii(a) && IsAscii(b)
    ensures IsAscii(a + "', ''), password = nullif('" + b)
  {
    var inject := "', ''), password = nullif('";
    assert IsAscii(inject);
    AsciiAppend(a, inject);
    AsciiAppend(a + inject, b);
  }

  /** The clause `as_hashmap` feeds the builder never makes `len() - 2` underflow, in either order. */
  lemma ProfileClauseNeverUnderflows(patch: UpdateProfile, swapped: bool)
    ensures ByteLen(Joined(HashmapEntries(patch, swapped))) >= 2
  {
    NeverUnderflows(HashmapEntries(patch, swapped));
  }

  /**
   * A successful update changes only the `fullName` and `image` of the row
   * with that email, to what the database made of the clause; a failed one
   * changes nothing. No row is added or removed.
   */
  lemma UpdateChangesOnlyProfile(t: Table, patch: UpdateProfile, email: string, swapped: bool,
                                 exec: string -> Option<ColumnValues>, fault: Option<Step>)
    requires WellFormed(t)
    ensures var eff := UpdateSpec(t, patch, email, swapped, exec, fault);
      && eff.table.Keys == t.Keys
      && WellFormed(eff.table)
      && (eff.result.Err? ==> eff.table == t)
      && (eff.result.Ok? <==>
            && !FaultIn(fault, {BeginTx, UpdateRow, SelectRow, CommitTx})
            && exec(UpdateClause(patch, swapped)).Some?
            && Encode(email) in t)
      && (eff.result.Ok? ==>
            var key := Encode(email);
            var values := exec(UpdateClause(patch, swapped)).value;
            && eff.result.value == eff.table[key]
            && eff.table[key].fullName == values.fullName
            && eff.table[key].image == values.image
            && eff.table[key].id == t[key].id
            && eff.table[key].email == t[key].email
            && eff.table[key].password == t[key].password
            && (forall e :: e in t && e != key ==> eff.table[e] == t[e]))
  {
    var eff := UpdateSpec(t, patch, email, swapped, exec, fault);
    if eff.result.Ok? {
      forall e1, e2 | e1 in eff.table && e2 in eff.table && e1 != e2
        ensures eff.table[e1].id != eff.table[e2].id
      {
        assert eff.table[e1].id == t[e1].id && eff.table[e2].id == t[e2].id;
      }
    }
  }

  /**
   * `delete` returns the row as it was; afterwards no row has that email and
   * the others are unchanged. A missing email or a failure deletes nothing.
   */
  lemma DeleteRemovesOnlyThatRow(t: Table, email: string, fault: Option<Step>)
    requires WellFormed(t)
    ensures var eff := DeleteSpec(t, email, fault);
      && WellFormed(eff.table)
      && (eff.result.Err? ==> eff.table == t)
      && (Encode(email) !in t ==> eff.result.Err?)
      && (eff.result.Ok? <==> !FaultIn(fault, {BeginTx, SelectRow, DeleteRow, CommitTx}) && Encode(email) in t)
      && (eff.result.Ok? ==>
            var key := Encode(email);
            && eff.result.value == t[key]
            && eff.result.value.email == key
            && eff.table.Keys == t.Keys - {key}
            && (forall e :: e in eff.table ==> eff.table[e] == t[e]))
  {
  }
}
