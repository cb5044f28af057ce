/** The user table of the user authentication service (0x03 `db.py`):
    adding users, finding exactly one user by column values, and updating
    a user's columns by name. The storage engine is abstracted to the
    sequence of stored rows, in table order. */
module UserDb {
  import opened Wrappers

  /** A row of the `users` table. */
  datatype User = User(id: int, email: string, hashedPassword: string, sessionId: Option<string>, resetToken: Option<string>)

  /** A keyword argument's value. */
  datatype Value = IntValue(i: int) | StrValue(s: string) | NullValue

  /** Keyword arguments, in argument order. */
  type Kwargs = seq<(string, Value)>

  datatype UpdateFailure = NoSuchUser(id: int) | InvalidAttribute(key: string)

  /** The exceptions the table operations raise. */
  datatype DbError = NoResultFound | InvalidRequestError | ValueError(reason: UpdateFailure)

  /** The column names of a `User`. */
  predicate IsColumn(key: string) {
    key == "id" || key == "email" || key == "hashed_password" || key == "session_id" || key == "reset_token"
  }

  function Nullable(s: Option<string>): Value {
    match s
    case None => NullValue
    case Some(t) => StrValue(t)
  }

  /** The value of the column named `key`, or None when `key` is not a
      column. */
  function ColumnValue(u: User, key: string): (v: Option<Value>)
    ensures v.Some? <==> IsColumn(key)
  {
    if key == "id" then Some(IntValue(u.id))
    else if key == "email" then Some(StrValue(u.email))
    else if key == "hashed_password" then Some(StrValue(u.hashedPassword))
    else if key == "session_id" then Some(Nullable(u.sessionId))
    else if key == "reset_token" then Some(Nullable(u.resetToken))
    else None
  }

  /** The values a column can hold: an integer id, non-null strings for
      email and hashed password, a string or null for the other two. */
  predicate Fits(key: string, v: Value) {
    if key == "id" then v.IntValue?
    else if key == "email" || key == "hashed_password" then v.StrValue?
    else if key == "session_id" || key == "reset_token" then v.StrValue? || v.NullValue?
    else true
  }

  /** Keyword arguments whose values fit the columns they name. */
  predicate WellTyped(kwargs: Kwargs) {
    forall i :: 0 <= i < |kwargs| && IsColumn(kwargs[i].0) ==> Fits(kwargs[i].0, kwargs[i].1)
  }

  /** `setattr(user, key, value)` for a column: that column takes the
      value and every other column keeps its own. */
  function SetColumn(u: User, key: string, v: Value): (w: User)
    requires IsColumn(key) && Fits(key, v)
    ensures ColumnValue(w, key) == Some(v)
    ensures forall other :: other != key ==> ColumnValue(w, other) == ColumnValue(u, other)
  {
    if key == "id" then u.(id := v.i)
    else if key == "email" then u.(email := v.s)
    else if key == "hashed_password" then u.(hashedPassword := v.s)
    else if key == "session_id" then u.(sessionId := if v.NullValue? then None else Some(v.s))
    else u.(resetToken := if v.NullValue? then None else Some(v.s))
  }

  /** Whether a row matches every `column == value` filter. */
  predicate Satisfies(u: User, filters: Kwargs) {
    forall i :: 0 <= i < |filters| ==> ColumnValue(u, filters[i].0) == Some(filters[i].1)
  }

  predicate AllColumns(kwargs: Kwargs) {
    forall i :: 0 <= i < |kwargs| ==> IsColumn(kwargs[i].0)
  }

  /** The positions of the rows that match the filters, in table order. */
  function MatchingRows(users: seq<User>, filters: Kwargs): (ks: seq<nat>)
    ensures forall k: int :: k in ks <==> 0 <= k < |users| && Satisfies(users[k], filters)
    ensures forall i, j :: 0 <= i < j < |ks| ==> ks[i] < ks[j]
  {
    if users == [] then []
    else
      var n := |users| - 1;
      var earlier := MatchingRows(users[..n], filters);
      assert forall k :: 0 <= k < n ==> users[..n][k] == users[k];
      forall i | 0 <= i < |earlier|
        ensures earlier[i] < n
      {
        assert earlier[i] in earlier;
        assert |users[..n]| == n;
      }
      if Satisfies(users[n], filters) then earlier + [n] else earlier
  }

  /** `session.query(User).filter_by(**filters).one()`, as `find_user_by`
      reports it: `InvalidRequestError` for a filter on something that is
      not a column, `NoResultFound` when no row matches, and
      `InvalidRequestError` again when several do (the engine's
      `MultipleResultsFound` is a kind of `InvalidRequestError`);
      otherwise the position of the one matching row. */
  function Locate(users: seq<User>, filters: Kwargs): (r: Result<nat, DbError>)
    ensures r.Ok? ==>
      r.value < |users| && Satisfies(users[r.value], filters) &&
      forall j :: 0 <= j < |users| && Satisfies(users[j], filters) ==> j == r.value
    ensures r.Ok? ==> AllColumns(filters)
    ensures r == Err(NoResultFound) <==>
      AllColumns(filters) && forall j :: 0 <= j < |users| ==> !Satisfies(users[j], filters)
    ensures r == Err(InvalidRequestError) <==>
      !AllColumns(filters) ||
      exists i, j :: 0 <= i < j < |users| && Satisfies(users[i], filters) && Satisfies(users[j], filters)
    ensures r.Err? ==> r.error == NoResultFound || r.error == InvalidRequestError
  {
    if !AllColumns(filters) then Err(InvalidRequestError)
    else
      var ks := MatchingRows(users, filters);
      if |ks| == 0 then
        assert forall j :: 0 <= j < |users| ==> j !in ks;
        Err(NoResultFound)
      else if |ks| > 1 then
        assert ks[0] in ks && ks[1] in ks;
        Err(InvalidRequestError)
      else
        assert ks[0] in ks;
        assert forall j :: j in ks ==> j == ks[0];
        Ok(ks[0])
  }

  /** The id SQLite gives a new row: one more than the largest id, or 1
      for an empty table. */
  function NextId(users: seq<User>): (id: int)
    ensures forall i :: 0 <= i < |users| ==> users[i].id < id
    ensures users == [] ==> id == 1
    ensures users != [] ==> exists i :: 0 <= i < |users| && users[i].id == id - 1
  {
    if users == [] then 1
    else if |users| == 1 then users[0].id + 1
    else
      var n := |users| - 1;
      var before := NextId(users[..n]);
      assert forall i :: 0 <= i < n ==> users[..n][i] == users[i];
      if users[n].id + 1 > before then users[n].id + 1 else before
  }

  /** `setattr` for each keyword argument in turn, stopping at the first key
      that is not a column: the updated row, and the offending key if
      there was one. Keys before it have been applied. */
  function ApplyKwargs(u: User, kwargs: Kwargs): (r: (User, Option<string>))
    requires WellTyped(kwargs)
    decreases kwargs
    ensures r.1.None? <==> AllColumns(kwargs)
    ensures r.1.Some? ==>
      !IsColumn(r.1.value) &&
      exists i :: 0 <= i < |kwargs| && kwargs[i].0 == r.1.value && AllColumns(kwargs[..i])
    ensures forall key :: (forall i :: 0 <= i < |kwargs| ==> kwargs[i].0 != key) ==>
      ColumnValue(r.0, key) == ColumnValue(u, key)
  {
    if kwargs == [] then (u, None)
    else if !IsColumn(kwargs[0].0) then
      assert AllColumns(kwargs[..0]);
      (u, Some(kwargs[0].0))
    else
      var head, rest := kwargs[0], kwargs[1..];
      assert forall i :: 0 <= i < |rest| ==> rest[i] == kwargs[i + 1];
      var r := ApplyKwargs(SetColumn(u, head.0, head.1), rest);
      assert r.1.None? ==> AllColumns(kwargs);
      if r.1.Some? then
        var j :| 0 <= j < |rest| && rest[j].0 == r.1.value && AllColumns(rest[..j]);
        assert kwargs[..j + 1] == [head] + rest[..j];
        assert kwargs[j + 1].0 == r.1.value && AllColumns(kwargs[..j + 1]);
        r
      else
        r
  }

  /** The longest prefix of the keyword arguments that names only columns:
      the part `update_user` applies. */
  function ColumnPrefix(kwargs: Kwargs): (p: Kwargs)
    ensures |p| <= |kwargs| && p == kwargs[..|p|]
    ensures AllColumns(p)
    ensures |p| < |kwargs| ==> !IsColumn(kwargs[|p|].0)
  {
    if kwargs == [] || !IsColumn(kwargs[0].0) then []
    else
      var rest := ColumnPrefix(kwargs[1..]);
      assert forall i :: 0 < i <= |rest| ==> kwargs[i] == kwargs[1..][i - 1];
      [kwargs[0]] + rest
  }

  /** The value the last argument for `key` gives, if any. */
  function LastValue(kwargs: Kwargs, key: string): Option<Value> {
    if kwargs == [] then None
    else match LastValue(kwargs[1..], key)
      case Some(v) => Some(v)
      case None => if kwargs[0].0 == key then Some(kwargs[0].1) else None
  }

  /** What `update_user`'s loop leaves: the offending key is the first one
      that is not a column (none when all are columns); every column
      assigned before it holds the last value given for it, and every
      other column keeps its own value. */
  lemma {:induction false} ApplyKwargsEffect(u: User, kwargs: Kwargs, key: string)
    requires WellTyped(kwargs)
    decreases kwargs
    ensures ApplyKwargs(u, kwargs).1 ==
      if |ColumnPrefix(kwargs)| == |kwargs| then None else Some(kwargs[|ColumnPrefix(kwargs)|].0)
    ensures ColumnValue(ApplyKwargs(u, kwargs).0, key) ==
      match LastValue(ColumnPrefix(kwargs), key)
      case Some(v) => Some(v)
      case None => ColumnValue(u, key)
  {
    if kwargs != [] && IsColumn(kwargs[0].0) {
      var w := SetColumn(u, kwargs[0].0, kwargs[0].1);
      assert WellTyped(kwargs[1..]) by {
        assert forall i :: 0 <= i < |kwargs| - 1 ==> kwargs[1..][i] == kwargs[i + 1];
      }
      ApplyKwargsEffect(w, kwargs[1..], key);
      var p := ColumnPrefix(kwargs);
      assert p == [kwargs[0]] + ColumnPrefix(kwargs[1..]);
      assert p[1..] == ColumnPrefix(kwargs[1..]);
      if |ColumnPrefix(kwargs[1..])| < |kwargs[1..]| {
        assert kwargs[|p|] == kwargs[1..][|ColumnPrefix(kwargs[1..])|];
      }
    }
  }

  /** With distinct keys that are all columns, `update_user` sets exactly
      the named columns to their values and leaves the rest. */
  lemma ApplyDistinctColumns(u: User, kwargs: Kwargs, i: nat, other: string)
    requires WellTyped(kwargs) && AllColumns(kwargs)
    requires forall a, b :: 0 <= a < b < |kwargs| ==> kwargs[a].0 != kwargs[b].0
    requires i < |kwargs|
    requires forall a :: 0 <= a < |kwargs| ==> kwargs[a].0 != other
    ensures ApplyKwargs(u, kwargs).1.None?
    ensures ColumnValue(ApplyKwargs(u, kwargs).0, kwargs[i].0) == Some(kwargs[i].1)
    ensures ColumnValue(ApplyKwargs(u, kwargs).0, other) == ColumnValue(u, other)
  {
    AllColumnsPrefix(kwargs);
    ApplyKwargsEffect(u, kwargs, kwargs[i].0);
    ApplyKwargsEffect(u, kwargs, other);
    LastValueOfDistinct(kwargs, i);
    LastValueOfAbsent(kwargs, other);
  }

  lemma {:induction false} AllColumnsPrefix(kwargs: Kwargs)
    requires AllColumns(kwargs)
    ensures ColumnPrefix(kwargs) == kwargs
  {
    if kwargs != [] {
      assert AllColumns(kwargs[1..]) by {
        assert forall i :: 0 <= i < |kwargs| - 1 ==> kwargs[1..][i] == kwargs[i + 1];
      }
      AllColumnsPrefix(kwargs[1..]);
      assert [kwargs[0]] + kwargs[1..] == kwargs;
    }
  }

  lemma {:induction false} LastValueOfDistinct(kwargs: Kwargs, i: nat)
    requires forall a, b :: 0 <= a < b < |kwargs| ==> kwargs[a].0 != kwargs[b].0
    requires i < |kwargs|
    ensures LastValue(kwargs, kwargs[i].0) == Some(kwargs[i].1)
  {
    var rest := kwargs[1..];
    assert forall a :: 0 <= a < |rest| ==> rest[a] == kwargs[a + 1];
    if i == 0 {
      LastValueOfAbsent(rest, kwargs[0].0);
    } else {
      LastValueOfDistinct(rest, i - 1);
    }
  }

  lemma {:induction false} LastValueOfAbsent(kwargs: Kwargs, key: string)
    requires forall a :: 0 <= a < |kwargs| ==> kwargs[a].0 != key
    ensures LastValue(kwargs, key).None?
  {
    if kwargs != [] {
      var rest := kwargs[1..];
      assert forall a :: 0 <= a < |rest| ==> rest[a] == kwargs[a + 1];
      LastValueOfAbsent(rest, key);
    }
  }

  /** A new row is found by its id. */
  lemma AddedUserFoundById(users: seq<User>, email: string, hashedPassword: string)
    ensures
      var added := User(NextId(users), email, hashedPassword, None, None);
      Locate(users + [added], [("id", IntValue(added.id))]) == Ok(|users|)
  {
    var added := User(NextId(users), email, hashedPassword, None, None);
    var table := users + [added];
    var filters := [("id", IntValue(added.id))];
    assert AllColumns(filters);
    assert Satisfies(table[|users|], filters);
    forall j | 0 <= j < |users|
      ensures !Satisfies(table[j], filters)
    {
      assert table[j] == users[j];
      assert ColumnValue(table[j], filters[0].0) != Some(filters[0].1);
    }
    var r := Locate(table, filters);
    assert r != Err(NoResultFound);
    assert r != Err(InvalidRequestError);
  }

  /** `add_user` does not check that the email is new: after two users are
      added with the same email, finding a user by that email raises
      `InvalidRequestError`. */
  lemma DuplicateEmailIsAmbiguous(users: seq<User>, email: string, first: string, second: string)
    ensures
      var once := users + [User(NextId(users), email, first, None, None)];
      var twice := once + [User(NextId(once), email, second, None, None)];
      Locate(twice, [("email", StrValue(email))]) == Err(InvalidRequestError)
  {
    var once := users + [User(NextId(users), email, first, None, None)];
    var twice := once + [User(NextId(once), email, second, None, None)];
    var filters := [("email", StrValue(email))];
    var i, j := |users|, |users| + 1;
    assert Satisfies(twice[i], filters) && Satisfies(twice[j], filters);
  }

  /** The `users` table of `DB`. */
  class DB {
    var users: seq<User>

    /** `__init__`: the table is dropped and created again, so it is empty. */
    constructor ()
      ensures users == []
    {
      users := [];
    }

    /** `add_user(email, hashed_password)`: one new row with those values,
        a fresh id and no session id or reset token, added after the
        existing rows, which are untouched; the new row is returned. There
        is no check that the email is new. */
    method AddUser(email: string, hashedPassword: string) returns (user: User)
      modifies this
      ensures user == User(NextId(old(users)), email, hashedPassword, None, None)
      ensures forall i :: 0 <= i < |old(users)| ==> old(users)[i].id != user.id
      ensures users == old(users) + [user]
    {
      user := User(NextId(users), email, hashedPassword, None, None);
      users := users + [user];
    }

    /** `find_user_by(**filters)`: the one row matching every filter, or
        the exception `Locate` names. */
    method FindUserBy(filters: Kwargs) returns (r: Result<User, DbError>)
      ensures r.Ok? <==> Locate(users, filters).Ok?
      ensures r.Ok? ==> r.value == users[Locate(users, filters).value]
      ensures r.Err? ==> r.error == Locate(users, filters).error
    {
      var found := Locate(users, filters);
      if found.Err? {
        return Err(found.error);
      }
      return Ok(users[found.value]);
    }

    /** `update_user(user_id, **kwargs)`. An id no row has raises
        `ValueError` and changes nothing. Otherwise the arguments are
        applied to that row one by one, in argument order; the first key
        that is not a column raises `ValueError`, and the columns set
        before it stay set. */
    method UpdateUser(userId: int, kwargs: Kwargs) returns (r: Result<(), DbError>)
      requires WellTyped(kwargs)
      modifies this
      ensures var found := Locate(old(users), [("id", IntValue(userId))]);
        && (found == Err(NoResultFound) ==> r == Err(ValueError(NoSuchUser(userId))) && users == old(users))
        && (found == Err(InvalidRequestError) ==> r == Err(InvalidRequestError) && users == old(users))
        && (found.Ok? ==>
              var (updated, badKey) := ApplyKwargs(old(users)[found.value], kwargs);
              && users == old(users)[found.value := updated]
              && r == if badKey.None? then Ok(()) else Err(ValueError(InvalidAttribute(badKey.value))))
    {
      var found := Locate(users, [("id", IntValue(userId))]);
      if found.Err? {
        if found.error == NoResultFound {
          return Err(ValueError(NoSuchUser(userId)));
        }
        return Err(found.error);
      }
      var k := found.value;
      var user := users[k];
      var i := 0;
      while i < |kwargs|
        invariant 0 <= i <= |kwargs|
        invariant WellTyped(kwargs[i..])
        invariant ApplyKwargs(user, kwargs[i..]) == ApplyKwargs(old(users)[k], kwargs)
        invariant users == old(users)[k := user]
      {
        var (key, value) := kwargs[i];
        assert kwargs[i..][1..] == kwargs[i + 1..];
        if !IsColumn(key) {
          return Err(ValueError(InvalidAttribute(key)));
        }
        user := SetColumn(user, key, value);
        users := users[k := user];
        i := i + 1;
      }
      return Ok(());
    }
  }
}
