/** The `DB` class of the user authentication service: an in-memory `users`
    table with an append and a filtered lookup. */
module UserDb {
  import opened Wrappers
  import opened Search

  /** A row of the `users` table. */
  datatype User = User(id: nat, email: string, hashedPassword: string,
                       sessionId: Option<string>, resetToken: Option<string>)

  /** A value a filter compares a column with; `Null` is SQL NULL (Python None). */
  datatype Value = Int(n: int) | Str(s: string) | Null

  /** The exceptions `find_user_by` raises. */
  datatype DbError = InvalidRequestError | NoResultFound

  /** The column names `find_user_by` accepts as filter keys. */
  const ValidKeys: seq<string> := ["id", "email", "hashed_password", "session_id", "reset_token"]

  function OptionValue(column: Option<string>): Value {
    if column.Some? then Str(column.value) else Null
  }

  /** The value of the named column of a row. */
  function Column(user: User, key: string): Value
    requires key in ValidKeys
  {
    if key == "id" then Int(user.id)
    else if key == "email" then Str(user.email)
    else if key == "hashed_password" then Str(user.hashedPassword)
    else if key == "session_id" then OptionValue(user.sessionId)
    else OptionValue(user.resetToken)
  }

  /** Every filter key is a column name. */
  predicate ValidFilters(filters: seq<(string, Value)>) {
    forall i :: 0 <= i < |filters| ==> filters[i].0 in ValidKeys
  }

  /** `filter_by(**kwargs)`: the row satisfies every filter. */
  predicate Matches(user: User, filters: seq<(string, Value)>)
    requires ValidFilters(filters)
  {
    forall i :: 0 <= i < |filters| ==> Column(user, filters[i].0) == filters[i].1
  }

  /** `query(User).filter_by(**kwargs).first()`: the index of the first
      matching row in table order. */
  function FirstMatch(users: seq<User>, filters: seq<(string, Value)>): (index: Option<nat>)
    requires ValidFilters(filters)
    ensures index.Some? ==> index.value < |users| && Matches(users[index.value], filters)
    ensures index.Some? ==> forall j :: 0 <= j < index.value ==> !Matches(users[j], filters)
    ensures index.None? ==> forall j :: 0 <= j < |users| ==> !Matches(users[j], filters)
  {
    FirstWhere(users, (user: User) => Matches(user, filters))
  }

  /** Round trip: a row appended with email `e` is found by `email=e`, either
      that row or an earlier one with the same email. */
  lemma FindByEmailAfterAdd(users: seq<User>, added: User)
    ensures var filters := [("email", Str(added.email))];
            ValidFilters(filters) &&
            FirstMatch(users + [added], filters).Some? &&
            (users + [added])[FirstMatch(users + [added], filters).value].email == added.email
  {
    var filters := [("email", Str(added.email))];
    var all := users + [added];
    assert Matches(all[|users|], filters);
    var m := FirstMatch(all, filters).value;
    assert Column(all[m], filters[0].0) == filters[0].1;
  }

  class DB {
    /** The `users` table, in insertion order. */
    var users: seq<User>

    /** Ids are assigned by the table's autoincrement: 1, 2, 3, ... */
    ghost predicate Valid()
      reads this
    {
      forall i :: 0 <= i < |users| ==> users[i].id == i + 1
    }

    /** `__init__`: the table is dropped and created again, so it starts empty. */
    constructor ()
      ensures Valid() && users == []
    {
      users := [];
    }

    /** `add_user`: one row with the given email and hashed password and the
        next id is appended and returned; the existing rows are untouched. */
    method AddUser(email: string, hashedPassword: string) returns (user: User)
      requires Valid()
      modifies this
      ensures Valid()
      ensures user == User(|old(users)| + 1, email, hashedPassword, None, None)
      ensures users == old(users) + [user]
    {
      user := User(|users| + 1, email, hashedPassword, None, None);
      users := users + [user];
    }

    /** `find_user_by(**kwargs)`: any key outside the whitelist raises
        InvalidRequestError, whether or not a row would match; otherwise the
        first row satisfying every filter is returned, and NoResultFound is
        raised when there is none. */
    method FindUserBy(filters: seq<(string, Value)>) returns (result: Result<User, DbError>)
      ensures result == Failure(InvalidRequestError) <==> !ValidFilters(filters)
      ensures result == Failure(NoResultFound) <==>
                ValidFilters(filters) && forall j :: 0 <= j < |users| ==> !Matches(users[j], filters)
      ensures result.Success? ==>
                ValidFilters(filters) &&
                exists i :: 0 <= i < |users| && users[i] == result.value && Matches(users[i], filters) &&
                  forall j :: 0 <= j < i ==> !Matches(users[j], filters)
    {
      for k := 0 to |filters|
        invariant forall i :: 0 <= i < k ==> filters[i].0 in ValidKeys
      {
        if filters[k].0 !in ValidKeys {
          return Failure(InvalidRequestError);
        }
      }
      var found := FirstMatch(users, filters);
      if found.None? {
        return Failure(NoResultFound);
      }
      return Success(users[found.value]);
    }
  }
}
