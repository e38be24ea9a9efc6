/** The session login and logout views of the Session-authentication API. */
module SessionViews {
  import opened Wrappers
  import opened Models
  import opened SessionDb
  import opened Search

  /** The index of the first user with the given email, as
      `User.search({'email': email})[0]` picks it from the stored users. */
  function FirstWithEmail(users: seq<User>, email: string): (index: Option<nat>)
    ensures index.Some? ==> index.value < |users| && users[index.value].email == email
    ensures index.Some? ==> forall j :: 0 <= j < index.value ==> users[j].email != email
    ensures index.None? ==> forall j :: 0 <= j < |users| ==> users[j].email != email
  {
    FirstWhere(users, (user: User) => user.email == email)
  }

  /** The JSON error body and status `login` answers with when it refuses. */
  datatype LoginError = LoginError(status: int, message: string)

  /** The checks of `login`, in order: the email form field, the password form
      field, a user with that email, then that user's password. The first
      failing check decides the answer. `isValidPassword` stands for
      `User.is_valid_password`. */
  function LoginDecision(email: Option<string>, password: Option<string>, users: seq<User>,
                         isValidPassword: (User, string) -> bool): (decision: Result<User, LoginError>)
    ensures decision.Success? ==>
              email.Some? && password.Some? && password.value != [] &&
              decision.value.email == email.value && decision.value in users &&
              isValidPassword(decision.value, password.value)
    ensures decision.Failure? ==> decision.error.status in {400, 401, 404}
  {
    if email.None? || email.value == [] then Failure(LoginError(400, "email missing"))
    else if password.None? || password.value == [] then Failure(LoginError(400, "password missing"))
    else
      match FirstWithEmail(users, email.value)
      case None => Failure(LoginError(404, "no user found for this email"))
      case Some(i) =>
        if !isValidPassword(users[i], password.value) then Failure(LoginError(401, "wrong password"))
        else Success(users[i])
  }

  /** A missing email is reported first, before the password is looked at. */
  lemma MissingEmailFirst(email: Option<string>, password: Option<string>, users: seq<User>,
                          isValidPassword: (User, string) -> bool)
    requires email.None? || email.value == []
    ensures LoginDecision(email, password, users, isValidPassword) == Failure(LoginError(400, "email missing"))
  {
  }

  /** With an email present, a missing password is reported before any lookup. */
  lemma MissingPasswordSecond(email: string, password: Option<string>, users: seq<User>,
                              isValidPassword: (User, string) -> bool)
    requires email != [] && (password.None? || password.value == [])
    ensures LoginDecision(Some(email), password, users, isValidPassword) == Failure(LoginError(400, "password missing"))
  {
  }

  /** With both fields present, an unknown email gives 404. */
  lemma UnknownEmailNotFound(email: string, password: string, users: seq<User>,
                             isValidPassword: (User, string) -> bool)
    requires email != [] && password != []
    requires forall u :: u in users ==> u.email != email
    ensures LoginDecision(Some(email), Some(password), users, isValidPassword).Failure?
    ensures LoginDecision(Some(email), Some(password), users, isValidPassword).error.status == 404
  {
  }

  /** Otherwise the first user with that email is the one whose password is
      checked: a wrong password gives 401, a right one logs that user in. */
  lemma FirstUserDecides(email: string, password: string, users: seq<User>,
                         isValidPassword: (User, string) -> bool, index: nat)
    requires email != [] && password != []
    requires index < |users| && users[index].email == email
    requires forall j :: 0 <= j < index ==> users[j].email != email
    ensures LoginDecision(Some(email), Some(password), users, isValidPassword) ==
              if isValidPassword(users[index], password) then Success(users[index])
              else Failure(LoginError(401, "wrong password"))
  {
  }

  /** What `login` answers: an error body with its status, or the user's JSON
      with the session cookie set to `sessionCookie`. */
  datatype LoginResponse = Rejected(error: LoginError) | LoggedIn(user: User, sessionCookie: Option<string>)

  /** `login`, with the session created in the `SessionDBAuth` store; `freshId`
      is the id the store mints and `now` the current time. A refusal leaves the
      store as it was; a success adds exactly one session, owned by the user,
      and sets the cookie to its id. */
  method Login(store: SessionDBAuth, email: Option<string>, password: Option<string>, users: seq<User>,
               isValidPassword: (User, string) -> bool, freshId: string, now: int)
    returns (response: LoginResponse)
    modifies store
    ensures var decision := LoginDecision(email, password, users, isValidPassword);
            (decision.Failure? ==> response == Rejected(decision.error) && store.sessions == old(store.sessions)) &&
            (decision.Success? ==>
               response == LoggedIn(decision.value, Some(freshId)) &&
               store.sessions == old(store.sessions) + [UserSession(freshId, decision.value.id, Some(now))])
  {
    var decision := LoginDecision(email, password, users, isValidPassword);
    if decision.Failure? {
      return Rejected(decision.error);
    }
    var user := decision.value;
    var sessionId := store.CreateSession(Some(user.id), freshId, now);
    return LoggedIn(user, sessionId);
  }

  /** What `logout` answers: `{}` with 200, or a failure. */
  datatype LogoutResponse = LoggedOut | NotLoggedOut

  /** `logout`: succeeds exactly when there is a request and a non-empty cookie
      naming a live session with a non-empty owner; the first record with that
      id is then removed, and nothing else changes. */
  method Logout(store: SessionDBAuth, request: Option<Request>, sessionCookie: Option<string>, now: int)
    returns (response: LogoutResponse)
    modifies store
    ensures response == LoggedOut <==>
              request.Some? && sessionCookie.Some? && sessionCookie.value != [] &&
              old(store.UserIdForSessionId(sessionCookie.value, now)).Some? &&
              old(store.UserIdForSessionId(sessionCookie.value, now)).value != []
    ensures response == LoggedOut ==>
              var i := FirstSession(old(store.sessions), sessionCookie.value);
              i.Some? && store.sessions == RemoveAt(old(store.sessions), i.value)
    ensures response == LoggedOut && UniqueIds(old(store.sessions)) ==>
              forall t :: store.UserIdForSessionId(sessionCookie.value, t) == None
    ensures response == NotLoggedOut ==> store.sessions == old(store.sessions)
  {
    var destroyed := store.DestroySession(request, sessionCookie, now);
    if destroyed {
      return LoggedOut;
    }
    return NotLoggedOut;
  }
}
