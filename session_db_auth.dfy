/** `SessionDBAuth`: sessions kept as a table of `UserSession` records, with the
    same lazy expiry as the in-memory store. */
module SessionDb {
  import opened Wrappers
  import opened Models
  import opened SessionExpiry
  import opened Search

  /** A `UserSession` record: its session id, its owner and its creation time
      (None when the record carries no usable creation time). */
  datatype UserSession = UserSession(sessionId: string, userId: string, createdAt: Option<int>)

  /** The index of the first record with the given session id, as
      `UserSession.search({'session_id': ...})[0]` picks it. */
  function FirstSession(sessions: seq<UserSession>, sessionId: string): (index: Option<nat>)
    ensures index.Some? ==> index.value < |sessions| && sessions[index.value].sessionId == sessionId
    ensures index.Some? ==> forall j :: 0 <= j < index.value ==> sessions[j].sessionId != sessionId
    ensures index.None? ==> forall j :: 0 <= j < |sessions| ==> sessions[j].sessionId != sessionId
  {
    FirstWhere(sessions, (record: UserSession) => record.sessionId == sessionId)
  }

  /** The table without its record at `index`. */
  function RemoveAt(sessions: seq<UserSession>, index: nat): (rest: seq<UserSession>)
    requires index < |sessions|
    ensures |rest| == |sessions| - 1
    ensures forall j :: 0 <= j < index ==> rest[j] == sessions[j]
    ensures forall j :: index < j < |sessions| ==> rest[j - 1] == sessions[j]
  {
    sessions[..index] + sessions[index + 1..]
  }

  /** No two records share a session id. */
  predicate UniqueIds(sessions: seq<UserSession>) {
    forall i, j :: 0 <= i < j < |sessions| ==> sessions[i].sessionId != sessions[j].sessionId
  }

  /** Removing the one record with an id from a table of distinct ids leaves
      distinct ids and no record with that id. */
  lemma RemoveOnlyMatch(sessions: seq<UserSession>, index: nat)
    requires UniqueIds(sessions) && index < |sessions|
    ensures UniqueIds(RemoveAt(sessions, index))
    ensures FirstSession(RemoveAt(sessions, index), sessions[index].sessionId).None?
  {
    var rest := RemoveAt(sessions, index);
    forall j | 0 <= j < |rest|
      ensures rest[j].sessionId != sessions[index].sessionId
    {
      if j < index { assert rest[j] == sessions[j]; } else { assert rest[j] == sessions[j + 1]; }
    }
    forall i, j | 0 <= i < j < |rest|
      ensures rest[i].sessionId != rest[j].sessionId
    {
      var i' := if i < index then i else i + 1;
      var j' := if j < index then j else j + 1;
      assert rest[i] == sessions[i'] && rest[j] == sessions[j'];
    }
  }

  class SessionDBAuth {
    /** The `UserSession` table, in storage order. */
    var sessions: seq<UserSession>
    /** `session_duration` in seconds, as `SessionExpAuth.__init__` sets it. */
    const sessionDuration: int

    /** The inherited `__init__`, over an empty table. */
    constructor (durationSetting: Option<int>)
      ensures sessions == []
      ensures sessionDuration == DurationFromSetting(durationSetting)
    {
      sessions := [];
      sessionDuration := DurationFromSetting(durationSetting);
    }

    /** `user_id_for_session_id` at time `now`: the first record with the id,
        subject to the expiry rule of `SessionExpAuth`. */
    function UserIdForSessionId(sessionId: string, now: int): (userId: Option<string>)
      reads this
      ensures userId.Some? ==> FirstSession(sessions, sessionId).Some?
    {
      match FirstSession(sessions, sessionId)
      case None => None
      case Some(i) =>
        if StillValid(sessions[i].createdAt, sessionDuration, now) then Some(sessions[i].userId) else None
    }

    /** `create_session`: a non-string `userId` (None) stores nothing; otherwise
        one record with the fresh id `freshId` (what `uuid4` produced) and
        creation time `now` is appended and the id returned. */
    method CreateSession(userId: Option<string>, freshId: string, now: int) returns (sessionId: Option<string>)
      modifies this
      ensures userId.None? ==> sessionId == None && sessions == old(sessions)
      ensures userId.Some? ==>
                sessionId == Some(freshId) &&
                sessions == old(sessions) + [UserSession(freshId, userId.value, Some(now))]
      ensures userId.Some? && FirstSession(old(sessions), freshId).None? ==>
                UserIdForSessionId(freshId, now) == userId
      ensures UniqueIds(old(sessions)) && FirstSession(old(sessions), freshId).None? ==> UniqueIds(sessions)
    {
      if userId.None? {
        return None;
      }
      var record := UserSession(freshId, userId.value, Some(now));
      sessions := sessions + [record];
      assert sessions[|sessions| - 1] == record;
      return Some(freshId);
    }

    /** `destroy_session`: `sessionCookie` is what `session_cookie(request)`
        answered. The first record with that id is removed, and True returned,
        only when there is a request, a non-empty cookie value, and the session
        currently resolves to a non-empty user id; otherwise nothing changes. */
    method DestroySession(request: Option<Request>, sessionCookie: Option<string>, now: int)
      returns (destroyed: bool)
      modifies this
      ensures destroyed <==>
                request.Some? && sessionCookie.Some? && sessionCookie.value != [] &&
                old(UserIdForSessionId(sessionCookie.value, now)).Some? &&
                old(UserIdForSessionId(sessionCookie.value, now)).value != []
      ensures !destroyed ==> sessions == old(sessions)
      ensures destroyed ==>
                var i := FirstSession(old(sessions), sessionCookie.value);
                i.Some? && sessions == RemoveAt(old(sessions), i.value)
      ensures destroyed && UniqueIds(old(sessions)) ==>
                UniqueIds(sessions) && forall t :: UserIdForSessionId(sessionCookie.value, t) == None
    {
      if request.None? {
        return false;
      }
      if sessionCookie.None? || sessionCookie.value == [] {
        return false;
      }
      var sessionId := sessionCookie.value;
      var userId := UserIdForSessionId(sessionId, now);
      if userId.None? || userId.value == [] {
        return false;
      }
      var i := FirstSession(sessions, sessionId).value;
      if UniqueIds(sessions) {
        RemoveOnlyMatch(sessions, i);
      }
      sessions := RemoveAt(sessions, i);
      return true;
    }
  }

  /** Lookup goes by the first record with the id: an id with no record has no
      owner, and otherwise that record's owner is returned while it is alive. */
  lemma LookupUsesFirstRecord(store: SessionDBAuth, sessionId: string, index: nat, now: int)
    requires index < |store.sessions| && store.sessions[index].sessionId == sessionId
    requires forall j :: 0 <= j < index ==> store.sessions[j].sessionId != sessionId
    ensures store.UserIdForSessionId(sessionId, now) ==
              if StillValid(store.sessions[index].createdAt, store.sessionDuration, now)
              then Some(store.sessions[index].userId) else None
  {
  }

  /** An id that no record carries has no owner. */
  lemma UnknownSessionHasNoUser(store: SessionDBAuth, sessionId: string, now: int)
    requires forall j :: 0 <= j < |store.sessions| ==> store.sessions[j].sessionId != sessionId
    ensures store.UserIdForSessionId(sessionId, now) == None
  {
  }

  /** An expired session cannot be destroyed: its lookup already answers None. */
  lemma ExpiredSessionResolvesToNone(store: SessionDBAuth, sessionId: string, index: nat, now: int)
    requires index < |store.sessions| && store.sessions[index].sessionId == sessionId
    requires forall j :: 0 <= j < index ==> store.sessions[j].sessionId != sessionId
    requires store.sessionDuration > 0
    requires store.sessions[index].createdAt.None? ||
             now > store.sessions[index].createdAt.value + store.sessionDuration
    ensures store.UserIdForSessionId(sessionId, now) == None
  {
    LookupUsesFirstRecord(store, sessionId, index, now);
  }
}
