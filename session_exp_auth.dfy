/** `SessionExpAuth`: an in-memory session store whose entries expire lazily. */
module SessionExpiry {
  import opened Wrappers

  /** The dictionary stored per session id: the owner, and the creation time in
      seconds. Either key may be absent from a dictionary the store holds. */
  datatype SessionDict = SessionDict(userId: Option<string>, createdAt: Option<int>)

  /** The `SESSION_DURATION` setting as `__init__` reads it: a value that is
      missing or not an integer (None) gives 0, which disables expiry. */
  function DurationFromSetting(setting: Option<int>): (duration: int)
    ensures setting.None? ==> duration == 0
    ensures setting.Some? ==> duration == setting.value
  {
    if setting.Some? then setting.value else 0
  }

  /** The lazy expiry rule shared by both session stores: with a duration of
      zero or less a session never expires; otherwise it is alive while it has
      a creation time and `now` is not past creation time plus duration. */
  predicate StillValid(createdAt: Option<int>, duration: int, now: int) {
    duration <= 0 || (createdAt.Some? && now <= createdAt.value + duration)
  }

  /** Once a session has expired it stays expired as time moves on. */
  lemma ExpiryIsPermanent(createdAt: Option<int>, duration: int, earlier: int, later: int)
    requires earlier <= later && !StillValid(createdAt, duration, earlier)
    ensures !StillValid(createdAt, duration, later)
  {
  }

  class SessionExpAuth {
    /** `user_id_by_session_id`: session id to its dictionary. */
    var userIdBySessionId: map<string, SessionDict>
    /** `session_duration` in seconds. */
    const sessionDuration: int

    /** Every dictionary this store writes carries a creation time. */
    ghost predicate Valid()
      reads this
    {
      forall sid :: sid in userIdBySessionId ==> userIdBySessionId[sid].createdAt.Some?
    }

    /** `__init__`: an empty store and the configured duration. */
    constructor (durationSetting: Option<int>)
      ensures Valid()
      ensures userIdBySessionId == map[]
      ensures sessionDuration == DurationFromSetting(durationSetting)
    {
      userIdBySessionId := map[];
      sessionDuration := DurationFromSetting(durationSetting);
    }

    /** `user_id_for_session_id` at time `now`: a pure read of the store. */
    function UserIdForSessionId(sessionId: string, now: int): (userId: Option<string>)
      reads this
      ensures userId.Some? ==> sessionId in userIdBySessionId && userIdBySessionId[sessionId].userId == userId
    {
      if sessionId !in userIdBySessionId then None
      else
        var dict := userIdBySessionId[sessionId];
        if StillValid(dict.createdAt, sessionDuration, now) then dict.userId else None
    }

    /** `create_session`: `parentSessionId` is what the parent class's
        `create_session` answered for `userId`. Without a (non-empty) id nothing
        is stored; otherwise the id is mapped to the owner and the time `now`. */
    method CreateSession(userId: Option<string>, parentSessionId: Option<string>, now: int)
      returns (sessionId: Option<string>)
      requires Valid()
      modifies this
      ensures Valid()
      ensures parentSessionId.None? || parentSessionId.value == [] ==>
                sessionId == None && userIdBySessionId == old(userIdBySessionId)
      ensures parentSessionId.Some? && parentSessionId.value != [] ==>
                sessionId == parentSessionId &&
                userIdBySessionId == old(userIdBySessionId)[parentSessionId.value := SessionDict(userId, Some(now))]
      ensures sessionId.Some? ==> UserIdForSessionId(sessionId.value, now) == userId
    {
      if parentSessionId.None? || parentSessionId.value == [] {
        return None;
      }
      var sid := parentSessionId.value;
      userIdBySessionId := userIdBySessionId[sid := SessionDict(userId, Some(now))];
      return Some(sid);
    }
  }

  /** Every entry of a store kept by its own methods has a creation time, so
      the lookup answers the stored owner exactly until `created_at + duration`
      (for ever when the duration is not positive), and None afterwards. */
  lemma StoredSessionLifetime(store: SessionExpAuth, sessionId: string, now: int)
    requires store.Valid() && sessionId in store.userIdBySessionId
    ensures var dict := store.userIdBySessionId[sessionId];
            store.UserIdForSessionId(sessionId, now) ==
              if store.sessionDuration > 0 && now > dict.createdAt.value + store.sessionDuration then None
              else dict.userId
  {
  }

  /** An id the store does not hold has no owner. */
  lemma UnknownSessionHasNoUser(store: SessionExpAuth, sessionId: string, now: int)
    requires sessionId !in store.userIdBySessionId
    ensures store.UserIdForSessionId(sessionId, now) == None
  {
  }

  /** With a duration of zero or less the stored owner is returned however old the entry is. */
  lemma UnboundedSessionsNeverExpire(store: SessionExpAuth, sessionId: string, now: int)
    requires store.sessionDuration <= 0 && sessionId in store.userIdBySessionId
    ensures store.UserIdForSessionId(sessionId, now) == store.userIdBySessionId[sessionId].userId
  {
  }

  /** With a positive duration an entry without a creation time is refused. */
  lemma MissingCreationTimeRefused(store: SessionExpAuth, sessionId: string, now: int)
    requires store.sessionDuration > 0 && sessionId in store.userIdBySessionId
    requires store.userIdBySessionId[sessionId].createdAt.None?
    ensures store.UserIdForSessionId(sessionId, now) == None
  {
  }

  /** With a positive duration the owner is returned exactly until
      `created_at + duration`, that instant included. */
  lemma LookupExpiresAfterDuration(store: SessionExpAuth, sessionId: string, now: int)
    requires store.sessionDuration > 0 && sessionId in store.userIdBySessionId
    requires store.userIdBySessionId[sessionId].createdAt.Some?
    ensures var dict := store.userIdBySessionId[sessionId];
            store.UserIdForSessionId(sessionId, now) ==
              if now > dict.createdAt.value + store.sessionDuration then None else dict.userId
  {
  }

  /** With a 60-second duration, a session created at `t0` answers at `t0 + 59` and at `t0 + 60`, and is refused at `t0 + 61`. */
  lemma SixtySecondExample(store: SessionExpAuth, sessionId: string, user: string, t0: int)
    requires store.sessionDuration == 60
    requires sessionId in store.userIdBySessionId
    requires store.userIdBySessionId[sessionId] == SessionDict(Some(user), Some(t0))
    ensures store.UserIdForSessionId(sessionId, t0 + 59) == Some(user)
    ensures store.UserIdForSessionId(sessionId, t0 + 60) == Some(user)
    ensures store.UserIdForSessionId(sessionId, t0 + 61) == None
  {
  }
}
