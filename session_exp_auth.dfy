/** Session authentication with lazy expiry (0x02 `session_exp_auth.py`):
    an in-memory table from session id to the owning user and the
    creation time, and a lookup that treats an entry as expired once the
    configured number of seconds has passed. Time is whole seconds, given
    by the caller as `now`. */
module SessionExp {
  import opened Wrappers
  import PyInt

  /** One entry of `user_id_by_session_id`. `createdAt` is None for an
      entry without a `created_at` key. */
  datatype SessionData = SessionData(userId: Option<string>, createdAt: Option<int>)

  type SessionTable = map<string, SessionData>

  /** The `SESSION_DURATION` setting as `__init__` reads it: the integer
      `int()` makes of it, or 0 when it is not set or not an integer. */
  function ParseDuration(setting: Option<string>): (seconds: int)
    ensures setting.None? ==> seconds == 0
    ensures setting.Some? && PyInt.ParseInt(setting.value).None? ==> seconds == 0
    ensures setting.Some? && PyInt.ParseInt(setting.value).Some? ==> seconds == PyInt.ParseInt(setting.value).value
  {
    if setting.None? then 0
    else match PyInt.ParseInt(setting.value)
      case None => 0
      case Some(n) => n
  }

  /** A setting written as the decimal form of `n` configures exactly `n`
      seconds. */
  lemma ParseDurationOfDecimal(n: int)
    ensures ParseDuration(Some(PyInt.Show(n))) == n
  {
    PyInt.ParseIntOfShow(n);
  }

  /** `user_id_for_session_id(session_id)` over a table, a duration and a
      clock reading: no user for a missing or unknown id or an entry
      without a creation time; with a duration of at most 0 the stored
      user whatever the time; with a positive duration `d` the stored user
      until `createdAt + d` inclusive and no user once `createdAt + d < now`. */
  function Resolve(table: SessionTable, duration: int, sessionId: Option<string>, now: int): (userId: Option<string>)
    ensures sessionId.None? ==> userId.None?
    ensures sessionId.Some? && sessionId.value !in table ==> userId.None?
    ensures sessionId.Some? && sessionId.value in table && table[sessionId.value].createdAt.None? ==> userId.None?
    ensures userId.Some? ==> sessionId.Some? && sessionId.value in table && userId == table[sessionId.value].userId
    ensures sessionId.Some? && sessionId.value in table && table[sessionId.value].createdAt.Some? ==>
      var entry := table[sessionId.value];
      (duration <= 0 ==> userId == entry.userId) &&
      (duration > 0 && now <= entry.createdAt.value + duration ==> userId == entry.userId) &&
      (duration > 0 && entry.createdAt.value + duration < now ==> userId.None?)
  {
    if sessionId.None? || sessionId.value !in table then None
    else
      var entry := table[sessionId.value];
      if entry.createdAt.None? then None
      else if duration <= 0 then entry.userId
      else if entry.createdAt.value + duration < now then None
      else entry.userId
  }

  /** Recording `userId` under `sessionId` at time `created` makes a lookup
      of that id return `userId` at every later reading up to and
      including `created + duration` (at every reading when
      `duration <= 0`), and no user after that. */
  lemma ResolveAfterRecord(table: SessionTable, duration: int, sessionId: string, userId: Option<string>, created: int, now: int)
    ensures Resolve(table[sessionId := SessionData(userId, Some(created))], duration, Some(sessionId), now) ==
            if duration <= 0 || now <= created + duration then userId else None
  {
  }

  /** Recording one id leaves what every other id resolves to unchanged. */
  lemma ResolveOtherIdsAfterRecord(table: SessionTable, duration: int, sessionId: string, entry: SessionData, other: string, now: int)
    requires other != sessionId
    ensures Resolve(table[sessionId := entry], duration, Some(other), now) == Resolve(table, duration, Some(other), now)
  {
  }

  /** Expiry is final: an entry that resolves to no user at one time
      resolves to no user at every later time. */
  lemma ExpiredStaysExpired(table: SessionTable, duration: int, sessionId: Option<string>, now: int, later: int)
    requires now <= later
    requires Resolve(table, duration, sessionId, now).None?
    ensures Resolve(table, duration, sessionId, later).None?
  {
  }

  /** The expiry boundary: with `d > 0`, a session created at
      `t0` resolves at `t0 + d - 1` and at `t0 + d`, but not at `t0 + d + 1`. */
  lemma ExpiryBoundary(table: SessionTable, d: int, sessionId: string, userId: string, t0: int)
    requires d > 0
    requires sessionId in table && table[sessionId] == SessionData(Some(userId), Some(t0))
    ensures Resolve(table, d, Some(sessionId), t0 + d - 1) == Some(userId)
    ensures Resolve(table, d, Some(sessionId), t0 + d) == Some(userId)
    ensures Resolve(table, d, Some(sessionId), t0 + d + 1).None?
  {
  }

  /** The session table of `SessionExpAuth`. */
  class SessionExpAuth {
    var sessionDuration: int
    var userIdBySessionId: SessionTable

    /** `__init__`: the duration comes from the `SESSION_DURATION`
        setting; no sessions exist yet. */
    constructor (setting: Option<string>)
      ensures sessionDuration == ParseDuration(setting)
      ensures userIdBySessionId == map[]
    {
      sessionDuration := ParseDuration(setting);
      userIdBySessionId := map[];
    }

    /** `create_session(user_id)`. `parentSessionId` is what the parent
        `SessionAuth.create_session(user_id)` returned: None leaves the
        table as it was and returns None; an id is recorded with the
        user and the time `now` and returned. */
    method CreateSession(userId: Option<string>, parentSessionId: Option<string>, now: int) returns (sessionId: Option<string>)
      modifies this
      ensures sessionId == parentSessionId
      ensures sessionDuration == old(sessionDuration)
      ensures parentSessionId.None? ==> userIdBySessionId == old(userIdBySessionId)
      ensures parentSessionId.Some? ==>
        userIdBySessionId == old(userIdBySessionId)[parentSessionId.value := SessionData(userId, Some(now))]
      ensures sessionId.Some? ==> forall later {:trigger Resolve(userIdBySessionId, sessionDuration, sessionId, later)} ::
        now <= later && (sessionDuration <= 0 || later <= now + sessionDuration) ==>
          Resolve(userIdBySessionId, sessionDuration, sessionId, later) == userId
    {
      sessionId := parentSessionId;
      if sessionId.None? {
        return;
      }
      userIdBySessionId := userIdBySessionId[sessionId.value := SessionData(userId, Some(now))];
    }

    /** `user_id_for_session_id(session_id)` at clock reading `now`. It
        reads the table and changes nothing: expired entries stay. */
    method UserIdForSessionId(sessionId: Option<string>, now: int) returns (userId: Option<string>)
      ensures userId == Resolve(userIdBySessionId, sessionDuration, sessionId, now)
    {
      if sessionId.None? {
        return None;
      }
      if sessionId.value !in userIdBySessionId {
        return None;
      }
      var sessionData := userIdBySessionId[sessionId.value];
      if sessionData.createdAt.None? {
        return None;
      }
      if sessionDuration <= 0 {
        return sessionData.userId;
      }
      var expirationTime := sessionData.createdAt.value + sessionDuration;
      if expirationTime < now {
        return None;
      }
      return sessionData.userId;
    }
  }
}
