/** Session authentication persisted as `UserSession` records
    (0x02 `session_db_auth.py`): creating a session also stores a record,
    and lookup and destroy scan the stored records in storage order. The
    lookup here does not apply the expiry rule of `SessionExpAuth`. */
module SessionDb {
  import opened Wrappers
  import Auth
  import SessionExp

  /** A stored `UserSession(user_id, session_id)` record. */
  datatype UserSession = UserSession(userId: Option<string>, sessionId: Option<string>)

  /** The position of the first record, in storage order, whose session id
      is `sessionId`. */
  function FirstMatch(records: seq<UserSession>, sessionId: string): (k: Option<nat>)
    ensures k.Some? ==>
      k.value < |records| && records[k.value].sessionId == Some(sessionId) &&
      forall j :: 0 <= j < k.value ==> records[j].sessionId != Some(sessionId)
    ensures k.None? <==> forall j :: 0 <= j < |records| ==> records[j].sessionId != Some(sessionId)
  {
    if records == [] then None
    else if records[0].sessionId == Some(sessionId) then Some(0)
    else match FirstMatch(records[1..], sessionId)
      case None =>
        assert forall j :: 1 <= j < |records| ==> records[j] == records[1..][j - 1];
        None
      case Some(k) =>
        assert forall j :: 1 <= j <= k ==> records[j] == records[1..][j - 1];
        Some(k + 1)
  }

  /** `user_id_for_session_id(session_id)` over the stored records: the user
      of the first record with that session id, or None. */
  function Lookup(records: seq<UserSession>, sessionId: Option<string>): (userId: Option<string>)
    ensures sessionId.None? ==> userId.None?
    ensures userId.Some? ==> exists k :: 0 <= k < |records| && records[k] == UserSession(userId, sessionId)
    ensures sessionId.Some? && (forall j :: 0 <= j < |records| ==> records[j].sessionId != sessionId) ==> userId.None?
    ensures sessionId.Some? ==> forall k ::
      (0 <= k < |records| && records[k].sessionId == sessionId &&
       forall j :: 0 <= j < k ==> records[j].sessionId != sessionId) ==> userId == records[k].userId
  {
    if sessionId.None? then None
    else match FirstMatch(records, sessionId.value)
      case None => None
      case Some(k) => records[k].userId
  }

  /** The records left after `destroy_session` removes the first record with
      session id `sessionId`; all records when there is none. */
  function RemoveFirst(records: seq<UserSession>, sessionId: string): (rest: seq<UserSession>)
    ensures FirstMatch(records, sessionId).None? ==> rest == records
    ensures FirstMatch(records, sessionId).Some? ==> |rest| == |records| - 1
    ensures FirstMatch(records, sessionId).Some? ==>
      var k := FirstMatch(records, sessionId).value;
      rest[..k] == records[..k] && rest[k..] == records[k + 1..]
    ensures multiset(rest) <= multiset(records)
  {
    match FirstMatch(records, sessionId)
      case None => records
      case Some(k) =>
        assert records == records[..k] + [records[k]] + records[k + 1..];
        records[..k] + records[k + 1..]
  }

  /** No two stored records share a (present) session id. */
  ghost predicate UniqueSessionIds(records: seq<UserSession>) {
    forall i, j :: 0 <= i < j < |records| && records[i].sessionId.Some? ==>
      records[i].sessionId != records[j].sessionId
  }

  /** A stored session id is found by the lookup: it resolves to the user of
      its record when ids are unique. */
  lemma LookupFindsUniqueRecord(records: seq<UserSession>, k: nat)
    requires UniqueSessionIds(records)
    requires k < |records| && records[k].sessionId.Some?
    ensures Lookup(records, records[k].sessionId) == records[k].userId
  {
    var found := FirstMatch(records, records[k].sessionId.value);
    assert found.Some?;
  }

  /** Appending a record for an id not yet stored makes that id resolve to
      the new record's user. */
  lemma LookupAfterAppend(records: seq<UserSession>, userId: Option<string>, sessionId: string)
    requires FirstMatch(records, sessionId).None?
    ensures Lookup(records + [UserSession(userId, Some(sessionId))], Some(sessionId)) == userId
  {
    var extended := records + [UserSession(userId, Some(sessionId))];
    assert forall j :: 0 <= j < |records| ==> extended[j] == records[j];
    assert extended[|records|].sessionId == Some(sessionId);
    assert FirstMatch(extended, sessionId) == Some(|records|);
  }

  /** Appending a record leaves the lookup of every other id unchanged. */
  lemma LookupOthersAfterAppend(records: seq<UserSession>, record: UserSession, other: string)
    requires record.sessionId != Some(other)
    ensures Lookup(records + [record], Some(other)) == Lookup(records, Some(other))
  {
    var extended := records + [record];
    assert forall j :: 0 <= j < |records| ==> extended[j] == records[j];
    var a, b := FirstMatch(extended, other), FirstMatch(records, other);
    if b.Some? {
      assert a == b;
    }
  }

  /** With unique ids, after destroying a session its id no longer
      resolves, and a second destroy of it finds nothing. */
  lemma DestroyedSessionIsGone(records: seq<UserSession>, sessionId: string)
    requires UniqueSessionIds(records)
    ensures FirstMatch(RemoveFirst(records, sessionId), sessionId).None?
    ensures Lookup(RemoveFirst(records, sessionId), Some(sessionId)).None?
  {
    var rest := RemoveFirst(records, sessionId);
    var found := FirstMatch(records, sessionId);
    if found.Some? {
      var k := found.value;
      forall j | 0 <= j < |rest|
        ensures rest[j].sessionId != Some(sessionId)
      {
        if j >= k {
          assert rest[j] == records[j + 1];
        }
      }
    }
  }

  /** Removing the record at `k`, whose id is not `other`, keeps the first
      match of `other` apart from the shift of the positions after `k`. */
  lemma FirstMatchAfterRemoval(records: seq<UserSession>, k: nat, other: string)
    requires k < |records| && records[k].sessionId != Some(other)
    ensures Lookup(records[..k] + records[k + 1..], Some(other)) == Lookup(records, Some(other))
  {
    var rest := records[..k] + records[k + 1..];
    assert forall j :: 0 <= j < k ==> rest[j] == records[j];
    assert forall j :: k <= j < |rest| ==> rest[j] == records[j + 1];
    var a, b := FirstMatch(rest, other), FirstMatch(records, other);
    if b.Some? {
      if b.value < k {
        assert a == b;
      } else {
        assert rest[b.value - 1].sessionId == Some(other);
        assert forall j :: 0 <= j < b.value - 1 ==> rest[j].sessionId != Some(other);
        assert a == Some(b.value - 1);
      }
    } else {
      assert a.None?;
    }
  }

  /** Destroying one session leaves what every other id resolves to
      unchanged. */
  lemma DestroyKeepsOtherSessions(records: seq<UserSession>, sessionId: string, other: string)
    requires other != sessionId
    ensures Lookup(RemoveFirst(records, sessionId), Some(other)) == Lookup(records, Some(other))
  {
    var found := FirstMatch(records, sessionId);
    if found.Some? {
      var k := found.value;
      assert RemoveFirst(records, sessionId) == records[..k] + records[k + 1..];
      FirstMatchAfterRemoval(records, k, other);
    }
  }

  /** Removing a record keeps the stored ids unique. */
  lemma RemoveKeepsUnique(records: seq<UserSession>, sessionId: string)
    requires UniqueSessionIds(records)
    ensures UniqueSessionIds(RemoveFirst(records, sessionId))
  {
    var found := FirstMatch(records, sessionId);
    if found.Some? {
      var k := found.value;
      var rest := RemoveFirst(records, sessionId);
      forall i, j | 0 <= i < j < |rest| && rest[i].sessionId.Some?
        ensures rest[i].sessionId != rest[j].sessionId
      {
        var i', j' := if i < k then i else i + 1, if j < k then j else j + 1;
        assert rest[i] == records[i'] && rest[j] == records[j'];
      }
    }
  }

  /** A session's lifecycle on the stored records: create a session for a
      fresh id, resolve it to its user, destroy it, and it resolves to no
      one; the store is back where it started. */
  lemma SessionLifecycle(records: seq<UserSession>, userId: Option<string>, sessionId: string)
    requires UniqueSessionIds(records)
    requires FirstMatch(records, sessionId).None?
    ensures Lookup(records + [UserSession(userId, Some(sessionId))], Some(sessionId)) == userId
    ensures RemoveFirst(records + [UserSession(userId, Some(sessionId))], sessionId) == records
    ensures Lookup(RemoveFirst(records + [UserSession(userId, Some(sessionId))], sessionId), Some(sessionId)).None?
  {
    LookupAfterAppend(records, userId, sessionId);
    var extended := records + [UserSession(userId, Some(sessionId))];
    assert forall j :: 0 <= j < |records| ==> extended[j] == records[j];
    assert extended[|records|].sessionId == Some(sessionId);
    assert FirstMatch(extended, sessionId) == Some(|records|);
    assert extended[..|records|] == records;
  }

  /** The stored lookup applies no expiry: a session created at `created`
      is still found by its record at a time when the inherited table
      already treats it as expired. */
  lemma StoredSessionOutlivesExpiry(
    records: seq<UserSession>, table: SessionExp.SessionTable, duration: int,
    userId: string, sessionId: string, created: int, now: int)
    requires FirstMatch(records, sessionId).None?
    requires duration > 0 && created + duration < now
    ensures Lookup(records + [UserSession(Some(userId), Some(sessionId))], Some(sessionId)) == Some(userId)
    ensures SessionExp.Resolve(table[sessionId := SessionExp.SessionData(Some(userId), Some(created))],
                               duration, Some(sessionId), now).None?
  {
    LookupAfterAppend(records, Some(userId), sessionId);
  }

  /** `SessionDBAuth`: the session table and duration it inherits from
      `SessionExpAuth`, and the stored `UserSession` records. */
  class SessionDBAuth {
    const expiring: SessionExp.SessionExpAuth
    var storage: seq<UserSession>

    /** Set up with the `SESSION_DURATION` setting and the records already
        in storage. */
    constructor (setting: Option<string>, persisted: seq<UserSession>)
      ensures fresh(expiring)
      ensures expiring.sessionDuration == SessionExp.ParseDuration(setting)
      ensures expiring.userIdBySessionId == map[]
      ensures storage == persisted
    {
      expiring := new SessionExp.SessionExpAuth(setting);
      storage := persisted;
    }

    /** `create_session(user_id)`: the inherited `create_session` first (with
        the parent's result `parentSessionId` and the clock `now`); when it
        gives an id, one `UserSession(user_id, session_id)` is appended to
        storage and that id is returned. */
    method CreateSession(userId: Option<string>, parentSessionId: Option<string>, now: int) returns (sessionId: Option<string>)
      modifies this, expiring
      ensures sessionId == parentSessionId
      ensures expiring.sessionDuration == old(expiring.sessionDuration)
      ensures parentSessionId.None? ==>
        expiring.userIdBySessionId == old(expiring.userIdBySessionId) && storage == old(storage)
      ensures parentSessionId.Some? ==>
        expiring.userIdBySessionId ==
          old(expiring.userIdBySessionId)[parentSessionId.value := SessionExp.SessionData(userId, Some(now))]
      ensures parentSessionId.Some? ==> storage == old(storage) + [UserSession(userId, parentSessionId)]
    {
      sessionId := expiring.CreateSession(userId, parentSessionId, now);
      if sessionId.None? {
        return;
      }
      storage := storage + [UserSession(userId, sessionId)];
    }

    /** `user_id_for_session_id(session_id)`: a scan of the stored records
        in order. It takes no clock: stored sessions never expire here. */
    method UserIdForSessionId(sessionId: Option<string>) returns (userId: Option<string>)
      ensures userId == Lookup(storage, sessionId)
    {
      if sessionId.None? {
        return None;
      }
      var i := 0;
      while i < |storage|
        invariant 0 <= i <= |storage|
        invariant forall j :: 0 <= j < i ==> storage[j].sessionId != sessionId
      {
        if storage[i].sessionId == sessionId {
          assert FirstMatch(storage, sessionId.value) == Some(i);
          return storage[i].userId;
        }
        i := i + 1;
      }
      return None;
    }

    /** `destroy_session(request)`. `sessionCookie` is what
        `session_cookie(request)` returns; it is not consulted when there
        is no request. False without a request or cookie; otherwise the
        first stored record with that session id is removed and True
        returned, or False with storage unchanged when there is none. */
    method DestroySession(request: Option<Auth.Request>, sessionCookie: Option<string>) returns (destroyed: bool)
      modifies this
      ensures request.None? || sessionCookie.None? ==> !destroyed && storage == old(storage)
      ensures request.Some? && sessionCookie.Some? ==>
        destroyed == FirstMatch(old(storage), sessionCookie.value).Some? &&
        storage == RemoveFirst(old(storage), sessionCookie.value)
    {
      if request.None? {
        return false;
      }
      var sessionId := sessionCookie;
      if sessionId.None? {
        return false;
      }
      var i := 0;
      while i < |storage|
        invariant 0 <= i <= |storage|
        invariant storage == old(storage)
        invariant forall j :: 0 <= j < i ==> storage[j].sessionId != sessionId
      {
        if storage[i].sessionId == sessionId {
          assert FirstMatch(storage, sessionId.value) == Some(i);
          storage := storage[..i] + storage[i + 1..];
          return true;
        }
        i := i + 1;
      }
      return false;
    }
  }
}
