/** `fetchUsername`: a memo from user id to display name. The lookup response is an input. */
module Names {
  import opened Wrappers
  import Roster

  type UserId = Roster.UserId

  /** The outcome of a user-info request: a network error, or a status with the body's
      `displayName` and `name`. */
  datatype LookupResponse =
    | LookupNetworkError
    | LookupHttp(status: int, displayName: Option<string>, name: Option<string>)

  /** `j.displayName || j.name || String(userId)`: the first that is present and not empty. */
  function ResolvedName(userId: UserId, displayName: Option<string>, name: Option<string>): (r: string)
    ensures displayName.Some? && |displayName.value| > 0 ==> r == displayName.value
    ensures !(displayName.Some? && |displayName.value| > 0) && name.Some? && |name.value| > 0 ==> r == name.value
    ensures !(displayName.Some? && |displayName.value| > 0) && !(name.Some? && |name.value| > 0) ==> r == userId
    ensures |userId| > 0 ==> |r| > 0
  {
    if displayName.Some? && |displayName.value| > 0 then displayName.value
    else if name.Some? && |name.value| > 0 then name.value
    else userId
  }

  /** One call: the name it returns and the cache after it. A cached id is answered from
      the cache; otherwise an ok response is resolved and stored, and a failure answers
      with the id itself and stores nothing. */
  function FetchName(cache: map<UserId, string>, userId: UserId, lookup: LookupResponse): (r: (string, map<UserId, string>))
    ensures userId in cache ==> r == (cache[userId], cache)
    ensures userId !in cache && lookup.LookupHttp? && Roster.IsOk(lookup.status) ==>
      r.0 == ResolvedName(userId, lookup.displayName, lookup.name) && r.1 == cache[userId := r.0]
    ensures userId !in cache && !(lookup.LookupHttp? && Roster.IsOk(lookup.status)) ==> r == (userId, cache)
    ensures forall k :: k in cache ==> k in r.1 && r.1[k] == cache[k]
    ensures r.1.Keys <= cache.Keys + {userId}
  {
    if userId in cache then (cache[userId], cache)
    else if lookup.LookupHttp? && Roster.IsOk(lookup.status) then
      var name := ResolvedName(userId, lookup.displayName, lookup.name);
      (name, cache[userId := name])
    else (userId, cache)
  }

  /** Memoisation: once an id is in the cache, every later call answers with the name it
      was stored with, whatever the lookup would have returned. */
  lemma FetchNameStable(cache: map<UserId, string>, userId: UserId, first: LookupResponse, later: LookupResponse)
    requires userId in FetchName(cache, userId, first).1
    ensures FetchName(FetchName(cache, userId, first).1, userId, later) == (FetchName(cache, userId, first).0, FetchName(cache, userId, first).1)
  {
  }

  /** A failed lookup does not block the next one: a later ok lookup still fills the cache. */
  lemma FailureThenSuccess(cache: map<UserId, string>, userId: UserId, status: int, dn: Option<string>, n: Option<string>)
    requires userId !in cache && Roster.IsOk(status)
    ensures var after := FetchName(cache, userId, LookupNetworkError).1;
      after == cache && FetchName(after, userId, LookupHttp(status, dn, n)).1 == cache[userId := ResolvedName(userId, dn, n)]
  {
  }
}
