/** The watcher's process-wide state (index.js:48-54) as one object, with the three
    operations that change it: the roster refresh, the presence poll and the name lookup. */
module Watcher {
  import opened Wrappers
  import opened Presence
  import Roster
  import Names

  class WatcherState {
    /** The watched user ids, rebuilt by each roster refresh. */
    var watchedUserIds: seq<UserId>
    /** The latest presence record of every user seen in a poll. */
    var lastPresence: map<UserId, PresenceRecord>
    /** Display names found so far. */
    var usernameCache: map<UserId, string>
    /** The users at the target place as of the last committed poll. */
    var currentlyInGame: set<UserId>
    /** Whether a poll has committed since the start (the startup sweep is over). */
    var initialSweepDone: bool

    /** The invariant the operations keep: the roster has no repeats, and every user
        counted in game has a presence record. */
    ghost predicate Valid()
      reads this
    {
      Roster.NoDup(watchedUserIds) && currentlyInGame <= lastPresence.Keys
    }

    constructor ()
      ensures Valid()
      ensures watchedUserIds == [] && lastPresence == map[] && usernameCache == map[]
      ensures currentlyInGame == {} && !initialSweepDone
    {
      watchedUserIds := [];
      lastPresence := map[];
      usernameCache := map[];
      currentlyInGame := {};
      initialSweepDone := false;
    }

    /** `refreshGroupMembers`: the roster is replaced wholesale by what the responses yield
        (see `Roster.RosterExact` and `Roster.RosterStops`); the count of watched users
        is returned. Nothing else changes. */
    method RefreshGroupMembers(pages: seq<Roster.PageResponse>) returns (count: nat)
      requires Valid()
      modifies this`watchedUserIds
      ensures Valid()
      ensures watchedUserIds == Roster.Roster(pages)
      ensures count == |watchedUserIds|
    {
      var found := Roster.CollectRoster(pages);
      Roster.DedupNoDup(Roster.PagesUids(pages[..Roster.ReadCount(pages)]));
      watchedUserIds := found;
      count := |watchedUserIds|;
    }

    /** `fetchUsername`: answer from the cache, or look up and cache (see `Names.FetchName`). */
    method FetchUsername(userId: UserId, lookup: Names.LookupResponse) returns (name: string)
      requires Valid()
      modifies this`usernameCache
      ensures Valid()
      ensures (name, usernameCache) == Names.FetchName(old(usernameCache), userId, lookup)
    {
      if userId in usernameCache {
        return usernameCache[userId];
      }
      if lookup.LookupHttp? && Roster.IsOk(lookup.status) {
        name := Names.ResolvedName(userId, lookup.displayName, lookup.name);
        usernameCache := usernameCache[userId := name];
        return;
      }
      name := userId;
    }

    /** The reset `startWatcher` makes before its first poll: the next poll is a sweep again.
        The in-game set and every other field are kept. */
    method BeginSweep()
      requires Valid()
      modifies this`initialSweepDone
      ensures Valid()
      ensures !initialSweepDone
    {
      initialSweepDone := false;
    }

    /** `pollPresenceOnce`: with nobody watched, a network error, a 429 or a status that is
        not ok, nothing changes and nothing is reported. Otherwise the response is processed
        by `ApplyResponse`. */
    method PollPresenceOnce(resp: PresenceResponse) returns (alerts: seq<Alert>)
      requires Valid()
      modifies this`lastPresence, this`currentlyInGame, this`initialSweepDone
      ensures Valid()
      ensures !Commits(watchedUserIds, resp) ==>
        && alerts == []
        && lastPresence == old(lastPresence)
        && currentlyInGame == old(currentlyInGame)
        && initialSweepDone == old(initialSweepDone)
      ensures Commits(watchedUserIds, resp) ==>
        && alerts == Alerts(old(currentlyInGame), old(initialSweepDone), resp.userPresences)
        && lastPresence == ApplyPresences(old(lastPresence), resp.userPresences)
        && currentlyInGame == NextInGame(resp.userPresences)
        && initialSweepDone
    {
      if |watchedUserIds| == 0 {
        return [];
      }
      if resp.NetworkError? {
        return [];
      }
      if resp.status == TOO_MANY_REQUESTS {
        return [];
      }
      if !Roster.IsOk(resp.status) {
        return [];
      }
      alerts := ApplyResponse(resp.userPresences);
    }

    /** One listed user of a poll: its id, its new record, whether it is at the target,
        and the alerts it gets against the old set `current`. */
    static method ClassifyPresence(current: set<UserId>, sweepDone: bool, p: UserPresence)
      returns (userId: UserId, now: PresenceRecord, inTarget: bool, events: seq<Alert>)
      ensures userId == KeyOf(p) && now == RecordOf(p) && inTarget == InTarget(p)
      ensures events == Events(current, sweepDone, p)
    {
      userId := KeyOf(p);
      now := RecordOf(p);
      inTarget := now.placeId == Some(TARGET_PLACE_ID);
      var joined := userId !in current && inTarget;
      var left := userId in current && !inTarget;
      events := [];
      if !sweepDone && inTarget {
        events := [AlreadyIn(userId)];
      } else {
        if joined {
          events := events + [Joined(userId)];
        }
        if left {
          events := events + [Left(userId)];
        }
      }
    }

    /** The loop of a poll that got an ok response, over the old in-game set, sweep flag
        and records: every listed user is checked against the target and the old set, its
        alerts are collected and its record is stored. */
    static method ProcessPresences(current: set<UserId>, sweepDone: bool,
                                   last0: map<UserId, PresenceRecord>, presences: seq<UserPresence>)
      returns (alerts: seq<Alert>, last: map<UserId, PresenceRecord>, nextInGame: set<UserId>)
      ensures alerts == Alerts(current, sweepDone, presences)
      ensures last == ApplyPresences(last0, presences)
      ensures nextInGame == NextInGame(presences)
    {
      alerts := [];
      last := last0;
      nextInGame := {};
      var i := 0;
      while i < |presences|
        invariant 0 <= i <= |presences|
        invariant nextInGame == NextInGame(presences[..i])
        invariant alerts == Alerts(current, sweepDone, presences[..i])
        invariant last == ApplyPresences(last0, presences[..i])
      {
        PollStep(current, sweepDone, last0, presences, i);
        var userId, now, inTarget, events := ClassifyPresence(current, sweepDone, presences[i]);
        if inTarget {
          nextInGame := nextInGame + {userId};
        }
        alerts := alerts + events;
        last := last[userId := now];
        i := i + 1;
      }
      assert presences[..|presences|] == presences;
    }

    /** The body of a poll that got an ok response: the users are processed against the
        old state, then the records, the new in-game set and the sweep flag are committed. */
    method ApplyResponse(presences: seq<UserPresence>) returns (alerts: seq<Alert>)
      requires Valid()
      modifies this`lastPresence, this`currentlyInGame, this`initialSweepDone
      ensures Valid()
      ensures alerts == Alerts(old(currentlyInGame), old(initialSweepDone), presences)
      ensures lastPresence == ApplyPresences(old(lastPresence), presences)
      ensures currentlyInGame == NextInGame(presences)
      ensures initialSweepDone
    {
      var last, nextInGame;
      alerts, last, nextInGame := ProcessPresences(currentlyInGame, initialSweepDone, lastPresence, presences);
      NextInGameRecorded(lastPresence, presences);
      lastPresence := last;
      currentlyInGame := nextInGame;
      initialSweepDone := true;
    }
  }
}
