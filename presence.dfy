/** The decision logic of `pollPresenceOnce`: which listed users are at the target
    place, which alerts one response produces, and how `lastPresence` is updated.
    The bulk presence response is an input value. */
module Presence {
  import opened Wrappers
  import opened Strings
  import Roster

  type UserId = Roster.UserId

  /** `CONFIG.TARGET_PLACE_ID`, the place whose occupancy is watched. */
  const TARGET_PLACE_ID := "583507031"

  /** One entry of the response's `userPresences`. */
  datatype UserPresence = UserPresence(userId: nat, userPresenceType: int, placeId: Option<nat>)

  /** What `lastPresence` keeps per user: the presence type and the place id as a string, or null. */
  datatype PresenceRecord = PresenceRecord(userPresenceType: int, placeId: Option<string>)

  /** The outcome of the presence request (an absent `userPresences` is no entries). */
  datatype PresenceResponse =
    | NetworkError
    | Http(status: int, userPresences: seq<UserPresence>)

  /** The alerts of a poll; the message text around the user is not modelled. */
  datatype Alert = AlreadyIn(userId: UserId) | Joined(userId: UserId) | Left(userId: UserId)

  /** Status 429: rate limited; the cycle is skipped. */
  const TOO_MANY_REQUESTS := 429

  /** `String(p.userId)`. */
  function KeyOf(p: UserPresence): UserId { NatToString(p.userId) }

  /** `{ userPresenceType, placeId: p.placeId ? String(p.placeId) : null }`: a missing, null
      or zero place id is recorded as null. */
  function RecordOf(p: UserPresence): PresenceRecord
  {
    PresenceRecord(p.userPresenceType,
      if p.placeId.Some? && p.placeId.value != 0 then Some(NatToString(p.placeId.value)) else None)
  }

  predicate InTarget(p: UserPresence) { RecordOf(p).placeId == Some(TARGET_PLACE_ID) }

  /** Whether a poll gets past its early returns: someone is watched, the request went
      through, it was not rate limited and the status is ok. */
  predicate Commits(watched: seq<UserId>, resp: PresenceResponse)
  {
    |watched| > 0 && resp.Http? && resp.status != TOO_MANY_REQUESTS && Roster.IsOk(resp.status)
  }

  /** The users of `ps` that are at the target place. */
  function NextInGame(ps: seq<UserPresence>): set<UserId>
  {
    if ps == [] then {}
    else
      var p := ps[|ps| - 1];
      NextInGame(ps[..|ps| - 1]) + (if InTarget(p) then {KeyOf(p)} else {})
  }

  /** The alerts for one listed user, against the set of the previous cycle. */
  function Events(current: set<UserId>, sweepDone: bool, p: UserPresence): seq<Alert>
  {
    var u := KeyOf(p);
    var inTarget := InTarget(p);
    if !sweepDone && inTarget then [AlreadyIn(u)]
    else
      (if u !in current && inTarget then [Joined(u)] else [])
      + (if u in current && !inTarget then [Left(u)] else [])
  }

  /** The alerts of one response, in response order. */
  function Alerts(current: set<UserId>, sweepDone: bool, ps: seq<UserPresence>): seq<Alert>
  {
    if ps == [] then []
    else Alerts(current, sweepDone, ps[..|ps| - 1]) + Events(current, sweepDone, ps[|ps| - 1])
  }

  /** `lastPresence` after `lastPresence.set(userId, now)` for every entry in order. */
  function ApplyPresences(last: map<UserId, PresenceRecord>, ps: seq<UserPresence>): map<UserId, PresenceRecord>
  {
    if ps == [] then last
    else
      var p := ps[|ps| - 1];
      ApplyPresences(last, ps[..|ps| - 1])[KeyOf(p) := RecordOf(p)]
  }

  /** Whether `u` is listed in the response. */
  predicate Listed(ps: seq<UserPresence>, u: UserId)
  {
    exists i :: 0 <= i < |ps| && KeyOf(ps[i]) == u
  }

  /** `ps[i]` is the last entry of the response that lists `u`. */
  predicate LastListing(ps: seq<UserPresence>, u: UserId, i: nat)
  {
    forall j :: i < j < |ps| ==> KeyOf(ps[j]) != u
  }

  /** No user listed twice. */
  predicate DistinctUsers(ps: seq<UserPresence>)
  {
    forall i, j :: 0 <= i < j < |ps| ==> KeyOf(ps[i]) != KeyOf(ps[j])
  }

  /** One more entry of the response extends the three results by that entry's part. */
  lemma PollStep(current: set<UserId>, sweepDone: bool, last: map<UserId, PresenceRecord>, ps: seq<UserPresence>, i: nat)
    requires i < |ps|
    ensures NextInGame(ps[..i + 1]) == NextInGame(ps[..i]) + (if InTarget(ps[i]) then {KeyOf(ps[i])} else {})
    ensures Alerts(current, sweepDone, ps[..i + 1]) == Alerts(current, sweepDone, ps[..i]) + Events(current, sweepDone, ps[i])
    ensures ApplyPresences(last, ps[..i + 1]) == ApplyPresences(last, ps[..i])[KeyOf(ps[i]) := RecordOf(ps[i])]
  {
    assert ps[..i + 1][..i] == ps[..i];
  }

  /** A user is at the target place exactly when the response gives the place id 583507031. */
  lemma InTargetIff(p: UserPresence)
    ensures InTarget(p) <==> p.placeId == Some(583507031)
  {
    TargetPlaceDigits();
    if p.placeId.Some? {
      NatToStringInjective(p.placeId.value, 583507031);
    }
  }

  /** The place id 583507031 prints as `TARGET_PLACE_ID`. */
  lemma TargetPlaceDigits()
    ensures NatToString(583507031) == TARGET_PLACE_ID
  {
    assert NatToString(5) == "5";
    assert NatToString(58) == "58";
    assert NatToString(583) == "583";
    assert NatToString(5835) == "5835";
    assert NatToString(58350) == "58350";
    assert NatToString(583507) == "583507";
    assert NatToString(5835070) == "5835070";
    assert NatToString(58350703) == "58350703";
  }

  /** The new in-game set is the set of listed users whose place is the target. */
  lemma {:induction false} NextInGameMember(ps: seq<UserPresence>, u: UserId)
    ensures u in NextInGame(ps) <==> exists i :: 0 <= i < |ps| && KeyOf(ps[i]) == u && InTarget(ps[i])
  {
    if ps != [] {
      var init := ps[..|ps| - 1];
      NextInGameMember(init, u);
      assert forall i :: 0 <= i < |init| ==> init[i] == ps[i];
    }
  }

  /** An alert of a response is about a listed user, and is the alert of one of its entries. */
  lemma {:induction false} AlertsMember(current: set<UserId>, sweepDone: bool, ps: seq<UserPresence>, a: Alert)
    ensures a in Alerts(current, sweepDone, ps) <==>
      exists i :: 0 <= i < |ps| && a in Events(current, sweepDone, ps[i])
  {
    if ps != [] {
      var init := ps[..|ps| - 1];
      AlertsMember(current, sweepDone, init, a);
      assert forall i :: 0 <= i < |init| ==> init[i] == ps[i];
    }
  }

  /** Once the startup sweep is done, a listed user is reported joined exactly when it was
      not in the old set and is at the target, left exactly when it was in the old set and
      is elsewhere, never both, and nothing when it stays at the target. */
  lemma EventsAfterSweep(current: set<UserId>, p: UserPresence)
    ensures var u := KeyOf(p); var e := Events(current, true, p);
      && (Joined(u) in e <==> u !in current && InTarget(p))
      && (Left(u) in e <==> u in current && !InTarget(p))
      && !(Joined(u) in e && Left(u) in e)
      && (u in current && InTarget(p) ==> e == [])
      && (forall a :: a in e ==> a.userId == u && !a.AlreadyIn?)
  {
  }

  /** The same, over a whole response: `Joined` goes to the users now at the target that
      were not before, `Left` to the users of the old set listed elsewhere, `AlreadyIn` to
      no one. */
  lemma AlertsAfterSweep(current: set<UserId>, ps: seq<UserPresence>, u: UserId)
    ensures Joined(u) in Alerts(current, true, ps) <==> u !in current && u in NextInGame(ps)
    ensures Left(u) in Alerts(current, true, ps) <==>
      u in current && exists i :: 0 <= i < |ps| && KeyOf(ps[i]) == u && !InTarget(ps[i])
    ensures AlreadyIn(u) !in Alerts(current, true, ps)
  {
    AlertsMember(current, true, ps, Joined(u));
    AlertsMember(current, true, ps, Left(u));
    AlertsMember(current, true, ps, AlreadyIn(u));
    NextInGameMember(ps, u);
  }

  /** On a response where every user is listed once, the joined users are the new set
      minus the old one and the left users are the listed part of the old set minus the
      new one: together the symmetric difference on the listed users. */
  lemma AlertsSymmetricDifference(current: set<UserId>, ps: seq<UserPresence>, u: UserId)
    requires DistinctUsers(ps)
    ensures Joined(u) in Alerts(current, true, ps) <==> u in NextInGame(ps) - current
    ensures Left(u) in Alerts(current, true, ps) <==> Listed(ps, u) && u in current - NextInGame(ps)
  {
    AlertsAfterSweep(current, ps, u);
    NextInGameMember(ps, u);
  }

  /** On the startup sweep nobody is reported joined, and the users reported present are
      exactly the users at the target. */
  lemma AlertsOnSweep(current: set<UserId>, ps: seq<UserPresence>, u: UserId)
    ensures Joined(u) !in Alerts(current, false, ps)
    ensures AlreadyIn(u) in Alerts(current, false, ps) <==> u in NextInGame(ps)
  {
    AlertsMember(current, false, ps, Joined(u));
    AlertsMember(current, false, ps, AlreadyIn(u));
    NextInGameMember(ps, u);
  }

  /** When the response lists every user once, each user at the target is reported
      present exactly once on the startup sweep, and no one else is. */
  lemma {:induction false} AlreadyInOnce(current: set<UserId>, ps: seq<UserPresence>, u: UserId)
    requires DistinctUsers(ps)
    ensures multiset(Alerts(current, false, ps))[AlreadyIn(u)] == if u in NextInGame(ps) then 1 else 0
  {
    if ps != [] {
      var init := ps[..|ps| - 1];
      var p := ps[|ps| - 1];
      assert DistinctUsers(init);
      AlreadyInOnce(current, init, u);
      assert multiset(Alerts(current, false, ps)) ==
        multiset(Alerts(current, false, init)) + multiset(Events(current, false, p));
      if KeyOf(p) == u && InTarget(p) {
        assert u !in NextInGame(init) by {
          NextInGameMember(init, u);
          assert forall i :: 0 <= i < |init| ==> init[i] == ps[i];
        }
      }
    }
  }

  /** A user of the old set that the response does not list leaves the set without a word. */
  lemma UnlistedDropped(current: set<UserId>, sweepDone: bool, ps: seq<UserPresence>, u: UserId)
    requires !Listed(ps, u)
    ensures u !in NextInGame(ps)
    ensures forall a :: a in Alerts(current, sweepDone, ps) ==> a.userId != u
  {
    NextInGameMember(ps, u);
    forall a | a in Alerts(current, sweepDone, ps)
      ensures a.userId != u
    {
      AlertsMember(current, sweepDone, ps, a);
    }
  }

  /** The very first poll after the process starts (nobody in the old set, sweep not done)
      reports only `AlreadyIn`. */
  lemma FirstPollOnlyAlreadyIn(ps: seq<UserPresence>, a: Alert)
    requires a in Alerts({}, false, ps)
    ensures a.AlreadyIn?
  {
    AlertsMember({}, false, ps, a);
  }

  /** Whatever the sweep flag, a user is reported `Left` exactly when it is in the old set
      and some entry of the response lists it away from the target. On a sweep cycle this
      is the else branch of index.js:231-239, reached by users who are not at the target. */
  lemma LeftIff(current: set<UserId>, sweepDone: bool, ps: seq<UserPresence>, u: UserId)
    ensures Left(u) in Alerts(current, sweepDone, ps) <==>
      u in current && exists i :: 0 <= i < |ps| && KeyOf(ps[i]) == u && !InTarget(ps[i])
  {
    AlertsMember(current, sweepDone, ps, Left(u));
  }

  /** A sweep cycle with a non-empty old set (the watcher started again) still reports
      users of the old set that moved away as `Left`. */
  lemma LeftOnRestartSweep()
    ensures Alerts({"1"}, false, [UserPresence(1, 0, None)]) == [Left("1")]
  {
    assert KeyOf(UserPresence(1, 0, None)) == "1";
  }

  /** `lastPresence` gets an entry for every listed user and keeps every other entry. */
  lemma {:induction false} ApplyPresencesKeys(last: map<UserId, PresenceRecord>, ps: seq<UserPresence>, u: UserId)
    ensures u in ApplyPresences(last, ps) <==> u in last || Listed(ps, u)
    ensures !Listed(ps, u) && u in last ==> ApplyPresences(last, ps)[u] == last[u]
  {
    if ps != [] {
      var init := ps[..|ps| - 1];
      ApplyPresencesKeys(last, init, u);
      assert forall i :: 0 <= i < |init| ==> init[i] == ps[i];
      assert Listed(ps, u) <==> Listed(init, u) || KeyOf(ps[|ps| - 1]) == u;
    }
  }

  /** A listed user's entry is the record of the last entry of the response that lists it. */
  lemma {:induction false} ApplyPresencesLatest(last: map<UserId, PresenceRecord>, ps: seq<UserPresence>, i: nat)
    requires i < |ps| && LastListing(ps, KeyOf(ps[i]), i)
    ensures KeyOf(ps[i]) in ApplyPresences(last, ps)
    ensures ApplyPresences(last, ps)[KeyOf(ps[i])] == RecordOf(ps[i])
  {
    var n := |ps|;
    if i < n - 1 {
      var init := ps[..n - 1];
      assert init[i] == ps[i];
      assert LastListing(init, KeyOf(init[i]), i) by {
        forall j | i < j < |init| ensures KeyOf(init[j]) != KeyOf(ps[i]) {
          assert init[j] == ps[j];
        }
      }
      ApplyPresencesLatest(last, init, i);
      assert KeyOf(ps[n - 1]) != KeyOf(ps[i]);
    }
  }

  /** Everyone in the new in-game set has a `lastPresence` entry afterwards. */
  lemma {:induction false} NextInGameRecorded(last: map<UserId, PresenceRecord>, ps: seq<UserPresence>)
    ensures NextInGame(ps) <= ApplyPresences(last, ps).Keys
  {
    if ps != [] {
      NextInGameRecorded(last, ps[..|ps| - 1]);
    }
  }

  /** The three-cycle scenario: A at the target and B elsewhere, then the other way round,
      then the same again. */
  lemma ThreeCycles()
    ensures var a, b := UserPresence(11, 2, Some(583507031)), UserPresence(22, 2, Some(7));
      var a', b' := UserPresence(11, 2, Some(7)), UserPresence(22, 2, Some(583507031));
      && Alerts({}, false, [a, b]) == [AlreadyIn("11")] && NextInGame([a, b]) == {"11"}
      && Alerts({"11"}, true, [a', b']) == [Left("11"), Joined("22")] && NextInGame([a', b']) == {"22"}
      && Alerts({"22"}, true, [a', b']) == [] && NextInGame([a', b']) == {"22"}
  {
    var a, b := UserPresence(11, 2, Some(583507031)), UserPresence(22, 2, Some(7));
    var a', b' := UserPresence(11, 2, Some(7)), UserPresence(22, 2, Some(583507031));
    ScenarioUsers();
    TwoEntries({}, false, a, b);
    TwoEntries({"11"}, true, a', b');
    TwoEntries({"22"}, true, a', b');
  }

  /** The users of the scenario: their printed ids and where they are. */
  lemma ScenarioUsers()
    ensures KeyOf(UserPresence(11, 2, Some(583507031))) == "11" && InTarget(UserPresence(11, 2, Some(583507031)))
    ensures KeyOf(UserPresence(22, 2, Some(7))) == "22" && !InTarget(UserPresence(22, 2, Some(7)))
    ensures KeyOf(UserPresence(11, 2, Some(7))) == "11" && !InTarget(UserPresence(11, 2, Some(7)))
    ensures KeyOf(UserPresence(22, 2, Some(583507031))) == "22" && InTarget(UserPresence(22, 2, Some(583507031)))
  {
    assert NatToString(1) == "1" && NatToString(2) == "2";
    InTargetIff(UserPresence(11, 2, Some(583507031)));
    InTargetIff(UserPresence(22, 2, Some(7)));
    InTargetIff(UserPresence(11, 2, Some(7)));
    InTargetIff(UserPresence(22, 2, Some(583507031)));
  }

  /** A two-entry response, entry by entry. */
  lemma TwoEntries(current: set<UserId>, sweepDone: bool, p: UserPresence, q: UserPresence)
    ensures Alerts(current, sweepDone, [p, q]) == Events(current, sweepDone, p) + Events(current, sweepDone, q)
    ensures NextInGame([p, q]) == (if InTarget(p) then {KeyOf(p)} else {}) + (if InTarget(q) then {KeyOf(q)} else {})
  {
    assert [p, q][..1] == [p] && [p][..0] == [];
    assert Alerts(current, sweepDone, [p]) == Events(current, sweepDone, p);
    assert Alerts(current, sweepDone, [p, q]) == Alerts(current, sweepDone, [p]) + Events(current, sweepDone, q);
    assert NextInGame([p]) == (if InTarget(p) then {KeyOf(p)} else {});
    assert NextInGame([p, q]) == NextInGame([p]) + (if InTarget(q) then {KeyOf(q)} else {});
  }
}
