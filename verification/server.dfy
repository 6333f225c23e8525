/**
 The two progress-reporting handlers as they run: each updates the player
 store and the group's roles step by step, in the order the server issues its
 calls. Each method is proved to do what the matching step in Progress states.
 */
module Server {
  import opened Tiers
  import opened Progress

  /**
   The server with its collaborators reduced to state: the store's records, the
   group members' roles, and the log of role-set requests sent to the group.
   */
  class RankBot {
    var store: map<int, Record>
    var roles: map<int, int>
    var rankCalls: seq<(int, int)>

    /** The state as one value, for relating a call to its step function. */
    function State(): World
      reads this
    {
      World(store, roles, rankCalls)
    }

    constructor (store0: map<int, Record>, roles0: map<int, int>)
      ensures State() == World(store0, roles0, [])
    {
      store := store0;
      roles := roles0;
      rankCalls := [];
    }

    /** Read the player's role in the group and request the new one only if it differs. */
    method SyncRank(userid: int, newRoleId: int)
      modifies this
      ensures State() == SyncRole(old(State()), userid, newRoleId)
    {
      var currentRoleId := CurrentRole(roles, userid);
      if currentRoleId != newRoleId {
        roles := roles[userid := newRoleId];
        rankCalls := rankCalls + [(userid, newRoleId)];
      }
    }

    /** `POST /ranker` with body {userid, honor, timeSpent}. */
    method PostRanker(userid: Field, honor: Field, timeSpent: Field, fault: Fault) returns (outcome: Outcome)
      modifies this
      ensures (State(), outcome) == DirectReport(old(State()), userid, honor, timeSpent, fault)
    {
      if !PassesGuard(userid) || !PassesGuard(honor) || !PassesGuard(timeSpent) {
        return BadInput;
      }
      var newRoleId := ScanTiers(HONOR_RANKS, honor.n);
      if !Usable(newRoleId) {
        return BadTier;
      }
      if fault == StoreWriteFault {
        return UpstreamFailure;
      }
      store := store[userid.n := Record(honor.n, timeSpent.n)];
      if fault == GroupFault {
        return UpstreamFailure;
      }
      SyncRank(userid.n, newRoleId.value);
      outcome := Ok;
    }

    /** `POST /updateHonor` with body {userid, elapsedMinutes}. */
    method UpdateHonor(userid: Field, elapsedMinutes: Field, fault: Fault) returns (outcome: Outcome)
      modifies this
      ensures (State(), outcome) == ElapsedReport(old(State()), userid, elapsedMinutes, fault)
    {
      if !PassesGuard(userid) || !PassesGuard(elapsedMinutes) {
        return BadInput;
      }
      if fault == StoreReadFault {
        return UpstreamFailure;
      }
      if userid.n !in store {
        return NotFound;
      }
      var honor := store[userid.n].honor;
      var timeSpent := store[userid.n].timeSpent;
      timeSpent := timeSpent + elapsedMinutes.n;
      var honorIncrement := timeSpent / 30;
      honor := honor + honorIncrement;
      if fault == StoreWriteFault {
        return UpstreamFailure;
      }
      store := store[userid.n := Record(honor, timeSpent)];
      var newRoleId := ScanTiers(HONOR_RANKS, honor);
      if !Usable(newRoleId) {
        return BadTier;
      }
      if fault == GroupFault {
        return UpstreamFailure;
      }
      SyncRank(userid.n, newRoleId.value);
      outcome := Ok;
    }
  }

  /** A client of the class: a repeated report sends no second role-set request. */
  method RepeatedReport(bot: RankBot, userid: int, honor: int, timeSpent: int)
    requires userid != 0 && honor > 0 && timeSpent != 0
    modifies bot
    ensures |bot.rankCalls| <= |old(bot.rankCalls)| + 1
    ensures userid in bot.store && bot.store[userid] == Record(honor, timeSpent)
    ensures Resolve(HONOR_RANKS, honor) == Some(CurrentRole(bot.roles, userid))
  {
    var first := bot.PostRanker(Num(userid), Num(honor), Num(timeSpent), NoFault);
    assert first == Ok;
    var afterFirst := bot.State();
    RepeatedDirectReportIsIdempotent(old(bot.State()), Num(userid), Num(honor), Num(timeSpent));
    var second := bot.PostRanker(Num(userid), Num(honor), Num(timeSpent), NoFault);
    assert second == Ok && bot.State() == afterFirst;
  }
}
