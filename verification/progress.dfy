/**
 The progress-update service as pure steps over the state it touches: the
 player store, the group's roles, and the log of role-set requests it has
 issued. Each step returns the new state and the outcome of the request.
 */
module Progress {
  import opened Tiers

  /** A player's stored progress, as written under `players/<userid>`. */
  datatype Record = Record(honor: int, timeSpent: int)

  /**
   A field of a JSON request body, by its JavaScript value: a number, a
   string, a boolean, null, an object or array, or absent (undefined).
   */
  datatype Field = Num(n: int) | Text(s: string) | Flag(b: bool) | Null | Compound | Absent

  /** JavaScript's `typeof` on a field's value. */
  function TypeOf(f: Field): string {
    match f
    case Num(_) => "number"
    case Text(_) => "string"
    case Flag(_) => "boolean"
    case Null => "object"
    case Compound => "object"
    case Absent => "undefined"
  }

  /** JavaScript falsiness (`!x`): 0, the empty string, false, null and undefined. */
  predicate Falsy(f: Field) {
    match f
    case Num(n) => n == 0
    case Text(s) => s == ""
    case Flag(b) => !b
    case Null => true
    case Compound => false
    case Absent => true
  }

  /** The handlers' per-field guard `!x || typeof x !== 'number'` does not fire. */
  function PassesGuard(f: Field): (ok: bool)
    ensures ok <==> f.Num? && f.n != 0
  {
    !(Falsy(f) || TypeOf(f) != "number")
  }

  /** `newRoleId` as a JavaScript value: undefined until the scan assigns it. */
  function RoleValue(role: Option<int>): Field {
    match role
    case None => Absent
    case Some(id) => Num(id)
  }

  /** The `!newRoleId` test does not fire. */
  function Usable(role: Option<int>): (ok: bool)
    ensures ok <==> role.Some? && role.value != 0
  {
    !Falsy(RoleValue(role))
  }

  /** Which call into the store or the group service throws, if any. */
  datatype Fault = NoFault | StoreReadFault | StoreWriteFault | GroupFault

  /** What a request answers. */
  datatype Outcome = Ok | BadInput | BadTier | NotFound | NoPlayers | UpstreamFailure

  /** The HTTP status each outcome is answered with. */
  function Status(o: Outcome): int {
    match o
    case Ok => 200
    case BadInput => 400
    case BadTier => 400
    case NotFound => 404
    case NoPlayers => 404
    case UpstreamFailure => 500
  }

  /**
   Everything a request can change: the store (player id to record), each group
   member's current role id, and the role-set requests issued so far, oldest first.
   */
  datatype World = World(store: map<int, Record>, roles: map<int, int>, rankCalls: seq<(int, int)>)

  /** The role a player holds in the group; 0 for a player who is not a member. */
  function CurrentRole(roles: map<int, int>, userid: int): (role: int)
    ensures role != 0 ==> userid in roles && roles[userid] == role
    ensures userid in roles ==> role == roles[userid]
  {
    if userid in roles then roles[userid] else 0
  }

  /**
   Role synchronisation: read the player's current role and issue a role-set
   request only when it differs from the target.
   */
  function SyncRole(w: World, userid: int, target: int): (w': World)
    ensures w'.store == w.store
    ensures CurrentRole(w'.roles, userid) == target
    ensures forall v :: v != userid ==> CurrentRole(w'.roles, v) == CurrentRole(w.roles, v)
    ensures CurrentRole(w.roles, userid) == target ==> w' == w
    ensures CurrentRole(w.roles, userid) != target ==> w'.rankCalls == w.rankCalls + [(userid, target)]
  {
    if CurrentRole(w.roles, userid) != target then
      w.(roles := w.roles[userid := target], rankCalls := w.rankCalls + [(userid, target)])
    else
      w
  }

  /** The tail both handlers share: the group calls, which may throw, then the sync. */
  function GroupStep(w: World, userid: int, target: int, fault: Fault): (r: (World, Outcome))
    ensures r.1 == Ok <==> fault != GroupFault
    ensures r.1 != Ok ==> r.1 == UpstreamFailure && r.0 == w
    ensures r.0.store == w.store
    ensures r.1 == Ok ==> CurrentRole(r.0.roles, userid) == target
  {
    if fault == GroupFault then (w, UpstreamFailure) else (SyncRole(w, userid, target), Ok)
  }

  /** `POST /ranker`: validate, resolve the tier, overwrite the record, sync the role. */
  function DirectReport(w: World, userid: Field, honor: Field, timeSpent: Field, fault: Fault): (r: (World, Outcome))
    ensures r.1 == BadInput <==> !(PassesGuard(userid) && PassesGuard(honor) && PassesGuard(timeSpent))
    ensures r.1 == BadTier <==> PassesGuard(userid) && PassesGuard(honor) && PassesGuard(timeSpent) && honor.n < 0
    ensures r.1 == Ok <==>
              && PassesGuard(userid) && PassesGuard(honor) && PassesGuard(timeSpent) && honor.n > 0
              && fault != StoreWriteFault && fault != GroupFault
    ensures r.1 == BadInput || r.1 == BadTier ==> r.0 == w
    ensures r.1 != Ok ==> r.0.roles == w.roles && r.0.rankCalls == w.rankCalls
    ensures r.1 == UpstreamFailure ==>
              r.0.store == w.store || r.0.store == w.store[userid.n := Record(honor.n, timeSpent.n)]
    ensures r.1 == Ok ==>
              var target := CurrentRole(r.0.roles, userid.n);
              && r.0.store == w.store[userid.n := Record(honor.n, timeSpent.n)]
              && Resolve(HONOR_RANKS, honor.n) == Some(target)
              && (forall v :: v != userid.n ==> CurrentRole(r.0.roles, v) == CurrentRole(w.roles, v))
              && r.0.rankCalls == w.rankCalls + if CurrentRole(w.roles, userid.n) == target then [] else [(userid.n, target)]
  {
    if !(PassesGuard(userid) && PassesGuard(honor) && PassesGuard(timeSpent)) then (w, BadInput)
    else
      var newRoleId := Resolve(HONOR_RANKS, honor.n);
      HonorRanksResolve(honor.n);
      if !Usable(newRoleId) then (w, BadTier)
      else if fault == StoreWriteFault then (w, UpstreamFailure)
      else
        var stored := w.(store := w.store[userid.n := Record(honor.n, timeSpent.n)]);
        GroupStep(stored, userid.n, newRoleId.value, fault)
  }

  /**
   The `/updateHonor` arithmetic: the elapsed minutes are added to the time
   spent, then honor grows by the number of whole 30-minute blocks in the NEW
   CUMULATIVE time spent (rounded down, also for negative totals).
   */
  function Accrue(rec: Record, elapsedMinutes: int): (r: Record)
    ensures r.timeSpent - rec.timeSpent == elapsedMinutes
    ensures 30 * (r.honor - rec.honor) <= r.timeSpent < 30 * (r.honor - rec.honor) + 30
  {
    var timeSpent := rec.timeSpent + elapsedMinutes;
    // Dafny's `/` by a positive divisor rounds down, as `Math.floor(timeSpent / 30)` does.
    Record(rec.honor + timeSpent / 30, timeSpent)
  }

  /**
   `POST /updateHonor`: validate, read the record (404 when absent), accrue,
   write the record back, and only then resolve the tier and sync the role.
   */
  function ElapsedReport(w: World, userid: Field, elapsedMinutes: Field, fault: Fault): (r: (World, Outcome))
    ensures r.1 == BadInput <==> !(PassesGuard(userid) && PassesGuard(elapsedMinutes))
    ensures r.1 == NotFound <==>
              PassesGuard(userid) && PassesGuard(elapsedMinutes) && fault != StoreReadFault && userid.n !in w.store
    ensures r.1 == BadInput || r.1 == NotFound ==> r.0 == w
    ensures r.1 != Ok ==> r.0.roles == w.roles && r.0.rankCalls == w.rankCalls
    ensures r.1 == Ok <==>
              && PassesGuard(userid) && PassesGuard(elapsedMinutes) && userid.n in w.store
              && fault == NoFault
              && Accrue(w.store[userid.n], elapsedMinutes.n).honor >= 0
    ensures r.1 == BadTier <==>
              && PassesGuard(userid) && PassesGuard(elapsedMinutes) && userid.n in w.store
              && fault != StoreReadFault && fault != StoreWriteFault
              && Accrue(w.store[userid.n], elapsedMinutes.n).honor < 0
    ensures r.1 == BadTier || r.1 == Ok ==>
              userid.n in w.store && r.0.store == w.store[userid.n := Accrue(w.store[userid.n], elapsedMinutes.n)]
    ensures r.1 == Ok ==>
              var target := CurrentRole(r.0.roles, userid.n);
              && Resolve(HONOR_RANKS, Accrue(w.store[userid.n], elapsedMinutes.n).honor) == Some(target)
              && (forall v :: v != userid.n ==> CurrentRole(r.0.roles, v) == CurrentRole(w.roles, v))
              && r.0.rankCalls == w.rankCalls + if CurrentRole(w.roles, userid.n) == target then [] else [(userid.n, target)]
  {
    if !(PassesGuard(userid) && PassesGuard(elapsedMinutes)) then (w, BadInput)
    else if fault == StoreReadFault then (w, UpstreamFailure)
    else if userid.n !in w.store then (w, NotFound)
    else
      var rec := Accrue(w.store[userid.n], elapsedMinutes.n);
      if fault == StoreWriteFault then (w, UpstreamFailure)
      else
        var stored := w.(store := w.store[userid.n := rec]);
        var newRoleId := Resolve(HONOR_RANKS, rec.honor);
        HonorRanksResolve(rec.honor);
        if !Usable(newRoleId) then (stored, BadTier)
        else GroupStep(stored, userid.n, newRoleId.value, fault)
  }

  /** One entry of the `GET /players` answer. */
  datatype PlayerRow = PlayerRow(userid: int, honor: int, timeSpent: int)

  lemma NonEmptyHasElement(keys: set<int>)
    requires keys != {}
    ensures exists k :: k in keys
  {
    if forall k :: k !in keys {
      assert false;
    }
  }

  lemma {:induction false} MinExists(keys: set<int>)
    requires keys != {}
    ensures exists k :: k in keys && forall j :: j in keys ==> k <= j
    decreases |keys|
  {
    NonEmptyHasElement(keys);
    var x :| x in keys;
    var rest := keys - {x};
    if rest == {} {
      forall j | j in keys
        ensures x <= j
      {
        assert j !in rest;
      }
    } else {
      MinExists(rest);
      var m :| m in rest && forall j :: j in rest ==> m <= j;
      var least := if x < m then x else m;
      forall j | j in keys
        ensures least <= j
      {
        if j != x {
          assert j in rest;
        }
      }
      assert least in keys;
    }
  }

  /** The least player id in a nonempty set of ids. */
  function MinKey(keys: set<int>): (k: int)
    requires keys != {}
    ensures k in keys && forall j :: j in keys ==> k <= j
  {
    MinExists(keys);
    var k :| k in keys && forall j :: j in keys ==> k <= j;
    k
  }

  /**
   The store's records as rows, in ascending id order (the order in which a
   JavaScript object yields integer keys). The `|| 0` defaults of the source
   leave integer fields as they are.
   */
  function Rows(store: map<int, Record>): (rows: seq<PlayerRow>)
    ensures |rows| == |store|
    ensures forall i :: 0 <= i < |rows| ==>
              rows[i].userid in store && store[rows[i].userid] == Record(rows[i].honor, rows[i].timeSpent)
    ensures forall i, j :: 0 <= i < j < |rows| ==> rows[i].userid < rows[j].userid
    decreases |store|
  {
    if store == map[] then []
    else
      var k := MinKey(store.Keys);
      var rest := store - {k};
      assert rest.Keys == store.Keys - {k};
      [PlayerRow(k, store[k].honor, store[k].timeSpent)] + Rows(rest)
  }

  /** Every stored player appears among the rows. */
  lemma {:induction false} RowsCoverStore(store: map<int, Record>, k: int)
    requires k in store
    ensures exists i :: 0 <= i < |Rows(store)| && Rows(store)[i].userid == k
    decreases |store|
  {
    var m := MinKey(store.Keys);
    var rest := store - {m};
    assert rest.Keys == store.Keys - {m};
    assert Rows(store) == [PlayerRow(m, store[m].honor, store[m].timeSpent)] + Rows(rest);
    if k == m {
      assert Rows(store)[0].userid == k;
    } else {
      RowsCoverStore(rest, k);
      var i :| 0 <= i < |Rows(rest)| && Rows(rest)[i].userid == k;
      assert Rows(store)[i + 1].userid == k;
    }
  }

  /** `GET /players`: every record as a row, 404 on an empty store. */
  function ListPlayers(store: map<int, Record>, fault: Fault): (r: (Outcome, seq<PlayerRow>))
    ensures r.0 == UpstreamFailure <==> fault == StoreReadFault
    ensures r.0 == NoPlayers <==> fault != StoreReadFault && |store| == 0
    ensures r.0 != Ok ==> r.1 == []
    ensures r.0 == Ok ==> |r.1| == |store| > 0
    ensures r.0 == Ok ==> forall i :: 0 <= i < |r.1| ==>
              r.1[i].userid in store && store[r.1[i].userid] == Record(r.1[i].honor, r.1[i].timeSpent)
  {
    if fault == StoreReadFault then (UpstreamFailure, [])
    else if store == map[] then (NoPlayers, [])
    else (Ok, Rows(store))
  }

  /**
   A repeated identical direct report leaves everything as the first one left
   it: the same record, the same roles, and no further role-set request.
   */
  lemma RepeatedDirectReportIsIdempotent(w: World, userid: Field, honor: Field, timeSpent: Field)
    requires DirectReport(w, userid, honor, timeSpent, NoFault).1 == Ok
    ensures var w1 := DirectReport(w, userid, honor, timeSpent, NoFault).0;
            DirectReport(w1, userid, honor, timeSpent, NoFault) == (w1, Ok)
  {
    var w1 := DirectReport(w, userid, honor, timeSpent, NoFault).0;
    var rec := Record(honor.n, timeSpent.n);
    assert w1.store[userid.n := rec] == w1.store;
  }

  /**
   JavaScript falsiness: a report whose honor or time spent is 0 is rejected
   with 400 and writes nothing, even though threshold 0 would resolve.
   */
  lemma ZeroFieldsAreRejected(w: World, userid: Field, fault: Fault)
    ensures DirectReport(w, userid, Num(0), Num(15), fault) == (w, BadInput)
    ensures DirectReport(w, userid, Num(15), Num(0), fault) == (w, BadInput)
    ensures DirectReport(w, Num(1), Num(0), Num(0), fault) == (w, BadInput)
    ensures ElapsedReport(w, userid, Num(0), fault) == (w, BadInput)
  {
  }

  /** A field that is not a number is rejected with 400, even a numeric string, and nothing is written. */
  lemma NonNumberFieldsAreRejected(w: World, userid: Field, fault: Fault)
    ensures DirectReport(w, userid, Text("30"), Num(15), fault) == (w, BadInput)
    ensures DirectReport(w, userid, Num(30), Absent, fault) == (w, BadInput)
    ensures DirectReport(w, Flag(true), Num(30), Num(15), fault) == (w, BadInput)
    ensures ElapsedReport(w, userid, Text("10"), fault) == (w, BadInput)
  {
  }

  /** Negative values pass validation: a negative time spent is stored, a negative honor fails on its tier. */
  lemma NegativeValuesPassValidation(w: World, userid: int, honor: int, timeSpent: int)
    requires userid != 0 && timeSpent != 0
    ensures honor < 0 ==> DirectReport(w, Num(userid), Num(honor), Num(timeSpent), NoFault) == (w, BadTier)
    ensures honor > 0 ==> DirectReport(w, Num(userid), Num(honor), Num(timeSpent), NoFault).0.store[userid]
                          == Record(honor, timeSpent)
  {
  }

  /** Role sync converges: after a successful report the player holds the role its stored honor resolves to. */
  lemma ReportedRoleMatchesStoredHonor(w: World, userid: Field, honor: Field, timeSpent: Field, elapsedMinutes: Field)
    ensures var r := DirectReport(w, userid, honor, timeSpent, NoFault);
            r.1 == Ok ==> Resolve(HONOR_RANKS, r.0.store[userid.n].honor) == Some(CurrentRole(r.0.roles, userid.n))
    ensures var r := ElapsedReport(w, userid, elapsedMinutes, NoFault);
            r.1 == Ok ==> Resolve(HONOR_RANKS, r.0.store[userid.n].honor) == Some(CurrentRole(r.0.roles, userid.n))
  {
  }

  /**
   {honor 25, timeSpent 80} plus 10 minutes: time spent 90, honor 25 + 3 = 28,
   and the player is moved to the role of threshold 20.
   */
  lemma ElapsedReportScenario(w: World, userid: int)
    requires userid != 0 && userid in w.store && w.store[userid] == Record(25, 80)
    ensures var r := ElapsedReport(w, Num(userid), Num(10), NoFault);
            && r.1 == Ok
            && r.0.store == w.store[userid := Record(28, 90)]
            && CurrentRole(r.0.roles, userid) == 85006940
  {
    HonorRanksWellFormed();
    BelowNextThreshold(HONOR_RANKS, 5, 28);
    assert Accrue(Record(25, 80), 10) == Record(28, 90);
  }

  /**
   The record is written before the tier is checked: a report that leaves the
   honor negative is answered 400 but its new record is already stored.
   */
  lemma StoredBeforeTierCheck(w: World, userid: int)
    requires userid != 0 && userid in w.store && w.store[userid] == Record(-100, 0)
    ensures ElapsedReport(w, Num(userid), Num(1), NoFault) == (w.(store := w.store[userid := Record(-100, 1)]), BadTier)
  {
    assert Accrue(Record(-100, 0), 1) == Record(-100, 1);
  }

  /**
   Honor is awarded on the cumulative time spent, not on the minutes just
   reported: two reports of 1 minute from {honor 1, timeSpent 30} award 1 + 1,
   one report of 2 minutes awards 1.
   */
  lemma CumulativeAwardDependsOnSplitting()
    ensures Accrue(Accrue(Record(1, 30), 1), 1) == Record(3, 32)
    ensures Accrue(Record(1, 30), 2) == Record(2, 32)
  {
  }

  /** With a non-negative new total, a report never lowers honor. */
  lemma AccrueNeverLowersHonor(rec: Record, elapsedMinutes: int)
    requires rec.timeSpent + elapsedMinutes >= 0
    ensures Accrue(rec, elapsedMinutes).honor >= rec.honor
  {
  }

  /** Every stored player is listed by `GET /players`, exactly once, in ascending id order. */
  lemma ListPlayersIsComplete(store: map<int, Record>, k: int)
    requires k in store
    ensures var r := ListPlayers(store, NoFault);
            && r.0 == Ok
            && (exists i :: 0 <= i < |r.1| && r.1[i].userid == k)
            && (forall i, j :: 0 <= i < j < |r.1| ==> r.1[i].userid < r.1[j].userid)
  {
    RowsCoverStore(store, k);
  }
}
