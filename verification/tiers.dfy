/**
 Honor tiers: the fixed table from honor thresholds to group role ids, and the
 rule that picks a player's role from their honor.

 A table row is a pair (threshold, roleId). The server keeps its rows in
 ascending threshold order and scans them from the last row to the first,
 stopping at the first threshold the honor reaches.
 */
module Tiers {

  datatype Option<T> = None | Some(value: T)

  /** The server's table: 14 rows, thresholds strictly increasing from 0. */
  const HONOR_RANKS: seq<(int, int)> := [
    (0, 102794177),
    (1, 84972954),
    (5, 85150886),
    (10, 89383841),
    (15, 85006910),
    (20, 85006940),
    (30, 84972953),
    (40, 90562516),
    (50, 91138752),
    (70, 87676269),
    (90, 85006963),
    (120, 102794281),
    (150, 89896768),
    (6969, 98990029)
  ]

  /** Each threshold is strictly greater than the one before it. */
  ghost predicate Ascending(table: seq<(int, int)>) {
    forall i :: 0 < i < |table| ==> table[i - 1].0 < table[i].0
  }

  /** Any two thresholds are in strictly increasing order. */
  ghost predicate StrictlySorted(table: seq<(int, int)>) {
    forall i, j :: 0 <= i < j < |table| ==> table[i].0 < table[j].0
  }

  /**
   Reference definition of the tier: row i holds the greatest threshold
   that does not exceed the honor.
   */
  ghost predicate Selects(table: seq<(int, int)>, honor: int, i: int) {
    && 0 <= i < |table|
    && table[i].0 <= honor
    && forall j :: 0 <= j < |table| && table[j].0 <= honor ==> table[j].0 <= table[i].0
  }

  /**
   The row the reversed scan stops at: the last row whose threshold the honor
   reaches, or None when the honor is below every threshold.
   */
  function LastReached(table: seq<(int, int)>, honor: int): (r: Option<nat>)
    ensures r.Some? ==> r.value < |table| && table[r.value].0 <= honor
    ensures r.Some? ==> forall j :: r.value < j < |table| ==> honor < table[j].0
    ensures r.None? ==> forall j :: 0 <= j < |table| ==> honor < table[j].0
    decreases |table|
  {
    if |table| == 0 then None
    else if table[|table| - 1].0 <= honor then Some(|table| - 1)
    else LastReached(table[..|table| - 1], honor)
  }

  /** The role id the scan assigns to `newRoleId`, or None when no row matches. */
  function Resolve(table: seq<(int, int)>, honor: int): (r: Option<int>)
    ensures r.None? <==> forall j :: 0 <= j < |table| ==> honor < table[j].0
  {
    match LastReached(table, honor)
    case None => None
    case Some(i) => Some(table[i].1)
  }

  /**
   The scan over the table in reverse, as the handlers run it: walk the rows
   from the highest threshold down and take the first one the honor reaches.
   */
  method ScanTiers(table: seq<(int, int)>, honor: int) returns (newRoleId: Option<int>)
    ensures newRoleId == Resolve(table, honor)
  {
    newRoleId := None;
    var i := |table|;
    while i > 0
      invariant 0 <= i <= |table|
      invariant newRoleId.None?
      invariant forall j :: i <= j < |table| ==> honor < table[j].0
    {
      i := i - 1;
      if honor >= table[i].0 {
        newRoleId := Some(table[i].1);
        break;
      }
    }
  }

  lemma {:induction false} AscendingPair(table: seq<(int, int)>, i: int, j: int)
    requires Ascending(table)
    requires 0 <= i < j < |table|
    ensures table[i].0 < table[j].0
    decreases j - i
  {
    if i + 1 < j {
      AscendingPair(table, i, j - 1);
    }
  }

  /** Adjacent order gives order between any two rows. */
  lemma AscendingIsSorted(table: seq<(int, int)>)
    requires Ascending(table)
    ensures StrictlySorted(table)
  {
    forall i, j | 0 <= i < j < |table|
      ensures table[i].0 < table[j].0
    {
      AscendingPair(table, i, j);
    }
  }

  /**
   On an ascending table the scan finds exactly the row of the greatest
   threshold not exceeding the honor; it fails exactly when the honor is below
   every threshold.
   */
  lemma ResolveIsGreatestAtMost(table: seq<(int, int)>, honor: int)
    requires Ascending(table)
    ensures forall i :: Selects(table, honor, i) ==> Resolve(table, honor) == Some(table[i].1)
    ensures Resolve(table, honor).Some? ==>
              exists i :: Selects(table, honor, i) && Resolve(table, honor).value == table[i].1
  {
    AscendingIsSorted(table);
    match LastReached(table, honor)
    case None =>
    case Some(k) =>
      assert Selects(table, honor, k);
  }

  /**
   A greater honor never selects a lower row: once some threshold is
   reached, a larger honor reaches one at least as high.
   */
  lemma LastReachedMonotone(table: seq<(int, int)>, h1: int, h2: int)
    requires Ascending(table)
    requires h1 <= h2
    requires LastReached(table, h1).Some?
    ensures LastReached(table, h2).Some?
    ensures LastReached(table, h1).value <= LastReached(table, h2).value
    ensures table[LastReached(table, h1).value].0 <= table[LastReached(table, h2).value].0
  {
  }

  /** Honor exactly equal to a threshold resolves to that row's own role. */
  lemma ThresholdResolvesToOwnRole(table: seq<(int, int)>, i: int)
    requires Ascending(table)
    requires 0 <= i < |table|
    ensures Resolve(table, table[i].0) == Some(table[i].1)
  {
    AscendingIsSorted(table);
    ResolveIsGreatestAtMost(table, table[i].0);
    assert Selects(table, table[i].0, i);
  }

  /** The server's table is well formed: ascending, starting at 0, no role id 0. */
  lemma HonorRanksWellFormed()
    ensures |HONOR_RANKS| == 14
    ensures Ascending(HONOR_RANKS)
    ensures HONOR_RANKS[0].0 == 0
    ensures forall i :: 0 <= i < |HONOR_RANKS| ==> HONOR_RANKS[i].1 != 0
  {
  }

  /**
   With the server's table every honor of at least 0 resolves to a nonzero
   role id, and every negative honor resolves to nothing.
   */
  lemma HonorRanksResolve(honor: int)
    ensures honor >= 0 <==> Resolve(HONOR_RANKS, honor).Some?
    ensures Resolve(HONOR_RANKS, honor).Some? ==> Resolve(HONOR_RANKS, honor).value != 0
  {
    HonorRanksWellFormed();
    AscendingIsSorted(HONOR_RANKS);
  }

  /** Boundary: 30 resolves to the role of threshold 30, 29 to that of threshold 20. */
  lemma ThirtyIsItsOwnTier()
    ensures Resolve(HONOR_RANKS, 30) == Some(84972953)
    ensures Resolve(HONOR_RANKS, 29) == Some(85006940)
  {
    HonorRanksWellFormed();
    ThresholdResolvesToOwnRole(HONOR_RANKS, 6);
    BelowNextThreshold(HONOR_RANKS, 5, 29);
  }

  /** Honor between a threshold and the next one resolves to the lower row's role. */
  lemma BelowNextThreshold(table: seq<(int, int)>, i: int, honor: int)
    requires Ascending(table)
    requires 0 <= i < |table|
    requires table[i].0 <= honor
    requires i + 1 < |table| ==> honor < table[i + 1].0
    ensures Resolve(table, honor) == Some(table[i].1)
  {
    forall j | 0 <= j < |table| && table[j].0 <= honor
      ensures table[j].0 <= table[i].0
    {
      if i + 1 < j {
        AscendingPair(table, i + 1, j);
      } else if j < i {
        AscendingPair(table, j, i);
      }
    }
    ResolveIsGreatestAtMost(table, honor);
  }
}
