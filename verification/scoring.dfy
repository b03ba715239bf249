/**
 The objective of the antenna-placement search: Manhattan distance between
 grid cells and the score of a complete placement (one cell per antenna).

 The program keeps buildings and antennas as parallel lists (positions,
 speed scores, latency scores; ranges, speeds); here each entity is one record,
 and list index i of the program is sequence index i here.
 */
module Scoring {

  /** A grid cell. */
  datatype Pos = Pos(x: int, y: int)

  /** A building: where it stands and how much it values speed and latency. */
  datatype Building = Building(pos: Pos, speedScore: int, latencyScore: int)

  /** An antenna model: how far it reaches and how fast it is. */
  datatype Antenna = Antenna(range: int, speed: int)

  /** One cell per antenna: index i places the antenna described by antennas[i]. */
  type Placement = seq<Pos>

  function Abs(n: int): nat
  {
    if n < 0 then -n else n
  }

  /** Manhattan distance. */
  function Distance(a: Pos, b: Pos): (d: nat)
    ensures d == 0 <==> a == b
    ensures Abs(a.x - b.x) <= d && Abs(a.y - b.y) <= d
  {
    Abs(a.x - b.x) + Abs(a.y - b.y)
  }

  lemma DistanceSymmetric(a: Pos, b: Pos)
    ensures Distance(a, b) == Distance(b, a)
  {
  }

  /** An antenna placed at p serves b when b lies within the antenna's own range (inclusive). */
  function Connects(b: Building, p: Pos, a: Antenna): (c: bool)
    ensures c ==> 0 <= a.range
    ensures b.pos == p ==> (c <==> 0 <= a.range)
  {
    Distance(b.pos, p) <= a.range
  }

  /** What one connection is worth to a building; may be negative. */
  function ConnectionScore(b: Building, p: Pos, a: Antenna): (s: int)
    ensures b.pos == p ==> s == b.speedScore * a.speed
    ensures 0 <= b.latencyScore ==> s <= b.speedScore * a.speed
  {
    b.speedScore * a.speed - b.latencyScore * Distance(b.pos, p)
  }

  /** Reference notion: some antenna of the placement serves b. */
  predicate Served(b: Building, placement: Placement, antennas: seq<Antenna>)
    requires |placement| <= |antennas|
  {
    exists i :: 0 <= i < |placement| && Connects(b, placement[i], antennas[i])
  }

  /** Reference notion: every building is served. */
  predicate AllServed(buildings: seq<Building>, placement: Placement, antennas: seq<Antenna>)
    requires |buildings| == 0 || |placement| <= |antennas|
  {
    forall k :: 0 <= k < |buildings| ==> Served(buildings[k], placement, antennas)
  }

  /**
   The indices, among the first n antennas, that serve b, in increasing order
   (the list of connected antenna ids the program builds for each building).
   */
  function ConnectedIds(b: Building, placement: Placement, antennas: seq<Antenna>, n: nat): (ids: seq<nat>)
    requires n <= |placement| <= |antennas|
    ensures forall k :: 0 <= k < |ids| ==> ids[k] < n && Connects(b, placement[ids[k]], antennas[ids[k]])
    ensures forall i :: 0 <= i < n && Connects(b, placement[i], antennas[i]) ==> i in ids
    ensures forall k, l :: 0 <= k < l < |ids| ==> ids[k] < ids[l]
  {
    if n == 0 then []
    else
      var ids := ConnectedIds(b, placement, antennas, n - 1);
      if Connects(b, placement[n - 1], antennas[n - 1]) then ids + [n - 1] else ids
  }

  /**
   The running maximum over the first n connected antennas, started at 0: a
   connection replaces the maximum only when it is strictly larger.
   */
  function MaxConnection(b: Building, placement: Placement, antennas: seq<Antenna>, ids: seq<nat>, n: nat): (m: int)
    requires |placement| <= |antennas|
    requires forall k :: 0 <= k < |ids| ==> ids[k] < |placement|
    requires n <= |ids|
    ensures 0 <= m
    ensures forall k :: 0 <= k < n ==> ConnectionScore(b, placement[ids[k]], antennas[ids[k]]) <= m
  {
    if n == 0 then 0
    else
      var m := MaxConnection(b, placement, antennas, ids, n - 1);
      var s := ConnectionScore(b, placement[ids[n - 1]], antennas[ids[n - 1]]);
      if s > m then s else m
  }

  /** The running maximum is its starting value 0 or the score of one of the connections it visited. */
  lemma {:induction false} MaxConnectionAttained(b: Building, placement: Placement, antennas: seq<Antenna>, ids: seq<nat>, n: nat)
    requires |placement| <= |antennas|
    requires forall k :: 0 <= k < |ids| ==> ids[k] < |placement|
    requires n <= |ids|
    ensures var m := MaxConnection(b, placement, antennas, ids, n);
      m == 0 || exists k :: 0 <= k < n && m == ConnectionScore(b, placement[ids[k]], antennas[ids[k]])
  {
    if n > 0 {
      MaxConnectionAttained(b, placement, antennas, ids, n - 1);
    }
  }

  /**
   What building b adds to the score: the running maximum over its connected
   antennas, started at 0.
   */
  function Contribution(b: Building, placement: Placement, antennas: seq<Antenna>): (c: int)
    requires |placement| <= |antennas|
    ensures 0 <= c
  {
    var ids := ConnectedIds(b, placement, antennas, |placement|);
    MaxConnection(b, placement, antennas, ids, |ids|)
  }

  /**
   A building's contribution is its best connection, never below 0: no
   antenna that serves it scores more, the contribution is 0 or the score of
   an antenna that serves it, and it is 0 when nothing serves it.
   */
  lemma ContributionIsBestConnection(b: Building, placement: Placement, antennas: seq<Antenna>)
    requires |placement| <= |antennas|
    ensures !Served(b, placement, antennas) ==> Contribution(b, placement, antennas) == 0
    ensures forall i :: 0 <= i < |placement| && Connects(b, placement[i], antennas[i]) ==>
      ConnectionScore(b, placement[i], antennas[i]) <= Contribution(b, placement, antennas)
    ensures var c := Contribution(b, placement, antennas);
      c == 0 || exists i :: (0 <= i < |placement| && Connects(b, placement[i], antennas[i]) &&
                             c == ConnectionScore(b, placement[i], antennas[i]))
  {
    var ids := ConnectedIds(b, placement, antennas, |placement|);
    ConnectedIdsNonEmptyIffServed(b, placement, antennas);
    MaxConnectionAttained(b, placement, antennas, ids, |ids|);
    forall i | 0 <= i < |placement| && Connects(b, placement[i], antennas[i])
      ensures exists k :: 0 <= k < |ids| && ids[k] == i
    {
      assert i in ids;
    }
  }

  lemma ConnectedIdsNonEmptyIffServed(b: Building, placement: Placement, antennas: seq<Antenna>)
    requires |placement| <= |antennas|
    ensures |ConnectedIds(b, placement, antennas, |placement|)| > 0 <==> Served(b, placement, antennas)
  {
    var ids := ConnectedIds(b, placement, antennas, |placement|);
    if Served(b, placement, antennas) {
      var i :| 0 <= i < |placement| && Connects(b, placement[i], antennas[i]);
      assert i in ids;
    }
    if |ids| > 0 {
      assert Connects(b, placement[ids[0]], antennas[ids[0]]);
    }
  }

  /** The two accumulators of the building loop: the running sum and the "all connected" flag. */
  datatype Tally = Tally(total: int, allConnected: bool)

  /**
   The building loop over the first n buildings: a building with connected
   antennas adds its contribution, one without clears the flag.
   */
  function TallyBuildings(buildings: seq<Building>, placement: Placement, antennas: seq<Antenna>, n: nat): (t: Tally)
    requires n <= |buildings|
    requires |buildings| == 0 || |placement| <= |antennas|
    ensures 0 <= t.total
  {
    if n == 0 then Tally(0, true)
    else
      var t := TallyBuildings(buildings, placement, antennas, n - 1);
      var b := buildings[n - 1];
      if |ConnectedIds(b, placement, antennas, |placement|)| > 0 then
        Tally(t.total + Contribution(b, placement, antennas), t.allConnected)
      else
        Tally(t.total, false)
  }

  /** The flag stays set exactly when every visited building is served. */
  lemma {:induction false} TallyFlagIffServed(buildings: seq<Building>, placement: Placement, antennas: seq<Antenna>, n: nat)
    requires n <= |buildings|
    requires |buildings| == 0 || |placement| <= |antennas|
    ensures TallyBuildings(buildings, placement, antennas, n).allConnected <==> AllServed(buildings[..n], placement, antennas)
  {
    if n > 0 {
      var b := buildings[n - 1];
      TallyFlagIffServed(buildings, placement, antennas, n - 1);
      ConnectedIdsNonEmptyIffServed(b, placement, antennas);
      assert TallyBuildings(buildings, placement, antennas, n).allConnected
         == (TallyBuildings(buildings, placement, antennas, n - 1).allConnected && Served(b, placement, antennas));
      ServedPrefixStep(buildings, placement, antennas, n);
    } else {
      assert buildings[..0] == [];
    }
  }

  /** The first n buildings are served when the first n - 1 and building n - 1 are. */
  lemma ServedPrefixStep(buildings: seq<Building>, placement: Placement, antennas: seq<Antenna>, n: nat)
    requires 0 < n <= |buildings| && |placement| <= |antennas|
    ensures AllServed(buildings[..n], placement, antennas)
        <==> AllServed(buildings[..n - 1], placement, antennas) && Served(buildings[n - 1], placement, antennas)
  {
    assert buildings[..n] == buildings[..n - 1] + [buildings[n - 1]];
  }

  /**
   The score of a placement: the sum of the building contributions, plus the
   reward once when every building is connected.
   */
  function Score(buildings: seq<Building>, placement: Placement, antennas: seq<Antenna>, reward: int): (s: int)
    requires |buildings| == 0 || |placement| <= |antennas|
    ensures 0 <= reward ==> 0 <= s
  {
    var t := TallyBuildings(buildings, placement, antennas, |buildings|);
    t.total + (if t.allConnected then reward else 0)
  }

  /** The reward is added exactly once, and exactly when every building is served. */
  lemma RewardOnlyWhenAllServed(buildings: seq<Building>, placement: Placement, antennas: seq<Antenna>, reward: int)
    requires |buildings| == 0 || |placement| <= |antennas|
    ensures Score(buildings, placement, antennas, reward)
         == Score(buildings, placement, antennas, 0) + (if AllServed(buildings, placement, antennas) then reward else 0)
  {
    TallyFlagIffServed(buildings, placement, antennas, |buildings|);
    assert buildings[..|buildings|] == buildings;
  }

  /** With no buildings every building is (vacuously) served: the score is the reward. */
  lemma NoBuildingsScoresReward(placement: Placement, antennas: seq<Antenna>, reward: int)
    ensures Score([], placement, antennas, reward) == reward
  {
  }

  /** Appending a building adds its contribution, and a building nobody serves withholds the reward. */
  lemma {:induction false} ScoreAppendBuilding(buildings: seq<Building>, b: Building, placement: Placement, antennas: seq<Antenna>, reward: int)
    requires |placement| <= |antennas|
    ensures Score(buildings + [b], placement, antennas, 0)
         == Score(buildings, placement, antennas, 0) + Contribution(b, placement, antennas)
    ensures !Served(b, placement, antennas) ==>
      Score(buildings + [b], placement, antennas, reward) == Score(buildings, placement, antennas, 0)
  {
    var bs := buildings + [b];
    TallyPrefix(buildings, bs, placement, antennas, |buildings|);
    ConnectedIdsNonEmptyIffServed(b, placement, antennas);
  }

  /** The building loop only looks at the buildings it has visited so far. */
  lemma {:induction false} TallyPrefix(xs: seq<Building>, ys: seq<Building>, placement: Placement, antennas: seq<Antenna>, n: nat)
    requires n <= |xs| && n <= |ys| && xs[..n] == ys[..n]
    requires |placement| <= |antennas|
    ensures TallyBuildings(xs, placement, antennas, n) == TallyBuildings(ys, placement, antennas, n)
  {
    if n > 0 {
      ShorterPrefix(xs, ys, n);
      TallyPrefix(xs, ys, placement, antennas, n - 1);
    }
  }

  lemma ShorterPrefix<T>(xs: seq<T>, ys: seq<T>, n: nat)
    requires 0 < n <= |xs| && n <= |ys| && xs[..n] == ys[..n]
    ensures xs[..n - 1] == ys[..n - 1] && xs[n - 1] == ys[n - 1]
  {
    assert xs[..n - 1] == xs[..n][..n - 1];
    assert ys[..n - 1] == ys[..n][..n - 1];
    assert xs[n - 1] == xs[..n][n - 1];
  }

  /**
   One building and one antenna: the score is the connection's worth (never
   below 0) plus the reward when the antenna reaches the building, and 0
   otherwise.
   */
  lemma SingleAntennaScore(b: Building, p: Pos, a: Antenna, reward: int)
    ensures Score([b], [p], [a], reward)
         == if Connects(b, p, a) then (if ConnectionScore(b, p, a) > 0 then ConnectionScore(b, p, a) else 0) + reward
            else 0
  {
    var ids := ConnectedIds(b, [p], [a], 1);
    assert ConnectedIds(b, [p], [a], 0) == [];
    assert ids == if Connects(b, p, a) then [0] else [];
    if Connects(b, p, a) {
      assert MaxConnection(b, [p], [a], ids, 0) == 0;
      assert Contribution(b, [p], [a]) == MaxConnection(b, [p], [a], ids, 1);
    }
    assert TallyBuildings([b], [p], [a], 0) == Tally(0, true);
  }

  // The worked scenario: one building at (2,2) with speed score 10 and latency
  // score 1, one antenna of range 2 and speed 5, a reward of 100.

  /** An antenna on the building scores 10 * 5 - 1 * 0, plus the reward. */
  lemma ScenarioAntennaOnBuilding()
    ensures Score([Building(Pos(2, 2), 10, 1)], [Pos(2, 2)], [Antenna(2, 5)], 100) == 150
  {
    SingleAntennaScore(Building(Pos(2, 2), 10, 1), Pos(2, 2), Antenna(2, 5), 100);
  }

  /** A building served by the only antenna, at a positive score, earns that score and the reward. */
  lemma InRangeSingleScore(b: Building, p: Pos, a: Antenna, reward: int)
    requires Connects(b, p, a) && ConnectionScore(b, p, a) > 0
    ensures Score([b], [p], [a], reward) == ConnectionScore(b, p, a) + reward
  {
    SingleAntennaScore(b, p, a, reward);
  }

  /** An antenna at the edge of its range still connects: 10 * 5 - 1 * 2, plus the reward. */
  lemma ScenarioAntennaAtRangeEdge()
    ensures Score([Building(Pos(2, 2), 10, 1)], [Pos(4, 2)], [Antenna(2, 5)], 100) == 148
  {
    var b, p, a := Building(Pos(2, 2), 10, 1), Pos(4, 2), Antenna(2, 5);
    assert Connects(b, p, a) && ConnectionScore(b, p, a) == 48 by {
      assert Distance(b.pos, p) == 2;
    }
    InRangeSingleScore(b, p, a, 100);
  }

  /** One cell further the building is unserved: no contribution and no reward. */
  lemma ScenarioAntennaOutOfRange()
    ensures Score([Building(Pos(2, 2), 10, 1)], [Pos(5, 2)], [Antenna(2, 5)], 100) == 0
  {
    var b, p, a := Building(Pos(2, 2), 10, 1), Pos(5, 2), Antenna(2, 5);
    SingleAntennaScore(b, p, a, 100);
    assert Distance(b.pos, p) == 3;
    assert !Connects(b, p, a);
  }
}
