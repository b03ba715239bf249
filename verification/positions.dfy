/**
 The candidate cells for antennas: every cell of the grid, scanned column by
 column (x outer, y inner), that lies within the largest antenna range of at
 least one building. A cell farther than that from every building could not
 serve any building whichever antenna stood there.
 */
module Positions {
  import opened Scoring

  /** The largest range of any antenna (Python's max over the ranges, which needs at least one). */
  function MaxRange(antennas: seq<Antenna>): (r: int)
    requires |antennas| > 0
    ensures forall i :: 0 <= i < |antennas| ==> antennas[i].range <= r
    ensures exists i :: 0 <= i < |antennas| && antennas[i].range == r
  {
    if |antennas| == 1 then antennas[0].range
    else
      var rest := MaxRange(antennas[1..]);
      assert forall i :: 1 <= i < |antennas| ==> antennas[i] == antennas[1..][i - 1];
      if antennas[0].range >= rest then antennas[0].range else rest
  }

  /** How many values range(n) yields: none when n is not positive. */
  function Span(n: int): nat
  {
    if n > 0 then n else 0
  }

  /** Reference notion: some building lies within distance r of p. */
  predicate NearSomeBuilding(p: Pos, buildings: seq<Building>, r: int)
  {
    exists k :: 0 <= k < |buildings| && Distance(p, buildings[k].pos) <= r
  }

  /** The exclusion test as the scan states it: every building is farther than r from p (true when there are none). */
  function AllFar(p: Pos, buildings: seq<Building>, r: int): bool
  {
    |buildings| == 0 || (Distance(p, buildings[0].pos) > r && AllFar(p, buildings[1..], r))
  }

  /** The scan keeps a cell exactly when some building is within reach of it. */
  lemma {:induction false} AllFarIffNoneNear(p: Pos, buildings: seq<Building>, r: int)
    ensures AllFar(p, buildings, r) <==> !NearSomeBuilding(p, buildings, r)
  {
    if |buildings| > 0 {
      AllFarIffNoneNear(p, buildings[1..], r);
      if NearSomeBuilding(p, buildings[1..], r) {
        var k :| 0 <= k < |buildings[1..]| && Distance(p, buildings[1..][k].pos) <= r;
        assert Distance(p, buildings[k + 1].pos) <= r;
      }
      if NearSomeBuilding(p, buildings, r) && Distance(p, buildings[0].pos) > r {
        var k :| 0 <= k < |buildings| && Distance(p, buildings[k].pos) <= r;
        assert buildings[k] == buildings[1..][k - 1];
      }
    }
  }

  /** Column-major scan order: by x, then by y. */
  predicate Before(p: Pos, q: Pos)
  {
    p.x < q.x || (p.x == q.x && p.y < q.y)
  }

  /** Strictly increasing in scan order, hence free of repeats. */
  predicate InScanOrder(s: seq<Pos>)
  {
    forall i, j :: 0 <= i < j < |s| ==> Before(s[i], s[j])
  }

  /** The cells (x, 0), ..., (x, n - 1) that some building is within r of, in that order. */
  function Column(x: int, buildings: seq<Building>, r: int, n: nat): (cells: seq<Pos>)
    ensures forall k :: 0 <= k < |cells| ==> cells[k].x == x && 0 <= cells[k].y < n
    ensures InScanOrder(cells)
  {
    if n == 0 then []
    else
      var p := Pos(x, n - 1);
      Column(x, buildings, r, n - 1) + (if AllFar(p, buildings, r) then [] else [p])
  }

  /** The kept cells of the first m columns, each column of height h, in scan order. */
  function Grid(h: nat, buildings: seq<Building>, r: int, m: nat): (cells: seq<Pos>)
    ensures forall k :: 0 <= k < |cells| ==> 0 <= cells[k].x < m && 0 <= cells[k].y < h
    ensures InScanOrder(cells)
  {
    if m == 0 then []
    else
      var before, column := Grid(h, buildings, r, m - 1), Column(m - 1, buildings, r, h);
      ConcatInScanOrder(before, column, m - 1);
      before + column
  }

  /** Column x holds exactly its cells below n that some building is within r of. */
  lemma {:induction false} ColumnMembers(x: int, buildings: seq<Building>, r: int, n: nat, q: Pos)
    ensures q in Column(x, buildings, r, n) <==> q.x == x && 0 <= q.y < n && NearSomeBuilding(q, buildings, r)
  {
    if n > 0 {
      ColumnMembers(x, buildings, r, n - 1, q);
      AllFarIffNoneNear(Pos(x, n - 1), buildings, r);
    }
  }

  /** The first m columns hold exactly their cells below h that some building is within r of. */
  lemma {:induction false} GridMembers(h: nat, buildings: seq<Building>, r: int, m: nat, q: Pos)
    ensures q in Grid(h, buildings, r, m) <==> 0 <= q.x < m && 0 <= q.y < h && NearSomeBuilding(q, buildings, r)
  {
    if m > 0 {
      GridMembers(h, buildings, r, m - 1, q);
      ColumnMembers(m - 1, buildings, r, h, q);
    }
  }

  /** Appending a column to cells all left of it keeps the scan order. */
  lemma ConcatInScanOrder(before: seq<Pos>, column: seq<Pos>, x: int)
    requires InScanOrder(before) && InScanOrder(column)
    requires forall k :: 0 <= k < |before| ==> before[k].x < x
    requires forall k :: 0 <= k < |column| ==> column[k].x == x
    ensures InScanOrder(before + column)
  {
  }

  /**
   The meaningful positions of a width x height grid: the cells within the
   largest antenna range of some building, in the order the scan visits them.
   */
  function MeaningfulPositions(width: int, height: int, buildings: seq<Building>, antennas: seq<Antenna>): (cells: seq<Pos>)
    requires |antennas| > 0
    ensures forall k :: 0 <= k < |cells| ==> 0 <= cells[k].x < width && 0 <= cells[k].y < height
  {
    Grid(Span(height), buildings, MaxRange(antennas), Span(width))
  }

  /** A cell is meaningful exactly when it lies on the grid and within the largest range of some building. */
  lemma MeaningfulIff(width: int, height: int, buildings: seq<Building>, antennas: seq<Antenna>, p: Pos)
    requires |antennas| > 0
    ensures p in MeaningfulPositions(width, height, buildings, antennas) <==>
      0 <= p.x < width && 0 <= p.y < height && NearSomeBuilding(p, buildings, MaxRange(antennas))
  {
    GridMembers(Span(height), buildings, MaxRange(antennas), Span(width), p);
  }

  /** The meaningful positions come in scan order, without repeats. */
  lemma MeaningfulInScanOrder(width: int, height: int, buildings: seq<Building>, antennas: seq<Antenna>)
    requires |antennas| > 0
    ensures InScanOrder(MeaningfulPositions(width, height, buildings, antennas))
  {
  }

  /**
   A grid cell left out can serve no building: no antenna placed there
   reaches any building.
   */
  lemma LeftOutServesNoOne(width: int, height: int, buildings: seq<Building>, antennas: seq<Antenna>, p: Pos)
    requires |antennas| > 0
    requires 0 <= p.x < width && 0 <= p.y < height
    requires p !in MeaningfulPositions(width, height, buildings, antennas)
    ensures forall k, i :: 0 <= k < |buildings| && 0 <= i < |antennas| ==> !Connects(buildings[k], p, antennas[i])
  {
    MeaningfulIff(width, height, buildings, antennas, p);
    forall k, i | 0 <= k < |buildings| && 0 <= i < |antennas|
      ensures !Connects(buildings[k], p, antennas[i])
    {
      DistanceSymmetric(buildings[k].pos, p);
    }
  }

  /** Every building on the grid stands on a meaningful cell, as long as some range is not negative. */
  lemma BuildingCellsAreMeaningful(width: int, height: int, buildings: seq<Building>, antennas: seq<Antenna>, k: nat)
    requires |antennas| > 0 && 0 <= MaxRange(antennas)
    requires k < |buildings|
    requires 0 <= buildings[k].pos.x < width && 0 <= buildings[k].pos.y < height
    ensures buildings[k].pos in MeaningfulPositions(width, height, buildings, antennas)
  {
    MeaningfulIff(width, height, buildings, antennas, buildings[k].pos);
    assert Distance(buildings[k].pos, buildings[k].pos) == 0;
  }

  /** Without buildings there is nowhere meaningful to place an antenna. */
  lemma NoBuildingsNoPositions(width: int, height: int, antennas: seq<Antenna>)
    requires |antennas| > 0
    ensures MeaningfulPositions(width, height, [], antennas) == []
  {
    NoBuildingsEmptyGrid(Span(height), MaxRange(antennas), Span(width));
  }

  lemma {:induction false} NoBuildingsEmptyGrid(h: nat, r: int, m: nat)
    ensures Grid(h, [], r, m) == []
  {
    if m > 0 {
      NoBuildingsEmptyGrid(h, r, m - 1);
      NoBuildingsEmptyColumn(m - 1, r, h);
    }
  }

  lemma {:induction false} NoBuildingsEmptyColumn(x: int, r: int, n: nat)
    ensures Column(x, [], r, n) == []
  {
    if n > 0 {
      NoBuildingsEmptyColumn(x, r, n - 1);
    }
  }

  /** Two sequences in scan order with the same cells are the same sequence. */
  lemma {:induction false} ScanOrderIsUnique(s: seq<Pos>, t: seq<Pos>)
    requires InScanOrder(s) && InScanOrder(t)
    requires forall q :: q in s <==> q in t
    ensures s == t
  {
    assert |s| > 0 ==> s[0] in s;
    assert |t| > 0 ==> t[0] in t;
    if |s| > 0 {
      assert s[0] in s && t[0] in t;
      FirstIsLeast(s, t[0]);
      FirstIsLeast(t, s[0]);
      forall q
        ensures q in s[1..] <==> q in t[1..]
      {
        if q in s {
          FirstIsLeast(s, q);
          FirstIsLeast(t, q);
        } else {
          if q in s[1..] { InTail(s, q); }
          if q in t[1..] { InTail(t, q); }
        }
      }
      ScanOrderIsUnique(s[1..], t[1..]);
      assert s == [s[0]] + s[1..] && t == [t[0]] + t[1..];
    }
  }

  lemma InTail(s: seq<Pos>, q: Pos)
    requires |s| > 0 && q in s[1..]
    ensures q in s
  {
    var i :| 0 <= i < |s[1..]| && s[1..][i] == q;
    assert s[i + 1] == q;
  }

  /** In a sequence in scan order, a cell that occurs is either the first or comes after it, and only the first is not after it. */
  lemma FirstIsLeast(s: seq<Pos>, q: Pos)
    requires InScanOrder(s) && |s| > 0 && q in s
    ensures q == s[0] || Before(s[0], q)
    ensures q in s[1..] <==> q != s[0]
  {
    var i :| 0 <= i < |s| && s[i] == q;
    if i > 0 {
      assert s[1..][i - 1] == q;
      assert Before(s[0], q);
    }
    if q in s[1..] {
      var j :| 0 <= j < |s[1..]| && s[1..][j] == q;
      assert Before(s[0], s[j + 1]);
    }
  }

  /**
   The meaningful positions are the only sequence in scan order holding
   exactly the grid cells within the largest range of some building.
   */
  lemma MeaningfulIsDetermined(width: int, height: int, buildings: seq<Building>, antennas: seq<Antenna>, s: seq<Pos>)
    requires |antennas| > 0 && InScanOrder(s)
    requires forall q :: q in s <==> 0 <= q.x < width && 0 <= q.y < height && NearSomeBuilding(q, buildings, MaxRange(antennas))
    ensures s == MeaningfulPositions(width, height, buildings, antennas)
  {
    var cells := MeaningfulPositions(width, height, buildings, antennas);
    forall q
      ensures q in s <==> q in cells
    {
      MeaningfulIff(width, height, buildings, antennas, q);
    }
    ScanOrderIsUnique(s, cells);
  }

  /** The scan itself: for each x, for each y, keep (x, y) unless every building is out of reach. */
  method ScanPositions(width: int, height: int, buildings: seq<Building>, antennas: seq<Antenna>) returns (cells: seq<Pos>)
    requires |antennas| > 0
    ensures cells == MeaningfulPositions(width, height, buildings, antennas)
  {
    var r := MaxRange(antennas);
    var w, h := Span(width), Span(height);
    cells := [];
    var x := 0;
    while x < w
      invariant 0 <= x <= w
      invariant cells == Grid(h, buildings, r, x)
    {
      var column := ScanColumn(x, h, buildings, r);
      cells := cells + column;
      x := x + 1;
    }
  }

  /** The inner loop of the scan: the kept cells of column x, bottom to top. */
  method ScanColumn(x: int, h: nat, buildings: seq<Building>, r: int) returns (column: seq<Pos>)
    ensures column == Column(x, buildings, r, h)
  {
    column := [];
    var y := 0;
    while y < h
      invariant 0 <= y <= h
      invariant column == Column(x, buildings, r, y)
    {
      if !AllFar(Pos(x, y), buildings, r) {
        column := column + [Pos(x, y)];
      }
      y := y + 1;
    }
  }
}
