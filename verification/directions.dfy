/** The four viewing edges and the index mapping `set_up_booleans` uses
    for each: which positions get a visibility boolean, which positions are
    nearer the edge, and which board cell a (line, position) pair names. */
module Directions {
  import opened Grids

  datatype Direction = Top | Left | Right | Bottom

  /** The order in which the encoder visits the edges. */
  const AllDirections: seq<Direction> := [Top, Left, Right, Bottom]

  /** Where each edge comes in the visiting order. */
  function IndexOf(d: Direction): (a: nat)
    ensures a < |AllDirections| && AllDirections[a] == d
  {
    match d
    case Top => 0
    case Left => 1
    case Right => 2
    case Bottom => 3
  }

  /** Left and top scan from index 0 upwards; right and bottom from n-1 downwards. */
  predicate Ascending(d: Direction) {
    d == Left || d == Top
  }

  /** Top and bottom look along columns: the line index is a column, the position a row. */
  predicate Transposed(d: Direction) {
    d == Top || d == Bottom
  }

  /** Converts an absolute index into its distance from the viewing edge
      (and back: the mapping is its own inverse). */
  function Mirror(n: nat, d: Direction, x: nat): (r: nat)
    requires x < n
    ensures r < n
    ensures Ascending(d) ==> r == x
    ensures !Ascending(d) ==> r + x == n - 1
  {
    if Ascending(d) then x else n - 1 - x
  }

  lemma MirrorInvolution(n: nat, d: Direction, x: nat)
    requires x < n
    ensures Mirror(n, d, Mirror(n, d, x)) == x
  {
  }

  /** The positions that receive a visibility boolean (`range_j` inside
      `set_up_booleans`): every position except the one at the edge, in
      increasing distance from the edge. */
  function ScanPositions(n: nat, d: Direction): (js: seq<nat>)
    ensures |js| == if n == 0 then 0 else n - 1
    ensures forall t | 0 <= t < |js| :: js[t] < n && Mirror(n, d, js[t]) == t + 1
  {
    if n == 0 then []
    else if Ascending(d) then seq(n - 1, t => t + 1)
    else seq(n - 1, t => n - 2 - t)
  }

  /** The absolute positions nearer the edge than j (`range_k`). */
  function NearerPositions(n: nat, d: Direction, j: nat): (ks: seq<nat>)
    requires j < n
    ensures |ks| == Mirror(n, d, j)
    ensures forall k: nat :: k in ks <==> k < n && Mirror(n, d, k) < Mirror(n, d, j)
  {
    if Ascending(d) then
      var ks := seq(j, t => t);
      assert forall k: nat :: k in ks <==> k < j by {
        forall k: nat | k < j ensures k in ks { assert ks[k] == k; }
      }
      ks
    else
      var ks := seq(n - 1 - j, t => j + 1 + t);
      assert forall k: nat :: k in ks <==> j < k < n by {
        forall k: nat | j < k < n ensures k in ks { assert ks[k - j - 1] == k; }
      }
      ks
  }

  /** The positions summed for a clue (`range_j` inside `main`): the same
      positions as `ScanPositions`, listed in ascending index order. */
  function CluePositions(n: nat, d: Direction): (js: seq<nat>)
    ensures |js| == |ScanPositions(n, d)|
    ensures forall j: nat :: j in js <==> j in ScanPositions(n, d)
    ensures forall t | 0 <= t < |js| :: js[t] < n && Mirror(n, d, js[t]) == if Ascending(d) then t + 1 else n - 1 - t
  {
    var js := if n == 0 then [] else if Ascending(d) then seq(n - 1, t => t + 1) else seq(n - 1, t => t);
    ScanPositionsMembers(n, d);
    assert forall j: nat :: j in js <==> j < n && 1 <= Mirror(n, d, j) by {
      forall j: nat | j < n && 1 <= Mirror(n, d, j) ensures j in js {
        if Ascending(d) { assert js[j - 1] == j; } else { assert js[j] == j; }
      }
    }
    js
  }

  /** Visibility booleans exist exactly for the non-edge positions:
      1..n-1 from the left or top, 0..n-2 from the right or bottom. */
  lemma ScanPositionsMembers(n: nat, d: Direction)
    ensures forall j: nat :: j in ScanPositions(n, d) <==> j < n && 1 <= Mirror(n, d, j)
    ensures forall j: nat :: j in ScanPositions(n, d) <==> if Ascending(d) then 1 <= j < n else j + 2 <= n
  {
    var js := ScanPositions(n, d);
    forall j: nat | j < n && 1 <= Mirror(n, d, j)
      ensures j in js
    {
      MirrorInvolution(n, d, j);
      assert js[Mirror(n, d, j) - 1] == j;
    }
  }

  /** The board cell at absolute position j of line i (rows for left/right,
      columns for top/bottom). */
  function CellOf(d: Direction, i: nat, j: nat): Coord {
    if Transposed(d) then Coord(j, i) else Coord(i, j)
  }

  lemma CellOfInGrid(n: nat, d: Direction, i: nat, j: nat)
    requires i < n && j < n
    ensures InGrid(CellOf(d, i, j), n)
  {
  }

  /** The heights along line i as seen from edge d, nearest first. */
  function Line(g: Grid, n: nat, d: Direction, i: nat): (line: seq<int>)
    ensures |line| == n
    ensures d == Left ==> line == Row(g, n, i)
    ensures d == Top ==> line == Column(g, n, i)
    ensures d == Right ==> forall p | 0 <= p < n :: line[p] == Row(g, n, i)[n - 1 - p]
    ensures d == Bottom ==> forall p | 0 <= p < n :: line[p] == Column(g, n, i)[n - 1 - p]
  {
    seq(n, p requires 0 <= p < n => CellValue(g, CellOf(d, i, Mirror(n, d, p))))
  }

  /** The cell at absolute position j sits at distance `Mirror(j)` along the line. */
  lemma LineAt(g: Grid, n: nat, d: Direction, i: nat, j: nat)
    requires j < n
    ensures Line(g, n, d, i)[Mirror(n, d, j)] == CellValue(g, CellOf(d, i, j))
  {
    MirrorInvolution(n, d, j);
  }
}
