/**
 * `createEmptyGrid` and `createOccupancyGrid` (RobustCarvingFrame/RGBD/
 * occupancygrid.swift): a 3D `Int` grid indexed `[x][y][z]`, and the copy of
 * a point cloud that keeps exactly its voxels equal to 1.
 */
module OccupancyGrid {

  /** A nested `[[[Int]]]` array, outermost index first. */
  type Grid = seq<seq<seq<int>>>

  /** `g` has `width` planes of `height` rows of `depth` entries. */
  predicate HasShape(g: Grid, width: nat, height: nat, depth: nat)
  {
    |g| == width &&
    (forall x | 0 <= x < width :: |g[x]| == height) &&
    (forall x, y | 0 <= x < width && 0 <= y < height :: |g[x][y]| == depth)
  }

  /** `createEmptyGrid(width:height:depth:)`: the all-zero grid of that shape. */
  function CreateEmptyGrid(width: nat, height: nat, depth: nat): (g: Grid)
    ensures HasShape(g, width, height, depth)
    ensures forall x, y, z | 0 <= x < width && 0 <= y < height && 0 <= z < depth :: g[x][y][z] == 0
  {
    seq(width, _ => seq(height, _ => seq(depth, _ => 0)))
  }

  /**
   * What the loops can index without trapping: a first plane with a first
   * row (`pointCloud[0][0]`), and every plane and row at least as large as
   * those, which fix the output's height and depth.
   */
  predicate Covered(pointCloud: Grid)
  {
    |pointCloud| > 0 && |pointCloud[0]| > 0 &&
    (forall x | 0 <= x < |pointCloud| :: |pointCloud[x]| >= |pointCloud[0]|) &&
    (forall x, y | 0 <= x < |pointCloud| && 0 <= y < |pointCloud[0]| :: |pointCloud[x][y]| >= |pointCloud[0][0]|)
  }

  function Width(pointCloud: Grid): nat
  {
    |pointCloud|
  }

  function Height(pointCloud: Grid): nat
    requires Covered(pointCloud)
  {
    |pointCloud[0]|
  }

  function Depth(pointCloud: Grid): nat
    requires Covered(pointCloud)
  {
    |pointCloud[0][0]|
  }

  /** One output voxel: 1 where the point cloud holds 1, and 0 for every other value. */
  function Voxel(pointCloud: Grid, x: nat, y: nat, z: nat): int
    requires Covered(pointCloud) && x < Width(pointCloud) && y < Height(pointCloud) && z < Depth(pointCloud)
  {
    if pointCloud[x][y][z] == 1 then 1 else 0
  }

  function OccupancyRow(pointCloud: Grid, x: nat, y: nat): seq<int>
    requires Covered(pointCloud) && x < Width(pointCloud) && y < Height(pointCloud)
  {
    seq(Depth(pointCloud), z requires 0 <= z < Depth(pointCloud) => Voxel(pointCloud, x, y, z))
  }

  function OccupancyPlane(pointCloud: Grid, x: nat): seq<seq<int>>
    requires Covered(pointCloud) && x < Width(pointCloud)
  {
    seq(Height(pointCloud), y requires 0 <= y < Height(pointCloud) => OccupancyRow(pointCloud, x, y))
  }

  /**
   * The grid `createOccupancyGrid` returns: shaped by the first plane and
   * row of the point cloud, 1 exactly where the point cloud holds 1, 0
   * everywhere else.
   */
  function Occupancy(pointCloud: Grid): (g: Grid)
    requires Covered(pointCloud)
    ensures HasShape(g, Width(pointCloud), Height(pointCloud), Depth(pointCloud))
    ensures forall x, y, z | 0 <= x < Width(pointCloud) && 0 <= y < Height(pointCloud) && 0 <= z < Depth(pointCloud) ::
      (g[x][y][z] == 1 <==> pointCloud[x][y][z] == 1) && (g[x][y][z] == 0 || g[x][y][z] == 1)
  {
    seq(Width(pointCloud), x requires 0 <= x < Width(pointCloud) => OccupancyPlane(pointCloud, x))
  }

  /** `createOccupancyGrid(pointCloud:)`: the triple loop that sets the occupied voxels of an empty grid. */
  method CreateOccupancyGrid(pointCloud: Grid) returns (grid: Grid)
    requires Covered(pointCloud)
    ensures grid == Occupancy(pointCloud)
  {
    var width := |pointCloud|;
    var height := |pointCloud[0]|;
    var depth := |pointCloud[0][0]|;
    grid := CreateEmptyGrid(width, height, depth);
    ghost var empty := grid;
    for x := 0 to width
      invariant |grid| == width
      invariant forall i | 0 <= i < x :: grid[i] == OccupancyPlane(pointCloud, i)
      invariant forall i | x <= i < width :: grid[i] == empty[i]
    {
      ghost var before := grid;
      for y := 0 to height
        invariant |grid| == width && |grid[x]| == height
        invariant forall i | 0 <= i < width && i != x :: grid[i] == before[i]
        invariant forall j | 0 <= j < y :: grid[x][j] == OccupancyRow(pointCloud, x, j)
        invariant forall j | y <= j < height :: grid[x][j] == empty[x][j]
      {
        ghost var start := grid;
        for z := 0 to depth
          invariant |grid| == width && |grid[x]| == height && |grid[x][y]| == depth
          invariant forall i | 0 <= i < width && i != x :: grid[i] == start[i]
          invariant forall j | 0 <= j < height && j != y :: grid[x][j] == start[x][j]
          invariant forall k | 0 <= k < z :: grid[x][y][k] == Voxel(pointCloud, x, y, k)
          invariant forall k | z <= k < depth :: grid[x][y][k] == 0
        {
          if pointCloud[x][y][z] == 1 {
            grid := grid[x := grid[x][y := grid[x][y][z := 1]]];
          }
        }
        assert grid[x][y] == OccupancyRow(pointCloud, x, y);
      }
      assert grid[x] == OccupancyPlane(pointCloud, x);
    }
  }

  /** Every entry of `g` is 0 or 1. */
  predicate Binary(g: Grid)
  {
    forall x, y, z | 0 <= x < |g| && 0 <= y < |g[x]| && 0 <= z < |g[x][y]| :: g[x][y][z] == 0 || g[x][y][z] == 1
  }

  /** A rectangular grid that already holds only 0s and 1s is its own occupancy grid. */
  lemma BinaryIsFixed(pointCloud: Grid)
    requires Covered(pointCloud)
    requires HasShape(pointCloud, Width(pointCloud), Height(pointCloud), Depth(pointCloud))
    requires Binary(pointCloud)
    ensures Occupancy(pointCloud) == pointCloud
  {
    var g := Occupancy(pointCloud);
    forall x | 0 <= x < |g|
      ensures g[x] == pointCloud[x]
    {
      forall y | 0 <= y < |g[x]|
        ensures g[x][y] == pointCloud[x][y]
      {
        assert |g[x][y]| == |pointCloud[x][y]|;
        forall z | 0 <= z < |g[x][y]|
          ensures g[x][y][z] == pointCloud[x][y][z]
        {
        }
      }
    }
  }

  /** Building the occupancy grid of an occupancy grid changes nothing. */
  lemma OccupancyIdempotent(pointCloud: Grid)
    requires Covered(pointCloud)
    ensures Covered(Occupancy(pointCloud))
    ensures Occupancy(Occupancy(pointCloud)) == Occupancy(pointCloud)
  {
    var g := Occupancy(pointCloud);
    assert |g[0]| == Height(pointCloud);
    assert |g[0][0]| == Depth(pointCloud);
    BinaryIsFixed(g);
  }

  /** The worked example after `createOccupancyGrid`: a diagonal of three occupied voxels comes back unchanged. */
  lemma DiagonalExample()
    ensures var pointCloud := [[[1, 0, 0], [0, 0, 0], [0, 0, 0]],
                               [[0, 0, 0], [0, 1, 0], [0, 0, 0]],
                               [[0, 0, 0], [0, 0, 0], [0, 0, 1]]];
      Covered(pointCloud) && Occupancy(pointCloud) == pointCloud
  {
    var pointCloud := [[[1, 0, 0], [0, 0, 0], [0, 0, 0]],
                       [[0, 0, 0], [0, 1, 0], [0, 0, 0]],
                       [[0, 0, 0], [0, 0, 0], [0, 0, 1]]];
    BinaryIsFixed(pointCloud);
  }

  /** Every value other than 1 is dropped: the voxel it stands at is 0 in the grid. */
  lemma OtherValuesCleared(pointCloud: Grid, x: nat, y: nat, z: nat)
    requires Covered(pointCloud) && x < Width(pointCloud) && y < Height(pointCloud) && z < Depth(pointCloud)
    requires pointCloud[x][y][z] != 1
    ensures Occupancy(pointCloud)[x][y][z] == 0
  {
  }

  /** For instance, a 2 in the point cloud is a 0 in the grid, while a 1 next to it stays. */
  lemma OtherValueExample()
    ensures Occupancy([[[2, 1]]]) == [[[0, 1]]]
  {
    var g := Occupancy([[[2, 1]]]);
    OtherValuesCleared([[[2, 1]]], 0, 0, 0);
    assert g[0][0][0] == 0 && g[0][0][1] == 1;
    assert g[0][0] == [0, 1];
    assert g[0] == [[0, 1]];
    assert |g| == 1;
  }
}
