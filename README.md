# Maze generation by randomised union-find

This project models the maze builder of `maze_generate.py` and proves its
properties in Dafny. The builder does three things:

- It lays out an n-by-n grid of cells. Each cell has four wall flags (North, East, South, West), an open flag and a union-find parent.
- It repeatedly takes a random cell and one of its four neighbour offsets. It throws the proposal away when the offset leaves the grid or when the two cells already share a root. Otherwise it links the two components (`union`) and knocks out the wall between the cells, on both sides.
- When every cell has the root of the top-left cell, it raises all boundary walls and marks the top-left and bottom-right cells open.

The files:

- `grid.dfy` (module `Grid`): coordinates, the four sides, the neighbour offsets, and what it means for a side to be open under a set of knocked-out edges.
- `union_find.dfy` (module `UnionFind`): the parent map and the root function (`Root`), with a ghost rank that proves the forest has no cycles. It also proves that path compression keeps every root and that linking two roots merges exactly those two components.
- `walks.dfy` (module `Walks`): walks through knocked-out walls and connectivity.
- `maze.dfy` (module `MazeGenerate`): class `Maze`, which models the grid of `MazeCell` objects, and the method `GenerateMaze`.
  - The methods `Find`, `Union`, `Step`, `AnyApart`, `Pass`, `MergeLoop`, `RaiseBoundary` and `SealBoundary` mutate the parent map and the `walls` / `isOpen` arrays in place, as the source mutates its cells.
  - The invariant `Valid` holds throughout:
    - the parent map is a forest over exactly the grid's cells;
    - each wall flag is up exactly when its side is not a knocked-out edge;
    - some choice of walks joins every cell to its root through knocked-out edges;
    - the number of knocked-out edges plus the number of roots equals n * n.

What is proved, in the system's terms:

- `find(x)` returns the root of x and points x straight at it. No cell changes root, and every pointer it rewrites now points at that root.
- `union(x, y)` merges the component of x into that of y. Every other component keeps its root. The old root of x now points at the old root of y, and every other rewritten pointer points at one of the two roots.
- A rejected round leaves the partition, the walls and the open flags unchanged. An accepted round merges two distinct components (one root fewer) and knocks out exactly the side of the cell facing its neighbour and the facing side of the neighbour. The two flags of a shared wall therefore always agree.
- When the loop exits:
  - exactly n * n - 1 walls have been knocked out;
  - every two cells are connected through knocked-out walls, so the maze is a spanning tree of the grid;
  - every boundary wall is up;
  - exactly the two corner cells are open.
- The loop is pinned to its proposals. On the abstract state, the root of every cell (`RootMap`) together with the knocked-out edges, `MergeLoop` and `GenerateMaze` end where the fold `Run` ends. `Run` applies one `Round` per proposal while some cell is apart. `StepIsRound` shows that the contract of `Step` is exactly one `Round`. On the 2-by-2 grid, three proposals join all cells (`RunJoinsTwo`), so some proposals do finish the loop.
- The boundary pass changes no wall flag. The loop never opens a side that has no neighbour, so the boundary walls are already up when the pass runs (`BoundaryUp`). Marking a cell open removes no wall.

The random choices of `maze_generate.py:35-41` are parameters. `GenerateMaze` takes a sequence of proposals (row, column, offset index) and consumes one per round. It returns `finished` exactly when the loop test found every cell joined. Whether or not the proposals run out first, the final roots and edges are those of `Run` on the proposals.

Eight definitions carry the source's logic, and the contracts of `Step`, `Scan`, `Pass`, `MergeLoop`, `RaiseBoundary` and `GenerateMaze` are written in their terms:

- `Grid.Offset` is the tuple of four neighbour offsets at `maze_generate.py:36-41`.
- `MazeGenerate.Knocked` names the two flags the if-chain at `maze_generate.py:50-61` clears.
- `MazeGenerate.Joined` is the negation of the loop test at `maze_generate.py:34`.
- `MazeGenerate.OnBoundary` names the flags the loops at `maze_generate.py:63-69` set.
- `MazeGenerate.RootMap` is what `find` reports for every cell (`maze_generate.py:15-18`).
- `MazeGenerate.AllJoined` is `Joined` on that root map.
- `MazeGenerate.Round` is one pass of the loop body at `maze_generate.py:35-61` on the roots and the knocked-out edges.
- `MazeGenerate.Run` is the whole loop at `maze_generate.py:34-61` on the same state.

## Model

| member | source | states |
|---|---|---|
| Grid.Row | maze_generate.py:28 | row y of a grid w wide holds exactly the cells (x, y) with 0 <= x < w |
| Grid.Block | maze_generate.py:28 | the w-by-h block holds exactly the cells with coordinates in range |
| Grid.Cells | maze_generate.py:28 | the cells of the grid are exactly the coordinates in [0, n) x [0, n) |
| Grid.RowCard | maze_generate.py:28 | a row of a grid w wide has w cells |
| Grid.BlockCard | maze_generate.py:28 | a w-by-h block has w * h cells |
| Grid.CellsCard | maze_generate.py:28 | the n-by-n grid has n * n cells |
| Grid.Opposite | maze_generate.py:50-61 | the facing side is a different side; North pairs with South and East with West |
| Grid.Neighbour | maze_generate.py:36-45 | a neighbour offset that is kept lies inside the grid and differs from the cell |
| Grid.Side | maze_generate.py:50-61 | the result is a side index, or 4; SideOfOffset gives its value on every offset |
| Grid.SideOfOffset | maze_generate.py:36-61 | for each of the four offsets, the wall-removal tests pick the side the offset was taken on |
| Grid.NeighbourBack | maze_generate.py:36-41 | a cell is the neighbour of its neighbour, on the opposite side |
| Grid.PairUnique | maze_generate.py:50-61 | two sides naming the same pair of cells are the same wall, seen from one cell or from the other |
| Grid.PairIsGridEdge | maze_generate.py:36-45 | a cell and its neighbour form an edge of the grid graph |
| Grid.OpenedSymmetric | maze_generate.py:50-61 | a side is open exactly when the facing side of the neighbour is open |
| UnionFind.AboveShrinks | maze_generate.py:15-18 | the set of nodes ranked above a node shrinks when going to a node of higher rank |
| UnionFind.Up | maze_generate.py:15-18 | in a forest, the parent of a non-root is a node of higher rank |
| UnionFind.Root | maze_generate.py:15-18 | following parent pointers ends at a root (its own parent) ranked at least as high; a root is its own root |
| UnionFind.CompressAt | maze_generate.py:16-17 | pointing a node straight at its root keeps a forest and keeps the root of each node |
| UnionFind.CompressForest | maze_generate.py:16-17 | pointing a node straight at its root keeps the pointers acyclic |
| UnionFind.Compress | maze_generate.py:16-17 | path compression changes the root of no node |
| UnionFind.SameRootsRoots | maze_generate.py:15-18 | forests giving every node the same root have the same set of roots |
| UnionFind.LinkAt | maze_generate.py:24 | linking root a under root b gives the nodes of a's component the root b and keeps every other root |
| UnionFind.LinkForest | maze_generate.py:24 | linking one root under another root keeps a forest |
| UnionFind.Link | maze_generate.py:24 | linking merges exactly the two components and removes exactly root a from the roots |
| UnionFind.SelfLink | maze_generate.py:24 | linking a root under itself changes no pointer |
| UnionFind.SameRootsRefl | maze_generate.py:15-18 | a forest gives every node the same root as itself |
| UnionFind.SameRootsTrans | maze_generate.py:22-23 | two changes that each keep all roots together keep all roots |
| UnionFind.SameThenMerged | maze_generate.py:21-24 | lookups that keep all roots, followed by a merge, are a merge of the original forest |
| UnionFind.MergedSelf | maze_generate.py:21-24 | merging a component into itself changes no root |
| UnionFind.IdentityRoots | maze_generate.py:30-32 | when every node is its own parent, every node is a root |
| UnionFind.SingleRoot | maze_generate.py:34 | when every node has the root of one node, that root is the only root |
| Walks.ReverseWalk | maze_generate.py:49-61 | knocked-out walls can be crossed in both directions: a reversed walk is a walk back |
| Walks.ChainWalk | maze_generate.py:49-61 | a walk from a to b followed by a walk from b to c is a walk from a to c |
| Walks.BridgeWalk | maze_generate.py:49-61 | a walk, a knocked-out wall and another walk make one walk |
| Walks.GrowWalk | maze_generate.py:49-61 | knocking out more walls never breaks a walk |
| Walks.ConnectedViaRoot | maze_generate.py:34-61 | two cells with walks to the same root are connected |
| MazeGenerate.JoinedSame | maze_generate.py:34 | lookups that keep all roots do not change the outcome of the loop test |
| MazeGenerate.Rewalk | maze_generate.py:49-61 | the new walks after a merge are defined for exactly the same cells |
| MazeGenerate.SpanningSame | maze_generate.py:34-47 | lookups with path compression keep the invariant |
| MazeGenerate.MergeEdges | maze_generate.py:46-49 | the pair of an accepted round is a new edge, and after the merge every edge joins two cells with one root |
| MazeGenerate.MergeWalks | maze_generate.py:49-61 | after a merge along the new edge, every cell has a walk to its new root |
| MazeGenerate.MergeWalkAt | maze_generate.py:49-61 | the new walk of one cell leads to its new root |
| MazeGenerate.RedirectWalk | maze_generate.py:49-61 | a cell of the merged component walks to its old root, back to the cell, across the new edge and on to the new root |
| MazeGenerate.SpanningMerge | maze_generate.py:46-61 | an accepted round keeps the invariant, with one edge more and one root fewer |
| MazeGenerate.CoreMerge | maze_generate.py:46-61 | an accepted round keeps the forest, the grid edges, the joined edges and the walks |
| MazeGenerate.CountMerge | maze_generate.py:46-49 | one edge more and one root fewer keep edges plus roots equal to the number of cells |
| MazeGenerate.GridEdgesAdd | maze_generate.py:50-61 | adding an edge of the grid graph keeps all edges in the grid graph |
| MazeGenerate.OpenedAdd | maze_generate.py:50-61 | knocking out the wall between a cell and its neighbour opens exactly that side and the facing side of the neighbour |
| MazeGenerate.IdentityRootMap | maze_generate.py:30-32 | when every cell is its own parent, every cell is its own root |
| MazeGenerate.JoinedRootMap | maze_generate.py:34 | the loop test on the forest agrees with AllJoined on its root map |
| MazeGenerate.SameRootMap | maze_generate.py:15-18 | lookups with path compression leave the root map unchanged |
| MazeGenerate.StepIsRound | maze_generate.py:35-61 | what a round promises about the forest and the edges, accepted or rejected, is exactly one Round on the root map and the edges |
| MazeGenerate.RunNext | maze_generate.py:34-35 | while some cell is apart and proposals remain, Run takes one Round on the next proposal |
| MazeGenerate.RunDone | maze_generate.py:34 | once all cells are joined, or the proposals are used up, Run changes nothing |
| MazeGenerate.RoundsJoinTwo | maze_generate.py:34-61 | on the 2-by-2 grid, East and South of (0, 0) and then East of (0, 1) leave cells apart after one and two rounds and join all cells after three |
| MazeGenerate.RunJoinsTwo | maze_generate.py:34-61 | the loop on those three proposals ends with all four cells joined |
| MazeGenerate.SpanningTree | maze_generate.py:34-49 | once all cells share the root of (0, 0), there are n * n - 1 knocked-out walls and every two cells are connected |
| MazeGenerate.InitRank | maze_generate.py:30-32 | the initial ranks cover exactly the cells |
| MazeGenerate.InitWalks | maze_generate.py:30-32 | the initial walks cover exactly the cells |
| MazeGenerate.InitSpanning | maze_generate.py:30-32 | a grid in which every cell is its own parent, with no knocked-out walls, satisfies the invariant, and every cell is a root |
| MazeGenerate.Maze.constructor | maze_generate.py:6-32 | a new grid of n * n cells: all walls up, no cell open, every cell its own parent and its own root, no knocked-out walls |
| MazeGenerate.Maze.Find | maze_generate.py:15-18 | the result is the root of x, x points at it, no root changes, and every rewritten pointer points at the root |
| MazeGenerate.Maze.Union | maze_generate.py:21-24 | the component of x is merged into that of y; the old root of x points at the old root of y; every other rewritten pointer points at one of the two roots; one root less when the two differed |
| MazeGenerate.Maze.RemoveWall | maze_generate.py:50-61 | exactly the side of c facing nb and the facing side of nb go down; the walls then match the edges with the new pair |
| MazeGenerate.Maze.Step | maze_generate.py:35-61 | a round is accepted exactly when the offset is inside the grid and the two roots differ; a rejected round keeps roots, edges and walls; an accepted one merges the two components, adds one new edge, removes one root and knocks out the two facing sides |
| MazeGenerate.Maze.Merge | maze_generate.py:49-61 | the merge of an accepted round: the components merge, the new pair is added to the edges, one root is removed, the two facing walls go down |
| MazeGenerate.Maze.SameRoot | maze_generate.py:46 | the answer is whether the two cells had the same root; no root changes |
| MazeGenerate.Maze.Scan | maze_generate.py:34 | the answer is whether some cell has a root other than that of (0, 0); no root changes |
| MazeGenerate.Maze.ScanRow | maze_generate.py:34 | for one row: either a cell with a different root is found, or every cell of the row has the root of (0, 0) |
| MazeGenerate.Maze.AnyApart | maze_generate.py:34 | the loop test keeps the invariant and is true exactly when the cells are not all joined |
| MazeGenerate.Maze.Pass | maze_generate.py:34-61 | one pass of the loop body followed by the loop test keeps the invariant, moves the roots and edges by exactly one Round on the proposal, and answers whether the cells are still apart |
| MazeGenerate.Maze.MergeLoop | maze_generate.py:34-61 | the loop keeps the invariant, stops with the answer true exactly when the cells are not all joined, and leaves the roots and edges that Run computes from the starting ones and the proposals |
| MazeGenerate.Maze.RaiseBoundary | maze_generate.py:63-69 | afterwards a wall is up exactly when it was up before or lies on the outer boundary |
| MazeGenerate.Maze.SealBoundary | maze_generate.py:63-72 | the boundary pass changes no wall flag and opens exactly the two corner cells |
| MazeGenerate.Maze.Finish | maze_generate.py:63-74 | after a finished loop: n * n - 1 knocked-out walls, all cells connected, boundary walls up, no wall flag changed, exactly the corner cells open |
| MazeGenerate.Maze.SharedWallsAgree | maze_generate.py:50-61 | the two flags of a shared wall agree |
| MazeGenerate.Maze.BoundaryUp | maze_generate.py:42-69 | every side on the outer boundary still has its wall up before the boundary pass |
| MazeGenerate.GenerateMaze | maze_generate.py:27-74 | the result keeps the invariant; its roots and edges are those Run computes from singleton components, no edges and the proposals; finished means every cell has the root of (0, 0), and then the maze is a spanning tree with n * n - 1 knocked-out walls, sealed boundary and exactly the two corner cells open; otherwise no cell is open |

## Left out

- `draw_maze` (`maze_generate.py:77-98`) and the script at the end of the file are left out. They are plotting and I/O, with floating-point coordinates.
- The `random` calls (`maze_generate.py:35-41`) are left out. Their choices are inputs, as `Proposal` values. The distribution of the choices is not modelled.
- MazeGenerate.GenerateMaze: does not prove that the loop terminates, because it does so only with probability 1. The loop consumes a finite sequence of proposals. When the sequence runs out before the cells are joined, the boundary pass is not reached. The invariant, the closed open flags and the `Run` state are still promised.
- MazeGenerate.Maze.Find: states that every rewritten pointer now points at the root. It does not state that the rewritten pointers are exactly those on the path from x.
- MazeGenerate.Maze.Union: states that the old root of x points at the old root of y, and every other rewritten pointer at one of the two roots. It does not state that the pointers rewritten by compression lie on the paths of x and y.
- The `MazeCell` objects are not modelled individually. A cell is named by its coordinates `Coord(x, y)`: its fields `x` and `y` are that name, `component` is the entry of the map `parent`, `walls` is `walls[y, x, 0..4]` and `is_open` is `isOpen[y, x]`. The list of lists returned is the `Maze` object. Aliasing between cells does not arise, because no two cells share coordinates. The comparisons `==` and `!=` of cells at `maze_generate.py:16`, `34` and `46` are dataclass comparisons of all fields. They agree with comparing `Coord` names, because no two cells share coordinates.
- Python's recursion depth limit on `find` is not modelled. `Find` recurses on a ghost rank that strictly increases towards the root.
- The integers are unbounded. The source's coordinates are Python integers, so no width applies.
- The case n = 0 is left out, because the code raises `IndexError` at `maze_generate.py:63`; the model requires 0 < n.
