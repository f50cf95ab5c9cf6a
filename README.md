# State-lattice search node: coordinates and per-node bookkeeping

This project models the parts of `NodeLattice` in the nav2 Smac planner that are
defined in its header. The header belongs to the state-lattice variant of
Hybrid-A*:

- **Coordinate mapping** (`LatticeCoords`). A flattened cell index maps to and
  from a (column x, row y, heading bin theta) triple. The heading varies fastest.
  The decoder `getCoords` is modelled twice. `GetCoordsAsWritten` is the
  header's decoder, exactly as written in 32-bit `unsigned int` arithmetic,
  where the row divisor `angle_quantization * width` can wrap. `GetCoords` is
  the same decoder with that product taken exactly. The general lemmas
  (`Decompose`, `IndexOfCoords`, `CoordsOfIndex`, `DecodeIff`, `RowBoundIff`,
  `NextIndex`) are about `GetCoords`. `AsWrittenRoundTrips` and
  `AsWrittenCoordsOfIndex` carry the decomposition and both round trips over
  to the header's decoder on every grid of fewer than 2^32 cells. The encoder
  `getIndex` forwards to the hybrid node's encoder, whose body is not part of
  this model. **Assumption:** `GetIndex` is defined by
  the layout that both node types share, `(y*W + x)*A + theta` reduced modulo
  2^32. Width W and bin count A are parameters instead of being read from the
  static motion table.
- **Search node** (`LatticeNode`). The class `NodeLattice` has the header's
  fields: index, pose, parent, accumulated cost, cell cost, visited flag,
  queued flag and motion-primitive index. Its inline mutators are methods with
  field-level `modifies` frames. The parent is an optional cell index, not a
  pointer. The costs are stored and read back, never computed with. Each
  method promises that its new snapshot `State()` is the pure transition
  `Apply(old(State()), m)` of a `Mutation` m. The lemmas about the search
  discipline and about identity are stated over `Apply` and its iteration
  `Replay`.
- `Unsigned` models C++ `unsigned int` as the newtype `uint32`, with
  reduction modulo 2^32.

The getters `GetMotionPrimitiveIndex`, `GetAccumulatedCost`, `GetCost`,
`WasVisited`, `IsQueued` and `GetIndex` are field reads (header lines 167-241).
The rows for the setter methods state what these getters read back afterwards.

In the header, one `Coordinates` type with float fields serves both as the
decoded cell and as the continuous pose. The model uses two types for the two
roles: `LatticeCoords.Coordinates` holds natural-number cell coordinates, and
`LatticeNode.Pose` holds a real-valued pose.

## Model

| member | source | states |
|---|---|---|
| `LatticeCoords.GetCoords` | nav2_smac_planner/include/nav2_smac_planner/node_lattice.hpp:280-289 | for W > 0 and A > 0, every index decodes to a column x < W and a heading bin theta < A; the row divisor A·W is taken exactly (the corrected decoder) |
| `LatticeCoords.GetCoordsAsWritten` | nav2_smac_planner/include/nav2_smac_planner/node_lattice.hpp:280-289 | the header's decoder with the row divisor computed in 32 bits; it still gives x < W and theta < A whenever the wrapped divisor is non-zero |
| `LatticeCoords.GetIndex` | nav2_smac_planner/include/nav2_smac_planner/node_lattice.hpp:264-271 | an assumption, not a proved fact: the header forwards to the hybrid node's encoder, whose body is not part of this model, so the encoder is DEFINED as `Wrap((y·W + x)·A + theta)`; its contract says only that it returns the exact position when that fits in 32 bits; `IndexOfCoords` and `CoordsOfIndex` give it its meaning |
| `LatticeCoords.Decompose` | nav2_smac_planner/include/nav2_smac_planner/node_lattice.hpp:284-289 | for every 32-bit index i, the decoded (x, y, theta) satisfies (y·W + x)·A + theta = i, so the heading is the fastest-varying part |
| `LatticeCoords.IndexOfCoords` | nav2_smac_planner/include/nav2_smac_planner/node_lattice.hpp:264-271 | getIndex(getCoords(i)) = i for every 32-bit index, and the decoded row fits in 32 bits |
| `LatticeCoords.CoordsOfIndex` | nav2_smac_planner/include/nav2_smac_planner/node_lattice.hpp:264-289 | getCoords(getIndex(x, y, theta)) = (x, y, theta) whenever x < W, theta < A and the flattened position fits in 32 bits |
| `LatticeCoords.DecodeIff` | nav2_smac_planner/include/nav2_smac_planner/node_lattice.hpp:280-289 | an index decodes to a cell exactly when that cell is in-row (x < W, theta < A) and flattens to that index, so decoding is a bijection between 32-bit indices and the in-row cells whose flattened position is below 2^32 |
| `LatticeCoords.RowBoundIff` | nav2_smac_planner/include/nav2_smac_planner/node_lattice.hpp:280-289 | the decoded row is below the grid height H exactly when the index is below W·H·A |
| `LatticeCoords.NextIndex` | nav2_smac_planner/include/nav2_smac_planner/node_lattice.hpp:284-289 | index i + 1 is the next heading bin of the same cell; after the last bin it is heading 0 of the next column; after the last column it is the first cell of the next row |
| `LatticeCoords.AsWrittenAgreesWhenProductFits` | nav2_smac_planner/include/nav2_smac_planner/node_lattice.hpp:287 | when A·W < 2^32 the header's decoder and the exact decoder agree on every index |
| `LatticeCoords.AsWrittenMisdecodes` | nav2_smac_planner/include/nav2_smac_planner/node_lattice.hpp:287 | with A = 65536 and W = 65537 the 32-bit product wraps to 65536, and index 65536 decodes to row 1 instead of row 0; the exact decoder gives (1, 0, 0) |
| `LatticeCoords.AsWrittenRoundTrips` | nav2_smac_planner/include/nav2_smac_planner/node_lattice.hpp:264-289 | on a grid with H > 0 and W·H·A < 2^32, the header's own decoder has a non-zero divisor, recovers every index through (y·W + x)·A + theta, and gives getIndex(getCoords(i)) = i |
| `LatticeCoords.AsWrittenCoordsOfIndex` | nav2_smac_planner/include/nav2_smac_planner/node_lattice.hpp:264-289 | on a grid with W·H·A < 2^32, the header's own decoder gives getCoords(getIndex(x, y, theta)) = (x, y, theta) for every x < W, y < H, theta < A |
| `LatticeCoords.AsWrittenDividesByZero` | nav2_smac_planner/include/nav2_smac_planner/node_lattice.hpp:287 | with W = A = 65536 and H = 1 the grid has exactly 2^32 cells, every index fits in 32 bits, and the header's 32-bit divisor is 0 |
| `Unsigned.MulU32` | nav2_smac_planner/include/nav2_smac_planner/node_lattice.hpp:287 | the 32-bit product equals the exact product when the exact product fits |
| `LatticeNode.VisitClosesNode` | nav2_smac_planner/include/nav2_smac_planner/node_lattice.hpp:211-215 | after visited() the node is visited and not queued (its phase is closed), and calling visited() twice has the same effect as calling it once |
| `LatticeNode.QueueOpensNode` | nav2_smac_planner/include/nav2_smac_planner/node_lattice.hpp:229-232 | queued() is idempotent; the flags are consistent afterwards exactly when the node was not yet visited, and the node is then open |
| `LatticeNode.SetterReadBack` | nav2_smac_planner/include/nav2_smac_planner/node_lattice.hpp:144-188 | each of setPose, setMotionPrimitiveIndex and setAccumulatedCost writes its value, reads back as that value, and leaves every other field as it was |
| `LatticeNode.ReplayKeepsIdentity` | nav2_smac_planner/include/nav2_smac_planner/node_lattice.hpp:238-241 | no sequence of inline mutators changes a node's index (fixed at construction), its parent or its cached cell cost |
| `LatticeNode.EqualityIgnoresMutations` | nav2_smac_planner/include/nav2_smac_planner/node_lattice.hpp:135-138 | after any mutators on either node, two nodes are equal exactly when their original indices were equal, whatever their poses, costs and flags |
| `LatticeNode.ReplayAdvancesPhase` | nav2_smac_planner/include/nav2_smac_planner/node_lattice.hpp:211-232 | if the search never queues a node after visiting it, the node's phase only moves forward (unvisited, then queued, then visited) and its flags stay consistent; once visited() has been called the node ends visited |
| `LatticeNode.NodeLattice.constructor` | nav2_smac_planner/include/nav2_smac_planner/node_lattice.hpp:123 | a new node has the given index, no parent, and is neither visited nor queued; the index is the constructor's argument, while the other starting values are assumed (see "## Left out") |
| `LatticeNode.NodeLattice.Equals` | nav2_smac_planner/include/nav2_smac_planner/node_lattice.hpp:135-138 | operator== is true exactly when the two nodes' indices are equal |
| `LatticeNode.NodeLattice.SetPose` | nav2_smac_planner/include/nav2_smac_planner/node_lattice.hpp:144-147 | the pose becomes the argument; the frame allows no other field to change |
| `LatticeNode.NodeLattice.SetMotionPrimitiveIndex` | nav2_smac_planner/include/nav2_smac_planner/node_lattice.hpp:158-170 | afterwards getMotionPrimitiveIndex() returns the argument and nothing else has changed |
| `LatticeNode.NodeLattice.SetAccumulatedCost` | nav2_smac_planner/include/nav2_smac_planner/node_lattice.hpp:176-188 | afterwards getAccumulatedCost() returns the argument and nothing else has changed |
| `LatticeNode.NodeLattice.Visited` | nav2_smac_planner/include/nav2_smac_planner/node_lattice.hpp:211-215 | afterwards wasVisited() is true and isQueued() is false; only those two flags may change |
| `LatticeNode.NodeLattice.Queued` | nav2_smac_planner/include/nav2_smac_planner/node_lattice.hpp:229-232 | afterwards isQueued() is true; wasVisited, the costs, the index, the pose and the primitive index are unchanged |

## Left out

- `LatticeMotionTable` (`initMotionModel`, `getProjections`, `getLatticeMetadata`, its fields and the static `motion_table`): only their declarations are visible. They also parse primitive files (I/O), build an OMPL state space (a foreign library) and fill float trigonometry caches. The width and bin count that `getIndex` reads from the table are parameters instead.
- `reset`, `isNodeValid`, `getTraversalCost` and `getNeighbors`: declared only, with no bodies to model. They also depend on the external collision checker, a callback and float costs.
- `precomputeDistanceHeuristic`, `resetObstacleHeuristic` and `getObstacleHeuristic` (header lines 326-362): their inline bodies only forward to the hybrid node, whose code is not part of this model. `precomputeDistanceHeuristic` returns nothing and takes no costmap. `resetObstacleHeuristic` returns nothing and reads a `Costmap2D`. `getObstacleHeuristic` returns a float and reads a `Costmap2D`.
- `getHeuristicCost`, `getDistanceHeuristic` and the static `initMotionModel` (header lines 298-316 and 372-375): declared only, with no bodies to model. `getHeuristicCost` returns a float and reads a `Costmap2D`. `getDistanceHeuristic` returns a float and takes no costmap. The static `initMotionModel` returns nothing and takes no costmap.
- `LatticeNode.NodeLattice.constructor`: the header only declares it, and its body is outside the header. The only starting value the header fixes is the index, which is the constructor's argument. The missing parent and the cleared visited and queued flags are ASSUMED, because the search expects every node to start unvisited and with no parent; the header does not show the constructor's initial values. The starting pose, costs and primitive index are placeholder values, and the model promises nothing about them.
- Float semantics of the costs and the pose: these are stored as `real` and only stored and read back. The conversion of the decoded unsigned values into the float `Coordinates` fields is not modelled either; decoded coordinates stay natural numbers.
- The getters return references (`float &`, `bool &`, `unsigned int &`) through which a caller could write. The model's getters return values, so writes through those references are not modelled.
- Assignment to the public `parent` and `pose` fields by the search loop is ordinary field assignment in the model. No method wraps it.

## Findings

| source | as written | input that shows it | evidently intended | confidence | as-written member | corrected member |
|---|---|---|---|---|---|---|
| nav2_smac_planner/include/nav2_smac_planner/node_lattice.hpp:287 | `index / (angle_quantization * width)` multiplies in 32-bit `unsigned int`, so the row divisor wraps once A·W reaches 2^32; this row is the non-zero wrap (A·W > 2^32), the next row the wrap to 0 | A = 65536, W = 65537, index = 65536: the product wraps to 65536, and the row comes out 1 instead of 0 | the row is index divided by the exact product A·W, and the decomposition (y·W + x)·A + theta = index holds | low (needs grids far larger than used in practice); not executed | `LatticeCoords.AsWrittenMisdecodes` | `LatticeCoords.Decompose` |
| nav2_smac_planner/include/nav2_smac_planner/node_lattice.hpp:287 | the same 32-bit product wraps to exactly 0 when A·W = 2^32, and the row division then divides by zero (undefined behaviour in C++); `GetCoordsAsWritten` excludes this case through its requires | A = 65536, W = 65536, H = 1: a grid of exactly 2^32 cells whose every index fits in 32 bits, but the divisor is 0 | the row is index divided by the exact product A·W, which is non-zero | low (needs a grid of 2^32 cells); not executed | `LatticeCoords.AsWrittenDividesByZero` | `LatticeCoords.Decompose` |
