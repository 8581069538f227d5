# Gas-Model particle engine in Dafny

This project models the particle engine of Gas-Model, a simulator of hard-sphere
molecules moving in a rectangular box. Each step the engine:

- moves every molecule by its speed (`move`);
- reflects molecules off the box walls (`collideWithWalls`);
- resolves contacts between molecules (`collideWithEachOther`).

Contacts are found with a Barnes-Hut octree. The tree is kept in a fixed arena
of `OctTreeNode`s (`buildOctTree`, `insertNode`) and walked once per molecule
(`collideOneMoleculeBarnesHut`). If the arena overflows, an all-pairs pass is
used instead (`collideWithEachOtherNaive`).

A contact is resolved by one rule (BOUNCY). It pushes one molecule out to
contact distance along the separation. Then it exchanges the speed component
along that separation.

Two generations of the engine are modelled:

- `Model` (model/Model.h, model/Model.cpp): the current one, with the octree, a
  depth bound and per-depth cell sizes.
- `LegacyModel` (model/Model.hpp): the header-only earlier one. Its tree is not
  used for collisions, and its collision pass runs over all pairs.

Next to them:

- the `Molecule` object and its free functions `moleculesCollide` and
  `moleculesAttract` (model/Molecule.cpp), with each compile-time gas type as
  its own method;
- the wall container of model/Walls.hpp;
- the vector arithmetic of model/Vector.hpp, including its two different
  `setLength` definitions.

How the model is built:

- **Numbers.** Arithmetic is on `real`. The square root is a parameter
  `sqrt: real -> real`. Results that need a true square root assume one only at
  the point they use it (`SqrtExactAt`).
- **Objects with state.** `GasModel`, `Molecule` and `GasContainer` are classes
  whose methods update their fields and arrays in place.
- **Specifications.** Each method is proved equal to a function on the array
  contents: `CollideTwo`, `ApplyPairs` over `AllPairs`, `Walk`/`Sweep` over a
  snapshot of the tree (for a pruning margin, RADIUS in the program),
  `WallBounce` and `Moved`. The physical laws are proved
  about those functions:
  - conservation of momentum;
  - conservation of energy;
  - separation to the contact distance;
  - the arena's shape and depth invariants;
  - the exact pair order of the all-pairs pass;
  - that the tree walk's pruning test, as written with margin RADIUS, skips
    pairs in contact, and that the margin 2·RADIUS never does.

Modules, in dependency order: `Vectors`, `Species`, `Interactions`, `Octree`,
`Passes`, `Molecules`, `Walls`, `Model`, `LegacyModel`.

## Model

| member | source | states |
|---|---|---|
| Vectors.Div | model/Vector.hpp:80-86 | dividing by a non-zero k is undone by scaling by k |
| Vectors.LenSqr | model/Vector.hpp:88-94 | the squared length is never negative |
| Vectors.Abs | model/Model.cpp:309-311 | std::abs: non-negative, and equal to the value or its negation |
| Vectors.IsInBox | model/Vector.hpp:123-132 | true exactly when every component is strictly inside (-box, box) |
| Vectors.SetLength | model/Model.cpp:57-64 | outside the degenerate branch the vector is scaled by newLen / length. In the degenerate branch, the variant of Model.cpp and Model.hpp returns it unchanged, and the variant of Vector.hpp:101-115 returns (curLen, 0, 0), a vector on the x axis shorter than 10 epsilon |
| Vectors.ScalarSymmetric | model/Vector.hpp:117-120 | the scalar product is symmetric |
| Vectors.LenSqrIsScalar | model/Vector.hpp:88-94 | lenSqr is the scalar product of a vector with itself |
| Vectors.ScalarScaleLeft | model/Vector.hpp:117-120 | the scalar product is linear in a scaled first argument |
| Vectors.LenSqrOfSquares | model/Vector.hpp:88-94 | vectors with equal squared components have equal lenSqr |
| Vectors.LenSqrScale | model/Vector.hpp:88-94 | scaling by k multiplies lenSqr by k squared |
| Vectors.LenSqrSub | model/Vector.hpp:88-94 | the squared length of a difference expands as \|a\|² - 2a·b + \|b\|² |
| Vectors.LenSqrAdd | model/Vector.hpp:88-94 | the squared length of a sum expands as \|a\|² + 2a·b + \|b\|² |
| Vectors.SetLengthOfZero | model/Model.cpp:57-64 | setLength leaves the zero vector at zero |
| Vectors.SetLengthParallel | model/Model.cpp:57-64 | outside the degenerate branch the result is a positive multiple of the input, for both variants |
| Vectors.SetLengthExact | model/Vector.hpp:101-115 | with an exact square root and a non-degenerate input, the result really has length newLen |
| Vectors.SumUpdate | model/Model.cpp:301-302 | replacing one speed changes the total by the difference |
| Vectors.TransferKeepsSum | model/Model.cpp:301-302 | taking p from one speed and adding it to another keeps the total |
| Vectors.SumPrefixUpdate | model/Model.cpp:301-302 | writing entry i below n changes the first n entries only at i, so the momentum of the first n molecules sees the speed updates of collideTwoMolecules |
| Species.RadiusSumSquare | model/Molecule.cpp:42-47 | the divisor (rA + rB)² is positive for valid species tables |
| Interactions.ContactShift | model/Model.cpp:291-296 | a collision is skipped exactly when lenSqr of the separation exceeds the threshold |
| Interactions.BounceImpulse | model/Model.cpp:291-302 | a BOUNCY impulse exists exactly when the pair is within the threshold, and the new position lies at the rescaled separation from j |
| Interactions.Bounce | model/Molecule.cpp:37-50 | j never moves; the sum of the two speeds is kept; beyond the threshold nothing changes |
| Interactions.IdealBounce | model/Molecule.cpp:22-33 | j never moves; beyond the threshold nothing changes; within it the relative speed is reversed |
| Interactions.Attract | model/Molecule.cpp:63-74 | beyond the cut-off the accelerations are unchanged. Within it the mass-weighted changes cancel (Newton's third law) |
| Interactions.OppositeChanges | model/Molecule.cpp:73-74 | subtracting force/mA from A and adding force/mB to B changes the mass-weighted accelerations by opposite amounts |
| Interactions.BounceSeparation | model/Model.cpp:296-297 | after a non-degenerate collision the pair is exactly the contact distance apart, along the old separation |
| Interactions.ProjectionTransferKeepsEnergy | model/Model.cpp:299-302 | transferring the projection of vi - vj onto d keeps \|vi\|² + \|vj\|² when the divisor is \|d\|² |
| Interactions.CancelProjection | model/Model.cpp:299-302 | the scalar identity behind the energy balance of the projection transfer |
| Interactions.BounceKeepsEnergy | model/Molecule.cpp:42-50 | the BOUNCY rule conserves kinetic energy (unit masses) when the divisor is the squared length of the rescaled separation |
| Interactions.BounceElastic | model/Model.cpp:289-303 | with divisor (2·RADIUS)², which is contact², and a non-degenerate separation, the collision conserves kinetic energy |
| Interactions.BounceKeepsTangential | model/Model.cpp:299-302 | speed components orthogonal to the old separation are unchanged for both molecules |
| Interactions.TransferAlong | model/Model.cpp:301-302 | moving a vector orthogonal to t between two speeds leaves their t components unchanged |
| Interactions.BounceHeadOn | model/Model.cpp:289-303 | two molecules exactly in contact with opposite speeds along the line between them keep their places, and their speeds are reversed |
| Interactions.HeadOnProjection | model/Model.cpp:299 | in a head-on contact the transferred projection is twice the speed |
| Interactions.HeadOnSpeeds | model/Model.cpp:301-302 | transferring twice the speed reverses both speeds |
| Interactions.SelfBounceIsIdentity | model/Model.cpp:313-316 | a molecule colliding with itself is not moved and gets no impulse |
| Interactions.IdealBounceKeepsMomentum | model/Molecule.cpp:30-33 | the IDEAL_GAS collision conserves mA·vA + mB·vB |
| Interactions.ReflectComponent | model/Molecule.cpp:30-33 | one component of the momentum balance of the IDEAL_GAS reflection |
| Interactions.IdealBounceKeepsEnergy | model/Molecule.cpp:30-33 | the IDEAL_GAS collision conserves mA\|vA\|² + mB\|vB\|² |
| Interactions.ReflectThroughCenterKeepsEnergy | model/Molecule.cpp:30-33 | reflecting both speeds through twice the centre-of-mass speed conserves kinetic energy |
| Interactions.CenterSquare | model/Molecule.cpp:30-31 | M\|c\|² = 2c·P for c = 2P/M, the identity the energy balance rests on |
| Octree.InitNode | model/Model.cpp:73-81 | a fresh node has no children, the given parent, molecule, count and centre, and a zero centre of mass |
| Octree.HalfPower | model/Model.cpp:104 | pow(0.5, n) lies in (0, 1] |
| Octree.Octant | model/Model.cpp:136-141 | the code is in 0..7; bit 4 is set iff x is beyond the centre, bit 2 iff y is, bit 1 iff z is |
| Octree.FlipZ | model/Model.cpp:218 | oct ^ 1 is a different octant that differs only in the z bit |
| Octree.OctantOfChildCenter | model/Model.cpp:151-157 | the centre insertNode computes for slot oct lies in octant oct of its parent |
| Octree.BitsDetermineOctant | model/Model.cpp:136-141 | two codes with the same three bits are equal |
| Octree.AttachChild | model/Model.cpp:143-162 | insertNode's update keeps the arena's length |
| Octree.ResetRoot | model/Model.cpp:168-169 | the reset keeps the arena's length |
| Octree.ResetRootShaped | model/Model.cpp:166-170 | after the reset, the one-node arena has links pointing forward, and every node counts a molecule |
| Octree.ResetRootIsArena | model/Model.cpp:166-170 | ... and the root is at depth 0 |
| Octree.AttachKeepsShape | model/Model.cpp:143-162 | insertNode keeps the links pointing forward and the nodes occupied |
| Octree.AttachKeepsLevels | model/Model.cpp:143-162 | insertNode one level below its parent keeps every child link exactly one level deeper, within the depth bound |
| Octree.RefreshKeepsShape | model/Model.cpp:190-193 | rewriting a node's count or molecule without touching its links keeps the shape |
| Octree.RefreshKeepsLevels | model/Model.cpp:190-193 | ... and the levels |
| Octree.SeparationNodeIsDetached | model/Model.cpp:199-201 | a separation node inserted with prevI = octTreeSize is linked only from itself: nothing earlier points to it |
| Octree.AttachLinksChild | model/Model.cpp:151-159 | a regular insertion links the new node from its parent's slot oct. The new node records that parent and the child centre, and no other node changes |
| Octree.DescendStep | model/Model.cpp:178-187 | one more step of the descent counts the next node, which lies beyond every node passed and is linked from the last one in the molecule's octant, and adds it to the path |
| Octree.OctantCellContains | model/Model.cpp:178-187 | descending by octant keeps the molecule inside the chosen child cell |
| Passes.CollideTwo | model/Model.cpp:289-303 | collideTwoMolecules keeps both arrays' lengths |
| Passes.ApplyPairs | model/Model.cpp:327-349 | a sequence of collisions keeps both arrays' lengths |
| Passes.Row | model/Model.cpp:333-336 | row i has size - i - 1 pairs, all inside the arrays |
| Passes.Rows | model/Model.cpp:331-337 | the first rows of the pass index the arrays |
| Passes.Moved | model/Model.cpp:126-134 | moving keeps the number of coordinates |
| Passes.CollideTwoFar | model/Model.cpp:293 | a pair farther apart than 2·RADIUS is left unchanged |
| Passes.CollideTwoIsBounce | model/Model.cpp:289-303 | on distinct molecules, collideTwoMolecules is the BOUNCY rule with contact 2·RADIUS and divisor 4·RADIUS² |
| Passes.CollideTwoSelf | model/Model.cpp:313-316 | a molecule colliding with itself changes nothing |
| Passes.CollideTwoFrame | model/Model.cpp:289-303 | only coords[i], speeds[i] and speeds[j] can change |
| Passes.CollideTwoKeepsMomentum | model/Model.cpp:301-302 | the total momentum of the molecules is kept |
| Passes.ApplyPairsAppend | model/Model.cpp:327-349 | running two sequences of pairs one after the other is running their concatenation |
| Passes.ApplyPairsKeepsMomentum | model/Model.cpp:327-349 | any pass over pairs of molecules keeps their total momentum |
| Passes.RowIn | model/Model.cpp:333-336 | row i visits (i, i+1), (i, i+2), ... in this order |
| Passes.RowVisit | model/Model.cpp:333-336 | row i0 holds a pair iff it is (i0, j) with i0 < j < size |
| Passes.RowsVisit | model/Model.cpp:331-337 | the first rows hold a pair iff i < j < size and row i has been reached |
| Passes.AllPairsVisit | model/Model.cpp:327-349 | the naive pass visits a pair iff i < j < size, oriented (i, j) on even ticks and (j, i) on odd ones |
| Passes.AllPairsKeepMomentum | model/Model.cpp:327-349 | the naive pass keeps the total momentum |
| Passes.RowPass | model/Model.cpp:333-336 | the inner loop keeps both arrays' lengths |
| Passes.RowPassIsApplyPairs | model/Model.cpp:333-336 | the inner loop up to j is the pass over the pairs of the row up to j |
| Passes.ApplyPairsSnoc | model/Model.cpp:333-336 | one more pair after a sequence of pairs is one more collideTwoMolecules on the result |
| Passes.RowsStep | model/Model.cpp:331-337 | one more iteration of the outer loop applies one more row |
| Molecules.Molecule.constructor | model/Molecule.cpp:4-9 | the molecule gets the given coordinates, speed and type, and zero acceleration |
| Molecules.Molecule.IntegrationStep | model/Molecule.cpp:11-16 | the position advances by speed + acceleration/2 and the speed by the acceleration; the acceleration is reset to zero |
| Molecules.MoleculesCollideIdeal | model/Molecule.cpp:22-33 | two distinct molecules undergo IdealBounce with their radii and masses. A molecule colliding with itself keeps its speed |
| Molecules.SelfCenterOfMass | model/Molecule.cpp:30-33 | for a molecule paired with itself, reflecting twice through the centre-of-mass speed gives its speed back |
| Molecules.MoleculesCollideBouncy | model/Molecule.cpp:37-50 | two distinct molecules undergo Bounce with contact rA + rB and divisor (rA + rB)². A molecule colliding with itself keeps its speed |
| Molecules.MoleculesAttract | model/Molecule.cpp:57-79 | IDEAL_GAS and BOUNCY leave the accelerations alone. POTENTIAL applies Attract with the Lennard-Jones force and the cut-off. Positions and speeds never change |
| Molecules.IntegrateIsTrapezoidal | model/Molecule.cpp:13-14 | the displacement of a step is the mean of the old and new speeds |
| Molecules.IntegrateWithoutAcceleration | model/Molecule.cpp:11-16 | without acceleration a step is uniform motion |
| Walls.GasContainer.constructor | model/Walls.hpp:11-13 | the container keeps the given size |
| Walls.GasContainer.MoleculeBounce | model/Walls.hpp:15-54 | the molecule's position and speed become WallBounce with its own collision radius; its type and acceleration are kept |
| Walls.WallBounceIsElastic | model/Walls.hpp:15-54 | every speed component keeps its magnitude, so the kinetic energy is kept |
| Walls.ReflectKeepsMagnitude | model/Walls.hpp:20-24 | one axis: the speed component keeps its magnitude |
| Walls.ReflectLandsInside | model/Walls.hpp:20-29 | an overshoot smaller than the free band lands back inside [r, size - r], moving away from the wall it hit |
| Walls.ReflectIdempotent | model/Walls.hpp:20-29 | reflecting a second time changes nothing |
| Walls.CornerReflectsAllAxes | model/Walls.hpp:20-53 | beyond a corner every axis is mirrored and every speed component negated |
| Walls.InsideBandUnchanged | model/Walls.hpp:15-54 | a molecule at least r from every wall is untouched |
| Model.Walk | model/Model.cpp:307-325 | the recursive walk, for a given pruning margin, keeps both arrays' lengths; the program is the RADIUS instance |
| Model.WalkChildren | model/Model.cpp:319-323 | the loop over a node's children keeps both arrays' lengths |
| Model.Sweep | model/Model.cpp:357-366 | the traversal of all molecules keeps both arrays' lengths |
| Model.TraversalOrder | model/Model.cpp:357-366 | size entries below size; strictly ascending on even ticks and strictly descending on odd ticks |
| Model.GasModel.constructor | model/Model.cpp:85-106 | no molecules, no tree, tick 0, and sizeAtDepth[i] = boxSize·0.5^(i+1) for every depth |
| Model.GasModel.AddMolecule | model/Model.cpp:116-124 | at capacity nothing changes. Otherwise the molecule is written to slot size, size grows by one, and every other slot is kept |
| Model.GasModel.Move | model/Model.cpp:126-134 | every molecule below size advances by its speed, the others stay, and the tick flips between 0 and 1 |
| Model.GasModel.InsertNode | model/Model.cpp:143-162 | when the arena is full or the depth is at its bound, only the overflow flag is raised. Otherwise the arena becomes AttachChild of the old one and grows by one. Both branches keep the arena invariants |
| Model.GasModel.Descend | model/Model.cpp:175-187 | the ghost path runs from the root to prevI, strictly forward, each node linking to the next in the molecule's octant. Exactly the nodes on it gain one in count, and every other field and node is kept. prevI has a free slot in the molecule's octant, at depth levels[prevI]+1. The invariants are kept |
| Model.GasModel.CountIn | model/Model.cpp:180-186 | one pass of the descent loop: node curI counts one more and joins the path, and the next node is the child in the molecule's octant, deeper by one level |
| Model.GasModel.BuildOctTree | model/Model.cpp:164-226 | without molecules nothing is built. Otherwise the root is reset at the box centre; without overflow, the root counts every molecule. The arena invariants hold throughout |
| Model.GasModel.SplitLeaf | model/Model.cpp:190-220 | the rebalancing of a leaf keeps the arena invariants and leaves the root's count. Stopping early means the arena overflowed |
| Model.GasModel.CollideWithWalls | model/Model.cpp:228-270 | each molecule below size becomes WallBounce with RADIUS and boxSize; the rest are untouched |
| Model.GasModel.BounceOffWalls | model/Model.cpp:232-267 | molecule mol becomes WallBounce of its old position and speed; no other entry changes |
| Model.GasModel.CollideTwoMolecules | model/Model.cpp:289-303 | the arrays become CollideTwo of their old contents |
| Model.GasModel.CollideOneMoleculeBarnesHut | model/Model.cpp:307-325 | the arrays become Walk over the current tree, with the program's pruning margin RADIUS |
| Model.GasModel.CollideWithEachOtherNaive | model/Model.cpp:327-349 | the arrays become ApplyPairs over AllPairs, oriented by the tick |
| Model.GasModel.NaiveEven | model/Model.cpp:331-337 | the even-tick loop nest applies the pairs (i, j), i < j, row by row |
| Model.GasModel.NaiveOdd | model/Model.cpp:341-347 | the odd-tick loop nest applies the pairs (j, i), i < j, row by row |
| Model.GasModel.CollideRowEven | model/Model.cpp:333-336 | the even-tick inner loop applies row i |
| Model.GasModel.CollideRowOdd | model/Model.cpp:343-346 | the odd-tick inner loop applies row i |
| Model.GasModel.CollideWithEachOther | model/Model.cpp:351-367 | the tree is built; on overflow the naive pass runs. Then every molecule walks the tree in tick order with the margin RADIUS: the arrays become Sweep of the intermediate state |
| Model.GasModel.WalkAll | model/Model.cpp:357-366 | the arrays become Sweep over TraversalOrder(size, tick) with the margin RADIUS |
| Model.SweptStep | model/Model.cpp:357-366 | walking one more molecule extends the traversal by that molecule's walk |
| Model.SweptAll | model/Model.cpp:357-366 | after all molecules the traversal is the full Sweep |
| Model.CeilLog2Bounds | model/Model.h:22-23 | CeilLog2(n) is ceil(log2 n): 2^(k-1) < n <= 2^k |
| Model.LogConstants | model/Model.h:21-23 | the separation-try and depth bounds are ceil(log2(400000)) = 19 and 190, and 2^18 < 400000 <= 2^19 |
| Model.MovedIsIntegration | model/Model.cpp:126-134 | move is the molecule integration step with zero acceleration, for the first size molecules, and leaves the rest |
| Model.TraversalOrderCovers | model/Model.cpp:357-366 | the order holds exactly the molecules below size, on either tick |
| Model.PruneMissesContact | model/Model.cpp:309-311 | as written, the prune skips cells holding molecules that are within contact distance (see Findings) |
| Model.WalkMissesContact | model/Model.cpp:307-325 | on a two-leaf tree with molecules 16 apart, the walk with margin RADIUS leaves the arrays unchanged, while with margin 2·RADIUS it pushes the molecule out to contact distance |
| Model.OutOfReachIsSound | model/Model.cpp:309-311 | with margin 2·RADIUS, no molecule in a skipped cell is within contact distance |
| Model.PrunedCollisionIsNoOp | model/Model.cpp:309-311 | with margin 2·RADIUS, collideTwoMolecules with any molecule of a skipped cell would change nothing |
| Model.FarAxis | model/Model.cpp:309-311 | one coordinate difference beyond 2·RADIUS already puts the pair out of contact |
| Model.WalkKeepsMomentum | model/Model.cpp:307-325 | a molecule's walk keeps the total momentum |
| Model.WalkChildrenKeepsMomentum | model/Model.cpp:319-323 | the loop over children keeps the total momentum |
| Model.WalkMovesOnlyWalker | model/Model.cpp:307-325 | during molecule m's walk only m is repositioned |
| Model.WalkChildrenMovesOnlyWalker | model/Model.cpp:319-323 | ... also across the loop over children |
| Model.SweepKeepsMomentum | model/Model.cpp:357-366 | the whole traversal keeps the total momentum |
| Model.CollideWithEachOtherKeepsMomentum | model/Model.cpp:351-367 | collideWithEachOther keeps the total momentum, with or without the naive pass |
| LegacyModel.GasModel.constructor | model/Model.hpp:157-165 | no molecules, an empty arena of value-initialised nodes, and the given box |
| LegacyModel.GasModel.AddMolecule | model/Model.hpp:167-175 | at capacity nothing changes. Otherwise the molecule is written to slot size and size grows by one. Radius and mass are ignored |
| LegacyModel.GasModel.Move | model/Model.hpp:177-183 | every molecule below size advances by its speed |
| LegacyModel.GasModel.InsertNode | model/Model.hpp:193-211 | with the arena full only the overflow flag is raised. Otherwise the child of centre parent ± maxBox·0.5^(depth+1) is attached and the invariants are kept |
| LegacyModel.GasModel.Descend | model/Model.hpp:223-236 | the ghost path runs from the root to prevI, strictly forward, each node linking to the next in the molecule's octant. Exactly the nodes on it gain one in count, and every other field and node is kept. prevI has a free slot in the molecule's octant |
| LegacyModel.GasModel.CountIn | model/Model.hpp:228-235 | one pass of the descent loop: node curI counts one more and joins the path, and the next node is the child in the molecule's octant |
| LegacyModel.GasModel.BuildOctTree | model/Model.hpp:213-273 | without molecules nothing is built. Otherwise the root sits at maxBox/2; without overflow, the root counts every molecule |
| LegacyModel.GasModel.CollideWithWalls | model/Model.hpp:275-317 | each molecule below size becomes WallBounce with RADIUS and (maxX, maxY, maxZ) |
| LegacyModel.GasModel.BounceOffWalls | model/Model.hpp:280-315 | molecule i becomes WallBounce of its old position and speed; nothing else changes |
| LegacyModel.GasModel.CollideWithEachOther | model/Model.hpp:320-344 | the arrays become ApplyPairs over every pair i < j in ascending rows, the even-tick order of Model.cpp |
| LegacyModel.GasModel.CollideRow | model/Model.hpp:324-342 | the inner loop applies row i |
| LegacyModel.GasModel.CollidePair | model/Model.hpp:326-337 | the inline pair code is CollideTwo, the same rule as Model.cpp's collideTwoMolecules |

## Findings

| source | as written | input that shows it | evidently intended | confidence | as-written member | corrected member |
|---|---|---|---|---|---|---|
| model/Model.cpp:309-311 | a cell is skipped when the molecule is farther than half-width + RADIUS from its centre on some axis | cells of half-width 1 centred at x = 0 and x = 18; molecules at x = 1 and x = 17 (distance 16 < 20 = 2·RADIUS): each walk skips the other's cell | margin 2·RADIUS, the contact distance of collideTwoMolecules, so that no contact is skipped | not executed | Model.WalkMissesContact | Model.PrunedCollisionIsNoOp |

`Model.Pruned` is the test for a given margin. `Model.Walk`, `Model.Sweep` and
the momentum lemmas about them take the margin as a parameter. The methods
(`CollideOneMoleculeBarnesHut`, `WalkAll`, `CollideWithEachOther`) use the
program's margin RADIUS (`Model.WrittenMargin`). `Model.PruneMissesContact`
shows the missed contact for one cell, and `Model.WalkMissesContact` shows it
for a whole walk. The corrected margin 2·RADIUS (`Model.ContactMargin`) is
sound: `Model.OutOfReachIsSound` and `Model.PrunedCollisionIsNoOp`.

## Left out

- The square root, `std::pow` and IEEE-754 rounding: arithmetic is exact on `real`, and the square root is a parameter.
- The AVX representation of Vector in model/Vector.hpp (a union with a `__m256d` register and a fourth, unused lane) is left out. The model keeps the three components, which the lane-wise instructions compute one by one.
- model/Vector.cpp is not part of this model. It repeats the out-of-line definitions of the same AVX operations.
- MoleculeTypes, Dimensioning, SavingToFile, the experiments and the visualisation are not part of this model (constants, unit conversion, file output, drivers). The per-type constants are a `SpeciesTable` parameter, and the Lennard-Jones force is a field of that table.
- The `printf` and `exit(1)` on allocation failure in the GasModel constructor (model/Model.cpp:96-100): Dafny allocation does not fail.
- The IDEAL branch of Model.cpp (model/Model.cpp:273-287) is compiled out by `GAS_TYPE BOUNCY` and refers to an undeclared `masses`. The IDEAL_GAS rule is modelled once, for Molecule.cpp, as `Interactions.IdealBounce`.
- Vectors.Div: requires a non-zero divisor. Division by zero produces infinities in the source, which `real` has no value for.
- model/Molecule.hpp declares a `force` field and a `moleculesAttract(potEnergy, …)` overload that model/Molecule.cpp does not use. The model follows Molecule.cpp: an `acceleration` field and no potential-energy output.
- `OctTreeNode::centerOfMass` is set to zero by `initNode` and never read by any core function; it is carried as a field that nothing reads.
- Arena slots not yet reached by `initNode` hold `Octree.BlankNode` in `Model`. In the source, `new OctTreeNode[...]` (model/Model.cpp:90) leaves `OctTreeNode` and `Vector`, which are plain aggregates (model/Model.h:26-34, 54-66), with indeterminate values. The separation step (model/Model.cpp:199-201 into 151-157) reads `octTree[octTreeSize].center` from such a slot, which on the first build is uninitialised memory. `BlankNode` fixes one arbitrary value for it, so the centres the model computes for a separation node are those of that choice.
- The compound assignments of Vector (`+=`, `-=`, `*=`, `/=`) are the value functions `Add`, `Sub`, `Scale` and `Div`, applied to a reassigned variable or array element.
- Model.GasModel.SplitLeaf, Model.GasModel.BounceOffWalls, Model.GasModel.NaiveEven, Model.GasModel.NaiveOdd, Model.GasModel.CollideRowEven, Model.GasModel.CollideRowOdd, Model.GasModel.WalkAll, Model.GasModel.Descend, Model.GasModel.CountIn and the LegacyModel methods CollideRow, CollidePair, BounceOffWalls, Descend and CountIn are loop bodies or loop nests that the source writes inline in the function cited. Each is a method of its own so that each proof stays small; the statements are the same.
- Model.GasModel.SplitLeaf: states the invariants and the overflow flag, not the exact arena it leaves. The separation-try node is attached with `prevI = octTreeSize` and so is linked only from itself, as written. This orphans it and its subtree from the leaf being split (`Octree.SeparationNodeIsDetached`), and the model keeps that behaviour.
- Model.GasModel.BuildOctTree: states the root, its count and the arena invariants, not the whole tree as a function of the coordinates.
- LegacyModel.GasModel.BuildOctTree: the same, for model/Model.hpp.
- Model.GasModel.CollideTwoMolecules: the frame (only coords[i], speeds[i] and speeds[j] change) is stated as the lemma `Passes.CollideTwoFrame` about `CollideTwo`, not in the method's own contract.
- Passes.AllPairsVisit: states which pairs the pass visits and in which order the rows run (`Passes.RowIn`), not a count of visits.
- Model.GasModel.InsertNode: `depth` is an `unsigned` and `oct` a `char` in the source, and both are unbounded integers here. Every value reached stays far inside their ranges.
- `GasModel::~GasModel` and the other destructors only free memory.
