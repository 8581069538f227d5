/** The gas model of model/Model.h and model/Model.cpp: molecules in
    fixed-capacity coordinate and speed arrays, a Barnes-Hut octree rebuilt
    in a fixed-capacity node arena every step, BOUNCY pair collisions found
    by walking that tree (or, when the arena overflowed, by an all-pairs pass
    first), and reflection off the walls of the box. */
module Model {
  import opened Vectors
  import opened Interactions
  import opened Octree
  import opened Passes
  import opened Walls
  import opened Molecules

  // ------------------------------------------------------------- constants

  /** MAX_NUMBER_OF_MOLECULES */
  const MaxNumberOfMolecules: nat := 100000

  /** OCT_TREE_MAX_NODES = 4 * MAX_NUMBER_OF_MOLECULES */
  const OctTreeMaxNodes: nat := 4 * MaxNumberOfMolecules

  /** OCT_TREE_MAX_SEPARTION_TRIES = ceil(log2(OCT_TREE_MAX_NODES)), evaluated
      (see LogConstants) */
  const OctTreeMaxSeparationTries: nat := 19

  /** OCT_TREE_MAX_DEPTH = 10 * ceil(log2(OCT_TREE_MAX_NODES)), evaluated */
  const OctTreeMaxDepth: nat := 190

  function Pow2(k: nat): (r: nat)
    ensures r >= 1
  {
    if k == 0 then 1 else 2 * Pow2(k - 1)
  }

  /** ceil(log2(n)) for n >= 1, in integers: halve, rounding up, until 1. */
  function CeilLog2(n: nat): nat
  {
    if n <= 1 then 0 else 1 + CeilLog2((n + 1) / 2)
  }

  // -------------------------------------------------------- the tree walk

  /** A snapshot of everything the tree walk reads: the arena, the depth of
      each node, the number of used nodes, the half-widths per depth and the
      number of molecules. */
  datatype Tree = Tree(nodes: seq<OctTreeNode>, levels: seq<nat>, used: nat, sizeAtDepth: seq<Vector>, size: nat)
  {
    /** The arena invariants hold and the particle arrays hold every molecule. */
    ghost predicate Fits(st: Particles)
    {
      Shaped(nodes, used, size) && Levelled(nodes, levels, used, |sizeAtDepth|) &&
      |st.coords| == |st.speeds| && size <= |st.coords|
    }
  }

  /** The three early returns of collideOneMoleculeBarnesHut for a pruning
      margin: the molecule is farther than the cell's half-width plus `margin`
      from its centre on some axis. */
  predicate Pruned(center: Vector, half: Vector, p: Vector, margin: real)
  {
    || Abs(center.x - p.x) > half.x + margin
    || Abs(center.y - p.y) > half.y + margin
    || Abs(center.z - p.z) > half.z + margin
  }

  /** The margin of collideOneMoleculeBarnesHut as written: RADIUS.  Two
      molecules touch up to 2 RADIUS apart, so this margin skips cells holding
      molecules in contact (PruneMissesContact, WalkMissesContact). */
  const WrittenMargin: real := Radius

  /** The contact distance 2 RADIUS as margin: only cells out of reach of the
      molecule are skipped (OutOfReachIsSound, PrunedCollisionIsNoOp). */
  const ContactMargin: real := 2.0 * Radius

  /** collideOneMoleculeBarnesHut(m, cur, levels[cur]) as a function of the
      particle arrays, for a pruning margin: skip a pruned cell, collide with
      the molecule of a one-molecule node, otherwise walk the present children
      in octant order.  The program is the WrittenMargin instance. */
  ghost function Walk(t: Tree, margin: real, st: Particles, m: nat, cur: nat, sqrt: real -> real): (r: Particles)
    requires t.Fits(st) && cur < t.used && m < t.size
    ensures |r.coords| == |st.coords| && |r.speeds| == |st.speeds|
    decreases t.used - cur, 9
  {
    var node := t.nodes[cur];
    if Pruned(node.center, t.sizeAtDepth[t.levels[cur]], st.coords[m], margin) then st
    else if node.count == 1 then CollideTwo(st, m, node.molecule, sqrt)
    else WalkChildren(t, margin, st, m, cur, 0, sqrt)
  }

  /** The loop over octs[o], octs[o + 1], ..., octs[7] of node cur. */
  ghost function WalkChildren(t: Tree, margin: real, st: Particles, m: nat, cur: nat, o: nat, sqrt: real -> real): (r: Particles)
    requires t.Fits(st) && cur < t.used && m < t.size && o <= 8
    ensures |r.coords| == |st.coords| && |r.speeds| == |st.speeds|
    decreases t.used - cur, 8 - o
  {
    if o == 8 then st
    else
      var c := t.nodes[cur].octs[o];
      WalkChildren(t, margin, if c == -1 then st else Walk(t, margin, st, m, c, sqrt), m, cur, o + 1, sqrt)
  }

  /** The traversal over all molecules in the given order, each starting at
      the root (collideOneMoleculeBarnesHut(i, 0, 0)). */
  ghost function Sweep(t: Tree, margin: real, st: Particles, order: seq<nat>, sqrt: real -> real): (r: Particles)
    requires t.Fits(st) && (order != [] ==> t.used > 0)
    requires forall k :: 0 <= k < |order| ==> order[k] < t.size
    ensures |r.coords| == |st.coords| && |r.speeds| == |st.speeds|
    decreases |order|
  {
    if order == [] then st
    else Walk(t, margin, Sweep(t, margin, st, order[..|order| - 1], sqrt), order[|order| - 1], 0, sqrt)
  }

  /** The order in which collideWithEachOther walks the molecules: ascending
      on even ticks, descending on odd ones, each molecule once. */
  function TraversalOrder(n: nat, tick: nat): (r: seq<nat>)
    ensures |r| == n
    ensures forall k :: 0 <= k < n ==> r[k] < n
    ensures tick % 2 == 0 ==> forall a, b :: 0 <= a < b < n ==> r[a] < r[b]
    ensures tick % 2 == 1 ==> forall a, b :: 0 <= a < b < n ==> r[a] > r[b]
  {
    if tick % 2 == 0 then seq(n, k requires 0 <= k < n => k as nat)
    else seq(n, k requires 0 <= k < n => (n - 1 - k) as nat)
  }

  class GasModel {
    const boxSize: Vector
    const sqrt: real -> real            // std::sqrt, behind Vector::length
    var size: nat
    const coords: array<Vector>
    const speeds: array<Vector>
    const octTree: array<OctTreeNode>
    var octTreeSize: nat
    var octTreeOverflow: bool           // octTreeFuckedUp
    const sizeAtDepth: array<Vector>
    var tick: nat
    ghost var levels: seq<nat>          // the depth each node was inserted at

    ghost predicate Valid()
      reads this, octTree
    {
      && coords.Length == MaxNumberOfMolecules && speeds.Length == MaxNumberOfMolecules
      && octTree.Length == OctTreeMaxNodes && sizeAtDepth.Length == OctTreeMaxDepth
      && coords != speeds && sizeAtDepth != coords && sizeAtDepth != speeds
      && size <= MaxNumberOfMolecules && octTreeSize <= OctTreeMaxNodes && tick < 2
      && Shaped(octTree[..], octTreeSize, size)
      && Levelled(octTree[..], levels, octTreeSize, OctTreeMaxDepth)
    }

    /** The arrays' contents. */
    ghost function State(): Particles
      reads this, coords, speeds
    {
      Particles(coords[..], speeds[..])
    }

    /** What the tree walk reads. */
    ghost function TreeOf(): Tree
      reads this, octTree, sizeAtDepth
    {
      Tree(octTree[..], levels, octTreeSize, sizeAtDepth[..], size)
    }

    /** GasModel(boxSize): empty arrays, no tree, tick 0, and the half-width
        of a cell at depth i is boxSize * 0.5^(i + 1). */
    constructor(newBoxSize: Vector, sqrt: real -> real)
      ensures Valid() && fresh(coords) && fresh(speeds) && fresh(octTree) && fresh(sizeAtDepth)
      ensures boxSize == newBoxSize && this.sqrt == sqrt
      ensures size == 0 && octTreeSize == 0 && !octTreeOverflow && tick == 0
      ensures forall i :: 0 <= i < OctTreeMaxDepth ==> sizeAtDepth[i] == Scale(boxSize, HalfPower(i + 1))
    {
      boxSize := newBoxSize;
      this.sqrt := sqrt;
      size := 0;
      coords := new Vector[MaxNumberOfMolecules];
      speeds := new Vector[MaxNumberOfMolecules];
      octTree := new OctTreeNode[OctTreeMaxNodes](_ => BlankNode);
      octTreeSize := 0;
      octTreeOverflow := false;
      var halves := new Vector[OctTreeMaxDepth];
      tick := 0;
      levels := seq(OctTreeMaxNodes, _ => 0);
      for i := 0 to OctTreeMaxDepth
        invariant forall k :: 0 <= k < i ==> halves[k] == Scale(newBoxSize, HalfPower(k + 1))
      {
        halves[i] := Scale(newBoxSize, HalfPower(i + 1));
      }
      sizeAtDepth := halves;
    }

    /** addMolecule: ignored at capacity, otherwise written to slot size. */
    method AddMolecule(coord: Vector, speed: Vector)
      requires Valid()
      modifies this, coords, speeds
      ensures Valid()
      ensures old(size) == MaxNumberOfMolecules ==>
                size == old(size) && coords[..] == old(coords[..]) && speeds[..] == old(speeds[..])
      ensures old(size) < MaxNumberOfMolecules ==>
                && size == old(size) + 1
                && coords[..] == old(coords[..])[old(size) := coord]
                && speeds[..] == old(speeds[..])[old(size) := speed]
      ensures octTreeSize == old(octTreeSize) && octTreeOverflow == old(octTreeOverflow)
      ensures tick == old(tick) && levels == old(levels)
    {
      if size == MaxNumberOfMolecules {
        return;
      }
      coords[size] := coord;
      speeds[size] := speed;
      size := size + 1;
    }

    /** move: every molecule advances by its speed; the tick flips. */
    method Move()
      requires Valid()
      modifies this, coords
      ensures Valid()
      ensures coords[..] == Moved(old(coords[..]), speeds[..], size)
      ensures tick == (old(tick) + 1) % 2
      ensures size == old(size) && octTreeSize == old(octTreeSize) && octTreeOverflow == old(octTreeOverflow)
      ensures levels == old(levels)
    {
      for i := 0 to size
        modifies coords
        invariant coords[..] == Moved(old(coords[..]), speeds[..], i)
      {
        coords[i] := Add(coords[i], speeds[i]);
      }
      tick := (tick + 1) % 2;
    }

    /** insertNode: with the arena full or the depth at its bound only the
        overflow flag is raised; otherwise node prevI gets the next free
        node as child `oct`, centred one half-width further along each axis. */
    method InsertNode(moleculeI: int, prevI: nat, newCount: nat, depth: nat, oct: int)
      requires Valid()
      requires prevI <= octTreeSize && 0 < octTreeSize && 0 <= oct < 8
      requires prevI < octTreeSize ==> depth == levels[prevI] + 1
      requires -1 <= moleculeI < size && newCount >= 1 && (newCount == 1 ==> 0 <= moleculeI)
      modifies this, octTree
      ensures Valid()
      ensures size == old(size) && tick == old(tick)
      ensures old(octTreeSize) >= OctTreeMaxNodes || depth >= OctTreeMaxDepth ==>
                && octTreeOverflow
                && octTreeSize == old(octTreeSize) && octTree[..] == old(octTree[..]) && levels == old(levels)
      ensures old(octTreeSize) < OctTreeMaxNodes && depth < OctTreeMaxDepth ==>
                && octTreeOverflow == old(octTreeOverflow)
                && octTreeSize == old(octTreeSize) + 1
                && octTree[..] == AttachChild(old(octTree[..]), old(octTreeSize), prevI, moleculeI, newCount, sizeAtDepth[depth], oct)
                && levels == old(levels)[old(octTreeSize) := depth]
      ensures forall k :: 0 <= k < old(octTreeSize) ==> octTree[k] == old(octTree[k]).(octs := octTree[k].octs)
    {
      if octTreeSize >= OctTreeMaxNodes || depth >= OctTreeMaxDepth {
        octTreeOverflow := true;
        return;
      }
      ghost var nodes := octTree[..];
      ghost var next := AttachChild(nodes, octTreeSize, prevI, moleculeI, newCount, sizeAtDepth[depth], oct);
      AttachKeepsShape(nodes, octTreeSize, size, prevI, moleculeI, newCount, sizeAtDepth[depth], oct);
      AttachKeepsLevels(nodes, levels, octTreeSize, OctTreeMaxDepth, prevI, moleculeI, newCount, sizeAtDepth[depth], oct, depth);

      octTree[prevI] := octTree[prevI].(octs := octTree[prevI].octs[oct := octTreeSize]);

      var curCenter := Vector(sizeAtDepth[depth].x * (if Bit(oct, 4) then 1.0 else -1.0),
                              sizeAtDepth[depth].y * (if Bit(oct, 2) then 1.0 else -1.0),
                              sizeAtDepth[depth].z * (if Bit(oct, 1) then 1.0 else -1.0));
      curCenter := Add(curCenter, octTree[prevI].center);
      assert curCenter == ChildCenter(octTree[prevI].center, sizeAtDepth[depth], oct);

      octTree[octTreeSize] := InitNode(moleculeI, prevI, newCount, curCenter);
      assert octTree[..] == next;
      levels := levels[octTreeSize := depth];
      octTreeSize := octTreeSize + 1;
    }

    /** The descent of buildOctTree for one molecule: from the root, count the
        molecule in each node and follow its octant until the slot is empty.
        Returns the last node, the octant of the empty slot and the depth
        below that node; `path` is the ghost record of the nodes passed, from
        the root to prevI, and exactly those nodes gain one in count. */
    method Descend(moleculeI: nat) returns (prevI: nat, oct: int, depth: nat, ghost path: seq<nat>)
      requires Valid() && 0 < octTreeSize && moleculeI < size
      modifies octTree
      ensures Valid()
      ensures prevI < octTreeSize && depth == levels[prevI] + 1
      ensures oct == Octant(coords[moleculeI], octTree[prevI].center)
      ensures octTree[prevI].octs[oct] == -1
      ensures octTree[prevI].count == 2 ==> 0 <= octTree[prevI].molecule < size
      ensures |path| == depth && path[0] == 0 && path[|path| - 1] == prevI
      ensures forall k :: 0 <= k < |path| ==> path[k] <= prevI
      ensures DescentPath(octTree[..], path, coords[moleculeI])
      ensures CountedAlong(octTree[..], old(octTree[..]), path, octTreeSize)
      ensures octTree[0].count == old(octTree[0].count) + 1
    {
      ghost var before := octTree[..];
      prevI, oct, depth, path := 0, 0, 0, [];
      var curI: int := 0;
      while curI != -1
        invariant Valid()
        invariant -1 <= curI < octTreeSize && prevI < octTreeSize && 0 <= oct < 8
        invariant curI != -1 ==> levels[curI] == depth
        invariant |path| == depth && (depth == 0 ==> curI == 0)
        invariant depth > 0 ==>
                    && depth == levels[prevI] + 1
                    && path[0] == 0 && path[|path| - 1] == prevI
                    && (curI != -1 ==> prevI < curI)
                    && octTree[prevI].octs[oct] == curI
                    && oct == Octant(coords[moleculeI], octTree[prevI].center)
        invariant forall k :: 0 <= k < |path| ==> path[k] <= prevI
        invariant DescentPath(octTree[..], path, coords[moleculeI])
        invariant CountedAlong(octTree[..], before, path, octTreeSize)
        decreases if curI == -1 then 0 else octTreeSize + 1 - curI
      {
        depth := depth + 1;
        prevI, oct, curI := CountIn(moleculeI, curI, before, path);
        path := path + [prevI];
      }
      assert path[0] in path;
    }

    /** One step of the descent: `octTree[curI].count++`, then the octant
        of molecule moleculeI in node curI and the child in that slot.  The
        node joins the path of counted nodes. */
    method CountIn(moleculeI: nat, curI: nat, ghost before: seq<OctTreeNode>, ghost path: seq<nat>)
      returns (node: nat, oct: int, next: int)
      requires Valid() && curI < octTreeSize && moleculeI < size
      requires CountedAlong(octTree[..], before, path, octTreeSize) && DescentPath(octTree[..], path, coords[moleculeI])
      requires forall k :: 0 <= k < |path| ==> path[k] < curI
      requires path != [] ==> octTree[path[|path| - 1]].octs[Octant(coords[moleculeI], octTree[path[|path| - 1]].center)] == curI
      modifies octTree
      ensures Valid() && node == curI
      ensures CountedAlong(octTree[..], before, path + [curI], octTreeSize)
      ensures DescentPath(octTree[..], path + [curI], coords[moleculeI])
      ensures oct == Octant(coords[moleculeI], octTree[curI].center) && next == octTree[curI].octs[oct]
      ensures -1 <= next < octTreeSize && (next != -1 ==> curI < next && levels[next] == levels[curI] + 1)
    {
      DescendStep(octTree[..], before, path, octTreeSize, curI, coords[moleculeI]);
      var bumped := octTree[curI].(count := octTree[curI].count + 1);
      RefreshKeepsShape(octTree[..], octTreeSize, size, curI, bumped);
      RefreshKeepsLevels(octTree[..], levels, octTreeSize, OctTreeMaxDepth, curI, bumped);
      octTree[curI] := bumped;
      node := curI;
      oct := Octant(coords[moleculeI], octTree[curI].center);
      next := octTree[curI].octs[oct];
    }

    /** buildOctTree: nothing without molecules; otherwise the root is reset
        to molecule 0 and every further molecule is counted along its descent
        and inserted at the empty slot it reached.  A leaf that now counts two
        molecules is split: while both molecules fall in the same octant (at
        most OCT_TREE_MAX_SEPARTION_TRIES times) an intermediate node is
        inserted, then one leaf per molecule.  An overflow inside the
        separation stops the build. */
    method BuildOctTree()
      requires Valid()
      modifies this, octTree
      ensures Valid()
      ensures size == old(size) && tick == old(tick)
      ensures size == 0 ==>
                && octTreeSize == old(octTreeSize) && octTreeOverflow == old(octTreeOverflow)
                && octTree[..] == old(octTree[..]) && levels == old(levels)
      ensures size > 0 ==> 0 < octTreeSize && octTree[0].prev == -1 && octTree[0].center == sizeAtDepth[0]
      ensures size > 0 && !octTreeOverflow ==> octTree[0].count == size
    {
      if size == 0 {
        return;
      }

      ResetRootIsArena(octTree[..], levels, size, sizeAtDepth[0], OctTreeMaxDepth);
      octTree[0] := InitNode(0, -1, 1, sizeAtDepth[0]);
      levels := levels[0 := 0];
      octTreeSize := 1;
      octTreeOverflow := false;

      for moleculeI := 1 to size
        invariant Valid() && size == old(size) && tick == old(tick)
        invariant 0 < octTreeSize && octTree[0].prev == -1 && octTree[0].center == sizeAtDepth[0]
        invariant octTree[0].count == moleculeI
      {
        // Search for place to insert node in an oct-tree
        var prevI, oct, depth, path := Descend(moleculeI);

        if octTree[prevI].count == 2 {
          // Tree rebalancing needed
          var stopped := SplitLeaf(moleculeI, prevI, oct, depth);
          if stopped {
            return;
          }
        } else {
          // Just a single insertion will do
          InsertNode(moleculeI, prevI, 1, depth, oct);
        }
      }
    }

    /** The rebalancing step of buildOctTree (written inline there): leaf
        prevI now counts two molecules, the one it held and moleculeI, which
        reached the empty slot `oct` below it.  The leaf's molecule is
        cleared; while both molecules fall in the same octant, at most
        OCT_TREE_MAX_SEPARTION_TRIES times, an intermediate node counting two
        is inserted and the descent continues in it; then one leaf per
        molecule is inserted, the second one in the octant mirrored in z when
        they still coincide.  `stopped` is the `return` of the source on an
        overflow inside the separation loop. */
    method SplitLeaf(moleculeI: nat, prevI: nat, oct: int, depth: nat) returns (stopped: bool)
      requires Valid() && moleculeI < size
      requires prevI < octTreeSize && depth == levels[prevI] + 1 && 0 <= oct < 8
      requires octTree[prevI].count == 2 && 0 <= octTree[prevI].molecule < size
      modifies this, octTree
      ensures Valid() && size == old(size) && tick == old(tick)
      ensures 0 < octTreeSize
      ensures octTree[0] == old(octTree[0]).(octs := octTree[0].octs, molecule := octTree[0].molecule)
      ensures stopped ==> octTreeOverflow
    {
      var prevI, oct, depth := prevI, oct, depth;
      var oldMoleculeI := octTree[prevI].molecule;
      var cleared := octTree[prevI].(molecule := -1);
      RefreshKeepsShape(octTree[..], octTreeSize, size, prevI, cleared);
      RefreshKeepsLevels(octTree[..], levels, octTreeSize, OctTreeMaxDepth, prevI, cleared);
      octTree[prevI] := cleared;

      var oldOct := Octant(coords[oldMoleculeI], octTree[prevI].center);

      var separationTries := 0;
      while oct == oldOct && separationTries < OctTreeMaxSeparationTries
        invariant Valid() && size == old(size) && tick == old(tick)
        invariant 0 < octTreeSize
        invariant octTree[0] == old(octTree[0]).(octs := octTree[0].octs, molecule := octTree[0].molecule)
        invariant prevI < octTreeSize && depth == levels[prevI] + 1
        invariant 0 <= oct < 8 && 0 <= oldOct < 8
        decreases OctTreeMaxSeparationTries - separationTries
      {
        prevI := octTreeSize;

        InsertNode(-1, prevI, 2, depth, oct);
        if octTreeOverflow {
          return true;
        }

        oct := Octant(coords[moleculeI], octTree[prevI].center);
        oldOct := Octant(coords[oldMoleculeI], octTree[prevI].center);

        depth := depth + 1;
        separationTries := separationTries + 1;
      }

      if oct != oldOct {
        InsertNode(moleculeI, prevI, 1, depth, oct);
        InsertNode(oldMoleculeI, prevI, 1, depth, oldOct);
      } else {
        InsertNode(moleculeI, prevI, 1, depth, oct);
        InsertNode(oldMoleculeI, prevI, 1, depth, FlipZ(oct));
      }
      return false;
    }

    /** collideWithWalls: every molecule reflected off the box walls with
        RADIUS, axis by axis. */
    method CollideWithWalls()
      requires coords != speeds && coords.Length == speeds.Length && size <= coords.Length
      modifies coords, speeds
      ensures forall k :: 0 <= k < size ==>
                Kinematics(coords[k], speeds[k]) == WallBounce(old(coords[k]), old(speeds[k]), Radius, boxSize)
      ensures forall k :: size <= k < coords.Length ==> coords[k] == old(coords[k]) && speeds[k] == old(speeds[k])
    {
      for mol := 0 to size
        invariant forall k :: 0 <= k < mol ==>
                    Kinematics(coords[k], speeds[k]) == WallBounce(old(coords[k]), old(speeds[k]), Radius, boxSize)
        invariant forall k :: mol <= k < coords.Length ==> coords[k] == old(coords[k]) && speeds[k] == old(speeds[k])
      {
        BounceOffWalls(mol);
      }
    }

    /** The body of collideWithWalls' loop for molecule mol: a copy of its
        coordinates is mirrored axis by axis while the speed components are
        negated in place, and the copy is written back. */
    method BounceOffWalls(mol: nat)
      requires coords != speeds && coords.Length == speeds.Length && mol < coords.Length
      modifies coords, speeds
      ensures Kinematics(coords[mol], speeds[mol]) == WallBounce(old(coords[mol]), old(speeds[mol]), Radius, boxSize)
      ensures forall k :: 0 <= k < coords.Length && k != mol ==> coords[k] == old(coords[k]) && speeds[k] == old(speeds[k])
    {
      ghost var c0, v0 := coords[mol], speeds[mol];
      var cur := coords[mol];

      if cur.x < Radius {
        cur := cur.(x := 2.0 * Radius - cur.x);
        speeds[mol] := speeds[mol].(x := speeds[mol].x * -1.0);
      } else if cur.x > boxSize.x - Radius {
        cur := cur.(x := 2.0 * (boxSize.x - Radius) - cur.x);
        speeds[mol] := speeds[mol].(x := speeds[mol].x * -1.0);
      }
      assert AxisState(cur.x, speeds[mol].x) == ReflectAxis(c0.x, v0.x, Radius, boxSize.x);

      if cur.y < Radius {
        cur := cur.(y := 2.0 * Radius - cur.y);
        speeds[mol] := speeds[mol].(y := speeds[mol].y * -1.0);
      } else if cur.y > boxSize.y - Radius {
        cur := cur.(y := 2.0 * (boxSize.y - Radius) - cur.y);
        speeds[mol] := speeds[mol].(y := speeds[mol].y * -1.0);
      }
      assert AxisState(cur.y, speeds[mol].y) == ReflectAxis(c0.y, v0.y, Radius, boxSize.y);

      if cur.z < Radius {
        cur := cur.(z := 2.0 * Radius - cur.z);
        speeds[mol] := speeds[mol].(z := speeds[mol].z * -1.0);
      } else if cur.z > boxSize.z - Radius {
        cur := cur.(z := 2.0 * (boxSize.z - Radius) - cur.z);
        speeds[mol] := speeds[mol].(z := speeds[mol].z * -1.0);
      }
      assert AxisState(cur.z, speeds[mol].z) == ReflectAxis(c0.z, v0.z, Radius, boxSize.z);

      coords[mol] := cur;
    }

    /** collideTwoMolecules (BOUNCY): molecule i is pushed to 2 RADIUS from
        molecule j and the speed difference's projection on the separation is
        moved from i to j. */
    method CollideTwoMolecules(i: nat, j: nat)
      requires coords != speeds && coords.Length == speeds.Length && i < coords.Length && j < coords.Length
      modifies coords, speeds
      ensures State() == CollideTwo(old(State()), i, j, sqrt)
    {
      var coordDiff := Sub(coords[i], coords[j]);

      if LenSqr(coordDiff) > RadiusSquareX4 {
        return;
      }

      // Shift out of collision:
      coordDiff := SetLength(coordDiff, 2.0 * Radius, sqrt, KeepOnDegenerate);
      coords[i] := Add(coords[j], coordDiff);

      var speedDiffProj := Scale(coordDiff, Scalar(coordDiff, Sub(speeds[i], speeds[j])) / RadiusSquareX4);

      speeds[i] := Sub(speeds[i], speedDiffProj);
      speeds[j] := Add(speeds[j], speedDiffProj);
    }

    /** collideOneMoleculeBarnesHut: the walk of Walk on the arrays, with the
        program's pruning margin RADIUS. */
    method CollideOneMoleculeBarnesHut(moleculeI: nat, curI: nat, depth: nat)
      requires Valid() && moleculeI < size && curI < octTreeSize && depth == levels[curI]
      modifies coords, speeds
      ensures State() == Walk(TreeOf(), WrittenMargin, old(State()), moleculeI, curI, sqrt)
      decreases octTreeSize - curI
    {
      if Abs(octTree[curI].center.x - coords[moleculeI].x) > sizeAtDepth[depth].x + Radius {
        return;
      }
      if Abs(octTree[curI].center.y - coords[moleculeI].y) > sizeAtDepth[depth].y + Radius {
        return;
      }
      if Abs(octTree[curI].center.z - coords[moleculeI].z) > sizeAtDepth[depth].z + Radius {
        return;
      }

      if octTree[curI].count == 1 {
        CollideTwoMolecules(moleculeI, octTree[curI].molecule);
      } else {
        for oct := 0 to 8
          invariant WalkChildren(TreeOf(), WrittenMargin, State(), moleculeI, curI, oct, sqrt)
                      == WalkChildren(TreeOf(), WrittenMargin, old(State()), moleculeI, curI, 0, sqrt)
        {
          if octTree[curI].octs[oct] != -1 {
            CollideOneMoleculeBarnesHut(moleculeI, octTree[curI].octs[oct], depth + 1);
          }
        }
      }
    }

    /** collideWithEachOtherNaive: every pair i < j, rows in ascending order;
        on even ticks collideTwoMolecules(i, j), on odd ones (j, i).  The two
        loop nests are the methods NaiveEven and NaiveOdd, their inner loops
        CollideRowEven and CollideRowOdd. */
    method CollideWithEachOtherNaive()
      requires coords != speeds && coords.Length == speeds.Length && size <= coords.Length
      modifies coords, speeds
      ensures State() == ApplyPairs(old(State()), AllPairs(size, tick % 2 == 1), sqrt)
    {
      if tick % 2 == 0 {
        NaiveEven();
      } else {
        NaiveOdd();
      }
    }

    /** The loop nest of collideWithEachOtherNaive on even ticks. */
    method NaiveEven()
      requires coords != speeds && coords.Length == speeds.Length && size <= coords.Length
      modifies coords, speeds
      ensures State() == ApplyPairs(old(State()), AllPairs(size, false), sqrt)
    {
      ghost var st0 := State();
      for i := 0 to size
        invariant State() == ApplyPairs(st0, Rows(i, size, false), sqrt)
      {
        RowsStep(st0, i, size, false, sqrt);
        CollideRowEven(i);
      }
    }

    /** The loop nest of collideWithEachOtherNaive on odd ticks. */
    method NaiveOdd()
      requires coords != speeds && coords.Length == speeds.Length && size <= coords.Length
      modifies coords, speeds
      ensures State() == ApplyPairs(old(State()), AllPairs(size, true), sqrt)
    {
      ghost var st0 := State();
      for i := 0 to size
        invariant State() == ApplyPairs(st0, Rows(i, size, true), sqrt)
      {
        RowsStep(st0, i, size, true, sqrt);
        CollideRowOdd(i);
      }
    }

    /** The inner loop of collideWithEachOtherNaive on even ticks: row i,
        j from i + 1 up, collideTwoMolecules(i, j). */
    method CollideRowEven(i: nat)
      requires coords != speeds && coords.Length == speeds.Length && size <= coords.Length
      modifies coords, speeds
      ensures State() == RowPass(old(State()), i, size, false, sqrt)
    {
      ghost var st0 := State();
      if size <= i + 1 {
        return;
      }
      for j := i + 1 to size
        invariant State() == RowPass(st0, i, j, false, sqrt)
      {
        CollideTwoMolecules(i, j);
      }
    }

    /** The inner loop of collideWithEachOtherNaive on odd ticks: row i,
        j from i + 1 up, collideTwoMolecules(j, i). */
    method CollideRowOdd(i: nat)
      requires coords != speeds && coords.Length == speeds.Length && size <= coords.Length
      modifies coords, speeds
      ensures State() == RowPass(old(State()), i, size, true, sqrt)
    {
      ghost var st0 := State();
      if size <= i + 1 {
        return;
      }
      for j := i + 1 to size
        invariant State() == RowPass(st0, i, j, true, sqrt)
      {
        CollideTwoMolecules(j, i);
      }
    }

    /** collideWithEachOther: build the tree; if it overflowed run the naive
        pass; then walk the tree for every molecule. */
    method CollideWithEachOther()
      requires Valid()
      modifies this, octTree, coords, speeds
      ensures Valid() && size == old(size) && tick == old(tick)
      ensures size > 0 ==> 0 < octTreeSize
      ensures var mid := if octTreeOverflow then ApplyPairs(old(State()), AllPairs(size, tick % 2 == 1), sqrt)
                         else old(State());
              State() == Sweep(TreeOf(), WrittenMargin, mid, TraversalOrder(size, tick), sqrt)
    {
      BuildOctTree();

      if octTreeOverflow {
        CollideWithEachOtherNaive();
      }

      WalkAll();
    }

    /** The traversal that ends collideWithEachOther: every molecule walks the
        tree from the root, in ascending order on even ticks and descending
        order on odd ones. */
    method WalkAll()
      requires Valid() && (size > 0 ==> 0 < octTreeSize)
      modifies coords, speeds
      ensures State() == Sweep(TreeOf(), WrittenMargin, old(State()), TraversalOrder(size, tick), sqrt)
    {
      ghost var start := State();
      ghost var t := TreeOf();
      assert t.Fits(start);

      if tick % 2 == 0 {
        for i := 0 to size
          invariant State() == Swept(t, WrittenMargin, start, tick, i, sqrt)
        {
          CollideOneMoleculeBarnesHut(i, 0, 0);
          SweptStep(t, WrittenMargin, start, tick, i, sqrt);
        }
      } else {
        var i := size;
        ghost var k := 0;     // molecules already walked
        while 0 < i
          invariant 0 <= i <= size && k == size - i
          invariant State() == Swept(t, WrittenMargin, start, tick, k, sqrt)
        {
          CollideOneMoleculeBarnesHut(i - 1, 0, 0);
          SweptStep(t, WrittenMargin, start, tick, k, sqrt);
          i := i - 1;
          k := k + 1;
        }
      }
      SweptAll(t, WrittenMargin, start, tick, sqrt);
    }
  }

  // ----------------------------------------------------------------- lemmas

  /** The traversal of collideWithEachOther after its first k molecules. */
  ghost function Swept(t: Tree, margin: real, st: Particles, tick: nat, k: nat, sqrt: real -> real): Particles
    requires t.Fits(st) && (t.size > 0 ==> t.used > 0) && k <= t.size
  {
    Sweep(t, margin, st, TraversalOrder(t.size, tick)[..k], sqrt)
  }

  /** One more molecule of the order walks the tree: molecule k on even
      ticks, molecule size - 1 - k on odd ones. */
  lemma SweptStep(t: Tree, margin: real, st: Particles, tick: nat, k: nat, sqrt: real -> real)
    requires t.Fits(st) && t.used > 0 && k < t.size
    ensures Swept(t, margin, st, tick, k + 1, sqrt)
              == Walk(t, margin, Swept(t, margin, st, tick, k, sqrt), if tick % 2 == 0 then k else t.size - 1 - k, 0, sqrt)
  {
    var order := TraversalOrder(t.size, tick);
    assert order[..k + 1][..k] == order[..k];
  }

  /** After every molecule the traversal is the whole sweep. */
  lemma SweptAll(t: Tree, margin: real, st: Particles, tick: nat, sqrt: real -> real)
    requires t.Fits(st) && (t.size > 0 ==> t.used > 0)
    ensures Swept(t, margin, st, tick, t.size, sqrt) == Sweep(t, margin, st, TraversalOrder(t.size, tick), sqrt)
  {
    var order := TraversalOrder(t.size, tick);
    assert order[..t.size] == order;
  }

  // ------------------------------------------------------ the constants

  /** CeilLog2 is ceil(log2(n)): the least k with n <= 2^k. */
  lemma {:induction false} CeilLog2Bounds(n: nat)
    requires n >= 2
    ensures CeilLog2(n) >= 1
    ensures Pow2(CeilLog2(n) - 1) < n <= Pow2(CeilLog2(n))
    decreases n
  {
    var h := (n + 1) / 2;
    if h >= 2 {
      CeilLog2Bounds(h);
      assert Pow2(CeilLog2(n) - 1) == Pow2(CeilLog2(h));
      assert Pow2(CeilLog2(n)) == 2 * Pow2(CeilLog2(h));
      assert Pow2(CeilLog2(h)) == 2 * Pow2(CeilLog2(h) - 1);
    }
  }

  /** The separation-try and depth bounds of Model.h evaluated: ceil(log2 of
      400000) is 19, the try bound lies strictly below the depth bound, and the
      arena holds 2^18 < 400000 <= 2^19 nodes. */
  lemma LogConstants()
    ensures OctTreeMaxSeparationTries == CeilLog2(OctTreeMaxNodes)
    ensures OctTreeMaxDepth == 10 * CeilLog2(OctTreeMaxNodes)
    ensures OctTreeMaxSeparationTries < OctTreeMaxDepth
    ensures Pow2(OctTreeMaxSeparationTries - 1) < OctTreeMaxNodes <= Pow2(OctTreeMaxSeparationTries)
  {
    // halving with rounding up: 400000, 200000, ..., 4, 2, 1
    assert CeilLog2(1) == 0;
    assert CeilLog2(2) == 1;
    assert CeilLog2(4) == 2;
    assert CeilLog2(7) == 3;
    assert CeilLog2(13) == 4;
    assert CeilLog2(25) == 5;
    assert CeilLog2(49) == 6;
    assert CeilLog2(98) == 7;
    assert CeilLog2(196) == 8;
    assert CeilLog2(391) == 9;
    assert CeilLog2(782) == 10;
    assert CeilLog2(1563) == 11;
    assert CeilLog2(3125) == 12;
    assert CeilLog2(6250) == 13;
    assert CeilLog2(12500) == 14;
    assert CeilLog2(25000) == 15;
    assert CeilLog2(50000) == 16;
    assert CeilLog2(100000) == 17;
    assert CeilLog2(200000) == 18;
    assert CeilLog2(400000) == 19;
    CeilLog2Bounds(OctTreeMaxNodes);
  }

  /** Each depth's cells are half as wide as the previous depth's. */
  lemma CellsHalve(box: Vector, i: nat)
    ensures Scale(box, HalfPower(i + 2)) == Scale(Scale(box, HalfPower(i + 1)), 0.5)
  {
    assert HalfPower(i + 2) == 0.5 * HalfPower(i + 1);
  }

  // ------------------------------------------------------ the move

  /** move() is the integration step of a molecule with no acceleration, for
      every molecule of the model; the others stay. */
  lemma MovedIsIntegration(coords: seq<Vector>, speeds: seq<Vector>, n: nat)
    requires |speeds| == |coords| && n <= |coords|
    ensures forall k :: 0 <= k < n ==> Moved(coords, speeds, n)[k] == Integrate(coords[k], speeds[k], Zero).0
    ensures forall k :: n <= k < |coords| ==> Moved(coords, speeds, n)[k] == coords[k]
  {
    forall k | 0 <= k < n
      ensures Moved(coords, speeds, n)[k] == Integrate(coords[k], speeds[k], Zero).0
    {
      IntegrateWithoutAcceleration(coords[k], speeds[k]);
    }
  }

  // ------------------------------------------------------ the tree walk

  /** The order holds every molecule below n and nothing else, whatever the tick. */
  lemma TraversalOrderCovers(n: nat, tick: nat)
    ensures forall m: nat :: m in TraversalOrder(n, tick) <==> m < n
  {
    var r := TraversalOrder(n, tick);
    forall m: nat | m < n
      ensures m in r
    {
      if tick % 2 == 0 {
        assert r[m] == m;
      } else {
        assert r[n - 1 - m] == m;
      }
    }
  }

  /** As written, the pruning test skips a cell holding a molecule that is in
      contact with the walking one: two molecules 16 apart (closer than
      2 RADIUS = 20), each on the near face of its own cell of half-width 1,
      prune each other's cell, so neither walk collides them. */
  lemma PruneMissesContact(half: Vector, cellA: Vector, cellB: Vector, q: Vector, p: Vector)
    requires half == Vector(1.0, 1.0, 1.0)
    requires cellA == Vector(0.0, 0.0, 0.0) && cellB == Vector(18.0, 0.0, 0.0)
    requires q == Vector(1.0, 0.0, 0.0) && p == Vector(17.0, 0.0, 0.0)
    ensures Abs(q.x - cellA.x) <= half.x && Abs(q.y - cellA.y) <= half.y && Abs(q.z - cellA.z) <= half.z
    ensures Abs(p.x - cellB.x) <= half.x && Abs(p.y - cellB.y) <= half.y && Abs(p.z - cellB.z) <= half.z
    ensures Pruned(cellA, half, p, WrittenMargin) && Pruned(cellB, half, q, WrittenMargin)
    ensures LenSqr(Sub(p, q)) <= RadiusSquareX4
  {
    assert Sub(p, q) == Vector(16.0, 0.0, 0.0);
  }

  /** The same contact missed by the walk itself: a root cell holding the
      molecules 0 at x = 1 and 1 at x = 17 in two leaves of half-width 1,
      centred at x = 0 and x = 18.  Walking molecule 1 with the program's
      margin leaves the arrays as they were; with the contact margin it pushes
      molecule 1 out to x = 21. */
  lemma WalkMissesContact(sqrt: real -> real)
    requires SqrtExactAt(sqrt, 256.0)
    ensures TwoLeaves().Fits(InContact())
    ensures LenSqr(Sub(InContact().coords[1], InContact().coords[0])) <= RadiusSquareX4
    ensures Walk(TwoLeaves(), WrittenMargin, InContact(), 1, 0, sqrt) == InContact()
    ensures Walk(TwoLeaves(), ContactMargin, InContact(), 1, 0, sqrt).coords[1] == Vector(21.0, 0.0, 0.0)
  {
    TwoLeavesFit();
    assert Sub(InContact().coords[1], InContact().coords[0]) == Vector(16.0, 0.0, 0.0);
    WrittenWalk(TwoLeaves(), InContact(), sqrt);
    ContactWalk(TwoLeaves(), InContact(), sqrt);
  }

  /** The program's walk of molecule 1: the leaf of molecule 0 is pruned, the
      leaf of molecule 1 is a self-collision. */
  lemma WrittenWalk(t: Tree, st: Particles, sqrt: real -> real)
    requires t == TwoLeaves() && st == InContact()
    ensures t.Fits(st) && Walk(t, WrittenMargin, st, 1, 0, sqrt) == st
  {
    TwoLeavesFit();
    assert Walk(t, WrittenMargin, st, 1, 1, sqrt) == st;
    CollideTwoSelf(st, 1, sqrt);
    assert Walk(t, WrittenMargin, st, 1, 2, sqrt) == st;
    NoChildrenFrom(t, WrittenMargin, st, 1, 0, 2, sqrt);
    assert WalkChildren(t, WrittenMargin, st, 1, 0, 1, sqrt) == st;
    assert WalkChildren(t, WrittenMargin, st, 1, 0, 0, sqrt) == st;
  }

  /** The walk of molecule 1 with the contact margin: the leaf of molecule 0
      is reached and molecule 1 is pushed out to x = 21, where the leaf of
      molecule 1 is still not pruned and is a self-collision. */
  lemma ContactWalk(t: Tree, st: Particles, sqrt: real -> real)
    requires t == TwoLeaves() && st == InContact() && SqrtExactAt(sqrt, 256.0)
    ensures t.Fits(st) && Walk(t, ContactMargin, st, 1, 0, sqrt).coords[1] == Vector(21.0, 0.0, 0.0)
  {
    TwoLeavesFit();
    var st1 := CollideTwo(st, 1, 0, sqrt);
    PushedOut(st, sqrt);
    assert Walk(t, ContactMargin, st, 1, 1, sqrt) == st1;
    CollideTwoSelf(st1, 1, sqrt);
    assert Walk(t, ContactMargin, st1, 1, 2, sqrt) == st1;
    NoChildrenFrom(t, ContactMargin, st1, 1, 0, 2, sqrt);
    assert WalkChildren(t, ContactMargin, st1, 1, 0, 1, sqrt) == st1;
    assert WalkChildren(t, ContactMargin, st, 1, 0, 0, sqrt) == WalkChildren(t, ContactMargin, st1, 1, 0, 1, sqrt);
  }

  /** Molecules 0 at x = 1 and 1 at x = 17, at rest. */
  function InContact(): Particles
  {
    Particles([Vector(1.0, 0.0, 0.0), Vector(17.0, 0.0, 0.0)], [Zero, Zero])
  }

  /** A root centred at x = 9 with leaves for molecule 0 (centred at 0) and
      molecule 1 (centred at 18) in its first two slots; cells of half-width
      9 at depth 0 and 1 at depth 1. */
  function TwoLeaves(): Tree
  {
    Tree([OctTreeNode([1, 2, -1, -1, -1, -1, -1, -1], -1, -1, 2, Zero, Vector(9.0, 0.0, 0.0)),
          InitNode(0, 0, 1, Zero),
          InitNode(1, 0, 1, Vector(18.0, 0.0, 0.0))],
         [0, 1, 1], 3, [Vector(9.0, 9.0, 9.0), Vector(1.0, 1.0, 1.0)], 2)
  }

  lemma TwoLeavesFit()
    ensures TwoLeaves().Fits(InContact())
  {
    var t := TwoLeaves();
    assert forall o :: 0 <= o < 8 ==> t.nodes[1].octs[o] == -1 && t.nodes[2].octs[o] == -1;
  }

  /** With exact sqrt(256) = 16, collideTwoMolecules(1, 0) on InContact moves
      molecule 1 to 20 from molecule 0. */
  lemma PushedOut(st: Particles, sqrt: real -> real)
    requires st == InContact() && SqrtExactAt(sqrt, 256.0)
    ensures CollideTwo(st, 1, 0, sqrt).coords[1] == Vector(21.0, 0.0, 0.0)
  {
    var d := Sub(st.coords[1], st.coords[0]);
    assert d == Vector(16.0, 0.0, 0.0) && LenSqr(d) == 256.0;
    SixteenIsTheRoot(sqrt(256.0));
    assert SetLength(d, 2.0 * Radius, sqrt, KeepOnDegenerate) == Vector(20.0, 0.0, 0.0);
  }

  /** A node whose slots from o on are empty: the rest of its loop changes
      nothing. */
  lemma {:induction false} NoChildrenFrom(t: Tree, margin: real, st: Particles, m: nat, cur: nat, o: nat, sqrt: real -> real)
    requires t.Fits(st) && cur < t.used && m < t.size && o <= 8
    requires forall k :: o <= k < 8 ==> t.nodes[cur].octs[k] == -1
    ensures WalkChildren(t, margin, st, m, cur, o, sqrt) == st
    decreases 8 - o
  {
    if o < 8 {
      NoChildrenFrom(t, margin, st, m, cur, o + 1, sqrt);
    }
  }

  /** 16 is the only non-negative square root of 256. */
  lemma SixteenIsTheRoot(r: real)
    requires r >= 0.0 && r * r == 256.0
    ensures r == 16.0
  {
    var q := (r - 16.0) * (r + 16.0);
    assert q == 0.0;
    QuotientOf(q, r - 16.0, r + 16.0);
  }

  /** With the contact margin a skipped cell holds no molecule within
      contact distance of the walking one. */
  lemma OutOfReachIsSound(center: Vector, half: Vector, p: Vector, q: Vector)
    requires Abs(q.x - center.x) <= half.x && Abs(q.y - center.y) <= half.y && Abs(q.z - center.z) <= half.z
    requires Pruned(center, half, p, ContactMargin)
    ensures LenSqr(Sub(p, q)) > RadiusSquareX4
  {
    var d := Sub(p, q);
    if Abs(center.x - p.x) > half.x + 2.0 * Radius {
      FarAxis(d.x, d.y * d.y + d.z * d.z);
    } else if Abs(center.y - p.y) > half.y + 2.0 * Radius {
      FarAxis(d.y, d.x * d.x + d.z * d.z);
    } else {
      FarAxis(d.z, d.x * d.x + d.y * d.y);
    }
  }

  /** So with the contact margin, collideTwoMolecules with any molecule of a
      skipped cell would have left the arrays alone: skipping the cell loses
      nothing. */
  lemma PrunedCollisionIsNoOp(st: Particles, m: nat, q: nat, center: Vector, half: Vector, sqrt: real -> real)
    requires st.Has(m) && st.Has(q)
    requires Abs(st.coords[q].x - center.x) <= half.x && Abs(st.coords[q].y - center.y) <= half.y
    requires Abs(st.coords[q].z - center.z) <= half.z
    requires Pruned(center, half, st.coords[m], ContactMargin)
    ensures CollideTwo(st, m, q, sqrt) == st
  {
    OutOfReachIsSound(center, half, st.coords[m], st.coords[q]);
    CollideTwoFar(st, m, q, sqrt);
  }

  /** A coordinate difference beyond 2 RADIUS alone exceeds the contact
      distance. */
  lemma FarAxis(a: real, rest: real)
    requires Abs(a) > 2.0 * Radius && rest >= 0.0
    ensures a * a + rest > RadiusSquareX4
  {
    assert a * a == Abs(a) * Abs(a);
    assert Abs(a) * Abs(a) > (2.0 * Radius) * Abs(a) > (2.0 * Radius) * (2.0 * Radius);
  }

  /** A walk keeps the total momentum of the model's molecules: it only
      applies collideTwoMolecules to pairs among them. */
  lemma {:induction false} WalkKeepsMomentum(t: Tree, margin: real, st: Particles, m: nat, cur: nat, sqrt: real -> real)
    requires t.Fits(st) && cur < t.used && m < t.size
    ensures Walk(t, margin, st, m, cur, sqrt).Momentum(t.size) == st.Momentum(t.size)
    decreases t.used - cur, 9
  {
    var node := t.nodes[cur];
    if Pruned(node.center, t.sizeAtDepth[t.levels[cur]], st.coords[m], margin) {
    } else if node.count == 1 {
      CollideTwoKeepsMomentum(st, m, node.molecule, t.size, sqrt);
    } else {
      WalkChildrenKeepsMomentum(t, margin, st, m, cur, 0, sqrt);
    }
  }

  lemma {:induction false} WalkChildrenKeepsMomentum(t: Tree, margin: real, st: Particles, m: nat, cur: nat, o: nat, sqrt: real -> real)
    requires t.Fits(st) && cur < t.used && m < t.size && o <= 8
    ensures WalkChildren(t, margin, st, m, cur, o, sqrt).Momentum(t.size) == st.Momentum(t.size)
    decreases t.used - cur, 8 - o
  {
    if o < 8 {
      var c := t.nodes[cur].octs[o];
      var next := if c == -1 then st else Walk(t, margin, st, m, c, sqrt);
      if c != -1 {
        WalkKeepsMomentum(t, margin, st, m, c, sqrt);
      }
      WalkChildrenKeepsMomentum(t, margin, next, m, cur, o + 1, sqrt);
    }
  }

  /** During molecule m's walk only molecule m is repositioned. */
  lemma {:induction false} WalkMovesOnlyWalker(t: Tree, margin: real, st: Particles, m: nat, cur: nat, sqrt: real -> real)
    requires t.Fits(st) && cur < t.used && m < t.size
    ensures forall k :: 0 <= k < |st.coords| && k != m ==> Walk(t, margin, st, m, cur, sqrt).coords[k] == st.coords[k]
    decreases t.used - cur, 9
  {
    var node := t.nodes[cur];
    if Pruned(node.center, t.sizeAtDepth[t.levels[cur]], st.coords[m], margin) {
    } else if node.count == 1 {
      CollideTwoFrame(st, m, node.molecule, sqrt);
    } else {
      WalkChildrenMovesOnlyWalker(t, margin, st, m, cur, 0, sqrt);
    }
  }

  lemma {:induction false} WalkChildrenMovesOnlyWalker(t: Tree, margin: real, st: Particles, m: nat, cur: nat, o: nat, sqrt: real -> real)
    requires t.Fits(st) && cur < t.used && m < t.size && o <= 8
    ensures forall k :: 0 <= k < |st.coords| && k != m ==> WalkChildren(t, margin, st, m, cur, o, sqrt).coords[k] == st.coords[k]
    decreases t.used - cur, 8 - o
  {
    if o < 8 {
      var c := t.nodes[cur].octs[o];
      var next := if c == -1 then st else Walk(t, margin, st, m, c, sqrt);
      if c != -1 {
        WalkMovesOnlyWalker(t, margin, st, m, c, sqrt);
      }
      WalkChildrenMovesOnlyWalker(t, margin, next, m, cur, o + 1, sqrt);
    }
  }

  /** The whole traversal keeps the total momentum. */
  lemma {:induction false} SweepKeepsMomentum(t: Tree, margin: real, st: Particles, order: seq<nat>, sqrt: real -> real)
    requires t.Fits(st) && (order != [] ==> t.used > 0)
    requires forall k :: 0 <= k < |order| ==> order[k] < t.size
    ensures Sweep(t, margin, st, order, sqrt).Momentum(t.size) == st.Momentum(t.size)
    decreases |order|
  {
    if order != [] {
      var init := order[..|order| - 1];
      SweepKeepsMomentum(t, margin, st, init, sqrt);
      WalkKeepsMomentum(t, margin, Sweep(t, margin, st, init, sqrt), order[|order| - 1], 0, sqrt);
    }
  }

  /** collideWithEachOther keeps the total momentum of the molecules: the
      naive pass (when the tree overflowed) and the traversal both do, with
      either pruning margin. */
  lemma CollideWithEachOtherKeepsMomentum(t: Tree, margin: real, st: Particles, overflow: bool, tick: nat, sqrt: real -> real)
    requires t.Fits(st) && (t.size > 0 ==> t.used > 0)
    ensures PairsIn(AllPairs(t.size, tick % 2 == 1), |st.coords|)
    ensures var mid := if overflow then ApplyPairs(st, AllPairs(t.size, tick % 2 == 1), sqrt) else st;
            t.Fits(mid) && Sweep(t, margin, mid, TraversalOrder(t.size, tick), sqrt).Momentum(t.size) == st.Momentum(t.size)
  {
    AllPairsKeepMomentum(st, t.size, tick % 2 == 1, sqrt);
    var mid := if overflow then ApplyPairs(st, AllPairs(t.size, tick % 2 == 1), sqrt) else st;
    SweepKeepsMomentum(t, margin, mid, TraversalOrder(t.size, tick), sqrt);
  }
}
