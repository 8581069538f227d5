/** The earlier, header-only gas model of model/Model.hpp: fixed arrays inside
    the object, box extents maxX, maxY, maxZ, an octree whose child centres are
    computed from pow(0.5, depth + 1) and the box extents, no depth bound, and
    an all-pairs collision pass in ascending order with the BOUNCY rule
    written inline.  Its collideWithEachOther does not use the tree. */
module LegacyModel {
  import opened Vectors
  import opened Octree
  import opened Passes
  import opened Walls

  /** MAX_NUMBER_OF_MOLECULES */
  const MaxNumberOfMolecules: nat := 10000

  /** OCT_TREE_MAX_NODES = 3 * MAX_NUMBER_OF_MOLECULES */
  const OctTreeMaxNodes: nat := 3 * MaxNumberOfMolecules

  /** OCT_TREE_MAX_SEPARTION_TRIES */
  const OctTreeMaxSeparationTries: nat := 7

  /** A value-initialised OctTreeNode: every field zero. */
  const ZeroNode: OctTreeNode := OctTreeNode([0, 0, 0, 0, 0, 0, 0, 0], 0, 0, 0, Zero, Zero)

  class GasModel {
    const maxBox: Vector                // maxX, maxY, maxZ
    const sqrt: real -> real            // std::sqrt, behind Vector::length
    var size: nat
    const coords: array<Vector>
    const speeds: array<Vector>
    const octTree: array<OctTreeNode>
    var octTreeSize: nat
    var octTreeOverflow: bool           // octTreeFuckedUp

    ghost predicate Valid()
      reads this, octTree
    {
      && coords.Length == MaxNumberOfMolecules && speeds.Length == MaxNumberOfMolecules
      && octTree.Length == OctTreeMaxNodes && coords != speeds
      && size <= MaxNumberOfMolecules && octTreeSize <= OctTreeMaxNodes
      && Shaped(octTree[..], octTreeSize, size)
    }

    /** The arrays' contents. */
    ghost function State(): Particles
      reads this, coords, speeds
    {
      Particles(coords[..], speeds[..])
    }

    /** GasModel(maxX, maxY, maxZ): no molecules, a value-initialised arena. */
    constructor(newMax: Vector, sqrt: real -> real)
      ensures Valid() && fresh(coords) && fresh(speeds) && fresh(octTree)
      ensures maxBox == newMax && this.sqrt == sqrt
      ensures size == 0 && octTreeSize == 0 && !octTreeOverflow
      ensures forall k :: 0 <= k < OctTreeMaxNodes ==> octTree[k] == ZeroNode
    {
      maxBox := newMax;
      this.sqrt := sqrt;
      size := 0;
      coords := new Vector[MaxNumberOfMolecules](_ => Zero);
      speeds := new Vector[MaxNumberOfMolecules](_ => Zero);
      octTree := new OctTreeNode[OctTreeMaxNodes](_ => ZeroNode);
      octTreeSize := 0;
      octTreeOverflow := false;
    }

    /** addMolecule: ignored at capacity, otherwise written to slot size; the
        radius and mass arguments are not used. */
    method AddMolecule(coord: Vector, speed: Vector, radius: real, mass: real)
      requires Valid()
      modifies this, coords, speeds
      ensures Valid()
      ensures old(size) == MaxNumberOfMolecules ==>
                size == old(size) && coords[..] == old(coords[..]) && speeds[..] == old(speeds[..])
      ensures old(size) < MaxNumberOfMolecules ==>
                && size == old(size) + 1
                && coords[..] == old(coords[..])[old(size) := coord]
                && speeds[..] == old(speeds[..])[old(size) := speed]
      ensures octTreeSize == old(octTreeSize) && octTreeOverflow == old(octTreeOverflow)
    {
      if size == MaxNumberOfMolecules {
        return;
      }
      coords[size] := coord;
      speeds[size] := speed;
      size := size + 1;
    }

    /** move: every molecule advances by its speed. */
    method Move()
      requires Valid()
      modifies coords
      ensures Valid()
      ensures coords[..] == Moved(old(coords[..]), speeds[..], size)
    {
      for i := 0 to size
        invariant coords[..] == Moved(old(coords[..]), speeds[..], i)
      {
        coords[i] := Add(coords[i], speeds[i]);
      }
    }

    /** insertNode: with the arena full only the overflow flag is raised;
        otherwise node prevI gets the next free node as child `oct`, centred
        pow(0.5, depth + 1) box extents further along each axis. */
    method InsertNode(moleculeI: int, prevI: nat, newCount: nat, depth: nat, oct: int)
      requires Valid()
      requires prevI <= octTreeSize && 0 < octTreeSize && 0 <= oct < 8
      requires -1 <= moleculeI < size && newCount >= 1 && (newCount == 1 ==> 0 <= moleculeI)
      modifies this, octTree
      ensures Valid()
      ensures size == old(size)
      ensures old(octTreeSize) == OctTreeMaxNodes ==>
                octTreeOverflow && octTreeSize == old(octTreeSize) && octTree[..] == old(octTree[..])
      ensures old(octTreeSize) < OctTreeMaxNodes ==>
                && octTreeOverflow == old(octTreeOverflow)
                && octTreeSize == old(octTreeSize) + 1
                && octTree[..] == AttachChild(old(octTree[..]), old(octTreeSize), prevI, moleculeI, newCount,
                                              Scale(maxBox, HalfPower(depth + 1)), oct)
      ensures forall k :: 0 <= k < old(octTreeSize) ==> octTree[k] == old(octTree[k]).(octs := octTree[k].octs)
    {
      if octTreeSize == OctTreeMaxNodes {
        octTreeOverflow := true;
        return;
      }
      ghost var nodes := octTree[..];
      ghost var half := Scale(maxBox, HalfPower(depth + 1));
      AttachKeepsShape(nodes, octTreeSize, size, prevI, moleculeI, newCount, half, oct);

      octTree[prevI] := octTree[prevI].(octs := octTree[prevI].octs[oct := octTreeSize]);

      var depthCoeff := HalfPower(depth + 1);
      var parent := octTree[prevI].center;
      var curCenter := Vector(parent.x + depthCoeff * (if Bit(oct, 4) then maxBox.x else -maxBox.x),
                              parent.y + depthCoeff * (if Bit(oct, 2) then maxBox.y else -maxBox.y),
                              parent.z + depthCoeff * (if Bit(oct, 1) then maxBox.z else -maxBox.z));
      assert curCenter == ChildCenter(parent, half, oct);

      octTree[octTreeSize] := InitNode(moleculeI, prevI, newCount, curCenter);
      assert octTree[..] == AttachChild(nodes, octTreeSize, prevI, moleculeI, newCount, half, oct);
      octTreeSize := octTreeSize + 1;
    }

    /** The descent of buildOctTree for one molecule: from the root, count the
        molecule in each node and follow its octant until the slot is empty.
        Returns the last node, the octant of the empty slot and the number of
        nodes passed; `path` is the ghost record of the nodes passed, from the
        root to prevI, and exactly those nodes gain one in count. */
    method Descend(moleculeI: nat) returns (prevI: nat, oct: int, depth: nat, ghost path: seq<nat>)
      requires Valid() && 0 < octTreeSize && moleculeI < size
      modifies octTree
      ensures Valid()
      ensures prevI < octTreeSize && depth >= 1
      ensures oct == Octant(coords[moleculeI], octTree[prevI].center)
      ensures octTree[prevI].octs[oct] == -1
      ensures octTree[prevI].count == 2 ==> 0 <= octTree[prevI].molecule < size
      ensures |path| == depth && path[0] == 0 && path[|path| - 1] == prevI
      ensures forall k :: 0 <= k < |path| ==> path[k] <= prevI
      ensures DescentPath(octTree[..], path, coords[moleculeI])
      ensures CountedAlong(octTree[..], old(octTree[..]), path, octTreeSize)
      ensures octTree[0].count == old(octTree[0].count) + 1
    {
      ghost var before := octTree[..];
      prevI, oct, depth, path := 0, 0, 0, [];
      var curI: int := 0;
      while curI != -1
        invariant Valid()
        invariant -1 <= curI < octTreeSize && prevI < octTreeSize && 0 <= oct < 8
        invariant |path| == depth && (depth == 0 ==> curI == 0)
        invariant depth > 0 ==>
                    && path[0] == 0 && path[|path| - 1] == prevI
                    && (curI != -1 ==> prevI < curI)
                    && octTree[prevI].octs[oct] == curI
                    && oct == Octant(coords[moleculeI], octTree[prevI].center)
        invariant forall k :: 0 <= k < |path| ==> path[k] <= prevI
        invariant DescentPath(octTree[..], path, coords[moleculeI])
        invariant CountedAlong(octTree[..], before, path, octTreeSize)
        decreases if curI == -1 then 0 else octTreeSize + 1 - curI
      {
        depth := depth + 1;
        prevI, oct, curI := CountIn(moleculeI, curI, before, path);
        path := path + [prevI];
      }
      assert path[0] in path;
    }

    /** One step of the descent: `octTree[curI].count++`, then the octant
        of molecule moleculeI in node curI and the child in that slot.  The
        node joins the path of counted nodes. */
    method CountIn(moleculeI: nat, curI: nat, ghost before: seq<OctTreeNode>, ghost path: seq<nat>)
      returns (node: nat, oct: int, next: int)
      requires Valid() && curI < octTreeSize && moleculeI < size
      requires CountedAlong(octTree[..], before, path, octTreeSize) && DescentPath(octTree[..], path, coords[moleculeI])
      requires forall k :: 0 <= k < |path| ==> path[k] < curI
      requires path != [] ==> octTree[path[|path| - 1]].octs[Octant(coords[moleculeI], octTree[path[|path| - 1]].center)] == curI
      modifies octTree
      ensures Valid() && node == curI
      ensures CountedAlong(octTree[..], before, path + [curI], octTreeSize)
      ensures DescentPath(octTree[..], path + [curI], coords[moleculeI])
      ensures oct == Octant(coords[moleculeI], octTree[curI].center) && next == octTree[curI].octs[oct]
      ensures -1 <= next < octTreeSize && (next != -1 ==> curI < next)
    {
      DescendStep(octTree[..], before, path, octTreeSize, curI, coords[moleculeI]);
      var bumped := octTree[curI].(count := octTree[curI].count + 1);
      RefreshKeepsShape(octTree[..], octTreeSize, size, curI, bumped);
      octTree[curI] := bumped;
      node := curI;
      oct := Octant(coords[moleculeI], octTree[curI].center);
      next := octTree[curI].octs[oct];
    }

    /** buildOctTree: nothing without molecules; otherwise the root (centred
        at half the box extents) is reset to molecule 0 and every further
        molecule is counted along its descent and inserted at the empty slot
        it reached.  A leaf that now counts two molecules is split as in the
        later model (at most OCT_TREE_MAX_SEPARTION_TRIES intermediate nodes),
        but keeps its molecule index. */
    method BuildOctTree()
      requires Valid()
      modifies this, octTree
      ensures Valid() && size == old(size)
      ensures size == 0 ==>
                && octTreeSize == old(octTreeSize) && octTreeOverflow == old(octTreeOverflow)
                && octTree[..] == old(octTree[..])
      ensures size > 0 ==> 0 < octTreeSize && octTree[0].prev == -1 && octTree[0].center == Scale(maxBox, 0.5)
      ensures size > 0 && !octTreeOverflow ==> octTree[0].count == size
    {
      if size == 0 {
        return;
      }

      ResetRootShaped(octTree[..], size, Scale(maxBox, 0.5));
      octTree[0] := InitNode(0, -1, 1, Scale(maxBox, 0.5));
      octTreeSize := 1;
      octTreeOverflow := false;

      for moleculeI := 1 to size
        invariant Valid() && size == old(size)
        invariant 0 < octTreeSize && octTree[0].prev == -1 && octTree[0].center == Scale(maxBox, 0.5)
        invariant octTree[0].count == moleculeI
      {
        // Search for place to insert node in an oct-tree
        var prevI, oct, depth, path := Descend(moleculeI);

        if octTree[prevI].count == 2 {
          // Tree rebalancing needed
          var oldMoleculeI := octTree[prevI].molecule;
          var oldOct := Octant(coords[oldMoleculeI], octTree[prevI].center);

          var separationTries := 0;
          while oct == oldOct && separationTries < OctTreeMaxSeparationTries
            invariant Valid() && size == old(size)
            invariant 0 < octTreeSize && octTree[0].prev == -1 && octTree[0].center == Scale(maxBox, 0.5)
            invariant octTree[0].count == moleculeI + 1
            invariant prevI < octTreeSize && 0 <= oct < 8 && 0 <= oldOct < 8
            decreases OctTreeMaxSeparationTries - separationTries
          {
            prevI := octTreeSize;

            InsertNode(-1, prevI, 2, depth, oct);
            if octTreeOverflow {
              return;
            }

            oct := Octant(coords[moleculeI], octTree[prevI].center);
            oldOct := Octant(coords[oldMoleculeI], octTree[prevI].center);

            depth := depth + 1;
            separationTries := separationTries + 1;
          }

          if oct != oldOct {
            InsertNode(moleculeI, prevI, 1, depth, oct);
            InsertNode(oldMoleculeI, prevI, 1, depth, oldOct);
          } else {
            InsertNode(moleculeI, prevI, 1, depth, oct);
            InsertNode(oldMoleculeI, prevI, 1, depth, FlipZ(oct));
          }
        } else {
          // Just a single insertion will do
          InsertNode(moleculeI, prevI, 1, depth, oct);
        }
      }
    }

    /** collideWithWalls: every molecule reflected off the walls of the box
        [0, maxX] x [0, maxY] x [0, maxZ] with RADIUS, axis by axis. */
    method CollideWithWalls()
      requires coords != speeds && coords.Length == speeds.Length && size <= coords.Length
      modifies coords, speeds
      ensures forall k :: 0 <= k < size ==>
                Kinematics(coords[k], speeds[k]) == WallBounce(old(coords[k]), old(speeds[k]), Radius, maxBox)
      ensures forall k :: size <= k < coords.Length ==> coords[k] == old(coords[k]) && speeds[k] == old(speeds[k])
    {
      for i := 0 to size
        invariant forall k :: 0 <= k < i ==>
                    Kinematics(coords[k], speeds[k]) == WallBounce(old(coords[k]), old(speeds[k]), Radius, maxBox)
        invariant forall k :: i <= k < coords.Length ==> coords[k] == old(coords[k]) && speeds[k] == old(speeds[k])
      {
        BounceOffWalls(i);
      }
    }

    /** The body of collideWithWalls' loop for molecule i: a copy
        of its coordinates is mirrored axis by axis while the speed components
        are negated in place, and the copy is written back. */
    method BounceOffWalls(i: nat)
      requires coords != speeds && coords.Length == speeds.Length && i < coords.Length
      modifies coords, speeds
      ensures Kinematics(coords[i], speeds[i]) == WallBounce(old(coords[i]), old(speeds[i]), Radius, maxBox)
      ensures forall k :: 0 <= k < coords.Length && k != i ==> coords[k] == old(coords[k]) && speeds[k] == old(speeds[k])
    {
      ghost var c0, v0 := coords[i], speeds[i];
      var cur := coords[i];

      if cur.x < Radius {
        cur := cur.(x := 2.0 * Radius - cur.x);
        speeds[i] := speeds[i].(x := speeds[i].x * -1.0);
      } else if cur.x > maxBox.x - Radius {
        cur := cur.(x := 2.0 * (maxBox.x - Radius) - cur.x);
        speeds[i] := speeds[i].(x := speeds[i].x * -1.0);
      }
      assert AxisState(cur.x, speeds[i].x) == ReflectAxis(c0.x, v0.x, Radius, maxBox.x);

      if cur.y < Radius {
        cur := cur.(y := 2.0 * Radius - cur.y);
        speeds[i] := speeds[i].(y := speeds[i].y * -1.0);
      } else if cur.y > maxBox.y - Radius {
        cur := cur.(y := 2.0 * (maxBox.y - Radius) - cur.y);
        speeds[i] := speeds[i].(y := speeds[i].y * -1.0);
      }
      assert AxisState(cur.y, speeds[i].y) == ReflectAxis(c0.y, v0.y, Radius, maxBox.y);

      if cur.z < Radius {
        cur := cur.(z := 2.0 * Radius - cur.z);
        speeds[i] := speeds[i].(z := speeds[i].z * -1.0);
      } else if cur.z > maxBox.z - Radius {
        cur := cur.(z := 2.0 * (maxBox.z - Radius) - cur.z);
        speeds[i] := speeds[i].(z := speeds[i].z * -1.0);
      }
      assert AxisState(cur.z, speeds[i].z) == ReflectAxis(c0.z, v0.z, Radius, maxBox.z);

      coords[i] := cur;
    }

    /** collideWithEachOther: every pair i < j in ascending rows, each
        resolved by the statements of CollidePair. */
    method CollideWithEachOther()
      requires coords != speeds && coords.Length == speeds.Length && size <= coords.Length
      modifies coords, speeds
      ensures State() == ApplyPairs(old(State()), AllPairs(size, false), sqrt)
    {
      ghost var st0 := State();
      for i := 0 to size
        invariant State() == ApplyPairs(st0, Rows(i, size, false), sqrt)
      {
        RowsStep(st0, i, size, false, sqrt);
        CollideRow(i);
      }
    }

    /** The inner loop of collideWithEachOther: row i, j from i + 1 up. */
    method CollideRow(i: nat)
      requires coords != speeds && coords.Length == speeds.Length && size <= coords.Length
      modifies coords, speeds
      ensures State() == RowPass(old(State()), i, size, false, sqrt)
    {
      ghost var st0 := State();
      if size <= i + 1 {
        return;
      }
      for j := i + 1 to size
        invariant State() == RowPass(st0, i, j, false, sqrt)
      {
        CollidePair(i, j);
      }
    }

    /** The body of collideWithEachOther's inner loop (written inline there):
        the BOUNCY rule on pair (i, j).  A pair farther apart than 2 RADIUS is
        skipped (`continue`); otherwise molecule i is moved to 2 RADIUS from
        molecule j and the projection of the speed difference is moved from i
        to j. */
    method CollidePair(i: nat, j: nat)
      requires coords != speeds && coords.Length == speeds.Length && i < coords.Length && j < coords.Length
      modifies coords, speeds
      ensures State() == CollideTwo(old(State()), i, j, sqrt)
    {
      var coordDiff := Sub(coords[i], coords[j]);

      if LenSqr(coordDiff) > RadiusSquareX4 {
        return;
      }

      // Shift out of collision:
      coordDiff := SetLength(coordDiff, 2.0 * Radius, sqrt, KeepOnDegenerate);
      coords[i] := Add(coords[j], coordDiff);

      var speedDiffProj := Scale(coordDiff, Scalar(coordDiff, Sub(speeds[i], speeds[j])) / RadiusSquareX4);

      speeds[i] := Sub(speeds[i], speedDiffProj);
      speeds[j] := Add(speeds[j], speedDiffProj);
    }
  }
}
