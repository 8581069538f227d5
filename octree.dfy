/** The Barnes-Hut octree shared by both gas models (struct OctTreeNode of
    model/Model.h and model/Model.hpp): nodes live in a fixed-capacity arena
    and refer to each other by index, -1 meaning "absent".  This module holds
    the node value, the octant code, the centre of a child cell and the shape
    invariants of the arena, with the lemmas that show each arena update keeps
    them. */
module Octree {
  import opened Vectors

  /** octs[8]: one child slot per octant code. */
  type Children = s: seq<int> | |s| == 8 witness [-1, -1, -1, -1, -1, -1, -1, -1]

  const NoChildren: Children := [-1, -1, -1, -1, -1, -1, -1, -1]

  /** Model.hpp stores the centre as three fields centerX, centerY, centerZ;
      here both layouts use one Vector. */
  datatype OctTreeNode = OctTreeNode(octs: Children, prev: int, molecule: int, count: int,
                                     centerOfMass: Vector, center: Vector)

  /** initNode: no children, the given parent, molecule, count and centre,
      and a zero centre of mass. */
  function InitNode(moleculeI: int, prevI: int, newCount: nat, newCenter: Vector): (r: OctTreeNode)
    ensures forall o :: 0 <= o < 8 ==> r.octs[o] == -1
    ensures r.prev == prevI && r.molecule == moleculeI && r.count == newCount && r.center == newCenter
    ensures r.centerOfMass == Zero
  {
    OctTreeNode(NoChildren, prevI, moleculeI, newCount, Zero, newCenter)
  }

  /** What an arena slot holds before any initNode reached it. */
  const BlankNode: OctTreeNode := InitNode(-1, -1, 0, Zero)

  /** pow(0.5, n), exactly: every such power down to 2^-1074 is a double. */
  function HalfPower(n: nat): (r: real)
    ensures 0.0 < r <= 1.0
  {
    if n == 0 then 1.0 else 0.5 * HalfPower(n - 1)
  }

  // ------------------------------------------------------------ octant codes

  /** `oct & b` is non-zero, for b one of the bits 4, 2, 1. */
  predicate Bit(oct: int, b: int)
    requires b > 0
  {
    (oct / b) % 2 == 1
  }

  /** calculateOct: 4 when the point is beyond the centre along x, plus 2
      along y, plus 1 along z (strict comparisons). */
  function Octant(p: Vector, center: Vector): (r: int)
    ensures 0 <= r < 8
    ensures Bit(r, 4) <==> p.x > center.x
    ensures Bit(r, 2) <==> p.y > center.y
    ensures Bit(r, 1) <==> p.z > center.z
  {
    (if p.x > center.x then 4 else 0) + (if p.y > center.y then 2 else 0) + (if p.z > center.z then 1 else 0)
  }

  /** `(oct & b) ? 1.0 : -1.0` */
  function Sign(oct: int, b: int): real
    requires b > 0
  {
    if Bit(oct, b) then 1.0 else -1.0
  }

  /** The centre of child cell `oct`: the parent's centre moved by the child's
      half-width along each axis, forwards where that bit of oct is set. */
  function ChildCenter(parent: Vector, half: Vector, oct: int): Vector
  {
    Vector(parent.x + Sign(oct, 4) * half.x, parent.y + Sign(oct, 2) * half.y, parent.z + Sign(oct, 1) * half.z)
  }

  /** `oct ^ 1`: the neighbouring octant across the z mid-plane. */
  function FlipZ(oct: int): (r: int)
    requires 0 <= oct < 8
    ensures 0 <= r < 8 && r != oct
    ensures (Bit(r, 4) <==> Bit(oct, 4)) && (Bit(r, 2) <==> Bit(oct, 2)) && (Bit(r, 1) <==> !Bit(oct, 1))
  {
    if oct % 2 == 0 then oct + 1 else oct - 1
  }

  /** The octant code and the child centre are inverse to each other: the
      centre of child `oct` lies in octant `oct` of its parent. */
  lemma OctantOfChildCenter(parent: Vector, half: Vector, oct: int)
    requires 0 <= oct < 8
    requires half.x > 0.0 && half.y > 0.0 && half.z > 0.0
    ensures Octant(ChildCenter(parent, half, oct), parent) == oct
  {
    var r := Octant(ChildCenter(parent, half, oct), parent);
    assert Bit(r, 4) == Bit(oct, 4) && Bit(r, 2) == Bit(oct, 2) && Bit(r, 1) == Bit(oct, 1);
    BitsDetermineOctant(r, oct);
  }

  /** A code in 0..7 is determined by its three bits. */
  lemma BitsDetermineOctant(a: int, b: int)
    requires 0 <= a < 8 && 0 <= b < 8
    requires Bit(a, 4) == Bit(b, 4) && Bit(a, 2) == Bit(b, 2) && Bit(a, 1) == Bit(b, 1)
    ensures a == b
  {
    assert a == 4 * (a / 4) + 2 * ((a / 2) % 2) + a % 2;
    assert b == 4 * (b / 4) + 2 * ((b / 2) % 2) + b % 2;
  }

  // ------------------------------------------------------- arena invariants

  /** Every present child of a used node is a used node with a larger index:
      the arena is filled in order and links only point forwards. */
  ghost predicate LinksForward(nodes: seq<OctTreeNode>, used: nat)
  {
    used <= |nodes| &&
    forall k, o :: 0 <= k < used && 0 <= o < 8 ==>
      nodes[k].octs[o] == -1 || k < nodes[k].octs[o] < used
  }

  /** Every used node counts at least one molecule, and a node counting
      exactly one names a molecule of the model. */
  ghost predicate Occupied(nodes: seq<OctTreeNode>, used: nat, size: nat)
    requires used <= |nodes|
  {
    forall k :: 0 <= k < used ==>
      nodes[k].count >= 1 && (nodes[k].count == 1 ==> 0 <= nodes[k].molecule < size)
  }

  /** The shape kept by both models' arenas. */
  ghost predicate Shaped(nodes: seq<OctTreeNode>, used: nat, size: nat)
  {
    LinksForward(nodes, used) && Occupied(nodes, used, size)
  }

  /** levels[k] is the depth at which node k was inserted: the root is at 0,
      a child one below its parent, and every depth is a valid index of
      sizeAtDepth. */
  ghost predicate Levelled(nodes: seq<OctTreeNode>, levels: seq<nat>, used: nat, maxDepth: nat)
  {
    |levels| == |nodes| && used <= |nodes| &&
    (used > 0 ==> levels[0] == 0) &&
    forall k :: 0 <= k < used ==>
      levels[k] < maxDepth &&
      forall o :: 0 <= o < 8 && 0 <= nodes[k].octs[o] < |nodes| ==>
        levels[nodes[k].octs[o]] == levels[k] + 1
  }

  /** insertNode's update of the arena: slot `oct` of node prevI is pointed
      at the next free slot `used`, which then receives a fresh node whose
      centre is the parent's child centre.  When prevI is `used` itself the
      link is written into the slot that initNode then overwrites. */
  function AttachChild(nodes: seq<OctTreeNode>, used: nat, prevI: nat, moleculeI: int, newCount: nat,
                       half: Vector, oct: int): (r: seq<OctTreeNode>)
    requires prevI <= used < |nodes| && 0 <= oct < 8
    ensures |r| == |nodes|
  {
    var linked := nodes[prevI := nodes[prevI].(octs := nodes[prevI].octs[oct := used])];
    linked[used := InitNode(moleculeI, prevI, newCount, ChildCenter(linked[prevI].center, half, oct))]
  }

  /** The first root of a build: molecule 0, no parent, count 1. */
  function ResetRoot(nodes: seq<OctTreeNode>, rootCenter: Vector): (r: seq<OctTreeNode>)
    requires |nodes| > 0
    ensures |r| == |nodes|
  {
    nodes[0 := InitNode(0, -1, 1, rootCenter)]
  }

  // ----------------------------------------------------------------- lemmas

  /** A fresh root over at least one molecule is a one-node arena of the
      right shape. */
  lemma ResetRootShaped(nodes: seq<OctTreeNode>, size: nat, rootCenter: Vector)
    requires |nodes| > 0 && size > 0
    ensures Shaped(ResetRoot(nodes, rootCenter), 1, size)
  {
    var r := ResetRoot(nodes, rootCenter);
    assert r[0].octs == NoChildren;
  }

  /** ... and of the right level. */
  lemma ResetRootIsArena(nodes: seq<OctTreeNode>, levels: seq<nat>, size: nat, rootCenter: Vector, maxDepth: nat)
    requires |nodes| > 0 && |levels| == |nodes| && size > 0 && maxDepth > 0
    ensures Shaped(ResetRoot(nodes, rootCenter), 1, size)
    ensures Levelled(ResetRoot(nodes, rootCenter), levels[0 := 0], 1, maxDepth)
  {
    ResetRootShaped(nodes, size, rootCenter);
    var r := ResetRoot(nodes, rootCenter);
    assert r[0].octs == NoChildren;
  }

  /** insertNode keeps the arena's shape. */
  lemma AttachKeepsShape(nodes: seq<OctTreeNode>, used: nat, size: nat, prevI: nat, moleculeI: int,
                         newCount: nat, half: Vector, oct: int)
    requires Shaped(nodes, used, size)
    requires prevI <= used < |nodes| && 0 <= oct < 8
    requires newCount >= 1 && (newCount == 1 ==> 0 <= moleculeI < size)
    ensures Shaped(AttachChild(nodes, used, prevI, moleculeI, newCount, half, oct), used + 1, size)
  {
    var r := AttachChild(nodes, used, prevI, moleculeI, newCount, half, oct);
    forall k, o | 0 <= k < used + 1 && 0 <= o < 8
      ensures r[k].octs[o] == -1 || k < r[k].octs[o] < used + 1
    {
      if k == used {
        assert r[k].octs == NoChildren;
      } else if k == prevI && o == oct {
        assert r[k].octs[o] == used;
      } else {
        assert r[k].octs[o] == nodes[k].octs[o];
      }
    }
  }

  /** insertNode keeps the levels right when the new node goes one below its
      parent, or is itself the parent (the self-link that initNode wipes). */
  lemma AttachKeepsLevels(nodes: seq<OctTreeNode>, levels: seq<nat>, used: nat, maxDepth: nat, prevI: nat,
                          moleculeI: int, newCount: nat, half: Vector, oct: int, depth: nat)
    requires Levelled(nodes, levels, used, maxDepth) && LinksForward(nodes, used)
    requires 0 < used && prevI <= used < |nodes| && 0 <= oct < 8 && depth < maxDepth
    requires prevI < used ==> depth == levels[prevI] + 1
    ensures Levelled(AttachChild(nodes, used, prevI, moleculeI, newCount, half, oct), levels[used := depth], used + 1, maxDepth)
  {
    var r := AttachChild(nodes, used, prevI, moleculeI, newCount, half, oct);
    var lv := levels[used := depth];
    forall k, o | 0 <= k < used + 1 && 0 <= o < 8 && 0 <= r[k].octs[o] < |r|
      ensures lv[r[k].octs[o]] == lv[k] + 1
    {
      // the new node at `used` has no child, so only k < used can link
      if k < used {
        if k == prevI && o == oct {
          assert r[k].octs[o] == used;
        } else {
          assert r[k].octs[o] == nodes[k].octs[o];
          assert nodes[k].octs[o] < used;
        }
      }
    }
  }

  /** Rewriting a used node's count or molecule, its links untouched, keeps
      the arena's shape (the count increments of the descent and the clearing
      of the split leaf's molecule). */
  lemma RefreshKeepsShape(nodes: seq<OctTreeNode>, used: nat, size: nat, k: nat, n: OctTreeNode)
    requires Shaped(nodes, used, size) && k < used
    requires n.octs == nodes[k].octs && n.count >= 1 && (n.count == 1 ==> 0 <= n.molecule < size)
    ensures Shaped(nodes[k := n], used, size)
  {
    var r := nodes[k := n];
    forall j, o | 0 <= j < used && 0 <= o < 8
      ensures r[j].octs[o] == nodes[j].octs[o]
    {
    }
  }

  /** ... and its levels. */
  lemma RefreshKeepsLevels(nodes: seq<OctTreeNode>, levels: seq<nat>, used: nat, maxDepth: nat, k: nat, n: OctTreeNode)
    requires Levelled(nodes, levels, used, maxDepth) && k < used
    requires n.octs == nodes[k].octs
    ensures Levelled(nodes[k := n], levels, used, maxDepth)
  {
    var r := nodes[k := n];
    forall j, o | 0 <= j < used && 0 <= o < 8
      ensures r[j].octs[o] == nodes[j].octs[o]
    {
    }
  }

  /** The intermediate node of a separation try (inserted with prevI equal to
      the next free slot) is reachable from no node: nothing links to it. */
  lemma SeparationNodeIsDetached(nodes: seq<OctTreeNode>, used: nat, moleculeI: int, newCount: nat,
                                 half: Vector, oct: int)
    requires LinksForward(nodes, used) && used < |nodes| && 0 <= oct < 8
    ensures var r := AttachChild(nodes, used, used, moleculeI, newCount, half, oct);
            forall k, o :: 0 <= k <= used && 0 <= o < 8 ==> r[k].octs[o] != used
  {
    var r := AttachChild(nodes, used, used, moleculeI, newCount, half, oct);
    forall k, o | 0 <= k <= used && 0 <= o < 8
      ensures r[k].octs[o] != used
    {
      if k == used {
        assert r[k].octs == NoChildren;
      } else {
        assert r[k].octs[o] == nodes[k].octs[o];
      }
    }
  }

  /** A child of a regular insertion is linked from its parent, in the slot of
      its octant, and its centre is the parent's child centre. */
  lemma AttachLinksChild(nodes: seq<OctTreeNode>, used: nat, prevI: nat, moleculeI: int, newCount: nat,
                         half: Vector, oct: int)
    requires prevI < used < |nodes| && 0 <= oct < 8
    ensures var r := AttachChild(nodes, used, prevI, moleculeI, newCount, half, oct);
            && r[prevI].octs[oct] == used
            && r[used].prev == prevI
            && r[used].center == ChildCenter(nodes[prevI].center, half, oct)
            && forall k :: 0 <= k < |nodes| && k != prevI && k != used ==> r[k] == nodes[k]
  {
  }

  /** The descent of point p through the arena: `path` starts wherever it
      starts, climbs strictly through the arena, and each node on it links to
      the next in the slot of p's octant. */
  ghost predicate DescentPath(nodes: seq<OctTreeNode>, path: seq<nat>, p: Vector)
  {
    forall i, j {:trigger path[i], path[j]} :: 0 <= i && j == i + 1 && j < |path| ==>
      && path[i] < path[j] < |nodes|
      && nodes[path[i]].octs[Octant(p, nodes[path[i]].center)] == path[j]
  }

  /** The first `used` nodes are those of `before`, each node on `path`
      counting one more. */
  ghost predicate CountedAlong(nodes: seq<OctTreeNode>, before: seq<OctTreeNode>, path: seq<nat>, used: nat)
  {
    && used <= |nodes| && used <= |before|
    && forall k :: 0 <= k < used ==> nodes[k] == before[k].(count := before[k].count + if k in path then 1 else 0)
  }

  /** One more step of the descent: the next node, beyond every node passed
      and linked from the last in p's octant, is counted and joins the path. */
  lemma DescendStep(nodes: seq<OctTreeNode>, before: seq<OctTreeNode>, path: seq<nat>, used: nat, cur: nat, p: Vector)
    requires CountedAlong(nodes, before, path, used) && DescentPath(nodes, path, p) && cur < used
    requires forall k :: 0 <= k < |path| ==> path[k] < cur
    requires path != [] ==> nodes[path[|path| - 1]].octs[Octant(p, nodes[path[|path| - 1]].center)] == cur
    ensures var r := nodes[cur := nodes[cur].(count := nodes[cur].count + 1)];
            CountedAlong(r, before, path + [cur], used) && DescentPath(r, path + [cur], p)
  {
    var r := nodes[cur := nodes[cur].(count := nodes[cur].count + 1)];
    var q := path + [cur];
    forall k | 0 <= k < used
      ensures r[k] == before[k].(count := before[k].count + if k in q then 1 else 0)
    {
      assert (k in q) <==> (k in path || k == cur);
      if k == cur {
        assert cur !in path;
      }
    }
    forall k | 0 <= k < |path|
      ensures r[path[k]].octs == nodes[path[k]].octs && r[path[k]].center == nodes[path[k]].center
    {
    }
  }

  /** Descending by octant keeps a point inside the cell: a point of the
      parent cell (within twice the child half-width of its centre on every
      axis) lies within the child half-width of the centre of the child cell
      its octant code selects. */
  lemma OctantCellContains(p: Vector, c: Vector, half: Vector)
    requires half.x > 0.0 && half.y > 0.0 && half.z > 0.0
    requires Abs(p.x - c.x) <= 2.0 * half.x && Abs(p.y - c.y) <= 2.0 * half.y && Abs(p.z - c.z) <= 2.0 * half.z
    ensures var cc := ChildCenter(c, half, Octant(p, c));
            Abs(p.x - cc.x) <= half.x && Abs(p.y - cc.y) <= half.y && Abs(p.z - cc.z) <= half.z
  {
    var oct := Octant(p, c);
    assert Sign(oct, 4) == if p.x > c.x then 1.0 else -1.0;
    assert Sign(oct, 2) == if p.y > c.y then 1.0 else -1.0;
    assert Sign(oct, 1) == if p.z > c.z then 1.0 else -1.0;
  }
}
