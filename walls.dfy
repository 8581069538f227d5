/** Reflection off the walls of the box [0, size] on each axis, as written
    three times in the sources: GasContainer::moleculeBounce of
    model/Walls.hpp (per-type radius), and collideWithWalls of
    model/Model.cpp and model/Model.hpp (RADIUS).  Each axis is handled on its
    own: a coordinate closer than the radius to a wall is mirrored in the
    plane at that distance from the wall and the speed component is negated. */
module Walls {
  import opened Vectors
  import opened Species
  import opened Molecules

  /** One axis: the new coordinate and the new speed component. */
  datatype AxisState = AxisState(c: real, v: real)

  /** One axis of the reflection: below the radius it is mirrored in
      c = radius, above size - radius in c = size - radius, and otherwise
      untouched.  The speed component is multiplied by -1 whenever the
      coordinate is mirrored. */
  function ReflectAxis(c: real, v: real, radius: real, size: real): AxisState
  {
    if c < radius then AxisState(2.0 * radius - c, v * -1.0)
    else if c > size - radius then AxisState(2.0 * (size - radius) - c, v * -1.0)
    else AxisState(c, v)
  }

  /** A position and speed. */
  datatype Kinematics = Kinematics(coords: Vector, speed: Vector)

  /** The three axes reflected independently. */
  function WallBounce(coords: Vector, speed: Vector, radius: real, box: Vector): (r: Kinematics)
  {
    var x := ReflectAxis(coords.x, speed.x, radius, box.x);
    var y := ReflectAxis(coords.y, speed.y, radius, box.y);
    var z := ReflectAxis(coords.z, speed.z, radius, box.z);
    Kinematics(Vector(x.c, y.c, z.c), Vector(x.v, y.v, z.v))
  }

  class GasContainer {
    const containerSize: Vector

    constructor(boxSize: Vector)
      ensures containerSize == boxSize
    {
      containerSize := boxSize;
    }

    /** moleculeBounce: a copy of the coordinates is edited axis by axis with
        the molecule's own collision radius, the speed components are flipped
        in place, and the copy is written back. */
    method MoleculeBounce(mol: Molecule, table: SpeciesTable)
      modifies mol
      ensures Kinematics(mol.coords, mol.speed)
                == WallBounce(old(mol.coords), old(mol.speed), table.radius(mol.kind), containerSize)
      ensures mol.kind == old(mol.kind) && mol.acceleration == old(mol.acceleration)
    {
      var cur := mol.coords;
      var radius := table.radius(mol.kind);

      if cur.x < radius {
        cur := cur.(x := 2.0 * radius - cur.x);
        mol.speed := mol.speed.(x := mol.speed.x * -1.0);
      } else if cur.x > containerSize.x - radius {
        cur := cur.(x := 2.0 * (containerSize.x - radius) - cur.x);
        mol.speed := mol.speed.(x := mol.speed.x * -1.0);
      }

      if cur.y < radius {
        cur := cur.(y := 2.0 * radius - cur.y);
        mol.speed := mol.speed.(y := mol.speed.y * -1.0);
      } else if cur.y > containerSize.y - radius {
        cur := cur.(y := 2.0 * (containerSize.y - radius) - cur.y);
        mol.speed := mol.speed.(y := mol.speed.y * -1.0);
      }

      if cur.z < radius {
        cur := cur.(z := 2.0 * radius - cur.z);
        mol.speed := mol.speed.(z := mol.speed.z * -1.0);
      } else if cur.z > containerSize.z - radius {
        cur := cur.(z := 2.0 * (containerSize.z - radius) - cur.z);
        mol.speed := mol.speed.(z := mol.speed.z * -1.0);
      }

      mol.coords := cur;
    }
  }

  // ----------------------------------------------------------------- lemmas

  /** The magnitude of each speed component is unchanged, hence so is the
      kinetic energy: the walls are elastic. */
  lemma WallBounceIsElastic(coords: Vector, speed: Vector, radius: real, box: Vector)
    ensures var r := WallBounce(coords, speed, radius, box);
            && Abs(r.speed.x) == Abs(speed.x) && Abs(r.speed.y) == Abs(speed.y) && Abs(r.speed.z) == Abs(speed.z)
            && LenSqr(r.speed) == LenSqr(speed)
  {
    var x := ReflectAxis(coords.x, speed.x, radius, box.x);
    var y := ReflectAxis(coords.y, speed.y, radius, box.y);
    var z := ReflectAxis(coords.z, speed.z, radius, box.z);
    ReflectKeepsMagnitude(coords.x, speed.x, radius, box.x);
    ReflectKeepsMagnitude(coords.y, speed.y, radius, box.y);
    ReflectKeepsMagnitude(coords.z, speed.z, radius, box.z);
    var v := WallBounce(coords, speed, radius, box).speed;
    assert v == Vector(x.v, y.v, z.v);
    LenSqrOfSquares(v, speed);
  }

  /** One axis: the speed component keeps its magnitude. */
  lemma ReflectKeepsMagnitude(c: real, v: real, radius: real, size: real)
    ensures var r := ReflectAxis(c, v, radius, size);
            Abs(r.v) == Abs(v) && r.v * r.v == v * v
  {
  }

  /** A molecule that overshot a wall by less than the width of the free band
      [radius, size - radius] lands back inside that band, moving away from
      the wall it hit. */
  lemma ReflectLandsInside(c: real, v: real, radius: real, size: real)
    requires radius <= size - radius
    requires 3.0 * radius - size <= c <= 2.0 * size - 3.0 * radius
    ensures var r := ReflectAxis(c, v, radius, size);
            radius <= r.c <= size - radius
    ensures c < radius && v < 0.0 ==> ReflectAxis(c, v, radius, size).v > 0.0
    ensures c > size - radius && v > 0.0 ==> ReflectAxis(c, v, radius, size).v < 0.0
  {
  }

  /** Once back inside the band, a second reflection changes nothing: the
      reflection is idempotent on such molecules. */
  lemma ReflectIdempotent(c: real, v: real, radius: real, size: real)
    requires radius <= size - radius
    requires 3.0 * radius - size <= c <= 2.0 * size - 3.0 * radius
    ensures var r := ReflectAxis(c, v, radius, size);
            ReflectAxis(r.c, r.v, radius, size) == r
  {
    ReflectLandsInside(c, v, radius, size);
  }

  /** The axes are independent: a molecule beyond a corner of the box is
      reflected on every axis at once. */
  lemma CornerReflectsAllAxes(coords: Vector, speed: Vector, radius: real, box: Vector)
    requires coords.x < radius && coords.y < radius && coords.z > box.z - radius && coords.z >= radius
    ensures WallBounce(coords, speed, radius, box)
              == Kinematics(Vector(2.0 * radius - coords.x, 2.0 * radius - coords.y, 2.0 * (box.z - radius) - coords.z),
                            Vector(-speed.x, -speed.y, -speed.z))
  {
  }

  /** A molecule inside the free band on every axis is not touched. */
  lemma InsideBandUnchanged(coords: Vector, speed: Vector, radius: real, box: Vector)
    requires radius <= coords.x <= box.x - radius
    requires radius <= coords.y <= box.y - radius
    requires radius <= coords.z <= box.z - radius
    ensures WallBounce(coords, speed, radius, box) == Kinematics(coords, speed)
  {
  }
}
