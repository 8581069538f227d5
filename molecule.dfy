/** The Molecule object of model/Molecule.cpp and the two free functions that
    act on a pair of molecules through references, each GAS_TYPE branch a
    method of its own.  The per-type constants come in a SpeciesTable and the
    square root as the parameter `sqrt`. */
module Molecules {
  import opened Vectors
  import opened Species
  import opened Interactions

  class Molecule {
    var coords: Vector
    var speed: Vector
    var acceleration: Vector
    var kind: MoleculeType    // the field `type`

    /** Molecule(newCoords, newSpeed, newType) */
    constructor(newCoords: Vector, newSpeed: Vector, newType: MoleculeType)
      ensures coords == newCoords && speed == newSpeed && kind == newType
      ensures acceleration == Zero
    {
      coords := newCoords;
      speed := newSpeed;
      acceleration := Zero;
      kind := newType;
    }

    /** integrationStep: a velocity-Verlet style step with the acceleration
        gathered since the previous step, which is then cleared. */
    method IntegrationStep()
      modifies this
      ensures (coords, speed) == Integrate(old(coords), old(speed), old(acceleration))
      ensures acceleration == Zero && kind == old(kind)
    {
      coords := Add(coords, Add(speed, Scale(acceleration, 0.5)));
      speed := Add(speed, acceleration);
      acceleration := Zero;
    }
  }

  /** The state after integrationStep: position moved by speed + a / 2, with
      the speed before the step, and speed increased by a. */
  function Integrate(c: Vector, v: Vector, a: Vector): (Vector, Vector)
  {
    (Add(c, Add(v, Scale(a, 0.5))), Add(v, a))
  }

  /** The collision law of two molecules: skip beyond
      MAXIMUM_COLLISION_RADIUS_SQUAREx4, push to the sum of their radii, with
      the setLength of Vector.hpp. */
  function MoleculeLaw(table: SpeciesTable, tA: MoleculeType, tB: MoleculeType): ContactLaw
  {
    ContactLaw(table.MaxCollisionRadiusSquareX4(), table.radius(tA) + table.radius(tB), AxisOnDegenerate)
  }

  /** moleculesCollide, IDEAL_GAS branch: reposition molA against molB, then
      reflect both speeds through twice the centre-of-mass speed. */
  method MoleculesCollideIdeal(molA: Molecule, molB: Molecule, table: SpeciesTable, sqrt: real -> real)
    requires table.Valid()
    modifies molA, molB
    ensures molA != molB ==>
              Pair(molA.coords, molB.coords, molA.speed, molB.speed)
                == IdealBounce(Pair(old(molA.coords), old(molB.coords), old(molA.speed), old(molB.speed)),
                               MoleculeLaw(table, molA.kind, molB.kind), table.mass(molA.kind), table.mass(molB.kind), sqrt)
    ensures molA == molB ==> molA.speed == old(molA.speed)
    ensures molA.kind == old(molA.kind) && molB.kind == old(molB.kind)
    ensures molA.acceleration == old(molA.acceleration) && molB.acceleration == old(molB.acceleration)
  {
    var coordDiff := Sub(molA.coords, molB.coords);
    if LenSqr(coordDiff) > table.MaxCollisionRadiusSquareX4() {
      return;
    }
    coordDiff := SetLength(coordDiff, table.radius(molA.kind) + table.radius(molB.kind), sqrt, AxisOnDegenerate);
    molA.coords := Add(molB.coords, coordDiff);

    var mA, mB := table.mass(molA.kind), table.mass(molB.kind);
    var centerOfMassSpeedx2 := Scale(Add(Scale(molA.speed, mA), Scale(molB.speed, mB)), 2.0 / (mA + mB));
    ghost var v := molA.speed;
    molA.speed := Sub(centerOfMassSpeedx2, molA.speed);
    molB.speed := Sub(centerOfMassSpeedx2, molB.speed);
    if molA == molB {
      SelfCenterOfMass(v, mA);
    }
  }

  /** With a single molecule, twice the centre-of-mass speed is twice its own
      speed, so reflecting twice through it gives the speed back. */
  lemma SelfCenterOfMass(v: Vector, m: real)
    requires m > 0.0
    ensures var c := Scale(Add(Scale(v, m), Scale(v, m)), 2.0 / (m + m));
            Sub(c, Sub(c, v)) == v
  {
  }

  /** moleculesCollide, BOUNCY / POTENTIAL branch: reposition molA against
      molB and exchange the speed component along the separation, divided by
      the squared radius sum. */
  method MoleculesCollideBouncy(molA: Molecule, molB: Molecule, table: SpeciesTable, sqrt: real -> real)
    requires table.Valid()
    modifies molA, molB
    ensures molA != molB ==>
              Pair(molA.coords, molB.coords, molA.speed, molB.speed)
                == Bounce(Pair(old(molA.coords), old(molB.coords), old(molA.speed), old(molB.speed)),
                          MoleculeLaw(table, molA.kind, molB.kind), table.RadiusSumSquare(molA.kind, molB.kind), sqrt)
    ensures molA == molB ==> molA.speed == old(molA.speed)
    ensures molA.kind == old(molA.kind) && molB.kind == old(molB.kind)
    ensures molA.acceleration == old(molA.acceleration) && molB.acceleration == old(molB.acceleration)
  {
    var cA, cB, vA, vB := molA.coords, molB.coords, molA.speed, molB.speed;
    var law := MoleculeLaw(table, molA.kind, molB.kind);
    var coordDiff := Sub(cA, cB);
    if LenSqr(coordDiff) > table.MaxCollisionRadiusSquareX4() {
      return;
    }
    var radiusSum := table.radius(molA.kind) + table.radius(molB.kind);
    coordDiff := SetLength(coordDiff, radiusSum, sqrt, AxisOnDegenerate);
    molA.coords := Add(cB, coordDiff);

    var speedDiffProj := Scale(coordDiff, Scalar(coordDiff, Sub(vA, vB)) / (radiusSum * radiusSum));
    assert radiusSum * radiusSum == table.RadiusSumSquare(molA.kind, molB.kind);
    assert molA != molB ==>
      BounceImpulse(Pair(cA, cB, vA, vB), law, radiusSum * radiusSum, sqrt)
        == Some(Impulse(Add(cB, coordDiff), speedDiffProj));
    molA.speed := Sub(molA.speed, speedDiffProj);
    molB.speed := Add(molB.speed, speedDiffProj);
  }

  /** moleculesAttract: nothing for IDEAL_GAS and BOUNCY; for POTENTIAL, within
      the cut-off, a Lennard-Jones force along the separation is divided by
      each mass, taken from molA's acceleration and given to molB's. */
  method MoleculesAttract(gas: GasType, molA: Molecule, molB: Molecule, table: SpeciesTable, sqrt: real -> real)
    requires table.Valid()
    modifies molA, molB
    ensures gas != Potential ==> molA.acceleration == old(molA.acceleration) && molB.acceleration == old(molB.acceleration)
    ensures gas == Potential && molA != molB ==>
              var tA, tB := molA.kind, molB.kind;
              Accels(molA.acceleration, molB.acceleration)
                == Attract(molA.coords, molB.coords, Accels(old(molA.acceleration), old(molB.acceleration)),
                           table.mass(tA), table.mass(tB), table.PotentialCutoffSquareX4(),
                           d => table.ljForce(tA, tB, d), sqrt)
    ensures molA == molB ==> molA.acceleration == old(molA.acceleration)
    ensures molA.coords == old(molA.coords) && molB.coords == old(molB.coords)
    ensures molA.speed == old(molA.speed) && molB.speed == old(molB.speed)
    ensures molA.kind == old(molA.kind) && molB.kind == old(molB.kind)
  {
    if gas == IdealGas || gas == Bouncy {
      return;
    }
    var coordDiff := Sub(molA.coords, molB.coords);
    if LenSqr(coordDiff) > table.PotentialCutoffSquareX4() {
      return;
    }
    var forceMod := table.ljForce(molA.kind, molB.kind, Length(coordDiff, sqrt));
    var force := coordDiff;
    force := SetLength(force, forceMod, sqrt, AxisOnDegenerate);
    molA.acceleration := Sub(molA.acceleration, Div(force, table.mass(molA.kind)));
    molB.acceleration := Add(molB.acceleration, Div(force, table.mass(molB.kind)));
  }

  // ----------------------------------------------------------------- lemmas

  /** The displacement of an integration step is the mean of the speeds
      before and after it (the trapezoidal rule). */
  lemma IntegrateIsTrapezoidal(c: Vector, v: Vector, a: Vector)
    ensures var (c', v') := Integrate(c, v, a);
            Sub(c', c) == Scale(Add(v, v'), 0.5)
  {
  }

  /** Without acceleration a step is uniform motion: the position advances by
      the speed, which stays (what GasModel::move does to every molecule). */
  lemma IntegrateWithoutAcceleration(c: Vector, v: Vector)
    ensures Integrate(c, v, Zero) == (Add(c, v), v)
  {
  }
}
