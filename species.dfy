/** Per-type physical constants (model/MoleculeTypes.hpp).  Their numeric values
    come from a unit-rescaling helper that is not part of this model, so the
    table is a value handed to the operations that need it; the Lennard-Jones
    force law is likewise a parameter. */
module Species {

  /** enum MoleculeType: HELIUM = 0, ARGON = 1 */
  datatype MoleculeType = Helium | Argon

  /** The compile-time interaction law selected by GAS_TYPE. */
  datatype GasType = IdealGas | Bouncy | Potential

  datatype SpeciesTable = SpeciesTable(
    mass: MoleculeType -> real,                              // MASSES[type]
    radius: MoleculeType -> real,                            // COLLISION_RADIUS[type]
    ljForce: (MoleculeType, MoleculeType, real) -> real)     // LennardJonesForce(typeA, typeB, distance)
  {
    /** Masses and collision radii are positive. */
    predicate Valid()
    {
      forall t: MoleculeType :: mass(t) > 0.0 && radius(t) > 0.0
    }

    /** COLLISION_RADIUS[tA] + COLLISION_RADIUS[tB], with its square. */
    function RadiusSumSquare(tA: MoleculeType, tB: MoleculeType): (r: real)
      requires Valid()
      ensures r > 0.0
    {
      var radiusSum := radius(tA) + radius(tB);
      assert radiusSum > 0.0;
      radiusSum * radiusSum
    }

    /** MAXIMUM_COLLISION_RADIUS = COLLISION_RADIUS[ARGON] */
    function MaxCollisionRadius(): real
    {
      radius(Argon)
    }

    /** MAXIMUM_COLLISION_RADIUS_SQUAREx4 = 4 * MAXIMUM_COLLISION_RADIUS^2 */
    function MaxCollisionRadiusSquareX4(): real
    {
      4.0 * MaxCollisionRadius() * MaxCollisionRadius()
    }

    /** POTENTIAL_CUTOFF_MAX_RADIUS_SQUAREx4 = 4 * (7 * MAXIMUM_COLLISION_RADIUS)^2 */
    function PotentialCutoffSquareX4(): real
    {
      4.0 * (7.0 * MaxCollisionRadius()) * (7.0 * MaxCollisionRadius())
    }
  }
}
