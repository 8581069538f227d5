/** The pairwise update rules shared by both gas models and by the Molecule
    functions: the BOUNCY collision of model/Model.cpp and model/Model.hpp and
    of model/Molecule.cpp, the IDEAL_GAS collision of model/Molecule.cpp and
    the POTENTIAL attraction of model/Molecule.cpp, each as a function of the
    two particles' state. */
module Interactions {
  import opened Vectors

  datatype Option<T> = None | Some(value: T)

  /** Coordinates and speeds of the pair (i, j); i is the one repositioned. */
  datatype Pair = Pair(ci: Vector, cj: Vector, vi: Vector, vj: Vector)

  /** How a contact is resolved: the squared distance above which nothing
      happens, the distance the pair is pushed to, and which setLength is used. */
  datatype ContactLaw = ContactLaw(threshold: real, contact: real, variant: SetLengthVariant)

  /** The first stage of every collision: `coordDiff = ci - cj`; skip when
      lenSqr exceeds the threshold, otherwise `coordDiff.setLength(contact)`.
      The result is the new separation vector. */
  function ContactShift(ci: Vector, cj: Vector, law: ContactLaw, sqrt: real -> real): (r: Option<Vector>)
    ensures r.None? <==> LenSqr(Sub(ci, cj)) > law.threshold
  {
    var coordDiff := Sub(ci, cj);
    if LenSqr(coordDiff) > law.threshold then None
    else Some(SetLength(coordDiff, law.contact, sqrt, law.variant))
  }

  /** What a BOUNCY collision does when it happens: the new position of i and
      the projection `speedDiffProj` taken from i's speed and given to j's. */
  datatype Impulse = Impulse(newPos: Vector, proj: Vector)

  /** The BOUNCY rule: `speedDiffProj = d * (d.scalar(vi - vj) / divisor)` with
      d the rescaled separation, and `ci = cj + d`. */
  function BounceImpulse(p: Pair, law: ContactLaw, divisor: real, sqrt: real -> real): (r: Option<Impulse>)
    requires divisor != 0.0
    ensures r.None? <==> LenSqr(Sub(p.ci, p.cj)) > law.threshold
    ensures r.Some? ==> Sub(r.value.newPos, p.cj) == ContactShift(p.ci, p.cj, law, sqrt).value
  {
    match ContactShift(p.ci, p.cj, law, sqrt)
    case None => None
    case Some(d) =>
      Some(Impulse(Add(p.cj, d), Scale(d, Scalar(d, Sub(p.vi, p.vj)) / divisor)))
  }

  /** The BOUNCY collision on two distinct particles. */
  function Bounce(p: Pair, law: ContactLaw, divisor: real, sqrt: real -> real): (r: Pair)
    requires divisor != 0.0
    ensures r.cj == p.cj
    ensures Add(r.vi, r.vj) == Add(p.vi, p.vj)
    ensures LenSqr(Sub(p.ci, p.cj)) > law.threshold ==> r == p
  {
    match BounceImpulse(p, law, divisor, sqrt)
    case None => p
    case Some(imp) => Pair(imp.newPos, p.cj, Sub(p.vi, imp.proj), Add(p.vj, imp.proj))
  }

  /** The IDEAL_GAS collision of Molecule.cpp: the same repositioning, then
      both speeds are reflected through the centre-of-mass speed,
      `v' = 2 (mA vA + mB vB) / (mA + mB) - v`. */
  function IdealBounce(p: Pair, law: ContactLaw, mA: real, mB: real, sqrt: real -> real): (r: Pair)
    requires mA + mB != 0.0
    ensures r.cj == p.cj
    ensures LenSqr(Sub(p.ci, p.cj)) > law.threshold ==> r == p
    ensures Sub(r.vi, r.vj) == if LenSqr(Sub(p.ci, p.cj)) > law.threshold then Sub(p.vi, p.vj) else Sub(p.vj, p.vi)
  {
    match ContactShift(p.ci, p.cj, law, sqrt)
    case None => p
    case Some(d) =>
      var centerOfMassSpeedx2 := Scale(Add(Scale(p.vi, mA), Scale(p.vj, mB)), 2.0 / (mA + mB));
      Pair(Add(p.cj, d), p.cj, Sub(centerOfMassSpeedx2, p.vi), Sub(centerOfMassSpeedx2, p.vj))
  }

  /** mA vA + mB vB */
  function Momentum(vA: Vector, vB: Vector, mA: real, mB: real): Vector
  {
    Add(Scale(vA, mA), Scale(vB, mB))
  }

  /** mA |vA|^2 + mB |vB|^2 (twice the kinetic energy) */
  function Energy(vA: Vector, vB: Vector, mA: real, mB: real): real
  {
    mA * LenSqr(vA) + mB * LenSqr(vB)
  }

  /** The accelerations of the pair (A, B). */
  datatype Accels = Accels(aA: Vector, aB: Vector)

  /** The POTENTIAL attraction of Molecule.cpp: beyond the cut-off nothing
      happens; otherwise a force of magnitude `forceMod(|d|)` along d (Vector.hpp's
      setLength) is divided by each mass and taken from A's acceleration and
      given to B's.  Its contract is Newton's third law: the mass-weighted
      changes of the two accelerations cancel. */
  function Attract(cA: Vector, cB: Vector, acc: Accels, mA: real, mB: real, cutoff: real,
                   forceMod: real -> real, sqrt: real -> real): (r: Accels)
    requires mA != 0.0 && mB != 0.0
    ensures LenSqr(Sub(cA, cB)) > cutoff ==> r == acc
    ensures Add(Scale(Sub(r.aA, acc.aA), mA), Scale(Sub(r.aB, acc.aB), mB)) == Zero
  {
    var coordDiff := Sub(cA, cB);
    if LenSqr(coordDiff) > cutoff then acc
    else
      var force := SetLength(coordDiff, forceMod(Length(coordDiff, sqrt)), sqrt, AxisOnDegenerate);
      OppositeChanges(acc, force, mA, mB);
      Accels(Sub(acc.aA, Div(force, mA)), Add(acc.aB, Div(force, mB)))
  }

  // ---------------------------------------------------------------- lemmas

  /** Taking force / mA from A and giving force / mB to B changes the
      mass-weighted accelerations by -force and +force. */
  lemma OppositeChanges(acc: Accels, force: Vector, mA: real, mB: real)
    requires mA != 0.0 && mB != 0.0
    ensures Add(Scale(Sub(Sub(acc.aA, Div(force, mA)), acc.aA), mA),
                Scale(Sub(Add(acc.aB, Div(force, mB)), acc.aB), mB)) == Zero
  {
    var dA, dB := Div(force, mA), Div(force, mB);
    assert Sub(Sub(acc.aA, dA), acc.aA) == Scale(dA, -1.0);
    assert Sub(Add(acc.aB, dB), acc.aB) == dB;
    assert Scale(Scale(dA, -1.0), mA) == Scale(force, -1.0);
  }

  /** After a collision with a non-degenerate separation and an exact square
      root, the pair is exactly `contact` apart, along the old separation. */
  lemma BounceSeparation(p: Pair, law: ContactLaw, divisor: real, sqrt: real -> real)
    requires divisor != 0.0
    requires LenSqr(Sub(p.ci, p.cj)) <= law.threshold
    requires SqrtExactAt(sqrt, LenSqr(Sub(p.ci, p.cj))) && !IsDegenerate(Sub(p.ci, p.cj), sqrt)
    ensures var r := Bounce(p, law, divisor, sqrt);
            && LenSqr(Sub(r.ci, r.cj)) == law.contact * law.contact
            && Sub(r.ci, r.cj) == Scale(Sub(p.ci, p.cj), law.contact / Length(Sub(p.ci, p.cj), sqrt))
  {
    var d := Sub(p.ci, p.cj);
    SetLengthExact(d, law.contact, sqrt, law.variant);
    var r := Bounce(p, law, divisor, sqrt);
    assert Sub(r.ci, r.cj) == SetLength(d, law.contact, sqrt, law.variant);
  }

  /** |vi - p|^2 + |vj + p|^2 = |vi|^2 + |vj|^2 when p is the projection of
      vi - vj onto a vector whose squared length is the divisor. */
  lemma ProjectionTransferKeepsEnergy(vi: Vector, vj: Vector, d: Vector, divisor: real)
    requires divisor != 0.0 && divisor == LenSqr(d)
    ensures var proj := Scale(d, Scalar(d, Sub(vi, vj)) / divisor);
            LenSqr(Sub(vi, proj)) + LenSqr(Add(vj, proj)) == LenSqr(vi) + LenSqr(vj)
  {
    var u := Sub(vi, vj);
    var q := Scalar(d, u);
    var s := q / divisor;
    var proj := Scale(d, s);
    var x := LenSqr(Sub(vi, proj)) + LenSqr(Add(vj, proj));
    var t := Scalar(vi, proj) - Scalar(vj, proj);
    var l := LenSqr(proj);
    assert x == LenSqr(vi) + LenSqr(vj) - 2.0 * t + 2.0 * l by {
      LenSqrSub(vi, proj);
      LenSqrAdd(vj, proj);
    }
    assert t == s * q by {
      ScalarOfDifference(vi, vj, proj);
      ScalarScaleLeft(d, u, s);
    }
    assert l == s * s * divisor by {
      LenSqrScale(d, s);
    }
    CancelProjection(x, LenSqr(vi) + LenSqr(vj), t, l, s, divisor, q);
  }

  /** a.p - b.p = p.(a - b) */
  lemma ScalarOfDifference(a: Vector, b: Vector, p: Vector)
    ensures Scalar(a, p) - Scalar(b, p) == Scalar(p, Sub(a, b))
  {
  }

  /** (q / D) * D = q */
  lemma DivTimes(q: real, D: real)
    requires D != 0.0
    ensures (q / D) * D == q
  {
  }

  /** The scalar identity behind the energy balance: with t = s q,
      l = s^2 D and s = q / D, x = a - 2 t + 2 l is a. */
  lemma CancelProjection(x: real, a: real, t: real, l: real, s: real, D: real, q: real)
    requires x == a - 2.0 * t + 2.0 * l
    requires t == s * q && l == s * s * D && D != 0.0 && s == q / D
    ensures x == a
  {
    DivTimes(q, D);
    assert s * q == s * (s * D) == s * s * D;
  }

  /** The BOUNCY collision is elastic (unit masses) whenever the divisor is the
      true squared length of the rescaled separation. */
  lemma BounceKeepsEnergy(p: Pair, law: ContactLaw, divisor: real, sqrt: real -> real)
    requires divisor != 0.0
    requires LenSqr(Sub(p.ci, p.cj)) <= law.threshold
    requires divisor == LenSqr(ContactShift(p.ci, p.cj, law, sqrt).value)
    ensures var r := Bounce(p, law, divisor, sqrt);
            LenSqr(r.vi) + LenSqr(r.vj) == LenSqr(p.vi) + LenSqr(p.vj)
  {
    ProjectionTransferKeepsEnergy(p.vi, p.vj, ContactShift(p.ci, p.cj, law, sqrt).value, divisor);
  }

  /** In particular it is elastic when the divisor is contact^2, the separation
      is not degenerate and the square root is exact there (the setting of
      Model.cpp, with contact 2 RADIUS and divisor 4 RADIUS^2). */
  lemma BounceElastic(p: Pair, law: ContactLaw, divisor: real, sqrt: real -> real)
    requires divisor != 0.0 && divisor == law.contact * law.contact
    requires LenSqr(Sub(p.ci, p.cj)) <= law.threshold
    requires SqrtExactAt(sqrt, LenSqr(Sub(p.ci, p.cj))) && !IsDegenerate(Sub(p.ci, p.cj), sqrt)
    ensures var r := Bounce(p, law, divisor, sqrt);
            LenSqr(r.vi) + LenSqr(r.vj) == LenSqr(p.vi) + LenSqr(p.vj)
  {
    SetLengthExact(Sub(p.ci, p.cj), law.contact, sqrt, law.variant);
    BounceKeepsEnergy(p, law, divisor, sqrt);
  }

  /** Only the speed component along the separation changes: any direction t
      orthogonal to the old separation sees both speeds unchanged (for the
      Model.cpp setLength, which never leaves the separation's line). */
  lemma BounceKeepsTangential(p: Pair, law: ContactLaw, divisor: real, sqrt: real -> real, t: Vector)
    requires divisor != 0.0 && law.variant == KeepOnDegenerate
    requires Scalar(Sub(p.ci, p.cj), t) == 0.0
    ensures var r := Bounce(p, law, divisor, sqrt);
            Scalar(r.vi, t) == Scalar(p.vi, t) && Scalar(r.vj, t) == Scalar(p.vj, t)
  {
    var dOld := Sub(p.ci, p.cj);
    if LenSqr(dOld) <= law.threshold {
      var d := SetLength(dOld, law.contact, sqrt, law.variant);
      if IsDegenerate(dOld, sqrt) {
        assert d == dOld;
      } else {
        ScalarScaleLeft(dOld, t, law.contact / Length(dOld, sqrt));
      }
      assert Scalar(d, t) == 0.0;
      var s := Scalar(d, Sub(p.vi, p.vj)) / divisor;
      ScalarScaleLeft(d, t, s);
      TransferAlong(p.vi, p.vj, Scale(d, s), t);
    }
  }

  /** Moving a vector orthogonal to t from one speed to the other leaves both
      components along t alone. */
  lemma TransferAlong(vi: Vector, vj: Vector, proj: Vector, t: Vector)
    requires Scalar(proj, t) == 0.0
    ensures Scalar(Sub(vi, proj), t) == Scalar(vi, t) && Scalar(Add(vj, proj), t) == Scalar(vj, t)
  {
  }

  /** Head-on bounce: two particles exactly `contact` apart, moving towards or
      away from each other with equal and opposite speeds along the line
      joining them, keep their positions and exchange (reverse) their speeds. */
  lemma BounceHeadOn(ci: Vector, cj: Vector, k: real, law: ContactLaw, sqrt: real -> real)
    requires law.contact >= DegenerateLength
    requires LenSqr(Sub(ci, cj)) == law.contact * law.contact <= law.threshold
    requires sqrt(law.contact * law.contact) == law.contact
    ensures var d := Sub(ci, cj);
            Bounce(Pair(ci, cj, Scale(d, k), Scale(d, -k)), law, law.contact * law.contact, sqrt)
              == Pair(ci, cj, Scale(d, -k), Scale(d, k))
  {
    var d := Sub(ci, cj);
    var c2 := law.contact * law.contact;
    var p := Pair(ci, cj, Scale(d, k), Scale(d, -k));
    assert Length(d, sqrt) == law.contact;
    assert SetLength(d, law.contact, sqrt, law.variant) == Scale(d, law.contact / law.contact);
    assert law.contact / law.contact == 1.0;
    assert Scale(d, 1.0) == d;
    HeadOnProjection(d, k, c2);
    HeadOnSpeeds(d, k);
    assert Add(cj, d) == ci;
  }

  /** The projection of a head-on bounce is twice the speed. */
  lemma HeadOnProjection(d: Vector, k: real, c2: real)
    requires LenSqr(d) == c2 && c2 != 0.0
    ensures Scale(d, Scalar(d, Sub(Scale(d, k), Scale(d, -k))) / c2) == Scale(d, 2.0 * k)
  {
    var u := Sub(Scale(d, k), Scale(d, -k));
    assert u == Scale(d, 2.0 * k);
    var q := Scalar(d, u);
    assert q == 2.0 * k * c2 by {
      ScalarSymmetric(d, Scale(d, 2.0 * k));
      ScalarScaleLeft(d, d, 2.0 * k);
      LenSqrIsScalar(d);
    }
    QuotientOf(q, 2.0 * k, c2);
  }

  /** q = a D with D non-zero means q / D = a. */
  lemma QuotientOf(q: real, a: real, D: real)
    requires D != 0.0 && q == a * D
    ensures q / D == a
  {
  }

  /** Taking twice the speed from one and giving it to the other reverses both. */
  lemma HeadOnSpeeds(d: Vector, k: real)
    ensures Sub(Scale(d, k), Scale(d, 2.0 * k)) == Scale(d, -k)
    ensures Add(Scale(d, -k), Scale(d, 2.0 * k)) == Scale(d, k)
  {
  }

  /** A particle colliding with itself (what the tree walk does when it reaches
      the particle's own leaf) is left as it is by the Model.cpp rule. */
  lemma SelfBounceIsIdentity(c: Vector, v: Vector, law: ContactLaw, divisor: real, sqrt: real -> real)
    requires divisor != 0.0 && law.variant == KeepOnDegenerate
    ensures var imp := BounceImpulse(Pair(c, c, v, v), law, divisor, sqrt);
            imp.Some? ==> imp.value.newPos == c && imp.value.proj == Zero
  {
    var imp := BounceImpulse(Pair(c, c, v, v), law, divisor, sqrt);
    if imp.Some? {
      var zero := Sub(c, c);
      assert zero == Zero;
      SetLengthOfZero(law.contact, sqrt);
      var d := SetLength(zero, law.contact, sqrt, law.variant);
      assert d == Zero;
      ZeroScales(Scalar(d, Sub(v, v)) / divisor);
    }
  }

  lemma ZeroScales(k: real)
    ensures Scale(Zero, k) == Zero
  {
  }

  /** IDEAL_GAS collisions keep the momentum mA vA + mB vB. */
  lemma IdealBounceKeepsMomentum(p: Pair, law: ContactLaw, mA: real, mB: real, sqrt: real -> real)
    requires mA + mB != 0.0
    ensures var r := IdealBounce(p, law, mA, mB, sqrt);
            Momentum(r.vi, r.vj, mA, mB) == Momentum(p.vi, p.vj, mA, mB)
  {
    var r := IdealBounce(p, law, mA, mB, sqrt);
    if LenSqr(Sub(p.ci, p.cj)) <= law.threshold {
      var P := Momentum(p.vi, p.vj, mA, mB);
      var f := 2.0 / (mA + mB);
      var c := Scale(P, f);
      assert r.vi == Sub(c, p.vi) && r.vj == Sub(c, p.vj);
      DivTimes(2.0, mA + mB);
      ReflectComponent(p.vi.x, p.vj.x, mA, mB, f);
      ReflectComponent(p.vi.y, p.vj.y, mA, mB, f);
      ReflectComponent(p.vi.z, p.vj.z, mA, mB, f);
    }
  }

  /** One component of the momentum balance: with (mA + mB) f = 2 and
      P = a mA + b mB, (P f - a) mA + (P f - b) mB = P. */
  lemma ReflectComponent(a: real, b: real, mA: real, mB: real, f: real)
    requires f * (mA + mB) == 2.0
    ensures var P := a * mA + b * mB;
            (P * f - a) * mA + (P * f - b) * mB == P
  {
    var P := a * mA + b * mB;
    assert (P * f - a) * mA + (P * f - b) * mB == P * (f * (mA + mB)) - P;
  }

  /** IDEAL_GAS collisions keep the kinetic energy mA |vA|^2 + mB |vB|^2. */
  lemma IdealBounceKeepsEnergy(p: Pair, law: ContactLaw, mA: real, mB: real, sqrt: real -> real)
    requires mA + mB != 0.0
    ensures var r := IdealBounce(p, law, mA, mB, sqrt);
            Energy(r.vi, r.vj, mA, mB) == Energy(p.vi, p.vj, mA, mB)
  {
    if LenSqr(Sub(p.ci, p.cj)) <= law.threshold {
      ReflectThroughCenterKeepsEnergy(p.vi, p.vj, mA, mB);
    }
  }

  /** Reflecting both speeds through the centre-of-mass speed keeps the
      energy: with c = 2 P / M, mA |c - vA|^2 + mB |c - vB|^2
      = M |c|^2 - 2 c.P + E and M |c|^2 = 2 c.P. */
  lemma ReflectThroughCenterKeepsEnergy(vA: Vector, vB: Vector, mA: real, mB: real)
    requires mA + mB != 0.0
    ensures var c := Scale(Momentum(vA, vB, mA, mB), 2.0 / (mA + mB));
            Energy(Sub(c, vA), Sub(c, vB), mA, mB) == Energy(vA, vB, mA, mB)
  {
    var P := Momentum(vA, vB, mA, mB);
    var M := mA + mB;
    var f := 2.0 / M;
    var c := Scale(P, f);
    CenterSquare(P, M, f);
    var cA, cB := Scalar(c, vA), Scalar(c, vB);
    ScalarScaleLeft(vA, c, mA);
    ScalarScaleLeft(vB, c, mB);
    ScalarSymmetric(c, Scale(vA, mA));
    ScalarSymmetric(c, Scale(vB, mB));
    ScalarSymmetric(c, vA);
    ScalarSymmetric(c, vB);
    assert Scalar(c, P) == mA * cA + mB * cB;
    LenSqrSub(c, vA);
    LenSqrSub(c, vB);
    var L := LenSqr(c);
    assert Energy(Sub(c, vA), Sub(c, vB), mA, mB)
        == mA * (L - 2.0 * cA + LenSqr(vA)) + mB * (L - 2.0 * cB + LenSqr(vB));
    assert mA * (L - 2.0 * cA + LenSqr(vA)) + mB * (L - 2.0 * cB + LenSqr(vB))
        == M * L - 2.0 * (mA * cA + mB * cB) + Energy(vA, vB, mA, mB);
  }

  /** With f = 2 / M and c = f P: M |c|^2 = 2 c.P. */
  lemma CenterSquare(P: Vector, M: real, f: real)
    requires M != 0.0 && f == 2.0 / M
    ensures M * LenSqr(Scale(P, f)) == 2.0 * Scalar(Scale(P, f), P)
  {
    LenSqrScale(P, f);
    ScalarScaleLeft(P, P, f);
    LenSqrIsScalar(P);
    var L := LenSqr(P);
    assert M * f == 2.0;
    assert M * (f * f * L) == (M * f) * (f * L);
  }
}
