/** The particle arrays of a GasModel seen as values, and the collision
    passes over them: collideTwoMolecules (BOUNCY) of model/Model.cpp, the
    all-pairs passes of model/Model.cpp (collideWithEachOtherNaive) and of
    model/Model.hpp (collideWithEachOther).  The methods of the two GasModel
    classes are proved equal to these functions; the conservation laws are
    proved here, once. */
module Passes {
  import opened Vectors
  import opened Interactions

  /** RADIUS of model/Model.h and of model/Model.hpp. */
  const Radius: real := 10.0

  /** RADIUS_SQARE_x4 = 4 * RADIUS * RADIUS */
  const RadiusSquareX4: real := 4.0 * Radius * Radius

  /** The BOUNCY contact: skip beyond (2 RADIUS)^2, push to 2 RADIUS, with the
      setLength of Model.cpp / Model.hpp that leaves tiny vectors alone. */
  const BouncyLaw: ContactLaw := ContactLaw(RadiusSquareX4, 2.0 * Radius, KeepOnDegenerate)

  /** The contents of the coords and speeds arrays. */
  datatype Particles = Particles(coords: seq<Vector>, speeds: seq<Vector>)
  {
    /** Both arrays have the same length and i indexes them. */
    predicate Has(i: nat)
    {
      |coords| == |speeds| && i < |coords|
    }

    /** Total momentum of the first n molecules (unit masses). */
    function Momentum(n: nat): Vector
      requires n <= |speeds|
    {
      Sum(speeds[..n])
    }
  }

  /** collideTwoMolecules(i, j), statement by statement: coords[i] is moved to
      coords[j] + coordDiff, then the projection is taken from speeds[i] and
      given to speeds[j] (so i == j is handled as the arrays would). */
  function CollideTwo(st: Particles, i: nat, j: nat, sqrt: real -> real): (r: Particles)
    requires st.Has(i) && st.Has(j)
    ensures |r.coords| == |st.coords| && |r.speeds| == |st.speeds|
  {
    match BounceImpulse(Pair(st.coords[i], st.coords[j], st.speeds[i], st.speeds[j]), BouncyLaw, RadiusSquareX4, sqrt)
    case None => st
    case Some(imp) =>
      var speeds1 := st.speeds[i := Sub(st.speeds[i], imp.proj)];
      Particles(st.coords[i := imp.newPos], speeds1[j := Add(speeds1[j], imp.proj)])
  }

  /** An ordered pair (i, j): i is the molecule that is repositioned. */
  type MoleculePair = (nat, nat)

  /** Every pair indexes the arrays. */
  predicate PairsIn(ps: seq<MoleculePair>, n: nat)
  {
    forall k :: 0 <= k < |ps| ==> ps[k].0 < n && ps[k].1 < n
  }

  /** Apply collideTwoMolecules to the pairs in order. */
  function ApplyPairs(st: Particles, ps: seq<MoleculePair>, sqrt: real -> real): (r: Particles)
    requires |st.coords| == |st.speeds| && PairsIn(ps, |st.coords|)
    ensures |r.coords| == |st.coords| && |r.speeds| == |st.speeds|
    decreases |ps|
  {
    if ps == [] then st
    else
      var last := ps[|ps| - 1];
      CollideTwo(ApplyPairs(st, ps[..|ps| - 1], sqrt), last.0, last.1, sqrt)
  }

  /** The pair visited for (i, j), i < j: (i, j) on even ticks, (j, i) on odd. */
  function Oriented(i: nat, j: nat, flip: bool): MoleculePair
  {
    if flip then (j, i) else (i, j)
  }

  /** The inner loop of row i: j from i + 1 up to hi - 1. */
  function Row(i: nat, hi: nat, flip: bool): (r: seq<MoleculePair>)
    ensures |r| == if hi > i + 1 then hi - i - 1 else 0
    ensures PairsIn(r, hi)
    decreases hi
  {
    if hi <= i + 1 then [] else Row(i, hi - 1, flip) + [Oriented(i, hi - 1, flip)]
  }

  /** The rows 0 .. rows - 1 of the pass over n molecules. */
  function Rows(rows: nat, n: nat, flip: bool): (r: seq<MoleculePair>)
    ensures PairsIn(r, n)
  {
    if rows == 0 then [] else Rows(rows - 1, n, flip) + Row(rows - 1, n, flip)
  }

  /** The full all-pairs pass over n molecules. */
  function AllPairs(n: nat, flip: bool): seq<MoleculePair>
  {
    Rows(n, n, flip)
  }

  /** Moving every molecule below n by its speed. */
  function Moved(coords: seq<Vector>, speeds: seq<Vector>, n: nat): (r: seq<Vector>)
    requires |speeds| == |coords| && n <= |coords|
    ensures |r| == |coords|
  {
    seq(|coords|, k requires 0 <= k < |coords| => if k < n then Add(coords[k], speeds[k]) else coords[k])
  }

  // ----------------------------------------------------------------- lemmas

  /** collideTwoMolecules changes nothing when the pair is farther apart than
      2 RADIUS. */
  lemma CollideTwoFar(st: Particles, i: nat, j: nat, sqrt: real -> real)
    requires st.Has(i) && st.Has(j)
    requires LenSqr(Sub(st.coords[i], st.coords[j])) > RadiusSquareX4
    ensures CollideTwo(st, i, j, sqrt) == st
  {
  }

  /** On two distinct molecules collideTwoMolecules is the BOUNCY pair rule;
      in particular coords[j] stays and speeds[i] + speeds[j] is kept. */
  lemma CollideTwoIsBounce(st: Particles, i: nat, j: nat, sqrt: real -> real)
    requires st.Has(i) && st.Has(j) && i != j
    ensures var r := CollideTwo(st, i, j, sqrt);
            Pair(r.coords[i], r.coords[j], r.speeds[i], r.speeds[j])
              == Bounce(Pair(st.coords[i], st.coords[j], st.speeds[i], st.speeds[j]), BouncyLaw, RadiusSquareX4, sqrt)
  {
  }

  /** A molecule colliding with itself is left alone. */
  lemma CollideTwoSelf(st: Particles, i: nat, sqrt: real -> real)
    requires st.Has(i)
    ensures CollideTwo(st, i, i, sqrt) == st
  {
    var p := Pair(st.coords[i], st.coords[i], st.speeds[i], st.speeds[i]);
    SelfBounceIsIdentity(st.coords[i], st.speeds[i], BouncyLaw, RadiusSquareX4, sqrt);
    var imp := BounceImpulse(p, BouncyLaw, RadiusSquareX4, sqrt);
    if imp.Some? {
      var r := CollideTwo(st, i, i, sqrt);
      assert r.coords == st.coords;
      assert Add(Sub(st.speeds[i], Zero), Zero) == st.speeds[i];
      assert r.speeds == st.speeds;
    }
  }

  /** collideTwoMolecules(i, j) writes coords[i], speeds[i] and speeds[j]
      only: every other coordinate and speed is left as it was. */
  lemma CollideTwoFrame(st: Particles, i: nat, j: nat, sqrt: real -> real)
    requires st.Has(i) && st.Has(j)
    ensures var r := CollideTwo(st, i, j, sqrt);
            && (forall k :: 0 <= k < |st.coords| && k != i ==> r.coords[k] == st.coords[k])
            && (forall k :: 0 <= k < |st.speeds| && k != i && k != j ==> r.speeds[k] == st.speeds[k])
  {
  }

  /** The total momentum of any prefix holding both molecules is kept. */
  lemma CollideTwoKeepsMomentum(st: Particles, i: nat, j: nat, n: nat, sqrt: real -> real)
    requires st.Has(i) && st.Has(j) && i < n && j < n && n <= |st.speeds|
    ensures CollideTwo(st, i, j, sqrt).Momentum(n) == st.Momentum(n)
  {
    var p := Pair(st.coords[i], st.coords[j], st.speeds[i], st.speeds[j]);
    match BounceImpulse(p, BouncyLaw, RadiusSquareX4, sqrt)
    case None =>
    case Some(imp) =>
      var s := st.speeds;
      var t := s[i := Sub(s[i], imp.proj)];
      SumPrefixUpdate(s, n, i, Sub(s[i], imp.proj));
      SumPrefixUpdate(t, n, j, Add(t[j], imp.proj));
      TransferKeepsSum(s[..n], i, j, imp.proj);
  }

  /** Applying a sequence of pairs in two parts. */
  lemma {:induction false} ApplyPairsAppend(st: Particles, ps: seq<MoleculePair>, qs: seq<MoleculePair>, sqrt: real -> real)
    requires |st.coords| == |st.speeds| && PairsIn(ps, |st.coords|) && PairsIn(qs, |st.coords|)
    ensures PairsIn(ps + qs, |st.coords|)
    ensures ApplyPairs(st, ps + qs, sqrt) == ApplyPairs(ApplyPairs(st, ps, sqrt), qs, sqrt)
    decreases |qs|
  {
    if qs != [] {
      var n := |qs| - 1;
      ApplyPairsAppend(st, ps, qs[..n], sqrt);
      assert (ps + qs)[..|ps + qs| - 1] == ps + qs[..n];
    } else {
      assert ps + qs == ps;
    }
  }

  /** Every pass over pairs inside the first n molecules keeps their total
      momentum. */
  lemma {:induction false} ApplyPairsKeepsMomentum(st: Particles, ps: seq<MoleculePair>, n: nat, sqrt: real -> real)
    requires |st.coords| == |st.speeds| && n <= |st.coords| && PairsIn(ps, n)
    ensures ApplyPairs(st, ps, sqrt).Momentum(n) == st.Momentum(n)
    decreases |ps|
  {
    if ps != [] {
      var last := ps[|ps| - 1];
      ApplyPairsKeepsMomentum(st, ps[..|ps| - 1], n, sqrt);
      CollideTwoKeepsMomentum(ApplyPairs(st, ps[..|ps| - 1], sqrt), last.0, last.1, n, sqrt);
    }
  }

  /** Row i holds the pairs (i, i + 1), (i, i + 2), ... in that order. */
  lemma {:induction false} RowIn(i: nat, hi: nat, flip: bool)
    ensures forall k :: 0 <= k < |Row(i, hi, flip)| ==> Row(i, hi, flip)[k] == Oriented(i, i + 1 + k, flip)
    decreases hi
  {
    if hi > i + 1 {
      RowIn(i, hi - 1, flip);
    }
  }

  /** Row i0 visits exactly the pairs (i0, j) with i0 < j < hi. */
  lemma RowVisit(i0: nat, hi: nat, flip: bool, i: nat, j: nat)
    ensures Oriented(i, j, flip) in Row(i0, hi, flip) <==> i == i0 && i0 < j < hi
  {
    RowIn(i0, hi, flip);
    var row := Row(i0, hi, flip);
    if i == i0 && i0 < j < hi {
      assert row[j - i0 - 1] == Oriented(i, j, flip);
    }
    if Oriented(i, j, flip) in row {
      var k :| 0 <= k < |row| && row[k] == Oriented(i, j, flip);
      assert Oriented(i, j, flip) == Oriented(i0, i0 + 1 + k, flip);
    }
  }

  /** The pass visits exactly the pairs i < j < n of its first rows, oriented
      by the tick: on even ticks the lower index is repositioned, on odd ticks
      the higher. */
  lemma {:induction false} RowsVisit(rows: nat, n: nat, flip: bool, i: nat, j: nat)
    requires rows <= n
    ensures Oriented(i, j, flip) in Rows(rows, n, flip) <==> i < j < n && i < rows
  {
    if rows > 0 {
      RowsVisit(rows - 1, n, flip, i, j);
      RowVisit(rows - 1, n, flip, i, j);
    }
  }

  /** The naive pass visits the pairs i < j < n and no others, oriented by tick. */
  lemma AllPairsVisit(n: nat, flip: bool, i: nat, j: nat)
    ensures Oriented(i, j, flip) in AllPairs(n, flip) <==> i < j < n
  {
    RowsVisit(n, n, flip, i, j);
  }

  /** The naive pass keeps the total momentum of the molecules. */
  lemma AllPairsKeepMomentum(st: Particles, n: nat, flip: bool, sqrt: real -> real)
    requires |st.coords| == |st.speeds| && n <= |st.coords|
    ensures PairsIn(AllPairs(n, flip), |st.coords|)
    ensures ApplyPairs(st, AllPairs(n, flip), sqrt).Momentum(n) == st.Momentum(n)
  {
    ApplyPairsKeepsMomentum(st, AllPairs(n, flip), n, sqrt);
  }

  // ------------------------------------- the naive pass, loop by loop

  /** Row i as the inner loop computes it: the pairs (i, i + 1) .. (i, j - 1)
      applied one after the other. */
  function RowPass(st: Particles, i: nat, j: nat, flip: bool, sqrt: real -> real): (r: Particles)
    requires |st.coords| == |st.speeds| && j <= |st.coords|
    ensures |r.coords| == |st.coords| && |r.speeds| == |st.speeds|
    decreases j
  {
    if j <= i + 1 then st
    else
      var p := Oriented(i, j - 1, flip);
      CollideTwo(RowPass(st, i, j - 1, flip, sqrt), p.0, p.1, sqrt)
  }

  /** The inner loop's fold is the pass over the pairs of Row. */
  lemma {:induction false} RowPassIsApplyPairs(st: Particles, i: nat, j: nat, flip: bool, sqrt: real -> real)
    requires |st.coords| == |st.speeds| && j <= |st.coords|
    ensures PairsIn(Row(i, j, flip), |st.coords|)
    ensures RowPass(st, i, j, flip, sqrt) == ApplyPairs(st, Row(i, j, flip), sqrt)
    decreases j
  {
    if j > i + 1 {
      RowPassIsApplyPairs(st, i, j - 1, flip, sqrt);
      var p := Oriented(i, j - 1, flip);
      ApplyPairsSnoc(st, Row(i, j - 1, flip), p, sqrt);
      assert Row(i, j, flip) == Row(i, j - 1, flip) + [p];
      assert RowPass(st, i, j, flip, sqrt) == CollideTwo(RowPass(st, i, j - 1, flip, sqrt), p.0, p.1, sqrt);
    }
  }

  /** Applying one more pair after a sequence of pairs. */
  lemma ApplyPairsSnoc(st: Particles, ps: seq<MoleculePair>, p: MoleculePair, sqrt: real -> real)
    requires |st.coords| == |st.speeds| && PairsIn(ps, |st.coords|) && p.0 < |st.coords| && p.1 < |st.coords|
    ensures PairsIn(ps + [p], |st.coords|)
    ensures ApplyPairs(st, ps + [p], sqrt) == CollideTwo(ApplyPairs(st, ps, sqrt), p.0, p.1, sqrt)
  {
    assert (ps + [p])[..|ps|] == ps;
  }

  /** The outer loop applies one more row. */
  lemma RowsStep(st: Particles, i: nat, n: nat, flip: bool, sqrt: real -> real)
    requires |st.coords| == |st.speeds| && n <= |st.coords|
    ensures PairsIn(Rows(i, n, flip), |st.coords|)
    ensures var mid := ApplyPairs(st, Rows(i, n, flip), sqrt);
            ApplyPairs(st, Rows(i + 1, n, flip), sqrt) == RowPass(mid, i, n, flip, sqrt)
  {
    ApplyPairsAppend(st, Rows(i, n, flip), Row(i, n, flip), sqrt);
    RowPassIsApplyPairs(ApplyPairs(st, Rows(i, n, flip), sqrt), i, n, flip, sqrt);
  }
}
