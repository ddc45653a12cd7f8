/** Scalar invariants of a symmetric 3x3 tensor given by its six
    components, as the three scripts compute them:
    - `von_mises` (stress.py): sqrt of max(spread/2 + 3*shear, 0);
    - `sigma_dev` and `sigma_vm` (08_prepare_stress.py and 05a_jump_analyze.py):
      0.5*sqrt(spread) and sqrt(sigma_dev^2 + 3*shear);
    - the signed equivalent stress (10_prepare_escape_map.py):
      sign(zz)*sqrt((spread + 6*shear)/2);
    where spread = (xx-yy)^2 + (yy-zz)^2 + (zz-xx)^2 and
    shear = xy^2 + xz^2 + yz^2.
    No square root is ever computed: a `Root` is a real known by its sign
    and its square. */
module Tensor {

  datatype Tensor6 = Tensor6(xx: real, yy: real, zz: real, xy: real, xz: real, yz: real)

  /** The real `sign * sqrt(square)`. */
  datatype Root = Root(sign: int, square: real) {
    predicate Valid() {
      (sign == -1 || sign == 0 || sign == 1) && square >= 0.0
    }
  }

  /** `x` is the real that the root `r` stands for. */
  predicate Denotes(r: Root, x: real)
  {
    if r.sign == 0 then x == 0.0
    else x * x == r.square && (if r.sign > 0 then x >= 0.0 else x <= 0.0)
  }

  /** `np.sign`. */
  function Sign(x: real): (s: int)
    ensures s == -1 || s == 0 || s == 1
    ensures s as real * x >= 0.0 && (s == 0 <==> x == 0.0)
  {
    if x > 0.0 then 1 else if x < 0.0 then -1 else 0
  }

  /** Sum of squared differences of the normal components. */
  function NormalSpread(xx: real, yy: real, zz: real): (r: real)
    ensures r >= 0.0
    ensures r > 0.0 <==> !(xx == yy == zz)
  {
    SumSquares(xx - yy, yy - zz, zz - xx)
  }

  /** Sum of squared shear components. */
  function ShearSquares(xy: real, xz: real, yz: real): (r: real)
    ensures r >= 0.0
    ensures r > 0.0 <==> xy != 0.0 || xz != 0.0 || yz != 0.0
  {
    SumSquares(xy, xz, yz)
  }

  /** `a^2 + b^2 + c^2`. Its sign facts are stated through `Positive` so
      that they carry over from the lemma about the same expression. */
  function SumSquares(a: real, b: real, c: real): (r: real)
    ensures !(r < 0.0)
    ensures Positive(r) <==> a != 0.0 || b != 0.0 || c != 0.0
  {
    SquaresSign(a, b, c);
    a * a + b * b + c * c
  }

  predicate Positive(x: real)
  {
    x > 0.0
  }

  /** A sum of three squares is nonnegative, and positive exactly when
      one of the three is nonzero. */
  lemma SquaresSign(a: real, b: real, c: real)
    ensures !(a * a + b * b + c * c < 0.0)
    ensures Positive(a * a + b * b + c * c) <==> a != 0.0 || b != 0.0 || c != 0.0
  {
    SquaresNonneg(a, b, c);
    SquaresPositiveOnlyIf(a, b, c);
    SquaresPositiveIf(a, b, c);
  }

  lemma SquaresNonneg(a: real, b: real, c: real)
    ensures !(a * a + b * b + c * c < 0.0)
  {
    SquareSign(a);
    SquareSign(b);
    SquareSign(c);
  }

  lemma SquaresPositiveOnlyIf(a: real, b: real, c: real)
    ensures a * a + b * b + c * c > 0.0 ==> a != 0.0 || b != 0.0 || c != 0.0
  {
    SquareSign(a);
    SquareSign(b);
    SquareSign(c);
  }

  lemma SquaresPositiveIf(a: real, b: real, c: real)
    ensures a != 0.0 || b != 0.0 || c != 0.0 ==> a * a + b * b + c * c > 0.0
  {
    SquareSign(a);
    SquareSign(b);
    SquareSign(c);
  }

  lemma SquareSign(x: real)
    ensures !(x * x < 0.0)
    ensures x != 0.0 ==> x * x > 0.0
    ensures x * x > 0.0 ==> x != 0.0
  {
    if x < 0.0 {
      assert x * x == (-x) * (-x);
    }
  }

  predicate Isotropic(t: Tensor6)
  {
    t.xx == t.yy == t.zz && t.xy == 0.0 && t.xz == 0.0 && t.yz == 0.0
  }

  /** `von_mises` of stress.py: nonnegative, and zero exactly for an
      isotropic tensor `(s, s, s, 0, 0, 0)`. */
  function VonMises(t: Tensor6): (r: Root)
    ensures r.Valid() && r.sign == 1
    ensures r.square == 0.0 <==> Isotropic(t)
  {
    var term1 := NormalSpread(t.xx, t.yy, t.zz) / 2.0;
    var term2 := 3.0 * ShearSquares(t.xy, t.xz, t.yz);
    Root(1, if term1 + term2 > 0.0 then term1 + term2 else 0.0)
  }

  /** `P_hydro`: the mean normal component. */
  function Hydrostatic(xx: real, yy: real, zz: real): (p: real)
    ensures xx == yy == zz ==> p == xx
    ensures xx <= yy <= zz ==> xx <= p <= zz
  {
    (xx + yy + zz) / 3.0
  }

  /** `sigma_dev = 0.5*sqrt(spread)`: nonnegative, zero exactly when the
      three normal components agree, blind to the shear components. */
  function SigmaDev(xx: real, yy: real, zz: real): (r: Root)
    ensures r.Valid() && r.sign == 1
    ensures 4.0 * r.square == NormalSpread(xx, yy, zz)
    ensures r.square == 0.0 <==> xx == yy == zz
  {
    Root(1, NormalSpread(xx, yy, zz) / 4.0)
  }

  /** `sigma_vm = sqrt(sigma_dev^2 + 3*(xy^2 + yz^2 + xz^2))` of
      08_prepare_stress.py: never below `sigma_dev`, equal to it exactly when
      the shear vanishes. */
  function SigmaVmFromDev(t: Tensor6): (r: Root)
    ensures r.Valid() && r.sign == 1
    ensures r.square == SigmaDev(t.xx, t.yy, t.zz).square + 3.0 * (t.xy * t.xy + t.yz * t.yz + t.xz * t.xz)
    ensures r.square >= SigmaDev(t.xx, t.yy, t.zz).square
    ensures (r.square == SigmaDev(t.xx, t.yy, t.zz).square)
            <==> (t.xy == 0.0 && t.xz == 0.0 && t.yz == 0.0)
  {
    Root(1, SigmaDev(t.xx, t.yy, t.zz).square + 3.0 * ShearSquares(t.xy, t.yz, t.xz))
  }

  /** The signed equivalent stress of 10_prepare_escape_map.py: its
      magnitude is the von Mises stress, its sign that of `zz`. */
  function SignedEquivalent(t: Tensor6): (r: Root)
    ensures r.Valid()
    ensures r.square == VonMises(t).square
    ensures r.sign == Sign(t.zz)
    ensures t.zz == 0.0 ==> Denotes(r, 0.0)
  {
    Root(Sign(t.zz), (NormalSpread(t.xx, t.yy, t.zz) + 6.0 * ShearSquares(t.xy, t.xz, t.yz)) / 2.0)
  }

  /** `sigma = -(virial / V) * K`, component by component. */
  function VirialToStress(v: Tensor6, volume: real, k: real): (s: Tensor6)
    requires volume != 0.0
    ensures s == Scale(v, -k / volume)
  {
    Tensor6(-(v.xx / volume) * k, -(v.yy / volume) * k, -(v.zz / volume) * k,
            -(v.xy / volume) * k, -(v.xz / volume) * k, -(v.yz / volume) * k)
  }

  function Scale(t: Tensor6, c: real): Tensor6
  {
    Tensor6(c * t.xx, c * t.yy, c * t.zz, c * t.xy, c * t.xz, c * t.yz)
  }

  /** The `max(..., 0)` guard of `von_mises` never fires on exact reals. */
  lemma VonMisesSquare(t: Tensor6)
    ensures VonMises(t).square
            == NormalSpread(t.xx, t.yy, t.zz) / 2.0 + 3.0 * ShearSquares(t.xy, t.xz, t.yz)
  {
  }

  /** Scaling a tensor by `c` scales its von Mises square by `c^2`. */
  lemma VonMisesScale(t: Tensor6, c: real)
    ensures VonMises(Scale(t, c)).square == c * c * VonMises(t).square
  {
    var s := Scale(t, c);
    var a := NormalSpread(t.xx, t.yy, t.zz);
    var b := ShearSquares(t.xy, t.xz, t.yz);
    SpreadScale(t.xx, t.yy, t.zz, c);
    ShearScale(t.xy, t.xz, t.yz, c);
    assert NormalSpread(s.xx, s.yy, s.zz) == c * c * a;
    assert ShearSquares(s.xy, s.xz, s.yz) == c * c * b;
    VonMisesSquare(t);
    VonMisesSquare(s);
    Distribute(c, a, b);
  }

  lemma Distribute(c: real, a: real, b: real)
    ensures c * c * a / 2.0 + 3.0 * (c * c * b) == c * c * (a / 2.0 + 3.0 * b)
  {
  }

  lemma SpreadScale(x: real, y: real, z: real, c: real)
    ensures NormalSpread(c * x, c * y, c * z) == c * c * NormalSpread(x, y, z)
  {
    SpreadScaleRaw(x, y, z, c);
  }

  lemma SpreadScaleRaw(x: real, y: real, z: real, c: real)
    ensures (c * x - c * y) * (c * x - c * y) + (c * y - c * z) * (c * y - c * z)
            + (c * z - c * x) * (c * z - c * x)
            == c * c * ((x - y) * (x - y) + (y - z) * (y - z) + (z - x) * (z - x))
  {
    DiffSquareScale(x, y, c);
    DiffSquareScale(y, z, c);
    DiffSquareScale(z, x, c);
  }

  lemma DiffSquareScale(x: real, y: real, c: real)
    ensures (c * x - c * y) * (c * x - c * y) == c * c * ((x - y) * (x - y))
  {
    assert c * x - c * y == c * (x - y);
  }

  lemma ShearScale(x: real, y: real, z: real, c: real)
    ensures ShearSquares(c * x, c * y, c * z) == c * c * ShearSquares(x, y, z)
  {
    ShearScaleRaw(x, y, z, c);
  }

  lemma ShearScaleRaw(x: real, y: real, z: real, c: real)
    ensures (c * x) * (c * x) + (c * y) * (c * y) + (c * z) * (c * z)
            == c * c * (x * x + y * y + z * z)
  {
  }

  /** Converting a virial tensor to stress multiplies the von Mises square
      by `(K / V)^2`. */
  lemma StressVonMises(v: Tensor6, volume: real, k: real)
    requires volume != 0.0
    ensures VonMises(VirialToStress(v, volume, k)).square
            == (k / volume) * (k / volume) * VonMises(v).square
    ensures ScaledSquare(VonMises(VirialToStress(v, volume, k)).square, VonMises(v).square, k / volume)
  {
    VonMisesScale(v, -k / volume);
    NegDivSquare(k, volume, VonMises(v).square);
  }

  /** `a` is `b` scaled by the square of `q`. */
  predicate ScaledSquare(a: real, b: real, q: real)
  {
    a == q * q * b
  }

  lemma NegDivSquare(k: real, volume: real, x: real)
    requires volume != 0.0
    ensures (-k / volume) * (-k / volume) * x == (k / volume) * (k / volume) * x
  {
    assert -k / volume == -(k / volume);
  }

  /** The three reductions are not interchangeable: the 08_prepare_stress
      `sigma_vm` weighs the normal spread by 1/4 where von Mises weighs it
      by 1/2, so it is smaller unless the normal components agree. */
  lemma SigmaVmBelowVonMises(t: Tensor6)
    ensures SigmaVmFromDev(t).square <= VonMises(t).square
    ensures SigmaVmFromDev(t).square == VonMises(t).square <==> t.xx == t.yy == t.zz
  {
    var a := NormalSpread(t.xx, t.yy, t.zz);
    assert ShearSquares(t.xy, t.yz, t.xz) == ShearSquares(t.xy, t.xz, t.yz);
    assert VonMises(t).square == a / 2.0 + 3.0 * ShearSquares(t.xy, t.xz, t.yz);
  }

  /** A uniaxial tensor `(10, 0, 0, 0, 0, 0)`: von Mises is 10 while
      `sigma_dev` is 0.5*sqrt(200), not 10. */
  lemma UniaxialExample()
    ensures Denotes(VonMises(Tensor6(10.0, 0.0, 0.0, 0.0, 0.0, 0.0)), 10.0)
    ensures SigmaDev(10.0, 0.0, 0.0).square == 50.0
    ensures !Denotes(SigmaDev(10.0, 0.0, 0.0), 10.0)
  {
  }

  /** For `(s, 0, 0)`, `sigma_dev^2 = s^2 / 2`. */
  lemma SigmaDevUniaxial(s: real)
    ensures SigmaDev(s, 0.0, 0.0).square == s * s / 2.0
  {
  }
}
