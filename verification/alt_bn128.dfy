/**
 Curve constants of alt_bn128 (BN254), y^2 = x^3 + b over the prime field F_q,
 and the right-hand-side evaluator that the try-and-increment hasher tests for
 quadratic residuosity.
 */
module AltBn128 {

  /** The base-field prime q. */
  const Q: nat := 21888242871839275222246405745257275088696311157297823662689037894645226208583

  /** The curve coefficient b. */
  const B: nat := 3

  /** Z = (-1 + sqrt(-3)) / 2 in F_q. */
  const Z: nat := 2203960485148121921418603742825762020974279258880205651966

  /** A square root of -3 in F_q. */
  const Sqrtn3: nat := 4407920970296243842837207485651524041948558517760411303933

  /** x raised to the package-level exponent `three`, which is 3. */
  function Cube(x: int): (c: int)
  {
    x * x * x
  }

  /** The curve's right-hand side x^3 + b as a field element, i.e. reduced mod q. */
  function CurveRhs(x: int): (r: nat)
    ensures r < Q
  {
    (Cube(x) + B) % Q
  }

  /**
   The evaluator as written: x^3 is reduced mod q (`Exp` with a modulus, whose
   result is never negative, like Dafny's `%`), then b is added and the sum
   is not reduced again. The result is congruent to x^3 + b but may be as large
   as q + 2.
   */
  function XToYSquared(x: int): (r: nat)
    ensures B <= r < Q + B
    ensures r % Q == CurveRhs(x)
  {
    var c := Cube(x) % Q;
    AddMod(Cube(x), B);
    c + B
  }

  lemma AddMod(a: int, b: nat)
    ensures (a % Q + b) % Q == (a + b) % Q
  {
    var k := a / Q;
    assert a == k * Q + a % Q;
    ShiftMod(a % Q + b, k);
  }

  lemma ShiftMod(a: int, k: int)
    ensures (a + k * Q) % Q == a % Q
  {
  }

  /** The evaluator returns the reduced field element exactly when x^3 mod q is
      below q - b; otherwise its result is that element plus q. */
  lemma {:induction false} XToYSquaredReducedIff(x: int)
    ensures XToYSquared(x) == CurveRhs(x) <==> Cube(x) % Q < Q - B
    ensures XToYSquared(x) != CurveRhs(x) ==> XToYSquared(x) == CurveRhs(x) + Q
  {
    var r := XToYSquared(x);
    if r < Q {
      assert r % Q == r;
    } else {
      assert r - Q < Q;
      ShiftMod(r - Q, 1);
      assert r % Q == r - Q;
    }
  }

  /** x = q - 1 is a field element for which the evaluator's result is not below q. */
  lemma XToYSquaredUnreducedWitness()
    ensures XToYSquared(Q - 1) == Q + 2
    ensures CurveRhs(Q - 1) == 2
  {
    var m := Q - 1;
    assert m * m == (Q - 2) * Q + 1;
    assert Cube(m) == ((Q - 2) * m) * Q + m;
    ShiftMod(m, (Q - 2) * m);
    ShiftMod(2, Q * Q - 3 * Q + 3);
  }

  /** The comments' relation Z = (-1 + sqrt(-3)) / 2, i.e. 2Z + 1 = sqrt(-3). */
  lemma ZFromSqrtn3()
    ensures 2 * Z + 1 == Sqrtn3
  {
  }

  /** Sqrtn3 squares to -3 in F_q. */
  lemma Sqrtn3Squared()
    ensures (Sqrtn3 * Sqrtn3 + 3) % Q == 0
  {
  }

  /** Z is a primitive cube root of unity: Z^2 + Z + 1 = 0 and Z^3 = 1 in F_q. */
  lemma ZCubeRootOfUnity()
    ensures (Z * Z + Z + 1) % Q == 0
    ensures Cube(Z) % Q == 1
  {
  }
}
