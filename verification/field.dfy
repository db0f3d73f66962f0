/** Prime-field arithmetic: the `F: Field` of every circuit in this repository.
    Elements are the integers 0 .. P-1 and every operation reduces modulo P. */
module Field {

  /** The base-field modulus of the Pallas curve. */
  const P: int := 0x40000000000000000000000000000000224698fc094cf91b992d30ed00000001

  type Elem = x: int | 0 <= x < P

  /** `F::from(x)` for an integer of any sign: the residue of `x` modulo P. */
  function FromInt(x: int): (r: Elem)
    ensures 0 <= x < P ==> r == x
  {
    x % P
  }

  function Add(a: Elem, b: Elem): (r: Elem) { (a + b) % P }

  function Neg(a: Elem): (r: Elem) { (P - a) % P }

  function Sub(a: Elem, b: Elem): (r: Elem) { Add(a, Neg(b)) }

  function Mul(a: Elem, b: Elem): (r: Elem) { (a * b) % P }

  /** The field's `invert`, with the zero element mapped to zero (`invert().unwrap_or(ZERO)`). */
  ghost predicate IsInvertOrZero(inv: Elem -> Elem) {
    inv(0) == 0 && forall x: Elem {:trigger inv(x)} :: x != 0 ==> Mul(x, inv(x)) == 1
  }

  lemma ModShift(x: int, q: int)
    ensures (x + q * P) % P == x % P
  {
  }

  /** Reduction commutes with addition. */
  lemma FromIntAdd(x: int, y: int)
    ensures FromInt(x + y) == Add(FromInt(x), FromInt(y))
  {
    var qx, qy := x / P, y / P;
    assert x == qx * P + x % P;
    assert y == qy * P + y % P;
    ModShift(x % P + y % P, qx + qy);
    assert x + y == (x % P + y % P) + (qx + qy) * P;
  }

  /** Reduction commutes with negation. */
  lemma FromIntNeg(x: int)
    ensures FromInt(-x) == Neg(FromInt(x))
  {
    var q := x / P;
    assert x == q * P + x % P;
    ModShift(P - x % P, -q - 1);
    assert -x == (P - x % P) + (-q - 1) * P;
  }

  /** Reduction commutes with subtraction. */
  lemma FromIntSub(x: int, y: int)
    ensures FromInt(x - y) == Sub(FromInt(x), FromInt(y))
  {
    FromIntAdd(x, -y);
    FromIntNeg(y);
  }

  /** Reduction commutes with multiplication. */
  lemma FromIntMul(x: int, y: int)
    ensures FromInt(x * y) == Mul(FromInt(x), FromInt(y))
  {
    var qx, qy := x / P, y / P;
    var rx, ry := x % P, y % P;
    assert x == qx * P + rx;
    assert y == qy * P + ry;
    calc {
      x * y;
      (qx * P + rx) * (qy * P + ry);
      rx * ry + (qx * qy * P + qx * ry + rx * qy) * P;
    }
    ModShift(rx * ry, qx * qy * P + qx * ry + rx * qy);
  }

  /** Subtraction is zero exactly on equal operands. */
  lemma SubZeroIff(a: Elem, b: Elem)
    ensures Sub(a, b) == 0 <==> a == b
  {
  }

  /** Zero annihilates and one is neutral. */
  lemma MulUnits(a: Elem)
    ensures Mul(a, 0) == 0 && Mul(0, a) == 0
    ensures Mul(1, a) == a && Mul(a, 1) == a
  {
  }

  /** A product with a 0/1 selector value vanishes exactly when the selector is off or the
      other factor vanishes. */
  lemma SelectorGuard(sel: Elem, x: Elem)
    requires sel == 0 || sel == 1
    ensures Mul(sel, x) == 0 <==> sel == 0 || x == 0
  {
    MulUnits(x);
  }

  /** Multiplication is commutative and associative. */
  lemma MulAssoc(a: Elem, b: Elem, c: Elem)
    ensures Mul(a, b) == Mul(b, a)
    ensures Mul(Mul(a, b), c) == Mul(a, Mul(b, c))
  {
    var abc := a * b * c;
    var q1, q2 := (a * b) / P, (b * c) / P;
    assert a * b == q1 * P + Mul(a, b);
    assert b * c == q2 * P + Mul(b, c);
    assert abc == Mul(a, b) * c + (q1 * c) * P;
    assert abc == a * Mul(b, c) + (a * q2) * P;
    ModShift(Mul(a, b) * c, q1 * c);
    ModShift(a * Mul(b, c), a * q2);
  }

  /** Given the field's inverse, a product vanishes only when a factor does. */
  lemma ZeroProduct(inv: Elem -> Elem, a: Elem, b: Elem)
    requires IsInvertOrZero(inv)
    ensures Mul(a, b) == 0 <==> a == 0 || b == 0
  {
    MulUnits(a);
    MulUnits(b);
    if a != 0 && Mul(a, b) == 0 {
      var ia := inv(a);
      assert Mul(a, ia) == 1;
      MulAssoc(ia, a, b);
      MulAssoc(a, ia, b);
      MulUnits(ia);
      assert Mul(ia, Mul(a, b)) == 0;
    }
  }
}
