/**
 The field of residues modulo an odd prime, as the elliptic-curve code uses it
 through its Montgomery context: every value is a reduced residue, and `Add`,
 `Sub`, `Mul` and `Inv` stand for monty_add, monty_sub, monty_mul and
 monty_invert.

 Proofs about field expressions go through the integers.  `Red` is a ring
 homomorphism from the integers onto the field, so a nest of field operations
 on reduced arguments is the reduction of the same nest of integer operations
 (`Homomorphism`), and an identity of polynomials over the integers carries
 over.  Lemmas that only need that fact hide the definitions of the operations.
 */
module PrimeField {

  predicate Divides(d: nat, n: nat)
    requires d > 0
  {
    n % d == 0
  }

  predicate IsPrime(p: nat) {
    p >= 2 && forall d :: 2 <= d < p ==> !Divides(d, p)
  }

  type OddPrime = p: nat | p > 2 && IsPrime(p) witness 3

  /** A point of a curve over the field, in affine coordinates. */
  datatype Point = Infinity | Affine(x: nat, y: nat)

  // ----- operations

  predicate IsResidue(p: OddPrime, r: int) { 0 <= r < p }

  /** The residue of x, by repeated addition or subtraction of p. */
  function Residue(p: OddPrime, x: int): (r: nat)
    ensures IsResidue(p, r)
    decreases if x < 0 then p - x else x
  {
    if x < 0 then Residue(p, x + p) else if x < p then x else Residue(p, x - p)
  }

  /** The residue under a name whose definition proofs can hide. */
  function Red(p: OddPrime, x: int): (r: nat)
    ensures IsResidue(p, r)
  {
    Residue(p, x)
  }

  function Add(p: OddPrime, a: int, b: int): (r: nat)
    ensures IsResidue(p, r)
  {
    Red(p, a + b)
  }

  function Sub(p: OddPrime, a: int, b: int): (r: nat)
    ensures IsResidue(p, r)
  {
    Red(p, a - b)
  }

  function Mul(p: OddPrime, a: int, b: int): (r: nat)
    ensures IsResidue(p, r)
  {
    Red(p, a * b)
  }

  // ----- Red is a ring homomorphism

  lemma {:induction false} RedPlusMultiple(p: OddPrime, k: int, x: int)
    ensures Red(p, x + k * p) == Red(p, x)
    decreases if k < 0 then -k else k
  {
    if k > 0 {
      assert x + k * p == x + (k - 1) * p + p;
      RedPlusMultiple(p, k - 1, x);
    } else if k < 0 {
      assert x + k * p + p == x + (k + 1) * p;
      RedPlusMultiple(p, k + 1, x);
    }
  }

  lemma {:induction false} AddRed(p: OddPrime, x: int, y: int)
    ensures Add(p, Red(p, x), y) == Add(p, x, y)
    decreases if x < 0 then p - x else x
  {
    if x < 0 {
      AddRed(p, x + p, y);
      RedPlusMultiple(p, 1, x + y);
    } else if x >= p {
      AddRed(p, x - p, y);
      RedPlusMultiple(p, 1, x - p + y);
    }
  }

  lemma {:induction false} SubRed(p: OddPrime, x: int, y: int)
    ensures Sub(p, x, Red(p, y)) == Sub(p, x, y)
    decreases if y < 0 then p - y else y
  {
    if y < 0 {
      SubRed(p, x, y + p);
      RedPlusMultiple(p, 1, x - y - p);
    } else if y >= p {
      SubRed(p, x, y - p);
      RedPlusMultiple(p, 1, x - y);
    }
  }

  lemma {:induction false} MulRed(p: OddPrime, x: int, y: int)
    ensures Mul(p, Red(p, x), y) == Mul(p, x, y)
    decreases if x < 0 then p - x else x
  {
    if x < 0 {
      MulRed(p, x + p, y);
      MulPlusMultiple(p, x, y);
    } else if x >= p {
      MulRed(p, x - p, y);
      MulPlusMultiple(p, x - p, y);
    }
  }

  lemma MulPlusMultiple(p: OddPrime, x: int, y: int)
    ensures Mul(p, x + p, y) == Mul(p, x, y)
  {
    hide Red;
    assert (x + p) * y == x * y + y * p;
    RedPlusMultiple(p, y, x * y);
  }

  lemma MulHom(p: OddPrime, x: int, y: int)
    ensures Mul(p, Red(p, x), Red(p, y)) == Red(p, x * y)
  {
    hide Red;
    MulRed(p, x, Red(p, y));
    assert x * Red(p, y) == Red(p, y) * x;
    MulRed(p, y, x);
    assert y * x == x * y;
  }

  lemma AddHom(p: OddPrime, x: int, y: int)
    ensures Add(p, Red(p, x), Red(p, y)) == Red(p, x + y)
  {
    hide Red;
    AddRed(p, x, Red(p, y));
    AddRed(p, y, x);
  }

  lemma SubHom(p: OddPrime, x: int, y: int)
    ensures Sub(p, Red(p, x), Red(p, y)) == Red(p, x - y)
  {
    hide Red;
    SubRed(p, Red(p, x), y);
    AddRed(p, x, -y);
  }

  /** The triggers rewrite nested field operations on reductions from the
      inside out. */
  ghost predicate RedIsHomomorphism(p: OddPrime) {
    && (forall x, y {:trigger Mul(p, Red(p, x), Red(p, y))} ::
          Mul(p, Red(p, x), Red(p, y)) == Red(p, x * y))
    && (forall x, y {:trigger Add(p, Red(p, x), Red(p, y))} ::
          Add(p, Red(p, x), Red(p, y)) == Red(p, x + y))
    && (forall x, y {:trigger Sub(p, Red(p, x), Red(p, y))} ::
          Sub(p, Red(p, x), Red(p, y)) == Red(p, x - y))
  }

  lemma Homomorphism(p: OddPrime)
    ensures RedIsHomomorphism(p)
  {
    hide Red, Add, Sub, Mul;
    forall x, y ensures Mul(p, Red(p, x), Red(p, y)) == Red(p, x * y) { MulHom(p, x, y); }
    forall x, y ensures Add(p, Red(p, x), Red(p, y)) == Red(p, x + y) { AddHom(p, x, y); }
    forall x, y ensures Sub(p, Red(p, x), Red(p, y)) == Red(p, x - y) { SubHom(p, x, y); }
  }

  lemma Reduced(p: OddPrime, x: nat)
    requires IsResidue(p, x)
    ensures Red(p, x) == x
  {
  }

  // ----- the field axioms on reduced residues

  lemma MulComm(p: OddPrime, a: nat, b: nat)
    ensures Mul(p, a, b) == Mul(p, b, a)
  {
    assert a * b == b * a;
  }

  lemma MulAssoc(p: OddPrime, a: nat, b: nat, c: nat)
    ensures Mul(p, Mul(p, a, b), c) == Mul(p, a, Mul(p, b, c))
  {
    hide Red;
    MulRed(p, a * b, c);
    MulRed(p, b * c, a);
    assert a * Red(p, b * c) == Red(p, b * c) * a;
    assert b * c * a == a * b * c;
  }

  lemma MulOne(p: OddPrime, a: nat)
    requires IsResidue(p, a)
    ensures Mul(p, 1, a) == a == Mul(p, a, 1)
  {
    assert 1 * a == a == a * 1;
  }

  lemma MulZero(p: OddPrime, a: int)
    ensures Mul(p, 0, a) == 0 == Mul(p, a, 0)
  {
    assert 0 * a == 0 == a * 0;
  }

  lemma MulSub(p: OddPrime, a: nat, b: nat, c: nat)
    ensures Mul(p, a, Sub(p, b, c)) == Sub(p, Mul(p, a, b), Mul(p, a, c))
  {
    hide Red;
    SubHom(p, a * b, a * c);
    MulRed(p, b - c, a);
    assert a * Red(p, b - c) == Red(p, b - c) * a;
    assert (b - c) * a == a * b - a * c;
  }

  lemma SubZero(p: OddPrime, a: nat, b: nat)
    requires IsResidue(p, a) && IsResidue(p, b)
    ensures Sub(p, a, b) == 0 <==> a == b
  {
    if a < b {
      Reduced(p, a - b + p);
    }
  }

  // ----- inverses

  /** The inverse of a nonzero residue, by the remainder of p: p = q x + r gives
      x (-q / r) = 1. */
  function Inv(p: OddPrime, x: nat): (y: nat)
    requires IsResidue(p, x) && x != 0
    ensures IsResidue(p, y) && y != 0 && Mul(p, x, y) == 1
    decreases x
  {
    hide Red, Mul;
    if x == 1 then
      MulOne(p, 1);
      1
    else
      NoDivisor(p, x);
      var s := Inv(p, p % x);
      var y := Mul(p, -(p / x), s);
      InvStep(p, x, p / x, p % x, s);
      y
  }

  lemma NoDivisor(p: OddPrime, x: nat)
    requires 1 < x < p
    ensures p % x != 0
  {
    assert IsPrime(p);
    assert !Divides(x, p);
  }

  lemma InvStep(p: OddPrime, x: nat, q: int, r: nat, s: nat)
    requires p == q * x + r && Mul(p, r, s) == 1
    ensures Mul(p, x, Mul(p, -q, s)) == 1 && 0 < Mul(p, -q, s)
  {
    hide Red;
    var y := Mul(p, -q, s);
    MulRed(p, -q * s, x);
    SubtractMultiple(x, q, r, s, p);
    var t: int := s;
    RedPlusMultiple(p, -t, r * s);
    assert Mul(p, x, y) == 1 by {
      assert x * y == y * x;
    }
    MulZero(p, x);
  }

  lemma SubtractMultiple(x: int, q: int, r: int, s: int, p: int)
    requires p == q * x + r
    ensures -q * s * x == r * s + (-s) * p
  {
    assert s * p == s * (q * x) + s * r;
  }

  /** A field has no zero divisors. */
  lemma NoZeroDivisors(p: OddPrime, a: nat, b: nat)
    requires IsResidue(p, a) && IsResidue(p, b) && Mul(p, a, b) == 0
    ensures a == 0 || b == 0
  {
    hide *;
    if a != 0 {
      var i := Inv(p, a);
      MulAssoc(p, i, a, b);
      MulComm(p, i, a);
      MulOne(p, b);
      MulZero(p, i);
    }
  }

  /** Cancelling a nonzero factor. */
  lemma Cancel(p: OddPrime, c: nat, a: nat, b: nat)
    requires IsResidue(p, c) && c != 0 && IsResidue(p, a) && IsResidue(p, b) && Mul(p, c, a) == Mul(p, c, b)
    ensures a == b
  {
    hide *;
    MulSub(p, c, a, b);
    SubZero(p, Mul(p, c, a), Mul(p, c, b));
    NoZeroDivisors(p, c, Sub(p, a, b));
    SubZero(p, a, b);
  }

  /** Dividing: the one residue whose product with d is n. */
  function Div(p: OddPrime, n: nat, d: nat): (q: nat)
    requires IsResidue(p, n) && IsResidue(p, d) && d != 0
    ensures IsResidue(p, q) && Mul(p, q, d) == n
    ensures forall r: nat {:trigger Mul(p, r, d)} :: IsResidue(p, r) && Mul(p, r, d) == n ==> r == q
  {
    hide *;
    DivMul(p, n, d);
    var q := Mul(p, n, Inv(p, d));
    assert forall r: nat {:trigger Mul(p, r, d)} :: IsResidue(p, r) && Mul(p, r, d) == n ==> r == q by {
      forall r: nat | IsResidue(p, r) && Mul(p, r, d) == n ensures r == q {
        MulComm(p, r, d);
        MulComm(p, q, d);
        Cancel(p, d, r, q);
      }
    }
    q
  }

  lemma DivMul(p: OddPrime, n: nat, d: nat)
    requires IsResidue(p, n) && IsResidue(p, d) && d != 0
    ensures Mul(p, Mul(p, n, Inv(p, d)), d) == n
  {
    hide *;
    var i := Inv(p, d);
    MulAssoc(p, n, i, d);
    MulComm(p, i, d);
    MulOne(p, n);
  }

  // ----- congruences between integer expressions

  /** A quotient in the field is a congruence over the integers. */
  lemma QuotientCongruence(p: OddPrime, l: nat, d: int, n: int)
    requires IsResidue(p, l) && Mul(p, l, Red(p, d)) == Red(p, n)
    ensures Red(p, l * d) == Red(p, n)
  {
    hide Red, Mul;
    Reduced(p, l);
    MulHom(p, l, d);
  }

  lemma RedOfRed(p: OddPrime, x: int)
    ensures Red(p, Red(p, x)) == Red(p, x)
  {
    Reduced(p, Red(p, x));
  }

  lemma CongMul(p: OddPrime, x: int, y: int, z: int)
    requires Red(p, x) == Red(p, y)
    ensures Red(p, x * z) == Red(p, y * z)
  {
    hide *;
    MulHom(p, x, z);
    MulHom(p, y, z);
  }

  lemma CongSub(p: OddPrime, x: int, y: int)
    ensures Red(p, x) == Red(p, y) <==> Red(p, x - y) == 0
  {
    hide *;
    SubHom(p, x, y);
    SubZero(p, Red(p, x), Red(p, y));
  }

  lemma CongDifference(p: OddPrime, x: int, x': int, y: int, y': int)
    requires Red(p, x) == Red(p, x') && Red(p, y) == Red(p, y')
    ensures Red(p, x - y) == Red(p, x' - y')
  {
    hide *;
    SubHom(p, x, y);
    SubHom(p, x', y');
  }

  lemma CongProduct(p: OddPrime, x: int, x': int, y: int, y': int)
    requires Red(p, x) == Red(p, x') && Red(p, y) == Red(p, y')
    ensures Red(p, x * y) == Red(p, x' * y')
  {
    hide *;
    MulHom(p, x, y);
    MulHom(p, x', y');
  }

  lemma CongCancel(p: OddPrime, c: int, x: int, y: int)
    requires Red(p, c) != 0 && Red(p, c * x) == Red(p, c * y)
    ensures Red(p, x) == Red(p, y)
  {
    hide *;
    MulHom(p, c, x);
    MulHom(p, c, y);
    Cancel(p, Red(p, c), Red(p, x), Red(p, y));
  }

  lemma ZeroSum(p: OddPrime, x: int, y: int)
    requires Red(p, x) == 0
    ensures Red(p, x + y) == Red(p, y)
  {
    hide Red;
    AddHom(p, x, y);
    RedOfRed(p, y);
  }

  lemma ZeroProduct(p: OddPrime, x: int, y: int)
    ensures Red(p, x * y) == 0 <==> Red(p, x) == 0 || Red(p, y) == 0
  {
    hide *;
    MulHom(p, x, y);
    if Red(p, x) == 0 {
      MulZero(p, Red(p, y));
    } else if Red(p, y) == 0 {
      MulZero(p, Red(p, x));
    } else if Red(p, x * y) == 0 {
      NoZeroDivisors(p, Red(p, x), Red(p, y));
    }
  }

  // ----- products of integers

  lemma ProductSquared(x: int, y: int)
    ensures x * y * (x * y) == x * x * (y * y)
  {
  }
}
