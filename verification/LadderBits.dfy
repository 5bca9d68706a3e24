/**
 The bits of a multiplier as the three ladders read them, from the top of the
 number's capacity downwards, and the multiples they are to compute.
 */
module LadderBits {
  import opened PrimeField

  function Pow2(b: nat): nat {
    if b == 0 then 1 else 2 * Pow2(b - 1)
  }

  /** n without its b lowest bits. */
  function Prefix(n: nat, b: nat): nat {
    if b == 0 then n else Prefix(n, b - 1) / 2
  }

  /** mp_get_bit(n, b) */
  function Bit(n: nat, b: nat): bool {
    Prefix(n, b) % 2 == 1
  }

  /** The k of the pair (kB, (k+1)B) once the bits above b have been read: one
      until the first set bit. */
  function Multiplier(n: nat, b: nat): (k: nat)
    ensures k >= 1
  {
    if Prefix(n, b) == 0 then 1 else Prefix(n, b)
  }

  lemma {:induction false} PrefixBelow(n: nat, b: nat, c: nat)
    requires b <= c && n < Pow2(c)
    ensures Prefix(n, b) < Pow2(c - b)
  {
    if b > 0 {
      PrefixBelow(n, b - 1, c);
    }
  }

  lemma NothingRead(n: nat, maxBits: nat)
    requires n < Pow2(maxBits)
    ensures Prefix(n, maxBits) == 0 && Multiplier(n, maxBits) == 1
  {
    PrefixBelow(n, maxBits, maxBits);
  }

  /** Reading one more bit: before the first set bit the multiplier stays one,
      afterwards it doubles and takes the bit. */
  lemma ReadBit(n: nat, b: nat)
    ensures Prefix(n, b) == 2 * Prefix(n, b + 1) + (if Bit(n, b) then 1 else 0)
    ensures Prefix(n, b + 1) == 0 ==> Multiplier(n, b) == 1 && (Prefix(n, b) == 0 <==> !Bit(n, b))
    ensures Prefix(n, b + 1) != 0 ==>
              Prefix(n, b) != 0 && Multiplier(n, b) == 2 * Multiplier(n, b + 1) + (if Bit(n, b) then 1 else 0)
  {
  }

  lemma AllBitsRead(n: nat)
    ensures Multiplier(n, 0) == if n == 0 then 1 else n
  {
  }

  lemma {:induction false} PrefixShrinks(n: nat, b: nat, c: nat)
    requires b <= c
    ensures Prefix(n, c) <= Prefix(n, b)
    decreases c - b
  {
    if b < c {
      PrefixShrinks(n, b, c - 1);
    }
  }

  lemma LowPrefixes(n: nat)
    ensures Prefix(n, 1) == n / 2 && Prefix(n, 2) == n / 4
  {
    assert Prefix(n, 1) == Prefix(n, 0) / 2;
    assert Prefix(n, 2) == Prefix(n, 1) / 2;
  }
}
