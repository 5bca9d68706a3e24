/**
 Growing an array for more elements (safegrowarray in memory.c).

 Sizes are of a machine whose size_t has 64 bits.  `copied` counts the elements
 that reallocation has moved since the array was made.
 */
module GrowArray {

  const SIZE_MAX := 0xFFFF_FFFF_FFFF_FFFF

  /** The largest number of elements whose size in bytes is a size_t. */
  function MaxSize(eltsize: nat): nat
    requires eltsize > 0
  {
    SIZE_MAX / eltsize
  }

  function Max(a: nat, b: nat): nat {
    if a < b then b else a
  }

  /** The growth that is wanted before the limit is applied. */
  function Wanted(eltsize: nat, size: nat, need: nat): nat
    requires eltsize > 0 && size <= need
  {
    Max(Max(need - size, 256 / eltsize), size / 16)
  }

  /** The limit on the number of elements holds the growth back. */
  predicate Clamped(eltsize: nat, size: nat, need: nat)
    requires 0 < eltsize && size <= need <= MaxSize(eltsize)
  {
    Wanted(eltsize, size, need) > MaxSize(eltsize) - size
  }

  function Grown(eltsize: nat, size: nat, need: nat): nat
    requires 0 < eltsize && size <= need <= MaxSize(eltsize)
  {
    if Clamped(eltsize, size, need) then MaxSize(eltsize) else size + Wanted(eltsize, size, need)
  }

  class GrowingArray<T(0)> {
    const eltsize: nat
    var data: array<T>
    ghost var copied: nat
    ghost var everClamped: bool

    /** Away from the limit, and for elements of at most 256 bytes, all the
        copying so far is linear in the size now. */
    ghost predicate Valid()
      reads this
    {
      && eltsize > 0
      && data.Length <= MaxSize(eltsize)
      && (eltsize <= 256 && !everClamped ==> copied <= 31 * data.Length)
    }

    constructor (eltsize: nat)
      requires eltsize > 0
      ensures Valid() && this.eltsize == eltsize && data.Length == 0 && copied == 0 && !everClamped && fresh(data)
    {
      this.eltsize := eltsize;
      data := new T[0];
      copied := 0;
      everClamped := false;
    }

    /** safegrowarray: room for extralen elements after oldlen. */
    method Grow(oldlen: nat, extralen: nat)
      requires Valid() && oldlen <= MaxSize(eltsize) && extralen <= MaxSize(eltsize) - oldlen
      modifies this
      ensures Valid()
      ensures data.Length >= oldlen + extralen && data.Length * eltsize <= SIZE_MAX
      ensures data.Length >= old(data.Length) && data[..old(data.Length)] == old(data[..])
      ensures old(data.Length) > oldlen + extralen ==> data == old(data) && copied == old(copied)
      ensures old(data.Length) <= oldlen + extralen ==>
        && fresh(data) && copied == old(copied) + old(data.Length)
        && everClamped == (old(everClamped) || Clamped(eltsize, old(data.Length), oldlen + extralen))
        && data.Length == Grown(eltsize, old(data.Length), oldlen + extralen)
    {
      hide Wanted, Clamped;
      if data.Length > oldlen + extralen {
        BytesFit(eltsize, data.Length);
        return;
      }
      var newsize := NewSize(eltsize, data.Length, oldlen + extralen);
      BytesFit(eltsize, newsize);
      EnoughGrowth(eltsize, data.Length, oldlen + extralen);
      everClamped := everClamped || Clamped(eltsize, data.Length, oldlen + extralen);
      var toret, moved := Reallocated(data, newsize);
      copied := copied + moved;
      data := toret;
    }
  }

  /** The size to grow to. */
  method NewSize(eltsize: nat, oldsize: nat, need: nat) returns (newsize: nat)
    requires 0 < eltsize && oldsize <= need <= MaxSize(eltsize)
    ensures need <= newsize <= MaxSize(eltsize) && oldsize <= newsize
    ensures newsize == Grown(eltsize, oldsize, need)
  {
    var maxsize := SIZE_MAX / eltsize;
    var increment := need - oldsize;
    if increment < 256 / eltsize {
      increment := 256 / eltsize;
    }
    if increment < oldsize / 16 {
      increment := oldsize / 16;
    }
    var maxincr := maxsize - oldsize;
    if increment > maxincr {
      increment := maxincr;
    }
    newsize := oldsize + increment;
  }

  /** A new array that starts with the old elements, and how many were moved. */
  method Reallocated<T(0)>(data: array<T>, newsize: nat) returns (toret: array<T>, ghost moved: nat)
    requires data.Length <= newsize
    ensures fresh(toret) && toret.Length == newsize && toret[..data.Length] == data[..] && moved == data.Length
  {
    toret := new T[newsize];
    moved := 0;
    var i: nat := 0;
    while i < data.Length
      invariant i <= data.Length && moved == i
      invariant toret[..i] == data[..i]
    {
      toret[i] := data[i];
      moved := moved + 1;
      i := i + 1;
    }
  }

  lemma BytesFit(eltsize: nat, n: nat)
    requires eltsize > 0 && n <= MaxSize(eltsize)
    ensures n * eltsize <= SIZE_MAX
  {
    assert MaxSize(eltsize) * eltsize <= SIZE_MAX;
    assert n * eltsize <= MaxSize(eltsize) * eltsize;
  }

  /** A growth by a sixteenth, rounded down but at least one, is more than a
      thirty-second of the new size, which pays for the copy. */
  lemma EnoughGrowth(eltsize: nat, size: nat, need: nat)
    requires 0 < eltsize && size <= need <= MaxSize(eltsize)
    ensures eltsize <= 256 ==> 32 * size <= 31 * (size + Wanted(eltsize, size, need))
  {
    if eltsize <= 256 {
      AtLeastOne(eltsize);
      Sixteenth(size, Wanted(eltsize, size, need));
    }
  }

  lemma AtLeastOne(eltsize: nat)
    requires 0 < eltsize <= 256
    ensures 256 / eltsize >= 1
  {
  }

  lemma Sixteenth(size: nat, increment: nat)
    requires increment >= 1 && increment >= size / 16
    ensures size <= 31 * increment
  {
    assert size <= 16 * (size / 16) + 15;
  }

  /** Room for what is needed, at least 256 bytes more, rounded down to whole
      elements, and at least a sixteenth more. */
  predicate Enough(eltsize: nat, size: nat, need: nat, t: nat)
    requires eltsize > 0
  {
    t >= need && t >= size + 256 / eltsize && t >= size + size / 16
  }

  /** The new size is the least that is enough, and the limit if none below it is. */
  lemma GrownIsLeast(eltsize: nat, size: nat, need: nat, t: nat)
    requires 0 < eltsize && size <= need <= MaxSize(eltsize)
    ensures var g := Grown(eltsize, size, need);
      && need <= g <= MaxSize(eltsize)
      && (Enough(eltsize, size, need, g) || g == MaxSize(eltsize))
      && (t <= MaxSize(eltsize) && Enough(eltsize, size, need, t) ==> g <= t)
  {
    hide MaxSize;
  }

  /** When a reallocation grows the array by nothing: the call was for exactly
      the present size, and either that is the limit, or the elements exceed 256
      bytes and there are fewer than sixteen.  The whole array is then copied. */
  lemma NoGrowth(eltsize: nat, size: nat, need: nat)
    requires 0 < eltsize && size <= need <= MaxSize(eltsize)
    ensures Grown(eltsize, size, need) == size
      <==> need == size && (size == MaxSize(eltsize) || (eltsize > 256 && size < 16))
  {
    hide MaxSize;
    if eltsize <= 256 {
      AtLeastOne(eltsize);
    } else {
      assert 256 / eltsize == 0;
    }
  }
}
