/** Sequence and clock numbers.

    The transport compares 32-bit numbers by the sign of their wrapped difference.
    Every function that touches a sequence number takes a `Numbering`:
    `Wrap32` is what the program computes, `Unbounded` is the same computation on numbers
    that never wrap. The unbounded form is the reference the wrapped form is proved against.
 */
module Words {

  const TWO31: int := 0x8000_0000
  const TWO32: int := 0x1_0000_0000

  type Byte = b: nat | b < 256

  datatype Numbering = Wrap32 | Unbounded

  /** Reads the low 32 bits of `x` as a two's complement number. */
  function Signed32(x: int): (r: int)
    ensures -TWO31 <= r < TWO31
    ensures -TWO31 <= x < TWO31 ==> r == x
  {
    var u := x % TWO32;
    if u < TWO31 then u else u - TWO32
  }

  /** The signed distance from `earlier` to `later`. */
  function Diff(m: Numbering, later: nat, earlier: nat): int {
    match m
    case Wrap32 => Signed32(later - earlier)
    case Unbounded => later - earlier
  }

  function Add(m: Numbering, x: nat, n: nat): nat {
    match m
    case Wrap32 => (x + n) % TWO32
    case Unbounded => x + n
  }

  /** `x` can be held in a number of this kind. */
  predicate Word(m: Numbering, x: nat) {
    m.Wrap32? ==> x < TWO32
  }

  /** `Signed32` is determined by its range and its residue. */
  lemma SignedUnique(x: int, r: int, q: int)
    requires x == r + TWO32 * q && -TWO31 <= r < TWO31
    ensures Signed32(x) == r
  {
  }

  lemma SignedQuotient(x: int) returns (q: int)
    ensures x == Signed32(x) + TWO32 * q
  {
    q := (x - Signed32(x)) / TWO32;
  }

  /** Distances measured from a common base subtract, as long as the result fits 31 bits and a sign. */
  lemma DiffRebase(m: Numbering, x: nat, y: nat, base: nat)
    requires -TWO31 <= Diff(m, x, base) - Diff(m, y, base) < TWO31
    ensures Diff(m, x, y) == Diff(m, x, base) - Diff(m, y, base)
  {
    hide Signed32;
    if m.Wrap32? {
      var p := SignedQuotient(x - base);
      var q := SignedQuotient(y - base);
      SignedUnique(x - y, Diff(m, x, base) - Diff(m, y, base), p - q);
    }
  }

  lemma DiffChain(m: Numbering, x: nat, y: nat, z: nat)
    requires -TWO31 <= Diff(m, x, y) + Diff(m, y, z) < TWO31
    ensures Diff(m, x, z) == Diff(m, x, y) + Diff(m, y, z)
  {
    hide Signed32;
    if m.Wrap32? {
      var p := SignedQuotient(x - y);
      var q := SignedQuotient(y - z);
      SignedUnique(x - z, Diff(m, x, y) + Diff(m, y, z), p + q);
    }
  }

  lemma DiffAdd(m: Numbering, x: nat, n: nat, base: nat)
    requires -TWO31 <= Diff(m, x, base) + n < TWO31
    ensures Diff(m, Add(m, x, n), base) == Diff(m, x, base) + n
  {
    hide Signed32;
    if m.Wrap32? {
      var p := SignedQuotient(x - base);
      SignedUnique(Add(m, x, n) - base, Diff(m, x, base) + n, p - (x + n) / TWO32);
    }
  }

  lemma DiffSubAdd(m: Numbering, x: nat, base: nat, n: nat)
    requires -TWO31 <= Diff(m, x, base) - n < TWO31
    ensures Diff(m, x, Add(m, base, n)) == Diff(m, x, base) - n
  {
    hide Signed32;
    if m.Wrap32? {
      var p := SignedQuotient(x - base);
      SignedUnique(x - Add(m, base, n), Diff(m, x, base) - n, p + (base + n) / TWO32);
    }
  }

  lemma DiffZero(m: Numbering, x: nat, y: nat)
    requires Word(m, x) && Word(m, y)
    ensures Diff(m, x, y) == 0 <==> x == y
  {
  }

  lemma AddAdd(m: Numbering, x: nat, i: nat, j: nat)
    ensures Add(m, Add(m, x, i), j) == Add(m, x, i + j)
    ensures Word(m, x) ==> Add(m, x, 0) == x
  {
  }

  /** The wrapped comparison agrees with the unbounded one within half the number space. */
  lemma DiffWraps(x: nat, y: nat)
    requires -TWO31 <= x - y < TWO31
    ensures Diff(Wrap32, x % TWO32, y % TWO32) == x - y
    ensures x % TWO32 == y % TWO32 ==> x == y
  {
  }

  lemma AddWraps(x: nat, n: nat)
    ensures Add(Wrap32, x % TWO32, n) == (x + n) % TWO32
  {
  }
}
