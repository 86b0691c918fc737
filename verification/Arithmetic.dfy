/** Products, quotients and remainders, in small steps. */
module Arithmetic {

  lemma ProductNotNegative(k: nat, d: nat)
    ensures k * d >= 0
  {
  }

  lemma NextMultiple(q: int, q': int, d: nat)
    ensures q < q' ==> q * d + d <= q' * d
  {
    if q < q' {
      var k := q' - q - 1;
      ProductNotNegative(k, d);
      assert (q + 1 + k) * d == q * d + d + k * d;
    }
  }

  lemma HornerBound(q: nat, size: nat, x: nat, d: nat)
    requires q < size && x < d
    ensures q * d + x < size * d
  {
    NextMultiple(q, size, d);
  }

  lemma DivModSplit(k: nat, size: nat, d: nat)
    requires d > 0 && k < size * d
    ensures k / d < size && k % d < d && k / d * d + k % d == k
  {
    NextMultiple(size - 1, k / d, d);
  }

  lemma HornerUnique(q: nat, x: nat, q': nat, x': nat, d: nat)
    requires x < d && x' < d && q * d + x == q' * d + x'
    ensures q == q' && x == x'
  {
    NextMultiple(q, q', d);
    NextMultiple(q', q, d);
  }

  lemma HornerConcat(x: int, s: int, y: int, d: int, z: int)
    ensures (x * s + y) * d + z == x * (s * d) + (y * d + z)
  {
  }

  lemma MulAssoc(x: int, y: int, z: int)
    ensures x * y * z == x * (y * z)
  {
  }

  lemma MulSwap(x: int, y: int, z: int)
    ensures x * y * z == x * z * y
  {
  }

  lemma ModIs(x: nat, size: nat, q: nat, r: nat)
    requires r < size && x == q * size + r
    ensures x % size == r
  {
    HornerUnique(x / size, x % size, q, r, size);
  }

  lemma ModSmall(x: nat, size: nat)
    requires x < size
    ensures x % size == x
  {
    ModIs(x, size, 0, x);
  }

  lemma ModAdd(x: nat, d: nat, size: nat)
    requires size > 0 && d <= size
    ensures (x + d) % size ==
              if x % size + d < size then x % size + d else if d == size then x % size else x % size + d - size
  {
    var q, r := x / size, x % size;
    assert x == q * size + r;
    if r + d < size {
      ModIs(x + d, size, q, r + d);
    } else {
      assert (q + 1) * size == q * size + size;
      ModIs(x + d, size, q + 1, r + d - size);
    }
  }

  lemma AddMultiples(a: nat, b: nat, size: nat)
    ensures (a + b) * size == a * size + b * size
  {
  }

  lemma ModShift(x: nat, k: nat, size: nat)
    requires size > 0
    ensures (x % size + k) % size == (x + k) % size
  {
    var y := x % size + k;
    ModOfSum(x, k, y, size, x / size, x % size, y / size, y % size);
  }

  lemma ModOfSum(x: nat, k: nat, y: nat, size: nat, a: nat, r: nat, b: nat, t: nat)
    requires x == a * size + r && y == r + k && y == b * size + t && t < size
    ensures (x + k) % size == t
  {
    AddMultiples(a, b, size);
    ModIs(x + k, size, a + b, t);
  }
}
