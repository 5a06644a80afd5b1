/** Facts about Euclidean division by a positive divisor that the solver does
    not find on its own when the divisor is a variable. */
module DivMod {

  /** Quotient and remainder are unique: any decomposition `x == q * d + r`
      with `0 <= r < d` is the one `/` and `%` compute. */
  lemma DivModUnique(x: int, d: int, q: int, r: int)
    requires d > 0 && 0 <= r < d
    requires x == q * d + r
    ensures x / d == q && x % d == r
  {
    var q0, r0 := x / d, x % d;
    assert x == q0 * d + r0;
    var k := q - q0;
    assert k * d == r0 - r by {
      assert q * d - q0 * d == (q - q0) * d;
    }
    if k >= 1 {
      MulAtLeast(k, d);
    } else if k <= -1 {
      MulAtLeast(-k, d);
    }
    assert k == 0;
  }

  lemma MulAtLeast(k: int, d: int)
    requires k >= 1 && d > 0
    ensures k * d >= d
  {
    assert k * d == (k - 1) * d + d;
  }

  /** Stepping one position forward either moves one place within the block
      or lands exactly on the next block boundary. */
  lemma ModSucc(p: nat, d: nat)
    requires d > 1
    ensures p % d + 1 < d ==> (p + 1) % d == p % d + 1
    ensures p % d + 1 == d ==> (p + 1) % d == 0
  {
    if p % d + 1 < d {
      DivModUnique(p + 1, d, p / d, p % d + 1);
    } else {
      DivModUnique(p + 1, d, p / d + 1, 0);
    }
  }

  /** Advancing `c` positions that stay inside the current block keeps the
      position off the boundary, and leaving it exactly lands on one. */
  lemma ModAdd(p: nat, c: nat, d: nat)
    requires d > 0 && p % d + c <= d
    ensures p % d + c < d ==> (p + c) % d == p % d + c
    ensures p % d + c == d ==> (p + c) % d == 0
  {
    if p % d + c < d {
      DivModUnique(p + c, d, p / d, p % d + c);
    } else {
      DivModUnique(p + c, d, p / d + 1, 0);
    }
  }

  /** Integer division is monotone in the dividend. */
  lemma DivMonotone(x: nat, y: nat, d: nat)
    requires d > 0 && x <= y
    ensures x / d <= y / d
  {
    var qx, qy := x / d, y / d;
    assert x == qx * d + x % d && y == qy * d + y % d;
    if qx > qy {
      MulAtLeast(qx - qy, d);
    }
  }

  /** Adding the divisor to the dividend adds one to the quotient. */
  lemma DivAddDivisor(x: nat, d: nat)
    requires d > 0
    ensures (x + d) / d == x / d + 1
  {
    DivModUnique(x + d, d, x / d + 1, x % d);
  }

  /** The ceiling of `x / d` is the least multiple count covering `x`. */
  lemma CeilDiv(x: nat, d: nat)
    requires d > 0
    ensures var c := if x % d == 0 then x / d else x / d + 1;
            c * d >= x && (c > 0 ==> (c - 1) * d < x)
  {
  }
}
