/** Small facts about integer multiplication and division, proved from
    the definition of Euclidean division. */
module Arith {
  lemma MulSucc(w: int, p: int)
    ensures (w + 1) * p == w * p + p
  {
  }

  lemma MulLeq(w: int, n: int, p: nat)
    requires w <= n
    ensures w * p <= n * p
  {
    assert (n - w) * p >= 0;
  }

  lemma ProductBelow(d: int, b: int)
    requires b > 0 && d * b < b
    ensures d <= 0
  {
    if d > 0 {
      assert (d - 1) * b >= 0;
    }
  }

  lemma DivBounds(a: nat, b: int)
    requires b > 0
    ensures 0 <= a / b && b * (a / b) <= a
  {
    var q, r := a / b, a % b;
    assert b * q + r == a && 0 <= r < b;
    assert (-q) * b == r - a;
    ProductBelow(-q, b);
  }

  lemma DivOfMultiple(b: int, c: int)
    requires b > 0
    ensures (b * c) / b == c
  {
    var q, r := (b * c) / b, (b * c) % b;
    assert q * b + r == b * c && 0 <= r < b;
    assert (c - q) * b == r;
    ProductBelow(c - q, b);
    assert (q - c) * b == -r;
    ProductBelow(q - c, b);
  }
}
