/** Quotient and remainder. */
module Division {
  lemma Distribute(a: int, b: int, n: int)
    ensures a * n - b * n == (a - b) * n
  {
  }

  lemma Negate(d: int, n: int)
    ensures -d * n == -(d * n)
  {
  }

  lemma AtLeastOnce(d: int, n: int)
    requires d > 0 && n > 0
    ensures d * n >= n
  {
  }

  /** Quotient and remainder are the only two numbers that add up. */
  lemma Unique(x: nat, n: nat, q: int, r: nat)
    requires r < n && x == q * n + r
    ensures x / n == q && x % n == r
  {
    var d := q - x / n;
    assert x == (x / n) * n + x % n;
    assert q * n - (x / n) * n == d * n by { Distribute(q, x / n, n); }
    if d > 0 { AtLeastOnce(d, n); } else if d < 0 { AtLeastOnce(-d, n); Negate(d, n); }
  }

  // The place of (i, j) in rows of w, one after another.
  function Index(w: nat, i: int, j: int): int { i * w + j }

  /** Every place below w * h is that of exactly one row and column. */
  lemma PlaceOf(w: nat, h: nat, k: nat)
    requires k < w * h
    ensures w > 0 && k / w < h && k % w < w && Index(w, k / w, k % w) == k
  {
    Positive(w, h);
    assert k == (k / w) * w + k % w;
    Below(k / w, h, w);
  }

  lemma Positive(w: nat, h: nat)
    requires w * h > 0
    ensures w > 0
  {
  }

  lemma Below(a: nat, b: nat, n: nat)
    requires n > 0 && a * n < b * n
    ensures a < b
  {
    Distribute(a, b, n);
    if a > b { AtLeastOnce(a - b, n); }
  }

  lemma SamePlace(w: nat, i: nat, j: nat, row: nat, column: nat)
    requires j < w && column < w && Index(w, i, j) == Index(w, row, column)
    ensures i == row && j == column
  {
    Unique(Index(w, i, j), w, i, j);
    Unique(Index(w, i, j), w, row, column);
  }

  lemma PlaceBelow(w: nat, h: nat, i: nat, j: nat)
    requires i < h && j < w
    ensures 0 <= Index(w, i, j) < w * h
  {
    Distribute(h, i, w);
    AtLeastOnce(h - i, w);
  }
}
