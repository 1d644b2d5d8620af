/** Block-alignment arithmetic used by the cache's invariant. */
module Alignment {
  /** Euclidean division is determined by quotient and remainder. */
  lemma DivModUnique(x: int, bs: int, q: int, r: int)
    requires bs > 0 && 0 <= r < bs && x == bs * q + r
    ensures x % bs == r && x / bs == q
  {
    var q0 := x / bs;
    var r0 := x % bs;
    assert x == bs * q0 + r0;
    assert bs * (q - q0) == r0 - r;
    MulAtLeast(bs, q - q0);
    MulAtLeast(bs, q0 - q);
  }

  /** A positive multiple of `bs` is at least `bs`. */
  lemma MulAtLeast(bs: int, k: int)
    requires bs > 0
    ensures k >= 1 ==> bs * k >= bs
  {
    if k >= 1 {
      assert bs * k == bs * (k - 1) + bs;
    }
  }
  /** A multiple of `bs` is still one after adding `bs`. */
  lemma AlignedStep(x: nat, bs: nat)
    requires bs > 0 && x % bs == 0
    ensures (x + bs) % bs == 0
  {
    var q := x / bs;
    assert x == bs * q;
    DivModUnique(x + bs, bs, q + 1, 0);
  }
  /** Rounding down to a multiple of `bs` gives the start of the block holding `abs`. */
  lemma RoundDown(abs: nat, bs: nat)
    requires bs > 0
    ensures (abs - abs % bs) % bs == 0
    ensures abs - abs % bs <= abs < abs - abs % bs + bs
  {
    var q := abs / bs;
    assert abs == bs * q + abs % bs;
    DivModUnique(abs - abs % bs, bs, q, 0);
  }

  /** Two block starts within one block of each other are the same block start. */
  lemma AlignedUnique(x: nat, y: nat, bs: nat)
    requires bs > 0 && x % bs == 0 && y % bs == 0
    requires x <= y < x + bs
    ensures x == y
  {
    var qx := x / bs;
    var qy := y / bs;
    assert x == bs * qx;
    assert y == bs * qy;
    assert y - x == bs * (qy - qx);
    DivModUnique(y - x, bs, qy - qx, 0);
    DivModUnique(y - x, bs, 0, y - x);
  }
}
