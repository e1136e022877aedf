/** The unsigned bit arithmetic of uthash.h: masks and shifts by powers of two. */
module HashBits {

  function Pow2(k: nat): (r: nat)
    ensures r > 0
  {
    if k == 0 then 1 else 2 * Pow2(k - 1)
  }

  /** The C operator & on unsigned numbers. */
  function BitAnd(x: nat, y: nat): nat {
    if x == 0 || y == 0 then 0 else 2 * BitAnd(x / 2, y / 2) + (if x % 2 == 1 && y % 2 == 1 then 1 else 0)
  }

  /** The C operator >> on unsigned numbers. */
  function Shr(x: nat, k: nat): nat {
    if k == 0 then x else Shr(x / 2, k - 1)
  }

  lemma MaskStep(x: nat, m: nat)
    requires m > 0
    ensures BitAnd(x, 2 * m - 1) == 2 * BitAnd(x / 2, m - 1) + x % 2
  {
    var y := 2 * m - 1;
    assert y / 2 == m - 1 && y % 2 == 1;
  }

  /** A shift by k and a mask with 2^k - 1 are the quotient and remainder of division by 2^k. */
  lemma {:induction false} ShiftAndMask(x: nat, k: nat)
    ensures x == Shr(x, k) * Pow2(k) + BitAnd(x, Pow2(k) - 1)
    ensures BitAnd(x, Pow2(k) - 1) < Pow2(k)
    decreases k
  {
    if k == 0 {
      assert BitAnd(x, 0) == 0;
    } else {
      var m := Pow2(k - 1);
      assert Pow2(k) == 2 * m;
      MaskStep(x, m);
      ShiftAndMask(x / 2, k - 1);
      Doubled(x, x / 2, Shr(x / 2, k - 1), m, BitAnd(x / 2, m - 1), x % 2);
    }
  }

  lemma Doubled(x: nat, h: nat, s: nat, m: nat, b: nat, r: nat)
    requires x == 2 * h + r && h == s * m + b
    ensures x == s * (2 * m) + (2 * b + r)
  {
    assert s * (2 * m) == 2 * (s * m);
  }

  /** The shift-and-mask expression of HASH_EXPAND_BUCKETS for n items in 2^k buckets. */
  function IdealChain(n: nat, k: nat): nat {
    Shr(n, k) + if BitAnd(n, Pow2(k) - 1) != 0 then 1 else 0
  }

  /** It is n / 2^k rounded up: chains of that length have room for every item, shorter ones have not. */
  lemma IdealIsCeiling(n: nat, k: nat)
    ensures IdealChain(n, k) * Pow2(k) >= n
    ensures IdealChain(n, k) > 0 ==> (IdealChain(n, k) - 1) * Pow2(k) < n
    ensures n > 0 ==> IdealChain(n, k) > 0
  {
    ShiftAndMask(n, k);
    Ceiling(n, Pow2(k), Shr(n, k), BitAnd(n, Pow2(k) - 1));
  }

  lemma Ceiling(n: nat, d: nat, s: nat, r: nat)
    requires n == s * d + r && r < d
    ensures var c := s + if r != 0 then 1 else 0;
            c * d >= n && (c > 0 ==> (c - 1) * d < n) && (n > 0 ==> c > 0)
  {
    assert (s + 1) * d == s * d + d;
    assert (s - 1) * d == s * d - d;
    if s == 0 {
      assert s * d == 0;
    }
  }
}
