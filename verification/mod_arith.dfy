/**
 * Facts about Euclidean remainder by a positive modulus that the rotation
 * proofs need: the remainder is determined by any quotient/remainder split,
 * it steps by one with its argument, and every residue is reached within
 * one full turn.
 */
module ModArith {

  lemma MulGrows(n: int, d: int)
    requires n > 0 && d >= 1
    ensures n * d >= n
  {
  }

  /** Any split x == q * n + r with 0 <= r < n gives the quotient and remainder. */
  lemma ModUnique(x: int, n: int, q: int, r: int)
    requires n > 0 && 0 <= r < n && x == q * n + r
    ensures x % n == r && x / n == q
  {
    var d := x / n - q;
    assert x == n * (x / n) + x % n;
    assert n * d == r - x % n by {
      assert n * d == n * (x / n) - n * q;
    }
    if d >= 1 {
      MulGrows(n, d);
    } else if d <= -1 {
      assert n * (-d) == -(n * d);
      MulGrows(n, -d);
    }
  }

  /** Advancing a counter by one advances its slot by one, wrapping at n. */
  lemma ModSucc(x: nat, n: nat)
    requires n > 0
    ensures (x + 1) % n == (x % n + 1) % n
    ensures (x + 1) % n == if x % n + 1 < n then x % n + 1 else 0
    ensures (x + 1) / n == if x % n + 1 < n then x / n else x / n + 1
  {
    var q := x / n;
    assert x == q * n + x % n;
    if x % n + 1 < n {
      ModUnique(x + 1, n, q, x % n + 1);
      ModUnique(x % n + 1, n, 0, x % n + 1);
    } else {
      ModUnique(x + 1, n, q + 1, 0);
      ModUnique(x % n + 1, n, 1, 0);
    }
  }

  /**
   * Among 0 .. c - 1, residue i occurs c / n times, plus one if i < c % n;
   * taking c one further adds one occurrence exactly when c % n == i.
   */
  lemma ResidueCountStep(c: nat, n: nat, i: nat)
    requires n > 0 && i < n
    ensures c / n + (if i < c % n then 1 else 0) + (if c % n == i then 1 else 0)
            == (c + 1) / n + (if i < (c + 1) % n then 1 else 0)
  {
    ModSucc(c, n);
  }

  /** Within n consecutive counter values starting at `from`, slot i occurs. */
  lemma SlotReached(n: nat, from: nat, i: nat) returns (c: nat)
    requires n > 0 && i < n
    ensures from <= c < from + n && c % n == i
  {
    var q := from / n;
    assert from == q * n + from % n;
    if from % n <= i {
      c := from + (i - from % n);
      ModUnique(c, n, q, i);
    } else {
      c := from + (i + n - from % n);
      ModUnique(c, n, q + 1, i);
    }
  }
}
