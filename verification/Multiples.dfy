/** Remainders of multiples. */
module Multiples {

  lemma AtLeastOnce(k: int, n: nat)
    requires k >= 1
    ensures k * n >= n
  {
  }

  lemma ModIs(i: nat, n: nat, q: nat, r: nat)
    requires n > 0 && r < n && i == q * n + r
    ensures i % n == r
  {
    var d, rest := i / n, i % n;
    assert i == d * n + rest;
    assert (q - d) * n == rest - r;
    if q - d >= 1 {
      AtLeastOnce(q - d, n);
    } else if q - d <= -1 {
      AtLeastOnce(d - q, n);
    }
  }

  lemma NextMultiple(q: nat, next: nat, n: nat)
    requires next == q + 1
    ensures next * n == q * n + n
  {
  }

  lemma Division(i: nat, n: nat)
    requires n > 0
    ensures i == i / n * n + i % n
  {
  }

  /** Adding what the remainder lacks gives a multiple. */
  lemma RoundedUp(i: nat, n: nat, rest: nat)
    requires n > 0 && rest == i % n
    ensures (i + (n - rest) % n) % n == 0
  {
    var q := i / n;
    Division(i, n);
    if rest == 0 {
      ModIs(n, n, 1, 0);
    } else {
      ModIs(n - rest, n, 0, n - rest);
      var up, next := i + (n - rest), q + 1;
      NextMultiple(q, next, n);
      ModIs(up, n, next, 0);
    }
  }

  /** Between a number and the next multiple there is no other one. */
  lemma NoMultipleBefore(i: nat, n: nat, up: nat, a: nat)
    requires n > 0 && i <= up < i + n && up % n == 0
    requires i <= a && a % n == 0
    ensures up <= a
  {
    if a < up {
      var q, r := up / n, a / n;
      Division(up, n);
      Division(a, n);
      assert (q - r) * n == up - a;
      if q - r >= 1 {
        AtLeastOnce(q - r, n);
      } else if q - r <= -1 {
        AtLeastOnce(r - q, n);
      }
    }
  }
}
