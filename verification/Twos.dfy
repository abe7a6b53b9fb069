/** Factors of two in a product. */
module Twos {
  import opened BitStrings

  lemma TimesAtLeast(q: nat, e: nat)
    requires e >= 1
    ensures q * e >= q
  {
  }

  lemma NoRemainder(q: nat, k: nat, d: nat, r: nat)
    requires r < q && q * k == q * d + r
    ensures r == 0
  {
    assert q * (k - d) == r;
    if k > d {
      TimesAtLeast(q, k - d);
    } else if k < d {
      TimesAtLeast(q, d - k);
    }
  }

  lemma Multiple(q: nat, k: nat)
    requires q >= 1
    ensures q * k % q == 0
  {
    NoRemainder(q, k, q * k / q, q * k % q);
  }

  lemma HalfDivides(h: nat, q: nat)
    requires q >= 1
    ensures 2 * h % (2 * q) == 0 <==> h % q == 0
  {
    if 2 * h % (2 * q) == 0 {
      var k := 2 * h / (2 * q);
      assert 2 * h == 2 * (q * k);
      Multiple(q, k);
    }
    if h % q == 0 {
      var k := h / q;
      assert 2 * h == 2 * q * k;
      Multiple(2 * q, k);
    }
  }

  lemma TwiceDivides(y: nat, q: nat)
    requires q >= 1 && y % (2 * q) == 0
    ensures y % q == 0 && y % 2 == 0
  {
    var k := y / (2 * q);
    assert y == q * (2 * k) == 2 * (q * k);
    Multiple(q, 2 * k);
  }

  /** `x` holds `a` factors of two and `y` the other `n - a`. */
  ghost predicate SharesTwos(n: nat, a: nat, x: nat, y: nat) {
    a <= n && x % Pow2(a) == 0 && y % Pow2(n - a) == 0
  }

  ghost predicate Shared(n: nat, x: nat, y: nat) {
    exists a: nat :: SharesTwos(n, a, x, y)
  }

  lemma SharesSwapped(n: nat, x: nat, y: nat)
    ensures Shared(n, x, y) <==> Shared(n, y, x)
  {
    if a: nat :| SharesTwos(n, a, x, y) {
      assert SharesTwos(n, n - a, y, x);
    }
    if a: nat :| SharesTwos(n, a, y, x) {
      assert SharesTwos(n, n - a, x, y);
    }
  }

  /** Taking a factor of two out of `2 * h`. */
  lemma SharesOneLess(m: nat, h: nat, y: nat)
    ensures Shared(m + 1, 2 * h, y) <==> Shared(m, h, y)
  {
    var n, x := m + 1, 2 * h;
    if a: nat :| SharesTwos(m, a, h, y) {
      HalfDivides(h, Pow2(a));
      assert SharesTwos(n, a + 1, x, y);
    }
    if a: nat :| SharesTwos(n, a, x, y) {
      if a > 0 {
        HalfDivides(h, Pow2(a - 1));
        assert SharesTwos(m, a - 1, h, y);
      } else {
        TwiceDivides(y, Pow2(m));
        assert SharesTwos(m, 0, h, y);
      }
    }
  }

  lemma OddShares(m: nat, x: nat, y: nat)
    requires x % 2 == 1 && y % 2 == 1
    ensures x * y % Pow2(m + 1) != 0 && !Shared(m + 1, x, y)
  {
    var n, k := m + 1, x / 2;
    assert x * y == 2 * (k * y) + y;
    if x * y % Pow2(m + 1) == 0 {
      TwiceDivides(x * y, Pow2(m));
    }
    if a: nat :| SharesTwos(n, a, x, y) {
      if a > 0 {
        TwiceDivides(x, Pow2(a - 1));
      } else {
        TwiceDivides(y, Pow2(m));
      }
    }
  }

  /** A power of two divides a product exactly when its factors of two can be shared out. */
  lemma {:induction false} TwosInProduct(n: nat, x: nat, y: nat)
    ensures x * y % Pow2(n) == 0 <==> Shared(n, x, y)
    decreases n, 0
  {
    if n == 0 {
      assert SharesTwos(0, 0, x, y);
    } else if x % 2 == 0 {
      EvenProduct(n - 1, x / 2, y);
    } else if y % 2 == 0 {
      EvenProduct(n - 1, y / 2, x);
      assert x * y == y * x;
      SharesSwapped(n, x, y);
    } else {
      OddShares(n - 1, x, y);
    }
  }

  lemma {:induction false} EvenProduct(m: nat, h: nat, y: nat)
    ensures 2 * h * y % Pow2(m + 1) == 0 <==> Shared(m + 1, 2 * h, y)
    decreases m, 1
  {
    hide Shared;
    TwosInProduct(m, h, y);
    SharesOneLess(m, h, y);
    HalfDivides(h * y, Pow2(m));
    Reassociate(h, y);
    var p, x := Pow2(m + 1), 2 * h * y;
    assert p == 2 * Pow2(m) && x == 2 * (h * y);
  }

  lemma Reassociate(h: nat, y: nat)
    ensures 2 * h * y == 2 * (h * y)
  {
  }

  lemma {:induction false} Pow2Add(a: nat, b: nat)
    ensures Pow2(a + b) == Pow2(a) * Pow2(b)
  {
    if a > 0 {
      Pow2Add(a - 1, b);
      Reassociate(Pow2(a - 1), Pow2(b));
    }
  }

  lemma TwoTo8()
    ensures Pow2(8) == 0x100
  {
  }

  lemma TwoTo64()
    ensures Pow2(64) == 0x1_0000_0000_0000_0000
  {
    hide Pow2;
    TwoTo8();
    Pow2Add(8, 8);
    Pow2Add(16, 16);
    Pow2Add(32, 32);
  }
}
