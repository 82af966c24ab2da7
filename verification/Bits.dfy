/** Bitwise operations on unbounded naturals, one bit at a time, and the facts about
    network masks that the address modules use. */
module Bits {
  /** 2^32. */
  const WORD: nat := 0x1_0000_0000

  function Pow2(n: nat): (r: nat)
    ensures r > 0
  {
    if n == 0 then 1 else 2 * Pow2(n - 1)
  }

  function And(x: nat, y: nat): (r: nat)
    ensures r <= x && r <= y
  {
    if x == 0 || y == 0 then 0
    else 2 * And(x / 2, y / 2) + if x % 2 == 1 && y % 2 == 1 then 1 else 0
  }

  function Or(x: nat, y: nat): nat {
    if x == 0 then y
    else if y == 0 then x
    else 2 * Or(x / 2, y / 2) + if x % 2 == 1 || y % 2 == 1 then 1 else 0
  }

  /** `n` bits, the lowest `k` of them clear. */
  function HighMask(n: nat, k: nat): nat
    requires k <= n
  {
    Pow2Monotone(k, n);
    Pow2(n) - Pow2(k)
  }

  /** Both addresses have the same bits where `m` is set. */
  predicate Agree(a: nat, b: nat, m: nat) {
    And(a, m) == And(b, m)
  }

  ghost predicate Nested(m1: nat, m2: nat) {
    And(m1, m2) == m1 || And(m1, m2) == m2
  }

  lemma {:induction false} Pow2Monotone(k: nat, n: nat)
    requires k <= n
    ensures Pow2(k) <= Pow2(n)
  {
    if k < n {
      Pow2Monotone(k, n - 1);
    }
  }

  /** One step of `And`, low bits first. */
  lemma AndCons(x: nat, i: nat, y: nat, j: nat)
    requires i <= 1 && j <= 1
    ensures And(2 * x + i, 2 * y + j) == 2 * And(x, y) + if i == 1 && j == 1 then 1 else 0
  {
    assert (2 * x + i) / 2 == x && (2 * y + j) / 2 == y;
  }

  lemma AndZero(x: nat)
    ensures And(x, 0) == 0
  {
  }

  lemma {:induction false} AndCommutes(x: nat, y: nat)
    ensures And(x, y) == And(y, x)
  {
    if x != 0 && y != 0 {
      AndCommutes(x / 2, y / 2);
    }
  }

  lemma {:induction false} AndAllOnes(x: nat, n: nat)
    requires x < Pow2(n)
    ensures And(x, Pow2(n) - 1) == x
  {
    if x != 0 {
      AndAllOnes(x / 2, n - 1);
    }
  }

  /** Masking with the high bits rounds down to a multiple of the block size. */
  lemma {:induction false} AndHighMask(x: nat, n: nat, k: nat)
    requires k <= n && x < Pow2(n)
    ensures And(x, HighMask(n, k)) == x - x % Pow2(k)
  {
    hide And;
    if k == 0 {
      AndAllOnes(x, n);
    } else {
      var h, i := x / 2, x % 2;
      AndHighMask(h, n - 1, k - 1);
      AndCons(h, i, HighMask(n - 1, k - 1), 0);
      ModCons(h, i, Pow2(k - 1));
    }
  }

  lemma ModCons(x: nat, i: nat, b: nat)
    requires i <= 1 && b > 0
    ensures (2 * x + i) % (2 * b) == 2 * (x % b) + i
  {
    var q, r := x / b, x % b;
    assert x == b * q + r;
    assert 2 * x + i == 2 * b * q + (2 * r + i);
    DivModUnique(2 * x + i, 2 * b, q, 2 * r + i);
  }

  lemma DivModUnique(x: nat, d: nat, q: nat, r: nat)
    requires d > 0 && r < d && x == d * q + r
    ensures x / d == q && x % d == r
  {
    var p, s := x / d, x % d;
    assert x == d * p + s;
    var gap: int := q - p;
    assert d * gap == d * q - d * p == s - r;
    MulGrows(d, gap);
  }

  lemma MulGrows(d: nat, g: int)
    ensures g >= 1 ==> d * g >= d
    ensures g <= -1 ==> d * g <= d * (-1)
  {
  }

  lemma ModOfSum(a: nat, r: nat, b: nat)
    requires b > 0 && a % b == 0 && r < b
    ensures (a + r) % b == r && (a + r) - (a + r) % b == a
  {
    DivModUnique(a + r, b, a / b, r);
  }

  lemma {:induction false} AndLowMask(x: nat, k: nat)
    ensures And(x, Pow2(k) - 1) == x % Pow2(k)
  {
    hide And;
    if k == 0 {
      AndZero(x);
    } else {
      AndLowMask(x / 2, k - 1);
      AndCons(x / 2, x % 2, Pow2(k - 1) - 1, 1);
      ModCons(x / 2, x % 2, Pow2(k - 1));
    }
  }

  /** The bit of weight `2^j`, by itself. */
  lemma {:induction false} AndSingleBit(x: nat, j: nat)
    ensures And(x, Pow2(j)) == x % Pow2(j + 1) - x % Pow2(j)
  {
    hide And;
    if j == 0 {
      AndZero(x / 2);
      AndCons(x / 2, x % 2, 0, 1);
    } else {
      AndSingleBit(x / 2, j - 1);
      AndCons(x / 2, x % 2, Pow2(j - 1), 0);
      ModCons(x / 2, x % 2, Pow2(j - 1));
      ModCons(x / 2, x % 2, Pow2(j));
    }
  }

  lemma {:induction false} Pow2Divides(k: nat, n: nat)
    requires k <= n
    ensures Pow2(n) % Pow2(k) == 0
    ensures HighMask(n, k) % Pow2(k) == 0
  {
    if k > 0 {
      Pow2Divides(k - 1, n - 1);
      DoubleDivides(Pow2(n), Pow2(n - 1), Pow2(k), Pow2(k - 1));
      DoubleDivides(HighMask(n, k), HighMask(n - 1, k - 1), Pow2(k), Pow2(k - 1));
    }
  }

  lemma DoubleDivides(x: nat, y: nat, b: nat, c: nat)
    requires c > 0 && x == 2 * y && b == 2 * c && y % c == 0
    ensures x % b == 0
  {
    ModCons(y, 0, c);
  }

  /** Adding low bits to a block address is the same as or-ing them in. */
  lemma {:induction false} OrIsSum(a: nat, b: nat, k: nat)
    requires a % Pow2(k) == 0 && b < Pow2(k)
    ensures Or(a, b) == a + b
  {
    if k > 0 && a != 0 && b != 0 {
      ModCons(a / 2, a % 2, Pow2(k - 1));
      OrIsSum(a / 2, b / 2, k - 1);
    }
  }

  lemma {:induction false} HighMasksMeet(n: nat, k: nat, j: nat)
    requires j <= k <= n
    ensures And(HighMask(n, k), HighMask(n, j)) == HighMask(n, k)
  {
    hide And;
    if j == 0 {
      AndAllOnes(HighMask(n, k), n);
    } else {
      HighMasksMeet(n - 1, k - 1, j - 1);
      AndCons(HighMask(n - 1, k - 1), 0, HighMask(n - 1, j - 1), 0);
    }
  }

  lemma {:induction false} AgreeOnMeet(x: nat, a: nat, ma: nat, b: nat, mb: nat)
    requires Agree(x, a, ma) && Agree(x, b, mb)
    ensures Agree(a, b, And(ma, mb))
    decreases ma
  {
    hide And;
    if ma != 0 {
      var i, j := ma % 2, mb % 2;
      AndCons(x / 2, x % 2, ma / 2, i);
      AndCons(a / 2, a % 2, ma / 2, i);
      AndCons(x / 2, x % 2, mb / 2, j);
      AndCons(b / 2, b % 2, mb / 2, j);
      AgreeOnMeet(x / 2, a / 2, ma / 2, b / 2, mb / 2);
      var m, k := And(ma / 2, mb / 2), if i == 1 && j == 1 then 1 else 0;
      AndCons(ma / 2, i, mb / 2, j);
      AndCons(a / 2, a % 2, m, k);
      AndCons(b / 2, b % 2, m, k);
    }
  }

  /** The bits of `a` where `ma` is set, the bits of `b` elsewhere. */
  function Splice(a: nat, ma: nat, b: nat): nat
    decreases ma
  {
    if ma == 0 then b
    else 2 * Splice(a / 2, ma / 2, b / 2) + if ma % 2 == 1 then a % 2 else b % 2
  }

  lemma SpliceCons(a: nat, i: nat, m: nat, j: nat, b: nat, k: nat)
    requires i <= 1 && j <= 1 && k <= 1
    ensures Splice(2 * a + i, 2 * m + j, 2 * b + k) == 2 * Splice(a, m, b) + if j == 1 then i else k
  {
    assert (2 * a + i) / 2 == a && (2 * m + j) / 2 == m && (2 * b + k) / 2 == b;
  }

  lemma {:induction false} SpliceBelow(a: nat, ma: nat, b: nat, n: nat)
    requires a < Pow2(n) && b < Pow2(n)
    ensures Splice(a, ma, b) < Pow2(n)
    decreases n, ma
  {
    if ma != 0 {
      if n == 0 {
        assert a == 0 && b == 0;
        SpliceBelow(0, ma / 2, 0, 0);
        assert Splice(0, ma, 0) == 2 * Splice(0, ma / 2, 0);
      } else {
        assert a / 2 < Pow2(n - 1) && b / 2 < Pow2(n - 1);
        SpliceBelow(a / 2, ma / 2, b / 2, n - 1);
        assert Splice(a, ma, b) <= 2 * Splice(a / 2, ma / 2, b / 2) + 1;
      }
    }
  }

  lemma {:induction false} SpliceLeft(a: nat, ma: nat, b: nat)
    ensures Agree(Splice(a, ma, b), a, ma)
    decreases ma
  {
    hide And;
    if ma != 0 {
      var s, i := Splice(a / 2, ma / 2, b / 2), if ma % 2 == 1 then a % 2 else b % 2;
      SpliceLeft(a / 2, ma / 2, b / 2);
      AndCons(s, i, ma / 2, ma % 2);
      AndCons(a / 2, a % 2, ma / 2, ma % 2);
    }
  }

  lemma {:induction false} SpliceRight(a: nat, ma: nat, b: nat, mb: nat)
    requires Agree(a, b, And(ma, mb))
    ensures Agree(Splice(a, ma, b), b, mb)
    decreases ma
  {
    hide And;
    if ma != 0 {
      var s, i := Splice(a / 2, ma / 2, b / 2), if ma % 2 == 1 then a % 2 else b % 2;
      var m, k := And(ma / 2, mb / 2), if ma % 2 == 1 && mb % 2 == 1 then 1 else 0;
      AndCons(ma / 2, ma % 2, mb / 2, mb % 2);
      AndCons(a / 2, a % 2, m, k);
      AndCons(b / 2, b % 2, m, k);
      SpliceRight(a / 2, ma / 2, b / 2, mb / 2);
      AndCons(s, i, mb / 2, mb % 2);
      AndCons(b / 2, b % 2, mb / 2, mb % 2);
    }
  }

  /** The complement of `c` among `n` bits. */
  function Flip(c: nat, n: nat): nat
    requires c < Pow2(n)
  {
    Pow2(n) - 1 - c
  }

  lemma FlipHalves(c: nat, n: nat)
    requires n > 0 && c < Pow2(n)
    ensures Flip(c, n) / 2 == Flip(c / 2, n - 1) && Flip(c, n) % 2 == 1 - c % 2
  {
  }

  /** An address that keeps the bits of `c` under `m` and flips all others agrees with `c`
      only on masks inside `m`. */
  lemma {:induction false} FlippedAgreesInside(c: nat, m: nat, k: nat, n: nat)
    requires c < Pow2(n) && k < Pow2(n)
    requires Agree(Splice(c, m, Flip(c, n)), c, k)
    ensures And(k, m) == k
    decreases n, 1
  {
    if n == 0 || k == 0 {
    } else if m == 0 {
      FlippedMisses(c, k, n);
    } else {
      FlippedStep(c, m, k, n);
    }
  }

  lemma {:induction false} FlippedStep(c: nat, m: nat, k: nat, n: nat)
    requires 0 < n && c < Pow2(n) && k < Pow2(n)
    requires c / 2 < Pow2(n - 1) && k / 2 < Pow2(n - 1)
    requires Agree(Splice(c, m, Flip(c, n)), c, k)
    ensures And(k, m) == k
    decreases n, 0
  {
    hide And, Splice, Flip, Pow2;
    FlipHalves(c, n);
    var s, i := Splice(c / 2, m / 2, Flip(c / 2, n - 1)), if m % 2 == 1 then c % 2 else 1 - c % 2;
    SpliceCons(c / 2, c % 2, m / 2, m % 2, Flip(c / 2, n - 1), 1 - c % 2);
    AndCons(s, i, k / 2, k % 2);
    AndCons(c / 2, c % 2, k / 2, k % 2);
    FlippedAgreesInside(c / 2, m / 2, k / 2, n - 1);
    AndCons(k / 2, k % 2, m / 2, m % 2);
  }

  lemma {:induction false} FlippedMisses(c: nat, k: nat, n: nat)
    requires c < Pow2(n) && 0 < k < Pow2(n)
    ensures !Agree(Flip(c, n), c, k)
    decreases n
  {
    hide And;
    FlipHalves(c, n);
    AndCons(Flip(c, n) / 2, Flip(c, n) % 2, k / 2, k % 2);
    AndCons(c / 2, c % 2, k / 2, k % 2);
    if k > 1 {
      FlippedMisses(c / 2, k / 2, n - 1);
    }
  }
}
