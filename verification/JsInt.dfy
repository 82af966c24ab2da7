/** The 32-bit integer operators of JavaScript on exactly represented integers: operands
    are reduced modulo 2^32 and results are read as signed. */
module JsInt {
  import opened Bits

  const HALF: nat := 0x8000_0000

  function Unsigned(x: int): (u: nat)
    ensures u < WORD
  {
    x % WORD
  }

  function ToInt32(x: int): (r: int)
    ensures -0x8000_0000 <= r < 0x8000_0000
    ensures Unsigned(r) == Unsigned(x)
  {
    if Unsigned(x) >= HALF then Unsigned(x) - WORD else Unsigned(x)
  }

  function BitAnd(x: int, y: int): int {
    ToInt32(And(Unsigned(x), Unsigned(y)))
  }

  function BitOr(x: int, y: int): int {
    ToInt32(Or(Unsigned(x), Unsigned(y)))
  }

  function BitNot(x: int): int {
    ToInt32(WORD - 1 - Unsigned(x))
  }

  function ShiftLeft(x: int, n: nat): int {
    ToInt32(x * Pow2(n))
  }

  /** `>>`, which keeps the sign. */
  function ShiftRight(x: int, n: nat): int {
    ToInt32(x) / Pow2(n)
  }

  lemma SignedIsInjective(x: nat, y: nat)
    requires x < WORD && y < WORD && ToInt32(x) == ToInt32(y)
    ensures x == y
  {
  }

  /** Inside a block of at most 2^31 addresses, aligned to its size, the sign never changes:
      signed and unsigned offsets coincide. */
  lemma SignedInsideBlock(base: nat, size: nat, offset: nat)
    requires 0 < size <= HALF && HALF % size == 0 && base % size == 0 && base < WORD && offset < size
    ensures base + offset < WORD && ToInt32(base + offset) == ToInt32(base) + offset
  {
    hide ToInt32;
    InsideHalf(base, size);
    SignedReading(base);
    SignedReading(base + offset);
  }

  lemma SignedReading(x: nat)
    requires x < WORD
    ensures ToInt32(x) == if x < HALF then x else x - WORD
  {
  }

  /** An aligned block lies in one half. */
  lemma InsideHalf(base: nat, size: nat)
    requires 0 < size <= HALF && HALF % size == 0 && base % size == 0 && base < WORD
    ensures base + size <= if base < HALF then HALF else WORD
  {
    if base < HALF {
      NextMultiple(base, size, HALF);
    } else {
      NextMultiple(base - HALF, size, HALF) by {
        assert (base - HALF) % size == 0 by { MultiplesDiffer(base, HALF, size); }
      }
    }
  }

  lemma NextMultiple(x: nat, size: nat, limit: nat)
    requires size > 0 && x % size == 0 && limit % size == 0 && x < limit
    ensures x + size <= limit
  {
    var q, t := x / size, limit / size;
    assert x == size * q && limit == size * t;
    if q >= t {
      MulMonotone(size, t, q);
    } else {
      MulMonotone(size, q + 1, t);
    }
  }

  lemma MultiplesDiffer(x: nat, y: nat, size: nat)
    requires size > 0 && x % size == 0 && y % size == 0 && x >= y
    ensures (x - y) % size == 0
  {
    var q, t := x / size, y / size;
    assert x == size * q && y == size * t;
    if q < t {
      MulMonotone(size, q, t);
    } else {
      assert x - y == size * (q - t) + 0;
      DivModUnique(x - y, size, q - t, 0);
    }
  }

  lemma MulMonotone(a: nat, x: nat, y: nat)
    requires x <= y
    ensures a * x <= a * y
  {
  }
}
