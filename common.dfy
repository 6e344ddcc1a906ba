/** Value types shared by every component of the stack: fixed-width integer
    ranges and the Option wrapper used wherever the source has `std::optional`. */
module Common {

  const U16_LIMIT: nat := 0x1_0000
  const U32_LIMIT: nat := 0x1_0000_0000
  const U64_LIMIT: nat := 0x1_0000_0000_0000_0000

  /** The largest value of a `uint16_t` (`UINT16_MAX`). */
  const U16_MAX: nat := 0xFFFF

  type u8 = x: int | 0 <= x < 0x100
  type u16 = x: int | 0 <= x < 0x1_0000
  type u32 = x: int | 0 <= x < 0x1_0000_0000
  type u64 = x: int | 0 <= x < 0x1_0000_0000_0000_0000

  /** A byte string (`std::string` used as a byte buffer). */
  type Bytes = seq<u8>

  datatype Option<+T> = None | Some(value: T)

  function Min(a: int, b: int): int
  {
    if a <= b then a else b
  }

  function Max(a: int, b: int): int
  {
    if a >= b then a else b
  }

  /** Concatenation is associative. */
  lemma AppendAssoc<T>(a: seq<T>, b: seq<T>, c: seq<T>)
    ensures a + (b + c) == (a + b) + c
  {
  }

  /** Two to the power `n`. */
  function Pow2(n: nat): (p: nat)
    ensures p >= 1
  {
    if n == 0 then 1 else 2 * Pow2(n - 1)
  }

  /** Powers of two multiply by adding exponents. */
  lemma {:induction false} Pow2Add(a: nat, b: nat)
    ensures Pow2(a) * Pow2(b) == Pow2(a + b)
  {
    if a > 0 {
      Pow2Add(a - 1, b);
      assert Pow2(a + b) == 2 * Pow2(a - 1 + b);
      assert Pow2(a) * Pow2(b) == 2 * (Pow2(a - 1) * Pow2(b));
    }
  }

  /** Quotient and remainder are the only pair with `x == q * d + r` and
      `0 <= r < d`. */
  lemma DivUnique(x: int, d: int, q: int, r: int)
    requires d > 0 && x == q * d + r && 0 <= r < d
    ensures x / d == q && x % d == r
  {
    var q', r' := x / d, x % d;
    assert (q - q') * d == r' - r;
    if q > q' {
      MulAtLeast(q - q', d);
    } else if q < q' {
      MulAtLeast(q' - q, d);
    }
  }

  lemma MulAtLeast(a: int, d: int)
    requires a >= 1 && d > 0
    ensures a * d >= d
  {
  }

  /** Halving after dividing by `2^k` is dividing by `2^(k+1)`. */
  lemma DivPow2Step(x: nat, k: nat)
    ensures x / Pow2(k) / 2 == x / Pow2(k + 1)
  {
    var p := Pow2(k);
    var q, r := x / p, x % p;
    assert x == q * p + r;
    var q2, r2 := q / 2, q % 2;
    assert x == q2 * (2 * p) + (r2 * p + r) by {
      assert q == q2 * 2 + r2;
      assert q * p == q2 * (2 * p) + r2 * p;
    }
    assert 0 <= r2 * p + r < 2 * p;
    DivUnique(x, 2 * p, q2, r2 * p + r);
  }
}
