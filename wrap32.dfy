/** Conversion between 64-bit absolute stream indices and 32-bit TCP sequence
    numbers, in the manner of section 3.3 of RFC 793: a sequence number is the
    absolute index plus the connection's zero point (its initial sequence
    number), taken modulo 2^32; unwrapping picks, among all 64-bit indices with
    that residue, the one nearest a checkpoint. */
module Wrap32 {
  import opened Common

  /** `Wrap32::BASE` and `MASK_HIGH_32` live in a header that is not part of
      this model; they are 2^32 and the high 32 bits of a 64-bit word. The
      source's `x & MASK_LOW_32` is written `x % BASE` here, and
      `x & MASK_HIGH_32` is `x - x % BASE`. */
  const BASE: nat := 0x1_0000_0000
  const MASK_HIGH_32: nat := 0xFFFF_FFFF_0000_0000

  /** Absolute distance between two indices. */
  function Dist(a: int, b: int): nat
  {
    if a >= b then a - b else b - a
  }

  /** `Wrap32::wrap`: the zero point plus the low 32 bits of `n`, in 32-bit
      unsigned arithmetic. The result is congruent to `zeroPoint + n` modulo 2^32. */
  function Wrap(n: u64, zeroPoint: u32): (w: u32)
    ensures (w - zeroPoint - n) % BASE == 0
  {
    (zeroPoint + n % BASE) % BASE
  }

  /** The 32-bit unsigned difference `raw - zeroPoint` (`n_low32` in the source). */
  function Offset(raw: u32, zeroPoint: u32): (d: u32)
  {
    (raw - zeroPoint) % BASE
  }

  /** `Wrap32::unwrap`: keep the checkpoint's high 32 bits, take the low 32 bits
      from this sequence number, then step one 2^32 block down or up when the
      low halves are more than 2^31 apart. The two guards `res >= BASE` and
      `res < MASK_HIGH_32` keep the result inside the 64-bit range, which the
      result type `u64` checks. Whatever the checkpoint, the result wraps back
      to the sequence number it came from. */
  function Unwrap(raw: u32, zeroPoint: u32, checkpoint: u64): (r: u64)
    ensures Wrap(r, zeroPoint) == raw
    ensures r % BASE == Offset(raw, zeroPoint)
  {
    var nLow := Offset(raw, zeroPoint);
    var cLow := checkpoint % BASE;
    var res := checkpoint - cLow + nLow;
    var res1 := if res >= BASE && nLow > cLow && nLow - cLow > BASE / 2 then res - BASE else res;
    var r := if res1 < MASK_HIGH_32 && cLow > nLow && cLow - nLow > BASE / 2 then res1 + BASE else res1;
    BlockResidue(r, nLow, checkpoint);
    WrapOffset(r, raw, zeroPoint);
    r
  }

  /** Arithmetic helper: an index made of whole 2^32 blocks plus `low` has residue `low`. */
  lemma BlockResidue(r: int, low: nat, checkpoint: nat)
    requires low < BASE
    requires r == checkpoint - checkpoint % BASE + low
          || r == checkpoint - checkpoint % BASE + low - BASE
          || r == checkpoint - checkpoint % BASE + low + BASE
    ensures r % BASE == low
  {
    var qc := checkpoint / BASE;
    assert checkpoint - checkpoint % BASE == qc * BASE;
  }

  /** An index whose low 32 bits are `raw - zeroPoint` wraps to `raw`. */
  lemma WrapOffset(r: u64, raw: u32, zeroPoint: u32)
    requires r % BASE == Offset(raw, zeroPoint)
    ensures Wrap(r, zeroPoint) == raw
  {
    assert Offset(raw, zeroPoint) == if raw >= zeroPoint then raw - zeroPoint else raw - zeroPoint + BASE;
  }

  /** Arithmetic helper: two different numbers with the same low 32 bits are
      at least 2^32 apart. */
  lemma ResidueApart(x: int, r: int)
    requires x % BASE == r % BASE && x != r
    ensures x >= r + BASE || x <= r - BASE
  {
    var qx, qr := x / BASE, r / BASE;
    assert x - r == (qx - qr) * BASE;
    if qx > qr {
      assert (qx - qr) * BASE >= BASE;
    } else {
      assert qx < qr;
      assert (qr - qx) * BASE >= BASE;
    }
  }

  /** `wrap` depends only on the low 32 bits of the absolute index. */
  lemma WrapLow32(n: u64, m: u64, zeroPoint: u32)
    requires n % BASE == m % BASE
    ensures Wrap(n, zeroPoint) == Wrap(m, zeroPoint)
  {
  }

  /** Two indices wrap to the same sequence number exactly when they agree
      modulo 2^32. */
  lemma WrapCollision(n: u64, m: u64, zeroPoint: u32)
    ensures Wrap(n, zeroPoint) == Wrap(m, zeroPoint) <==> n % BASE == m % BASE
  {
  }

  /** Every 64-bit index that wraps to `raw` has the residue `Offset(raw, zeroPoint)`. */
  lemma WrapResidue(x: u64, raw: u32, zeroPoint: u32)
    requires Wrap(x, zeroPoint) == raw
    ensures x % BASE == Offset(raw, zeroPoint)
  {
  }

  /** `unwrap` returns the candidate nearest the checkpoint: no 64-bit index
      that wraps to the same sequence number is strictly closer. */
  lemma {:induction false} UnwrapIsNearest(raw: u32, zeroPoint: u32, checkpoint: u64, x: u64)
    requires Wrap(x, zeroPoint) == raw
    ensures Dist(Unwrap(raw, zeroPoint, checkpoint), checkpoint) <= Dist(x, checkpoint)
  {
    var r := Unwrap(raw, zeroPoint, checkpoint);
    WrapResidue(x, raw, zeroPoint);
    UnwrapWithinHalf(raw, zeroPoint, checkpoint);
    if x != r {
      ResidueApart(x, r);
    }
  }

  /** Round trip: an absolute index within 2^31 of the checkpoint is recovered
      exactly by unwrapping its wrapped sequence number. */
  lemma {:induction false} UnwrapWrap(a: u64, zeroPoint: u32, checkpoint: u64)
    requires Dist(a, checkpoint) < BASE / 2
    ensures Unwrap(Wrap(a, zeroPoint), zeroPoint, checkpoint) == a
  {
    var r := Unwrap(Wrap(a, zeroPoint), zeroPoint, checkpoint);
    UnwrapIsNearest(Wrap(a, zeroPoint), zeroPoint, checkpoint, a);
    WrapResidue(a, Wrap(a, zeroPoint), zeroPoint);
    if r != a {
      ResidueApart(a, r);
    }
  }

  /** The result lies within 2^31 of the checkpoint, except where a range
      guard blocks the adjustment: a result more than 2^31 above the checkpoint
      lies in the first 2^32 block (nothing lower exists), and one more than
      2^31 below lies in the last block (nothing higher fits in 64 bits). */
  lemma UnwrapWithinHalf(raw: u32, zeroPoint: u32, checkpoint: u64)
    ensures var r := Unwrap(raw, zeroPoint, checkpoint);
            && (r > checkpoint + BASE / 2 ==> r < BASE)
            && (checkpoint > r + BASE / 2 ==> r >= MASK_HIGH_32)
  {
  }

  /** A tie at distance exactly 2^31 keeps the candidate that shares the
      checkpoint's high 32 bits, because both comparisons are strict. */
  lemma UnwrapTieKeepsHighBits(raw: u32, zeroPoint: u32, checkpoint: u64)
    requires Dist(Offset(raw, zeroPoint), checkpoint % BASE) == BASE / 2
    ensures Unwrap(raw, zeroPoint, checkpoint) / BASE == checkpoint / BASE
  {
  }
}
