/** 32-bit serial numbers and timestamps as ikcp.c computes with them: unsigned
    fields that wrap, compared through the signed reading of their difference. */
module Serial {
  const TWO32: int := 0x1_0000_0000
  const HALF: int := 0x8000_0000

  type u8 = x: int | 0 <= x < 0x100
  type u16 = x: int | 0 <= x < 0x1_0000
  type u32 = x: int | 0 <= x < 0x1_0000_0000
  type i32 = x: int | -0x8000_0000 <= x < 0x8000_0000

  function Add32(a: u32, b: u32): u32 {
    if a + b < TWO32 then a + b else a + b - TWO32
  }

  function Sub32(a: u32, b: u32): u32 {
    if a >= b then a - b else a - b + TWO32
  }

  function Mul32(a: u32, b: u32): u32 {
    (a * b) % TWO32
  }

  /** The bits of an unsigned word read as a signed one. */
  function AsSigned(a: u32): i32 {
    if a < HALF then a else a - TWO32
  }

  /** Any integer reduced to a signed word. */
  function WrapSigned(x: int): i32 {
    AsSigned(x % TWO32)
  }

  /** C's integer division, which truncates toward zero. */
  function TruncDiv(x: int, d: int): int
    requires d > 0
  {
    if x >= 0 then x / d else -((-x) / d)
  }

  /** `_itimediff`: how far `later` lies after `earlier`, read as a signed word. */
  function Diff(later: u32, earlier: u32): i32 {
    AsSigned(Sub32(later, earlier))
  }

  function Min(a: int, b: int): int { if a <= b then a else b }

  function Max(a: int, b: int): int { if a >= b then a else b }

  /** The 32-bit field that stores an unbounded count. */
  function Low32(x: int): u32 {
    x % TWO32
  }

  /** Section 3.2 of RFC 1982 with SERIAL_BITS 32: `a` precedes `b`. */
  predicate Precedes(a: u32, b: u32) {
    (a < b && b - a < HALF) || (a > b && a - b > HALF)
  }

  /** `_itimediff(a, b) < 0` is the ordering of RFC 1982, plus the antipodal
      pairs that the RFC leaves undefined: those compare as less both ways. */
  lemma DiffIsSerialOrder(a: u32, b: u32)
    ensures Diff(a, b) < 0 <==> Precedes(a, b) || Sub32(a, b) == HALF
    ensures Diff(a, b) > 0 <==> Precedes(b, a)
    ensures Sub32(a, b) == HALF <==> Diff(a, b) < 0 && Diff(b, a) < 0
  {
  }

  lemma Low32Add(x: int, k: int)
    requires 0 <= k < TWO32
    ensures Low32(x + k) == Add32(Low32(x), k)
  {
    var q, r := x / TWO32, x % TWO32;
    assert x == q * TWO32 + r;
    if r + k < TWO32 {
      assert x + k == q * TWO32 + (r + k);
    } else {
      assert x + k == (q + 1) * TWO32 + (r + k - TWO32);
    }
  }

  lemma Low32Offset(x: u32, base: u32, i: nat)
    requires Sub32(x, base) + i < TWO32
    ensures Sub32(Low32(x + i), base) == Sub32(x, base) + i
  {
    Low32Add(x, i);
    assert Low32(x) == x;
  }

  /** Unbounded counts less than 2^32 apart are told apart by their fields. */
  lemma Low32Sub(x: int, y: int)
    requires 0 <= y - x < TWO32
    ensures Sub32(Low32(y), Low32(x)) == y - x
  {
    Low32Add(x, y - x);
  }

  /** The signed comparison of two fields is the comparison of the counts they
      store, as long as those are at most 2^31 apart. */
  lemma DiffOfCounts(x: int, y: int)
    requires -HALF <= x - y < HALF
    ensures Diff(Low32(x), Low32(y)) == x - y
  {
    if x >= y { Low32Sub(y, x); } else { Low32Sub(x, y); }
  }

  /** Offsets from a base that moves forward by `d`. */
  lemma Rebase(sn: u32, base: u32, d: u32)
    requires Sub32(sn, base) >= d
    ensures Sub32(sn, Add32(base, d)) == Sub32(sn, base) - d
  {
  }
}
