/** Circular index arithmetic (integer.h). */
module IntegerOps {

  function MinInt(x: int, y: int): int {
    if x < y then x else y
  }

  function MaxInt(x: int, y: int): int {
    if x > y then x else y
  }

  function Abs(x: int): nat {
    if x < 0 then -x else x
  }

  /** x + y on a circle of circumference `mod`; both corrections are tried, as in the source. */
  function ModuloAdd(x: int, y: int, mod: int): (r: int)
    requires 0 <= x < mod && -mod <= y <= mod
    ensures 0 <= r < mod
    ensures r == x + y || r == x + y - mod || r == x + y + mod
  {
    var sum := x + y;
    var low := if sum >= mod then sum - mod else sum;
    if low < 0 then low + mod else low
  }

  /** x - y the shorter way round a circle of circumference `mod`. */
  function ModuloSubtract(x: int, y: int, mod: int): (r: int)
    requires 0 <= x < mod && 0 <= y < mod
    ensures 2 * Abs(r) <= mod
    ensures r == x - y || r == x - y - mod || r == x - y + mod
  {
    var d1 := x - y;
    var d2 := (if x > y then -mod else mod) + d1;
    if Abs(d1) > Abs(d2) then d2 else d1
  }

  // Products and quotients by a variable, one step at a time.

  lemma MulMono(a: int, b: int, c: nat)
    requires a <= b
    ensures a * c <= b * c
  {
  }

  lemma MulSplit(a: int, b: int, c: int)
    ensures (a + b) * c == a * c + b * c && (a - b) * c == a * c - b * c
  {
  }

  lemma DivMod(x: nat, n: nat)
    requires 0 < n
    ensures x == x / n * n + x % n && 0 <= x % n < n && 0 <= x / n
  {
  }

  lemma Below(q: nat, r: nat, d: nat)
    requires r < d
    ensures (q * d + r) / d == q && (q * d + r) % d == r
  {
    var n := q * d + r;
    DivMod(n, d);
    if n / d < q {
      MulMono(n / d + 1, q, d);
      MulSplit(n / d, 1, d);
    } else if n / d > q {
      MulMono(q + 1, n / d, d);
      MulSplit(q, 1, d);
    }
  }

  /**
    A mask of the upper bits, and the mask below it, split a 32-bit word as dividing by 2^k does:
    into a part whose low k bits are zero and a remainder below 2^k, which add up to it.  So
    `addr & netmask` drops the remainder, and `& (n - 1)` for a power of two n keeps only it.
  */
  lemma MaskSplits(x: bv32, k: bv6)
    requires k < 32
    ensures var low := ((1 as bv32) << k) - 1;
            && x & (0xFFFF_FFFF << k) & low == 0
            && (x & (0xFFFF_FFFF << k)) + (x & low) == x
            && x & low <= low
  {
    HighMask(k);
    WordParts(x, ((1 as bv32) << k) - 1);
  }

  lemma HighMask(k: bv6)
    requires k < 32
    ensures !(((1 as bv32) << k) - 1) == (0xFFFF_FFFF as bv32) << k
  {
  }

  lemma WordParts(x: bv32, low: bv32)
    ensures (x & !low) + (x & low) == x && x & !low & low == 0 && x & low <= low
  {
  }
}
