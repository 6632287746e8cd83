/** Small shared vocabulary: optional values, the error numbers the collector
    returns, btree positions and 8-bit bucket generations. */
module Base {

  datatype Option<+T> = None | Some(value: T)

  /** Linux error numbers returned (negated) by the collector. */
  const EINTR: int := 4
  const ENOMEM: int := 12
  const EINVAL: int := 22
  const ESHUTDOWN: int := 108

  /** A btree position, flattened to its rank in the total order of positions
      (inode, then offset).  POS_MIN is 0 and POS_MAX is the largest rank. */
  const PosMax: nat := 0x1_0000_0000_0000_0000 * 0x1_0000_0000_0000_0000 - 1
  type Pos = p: nat | p <= PosMax

  const PosMin: Pos := 0

  /** bkey_successor: the next position; undefined (a BUG in the kernel) on POS_MAX. */
  function Successor(p: Pos): (r: Pos)
    requires p < PosMax
    ensures r == p + 1
  {
    p + 1
  }

  /** A bucket generation: a u8 that wraps around. */
  type Gen = g: int | 0 <= g < 256

  /** gen_cmp: the difference a - b taken modulo 256 and read as a signed byte. */
  function GenCmp(a: Gen, b: Gen): (r: int)
    ensures -128 <= r < 128
    ensures (a - b - r) % 256 == 0
  {
    var d := (a - b) % 256;
    if d < 128 then d else d - 256
  }

  /** gen_after: how many generations a is ahead of b, or 0 when it is not ahead. */
  function GenAfter(a: Gen, b: Gen): (r: int)
    ensures 0 <= r < 128
    ensures r == 0 <==> GenCmp(a, b) <= 0
    ensures r > 0 ==> r == GenCmp(a, b)
  {
    var c := GenCmp(a, b);
    if c > 0 then c else 0
  }

  /** Two generations compare equal exactly when they are the same generation. */
  lemma GenCmpZero(a: Gen, b: Gen)
    ensures GenCmp(a, b) == 0 <==> a == b
  {
  }

  /** Being ahead is asymmetric: if a is after b then b is behind a. */
  lemma GenCmpAsymmetric(a: Gen, b: Gen)
    ensures GenCmp(a, b) > 0 ==> GenCmp(b, a) < 0
  {
  }

  /** Without wrap-around (b <= a < b + 128) gen_cmp is plain subtraction. */
  lemma GenCmpNoWrap(a: Gen, b: Gen)
    requires b <= a < b + 128
    ensures GenCmp(a, b) == a - b && GenAfter(a, b) == a - b
  {
  }

  function Max(a: int, b: int): int { if a < b then b else a }

  /** DIV_ROUND_UP for natural numbers. */
  function CeilDiv(a: nat, b: nat): (r: nat)
    requires b > 0
    ensures r * b >= a && (r == 0 || (r - 1) * b < a)
  {
    (a + b - 1) / b
  }
}
