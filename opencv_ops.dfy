/**
 * The whole-array OpenCV operations the hole and colour masks are built
 * from, each applied cell by cell to `uint8` grids.
 */
module OpenCvOps {
  import opened Grids

  /** An OpenCV 8-bit HSV pixel: hue in 0..179 (degrees halved), saturation and value in 0..255. */
  type Hue = x: int | 0 <= x < 180
  datatype Hsv = Hsv(h: Hue, s: Byte, v: Byte)

  /** `x` is `2^k - 1` for some `k`: every binary digit is a one. */
  predicate AllOnes(x: nat)
  {
    x == 0 || (x % 2 == 1 && AllOnes(x / 2))
  }

  /**
   * Bitwise AND, defined digit by digit from the least significant binary
   * digit. The result never exceeds either operand, a value ANDed with
   * itself is unchanged, and ANDing with an all-ones value keeps the other
   * operand.
   */
  function BitAnd(x: nat, y: nat): (z: nat)
    ensures z <= x && z <= y
    ensures x == y ==> z == x
    ensures AllOnes(x) && y <= x ==> z == y
  {
    if x == 0 || y == 0 then 0
    else 2 * BitAnd(x / 2, y / 2) + (if x % 2 == 1 && y % 2 == 1 then 1 else 0)
  }

  /** 255, the value OpenCV writes for "set" in a mask, is all ones. */
  lemma MaskValueAllOnes()
    ensures AllOnes(255)
  {
  }

  function Pow2(n: nat): (p: nat)
    ensures p > 0
  {
    if n == 0 then 1 else 2 * Pow2(n - 1)
  }

  /**
   * Bitwise complement of the low `n` binary digits of `x`, defined digit by
   * digit; below `2^n` it is `2^n - 1 - x`.
   */
  function NotBits(x: nat, n: nat): (z: nat)
    ensures x < Pow2(n) ==> z == Pow2(n) - 1 - x
  {
    if n == 0 then 0 else 2 * NotBits(x / 2, n - 1) + (1 - x % 2)
  }

  /** Bitwise complement of an 8-bit value: `255 - x`. */
  function BitNot(x: Byte): (z: Byte)
    ensures z == 255 - x
  {
    assert Pow2(8) == 256;
    NotBits(x, 8)
  }

  /** `cv2.bitwise_and(src, src, mask=mask)`: `src` where `mask` is nonzero, 0 elsewhere. */
  function MaskedCopy(src: Grid<Byte>, mask: Grid<Byte>): (dst: Grid<Byte>)
    requires SameShape(src, mask)
    ensures SameShape(dst, src)
    ensures forall r, c :: 0 <= r < |src| && 0 <= c < |src[r]| ==>
      dst[r][c] == (if mask[r][c] != 0 then src[r][c] else 0)
  {
    seq(|src|, r requires 0 <= r < |src| =>
      seq(|src[r]|, c requires 0 <= c < |src[r]| =>
        if mask[r][c] != 0 then BitAnd(src[r][c], src[r][c]) else 0))
  }

  /** `cv2.threshold(src, thresh, maxval, cv2.THRESH_BINARY)`: `maxval` where the cell is strictly above `thresh`, else 0. */
  function ThresholdBinary(src: Grid<Byte>, thresh: int, maxval: Byte): (dst: Grid<Byte>)
    ensures SameShape(dst, src)
    ensures forall r, c :: 0 <= r < |src| && 0 <= c < |src[r]| ==> dst[r][c] == 0 || dst[r][c] == maxval
    ensures maxval != 0 ==> forall r, c :: 0 <= r < |src| && 0 <= c < |src[r]| ==>
      (dst[r][c] != 0 <==> src[r][c] > thresh)
  {
    seq(|src|, r requires 0 <= r < |src| =>
      seq(|src[r]|, c requires 0 <= c < |src[r]| =>
        if src[r][c] > thresh then maxval else 0))
  }

  /** `cv2.bitwise_not(src)`. */
  function BitwiseNot(src: Grid<Byte>): (dst: Grid<Byte>)
    ensures SameShape(dst, src)
    ensures forall r, c :: 0 <= r < |src| && 0 <= c < |src[r]| ==> dst[r][c] as int + src[r][c] as int == 255
  {
    seq(|src|, r requires 0 <= r < |src| =>
      seq(|src[r]|, c requires 0 <= c < |src[r]| => BitNot(src[r][c])))
  }

  /** `cv2.bitwise_and(a, b)` with no mask. */
  function BitwiseAnd(a: Grid<Byte>, b: Grid<Byte>): (dst: Grid<Byte>)
    requires SameShape(a, b)
    ensures SameShape(dst, a)
    ensures forall r, c :: 0 <= r < |a| && 0 <= c < |a[r]| ==> dst[r][c] <= a[r][c] && dst[r][c] <= b[r][c]
    ensures IsMask(a) && IsMask(b) ==> IsMask(dst)
    ensures IsMask(a) && IsMask(b) ==>
      forall r, c :: 0 <= r < |a| && 0 <= c < |a[r]| ==> (dst[r][c] != 0 <==> a[r][c] != 0 && b[r][c] != 0)
  {
    seq(|a|, r requires 0 <= r < |a| =>
      seq(|a[r]|, c requires 0 <= c < |a[r]| => BitAnd(a[r][c], b[r][c])))
  }

  /** The inclusive per-channel box test of `cv2.inRange`. */
  predicate InBox(p: Hsv, lower: Hsv, upper: Hsv)
  {
    lower.h <= p.h <= upper.h && lower.s <= p.s <= upper.s && lower.v <= p.v <= upper.v
  }

  /** `cv2.inRange(src, lower, upper)`: 255 where every channel lies in its inclusive bounds, else 0. */
  function InRange(src: Grid<Hsv>, lower: Hsv, upper: Hsv): (dst: Grid<Byte>)
    ensures SameShape(dst, src)
    ensures IsMask(dst)
    ensures forall r, c :: 0 <= r < |src| && 0 <= c < |src[r]| ==>
      (dst[r][c] != 0 <==> InBox(src[r][c], lower, upper))
  {
    seq(|src|, r requires 0 <= r < |src| =>
      seq(|src[r]|, c requires 0 <= c < |src[r]| =>
        if InBox(src[r][c], lower, upper) then 255 else 0))
  }

  /** Complementing twice gives the original grid back. */
  lemma BitwiseNotInvolution(src: Grid<Byte>)
    ensures BitwiseNot(BitwiseNot(src)) == src
  {
    var twice := BitwiseNot(BitwiseNot(src));
    assert |twice| == |src|;
    forall r | 0 <= r < |src| ensures twice[r] == src[r] {
      assert |twice[r]| == |src[r]|;
    }
  }
}
