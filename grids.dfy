/**
 * Single-channel 8-bit images ("masks" when they only hold 0 and 255) as
 * row-major grids, and `CountNonZero`, the pixel count OpenCV's
 * `countNonZero` returns, with the counting facts the analysis relies on.
 */
module Grids {

  /** An unsigned 8-bit pixel value (numpy `uint8`). */
  type Byte = x: int | 0 <= x < 256

  /** Rows of cells; `g[r][c]` is the cell in row `r`, column `c`. */
  type Grid<T> = seq<seq<T>>

  /** `g` has exactly `h` rows of `w` cells each. */
  predicate Shaped<T>(g: Grid<T>, h: nat, w: nat)
  {
    |g| == h && forall r :: 0 <= r < h ==> |g[r]| == w
  }

  /** `a` and `b` have the same number of rows and each row pair has the same length. */
  predicate SameShape<T, U>(a: Grid<T>, b: Grid<U>)
  {
    |a| == |b| && forall r :: 0 <= r < |a| ==> |a[r]| == |b[r]|
  }

  /** Every cell of `m` is 0 or 255, the two values OpenCV's mask operations write. */
  predicate IsMask(m: Grid<Byte>)
  {
    forall r, c :: 0 <= r < |m| && 0 <= c < |m[r]| ==> m[r][c] == 0 || m[r][c] == 255
  }

  /** Every nonzero cell of `a` is nonzero in `b` too: `a` is a sub-mask of `b`. */
  predicate SubMask(a: Grid<Byte>, b: Grid<Byte>)
  {
    SameShape(a, b) &&
    forall r, c :: 0 <= r < |a| && 0 <= c < |a[r]| && a[r][c] != 0 ==> b[r][c] != 0
  }

  /** The nonzero cells of `m` are exactly those nonzero in `a` or in `b`, and no cell is nonzero in both. */
  predicate DisjointUnion(m: Grid<Byte>, a: Grid<Byte>, b: Grid<Byte>)
  {
    SameShape(m, a) && SameShape(m, b) &&
    forall r, c :: 0 <= r < |m| && 0 <= c < |m[r]| ==>
      (m[r][c] != 0 <==> a[r][c] != 0 || b[r][c] != 0) && !(a[r][c] != 0 && b[r][c] != 0)
  }

  /** Number of nonzero cells of one row. */
  function RowNonZero(row: seq<Byte>): nat
  {
    if row == [] then 0 else (if row[0] != 0 then 1 else 0) + RowNonZero(row[1..])
  }

  /** Number of nonzero cells of the grid (OpenCV `countNonZero`). */
  function CountNonZero(g: Grid<Byte>): nat
  {
    if g == [] then 0 else RowNonZero(g[0]) + CountNonZero(g[1..])
  }

  lemma {:induction false} RowNonZeroZero(row: seq<Byte>)
    ensures RowNonZero(row) == 0 <==> forall c :: 0 <= c < |row| ==> row[c] == 0
  {
    if row != [] {
      RowNonZeroZero(row[1..]);
      assert forall c :: 0 <= c < |row| - 1 ==> row[1..][c] == row[c + 1];
    }
  }

  /** The count is zero exactly when every cell is zero. */
  lemma {:induction false} CountNonZeroZero(g: Grid<Byte>)
    ensures CountNonZero(g) == 0 <==> forall r, c :: 0 <= r < |g| && 0 <= c < |g[r]| ==> g[r][c] == 0
  {
    if g != [] {
      RowNonZeroZero(g[0]);
      CountNonZeroZero(g[1..]);
      assert forall r :: 0 <= r < |g| - 1 ==> g[1..][r] == g[r + 1];
    }
  }

  lemma {:induction false} RowNonZeroBound(row: seq<Byte>)
    ensures RowNonZero(row) <= |row|
  {
    if row != [] {
      RowNonZeroBound(row[1..]);
    }
  }

  /** An `h` by `w` grid has at most `h * w` nonzero cells. */
  lemma {:induction false} CountNonZeroBound(g: Grid<Byte>, h: nat, w: nat)
    requires Shaped(g, h, w)
    ensures CountNonZero(g) <= h * w
  {
    if g != [] {
      RowNonZeroBound(g[0]);
      assert Shaped(g[1..], h - 1, w) by {
        forall r | 0 <= r < h - 1 ensures |g[1..][r]| == w {
          assert g[1..][r] == g[r + 1];
        }
      }
      CountNonZeroBound(g[1..], h - 1, w);
    }
  }

  lemma {:induction false} RowSubMask(a: seq<Byte>, b: seq<Byte>)
    requires |a| == |b|
    requires forall c :: 0 <= c < |a| && a[c] != 0 ==> b[c] != 0
    ensures RowNonZero(a) <= RowNonZero(b)
  {
    if a != [] {
      RowSubMask(a[1..], b[1..]);
    }
  }

  /** A sub-mask never has more nonzero cells than the mask containing it. */
  lemma {:induction false} CountSubMask(a: Grid<Byte>, b: Grid<Byte>)
    requires SubMask(a, b)
    ensures CountNonZero(a) <= CountNonZero(b)
  {
    if a != [] {
      RowSubMask(a[0], b[0]);
      assert SubMask(a[1..], b[1..]) by {
        forall r, c | 0 <= r < |a| - 1 && 0 <= c < |a[1..][r]| && a[1..][r][c] != 0
          ensures b[1..][r][c] != 0
        {
          assert a[1..][r] == a[r + 1] && b[1..][r] == b[r + 1];
        }
      }
      CountSubMask(a[1..], b[1..]);
    }
  }

  lemma {:induction false} RowDisjointUnion(m: seq<Byte>, a: seq<Byte>, b: seq<Byte>)
    requires |m| == |a| == |b|
    requires forall c :: 0 <= c < |m| ==>
      (m[c] != 0 <==> a[c] != 0 || b[c] != 0) && !(a[c] != 0 && b[c] != 0)
    ensures RowNonZero(m) == RowNonZero(a) + RowNonZero(b)
  {
    if m != [] {
      RowDisjointUnion(m[1..], a[1..], b[1..]);
    }
  }

  /** Splitting a mask into two disjoint parts splits its count. */
  lemma {:induction false} CountDisjointUnion(m: Grid<Byte>, a: Grid<Byte>, b: Grid<Byte>)
    requires DisjointUnion(m, a, b)
    ensures CountNonZero(m) == CountNonZero(a) + CountNonZero(b)
  {
    if m != [] {
      RowDisjointUnion(m[0], a[0], b[0]);
      assert DisjointUnion(m[1..], a[1..], b[1..]) by {
        forall r, c | 0 <= r < |m| - 1 && 0 <= c < |m[1..][r]|
          ensures (m[1..][r][c] != 0 <==> a[1..][r][c] != 0 || b[1..][r][c] != 0)
          ensures !(a[1..][r][c] != 0 && b[1..][r][c] != 0)
        {
          assert m[1..][r] == m[r + 1] && a[1..][r] == a[r + 1] && b[1..][r] == b[r + 1];
        }
      }
      CountDisjointUnion(m[1..], a[1..], b[1..]);
    }
  }
}
