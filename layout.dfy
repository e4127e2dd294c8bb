/**
 * Placement of 8x8 sample blocks inside a component's plane.
 *
 * A component is `w` blocks wide; one MCU row of it holds `w * vsf` blocks
 * (`vsf` is the vertical sampling factor), laid out `w` to a block line.
 * The plane is row-major with `w * 8` bytes per plane line. All offsets
 * here are relative to the cursor at which the MCU row starts.
 *
 * Every quantity is non-negative, so Dafny's `/` and `%` agree with the
 * truncating `usize` operators of the source.
 */
module Layout {

  /**
   * Bytes between two vertically adjacent samples of the plane. A plane of
   * at least one block column has lines at least one block (8 bytes) wide.
   */
  function LineStride(w: nat): (s: nat)
    ensures w > 0 ==> s >= 8
  {
    w * 8
  }

  /** Bytes written by one MCU row: `w * vsf` blocks of 64 samples. */
  function RowLength(w: nat, vsf: nat): nat { w * vsf * 64 }

  /** Bytes in a whole plane of `w` by `h` blocks. */
  function PlaneSize(w: nat, h: nat): nat { w * h * 64 }

  /**
   * Offset of the top-left sample of block `i` of a row: on line
   * `y = (i / w) * 8` and at column `x = (i % w) * 8` of the row.
   */
  function BlockOrigin(w: nat, i: nat): (o: nat)
    requires w > 0
    ensures o / LineStride(w) == (i / w) * 8 && o % LineStride(w) == (i % w) * 8
  {
    ColumnInLine(w, i, 0);
    DivModUnique((i / w) * 8 * LineStride(w) + (i % w) * 8, LineStride(w), (i / w) * 8, (i % w) * 8);
    (i / w) * 8 * LineStride(w) + (i % w) * 8
  }

  /** Offset `e` from the top-left of a block is one of its 64 samples. */
  predicate InBlock(e: int, stride: nat)
    requires stride > 0
  {
    0 <= e && e / stride < 8 && e % stride < 8
  }

  /** Raster index (row * 8 + column) of the sample at offset `e` in a block. */
  function SampleInBlock(e: nat, stride: nat): nat
    requires stride > 0
  {
    (e / stride) * 8 + e % stride
  }

  /**
   * Offset, from the top-left of a block, of the sample with raster index
   * `k`; each of the 64 samples lies within the block's 8 rows.
   */
  function SampleOffset(k: nat, stride: nat): (e: nat)
    ensures k < 64 ==> e <= 7 * stride + 7
  {
    var e := (k / 8) * stride + k % 8;
    if k < 64 then MulMonotone(k / 8, 7, stride); e else e
  }

  /** The block of the row that owns the byte at offset `d`. */
  function BlockOf(w: nat, vsf: nat, d: nat): (i: nat)
    requires w > 0 && d < RowLength(w, vsf)
    ensures i < w * vsf
  {
    var line, column := d / LineStride(w), d % LineStride(w);
    LineBound(w, vsf, d);
    DivBound(line, 8, vsf);
    DivBound(column, 8, w);
    BlockIndexBound(w, vsf, line / 8, column / 8);
    (line / 8) * w + column / 8
  }

  /** Raster index, inside its block, of the byte at offset `d` of the row. */
  function SampleOf(w: nat, d: nat): (k: nat)
    requires w > 0
    ensures k < 64
  {
    var line, column := d / LineStride(w), d % LineStride(w);
    (line % 8) * 8 + column % 8
  }

  // ---------------------------------------------------------------------
  // Arithmetic helpers

  lemma MulStrictCancel(a: int, b: int, s: int)
    requires s > 0 && a * s < b * s
    ensures a < b
  {
  }

  lemma MulMonotone(a: int, b: int, s: int)
    requires s >= 0 && a <= b
    ensures a * s <= b * s
  {
  }

  lemma DivModUnique(n: int, m: int, q: int, r: int)
    requires m > 0 && 0 <= r < m && n == q * m + r
    ensures n / m == q && n % m == r
  {
    var q', r' := n / m, n % m;
    assert (q' - q) * m == r - r';
    MulStrictCancel(q' - q, 1, m);
    MulStrictCancel(-1, q' - q, m);
  }

  lemma DivMod(n: nat, m: int)
    requires m > 0
    ensures n == (n / m) * m + n % m && 0 <= n % m < m
    ensures 0 <= n / m && (n / m) * m <= n
  {
    assert (n / m) * m > -m;
    MulStrictCancel(-1, n / m, m);
  }

  lemma DivBound(n: nat, m: int, b: int)
    requires m > 0 && n < b * m
    ensures 0 <= n / m < b
  {
    DivMod(n, m);
    MulStrictCancel(n / m, b, m);
  }

  lemma LineBound(w: nat, vsf: nat, d: nat)
    requires w > 0 && d < RowLength(w, vsf)
    ensures 0 <= d / LineStride(w) < 8 * vsf
  {
    assert RowLength(w, vsf) == (8 * vsf) * LineStride(w);
    DivBound(d, LineStride(w), 8 * vsf);
  }

  lemma BlockIndexBound(w: nat, vsf: nat, a: nat, b: nat)
    requires a < vsf && b < w
    ensures a * w + b < w * vsf
  {
    MulMonotone(a, vsf - 1, w);
  }

  lemma ColumnInLine(w: nat, i: nat, c: nat)
    requires w > 0 && c < 8
    ensures (i % w) * 8 + c < LineStride(w)
  {
    MulMonotone(i % w, w - 1, 8);
  }

  // ---------------------------------------------------------------------
  // The properties of the placement

  /**
   * One MCU row is a whole number of plane lines: `w * vsf` blocks of 64
   * bytes are exactly `vsf * 8` lines of `LineStride(w)` bytes.
   */
  lemma RowIsWholeLines(w: nat, vsf: nat)
    ensures RowLength(w, vsf) == (vsf * 8) * LineStride(w)
  {
  }

  /** After `k` rows the cursor `k * RowLength` is the start of line `k * vsf * 8`. */
  lemma CursorOnLineBoundary(w: nat, vsf: nat, k: nat)
    ensures k * RowLength(w, vsf) == (k * vsf * 8) * LineStride(w)
  {
    RowIsWholeLines(w, vsf);
    assert k * RowLength(w, vsf) == k * ((vsf * 8) * LineStride(w));
  }

  /** When `h == k * vsf`, `k` rows fill a `w` by `h` plane exactly. */
  lemma RowsFillPlane(w: nat, h: nat, vsf: nat, k: nat)
    requires k * vsf == h
    ensures k * RowLength(w, vsf) == PlaneSize(w, h)
  {
    calc {
      k * RowLength(w, vsf);
      k * (w * vsf * 64);
      w * (k * vsf) * 64;
      PlaneSize(w, h);
    }
  }

  /** Sample `(r, c)` of block `i` is at line `(i / w) * 8 + r`, column `(i % w) * 8 + c` of the row. */
  lemma BlockSampleLineColumn(w: nat, i: nat, r: nat, c: nat)
    requires w > 0 && r < 8 && c < 8
    ensures var d := BlockOrigin(w, i) + r * LineStride(w) + c;
      && d / LineStride(w) == (i / w) * 8 + r
      && d % LineStride(w) == (i % w) * 8 + c
  {
    var s := LineStride(w);
    var line, column := (i / w) * 8 + r, (i % w) * 8 + c;
    assert BlockOrigin(w, i) + r * s + c == line * s + column;
    ColumnInLine(w, i, c);
    DivModUnique(BlockOrigin(w, i) + r * s + c, s, line, column);
  }

  /** Sample `(r, c)` of block `i` lies inside the row. */
  lemma BlockSampleInRow(w: nat, vsf: nat, i: nat, r: nat, c: nat)
    requires w > 0 && i < w * vsf && r < 8 && c < 8
    ensures BlockOrigin(w, i) + r * LineStride(w) + c < RowLength(w, vsf)
  {
    var s := LineStride(w);
    var d := BlockOrigin(w, i) + r * s + c;
    var line := (i / w) * 8 + r;
    BlockSampleLineColumn(w, i, r, c);
    DivMod(i, w);
    assert (i / w) * w <= i < vsf * w;
    MulStrictCancel(i / w, vsf, w);
    DivMod(d, s);
    assert d < (line + 1) * s;
    assert RowLength(w, vsf) == (8 * vsf) * s;
    MulMonotone(line + 1, 8 * vsf, s);
  }

  /**
   * Sample `(r, c)` of block `i` lies inside the row, and the row's
   * decomposition of that byte gives back block `i` and raster index
   * `r * 8 + c`.
   */
  lemma BlockSample(w: nat, vsf: nat, i: nat, r: nat, c: nat)
    requires w > 0 && i < w * vsf && r < 8 && c < 8
    ensures BlockOrigin(w, i) + r * LineStride(w) + c < RowLength(w, vsf)
    ensures BlockOf(w, vsf, BlockOrigin(w, i) + r * LineStride(w) + c) == i
    ensures SampleOf(w, BlockOrigin(w, i) + r * LineStride(w) + c) == r * 8 + c
  {
    BlockSampleInRow(w, vsf, i, r, c);
    BlockSampleLineColumn(w, i, r, c);
    DivModUnique((i / w) * 8 + r, 8, i / w, r);
    DivModUnique((i % w) * 8 + c, 8, i % w, c);
    DivMod(i, w);
  }

  /** Every byte of the row belongs to a block: it sits at that block's sample `SampleOf`. */
  lemma RowCoversBand(w: nat, vsf: nat, d: nat)
    requires w > 0 && d < RowLength(w, vsf)
    ensures BlockOrigin(w, BlockOf(w, vsf, d)) + SampleOffset(SampleOf(w, d), LineStride(w)) == d
  {
    var s := LineStride(w);
    var line, column := d / s, d % s;
    var i, k := BlockOf(w, vsf, d), SampleOf(w, d);
    DivBound(column, 8, w);
    DivModUnique(i, w, line / 8, column / 8);
    DivModUnique(k, 8, line % 8, column % 8);
    assert BlockOrigin(w, i) == (line / 8) * 8 * s + (column / 8) * 8;
    assert SampleOffset(k, s) == (line % 8) * s + column % 8;
    calc {
      BlockOrigin(w, i) + SampleOffset(k, s);
      ((line / 8) * 8 + line % 8) * s + ((column / 8) * 8 + column % 8);
      line * s + column;
      d;
    }
  }

  /**
   * Distinct samples of a row, whether of two blocks `i != j` or of one
   * block, are written to distinct bytes.
   */
  lemma BlockWritesDisjoint(w: nat, vsf: nat, i: nat, r: nat, c: nat, j: nat, r': nat, c': nat)
    requires w > 0 && i < w * vsf && r < 8 && c < 8
    requires j < w * vsf && r' < 8 && c' < 8
    requires i != j || r != r' || c != c'
    ensures BlockOrigin(w, i) + r * LineStride(w) + c != BlockOrigin(w, j) + r' * LineStride(w) + c'
  {
    BlockSample(w, vsf, i, r, c);
    BlockSample(w, vsf, j, r', c');
    if r * 8 + c == r' * 8 + c' {
      DivModUnique(r * 8 + c, 8, r', c');
    }
  }

  /**
   * The bytes a block writes, seen from the row: offset `d` is a sample of
   * block `i` exactly when the row assigns `d` to block `i`, and then the
   * block's own raster index of `d` is the row's.
   */
  lemma InBlockIffBlockOf(w: nat, vsf: nat, i: nat, d: nat)
    requires w > 0 && i < w * vsf
    ensures InBlock(d - BlockOrigin(w, i), LineStride(w))
        <==> d < RowLength(w, vsf) && BlockOf(w, vsf, d) == i
    ensures InBlock(d - BlockOrigin(w, i), LineStride(w))
        ==> SampleInBlock(d - BlockOrigin(w, i), LineStride(w)) == SampleOf(w, d)
  {
    var s := LineStride(w);
    var o := BlockOrigin(w, i);
    if InBlock(d - o, s) {
      var e := d - o;
      var r, c := e / s, e % s;
      assert d == o + r * s + c;
      BlockSample(w, vsf, i, r, c);
    }
    if d < RowLength(w, vsf) && BlockOf(w, vsf, d) == i {
      var k := SampleOf(w, d);
      RowCoversBand(w, vsf, d);
      var e := SampleOffset(k, s);
      assert d - o == e;
      DivModUnique(e, s, k / 8, k % 8);
    }
  }
}
