/**
 * The sample-reconstruction worker: one slot per colour component, each
 * with a write cursor, an output plane, a component descriptor and a
 * quantization table. `Start` opens a session on a slot, `AppendRow`
 * transforms one MCU row of coefficients into the plane, and `GetResult`
 * hands the plane to the caller and leaves the slot's buffer empty.
 *
 * The source aborts on a violated `assert!`, a failed `unwrap` or an
 * out-of-range index; here each of those conditions is reported as an
 * `Error` and leaves the worker unchanged.
 */
module Worker {
  import opened Layout
  import opened Idct

  /** Number of slots; its value belongs to the decoder and only its positivity matters here. */
  const MaxComponents: nat := 4

  datatype Option<T> = None | Some(value: T)

  /** The part of a frame component the worker uses: its size in blocks and its vertical sampling factor. */
  datatype Component = Component(blockWidth: nat, blockHeight: nat, verticalSamplingFactor: nat)

  /** A quantization table: 64 unsigned 16-bit entries, never mutated. */
  type QuantizationTable = t: seq<u16> | |t| == 64 witness seq(64, _ => 0)

  /** What `start` receives: the slot index, the descriptor and the table. */
  datatype RowData = RowData(index: nat, component: Component, quantizationTable: QuantizationTable)

  datatype Error =
    | InvalidIndex       // the slot index is not below MaxComponents
    | SlotBusy           // start on a slot whose buffer has not been drained
    | NotStarted         // append_row on a slot without descriptor or table
    | RowLengthMismatch  // the row does not hold exactly block_count * 64 coefficients
    | PlaneOverrun       // the row would be written past the end of the plane

  datatype Outcome = Pass | Fail(error: Error)

  datatype Result<T> = Ok(value: T) | Err(error: Error)

  /**
   * Blocks in one MCU row of component `c`. Their 64 bytes each make up
   * exactly `vsf * 8` plane lines of `LineStride(width)` bytes.
   */
  function BlockCount(c: Component): (n: nat)
    ensures n * 64 == ComponentRowLength(c)
    ensures n * 64 == (c.verticalSamplingFactor * 8) * LineStride(c.blockWidth)
  {
    RowIsWholeLines(c.blockWidth, c.verticalSamplingFactor);
    c.blockWidth * c.verticalSamplingFactor
  }

  /** Coefficients (and plane bytes) in one MCU row of component `c`. */
  function ComponentRowLength(c: Component): nat { RowLength(c.blockWidth, c.verticalSamplingFactor) }

  /** Bytes in the whole plane of component `c`. */
  function ComponentPlaneSize(c: Component): nat { PlaneSize(c.blockWidth, c.blockHeight) }

  /** The 64 coefficients of block `i` of a row. */
  function RowCoefficients(data: seq<i16>, c: Component, i: nat): (block: seq<i16>)
    requires |data| == ComponentRowLength(c) && i < BlockCount(c)
    ensures |block| == 64
  {
    MulMonotone(i + 1, BlockCount(c), 64);
    data[i * 64 .. (i + 1) * 64]
  }

  /**
   * The plane after one MCU row of component `c` has been stored at
   * `cursor`: each byte of `[cursor, cursor + |data|)` holds the sample its
   * block and raster index call for, every other byte is as it was.
   */
  function RowStored(plane: seq<byte>, cursor: nat, c: Component, data: seq<i16>,
                     table: seq<u16>, idct: SampleFn): (r: seq<byte>)
    requires |data| == ComponentRowLength(c)
    ensures |r| == |plane|
    ensures forall p :: 0 <= p < |plane| && cursor <= p < cursor + |data| ==>
      var w, vsf := c.blockWidth, c.verticalSamplingFactor;
      && w > 0
      && r[p] == idct(RowCoefficients(data, c, BlockOf(w, vsf, p - cursor)), table, SampleOf(w, p - cursor))
    ensures forall p :: 0 <= p < |plane| && !(cursor <= p < cursor + |data|) ==> r[p] == plane[p]
  {
    var w, vsf := c.blockWidth, c.verticalSamplingFactor;
    seq(|plane|, p requires 0 <= p < |plane| =>
      if cursor <= p < cursor + |data|
      then idct(RowCoefficients(data, c, BlockOf(w, vsf, p - cursor)), table, SampleOf(w, p - cursor))
      else plane[p])
  }

  /** `RowStored` restricted to the blocks below `n`: the state after `n` iterations of the row's loop. */
  function RowPrefixStored(plane: seq<byte>, cursor: nat, c: Component, data: seq<i16>,
                           table: seq<u16>, idct: SampleFn, n: nat): seq<byte>
    requires |data| == ComponentRowLength(c)
  {
    var w, vsf := c.blockWidth, c.verticalSamplingFactor;
    seq(|plane|, p requires 0 <= p < |plane| =>
      if cursor <= p < cursor + |data| && BlockOf(w, vsf, p - cursor) < n
      then idct(RowCoefficients(data, c, BlockOf(w, vsf, p - cursor)), table, SampleOf(w, p - cursor))
      else plane[p])
  }

  /** No block stored leaves the plane as it was; all of them give `RowStored`. */
  lemma RowPrefixEnds(plane: seq<byte>, cursor: nat, c: Component, data: seq<i16>,
                      table: seq<u16>, idct: SampleFn)
    requires |data| == ComponentRowLength(c)
    ensures RowPrefixStored(plane, cursor, c, data, table, idct, 0) == plane
    ensures RowPrefixStored(plane, cursor, c, data, table, idct, BlockCount(c))
         == RowStored(plane, cursor, c, data, table, idct)
  {
    var none := RowPrefixStored(plane, cursor, c, data, table, idct, 0);
    var all := RowPrefixStored(plane, cursor, c, data, table, idct, BlockCount(c));
    var row := RowStored(plane, cursor, c, data, table, idct);
    forall p | 0 <= p < |plane|
      ensures none[p] == plane[p] && all[p] == row[p]
    {
      if cursor <= p < cursor + |data| {
        var d: nat := p - cursor;
        assert BlockOf(c.blockWidth, c.verticalSamplingFactor, d) < BlockCount(c);
      }
    }
  }

  /**
   * Storing block `i` on top of the first `i` blocks gives the first
   * `i + 1`: the bytes the transform writes for block `i` are exactly the
   * bytes of the row that belong to block `i`.
   */
  lemma StoreBlockStep(plane: seq<byte>, cursor: nat, c: Component, data: seq<i16>,
                       table: seq<u16>, idct: SampleFn, i: nat)
    requires |data| == ComponentRowLength(c) && i < BlockCount(c)
    ensures c.blockWidth > 0
    ensures BlockStored(RowPrefixStored(plane, cursor, c, data, table, idct, i),
                        cursor + BlockOrigin(c.blockWidth, i), LineStride(c.blockWidth),
                        RowCoefficients(data, c, i), table, idct)
         == RowPrefixStored(plane, cursor, c, data, table, idct, i + 1)
  {
    var w, vsf := c.blockWidth, c.verticalSamplingFactor;
    var prev := RowPrefixStored(plane, cursor, c, data, table, idct, i);
    var next := BlockStored(prev, cursor + BlockOrigin(w, i), LineStride(w), RowCoefficients(data, c, i), table, idct);
    var want := RowPrefixStored(plane, cursor, c, data, table, idct, i + 1);
    forall p | 0 <= p < |plane|
      ensures next[p] == want[p]
    {
      var start := cursor + BlockOrigin(w, i);
      if cursor <= p {
        var d: nat := p - cursor;
        assert p - start == d - BlockOrigin(w, i);
        InBlockIffBlockOf(w, vsf, i, d);
      } else {
        assert !InBlock(p - start, LineStride(w));
      }
    }
  }

  /**
   * The block loop of `append_row`: transform each of the row's
   * `BlockCount(c)` blocks into `plane`, block `i` from
   * `cursor + y * lineStride + x`.
   */
  method StoreRow(plane: array<byte>, cursor: nat, c: Component, data: seq<i16>,
                  table: seq<u16>, idct: SampleFn)
    requires |data| == ComponentRowLength(c) && |table| == 64
    requires |data| == 0 || cursor + |data| <= plane.Length
    modifies plane
    ensures plane[..] == RowStored(old(plane[..]), cursor, c, data, table, idct)
  {
    var w, vsf := c.blockWidth, c.verticalSamplingFactor;
    var blockCount := w * vsf;
    var lineStride := w * 8;
    ghost var before := plane[..];
    RowPrefixEnds(before, cursor, c, data, table, idct);
    for i := 0 to blockCount
      invariant plane[..] == RowPrefixStored(before, cursor, c, data, table, idct, i)
    {
      var x := (i % w) * 8;
      var y := (i / w) * 8;
      assert y * lineStride + x == BlockOrigin(w, i);
      BlockSample(w, vsf, i, 7, 7);
      DequantizeAndIdctBlock(RowCoefficients(data, c, i), table, lineStride,
                             plane, cursor + y * lineStride + x, idct);
      StoreBlockStep(before, cursor, c, data, table, idct, i);
    }
  }

  /**
   * In the stored row, sample `(r, col)` of block `i` sits at
   * `cursor + BlockOrigin(w, i) + r * lineStride + col` and is the sample
   * with raster index `r * 8 + col` of that block's coefficients
   * `data[i * 64 .. (i + 1) * 64]`.
   */
  lemma RowStoredBlockSample(plane: seq<byte>, cursor: nat, c: Component, data: seq<i16>,
                             table: seq<u16>, idct: SampleFn, i: nat, r: nat, col: nat)
    requires |data| == ComponentRowLength(c) && i < BlockCount(c) && r < 8 && col < 8
    requires cursor + |data| <= |plane|
    ensures c.blockWidth > 0
    ensures var p := cursor + BlockOrigin(c.blockWidth, i) + r * LineStride(c.blockWidth) + col;
      && cursor <= p < cursor + |data|
      && RowStored(plane, cursor, c, data, table, idct)[p]
         == idct(data[i * 64 .. (i + 1) * 64], table, r * 8 + col)
  {
    var w, vsf := c.blockWidth, c.verticalSamplingFactor;
    BlockSample(w, vsf, i, r, col);
    var d := BlockOrigin(w, i) + r * LineStride(w) + col;
    var p := cursor + d;
    assert p - cursor == d;
    assert BlockOf(w, vsf, d) == i && SampleOf(w, d) == r * 8 + col;
    assert RowStored(plane, cursor, c, data, table, idct)[p]
        == idct(RowCoefficients(data, c, i), table, r * 8 + col);
  }

  /** The coefficients of a block whose DC and AC terms are all zero. */
  function ZeroBlock(): (z: seq<i16>)
    ensures |z| == 64
  {
    seq(64, _ => 0)
  }

  /**
   * A row of zero coefficients stores, at every byte of its band, the
   * value `v` the transform gives a zero block: the row becomes flat.
   */
  lemma ZeroRowIsFlat(plane: seq<byte>, cursor: nat, c: Component, table: seq<u16>,
                      idct: SampleFn, v: byte, p: nat)
    requires forall k :: 0 <= k < 64 ==> idct(ZeroBlock(), table, k) == v
    requires cursor <= p < cursor + ComponentRowLength(c) && p < |plane|
    ensures RowStored(plane, cursor, c, seq(ComponentRowLength(c), _ => 0), table, idct)[p] == v
  {
    var zeros: seq<i16> := seq(ComponentRowLength(c), _ => 0);
    var d: nat := p - cursor;
    var i := BlockOf(c.blockWidth, c.verticalSamplingFactor, d);
    assert RowCoefficients(zeros, c, i) == ZeroBlock();
    assert RowStored(plane, cursor, c, zeros, table, idct)[p]
        == idct(RowCoefficients(zeros, c, i), table, SampleOf(c.blockWidth, d));
  }

  /** The plane `start` allocates: `ComponentPlaneSize(c)` zero bytes. */
  function ZeroPlane(c: Component): seq<byte>
  {
    seq(ComponentPlaneSize(c), _ => 0)
  }

  class Worker {
    var offsets: array<nat>
    var results: seq<array<byte>>
    var components: seq<Option<Component>>
    var quantizationTables: seq<Option<QuantizationTable>>
    /** Rows appended to each slot since its last `Start`. */
    ghost var rowsAppended: seq<nat>

    ghost predicate Valid()
      reads this, offsets
    {
      && offsets.Length == MaxComponents
      && |results| == MaxComponents
      && |components| == MaxComponents
      && |quantizationTables| == MaxComponents
      && |rowsAppended| == MaxComponents
      && (forall i, j :: 0 <= i < j < MaxComponents ==> results[i] != results[j])
      && (forall i :: 0 <= i < MaxComponents ==> (components[i].Some? <==> quantizationTables[i].Some?))
      && (forall i :: 0 <= i < MaxComponents && components[i].Some? ==>
            offsets[i] == rowsAppended[i] * ComponentRowLength(components[i].value))
      && (forall i :: 0 <= i < MaxComponents && results[i].Length != 0 ==> offsets[i] <= results[i].Length)
    }

    /** Every slot with cursor 0, an empty buffer, no component and no table. */
    constructor ()
      ensures Valid() && fresh(offsets)
      ensures offsets[..] == seq(MaxComponents, _ => 0)
      ensures forall i :: 0 <= i < MaxComponents ==> fresh(results[i]) && results[i].Length == 0
      ensures components == seq(MaxComponents, _ => None)
      ensures quantizationTables == seq(MaxComponents, _ => None)
      ensures rowsAppended == seq(MaxComponents, _ => 0)
    {
      var planes: seq<array<byte>> := [];
      while |planes| < MaxComponents
        invariant |planes| <= MaxComponents
        invariant forall i :: 0 <= i < |planes| ==> fresh(planes[i]) && planes[i].Length == 0
        invariant forall i, j :: 0 <= i < j < |planes| ==> planes[i] != planes[j]
      {
        var empty := new byte[0];
        planes := planes + [empty];
      }
      offsets := new nat[MaxComponents](_ => 0);
      results := planes;
      components := seq(MaxComponents, _ => None);
      quantizationTables := seq(MaxComponents, _ => None);
      rowsAppended := seq(MaxComponents, _ => 0);
    }

    /**
     * Open a session on slot `data.index`: the slot's buffer must be empty;
     * it becomes a zero plane of the component's size, the cursor is reset
     * and the descriptor and table are stored. Other slots are untouched.
     */
    method Start(data: RowData) returns (r: Outcome)
      requires Valid()
      modifies this, offsets
      ensures Valid() && offsets == old(offsets)
      ensures r == if data.index >= MaxComponents then Fail(InvalidIndex)
                   else if old(results[data.index]).Length != 0 then Fail(SlotBusy)
                   else Pass
      ensures r.Fail? ==>
        && results == old(results) && offsets[..] == old(offsets[..])
        && components == old(components) && quantizationTables == old(quantizationTables)
        && rowsAppended == old(rowsAppended)
      ensures r == Pass ==>
        var i := data.index;
        && fresh(results[i]) && results[i][..] == ZeroPlane(data.component)
        && results == old(results)[i := results[i]]
        && offsets[..] == old(offsets[..])[i := 0]
        && components == old(components)[i := Some(data.component)]
        && quantizationTables == old(quantizationTables)[i := Some(data.quantizationTable)]
        && rowsAppended == old(rowsAppended)[i := 0]
      ensures forall j :: 0 <= j < MaxComponents && j != data.index ==> results[j][..] == old(results[j][..])
    {
      var i := data.index;
      if i >= MaxComponents {
        return Fail(InvalidIndex);
      }
      if results[i].Length != 0 {
        return Fail(SlotBusy);
      }
      offsets[i] := 0;
      var plane := new byte[ComponentPlaneSize(data.component)](_ => 0);
      results := results[i := plane];
      components := components[i := Some(data.component)];
      quantizationTables := quantizationTables[i := Some(data.quantizationTable)];
      rowsAppended := rowsAppended[i := 0];
      r := Pass;
    }

    /**
     * Transform one MCU row of coefficients into slot `index`'s plane.
     * Block `i` of the row is stored from `cursor + y * lineStride + x`,
     * with `x = (i % w) * 8`, `y = (i / w) * 8` and `lineStride = w * 8`;
     * the cursor then advances by the row's length.
     */
    method AppendRow(index: nat, data: seq<i16>, idct: SampleFn) returns (r: Outcome)
      requires Valid()
      modifies this, offsets, if index < |results| then {results[index]} else {}
      ensures Valid() && offsets == old(offsets)
      ensures results == old(results) && components == old(components)
      ensures quantizationTables == old(quantizationTables)
      ensures index >= MaxComponents ==> r == Fail(InvalidIndex)
      ensures index < MaxComponents ==>
        r == if components[index].None? || quantizationTables[index].None? then Fail(NotStarted)
             else if |data| != ComponentRowLength(components[index].value) then Fail(RowLengthMismatch)
             else if |data| > 0 && old(offsets[index]) + |data| > results[index].Length then Fail(PlaneOverrun)
             else Pass
      ensures r.Fail? ==>
        && offsets[..] == old(offsets[..]) && rowsAppended == old(rowsAppended)
        && (index < MaxComponents ==> results[index][..] == old(results[index][..]))
      ensures r == Pass ==>
        && offsets[..] == old(offsets[..])[index := old(offsets[index]) + |data|]
        && rowsAppended == old(rowsAppended)[index := old(rowsAppended[index]) + 1]
        && results[index][..] == RowStored(old(results[index][..]), old(offsets[index]),
                                           components[index].value, data,
                                           quantizationTables[index].value, idct)
      ensures r == Pass ==>
        forall p :: 0 <= p < old(offsets[index]) && p < results[index].Length ==>
          results[index][p] == old(results[index][p])
      ensures forall j :: 0 <= j < MaxComponents && j != index ==> results[j][..] == old(results[j][..])
    {
      if index >= MaxComponents {
        return Fail(InvalidIndex);
      }
      if components[index].None? || quantizationTables[index].None? {
        return Fail(NotStarted);
      }
      var component := components[index].value;
      var table := quantizationTables[index].value;
      if |data| != component.blockWidth * component.verticalSamplingFactor * 64 {
        return Fail(RowLengthMismatch);
      }
      var plane := results[index];
      var cursor := offsets[index];
      if |data| > 0 && cursor + |data| > plane.Length {
        return Fail(PlaneOverrun);
      }
      StoreRow(plane, cursor, component, data, table, idct);
      assert (rowsAppended[index] + 1) * |data| == rowsAppended[index] * |data| + |data|;
      offsets[index] := cursor + |data|;
      rowsAppended := rowsAppended[index := rowsAppended[index] + 1];
      r := Pass;
    }

    /** Hand slot `index`'s buffer to the caller; the slot keeps an empty buffer. */
    method GetResult(index: nat) returns (r: Result<array<byte>>)
      requires Valid()
      modifies this
      ensures Valid() && offsets == old(offsets) && offsets[..] == old(offsets[..])
      ensures components == old(components) && quantizationTables == old(quantizationTables)
      ensures rowsAppended == old(rowsAppended)
      ensures index >= MaxComponents ==> r == Err(InvalidIndex) && results == old(results)
      ensures index < MaxComponents ==>
        && r == Ok(old(results[index]))
        && fresh(results[index]) && results[index].Length == 0
        && results == old(results)[index := results[index]]
    {
      if index >= MaxComponents {
        return Err(InvalidIndex);
      }
      r := Ok(results[index]);
      var empty := new byte[0];
      results := results[index := empty];
    }

    /** The cursor of a started slot is the first byte of plane line `rowsAppended * vsf * 8`. */
    lemma CursorOnLine(index: nat)
      requires Valid() && index < MaxComponents && components[index].Some?
      ensures var c := components[index].value;
        offsets[index] == (rowsAppended[index] * c.verticalSamplingFactor * 8) * LineStride(c.blockWidth)
    {
      var c := components[index].value;
      CursorOnLineBoundary(c.blockWidth, c.verticalSamplingFactor, rowsAppended[index]);
    }
  }
}
