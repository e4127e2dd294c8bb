/**
 * The sample types of the decoder and the interface of the inverse
 * transform primitive `dequantize_and_idct_block`.
 *
 * The primitive's arithmetic is not part of this model. What it computes is
 * a parameter, `SampleFn`: given a block's 64 coefficients and the
 * quantization table, the sample with raster index `k` (row `k / 8`,
 * column `k % 8`). What is modelled is where the primitive stores those
 * samples: 8 rows of 8 bytes, `stride` bytes apart, from `start` on, and
 * nothing else.
 */
module Idct {
  import opened Layout

  newtype byte = x: int | 0 <= x < 0x100
  newtype i16 = x: int | -0x8000 <= x < 0x8000
  newtype u16 = x: int | 0 <= x < 0x1_0000

  /** The `k`-th output sample of the transform of one block. */
  type SampleFn = (seq<i16>, seq<u16>, nat) -> byte

  /**
   * The samples of one block, laid into `out` from `start` with line stride
   * `stride`: sample `k` lands at `start + (k / 8) * stride + k % 8`, and
   * every byte outside those 64 keeps its value.
   */
  function BlockStored(out: seq<byte>, start: nat, stride: nat, coefficients: seq<i16>,
                       table: seq<u16>, idct: SampleFn): (r: seq<byte>)
    requires stride >= 8
    ensures |r| == |out|
    ensures forall p :: 0 <= p < |out| && !InBlock(p - start, stride) ==> r[p] == out[p]
    ensures start + 7 * stride + 8 <= |out| ==>
      forall k: nat | k < 64 :: r[start + SampleOffset(k, stride)] == idct(coefficients, table, k)
  {
    var r := seq(|out|, p requires 0 <= p < |out| =>
      if InBlock(p - start, stride)
      then idct(coefficients, table, SampleInBlock(p - start, stride))
      else out[p]);
    assert start + 7 * stride + 8 <= |out| ==> forall k: nat | k < 64 ::
      r[start + SampleOffset(k, stride)] == idct(coefficients, table, k)
    by {
      forall k: nat | start + 7 * stride + 8 <= |out| && k < 64
        ensures r[start + SampleOffset(k, stride)] == idct(coefficients, table, k)
      {
        SampleStoredAt(r, start, stride, coefficients, table, idct, k);
      }
    }
    r
  }

  /** The store of sample `k` sits inside the block, at raster index `k`. */
  lemma SampleOffsetInBlock(k: nat, stride: nat)
    requires k < 64 && stride >= 8
    ensures InBlock(SampleOffset(k, stride), stride)
    ensures SampleInBlock(SampleOffset(k, stride), stride) == k
  {
    DivModUnique(SampleOffset(k, stride), stride, k / 8, k % 8);
  }

  /**
   * If every byte of a block's footprint in `r` holds the sample of its
   * raster index, then sample `k` is found at its store `start + SampleOffset(k, stride)`.
   */
  lemma SampleStoredAt(r: seq<byte>, start: nat, stride: nat, coefficients: seq<i16>,
                       table: seq<u16>, idct: SampleFn, k: nat)
    requires stride >= 8 && start + 7 * stride + 8 <= |r| && k < 64
    requires forall p :: 0 <= p < |r| && InBlock(p - start, stride) ==>
      r[p] == idct(coefficients, table, SampleInBlock(p - start, stride))
    ensures start + SampleOffset(k, stride) < |r|
    ensures r[start + SampleOffset(k, stride)] == idct(coefficients, table, k)
  {
    SampleOffsetInBlock(k, stride);
    var p := start + SampleOffset(k, stride);
    assert p - start == SampleOffset(k, stride);
  }

  /** A byte of the block is the store of exactly its own raster index. */
  lemma InBlockIsSampleOffset(e: nat, stride: nat)
    requires stride >= 8 && InBlock(e, stride)
    ensures SampleInBlock(e, stride) < 64
    ensures SampleOffset(SampleInBlock(e, stride), stride) == e
  {
    var k := SampleInBlock(e, stride);
    DivModUnique(k, 8, e / stride, e % stride);
  }

  /**
   * Dequantize and inverse-transform one block of 64 coefficients, writing
   * the samples into `out` at rows `start + y * stride`, `0 <= y < 8`.
   */
  method DequantizeAndIdctBlock(coefficients: seq<i16>, table: seq<u16>, stride: nat,
                                out: array<byte>, start: nat, idct: SampleFn)
    requires |coefficients| == 64 && |table| == 64
    requires stride >= 8 && start + 7 * stride + 8 <= out.Length
    modifies out
    ensures out[..] == BlockStored(old(out[..]), start, stride, coefficients, table, idct)
  {
    ghost var before := out[..];
    for k := 0 to 64
      invariant forall p :: 0 <= p < out.Length ==>
        out[p] == if InBlock(p - start, stride) && SampleInBlock(p - start, stride) < k
                  then idct(coefficients, table, SampleInBlock(p - start, stride))
                  else before[p]
    {
      var q := start + SampleOffset(k, stride);
      SampleOffsetInBlock(k, stride);
      out[q] := idct(coefficients, table, k);
      forall p | 0 <= p < out.Length
        ensures out[p] == if InBlock(p - start, stride) && SampleInBlock(p - start, stride) < k + 1
                          then idct(coefficients, table, SampleInBlock(p - start, stride))
                          else before[p]
      {
        if p != q && InBlock(p - start, stride) {
          InBlockIsSampleOffset(p - start, stride);
        }
      }
    }
    assert out[..] == BlockStored(before, start, stride, coefficients, table, idct);
  }
}
