/**
 * The stub frame renderer of `src/renderer.rs`: `SplatRenderer` keeps the
 * render size, and its `draw` paints every complete 4-byte RGBA pixel of
 * the frame buffer with one fixed colour.
 */
module Renderer {
  import opened Bytes

  /** The RGBA colour `draw` writes into every pixel. */
  const PixelColour: seq<Byte> := [133, 255, 211, 255]

  /**
   * The frame after `draw`: `chunks_exact_mut(4)` visits every complete
   * 4-byte pixel and each is overwritten with `PixelColour`; the fewer than
   * four bytes left over at the end are not visited.
   */
  function FillPixels(frame: seq<Byte>): (r: seq<Byte>)
    ensures |r| == |frame|
    decreases |frame|
  {
    if |frame| < 4 then frame else PixelColour + FillPixels(frame[4..])
  }

  /** Byte `j` after filling: the pixel colour inside the complete pixels, the old byte after them. */
  lemma {:induction false} FillPixelsAt(frame: seq<Byte>, j: nat)
    requires j < |frame|
    ensures FillPixels(frame)[j] == if j < |frame| - |frame| % 4 then PixelColour[j % 4] else frame[j]
    decreases |frame|
  {
    if |frame| >= 4 && j >= 4 {
      FillPixelsAt(frame[4..], j - 4);
    }
  }

  /** Where byte `b` of pixel `k` lies: inside the complete pixels, at offset `b` of its pixel. */
  lemma PixelOffset(n: nat, k: nat, b: nat)
    requires k < n / 4 && b < 4
    ensures 4 * k + b < n - n % 4 && (4 * k + b) % 4 == b
  {
  }

  /** Pixel `k` of a filled frame holds the colour. */
  lemma FillPixelsPixel(frame: seq<Byte>, k: nat)
    requires k < |frame| / 4
    ensures 4 * k + 4 <= |frame|
    ensures FillPixels(frame)[4 * k..4 * k + 4] == PixelColour
  {
    forall b | 0 <= b < 4
      ensures FillPixels(frame)[4 * k + b] == PixelColour[b]
    {
      PixelOffset(|frame|, k, b);
      FillPixelsAt(frame, 4 * k + b);
    }
  }

  /** Every complete pixel `k` holds the colour and the trailing `|frame| % 4` bytes are unchanged. */
  lemma FillPixelsPixels(frame: seq<Byte>)
    ensures forall k | 0 <= k < |frame| / 4 :: 4 * k + 4 <= |frame| && FillPixels(frame)[4 * k..4 * k + 4] == PixelColour
    ensures FillPixels(frame)[|frame| - |frame| % 4..] == frame[|frame| - |frame| % 4..]
  {
    forall k | 0 <= k < |frame| / 4
      ensures 4 * k + 4 <= |frame| && FillPixels(frame)[4 * k..4 * k + 4] == PixelColour
    {
      FillPixelsPixel(frame, k);
    }
    var tail := |frame| - |frame| % 4;
    forall j | tail <= j < |frame|
      ensures FillPixels(frame)[j] == frame[j]
    {
      FillPixelsAt(frame, j);
    }
  }

  /**
   * The result does not depend on what the complete pixels held before:
   * two frames of one length with the same trailing bytes fill alike.
   */
  lemma FillPixelsIgnoresContents(a: seq<Byte>, b: seq<Byte>)
    requires |a| == |b|
    requires a[|a| - |a| % 4..] == b[|b| - |b| % 4..]
    ensures FillPixels(a) == FillPixels(b)
  {
    var tail := |a| - |a| % 4;
    forall j | 0 <= j < |a|
      ensures FillPixels(a)[j] == FillPixels(b)[j]
    {
      FillPixelsAt(a, j);
      FillPixelsAt(b, j);
      if j >= tail {
        assert a[j] == a[tail..][j - tail] == b[tail..][j - tail] == b[j];
      }
    }
  }

  /** Drawing twice gives the frame drawing once gives. */
  lemma FillPixelsIdempotent(frame: seq<Byte>)
    ensures FillPixels(FillPixels(frame)) == FillPixels(frame)
  {
    var r := FillPixels(frame);
    FillPixelsPixels(frame);
    FillPixelsIgnoresContents(r, frame);
  }

  /** `SplatRenderer`: the size it renders at, two `u32` values. */
  class SplatRenderer {
    var renderWidth: Word32
    var renderHeight: Word32

    /** `SplatRenderer::new`: stores the size unchanged. */
    constructor (renderWidth: Word32, renderHeight: Word32)
      ensures this.renderWidth == renderWidth && this.renderHeight == renderHeight
    {
      this.renderWidth := renderWidth;
      this.renderHeight := renderHeight;
    }

    /**
     * `PixelSurfaceRenderer::draw`: overwrites the caller's frame in place.
     * It takes `&self`, so the renderer is left as it is, and the result
     * depends neither on the render size nor on the earlier pixels.
     */
    method Draw(frame: array<Byte>)
      modifies frame
      ensures frame[..] == FillPixels(old(frame[..]))
      ensures unchanged(this)
    {
      var pixelCount := frame.Length / 4;
      for pixelIndex := 0 to pixelCount
        invariant forall j | 0 <= j < 4 * pixelIndex :: frame[j] == PixelColour[j % 4]
        invariant forall j | 4 * pixelIndex <= j < frame.Length :: frame[j] == old(frame[j])
      {
        var start := 4 * pixelIndex;
        frame[start] := PixelColour[0];
        frame[start + 1] := PixelColour[1];
        frame[start + 2] := PixelColour[2];
        frame[start + 3] := PixelColour[3];
      }
      ghost var before := old(frame[..]);
      forall j | 0 <= j < frame.Length
        ensures frame[..][j] == FillPixels(before)[j]
      {
        FillPixelsAt(before, j);
      }
    }
  }
}
