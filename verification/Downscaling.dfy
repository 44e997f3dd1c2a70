/** The box filter as the session's downscaling step. */
module Downscaling {
  import opened Bytes
  import opened BoxFilter
  import opened Pipeline
  import opened Server

  function BoxScale(srcW: u32, srcH: u32, stride: u32, dstW: u32, dstH: u32): seq<byte> -> seq<byte>
    requires 0 < srcW && 0 < srcH && 4 * srcW <= stride
  {
    (data: seq<byte>) =>
      if |data| == stride * srcH then Image(Job(data, srcW, srcH, stride, dstW, dstH)) else []
  }

  /** What a session's box filter makes of a captured frame, byte by byte. */
  lemma BoxScaleShrinks(srcW: u32, srcH: u32, stride: u32, dstW: u32, dstH: u32, data: seq<byte>,
                        dx: nat, dy: nat, ch: nat, at: nat)
    requires 0 < srcW && 0 < srcH && 4 * srcW <= stride && |data| == stride * srcH
    requires dx < dstW && dy < dstH && (dstW < srcW || dstH < srcH) && ch < 4
    requires at == dy * (4 * dstW) + 4 * dx + ch
    ensures var j := Job(data, srcW, srcH, stride, dstW, dstH);
            && j.Readable() && Inside(j, BlockOf(j, dx, dy)) && at < |BoxScale(srcW, srcH, stride, dstW, dstH)(data)|
            && BoxScale(srcW, srcH, stride, dstW, dstH)(data)[at] as nat == CodeMean(j, BlockOf(j, dx, dy), ch)
  {
    hide Image, Inside, BlockOf, CodeMean;
    ImageIsCodeMean(Job(data, srcW, srcH, stride, dstW, dstH), dx, dy, ch, at);
  }

  /** A session that downscales with the box filter is a valid session. */
  lemma BoxSession(codec: Codec, srcW: u32, srcH: u32, stride: u32, dstW: u32, dstH: u32, threads: nat)
    requires 0 < srcW && 0 < srcH && 4 * srcW <= stride && 4 * dstW < 0x1_0000_0000 && 4 * dstW * dstH < 0x1_0000_0000
    requires Lossless(codec) && BlobsFit(codec, 4 * dstW * dstH)
    ensures var scale := BoxScale(srcW, srcH, stride, dstW, dstH);
            ValidConfig(Config(codec, dstW, dstH, 4 * dstW, stride * srcH, Some(scale), threads))
  {
    hide Image;
    var scale := BoxScale(srcW, srcH, stride, dstW, dstH);
    forall x: seq<byte> | |x| == stride * srcH ensures |scale(x)| == 4 * dstW * dstH {
      ImageLength(Job(x, srcW, srcH, stride, dstW, dstH));
      assert dstH * (4 * dstW) == 4 * dstW * dstH;
    }
  }
}
