/** Stripping the fourth byte of every pixel, as all three requests do before extracting a feature. */
module Pixels {
  import opened Bytes

  /** The size of the output buffer for a decoded image of `byteCount` bytes. */
  function StrippedSize(byteCount: nat): nat
  {
    byteCount / 4 * 3
  }

  /** The source of output byte `j`: pixel `j / 3`, component `j % 3`. */
  function SourceOf(j: nat): (i: nat)
    ensures (i + 1) % 4 != 0
  {
    j + j / 3
  }

  /** How many of the first `i` input bytes are kept. */
  function Kept(i: nat): (k: nat)
    ensures k <= i
  {
    i - i / 4
  }

  /** The block after the loop, which starts with the contents `block` that malloc left there. */
  function Stripped(raw: seq<Byte>, block: seq<Byte>): (out: seq<Byte>)
    requires |block| == StrippedSize(|raw|)
    ensures |out| == |block|
  {
    seq(|block|, j requires 0 <= j < |block| => if j < Kept(|block|) then raw[SourceOf(j)] else block[j])
  }

  lemma KeptNext(i: nat)
    ensures Kept(i + 1) == if (i + 1) % 4 == 0 then Kept(i) else Kept(i) + 1
    ensures (i + 1) % 4 != 0 ==> SourceOf(Kept(i)) == i
  {
    assert i == 4 * (i / 4) + i % 4;
  }

  lemma IsStripped(raw: seq<Byte>, block: seq<Byte>, out: seq<Byte>)
    requires |out| == |block| == StrippedSize(|raw|)
    requires forall j :: 0 <= j < Kept(|block|) ==> SourceOf(j) < |raw| && out[j] == raw[SourceOf(j)]
    requires forall j :: Kept(|block|) <= j < |block| ==> out[j] == block[j]
    ensures out == Stripped(raw, block)
  {
  }

  lemma SourcesInBlock(size: nat)
    ensures forall j :: 0 <= j < Kept(size) ==> SourceOf(j) < size
  {
    forall j | 0 <= j < Kept(size) ensures SourceOf(j) < size {
      assert j == 3 * (j / 3) + j % 3 && size == 4 * (size / 4) + size % 4;
    }
  }

  /** The first `k` output bytes have been written. */
  predicate Copied(raw: seq<Byte>, out: seq<Byte>, k: nat)
  {
    k <= |out| && forall j :: 0 <= j < k ==> SourceOf(j) < |raw| && out[j] == raw[SourceOf(j)]
  }

  lemma CopyNext(raw: seq<Byte>, out: seq<Byte>, i: nat)
    requires i < |raw| && (i + 1) % 4 != 0 && Kept(i) < |out| && Copied(raw, out, Kept(i))
    ensures Copied(raw, out[Kept(i) := raw[i]], Kept(i) + 1)
  {
    KeptNext(i);
  }

  /** The loop runs over the size of the output, not of the input: it fills the first three quarters of
      the block and leaves the last quarter as it was. */
  method StripPixels(rawdata: array<Byte>, bmpdata: array<Byte>) returns (written: nat)
    requires rawdata != bmpdata && bmpdata.Length == rawdata.Length / 4 * 3
    modifies bmpdata
    ensures written == bmpdata.Length - bmpdata.Length / 4
    ensures forall j :: 0 <= j < written ==> SourceOf(j) < bmpdata.Length && bmpdata[j] == rawdata[SourceOf(j)]
    ensures forall j :: written <= j < bmpdata.Length ==> bmpdata[j] == old(bmpdata[j])
    ensures bmpdata[..] == Stripped(rawdata[..], old(bmpdata[..]))
  {
    var size := bmpdata.Length;
    ghost var raw, block := rawdata[..], bmpdata[..];
    written := 0;
    for i := 0 to size
      invariant written == Kept(i) && rawdata[..] == raw
      invariant Copied(raw, bmpdata[..], written)
      invariant forall j :: written <= j < size ==> bmpdata[j] == block[j]
    {
      KeptNext(i);
      if (i + 1) % 4 == 0 {
        continue;
      }
      CopyNext(raw, bmpdata[..], i);
      bmpdata[written] := rawdata[i];
      written := written + 1;
    }
    SourcesInBlock(size);
    IsStripped(raw, block, bmpdata[..]);
  }

  /** The kept input bytes are exactly the sources of the bytes written, each used once, in order. */
  lemma SourcesAreTheKeptBytes(i: nat)
    requires (i + 1) % 4 != 0
    ensures SourceOf(Kept(i)) == i
    ensures forall j :: SourceOf(j) == i ==> j == Kept(i)
  {
    assert i == 4 * (i / 4) + i % 4;
    forall j: nat | SourceOf(j) == i ensures j == Kept(i) {
      assert j == 3 * (j / 3) + j % 3;
    }
  }

  /** Pixel `p` of the output is the first three bytes of pixel `p` of the image. */
  predicate HasPixel(raw: seq<Byte>, out: seq<Byte>, p: nat)
    requires 4 * p + 4 <= |raw| && 3 * p + 3 <= |out|
  {
    out[3 * p..3 * p + 3] == raw[4 * p..4 * p + 3]
  }

  predicate IsWholeImage(raw: seq<Byte>, out: seq<Byte>)
  {
    |out| == StrippedSize(|raw|) && forall p :: 0 <= p < |raw| / 4 ==> HasPixel(raw, out, p)
  }

  lemma PixelSources(p: nat)
    ensures SourceOf(3 * p) == 4 * p && SourceOf(3 * p + 1) == 4 * p + 1 && SourceOf(3 * p + 2) == 4 * p + 2
  {
  }

  /** The image is whole exactly when every output byte is the one its place calls for. */
  lemma WholeImageBytes(raw: seq<Byte>, out: seq<Byte>)
    requires |out| == StrippedSize(|raw|)
    ensures forall j :: 0 <= j < |out| ==> SourceOf(j) < |raw|
    ensures IsWholeImage(raw, out) <==> forall j :: 0 <= j < |out| ==> out[j] == raw[SourceOf(j)]
  {
    if IsWholeImage(raw, out) {
      forall j | 0 <= j < |out| ensures out[j] == raw[SourceOf(j)] {
        var p := j / 3;
        PixelSources(p);
        assert HasPixel(raw, out, p);
        assert out[3 * p..3 * p + 3][j - 3 * p] == raw[4 * p..4 * p + 3][j - 3 * p];
      }
    }
    if forall j :: 0 <= j < |out| ==> out[j] == raw[SourceOf(j)] {
      forall p | 0 <= p < |raw| / 4 ensures HasPixel(raw, out, p) {
        PixelSources(p);
        assert out[3 * p] == raw[4 * p] && out[3 * p + 1] == raw[4 * p + 1] && out[3 * p + 2] == raw[4 * p + 2];
      }
    }
  }

  /** The image comes out whole exactly when the bytes that the loop did not write were right before. */
  lemma WholeImageIsLuck(raw: seq<Byte>, block: seq<Byte>)
    requires |block| == StrippedSize(|raw|)
    ensures forall j :: 0 <= j < |block| ==> SourceOf(j) < |raw|
    ensures IsWholeImage(raw, Stripped(raw, block))
       <==> forall j :: Kept(|block|) <= j < |block| ==> block[j] == raw[SourceOf(j)]
  {
    WholeImageBytes(raw, Stripped(raw, block));
  }

  /** Whatever malloc returned, the image comes out whole: exactly when it has fewer than eight bytes. */
  lemma WholeImageExactlyWhen(raw: seq<Byte>)
    ensures (forall block :: |block| == StrippedSize(|raw|) ==> IsWholeImage(raw, Stripped(raw, block)))
       <==> |raw| < 8
  {
    var size := StrippedSize(|raw|);
    if |raw| < 8 {
      forall block | |block| == size ensures IsWholeImage(raw, Stripped(raw, block)) {
        assert Kept(size) == size;
        WholeImageIsLuck(raw, block);
      }
    } else {
      var last := size - 1;
      assert SourceOf(last) < |raw|;
      var wrong: Byte := if raw[SourceOf(last)] == 0 then 1 else 0;
      var block := seq(size, _ => wrong);
      WholeImageIsLuck(raw, block);
      assert block[last] != raw[SourceOf(last)];
    }
  }

  /** Two pixels into a cleared block: the last byte of the second pixel is missing. */
  lemma TwoPixels()
    ensures Stripped([1, 2, 3, 4, 5, 6, 7, 8], [0, 0, 0, 0, 0, 0]) == [1, 2, 3, 5, 6, 0]
    ensures !IsWholeImage([1, 2, 3, 4, 5, 6, 7, 8], [1, 2, 3, 5, 6, 0])
  {
    var raw, out := [1, 2, 3, 4, 5, 6, 7, 8], [1, 2, 3, 5, 6, 0];
    assert out[3..6][2] != raw[4..7][2];
    assert IsWholeImage(raw, out) ==> HasPixel(raw, out, 1);
  }
}
