/**
 * The walking cat's sprite frames: `CAT_FRAME_COUNT` files named
 * `frame_0001` to `frame_0010`, each the frame number `i + 1` left-padded
 * with zeros to four digits. The two pages differ only in the extension.
 */
module CatFrames {
  import opened Decimal

  const FrameCount: nat := 10

  const Folder: string := "/images/cat_walking_frames_transparent_bg/frame_"

  /** `String(i + 1).padStart(4, '0')`. */
  function FrameNumber(i: nat): (r: string)
    requires i < FrameCount
    ensures |r| == 4 && AllDigits(r) && Value(r) == i + 1
  {
    assert Pow10(4) == 10000;
    ZeroPad(i + 1, 4)
  }

  /** The path of the `i`-th frame, counting from 0. */
  function FramePath(i: nat, ext: string): string
    requires i < FrameCount
  {
    Folder + FrameNumber(i) + ext
  }

  /** `CAT_IMAGES_PATHS`: the frame paths in order. */
  function FramePaths(ext: string): (ps: seq<string>)
    ensures |ps| == FrameCount
    ensures forall i :: 0 <= i < FrameCount ==> ps[i] == FramePath(i, ext)
  {
    seq(FrameCount, i requires 0 <= i < FrameCount => FramePath(i, ext))
  }

  /** The middle piece of a three-piece concatenation can be cut back out. */
  lemma Middle(pre: string, mid: string, post: string)
    ensures (pre + mid + post)[|pre|..|pre| + |mid|] == mid
  {
  }

  /** The four characters after the folder prefix spell the frame's number. */
  lemma NumberInPath(i: nat, ext: string)
    requires i < FrameCount
    ensures var p := FramePath(i, ext);
      && AllDigits(p[|Folder|..|Folder| + 4])
      && Value(p[|Folder|..|Folder| + 4]) == i + 1
  {
    Middle(Folder, FrameNumber(i), ext);
  }

  /** The ten frame paths are ten different names. */
  lemma FramePathsDistinct(ext: string)
    ensures forall i, j :: 0 <= i < j < FrameCount ==> FramePaths(ext)[i] != FramePaths(ext)[j]
  {
    forall i, j | 0 <= i < j < FrameCount
      ensures FramePaths(ext)[i] != FramePaths(ext)[j]
    {
      NumberInPath(i, ext);
      NumberInPath(j, ext);
    }
  }
}
