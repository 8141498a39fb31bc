/**
 * Asset preloading on the jQuery page. There are three stages, each a
 * `Promise.all` over one list. The background music comes first, then the main
 * images, then the cat frames. Every load that completes calls
 * `onAssetProgress`, which increments the shared counter and writes the
 * percentage of `TOTAL_LOAD_ASSET`. A failed load rejects its stage, and the
 * later stages never start. Loads in the failing stage that do complete are
 * still counted. When the browser cannot play MPEG audio, each music entry is
 * counted at once without loading.
 */
module JqPreload {
  import opened Decimal
  import opened Progress
  import CatFrames

  const BgmPaths: seq<string> := ["/bgm/bgm.mp3", "/bgm/bgm-alt.mp3"]

  /** `/images/gallery${idx + 1}.webp` for `idx` below `n`. */
  function GalleryPaths(n: nat): (ps: seq<string>)
    ensures |ps| == n
    ensures forall i :: 0 <= i < n ==> ps[i] == "/images/gallery" + NatToString(i + 1) + ".webp"
  {
    seq(n, i requires 0 <= i < n => "/images/gallery" + NatToString(i + 1) + ".webp")
  }

  const MainImagePaths: seq<string> := [
    "/images/bg-intro-overlay.webp",
    "/images/bg-intro.webp",
    "/images/bg-plant1.webp",
    "/images/bg-plant2.webp",
    "/images/bg-plant3.webp",
    "/images/bg-plant4.webp",
    "/images/border-edge-bottom-right.webp",
    "/images/border-edge-top-left.webp",
    "/images/bride.webp",
    "/images/chandelier.webp",
    "/images/couple.webp",
    "/images/groom.webp",
    "/images/sepiring-nusantara.webp"
  ] + GalleryPaths(8)

  const CatImagePaths: seq<string> := CatFrames.FramePaths(".webp")

  /** `TOTAL_LOAD_ASSET`: every entry of the three lists. */
  const TotalLoadAsset: nat := |BgmPaths| + |MainImagePaths| + |CatImagePaths|

  lemma TotalLoadAssetIs33()
    ensures TotalLoadAsset == 33
  {
  }

  /** The state preloading comes to rest in. */
  datatype Preload = Preload(
    loaded: nat,          // the counter's final value
    completed: bool,      // every stage resolved, so the page starts
    shown: seq<nat>       // the percentages written, one per counted asset, in order
  )

  /**
   * `preloadAllAssets` against an asset host that serves the paths in
   * `served`. The order in which loads complete does not matter: the counter
   * goes up by one per completed load, so the written percentages are those of
   * 1, 2, ... up to the final count.
   */
  function PreloadAll(audioSupported: bool, served: set<string>): (r: Preload)
    ensures r.loaded <= TotalLoadAsset
    ensures r.completed <==>
      && (audioSupported ==> AllServed(BgmPaths, served))
      && AllServed(MainImagePaths, served)
      && AllServed(CatImagePaths, served)
    ensures r.completed <==> r.loaded == TotalLoadAsset
    ensures !audioSupported ==> r.loaded >= |BgmPaths|
    ensures audioSupported && !AllServed(BgmPaths, served) ==> r.loaded == CountServed(BgmPaths, served)
    ensures (audioSupported ==> AllServed(BgmPaths, served)) && !AllServed(MainImagePaths, served) ==>
      r.loaded == |BgmPaths| + CountServed(MainImagePaths, served)
    ensures (audioSupported ==> AllServed(BgmPaths, served)) && AllServed(MainImagePaths, served) ==>
      r.loaded == |BgmPaths| + |MainImagePaths| + CountServed(CatImagePaths, served)
    ensures |r.shown| == r.loaded
    ensures forall i :: 0 <= i < |r.shown| ==> r.shown[i] == Percent(i + 1, TotalLoadAsset)
    ensures forall i, j :: 0 <= i <= j < |r.shown| ==> r.shown[i] <= r.shown[j]
    ensures forall i :: 0 <= i < |r.shown| ==> r.shown[i] <= 100
    ensures forall i :: 0 <= i < |r.shown| ==> (r.shown[i] == 100 <==> i + 1 == TotalLoadAsset)
  {
    TotalLoadAssetIs33();
    var bgm := if audioSupported then CountServed(BgmPaths, served) else |BgmPaths|;
    var bgmDone := bgm == |BgmPaths|;
    var main := CountServed(MainImagePaths, served);
    var mainDone := main == |MainImagePaths|;
    var cats := CountServed(CatImagePaths, served);
    var loaded :=
      if !bgmDone then bgm
      else if !mainDone then bgm + main
      else bgm + main + cats;
    var completed := bgmDone && mainDone && cats == |CatImagePaths|;
    ReportsInRange(loaded, TotalLoadAsset);
    Preload(loaded, completed, Reports(0, loaded, TotalLoadAsset))
  }

  /**
   * The integer percentage is the one the page computes,
   * `Math.floor((loaded / TOTAL_LOAD_ASSET) * 100)`, taken in exact arithmetic.
   */
  lemma PercentMatchesPage(loaded: nat)
    ensures Percent(loaded, 33) == FloorPercent(Fraction(loaded, 33))
  {
    var p := Percent(loaded, 33);
    var x := Fraction(loaded, 33) * 100.0;
    assert x == (loaded * 100) as real / 33.0;
    assert p as real <= x < p as real + 1.0;
  }
}
