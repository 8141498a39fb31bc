/**
 * Image preloading on the plain page. There are two stages, each a
 * `Promise.all`: the main images, then the cat frames. Every image that loads
 * increments the shared counter and reports `loaded / TOTAL_IMAGES` to
 * `handleLoadingProgress`, which writes `Math.floor(p * 100)` followed by '%'.
 * A failed image rejects its stage, and the cat stage never starts after a
 * failed main stage. There is no audio on this page.
 */
module PlainPreload {
  import opened Progress
  import CatFrames

  const MainImagePaths: seq<string> := [
    "/images/bg-intro.jpg",
    "/images/bg-plant1.png",
    "/images/bg-plant2.png",
    "/images/bg-plant3.png",
    "/images/bg-plant4.png",
    "/images/border-edge-bottom-right.png",
    "/images/border-edge-top-left.png",
    "/images/bride.webp",
    "/images/chandelier.png",
    "/images/couple.png",
    "/images/groom.webp",
    "/images/sepiring-nusantara.png"
  ]

  const CatImagePaths: seq<string> := CatFrames.FramePaths(".png")

  /** `TOTAL_IMAGES`. */
  const TotalImages: nat := |MainImagePaths| + |CatImagePaths|

  lemma TotalImagesIs22()
    ensures TotalImages == 22
  {
  }

  /** The fractions reported by the first `n` loads: `1/22`, `2/22`, ... */
  function Fractions(n: nat): (ps: seq<real>)
    ensures |ps| == n
    ensures forall i :: 0 <= i < n ==> ps[i] == Fraction(i + 1, 22)
    ensures forall i, j :: 0 <= i < j < n ==> ps[i] < ps[j]
    ensures n <= 22 ==> forall i :: 0 <= i < n ==> 0.0 < ps[i] <= 1.0
    ensures forall i :: 0 <= i < n ==> (ps[i] == 1.0 <==> i + 1 == 22)
  {
    seq(n, i requires 0 <= i < n => Fraction(i + 1, 22))
  }

  /** The state preloading comes to rest in. */
  datatype Preload = Preload(
    loaded: nat,          // the counter's final value
    completed: bool,      // both stages resolved, so the page starts
    progress: seq<real>,  // the fractions passed to `handleLoadingProgress`, in order
    shown: seq<int>       // the percentages it writes, in order
  )

  /** `preloadAllAssets` against an asset host that serves the paths in `served`. */
  function PreloadAll(served: set<string>): (r: Preload)
    ensures r.loaded <= TotalImages
    ensures r.completed <==> AllServed(MainImagePaths, served) && AllServed(CatImagePaths, served)
    ensures r.completed <==> r.loaded == TotalImages
    ensures |r.progress| == |r.shown| == r.loaded
    ensures !AllServed(MainImagePaths, served) ==> r.loaded == CountServed(MainImagePaths, served)
    ensures AllServed(MainImagePaths, served) ==> r.loaded == |MainImagePaths| + CountServed(CatImagePaths, served)
    ensures forall i :: 0 <= i < r.loaded ==> r.progress[i] == Fraction(i + 1, TotalImages)
    ensures forall i :: 0 <= i < r.loaded ==> r.shown[i] == FloorPercent(r.progress[i])
    ensures forall i, j :: 0 <= i < j < r.loaded ==> r.progress[i] < r.progress[j]
    ensures forall i :: 0 <= i < r.loaded ==> 0.0 < r.progress[i] <= 1.0
    ensures forall i :: 0 <= i < r.loaded ==> (r.progress[i] == 1.0 <==> i + 1 == TotalImages)
    ensures forall i, j :: 0 <= i <= j < r.loaded ==> r.shown[i] <= r.shown[j]
    ensures forall i :: 0 <= i < r.loaded ==> 0 <= r.shown[i] <= 100
    ensures forall i :: 0 <= i < r.loaded ==> (r.shown[i] == 100 <==> i + 1 == TotalImages)
  {
    TotalImagesIs22();
    var main := CountServed(MainImagePaths, served);
    var mainDone := main == |MainImagePaths|;
    var cats := CountServed(CatImagePaths, served);
    var loaded := if !mainDone then main else main + cats;
    var completed := mainDone && cats == |CatImagePaths|;
    Preload(loaded, completed, Fractions(loaded), Percentages(loaded))
  }

  /** `Math.floor(p * 100)` of each reported fraction: rising, within 0..100, and 100 only at the 22nd. */
  function Percentages(n: nat): (r: seq<int>)
    requires n <= 22
    ensures |r| == n
    ensures forall i :: 0 <= i < n ==> r[i] == FloorPercent(Fractions(n)[i])
    ensures forall i, j :: 0 <= i <= j < n ==> r[i] <= r[j]
    ensures forall i :: 0 <= i < n ==> 0 <= r[i] <= 100
    ensures forall i :: 0 <= i < n ==> (r[i] == 100 <==> i + 1 == 22)
  {
    var progress := Fractions(n);
    var r := seq(n, i requires 0 <= i < n => FloorPercent(progress[i]));
    ShownAreReports(n);
    assert r == Reports(0, n, 22);
    ReportsInRange(n, 22);
    r
  }

  /** The page's percentages are the integer percentages of the counter. */
  lemma ShownAreReports(n: nat)
    ensures forall i :: 0 <= i < n ==> FloorPercent(Fractions(n)[i]) == Reports(0, n, 22)[i]
  {
    forall i | 0 <= i < n
      ensures FloorPercent(Fractions(n)[i]) == Reports(0, n, 22)[i]
    {
      PercentMatchesPage(i + 1);
    }
  }

  /**
   * `Math.floor((loaded / 22) * 100)` in exact arithmetic is the integer
   * percentage.
   */
  lemma PercentMatchesPage(loaded: nat)
    ensures Percent(loaded, 22) == FloorPercent(Fraction(loaded, 22))
  {
    var p := Percent(loaded, 22);
    var x := Fraction(loaded, 22) * 100.0;
    assert x == (loaded * 100) as real / 22.0;
    assert p as real <= x < p as real + 1.0;
  }
}
