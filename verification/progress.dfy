/**
 * The loading counter both pages keep while assets load: one increment per
 * loaded asset, shown as the whole percentage `floor(loaded / total * 100)`.
 */
module Progress {
  import opened Decimal
  import opened Arith

  /** `loaded / total`, the fraction of the manifest that has loaded. */
  function Fraction(loaded: nat, total: nat): real
    requires total > 0
  {
    loaded as real / total as real
  }

  /** `Math.floor(p * 100)`. */
  function FloorPercent(p: real): int
  {
    (p * 100.0).Floor
  }

  /** The whole percentage for `loaded` of `total` assets, in integer arithmetic. */
  function Percent(loaded: nat, total: nat): (r: nat)
    requires total > 0
    ensures r * total <= loaded * 100 < (r + 1) * total
  {
    loaded * 100 / total
  }

  /** More loaded assets never show a smaller percentage. */
  lemma PercentMonotone(a: nat, b: nat, total: nat)
    requires total > 0 && a <= b
    ensures Percent(a, total) <= Percent(b, total)
  {
    var p, q := Percent(a, total), Percent(b, total);
    MulMonotone(a, b, 100);
    MulCancelStrict(p, q + 1, total);
  }

  /** While no more than `total` assets have loaded the percentage is at most 100, and it is 100 exactly when all have. */
  lemma PercentRange(loaded: nat, total: nat)
    requires total > 0 && loaded <= total
    ensures Percent(loaded, total) <= 100
    ensures Percent(loaded, total) == 100 <==> loaded == total
  {
    var p := Percent(loaded, total);
    MulMonotone(loaded, total, 100);
    MulCancel(p, 100, total);
    if loaded == total {
      MulCancelStrict(100, p + 1, total);
    }
    if p == 100 {
      MulCancel(total, loaded, 100);
    }
  }

  /**
   * The percentages shown by `n` successive progress calls, the first of
   * which raises the count from `start` to `start + 1`.
   */
  function Reports(start: nat, n: nat, total: nat): (r: seq<nat>)
    requires total > 0
    ensures |r| == n
    ensures forall i :: 0 <= i < n ==> r[i] == Percent(start + i + 1, total)
    ensures forall i, j :: 0 <= i <= j < n ==> r[i] <= r[j]
    decreases n
  {
    if n == 0 then []
    else
      var rest := Reports(start + 1, n - 1, total);
      var first := Percent(start + 1, total);
      assert forall j :: 0 <= j < n - 1 ==> first <= rest[j] by {
        forall j | 0 <= j < n - 1
          ensures first <= rest[j]
        {
          PercentMonotone(start + 1, start + 1 + j + 1, total);
        }
      }
      [first] + rest
  }

  /**
   * Reports from an empty counter over at most `total` loads: each is in
   * 0..100, and a report is 100 exactly when it is the `total`-th.
   */
  lemma ReportsInRange(n: nat, total: nat)
    requires 0 < total && n <= total
    ensures forall i :: 0 <= i < n ==> Reports(0, n, total)[i] <= 100
    ensures forall i :: 0 <= i < n ==> (Reports(0, n, total)[i] == 100 <==> i + 1 == total)
  {
    forall i | 0 <= i < n
      ensures Reports(0, n, total)[i] <= 100
      ensures Reports(0, n, total)[i] == 100 <==> i + 1 == total
    {
      PercentRange(i + 1, total);
    }
  }

  /** The text written into the loading indicator: the percentage followed by '%'. */
  function Text(percent: nat): (t: string)
    ensures |t| >= 2 && t[|t| - 1] == '%'
    ensures AllDigits(t[..|t| - 1]) && Value(t[..|t| - 1]) == percent
    ensures Canonical(t[..|t| - 1])
  {
    var digits := NatToString(percent);
    ValueOfNatToString(percent);
    assert (digits + "%")[..|digits|] == digits;
    digits + "%"
  }

  /** All of `paths` are served by the asset host. */
  predicate AllServed(paths: seq<string>, served: set<string>)
  {
    forall i :: 0 <= i < |paths| ==> paths[i] in served
  }

  /** The positions of `paths` whose path the asset host serves. */
  function ServedPositions(paths: seq<string>, served: set<string>): set<int>
  {
    set i | 0 <= i < |paths| && paths[i] in served
  }

  /** How many of `paths` load, each path that is served counting once. */
  function CountServed(paths: seq<string>, served: set<string>): (k: nat)
    ensures k <= |paths|
    ensures k == |paths| <==> AllServed(paths, served)
  {
    if |paths| == 0 then 0
    else
      var n := |paths| - 1;
      var rest := CountServed(paths[..n], served);
      assert AllServed(paths, served) <==> AllServed(paths[..n], served) && paths[n] in served by {
        assert forall i :: 0 <= i < n ==> paths[..n][i] == paths[i];
      }
      rest + (if paths[n] in served then 1 else 0)
  }

  /** The count is the number of positions whose path is served. */
  lemma {:induction false} CountServedCounts(paths: seq<string>, served: set<string>)
    ensures CountServed(paths, served) == |ServedPositions(paths, served)|
  {
    if |paths| > 0 {
      var n := |paths| - 1;
      var init := paths[..n];
      CountServedCounts(init, served);
      var below := ServedPositions(init, served);
      var last: set<int> := if paths[n] in served then {n} else {};
      assert ServedPositions(paths, served) == below + last by {
        forall i | i in ServedPositions(paths, served)
          ensures i in below + last
        {
          if i < n {
            assert init[i] == paths[i];
          }
        }
        forall i | i in below
          ensures i in ServedPositions(paths, served)
        {
          assert init[i] == paths[i];
        }
      }
      assert below * last == {};
    }
  }
}
