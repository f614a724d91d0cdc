/** The style mapper of `logic.js`: depth (km) to fill colour, magnitude to
    circle radius. Depths and magnitudes are exact reals here, not IEEE doubles. */
module Style {

  /** The six fill colours, lightest (shallowest) to darkest (deepest). */
  const Palette: seq<string> := ["#FFEDA0", "#FEB24C", "#FD8D3C", "#E31A1C", "#BD0026", "#800026"]

  /** The depths at which the next, darker colour starts. */
  const Thresholds: seq<real> := [10.0, 30.0, 50.0, 70.0, 90.0]

  predicate Ascending(ts: seq<real>) {
    forall i, j :: 0 <= i < j < |ts| ==> ts[i] < ts[j]
  }

  /** How many of the thresholds `ts` the depth `d` has reached. */
  function CountReached(ts: seq<real>, d: real): (k: nat)
    ensures k <= |ts|
  {
    if ts == [] then 0
    else (if ts[0] <= d then 1 else 0) + CountReached(ts[1..], d)
  }

  /** The palette index of a depth: the number of thresholds at or below it. */
  function Rank(d: real): (k: nat)
    ensures k < |Palette|
  {
    CountReached(Thresholds, d)
  }

  /** The colour `getColor` gives a depth, defined through `Rank` rather than
      through the chain of cases; `GetColor` below follows the chain. */
  function DepthColor(d: real): (c: string)
    ensures c in Palette
  {
    Palette[Rank(d)]
  }

  /** Position of a colour in the palette (|Palette| when absent). */
  function PaletteIndex(c: string): (k: nat)
    ensures k <= |Palette|
    ensures k < |Palette| ==> Palette[k] == c
    ensures k == |Palette| ==> c !in Palette
  {
    if c == Palette[0] then 0
    else if c == Palette[1] then 1
    else if c == Palette[2] then 2
    else if c == Palette[3] then 3
    else if c == Palette[4] then 4
    else if c == Palette[5] then 5
    else 6
  }

  /** On ascending thresholds, the count is `k` exactly when `d` lies in the
      half-open interval [ts[k-1], ts[k]) (open-ended at either end). */
  lemma {:induction false} CountReachedInterval(ts: seq<real>, d: real, k: nat)
    requires Ascending(ts)
    requires k <= |ts|
    ensures CountReached(ts, d) == k <==>
      (k == 0 || ts[k - 1] <= d) && (k == |ts| || d < ts[k])
  {
    if ts != [] {
      var rest := ts[1..];
      assert Ascending(rest);
      if ts[0] <= d {
        if k > 0 {
          CountReachedInterval(rest, d, k - 1);
          assert k - 1 > 0 ==> rest[k - 2] == ts[k - 1];
          assert k - 1 < |rest| ==> rest[k - 1] == ts[k];
        }
      } else {
        CountReachedBelowFirst(ts, d);
        assert k > 0 ==> ts[0] <= ts[k - 1];
      }
    }
  }

  /** A depth below the first of ascending thresholds reaches none of them. */
  lemma {:induction false} CountReachedBelowFirst(ts: seq<real>, d: real)
    requires Ascending(ts)
    requires ts != [] && d < ts[0]
    ensures CountReached(ts, d) == 0
  {
    var rest := ts[1..];
    if rest != [] {
      assert rest[0] == ts[1];
      CountReachedBelowFirst(rest, d);
    }
  }

  /** A deeper point reaches at least as many thresholds. */
  lemma {:induction false} CountReachedMonotone(ts: seq<real>, d1: real, d2: real)
    requires d1 <= d2
    ensures CountReached(ts, d1) <= CountReached(ts, d2)
  {
    if ts != [] {
      CountReachedMonotone(ts[1..], d1, d2);
    }
  }

  /** Exhaustive and non-overlapping: the bucket `k` of a depth is the unique
      palette index whose interval contains it. */
  lemma RankInterval(d: real, k: nat)
    requires k < |Palette|
    ensures Rank(d) == k <==>
      (k == 0 || Thresholds[k - 1] <= d) && (k == |Thresholds| || d < Thresholds[k])
  {
    CountReachedInterval(Thresholds, d, k);
  }

  /** Each bucket has an inclusive lower and an exclusive upper bound. */
  lemma DepthColorBuckets(d: real)
    ensures d < 10.0 ==> DepthColor(d) == "#FFEDA0"
    ensures 10.0 <= d < 30.0 ==> DepthColor(d) == "#FEB24C"
    ensures 30.0 <= d < 50.0 ==> DepthColor(d) == "#FD8D3C"
    ensures 50.0 <= d < 70.0 ==> DepthColor(d) == "#E31A1C"
    ensures 70.0 <= d < 90.0 ==> DepthColor(d) == "#BD0026"
    ensures 90.0 <= d ==> DepthColor(d) == "#800026"
  {
    RankInterval(d, Rank(d));
  }

  /** Deeper never means lighter: the palette index is monotone in depth. */
  lemma DepthColorMonotone(d1: real, d2: real)
    requires d1 <= d2
    ensures PaletteIndex(DepthColor(d1)) == Rank(d1)
    ensures PaletteIndex(DepthColor(d1)) <= PaletteIndex(DepthColor(d2))
  {
    CountReachedMonotone(Thresholds, d1, d2);
  }

  /** `getColor`: start from the lightest colour, then take the first case
      of the `switch (true)` that holds. */
  method GetColor(depth: real) returns (color: string)
    ensures color == DepthColor(depth)
    ensures color in Palette
  {
    color := "#FFEDA0";
    if depth < 10.0 {
      color := "#FFEDA0";
    } else if depth < 30.0 {
      color := "#FEB24C";
    } else if depth < 50.0 {
      color := "#FD8D3C";
    } else if depth < 70.0 {
      color := "#E31A1C";
    } else if depth < 90.0 {
      color := "#BD0026";
    } else if depth >= 90.0 {
      color := "#800026";
    }
    DepthColorBuckets(depth);
  }

  /** `getSize`: the marker radius in pixels. */
  function GetSize(magnitude: real): (radius: real)
    ensures radius / 5.0 == magnitude
    ensures radius > 0.0 <==> magnitude > 0.0
  {
    magnitude * 5.0
  }

  /** `circleSize`: a radius in metres, defined but not used by any rendering path. */
  function CircleSize(magnitude: real): (metres: real)
    ensures metres == 8000.0 * GetSize(magnitude)
    ensures metres > 0.0 <==> magnitude > 0.0
  {
    magnitude * 40000.0
  }

  /** The radius is five times the magnitude, so a stronger quake is drawn larger
      and the magnitude can be read back from the radius. */
  lemma GetSizeScale(m1: real, m2: real)
    ensures GetSize(m1) / 5.0 == m1
    ensures m1 < m2 <==> GetSize(m1) < GetSize(m2)
    ensures GetSize(4.5) == 22.5
  {
  }

  /** The unused metre radius is the same linear scale, 8000 times the pixel one. */
  lemma CircleSizeScale(m1: real, m2: real)
    ensures CircleSize(m1) == 8000.0 * GetSize(m1)
    ensures m1 < m2 <==> CircleSize(m1) < CircleSize(m2)
  {
  }
}
