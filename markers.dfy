/** The feature renderer's styling: the option record `pointToLayer` hands to
    `L.circleMarker` for each earthquake of the feed. */
module Markers {
  import opened Style

  /** One feed feature: `properties.place`, `properties.time`, `properties.mag`
      and `geometry.coordinates` ([longitude, latitude, depth]). */
  datatype Feature = Feature(place: string, time: int, mag: real, coordinates: seq<real>)

  /** The circle-marker options of one earthquake. */
  datatype MarkerStyle = MarkerStyle(
    radius: real,
    fillColor: string,
    color: string,
    weight: int,
    opacity: real,
    fillOpacity: real)

  /** `getColor(feature.geometry.coordinates[2])`. When the coordinates carry no
      depth the argument is `undefined`, every case of the switch is false and
      the initial lightest colour is kept. */
  function FeatureColor(f: Feature): (c: string)
    ensures c in Palette
    ensures |f.coordinates| > 2 ==> PaletteIndex(c) == Rank(f.coordinates[2])
    ensures |f.coordinates| <= 2 ==> c == "#FFEDA0"
  {
    if |f.coordinates| > 2 then DepthColor(f.coordinates[2]) else Palette[0]
  }

  /** The option record built for one feature. */
  function PointStyle(f: Feature): (s: MarkerStyle)
    ensures s.radius / 5.0 == f.mag
    ensures s.fillColor == FeatureColor(f)
    ensures s.color == "#000" && s.weight == 1 && s.opacity == 1.0 && s.fillOpacity == 0.8
  {
    MarkerStyle(GetSize(f.mag), FeatureColor(f), "#000", 1, 1.0, 0.8)
  }

  /** The styles of a whole layer: `pointToLayer` applied to each feature. */
  function StyleLayer(fs: seq<Feature>): (styles: seq<MarkerStyle>)
    ensures |styles| == |fs|
  {
    seq(|fs|, i requires 0 <= i < |fs| => PointStyle(fs[i]))
  }

  /** Style `i` of the layer is the style of feature `i`. */
  lemma StyleLayerAt(fs: seq<Feature>, i: nat)
    requires i < |fs|
    ensures StyleLayer(fs)[i] == PointStyle(fs[i])
  {
  }

  /** Every marker is sized by its own magnitude, coloured by its own depth, and
      carries the fixed black outline of weight 1, opacity 1, fill opacity 0.8. */
  lemma StyleLayerPointwise(fs: seq<Feature>, i: nat)
    requires i < |fs|
    ensures var s := StyleLayer(fs)[i];
      s.radius == 5.0 * fs[i].mag &&
      (|fs[i].coordinates| > 2 ==> s.fillColor == DepthColor(fs[i].coordinates[2])) &&
      (|fs[i].coordinates| <= 2 ==> s.fillColor == "#FFEDA0") &&
      s.fillColor in Palette &&
      s.color == "#000" && s.weight == 1 && s.opacity == 1.0 && s.fillOpacity == 0.8
  {
  }

  /** A marker depends on no other feature: equal features at any two positions
      of any two feeds get equal styles. */
  lemma StyleIndependent(fs: seq<Feature>, gs: seq<Feature>, i: nat, j: nat)
    requires i < |fs| && j < |gs| && fs[i] == gs[j]
    ensures StyleLayer(fs)[i] == StyleLayer(gs)[j]
  {
  }

  /** Styling a concatenated feed styles each part. */
  lemma StyleLayerAppend(a: seq<Feature>, b: seq<Feature>)
    ensures StyleLayer(a + b) == StyleLayer(a) + StyleLayer(b)
  {
  }

  /** Taking a feature out of the middle of a feed takes out exactly its style. */
  lemma StyleLayerRemove(a: seq<Feature>, f: Feature, b: seq<Feature>)
    ensures multiset(StyleLayer(a + [f] + b))
      == multiset(StyleLayer(a + b)) + multiset{PointStyle(f)}
  {
    StyleLayerAppend(a + [f], b);
    StyleLayerAppend(a, [f]);
    StyleLayerAppend(a, b);
    var sa, sb := StyleLayer(a), StyleLayer(b);
    assert StyleLayer([f]) == [PointStyle(f)];
    assert StyleLayer(a + [f] + b) == sa + [PointStyle(f)] + sb;
    assert StyleLayer(a + b) == sa + sb;
  }

  /** Removing the feature at `j` removes one occurrence of it. */
  lemma MultisetRemoveAt(gs: seq<Feature>, j: nat)
    requires j < |gs|
    ensures multiset(gs[..j] + gs[j + 1..]) == multiset(gs) - multiset{gs[j]}
  {
    assert gs == gs[..j] + [gs[j]] + gs[j + 1..];
  }

  /** Removing the feature at `j` removes one occurrence of its style. */
  lemma StyleLayerRemoveAt(gs: seq<Feature>, j: nat)
    requires j < |gs|
    ensures multiset(StyleLayer(gs))
      == multiset(StyleLayer(gs[..j] + gs[j + 1..])) + multiset{PointStyle(gs[j])}
  {
    var a, f, b := gs[..j], gs[j], gs[j + 1..];
    assert StyleLayer(gs) == StyleLayer(a + [f] + b) by {
      assert gs == a + [f] + b;
    }
    StyleLayerRemove(a, f, b);
  }

  /** The first feature contributes its style once to the layer. */
  lemma StyleLayerCons(fs: seq<Feature>)
    requires fs != []
    ensures multiset(StyleLayer(fs)) == multiset(StyleLayer(fs[1..])) + multiset{PointStyle(fs[0])}
  {
    assert fs == [fs[0]] + fs[1..];
    StyleLayerAppend([fs[0]], fs[1..]);
    assert StyleLayer([fs[0]]) == [PointStyle(fs[0])];
  }

  /** A feed with the same features as `fs` can give up an occurrence of the
      first one; what is left has the same features as the rest of `fs`. */
  lemma MatchFirst(fs: seq<Feature>, gs: seq<Feature>) returns (rest: seq<Feature>)
    requires fs != [] && multiset(fs) == multiset(gs)
    ensures multiset(fs[1..]) == multiset(rest)
    ensures multiset(StyleLayer(gs)) == multiset(StyleLayer(rest)) + multiset{PointStyle(fs[0])}
  {
    var f := fs[0];
    assert f in multiset(gs);
    var j :| 0 <= j < |gs| && gs[j] == f;
    rest := gs[..j] + gs[j + 1..];
    MultisetRemoveAt(gs, j);
    assert multiset(fs[1..]) == multiset(fs) - multiset{f} by {
      assert fs == [f] + fs[1..];
    }
    StyleLayerRemoveAt(gs, j);
  }

  /** Reordering the features reorders the markers and changes no style. */
  lemma {:induction false} StyleLayerPermutation(fs: seq<Feature>, gs: seq<Feature>)
    requires multiset(fs) == multiset(gs)
    ensures multiset(StyleLayer(fs)) == multiset(StyleLayer(gs))
  {
    if fs != [] {
      var rest := MatchFirst(fs, gs);
      StyleLayerPermutation(fs[1..], rest);
      StyleLayerCons(fs);
    }
  }

  /** A magnitude 4.5 quake 15 km deep is drawn with radius 22.5 in the
      second colour; an empty feed gives no markers. */
  lemma ShallowM45Example()
    ensures StyleLayer([Feature("10km N of Testville", 1609459200000, 4.5, [-120.0, 38.0, 15.0])])
      == [MarkerStyle(22.5, "#FEB24C", "#000", 1, 1.0, 0.8)]
    ensures StyleLayer([]) == []
  {
  }
}
