# Earthquake map styling and legend

A model of the styling and labelling layer of the leaflet-challenge earthquake
map (`Leaflet-Part-1/static/js/logic.js`). The page fetches the USGS weekly
GeoJSON feed and draws each earthquake as a circle marker. The marker's radius
comes from the quake's magnitude and its fill colour from its depth. A legend in
the bottom-right corner keys six colours to magnitude intervals. The model
covers the parts of that file that compute something:

- `Style` (`style.dfy`): `getColor`, the six-bucket depth-to-colour step
  function, and the two linear magnitude scales `getSize` and `circleSize`.
  The colour is specified independently of the `switch` chain. `Rank(d)` is the
  number of thresholds 10, 30, 50, 70, 90 that the depth has reached, and the
  colour is the palette entry at that index. The method `GetColor` follows the
  source's assignments (start from the lightest colour, take the first case that
  holds) and is proved equal to that specification.
- `Markers` (`markers.dfy`): the option record that `pointToLayer` passes to
  `L.circleMarker` for each feature, and the whole layer as a map over the feed.
  If a feature's coordinates have no depth entry, `coordinates[2]` is
  `undefined`. Every case of the switch is then false and the initial lightest
  colour is kept. `FeatureColor` and `StyleLayerPointwise` state that such a
  marker is filled `#FFEDA0`.
- `Legend` (`legend.dfy`): the loop in `legend.onAdd`. It appends one swatch and
  label per interval to the legend's inner HTML. `RenderRows` is that loop. It
  is proved to produce `RowsHtml(Rows(magnitudes, colors))`, where `Rows` is the
  row-by-row specification. The upper-bound test `magnitudes[i + 1] ? … : "+"`
  is JavaScript truthiness, so two values read as "no upper bound": `undefined`
  past the end of the array, and `0`. A colour index past the end of `colors`
  prints `undefined`. The model keeps both behaviours.
- `Decimal` (`decimal.dfy`): the decimal text of an integer, which is the text
  JavaScript gives an integer-valued number with absolute value below 10^21 when
  it is concatenated to a string. It comes with a parser and a proof of the
  round trip. The legend labels rely on it.

Depths and magnitudes are exact `real`s, and the legend's magnitudes are `int`s
(the source's are the integers 0 to 5).

Three facts about the code that the model keeps as written:

- No minimum radius is applied to magnitudes of zero or less.
- Closed labels are written `lo&ndash;hi<br>`, and the open row is written `5+`
  with no `<br>`.
- The depth-keyed legend exists only as commented-out code, so it is not modelled.

## Model

| member | source | states |
|---|---|---|
| `Style.DepthColor` | Leaflet-Part-1/static/js/logic.js:19-42 | total: every depth gets one of the six palette colours, the palette entry at the depth's rank |
| `Style.RankInterval` | Leaflet-Part-1/static/js/logic.js:21-40 | the buckets are exhaustive and disjoint: the rank is k exactly when the depth lies in [threshold k-1, threshold k), open-ended below 10 and from 90 up |
| `Style.DepthColorBuckets` | Leaflet-Part-1/static/js/logic.js:22-39 | bucket by bucket, inclusive lower and exclusive upper bound: <10 `#FFEDA0`, [10,30) `#FEB24C`, [30,50) `#FD8D3C`, [50,70) `#E31A1C`, [70,90) `#BD0026`, >=90 `#800026` |
| `Style.DepthColorMonotone` | Leaflet-Part-1/static/js/logic.js:21-40 | a deeper quake never gets a lighter colour: the palette index of the colour never decreases with depth, and it equals the rank |
| `Style.GetColor` | Leaflet-Part-1/static/js/logic.js:19-42 | the imperative switch (default first, then the first matching case) returns the rank-based colour, which is in the palette |
| `Style.GetSize` | Leaflet-Part-1/static/js/logic.js:45-47 | the pixel radius divides back to the magnitude by 5, and it is positive exactly when the magnitude is |
| `Style.CircleSize` | Leaflet-Part-1/static/js/logic.js:15-17 | the metre radius is 8000 times `getSize`, and it is positive exactly when the magnitude is |
| `Style.GetSizeScale` | Leaflet-Part-1/static/js/logic.js:45-47 | the radius is five times the magnitude: it can be divided back to the magnitude, it is strictly increasing, and magnitude 4.5 gives 22.5 |
| `Style.CircleSizeScale` | Leaflet-Part-1/static/js/logic.js:15-17 | the unused metre radius is 40000 times the magnitude, 8000 times `getSize`, strictly increasing |
| `Markers.FeatureColor` | Leaflet-Part-1/static/js/logic.js:70 | the fill colour is a palette colour: the one whose index is the rank of `coordinates[2]`, or `#FFEDA0` when the coordinates have no depth entry |
| `Markers.PointStyle` | Leaflet-Part-1/static/js/logic.js:66-76 | the record passed to `L.circleMarker`: a radius that divides back to the magnitude by 5, the feature's own colour, outline `#000`, weight 1, opacity 1, fill opacity 0.8 |
| `Markers.StyleLayer` | Leaflet-Part-1/static/js/logic.js:64-77 | N features give N styles |
| `Markers.StyleLayerAt` | Leaflet-Part-1/static/js/logic.js:64-77 | styles come in feed order: style i is the `pointToLayer` record of feature i |
| `Markers.StyleLayerPointwise` | Leaflet-Part-1/static/js/logic.js:68-75 | each marker has radius 5·mag and the fill colour of its own depth (`#FFEDA0` when the coordinates have no depth entry), plus the fixed outline `#000`, weight 1, opacity 1, fill opacity 0.8 |
| `Markers.StyleIndependent` | Leaflet-Part-1/static/js/logic.js:66-76 | a marker's style depends on its own feature only: equal features in any positions of any feeds get equal styles |
| `Markers.StyleLayerAppend` | Leaflet-Part-1/static/js/logic.js:64-77 | styling a concatenated feed gives the concatenation of the styled parts |
| `Markers.StyleLayerPermutation` | Leaflet-Part-1/static/js/logic.js:64-77 | permuting the features permutes the markers: equal feature multisets give equal style multisets |
| `Markers.ShallowM45Example` | Leaflet-Part-1/static/js/logic.js:66-75 | a magnitude 4.5 quake 15 km deep gets radius 22.5 and colour `#FEB24C`, and an empty feed gives no markers |
| `Legend.RenderRows` | Leaflet-Part-1/static/js/logic.js:189-194 | the loop's accumulated HTML is the concatenation, in index order, of one swatch-and-label per entry of `magnitudes` |
| `Legend.OnAdd` | Leaflet-Part-1/static/js/logic.js:177-196 | the legend's HTML is the rendering of the six rows built from the fixed `magnitudes` and `colors` arrays |
| `Legend.Label` | Leaflet-Part-1/static/js/logic.js:193 | a label starts with the lower bound's text, and the character after it is `&` exactly when the row has an upper bound; an open label is that text plus one character |
| `Legend.RowHtml` | Leaflet-Part-1/static/js/logic.js:191-193 | a row's HTML is the swatch `<i>` in the row's colour, then the row's label, and nothing else |
| `Legend.RowsPairing` | Leaflet-Part-1/static/js/logic.js:189-193 | row i pairs `colors[i]` with `magnitudes[i]`, and it has an upper bound exactly when `magnitudes[i+1]` exists and is non-zero, that bound being `magnitudes[i+1]` |
| `Legend.OnlyLastRowOpen` | Leaflet-Part-1/static/js/logic.js:193 | when no later start is zero, only the last row is open-ended (`lo+`), and every other row reads `lo&ndash;next<br>` |
| `Legend.ZeroStartOpensRow` | Leaflet-Part-1/static/js/logic.js:193 | the truthiness test treats a zero next start like the end of the array: starts -1, 0, 1 label the first row `-1+` |
| `Legend.MagnitudeRows` | Leaflet-Part-1/static/js/logic.js:179-193 | the six rows of the fixed legend, written out: colours `#98ee00` to `#ea2c2c`, bounds 0–1 to 4–5, then 5 with no upper bound |
| `Legend.MagnitudeLegend` | Leaflet-Part-1/static/js/logic.js:179-194 | exactly six rows, row i has colour `colors[i]` and start i, rows 0 to 4 are labelled `0&ndash;1<br>` to `4&ndash;5<br>`, row 5 is labelled `5+` |
| `Legend.LabelDeterminesInterval` | Leaflet-Part-1/static/js/logic.js:193 | a label determines its interval: two rows with the same label have the same lower and upper bounds |
| `Legend.LabelLastChar` | Leaflet-Part-1/static/js/logic.js:193 | a closed-interval label ends in `>` (of `<br>`) and the open one ends in `+` |
| `Decimal.IntTextRoundTrip` | Leaflet-Part-1/static/js/logic.js:193 | the decimal text of a legend bound is well formed and parses back to the same number |
| `Decimal.IntTextInjective` | Leaflet-Part-1/static/js/logic.js:193 | different numbers have different texts |

## Left out

- The feed request (`d3.json(url).then(...)`) is network I/O and asynchronous. The feed is a parameter (a sequence of features). The unused `queryUrl` and the live `url` are constants that nothing computes with.
- The popup HTML of `onEachFeature`. It formats `new Date(time)`, which depends on the locale and time zone of the host.
- Leaflet itself is not modelled: `L.geoJSON`, `L.circleMarker`, the tile layers, `L.map` with its initial layers, the layer control, `L.control`, `L.DomUtil.create` and `addTo`. Only the style record passed to `L.circleMarker` and the HTML built for the legend are modelled. `legend.addTo(map)` refers to a `map` that is not the `myMap` local to `createMap`; this is not modelled either.
- The order in which Leaflet walks the features is assumed to be feed order. The layer is modelled as a pure map, not as Leaflet's internal loop.
- `console.log(colors[i])` in the legend loop is a log with no effect on the result.
- Commented-out code: the first map, the extra tile layer and the depth legend with its `getLegendLabel`.
- Style.GetColor: JavaScript number semantics are not modelled. A NaN depth makes every case false and keeps the default lightest colour; a depth given as a string would be coerced. Only a depth that is missing from the coordinates is modelled.
- Style.GetSizeScale: the product is exact, not a rounded IEEE double. A `null` magnitude (the feed allows it) would give radius 0, and that is not modelled because magnitudes are reals.
- Decimal.IntTextRoundTrip: `IntText` is JavaScript's text of a number only for integers below 10^21 in absolute value. From 10^21 on JavaScript writes exponent notation (`1e+21`), and past 2^53 a double cannot hold every integer; neither is modelled, so `Legend.RenderRows` on such bounds gives a different text from the browser. The legend's own bounds are 0 to 5.
- Legend.RenderRows: the browser re-parses `innerHTML` after each `+=` and may serialise it differently (for example, quotes around attributes). The model gives the string that is appended, not the DOM's serialisation. The legend starts from an empty `div`.
