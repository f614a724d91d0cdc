/** The magnitude legend of `legend.onAdd`: one row per interval, each a colour
    swatch followed by the interval's label, appended to the legend's HTML. */
module Legend {
  import opened Decimal

  /** The interval starts, `magnitudes` in `legend.onAdd`. */
  const Magnitudes: seq<int> := [0, 1, 2, 3, 4, 5]

  /** The swatch colours, `colors` in `legend.onAdd`, parallel to `Magnitudes`. */
  const LegendColors: seq<string> := ["#98ee00", "#d4ee00", "#eecc00", "#ee9c00", "#ea822c", "#ea2c2c"]

  /** The upper end of a legend interval, if the row shows one. */
  datatype Bound = Unbounded | Bounded(value: int)

  /** One legend row: swatch colour, lower bound, upper bound. */
  datatype Row = Row(color: string, lo: int, hi: Bound)

  /** `colors[i]` as text: an index past the end reads `undefined`. */
  function ColorAt(colors: seq<string>, i: nat): string {
    if i < |colors| then colors[i] else "undefined"
  }

  /** `magnitudes[i + 1]` used as a condition: past the end it is `undefined`
      and a zero is falsy, so in both cases the row gets no upper bound. */
  function NextBound(magnitudes: seq<int>, i: nat): Bound {
    if i + 1 < |magnitudes| && magnitudes[i + 1] != 0 then Bounded(magnitudes[i + 1])
    else Unbounded
  }

  /** The rows the loop renders, one per entry of `magnitudes`. */
  function Rows(magnitudes: seq<int>, colors: seq<string>): (rows: seq<Row>)
    ensures |rows| == |magnitudes|
  {
    seq(|magnitudes|, i requires 0 <= i < |magnitudes| =>
      Row(ColorAt(colors, i), magnitudes[i], NextBound(magnitudes, i)))
  }

  /** `lo&ndash;hi<br>` for a closed interval, `lo+` for the open-ended one:
      the lower bound's text comes first, and the character after it tells the
      two kinds apart. */
  function Label(r: Row): (text: string)
    ensures var lo := IntText(r.lo);
      |lo| < |text| && text[..|lo|] == lo &&
      (text[|lo|] == '&' <==> r.hi.Bounded?) &&
      (r.hi.Unbounded? <==> |text| == |lo| + 1)
  {
    match r.hi
    case Bounded(hi) => IntText(r.lo) + "&ndash;" + IntText(hi) + "<br>"
    case Unbounded => IntText(r.lo) + "+"
  }

  /** A row is the swatch in the row's colour followed by the row's label. */
  function RowHtml(r: Row): (html: string)
    ensures var swatch := "<i style='background: " + r.color + "'></i> ";
      |html| == |swatch| + |Label(r)| &&
      html[..|swatch|] == swatch && html[|swatch|..] == Label(r)
  {
    "<i style='background: " + r.color + "'></i> " + Label(r)
  }

  /** The HTML of a run of rows, in order. */
  function RowsHtml(rows: seq<Row>): string {
    if rows == [] then "" else RowsHtml(rows[..|rows| - 1]) + RowHtml(rows[|rows| - 1])
  }

  /** One more row appends that row's HTML. */
  lemma RowsHtmlPrefix(rows: seq<Row>, i: nat)
    requires i < |rows|
    ensures RowsHtml(rows[..i + 1]) == RowsHtml(rows[..i]) + RowHtml(rows[i])
  {
    assert rows[..i + 1][..i] == rows[..i];
  }

  /** The loop of `legend.onAdd`: append one row's HTML per index to the
      legend's (initially empty) inner HTML. */
  method RenderRows(magnitudes: seq<int>, colors: seq<string>) returns (html: string)
    ensures html == RowsHtml(Rows(magnitudes, colors))
  {
    ghost var rows := Rows(magnitudes, colors);
    html := "";
    var i := 0;
    while i < |magnitudes|
      invariant 0 <= i <= |magnitudes|
      invariant html == RowsHtml(rows[..i])
    {
      var color := if i < |colors| then colors[i] else "undefined";
      var text := IntText(magnitudes[i]);
      if i + 1 < |magnitudes| && magnitudes[i + 1] != 0 {
        text := text + "&ndash;" + IntText(magnitudes[i + 1]) + "<br>";
      } else {
        text := text + "+";
      }
      var item := "<i style='background: " + color + "'></i> " + text;
      assert html + item == RowsHtml(rows[..i + 1]) by {
        assert rows[i] == Row(color, magnitudes[i], NextBound(magnitudes, i));
        assert item == RowHtml(rows[i]);
        RowsHtmlPrefix(rows, i);
      }
      html := html + item;
      i := i + 1;
    }
    assert rows[..i] == rows;
  }

  /** `legend.onAdd` with its two fixed arrays. */
  method OnAdd() returns (html: string)
    ensures html == RowsHtml(Rows(Magnitudes, LegendColors))
  {
    html := RenderRows(Magnitudes, LegendColors);
  }

  /** Row `i` pairs `colors[i]` with `magnitudes[i]`, and its upper bound is the
      next start, present exactly when that start exists and is non-zero. */
  lemma RowsPairing(magnitudes: seq<int>, colors: seq<string>, i: nat)
    requires i < |magnitudes| && |colors| == |magnitudes|
    ensures var r := Rows(magnitudes, colors)[i];
      r.color == colors[i] && r.lo == magnitudes[i] &&
      (r.hi.Bounded? <==> i + 1 < |magnitudes| && magnitudes[i + 1] != 0) &&
      (r.hi.Bounded? ==> r.hi.value == magnitudes[i + 1])
  {
  }

  /** When no later start is zero, only the last row is open-ended, and every
      other row reads `lo&ndash;next<br>`. */
  lemma OnlyLastRowOpen(magnitudes: seq<int>, colors: seq<string>, i: nat)
    requires forall j :: 0 < j < |magnitudes| ==> magnitudes[j] != 0
    requires i < |magnitudes|
    ensures var r := Rows(magnitudes, colors)[i];
      (r.hi == Unbounded <==> i == |magnitudes| - 1) &&
      (i < |magnitudes| - 1 ==>
        Label(r) == IntText(magnitudes[i]) + "&ndash;" + IntText(magnitudes[i + 1]) + "<br>") &&
      (i == |magnitudes| - 1 ==> Label(r) == IntText(magnitudes[i]) + "+")
  {
  }

  /** A zero start after the first row closes the row before it with `+`, as
      if it were the last: the truthiness test cannot tell `0` from `undefined`. */
  lemma ZeroStartOpensRow()
    ensures Label(Rows([-1, 0, 1], ["a", "b", "c"])[0]) == "-1+"
  {
  }

  /** The six rows of the magnitude legend, written out. */
  lemma MagnitudeRows()
    ensures Rows(Magnitudes, LegendColors) == [
      Row("#98ee00", 0, Bounded(1)), Row("#d4ee00", 1, Bounded(2)), Row("#eecc00", 2, Bounded(3)),
      Row("#ee9c00", 3, Bounded(4)), Row("#ea822c", 4, Bounded(5)), Row("#ea2c2c", 5, Unbounded)]
  {
  }

  /** The magnitude legend has six rows pairing each colour with its start,
      labelled `0&ndash;1<br>` to `4&ndash;5<br>`, then `5+`. */
  lemma MagnitudeLegend()
    ensures var rows := Rows(Magnitudes, LegendColors);
      |rows| == 6 &&
      (forall i :: 0 <= i < 6 ==> rows[i].color == LegendColors[i] && rows[i].lo == i) &&
      Label(rows[0]) == "0" + "&ndash;" + "1" + "<br>" && Label(rows[1]) == "1" + "&ndash;" + "2" + "<br>" &&
      Label(rows[2]) == "2" + "&ndash;" + "3" + "<br>" && Label(rows[3]) == "3" + "&ndash;" + "4" + "<br>" &&
      Label(rows[4]) == "4" + "&ndash;" + "5" + "<br>" && Label(rows[5]) == "5+"
  {
    MagnitudeRows();
    OneDigitTexts();
  }

  /** No ampersand occurs in a number's text. */
  lemma IntTextHasNoAmpersand(n: int)
    ensures '&' !in IntText(n)
  {
  }

  /** After an ampersand-free prefix, the first ampersand is the appended one. */
  lemma FirstAmpersand(x: string, y: string)
    requires '&' !in x
    ensures (x + "&" + y)[|x|] == '&'
    ensures forall i :: 0 <= i < |x| ==> (x + "&" + y)[i] != '&'
  {
  }

  /** Splitting at the first ampersand: two ampersand-free prefixes followed
      by an ampersand must coincide. */
  lemma SplitAtAmpersand(x: string, y: string, x': string, y': string)
    requires '&' !in x && '&' !in x'
    requires x + "&" + y == x' + "&" + y'
    ensures x == x' && y == y'
  {
    var s := x + "&" + y;
    FirstAmpersand(x, y);
    FirstAmpersand(x', y');
    assert |x| == |x'|;
    assert x == s[..|x|] == x';
    assert y == s[|x| + 1..] == y';
  }

  /** A closed label is the lower bound's text, an ampersand, then the rest. */
  lemma ClosedLabelSplit(lo: int, hi: int)
    ensures Label(Row("", lo, Bounded(hi))) == IntText(lo) + "&" + ("ndash;" + IntText(hi) + "<br>")
  {
  }

  /** Two closed-interval labels agree only on equal bounds. */
  lemma ClosedLabelsDetermineBounds(lo1: int, hi1: int, lo2: int, hi2: int)
    requires Label(Row("", lo1, Bounded(hi1))) == Label(Row("", lo2, Bounded(hi2)))
    ensures lo1 == lo2 && hi1 == hi2
  {
    var t1, t2 := IntText(hi1), IntText(hi2);
    var y1, y2 := "ndash;" + t1 + "<br>", "ndash;" + t2 + "<br>";
    assert IntText(lo1) == IntText(lo2) && y1 == y2 by {
      IntTextHasNoAmpersand(lo1);
      IntTextHasNoAmpersand(lo2);
      ClosedLabelSplit(lo1, hi1);
      ClosedLabelSplit(lo2, hi2);
      SplitAtAmpersand(IntText(lo1), y1, IntText(lo2), y2);
    }
    IntTextInjective(lo1, lo2);
    assert t1 == t2 by {
      assert |t1| == |t2|;
      assert t1 == y1[6..6 + |t1|];
      assert t2 == y2[6..6 + |t2|];
    }
    IntTextInjective(hi1, hi2);
  }

  /** A closed label ends in `>` (of `<br>`), an open one in `+`. */
  lemma LabelLastChar(r: Row)
    ensures |Label(r)| > 0
    ensures Label(r)[|Label(r)| - 1] == if r.hi.Bounded? then '>' else '+'
  {
  }

  /** A label determines its interval: the legend never shows two different
      intervals under the same text. */
  lemma LabelDeterminesInterval(r1: Row, r2: Row)
    requires Label(r1) == Label(r2)
    ensures r1.lo == r2.lo && r1.hi == r2.hi
  {
    var l1, l2 := Label(r1), Label(r2);
    match (r1.hi, r2.hi)
    case (Bounded(a), Bounded(b)) =>
      assert Label(Row("", r1.lo, Bounded(a))) == l1;
      assert Label(Row("", r2.lo, Bounded(b))) == l2;
      ClosedLabelsDetermineBounds(r1.lo, a, r2.lo, b);
    case (Bounded(_), Unbounded) =>
      LabelLastChar(r1);
      LabelLastChar(r2);
      assert false;
    case (Unbounded, Bounded(_)) =>
      LabelLastChar(r1);
      LabelLastChar(r2);
      assert false;
    case (Unbounded, Unbounded) =>
      assert IntText(r1.lo) == l1[..|l1| - 1] == l2[..|l2| - 1] == IntText(r2.lo);
      IntTextInjective(r1.lo, r2.lo);
  }
}
