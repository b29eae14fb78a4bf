/**
 * The geometry of the chart drawn by `generateSVG`: one background bar, one
 * coloured bar and one label per language, stacked from the top. The SVG
 * text itself is not modelled; each row is kept as the values that go into
 * its `<rect>` and `<text>` elements.
 */
module Layout {
  import opened Wrappers
  import opened Aggregation
  import opened LangStats
  import opened Colors

  const Width: nat := 400
  const Padding: nat := 20
  const BarHeight: nat := 20
  const BarGap: nat := 15
  /** The width of the background bar. */
  const TotalWidth: nat := Width - Padding * 2
  /** Where every label starts. */
  const LabelX: nat := Padding + 5

  /** `langs.length * (barHeight + barGap) + padding * 2` */
  function ChartHeight(n: nat): nat {
    n * (BarHeight + BarGap) + Padding * 2
  }

  /** `padding + i * (barHeight + barGap)`: top of row `i`. */
  function RowY(i: nat): nat {
    Padding + i * (BarHeight + BarGap)
  }

  /** `(lang.percent / 100) * totalWidth` */
  function BarWidth(percent: real): real {
    (percent / 100.0) * TotalWidth as real
  }

  /** `y + barHeight - 5`: the baseline of the label of row `i`. */
  function LabelY(i: nat): nat {
    RowY(i) + BarHeight - 5
  }

  /** The values of one row: both bars start at (Padding, y). */
  datatype ChartRow = ChartRow(stat: LangStat, y: nat, barWidth: real, fill: string,
                               textFill: string, labelX: nat, labelY: nat)

  datatype Chart = Chart(width: nat, height: nat, rows: seq<ChartRow>)

  /** Two rows make a chart 110 high: the last row also gets its gap. */
  lemma TwoRowHeight()
    ensures ChartHeight(2) == 110
  {
  }

  /** Rows are BarHeight + BarGap apart, so no two bars overlap. */
  lemma RowsDisjoint(i: nat, j: nat)
    requires i < j
    ensures RowY(j) - RowY(i) == (j - i) * (BarHeight + BarGap)
    ensures RowY(i) + BarHeight < RowY(j)
  {
  }

  /** Every row of an n-row chart lies inside the canvas, padding included. */
  lemma RowInsideCanvas(n: nat, i: nat)
    requires i < n
    ensures Padding <= RowY(i)
    ensures RowY(i) + BarHeight + BarGap + Padding <= ChartHeight(n)
  {
  }

  /** The label sits inside its background bar, horizontally and vertically. */
  lemma LabelInsideBar(i: nat)
    ensures RowY(i) < LabelY(i) < RowY(i) + BarHeight
    ensures Padding < LabelX < Padding + TotalWidth
  {
  }

  /** A percent in [0, 100] gives a bar no wider than its background. */
  lemma BarWithinBackground(percent: real)
    requires 0.0 <= percent <= 100.0
    ensures 0.0 <= BarWidth(percent) <= TotalWidth as real
    ensures percent == 100.0 ==> BarWidth(percent) == TotalWidth as real
  {
  }

  lemma BarWidthMonotone(p: real, q: real)
    requires p <= q
    ensures BarWidth(p) <= BarWidth(q)
  {
  }

  /** Row `i` as `generateSVG` draws it for `lang`. */
  ghost function RowFor(lang: LangStat, i: nat): ChartRow {
    ChartRow(lang, RowY(i), BarWidth(lang.percent), ColorFor(lang.name),
             TextColor(ColorFor(lang.name)), LabelX, LabelY(i))
  }

  ghost predicate RowsFor(langs: seq<LangStat>, rows: seq<ChartRow>) {
    |rows| == |langs| && forall k :: 0 <= k < |rows| ==> rows[k] == RowFor(langs[k], k)
  }

  lemma RowsForSnoc(langs: seq<LangStat>, rows: seq<ChartRow>, i: nat, row: ChartRow)
    requires i < |langs| && RowsFor(langs[..i], rows) && row == RowFor(langs[i], i)
    ensures RowsFor(langs[..i + 1], rows + [row])
  {
    var ls, rs := langs[..i + 1], rows + [row];
    assert |rs| == |ls|;
    forall k | 0 <= k < |rs|
      ensures rs[k] == RowFor(ls[k], k)
    {
      if k < i {
        assert rs[k] == rows[k] && ls[k] == langs[..i][k];
      } else {
        assert rs[k] == row && ls[k] == langs[i];
      }
    }
  }

  /** What each laid-out row holds, field by field. */
  lemma RowsFields(langs: seq<LangStat>, rows: seq<ChartRow>)
    requires RowsFor(langs, rows)
    ensures forall i :: 0 <= i < |langs| ==>
              && rows[i].stat == langs[i]
              && rows[i].y == RowY(i)
              && rows[i].barWidth == BarWidth(langs[i].percent)
              && rows[i].fill == ColorFor(langs[i].name)
              && rows[i].textFill == TextColor(rows[i].fill)
              && rows[i].labelX == LabelX
              && rows[i].labelY == rows[i].y + BarHeight - 5
  {
  }

  /** The geometry every laid-out chart has. */
  lemma RowsGeometry(langs: seq<LangStat>, rows: seq<ChartRow>)
    requires RowsFor(langs, rows)
    ensures forall i, j :: 0 <= i < j < |rows| ==> rows[i].y + BarHeight < rows[j].y
    ensures forall i :: 0 <= i < |rows| ==>
              Padding <= rows[i].y && rows[i].y + BarHeight + Padding <= ChartHeight(|langs|)
    ensures forall i :: 0 <= i < |langs| && 0.0 <= langs[i].percent <= 100.0 ==>
              0.0 <= rows[i].barWidth <= TotalWidth as real
  {
    forall i, j | 0 <= i < j < |rows| ensures rows[i].y + BarHeight < rows[j].y {
      RowsDisjoint(i, j);
    }
    forall i | 0 <= i < |rows|
      ensures Padding <= rows[i].y && rows[i].y + BarHeight + Padding <= ChartHeight(|langs|)
    {
      RowInsideCanvas(|langs|, i);
    }
    forall i | 0 <= i < |langs| && 0.0 <= langs[i].percent <= 100.0
      ensures 0.0 <= rows[i].barWidth <= TotalWidth as real
    {
      BarWithinBackground(langs[i].percent);
    }
  }

  /** The `langs.forEach((lang, i) => ...)` loop of `generateSVG`. */
  method LayOut(langs: seq<LangStat>) returns (chart: Chart)
    ensures chart.width == Width && chart.height == ChartHeight(|langs|)
    ensures |chart.rows| == |langs|
    ensures RowsFor(langs, chart.rows)
    ensures forall i :: 0 <= i < |langs| ==>
              && chart.rows[i].stat == langs[i]
              && chart.rows[i].y == RowY(i)
              && chart.rows[i].barWidth == BarWidth(langs[i].percent)
              && chart.rows[i].fill == ColorFor(langs[i].name)
              && chart.rows[i].textFill == TextColor(chart.rows[i].fill)
              && chart.rows[i].labelX == LabelX
              && chart.rows[i].labelY == chart.rows[i].y + BarHeight - 5
    ensures forall i, j :: 0 <= i < j < |chart.rows| ==> chart.rows[i].y + BarHeight < chart.rows[j].y
    ensures forall i :: 0 <= i < |chart.rows| ==>
              Padding <= chart.rows[i].y && chart.rows[i].y + BarHeight + Padding <= chart.height
    ensures forall i :: 0 <= i < |langs| && 0.0 <= langs[i].percent <= 100.0 ==>
              0.0 <= chart.rows[i].barWidth <= TotalWidth as real
  {
    var rows: seq<ChartRow> := [];
    var i := 0;
    while i < |langs|
      invariant 0 <= i <= |langs|
      invariant RowsFor(langs[..i], rows)
    {
      var row := DrawRow(langs[i], i);
      RowsForSnoc(langs, rows, i, row);
      rows := rows + [row];
      i := i + 1;
    }
    assert langs[..|langs|] == langs;
    RowsGeometry(langs, rows);
    RowsFields(langs, rows);
    chart := Chart(Width, ChartHeight(|langs|), rows);
  }

  /** The callback `(lang, i) => { ... }`: the values of row `i`. */
  method DrawRow(lang: LangStat, i: nat) returns (row: ChartRow)
    ensures row == RowFor(lang, i)
  {
    var y := Padding + i * (BarHeight + BarGap);
    assert y == RowY(i);
    var barWidth := (lang.percent / 100.0) * TotalWidth as real;
    assert barWidth == BarWidth(lang.percent);
    var color := ColorFor(lang.name);
    var textColor := TextColor(color);
    row := ChartRow(lang, y, barWidth, color, textColor, Padding + 5, y + BarHeight - 5);
  }

  /** `generateSVG` up to the markup: rank the languages, then lay out one row each. */
  method GenerateSvg(summaries: seq<DaySummary>) returns (chart: Chart)
    ensures chart.width == Width
    ensures |chart.rows| == |TopLanguages(Table(summaries))|
    ensures forall i :: 0 <= i < |chart.rows| ==> chart.rows[i] == RowFor(TopLanguages(Table(summaries))[i], i)
    ensures |chart.rows| == Min(MaxLanguages, |Distinct(EntryNames(AllEntries(summaries)))|)
    ensures chart.height == |chart.rows| * (BarHeight + BarGap) + Padding * 2
    ensures chart.rows == [] <==> AllEntries(summaries) == []
    ensures forall i :: 0 <= i < |chart.rows| ==> 0.0 <= chart.rows[i].barWidth <= TotalWidth as real
    ensures forall i, j :: 0 <= i < j < |chart.rows| ==> chart.rows[i].stat.hours >= chart.rows[j].stat.hours
    ensures forall i :: 0 <= i < |chart.rows| ==>
              (chart.rows[i].fill == FallbackColor) == !IsKey(LangColorTable, chart.rows[i].stat.name)
  {
    var langs := FetchLangs(summaries);
    chart := LayOut(langs);
    forall i | 0 <= i < |chart.rows|
      ensures (chart.rows[i].fill == FallbackColor) == !IsKey(LangColorTable, chart.rows[i].stat.name)
    {
      ColorForSpec(langs[i].name);
    }
  }
}
