/** The normalizer: the rows the populate branch of show_weather_data
    inserts, one per (series, area, timestamp index) of the FIRST section
    only (work_week3/main.py:168-189). */
module Normalizer {
  import opened Wrappers
  import opened ForecastDoc
  import opened WeatherText
  import opened Temperatures
  import opened ForecastStore

  /** `xs[idx] if idx < len(xs) else None`. */
  function At(xs: seq<string>, idx: nat): Option<string> {
    if idx < |xs| then Some(xs[idx]) else None
  }

  /** The row for index `idx` of an area: weather text through the emoji
      transform, wind and wave as they are, each absent past the end of its
      array; the bounds looked up in the temperature map by the timestamp
      string itself. */
  function MakeRow(code: string, times: seq<string>, a: Area, idx: nat, temps: TempMap): Row
    requires a.name.Some? && idx < |times|
  {
    var time := times[idx];
    var weathers := a.weathers.GetOr([]);
    Row(code, a.name.value, time,
        if idx < |weathers| then Some(Emoji(weathers[idx])) else None,
        At(a.winds.GetOr([]), idx),
        At(a.waves.GetOr([]), idx),
        if time in temps then temps[time].min else None,
        if time in temps then temps[time].max else None)
  }

  /** Reading `area['area']['name']` succeeds for every area of a block. */
  predicate BlockNamed(ts: TimeSeries) {
    forall k :: 0 <= k < |ts.areas.GetOr([])| ==> ts.areas.GetOr([])[k].name.Some?
  }

  predicate AllNamed(areas: seq<Area>) {
    forall k :: 0 <= k < |areas| ==> areas[k].name.Some?
  }

  predicate BlocksNamed(blocks: seq<TimeSeries>) {
    forall b :: 0 <= b < |blocks| ==> BlockNamed(blocks[b])
  }

  // The rows in the order the nested loops insert them.

  function AreaRows(code: string, times: seq<string>, a: Area, temps: TempMap): seq<Row>
    requires a.name.Some?
  {
    seq(|times|, idx requires 0 <= idx < |times| => MakeRow(code, times, a, idx, temps))
  }

  function AreasRows(code: string, times: seq<string>, areas: seq<Area>, temps: TempMap): seq<Row>
    requires AllNamed(areas)
    decreases |areas|
  {
    if areas == [] then []
    else AreasRows(code, times, areas[..|areas| - 1], temps) + AreaRows(code, times, areas[|areas| - 1], temps)
  }

  /** A block without `timeDefines` or `areas` contributes nothing. */
  function BlockRows(code: string, ts: TimeSeries, temps: TempMap): seq<Row>
    requires BlockNamed(ts)
  {
    AreasRows(code, ts.timeDefines.GetOr([]), ts.areas.GetOr([]), temps)
  }

  function BlocksRows(code: string, blocks: seq<TimeSeries>, temps: TempMap): seq<Row>
    requires BlocksNamed(blocks)
    decreases |blocks|
  {
    if blocks == [] then []
    else BlocksRows(code, blocks[..|blocks| - 1], temps) + BlockRows(code, blocks[|blocks| - 1], temps)
  }

  lemma AreasRowsStep(code: string, times: seq<string>, areas: seq<Area>, temps: TempMap, j: int)
    requires AllNamed(areas) && 0 <= j < |areas|
    ensures AllNamed(areas[..j]) && AllNamed(areas[..j + 1])
    ensures AreasRows(code, times, areas[..j + 1], temps) ==
      AreasRows(code, times, areas[..j], temps) + AreaRows(code, times, areas[j], temps)
  {
    assert areas[..j + 1][..j] == areas[..j];
  }

  lemma BlocksRowsStep(code: string, blocks: seq<TimeSeries>, temps: TempMap, i: int)
    requires BlocksNamed(blocks) && 0 <= i < |blocks|
    ensures BlocksNamed(blocks[..i]) && BlocksNamed(blocks[..i + 1])
    ensures BlocksRows(code, blocks[..i + 1], temps) ==
      BlocksRows(code, blocks[..i], temps) + BlockRows(code, blocks[i], temps)
  {
    assert blocks[..i + 1][..i] == blocks[..i];
  }

  /** What the populate branch needs of the document: a non-empty list
      whose first section names every area of its blocks. */
  predicate Normalizable(doc: Doc) {
    doc.Sections? && |doc.sections| > 0 && BlocksNamed(Blocks(doc.sections[0]))
  }

  /** The rows inserted on a store miss. Sections after the first are not
      read here (only the temperature map looks at them). */
  function Normalize(code: string, doc: Doc, temps: TempMap): seq<Row>
    requires Normalizable(doc)
  {
    BlocksRows(code, Blocks(doc.sections[0]), temps)
  }

  // ----- Counting and locating the rows -----

  /** The number of rows a block list yields: |areas| x |timeDefines| per block. */
  function RowCount(blocks: seq<TimeSeries>): nat
    decreases |blocks|
  {
    if blocks == [] then 0
    else
      var ts := blocks[|blocks| - 1];
      RowCount(blocks[..|blocks| - 1]) + |ts.areas.GetOr([])| * |ts.timeDefines.GetOr([])|
  }

  lemma {:induction false} MulStep(a: nat, n: nat, t: nat)
    requires a < n
    ensures a * t + t <= n * t
    decreases n - a
  {
    if a + 1 < n {
      MulStep(a + 1, n, t);
    }
  }

  /** The row of area `a` at index `idx` sits after the rows of the earlier
      areas, |times| per area. */
  lemma {:induction false} AreasRowsAt(code: string, times: seq<string>, areas: seq<Area>, temps: TempMap, a: nat, idx: nat)
    requires AllNamed(areas) && a < |areas| && idx < |times|
    ensures a * |times| + idx < |AreasRows(code, times, areas, temps)|
    ensures AreasRows(code, times, areas, temps)[a * |times| + idx] == MakeRow(code, times, areas[a], idx, temps)
    decreases |areas|
  {
    var n := |areas| - 1;
    var init := areas[..n];
    var t := |times|;
    AreasRowsLength(code, times, areas, temps);
    AreasRowsLength(code, times, init, temps);
    MulStep(a, |areas|, t);
    if a < n {
      AreasRowsAt(code, times, init, temps, a, idx);
      MulStep(a, n, t);
    }
  }

  lemma {:induction false} AreasRowsLength(code: string, times: seq<string>, areas: seq<Area>, temps: TempMap)
    requires AllNamed(areas)
    ensures |AreasRows(code, times, areas, temps)| == |areas| * |times|
    decreases |areas|
  {
    if areas != [] {
      var n := |areas| - 1;
      var t := |times|;
      AreasRowsLength(code, times, areas[..n], temps);
      assert |AreasRows(code, times, areas, temps)| == n * t + t;
      MulSucc(n, t);
    }
  }

  lemma MulSucc(n: nat, t: nat)
    ensures n * t + t == (n + 1) * t
  {
  }

  lemma {:induction false} BlocksRowsLength(code: string, blocks: seq<TimeSeries>, temps: TempMap)
    requires BlocksNamed(blocks)
    ensures |BlocksRows(code, blocks, temps)| == RowCount(blocks)
    decreases |blocks|
  {
    if blocks != [] {
      var ts := blocks[|blocks| - 1];
      BlocksRowsLength(code, blocks[..|blocks| - 1], temps);
      AreasRowsLength(code, ts.timeDefines.GetOr([]), ts.areas.GetOr([]), temps);
    }
  }

  /** A visited (series, area, index) of a block list. */
  predicate IsRowSite(blocks: seq<TimeSeries>, b: int, a: int, idx: int) {
    0 <= b < |blocks| && 0 <= a < |blocks[b].areas.GetOr([])| && 0 <= idx < |blocks[b].timeDefines.GetOr([])|
  }

  /** Rows come in walk order: the row of (series b, area a, index idx)
      sits after all rows of earlier series and earlier areas. */
  lemma {:induction false} BlocksRowsAt(code: string, blocks: seq<TimeSeries>, temps: TempMap, b: int, a: int, idx: int)
    requires BlocksNamed(blocks) && IsRowSite(blocks, b, a, idx)
    ensures var times := blocks[b].timeDefines.GetOr([]);
      var k := RowCount(blocks[..b]) + a * |times| + idx;
      k < |BlocksRows(code, blocks, temps)| &&
      BlocksRows(code, blocks, temps)[k] == MakeRow(code, times, blocks[b].areas.GetOr([])[a], idx, temps)
    decreases |blocks|
  {
    var n := |blocks| - 1;
    var init := blocks[..n];
    if b < n {
      var times := blocks[b].timeDefines.GetOr([]);
      var k := RowCount(blocks[..b]) + a * |times| + idx;
      assert init[..b] == blocks[..b] && init[b] == blocks[b];
      BlocksRowsSplit(code, blocks, temps);
      BlocksRowsAt(code, init, temps, b, a, idx);
    } else {
      BlocksRowsAtLast(code, blocks, temps, a, idx);
    }
  }

  /** The case of the last series: its rows follow those of all earlier
      series. */
  lemma BlocksRowsAtLast(code: string, blocks: seq<TimeSeries>, temps: TempMap, a: int, idx: int)
    requires BlocksNamed(blocks) && IsRowSite(blocks, |blocks| - 1, a, idx)
    ensures var n := |blocks| - 1;
      var times := blocks[n].timeDefines.GetOr([]);
      var k := RowCount(blocks[..n]) + a * |times| + idx;
      k < |BlocksRows(code, blocks, temps)| &&
      BlocksRows(code, blocks, temps)[k] == MakeRow(code, times, blocks[n].areas.GetOr([])[a], idx, temps)
  {
    var n := |blocks| - 1;
    var times := blocks[n].timeDefines.GetOr([]);
    var areas := blocks[n].areas.GetOr([]);
    BlocksRowsSplit(code, blocks, temps);
    AreasRowsAt(code, times, areas, temps, a, idx);
    IndexRight(BlocksRows(code, blocks[..n], temps), AreasRows(code, times, areas, temps), a * |times| + idx);
  }

  lemma BlocksRowsSplit(code: string, blocks: seq<TimeSeries>, temps: TempMap)
    requires BlocksNamed(blocks) && blocks != []
    ensures var n := |blocks| - 1;
      var ts := blocks[n];
      BlocksNamed(blocks[..n]) && BlockNamed(ts) &&
      |BlocksRows(code, blocks[..n], temps)| == RowCount(blocks[..n]) &&
      BlocksRows(code, blocks, temps) ==
        BlocksRows(code, blocks[..n], temps) + AreasRows(code, ts.timeDefines.GetOr([]), ts.areas.GetOr([]), temps)
  {
    BlocksRowsLength(code, blocks[..|blocks| - 1], temps);
  }

  lemma IndexRight(xs: seq<Row>, ys: seq<Row>, j: int)
    requires 0 <= j < |ys|
    ensures |xs| + j < |xs + ys| && (xs + ys)[|xs| + j] == ys[j]
  {
  }

  /** Every row comes from a visited (series, area, index). */
  lemma {:induction false} BlocksRowsFrom(code: string, blocks: seq<TimeSeries>, temps: TempMap, r: Row)
    requires BlocksNamed(blocks) && r in BlocksRows(code, blocks, temps)
    ensures exists b, a, idx :: (IsRowSite(blocks, b, a, idx) &&
      r == MakeRow(code, blocks[b].timeDefines.GetOr([]), blocks[b].areas.GetOr([])[a], idx, temps))
    decreases |blocks|
  {
    var n := |blocks| - 1;
    var init := blocks[..n];
    if r in BlocksRows(code, init, temps) {
      BlocksRowsFrom(code, init, temps, r);
      var b, a, idx :| IsRowSite(init, b, a, idx) &&
        r == MakeRow(code, init[b].timeDefines.GetOr([]), init[b].areas.GetOr([])[a], idx, temps);
      assert IsRowSite(blocks, b, a, idx);
    } else {
      var times, areas := blocks[n].timeDefines.GetOr([]), blocks[n].areas.GetOr([]);
      var a := AreasRowsFrom(code, times, areas, temps, r);
      var idx :| 0 <= idx < |times| && r == MakeRow(code, times, areas[a], idx, temps);
      assert IsRowSite(blocks, n, a, idx);
    }
  }

  lemma {:induction false} AreasRowsFrom(code: string, times: seq<string>, areas: seq<Area>, temps: TempMap, r: Row)
    returns (a: nat)
    requires AllNamed(areas) && r in AreasRows(code, times, areas, temps)
    ensures a < |areas| && exists idx :: 0 <= idx < |times| && r == MakeRow(code, times, areas[a], idx, temps)
    decreases |areas|
  {
    var n := |areas| - 1;
    if r in AreasRows(code, times, areas[..n], temps) {
      a := AreasRowsFrom(code, times, areas[..n], temps, r);
    } else {
      a := n;
      var idx :| 0 <= idx < |times| && AreaRows(code, times, areas[n], temps)[idx] == r;
    }
  }

  // ----- Normalize -----

  /** Every normalized row carries the requested area code. */
  lemma NormalizeCodes(code: string, doc: Doc, temps: TempMap)
    requires Normalizable(doc)
    ensures forall r :: r in Normalize(code, doc, temps) ==> r.areaCode == code
  {
    forall r | r in Normalize(code, doc, temps)
      ensures r.areaCode == code
    {
      BlocksRowsFrom(code, Blocks(doc.sections[0]), temps, r);
    }
  }

  /** A normalized row's bound is present only when the temperature map of
      the document has an entry at exactly the row's timestamp string, set
      from an in-range, non-empty entry of a block at that very timestamp;
      a timestamp with no entry gives both bounds absent. */
  lemma NormalizeTemps(code: string, doc: Doc, r: Row, b: Bound)
    requires Normalizable(doc) && r in Normalize(code, doc, Temps(doc))
    ensures r.forecastTime !in Temps(doc) ==> r.minTemp.None? && r.maxTemp.None?
    ensures Pick(TempPair(r.minTemp, r.maxTemp), b).Some? ==>
      r.forecastTime in Temps(doc) && Pick(TempPair(r.minTemp, r.maxTemp), b).value != "" &&
      exists s, bl, a, idx :: (IsSite(doc.sections, s, bl, a, idx) &&
        var ts := Blocks(doc.sections[s])[bl];
        ts.timeDefines.value[idx] == r.forecastTime && idx < |Values(ts.areas.value[a], b)| &&
        Pick(TempPair(r.minTemp, r.maxTemp), b) == Some(Values(ts.areas.value[a], b)[idx]))
  {
    var temps := Temps(doc);
    var blocks := Blocks(doc.sections[0]);
    BlocksRowsFrom(code, blocks, temps, r);
    var bl, a, idx :| IsRowSite(blocks, bl, a, idx) &&
      r == MakeRow(code, blocks[bl].timeDefines.GetOr([]), blocks[bl].areas.GetOr([])[a], idx, temps);
    var t := r.forecastTime;
    if Pick(TempPair(r.minTemp, r.maxTemp), b).Some? {
      assert Pick(TempPair(r.minTemp, r.maxTemp), b) == Pick(temps[t], b);
      TempsValueFrom(doc, t, b);
    }
  }

  /** One row per (series, area, timestamp index) of the first section:
      the sum over its series of |areas| x |timeDefines|, however short the
      weather, wind and wave arrays are. */
  lemma {:induction false} NormalizeCount(code: string, doc: Doc, temps: TempMap)
    requires Normalizable(doc)
    ensures |Normalize(code, doc, temps)| == RowCount(Blocks(doc.sections[0]))
  {
    BlocksRowsLength(code, Blocks(doc.sections[0]), temps);
  }

  /** A forecast whose one series has two timestamps and one area whose
      weather array holds a single "くもり". */
  const ShortDoc: Doc := Sections([Section(Some([TimeSeries(Some(["2024-01-01", "2024-01-02"]),
    Some([Area(Some("City X"), Some(["くもり"]), None, None, None, None)]))]))])

  /** Two rows for `ShortDoc`, whatever the temperature map: the first with
      the cloud pictograph, the second with no weather. */
  lemma ShortWeathers(temps: TempMap)
    ensures Normalizable(ShortDoc)
    ensures var rows := Normalize("010100", ShortDoc, temps);
      |rows| == 2 &&
      rows[0].forecastTime == "2024-01-01" && rows[0].weather == Some("\U{2601}\U{FE0F}") &&
      rows[1].forecastTime == "2024-01-02" && rows[1].weather == None
  {
    var blocks := Blocks(ShortDoc.sections[0]);
    EmojiCloudy();
    NormalizeCount("010100", ShortDoc, temps);
    assert blocks[..0] == [];
    BlocksRowsAt("010100", blocks, temps, 0, 0, 0);
    BlocksRowsAt("010100", blocks, temps, 0, 0, 1);
  }
}
