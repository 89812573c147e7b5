/** show_weather_data without its widgets (work_week3/main.py:160-191):
    fetch the area's forecast, read the area's stored rows, and on a miss
    insert one normalized row per (series, area, timestamp index) of the
    first section before reading them back. */
module Cache {
  import opened Wrappers
  import opened ForecastDoc
  import opened WeatherText
  import opened Temperatures
  import opened ForecastStore
  import opened Normalizer

  /** What the right panel ends up listing: the area's stored rows, or the
      fetch-error notice. */
  datatype Shown = Forecast(rows: seq<Row>) | FetchFailed

  /** The fetch happens first and decides alone whether anything is shown;
      only a successful fetch reads the store, and only a miss writes it.
      On a miss the document must be a list whose first section names its
      areas, as the subscripts of the populate loop demand. */
  method ShowWeatherData(store: Store, code: string, fetched: Option<Doc>) returns (shown: Shown)
    requires Fetched(fetched) && Query(store.rows, code) == [] ==> Normalizable(fetched.value)
    modifies store
    ensures !Fetched(fetched) ==> shown == FetchFailed && store.rows == old(store.rows)
    ensures Fetched(fetched) && Query(old(store.rows), code) != [] ==>
      store.rows == old(store.rows) && shown == Forecast(Query(old(store.rows), code))
    ensures Fetched(fetched) && Query(old(store.rows), code) == [] ==>
      store.rows == old(store.rows) + Normalize(code, fetched.value, Temps(fetched.value)) &&
      shown == Forecast(Query(store.rows, code))
  {
    if !Fetched(fetched) {
      return FetchFailed;
    }
    var doc := fetched.value;
    var temps := ExtractTemps(doc);
    var saved := Query(store.rows, code);
    if saved == [] {
      Populate(store, code, Blocks(doc.sections[0]), temps);
      saved := Query(store.rows, code);
    }
    shown := Forecast(saved);
  }

  /** The populate loop over the series of the first section. */
  method Populate(store: Store, code: string, blocks: seq<TimeSeries>, temps: TempMap)
    requires BlocksNamed(blocks)
    modifies store
    ensures store.rows == old(store.rows) + BlocksRows(code, blocks, temps)
  {
    ghost var base := store.rows;
    for i := 0 to |blocks|
      invariant store.rows == base + BlocksRows(code, blocks[..i], temps)
    {
      var series := blocks[i];
      PopulateSeries(store, code, series.timeDefines.GetOr([]), series.areas.GetOr([]), temps);
      BlocksRowsStep(code, blocks, temps, i);
    }
    assert blocks[..|blocks|] == blocks;
  }

  /** The loop over the areas of one series. */
  method PopulateSeries(store: Store, code: string, times: seq<string>, areas: seq<Area>, temps: TempMap)
    requires AllNamed(areas)
    modifies store
    ensures store.rows == old(store.rows) + AreasRows(code, times, areas, temps)
  {
    ghost var base := store.rows;
    for j := 0 to |areas|
      invariant store.rows == base + AreasRows(code, times, areas[..j], temps)
    {
      PopulateArea(store, code, times, areas[j], temps);
      AreasRowsStep(code, times, areas, temps, j);
    }
    assert areas[..|areas|] == areas;
  }

  /** The innermost loop: one row per timestamp of the series. */
  method PopulateArea(store: Store, code: string, times: seq<string>, area: Area, temps: TempMap)
    requires area.name.Some?
    modifies store
    ensures store.rows == old(store.rows) + AreaRows(code, times, area, temps)
  {
    ghost var base := store.rows;
    var weathers := area.weathers.GetOr([]);
    var winds := area.winds.GetOr([]);
    var waves := area.waves.GetOr([]);
    for idx := 0 to |times|
      invariant store.rows == base + AreaRows(code, times, area, temps)[..idx]
    {
      var time := times[idx];
      var weather := None;
      if idx < |weathers| {
        var emoji := ConvertWeatherToEmoji(weathers[idx]);
        weather := Some(emoji);
      }
      var wind := if idx < |winds| then Some(winds[idx]) else None;
      var wave := if idx < |waves| then Some(waves[idx]) else None;
      var pair := if time in temps then temps[time] else TempPair(None, None);
      store.Insert(code, area.name.value, time, weather, wind, wave, pair.min, pair.max);
      assert AreaRows(code, times, area, temps)[..idx + 1] ==
        AreaRows(code, times, area, temps)[..idx] + [MakeRow(code, times, area, idx, temps)];
    }
    assert AreaRows(code, times, area, temps)[..|times|] == AreaRows(code, times, area, temps);
  }

  // ----- What the cache promises across calls -----

  /** A region is cold exactly when no stored row carries its code. */
  lemma QueryEmpty(rows: seq<Row>, code: string)
    ensures Query(rows, code) == [] <==> forall i :: 0 <= i < |rows| ==> rows[i].areaCode != code
  {
    var q := Query(rows, code);
    if q == [] {
      forall i | 0 <= i < |rows|
        ensures rows[i].areaCode != code
      {
        assert multiset(rows)[rows[i]] > 0;
      }
    } else {
      assert multiset(q)[q[0]] > 0;
      assert q[0] in rows;
    }
  }

  /** A miss shows exactly the rows it inserted, each once, in time order. */
  lemma ColdShowsInserted(rows: seq<Row>, code: string, doc: Doc)
    requires Normalizable(doc) && Query(rows, code) == []
    ensures var added := Normalize(code, doc, Temps(doc));
      multiset(Query(rows + added, code)) == multiset(added) && Sorted(Query(rows + added, code))
  {
    var added := Normalize(code, doc, Temps(doc));
    var q := Query(rows + added, code);
    NormalizeCodes(code, doc, Temps(doc));
    forall x: Row
      ensures multiset(q)[x] == multiset(added)[x]
    {
      if x.areaCode == code {
        assert multiset(Query(rows, code))[x] == 0;
      } else {
        assert x !in added;
      }
    }
    assert multiset(q) == multiset(added);
  }

  /** After a miss the panel lists as many rows as the normalizer makes. */
  lemma ColdShowsCount(rows: seq<Row>, code: string, doc: Doc)
    requires Normalizable(doc) && Query(rows, code) == []
    ensures |Query(rows + Normalize(code, doc, Temps(doc)), code)| == RowCount(Blocks(doc.sections[0]))
  {
    var added := Normalize(code, doc, Temps(doc));
    ColdShowsInserted(rows, code, doc);
    assert |multiset(Query(rows + added, code))| == |multiset(added)|;
    NormalizeCount(code, doc, Temps(doc));
  }

  /** A miss that inserts anything warms the region: the next successful
      fetch reads the store and inserts nothing. A miss on a first section
      with no (area, timestamp) pair leaves it cold. */
  lemma PopulateWarms(rows: seq<Row>, code: string, doc: Doc)
    requires Normalizable(doc) && Query(rows, code) == []
    ensures Query(rows + Normalize(code, doc, Temps(doc)), code) != [] <==>
      RowCount(Blocks(doc.sections[0])) > 0
  {
    ColdShowsCount(rows, code, doc);
  }

  /** Populating one region leaves every other region's reading as it was. */
  lemma OtherRegionUnchanged(rows: seq<Row>, code: string, doc: Doc, other: string)
    requires Normalizable(doc) && other != code
    ensures Query(rows + Normalize(code, doc, Temps(doc)), other) == Query(rows, other)
  {
    var added := Normalize(code, doc, Temps(doc));
    NormalizeCodes(code, doc, Temps(doc));
    assert forall i :: 0 <= i < |added| ==> added[i] in added;
    MatchingAppendOther(rows, added, code, other);
  }

  lemma {:induction false} MatchingAppendOther(rows: seq<Row>, added: seq<Row>, code: string, other: string)
    requires forall i :: 0 <= i < |added| ==> added[i].areaCode == code
    requires other != code
    ensures Matching(rows + added, other) == Matching(rows, other)
    decreases |added|
  {
    if added != [] {
      var n := |added| - 1;
      assert rows + added == (rows + added[..n]) + [added[n]];
      MatchingSkips(rows + added[..n], added[n], other);
      MatchingAppendOther(rows, added[..n], code, other);
    } else {
      assert rows + added == rows;
    }
  }

  lemma MatchingSkips(rows: seq<Row>, x: Row, other: string)
    requires x.areaCode != other
    ensures Matching(rows + [x], other) == Matching(rows, other)
  {
    assert (rows + [x])[..|rows|] == rows;
  }
}
