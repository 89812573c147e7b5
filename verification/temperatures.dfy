/** The temperature map: every time-series block of every section that
    carries `tempsMin` and `tempsMax` contributes, keyed by the exact
    timestamp string (work_week3/main.py:100-128). */
module Temperatures {
  import opened Wrappers
  import opened ForecastDoc

  /** The bounds recorded for one timestamp (raw temperature strings). */
  datatype TempPair = TempPair(min: Option<string>, max: Option<string>)

  type TempMap = map<string, TempPair>

  datatype Bound = Min | Max

  function Pick(p: TempPair, b: Bound): Option<string> {
    match b
    case Min => p.min
    case Max => p.max
  }

  /** One write of the scan: at `time`, set each bound that `sets` holds. */
  datatype Write = Write(time: string, sets: TempPair)

  /** An entry of `tempsMin`/`tempsMax` sets its bound only when the index
      is in range and the entry is not the empty string. */
  function Entry(values: seq<string>, idx: nat): Option<string> {
    if idx < |values| && values[idx] != "" then Some(values[idx]) else None
  }

  predicate HasTemps(a: Area) {
    a.tempsMin.Some? && a.tempsMax.Some?
  }

  /** The write for index `idx` of an area's temperature arrays. */
  function WriteFor(times: seq<string>, a: Area, idx: nat): Write
    requires HasTemps(a) && idx < |times|
  {
    Write(times[idx], TempPair(Entry(a.tempsMin.value, idx), Entry(a.tempsMax.value, idx)))
  }

  // The writes of the scan in the order the nested loops perform them.

  function AreaWrites(times: seq<string>, a: Area): seq<Write> {
    if HasTemps(a) then seq(|times|, idx requires 0 <= idx < |times| => WriteFor(times, a, idx))
    else []
  }

  function AreasWrites(times: seq<string>, areas: seq<Area>): seq<Write>
    decreases |areas|
  {
    if areas == [] then []
    else AreasWrites(times, areas[..|areas| - 1]) + AreaWrites(times, areas[|areas| - 1])
  }

  function BlockWrites(ts: TimeSeries): seq<Write> {
    if ts.timeDefines.Some? && ts.areas.Some? then AreasWrites(ts.timeDefines.value, ts.areas.value)
    else []
  }

  function BlocksWrites(blocks: seq<TimeSeries>): seq<Write>
    decreases |blocks|
  {
    if blocks == [] then []
    else BlocksWrites(blocks[..|blocks| - 1]) + BlockWrites(blocks[|blocks| - 1])
  }

  function SectionWrites(sec: Section): seq<Write> {
    if sec.timeSeries.Some? then BlocksWrites(sec.timeSeries.value) else []
  }

  function SectionsWrites(secs: seq<Section>): seq<Write>
    decreases |secs|
  {
    if secs == [] then []
    else SectionsWrites(secs[..|secs| - 1]) + SectionWrites(secs[|secs| - 1])
  }

  /** A document that is not a list is not scanned. */
  function DocWrites(doc: Doc): seq<Write> {
    match doc
    case Sections(secs) => SectionsWrites(secs)
    case NotAList(_) => []
  }

  /** One write: create the entry with both bounds absent if needed, then
      overwrite each bound the write sets. */
  function Apply(m: TempMap, w: Write): TempMap {
    var cur := if w.time in m then m[w.time] else TempPair(None, None);
    m[w.time := TempPair(if w.sets.min.Some? then w.sets.min else cur.min,
                         if w.sets.max.Some? then w.sets.max else cur.max)]
  }

  function ApplyAll(m: TempMap, ws: seq<Write>): TempMap
    decreases |ws|
  {
    if ws == [] then m else Apply(ApplyAll(m, ws[..|ws| - 1]), ws[|ws| - 1])
  }

  /** The temperature map of a document, as a specification. */
  function Temps(doc: Doc): TempMap {
    ApplyAll(map[], DocWrites(doc))
  }

  lemma {:induction false} ApplyAllAppend(m: TempMap, ws1: seq<Write>, ws2: seq<Write>)
    ensures ApplyAll(m, ws1 + ws2) == ApplyAll(ApplyAll(m, ws1), ws2)
    decreases |ws2|
  {
    if ws2 == [] {
      assert ws1 + ws2 == ws1;
    } else {
      assert (ws1 + ws2)[..|ws1 + ws2| - 1] == ws1 + ws2[..|ws2| - 1];
      ApplyAllAppend(m, ws1, ws2[..|ws2| - 1]);
    }
  }

  lemma AreasWritesStep(times: seq<string>, areas: seq<Area>, k: int)
    requires 0 <= k < |areas|
    ensures AreasWrites(times, areas[..k + 1]) == AreasWrites(times, areas[..k]) + AreaWrites(times, areas[k])
  {
    assert areas[..k + 1][..k] == areas[..k];
  }

  lemma BlocksWritesStep(blocks: seq<TimeSeries>, j: int)
    requires 0 <= j < |blocks|
    ensures BlocksWrites(blocks[..j + 1]) == BlocksWrites(blocks[..j]) + BlockWrites(blocks[j])
  {
    assert blocks[..j + 1][..j] == blocks[..j];
  }

  lemma SectionsWritesStep(secs: seq<Section>, i: int)
    requires 0 <= i < |secs|
    ensures SectionsWrites(secs[..i + 1]) == SectionsWrites(secs[..i]) + SectionWrites(secs[i])
  {
    assert secs[..i + 1][..i] == secs[..i];
  }

  lemma ApplyAllStep(m: TempMap, ws: seq<Write>, i: int)
    requires 0 <= i < |ws|
    ensures ApplyAll(m, ws[..i + 1]) == Apply(ApplyAll(m, ws[..i]), ws[i])
  {
    assert ws[..i + 1][..i] == ws[..i];
  }

  // ----- Where the writes come from -----

  /** The time-series blocks of a section (none when `timeSeries` is absent). */
  function Blocks(sec: Section): seq<TimeSeries> {
    sec.timeSeries.GetOr([])
  }

  /** The temperature array of an area for one bound. */
  function Values(a: Area, b: Bound): seq<string>
    requires HasTemps(a)
  {
    match b
    case Min => a.tempsMin.value
    case Max => a.tempsMax.value
  }

  /** Index `idx` of area `a` of block `b` of section `s` is visited by the
      scan: the block has `timeDefines` and `areas`, and the area has both
      temperature arrays. */
  predicate IsSite(secs: seq<Section>, s: int, b: int, a: int, idx: int) {
    0 <= s < |secs| && IsBlockSite(Blocks(secs[s]), b, a, idx)
  }

  function SiteWrite(secs: seq<Section>, s: int, b: int, a: int, idx: int): Write
    requires IsSite(secs, s, b, a, idx)
  {
    var ts := Blocks(secs[s])[b];
    WriteFor(ts.timeDefines.value, ts.areas.value[a], idx)
  }

  predicate IsAreaSite(times: seq<string>, areas: seq<Area>, a: int, idx: int) {
    0 <= a < |areas| && HasTemps(areas[a]) && 0 <= idx < |times|
  }

  /** A write of an area list comes from one of its sites. */
  lemma {:induction false} AreasWriteHasSite(times: seq<string>, areas: seq<Area>, w: Write)
    returns (a: int, idx: int)
    requires w in AreasWrites(times, areas)
    ensures IsAreaSite(times, areas, a, idx) && w == WriteFor(times, areas[a], idx)
    decreases |areas|
  {
    var n := |areas| - 1;
    var init := areas[..n];
    if w in AreasWrites(times, init) {
      a, idx := AreasWriteHasSite(times, init, w);
      assert init[a] == areas[a];
    } else {
      var last := AreaWrites(times, areas[n]);
      var i :| 0 <= i < |last| && last[i] == w;
      a, idx := n, i;
    }
  }

  /** Each site of an area list contributes its write. */
  lemma {:induction false} AreasSiteHasWrite(times: seq<string>, areas: seq<Area>, a: int, idx: int)
    requires IsAreaSite(times, areas, a, idx)
    ensures WriteFor(times, areas[a], idx) in AreasWrites(times, areas)
    decreases |areas|
  {
    var n := |areas| - 1;
    var init := areas[..n];
    assert AreasWrites(times, areas) == AreasWrites(times, init) + AreaWrites(times, areas[n]);
    if a < n {
      assert init[a] == areas[a];
      AreasSiteHasWrite(times, init, a, idx);
    } else {
      assert AreaWrites(times, areas[n])[idx] == WriteFor(times, areas[n], idx);
    }
  }

  predicate IsBlockSite(blocks: seq<TimeSeries>, b: int, a: int, idx: int) {
    && 0 <= b < |blocks| && blocks[b].timeDefines.Some? && blocks[b].areas.Some?
    && IsAreaSite(blocks[b].timeDefines.value, blocks[b].areas.value, a, idx)
  }

  /** A write of a block list comes from one of its sites. */
  lemma {:induction false} BlocksWriteHasSite(blocks: seq<TimeSeries>, w: Write)
    returns (b: int, a: int, idx: int)
    requires w in BlocksWrites(blocks)
    ensures IsBlockSite(blocks, b, a, idx) &&
      w == WriteFor(blocks[b].timeDefines.value, blocks[b].areas.value[a], idx)
    decreases |blocks|
  {
    var n := |blocks| - 1;
    var init, ts := blocks[..n], blocks[n];
    if w in BlocksWrites(init) {
      b, a, idx := BlocksWriteHasSite(init, w);
      assert init[b] == blocks[b];
    } else {
      b := n;
      a, idx := AreasWriteHasSite(ts.timeDefines.value, ts.areas.value, w);
    }
  }

  /** Each site of a block list contributes its write. */
  lemma {:induction false} BlocksSiteHasWrite(blocks: seq<TimeSeries>, b: int, a: int, idx: int)
    requires IsBlockSite(blocks, b, a, idx)
    ensures WriteFor(blocks[b].timeDefines.value, blocks[b].areas.value[a], idx) in BlocksWrites(blocks)
    decreases |blocks|
  {
    var n := |blocks| - 1;
    var init, ts := blocks[..n], blocks[n];
    assert BlocksWrites(blocks) == BlocksWrites(init) + BlockWrites(ts);
    if b < n {
      assert init[b] == blocks[b];
      BlocksSiteHasWrite(init, b, a, idx);
    } else {
      AreasSiteHasWrite(ts.timeDefines.value, ts.areas.value, a, idx);
    }
  }

  lemma {:induction false} WriteHasSite(secs: seq<Section>, w: Write)
    requires w in SectionsWrites(secs)
    ensures exists s, b, a, idx :: IsSite(secs, s, b, a, idx) && w == SiteWrite(secs, s, b, a, idx)
    decreases |secs|
  {
    var n := |secs| - 1;
    var init := secs[..n];
    var blocks := Blocks(secs[n]);
    assert SectionWrites(secs[n]) == BlocksWrites(blocks);
    if w in SectionsWrites(init) {
      WriteHasSite(init, w);
      var s, b, a, idx :| IsSite(init, s, b, a, idx) && w == SiteWrite(init, s, b, a, idx);
      assert IsSite(secs, s, b, a, idx) && w == SiteWrite(secs, s, b, a, idx);
    } else {
      var b, a, idx := BlocksWriteHasSite(blocks, w);
      assert IsSite(secs, n, b, a, idx) && w == SiteWrite(secs, n, b, a, idx);
    }
  }

  lemma {:induction false} SiteHasWrite(secs: seq<Section>, s: int, b: int, a: int, idx: int)
    requires IsSite(secs, s, b, a, idx)
    ensures SiteWrite(secs, s, b, a, idx) in SectionsWrites(secs)
    decreases |secs|
  {
    var n := |secs| - 1;
    var init := secs[..n];
    var w := SiteWrite(secs, s, b, a, idx);
    if s < n {
      assert IsSite(init, s, b, a, idx) && w == SiteWrite(init, s, b, a, idx);
      SiteHasWrite(init, s, b, a, idx);
    } else {
      var blocks := Blocks(secs[n]);
      assert SectionWrites(secs[n]) == BlocksWrites(blocks);
      assert IsBlockSite(blocks, b, a, idx) &&
        w == WriteFor(blocks[b].timeDefines.value, blocks[b].areas.value[a], idx);
      BlocksSiteHasWrite(blocks, b, a, idx);
    }
  }

  /** The writes of the scan are exactly the writes of the visited sites. */
  lemma SectionsWritesFrom(secs: seq<Section>, w: Write)
    ensures w in SectionsWrites(secs) <==>
      exists s, b, a, idx :: IsSite(secs, s, b, a, idx) && w == SiteWrite(secs, s, b, a, idx)
  {
    if w in SectionsWrites(secs) {
      WriteHasSite(secs, w);
    }
    if exists s, b, a, idx :: IsSite(secs, s, b, a, idx) && w == SiteWrite(secs, s, b, a, idx) {
      var s, b, a, idx :| IsSite(secs, s, b, a, idx) && w == SiteWrite(secs, s, b, a, idx);
      SiteHasWrite(secs, s, b, a, idx);
    }
  }

  // ----- What a sequence of writes leaves in the map -----

  lemma {:induction false} ApplyAllKeys(m: TempMap, ws: seq<Write>, t: string)
    ensures t in ApplyAll(m, ws) <==> t in m || exists i :: 0 <= i < |ws| && ws[i].time == t
    decreases |ws|
  {
    if ws != [] {
      var n := |ws| - 1;
      ApplyAllKeys(m, ws[..n], t);
      if exists i :: 0 <= i < |ws| && ws[i].time == t {
        var i :| 0 <= i < |ws| && ws[i].time == t;
        if i < n {
          assert ws[..n][i].time == t;
        }
      }
      if exists i :: 0 <= i < n && ws[..n][i].time == t {
        var i :| 0 <= i < n && ws[..n][i].time == t;
        assert ws[i].time == t;
      }
    }
  }

  /** The last write that sets a bound at `t` decides that bound. */
  lemma {:induction false} ApplyAllLastWrite(m: TempMap, ws: seq<Write>, t: string, i: int, b: Bound)
    requires 0 <= i < |ws| && ws[i].time == t && Pick(ws[i].sets, b).Some?
    requires forall j :: i < j < |ws| && ws[j].time == t ==> Pick(ws[j].sets, b).None?
    ensures t in ApplyAll(m, ws) && Pick(ApplyAll(m, ws)[t], b) == Pick(ws[i].sets, b)
    decreases |ws|
  {
    var n := |ws| - 1;
    if i < n {
      ApplyAllLastWrite(m, ws[..n], t, i, b);
    }
  }

  /** A bound no write sets at `t` keeps the value it had before, or stays
      absent. */
  lemma {:induction false} ApplyAllNoWrite(m: TempMap, ws: seq<Write>, t: string, b: Bound)
    requires forall j :: 0 <= j < |ws| && ws[j].time == t ==> Pick(ws[j].sets, b).None?
    ensures t in ApplyAll(m, ws) ==>
      Pick(ApplyAll(m, ws)[t], b) == if t in m then Pick(m[t], b) else None
    decreases |ws|
  {
    if ws != [] {
      ApplyAllNoWrite(m, ws[..|ws| - 1], t, b);
      ApplyAllKeys(m, ws[..|ws| - 1], t);
    }
  }

  /** A bound present at `t` was in the starting map or was set by a write
      at exactly `t`. */
  lemma {:induction false} ApplyAllValueFrom(m: TempMap, ws: seq<Write>, t: string, b: Bound)
    requires t in ApplyAll(m, ws) && Pick(ApplyAll(m, ws)[t], b).Some?
    ensures (t in m && Pick(m[t], b) == Pick(ApplyAll(m, ws)[t], b)) ||
      exists j :: 0 <= j < |ws| && ws[j].time == t && Pick(ws[j].sets, b) == Pick(ApplyAll(m, ws)[t], b)
    decreases |ws|
  {
    if ws != [] {
      var n := |ws| - 1;
      var prev := ApplyAll(m, ws[..n]);
      if ws[n].time == t && Pick(ws[n].sets, b).Some? {
        assert Pick(ws[n].sets, b) == Pick(ApplyAll(m, ws)[t], b);
      } else {
        assert t in prev && Pick(prev[t], b) == Pick(ApplyAll(m, ws)[t], b);
        ApplyAllValueFrom(m, ws[..n], t, b);
        if !(t in m && Pick(m[t], b) == Pick(prev[t], b)) {
          var j :| 0 <= j < n && ws[..n][j].time == t && Pick(ws[..n][j].sets, b) == Pick(prev[t], b);
          assert ws[j] == ws[..n][j];
        }
      }
    }
  }

  // ----- The temperature map of a document -----

  /** Anything but a non-empty list gives the empty map; otherwise the keys
      are exactly the timestamps of visited sites: the union of
      `timeDefines` over the blocks that have `timeDefines` and `areas` and
      an area with both `tempsMin` and `tempsMax`. */
  lemma TempsKeys(doc: Doc, t: string)
    ensures !Truthy(doc) || doc.NotAList? ==> Temps(doc) == map[]
    ensures doc.Sections? ==>
      (t in Temps(doc) <==> exists s, b, a, idx :: (IsSite(doc.sections, s, b, a, idx) &&
         Blocks(doc.sections[s])[b].timeDefines.value[idx] == t))
  {
    if doc.Sections? {
      var secs := doc.sections;
      var ws := DocWrites(doc);
      ApplyAllKeys(map[], ws, t);
      if t in Temps(doc) {
        var i :| 0 <= i < |ws| && ws[i].time == t;
        SectionsWritesFrom(secs, ws[i]);
        var s, b, a, idx :| IsSite(secs, s, b, a, idx) && ws[i] == SiteWrite(secs, s, b, a, idx);
        assert Blocks(secs[s])[b].timeDefines.value[idx] == t;
      }
      if exists s, b, a, idx :: IsSite(secs, s, b, a, idx) && Blocks(secs[s])[b].timeDefines.value[idx] == t {
        var s, b, a, idx :| IsSite(secs, s, b, a, idx) && Blocks(secs[s])[b].timeDefines.value[idx] == t;
        var w := SiteWrite(secs, s, b, a, idx);
        SectionsWritesFrom(secs, w);
        var i :| 0 <= i < |ws| && ws[i] == w;
        assert ws[i].time == t;
      }
    }
  }

  /** A bound present in the map came from an in-range, non-empty entry of
      that bound's array at a visited site whose timestamp is exactly `t`;
      in particular it is never the empty string. */
  lemma TempsValueFrom(doc: Doc, t: string, b: Bound)
    requires t in Temps(doc) && Pick(Temps(doc)[t], b).Some?
    ensures Pick(Temps(doc)[t], b).value != ""
    ensures doc.Sections? && exists s, bl, a, idx :: (IsSite(doc.sections, s, bl, a, idx) &&
      var ts := Blocks(doc.sections[s])[bl];
      ts.timeDefines.value[idx] == t && idx < |Values(ts.areas.value[a], b)| &&
      Pick(Temps(doc)[t], b) == Some(Values(ts.areas.value[a], b)[idx]))
  {
    var ws := DocWrites(doc);
    ApplyAllValueFrom(map[], ws, t, b);
    var j :| 0 <= j < |ws| && ws[j].time == t && Pick(ws[j].sets, b) == Pick(Temps(doc)[t], b);
    var secs := doc.sections;
    SectionsWritesFrom(secs, ws[j]);
    var s, bl, a, idx :| IsSite(secs, s, bl, a, idx) && ws[j] == SiteWrite(secs, s, bl, a, idx);
    var ts := Blocks(secs[s])[bl];
    assert Pick(ws[j].sets, b) == Entry(Values(ts.areas.value[a], b), idx);
  }

  /** Last write wins: when the `i`-th write of the scan sets a bound at
      `t` and no later write at `t` sets it, that write decides the bound. */
  lemma TempsLastWrite(doc: Doc, t: string, i: int, b: Bound)
    requires 0 <= i < |DocWrites(doc)| && DocWrites(doc)[i].time == t
    requires Pick(DocWrites(doc)[i].sets, b).Some?
    requires forall j :: i < j < |DocWrites(doc)| && DocWrites(doc)[j].time == t ==>
      Pick(DocWrites(doc)[j].sets, b).None?
    ensures t in Temps(doc) && Pick(Temps(doc)[t], b) == Pick(DocWrites(doc)[i].sets, b)
  {
    ApplyAllLastWrite(map[], DocWrites(doc), t, i, b);
  }

  /** A bound that no write at `t` sets stays absent. */
  lemma TempsNoWrite(doc: Doc, t: string, b: Bound)
    requires forall j :: 0 <= j < |DocWrites(doc)| && DocWrites(doc)[j].time == t ==>
      Pick(DocWrites(doc)[j].sets, b).None?
    ensures t in Temps(doc) ==> Pick(Temps(doc)[t], b).None?
  {
    ApplyAllNoWrite(map[], DocWrites(doc), t, b);
  }

  /** The innermost two loops of the scan: one area of one block. An area
      without both temperature arrays is skipped. */
  method ScanArea(m: TempMap, times: seq<string>, area: Area) returns (temps: TempMap)
    ensures temps == ApplyAll(m, AreaWrites(times, area))
  {
    temps := m;
    if area.tempsMin.Some? && area.tempsMax.Some? {
      var mins, maxs := area.tempsMin.value, area.tempsMax.value;
      ghost var ws := AreaWrites(times, area);
      var idx := 0;
      while idx < |times|
        invariant idx <= |times| == |ws|
        invariant temps == ApplyAll(m, ws[..idx])
      {
        ghost var before := temps;
        var time := times[idx];
        // The entry is created with both bounds absent when new, then
        // each bound is overwritten in place.
        var entry := if time in temps then temps[time] else TempPair(None, None);
        if idx < |mins| && mins[idx] != "" {
          entry := entry.(min := Some(mins[idx]));
        }
        if idx < |maxs| && maxs[idx] != "" {
          entry := entry.(max := Some(maxs[idx]));
        }
        temps := temps[time := entry];
        assert ws[idx] == WriteFor(times, area, idx);
        assert temps == Apply(before, ws[idx]);
        ApplyAllStep(m, ws, idx);
        idx := idx + 1;
      }
      assert ws[..idx] == ws;
    }
  }

  /** The areas loop of one block: a block without `timeDefines` or
      `areas` is skipped. */
  method ScanBlock(m: TempMap, ts: TimeSeries) returns (temps: TempMap)
    ensures temps == ApplyAll(m, BlockWrites(ts))
  {
    temps := m;
    if ts.timeDefines.Some? && ts.areas.Some? {
      var times, areas := ts.timeDefines.value, ts.areas.value;
      var k := 0;
      while k < |areas|
        invariant k <= |areas|
        invariant temps == ApplyAll(m, AreasWrites(times, areas[..k]))
      {
        AreasWritesStep(times, areas, k);
        temps := ScanArea(temps, times, areas[k]);
        ApplyAllAppend(m, AreasWrites(times, areas[..k]), AreaWrites(times, areas[k]));
        k := k + 1;
      }
      assert areas[..k] == areas;
    }
  }

  /** The blocks loop of one section: a section without `timeSeries` is
      skipped. */
  method ScanSection(m: TempMap, sec: Section) returns (temps: TempMap)
    ensures temps == ApplyAll(m, SectionWrites(sec))
  {
    temps := m;
    if sec.timeSeries.Some? {
      var blocks := sec.timeSeries.value;
      var j := 0;
      while j < |blocks|
        invariant j <= |blocks|
        invariant temps == ApplyAll(m, BlocksWrites(blocks[..j]))
      {
        BlocksWritesStep(blocks, j);
        temps := ScanBlock(temps, blocks[j]);
        ApplyAllAppend(m, BlocksWrites(blocks[..j]), BlockWrites(blocks[j]));
        j := j + 1;
      }
      assert blocks[..j] == blocks;
    }
  }

  /** extract_temps_from_weather_data: the sections loop. */
  method ExtractTemps(doc: Doc) returns (temps: TempMap)
    ensures temps == Temps(doc)
  {
    temps := map[];
    if !Truthy(doc) || doc.NotAList? {
      return;
    }
    var secs := doc.sections;
    var i := 0;
    while i < |secs|
      invariant i <= |secs|
      invariant temps == ApplyAll(map[], SectionsWrites(secs[..i]))
    {
      SectionsWritesStep(secs, i);
      temps := ScanSection(temps, secs[i]);
      ApplyAllAppend(map[], SectionsWrites(secs[..i]), SectionWrites(secs[i]));
      i := i + 1;
    }
    assert secs[..i] == secs;
  }
}
