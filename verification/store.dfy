/** The forecast table: an append-only list of rows, read back per area
    code in timestamp order (work_week3/main.py:31-57). */
module ForecastStore {
  import opened Wrappers

  /** One row of `weather_forecast`, without the engine-assigned id.
      Temperatures are the raw strings of the forecast document. */
  datatype Row = Row(
    areaCode: string,
    areaName: string,
    forecastTime: string,
    weather: Option<string>,
    wind: Option<string>,
    wave: Option<string>,
    minTemp: Option<string>,
    maxTemp: Option<string>)

  /** Text order: character by character, a proper prefix first. On
      Unicode scalar values this is the byte order of their UTF-8
      encodings, which is how the table compares TEXT. */
  predicate TimeLeq(a: string, b: string)
    decreases |a|
  {
    if a == [] then true
    else if b == [] then false
    else if a[0] != b[0] then a[0] < b[0]
    else TimeLeq(a[1..], b[1..])
  }

  lemma {:induction false} TimeLeqTotal(a: string, b: string)
    ensures TimeLeq(a, b) || TimeLeq(b, a)
    decreases |a|
  {
    if a != [] && b != [] && a[0] == b[0] {
      TimeLeqTotal(a[1..], b[1..]);
    }
  }

  lemma {:induction false} TimeLeqTrans(a: string, b: string, c: string)
    requires TimeLeq(a, b) && TimeLeq(b, c)
    ensures TimeLeq(a, c)
    decreases |a|
  {
    if a != [] && b != [] && c != [] && a[0] == b[0] && b[0] == c[0] {
      TimeLeqTrans(a[1..], b[1..], c[1..]);
    }
  }

  /** Rows in ascending `forecastTime` order. */
  ghost predicate Sorted(rows: seq<Row>) {
    forall i, j :: 0 <= i < j < |rows| ==> TimeLeq(rows[i].forecastTime, rows[j].forecastTime)
  }

  /** The rows with the given area code, in table order. */
  function Matching(rows: seq<Row>, code: string): (r: seq<Row>)
    ensures forall x :: multiset(r)[x] == if x.areaCode == code then multiset(rows)[x] else 0
    decreases |rows|
  {
    if rows == [] then []
    else
      var last := rows[|rows| - 1];
      assert rows == rows[..|rows| - 1] + [last];
      Matching(rows[..|rows| - 1], code) + (if last.areaCode == code then [last] else [])
  }

  /** Insert `x` into a sorted list after every row not later than it. */
  function InsertByTime(x: Row, sorted: seq<Row>): (r: seq<Row>)
    requires Sorted(sorted)
    ensures Sorted(r) && multiset(r) == multiset(sorted) + multiset{x}
    decreases |sorted|
  {
    if sorted == [] then [x]
    else if TimeLeq(sorted[0].forecastTime, x.forecastTime) then
      SortedTail(sorted);
      var tail := InsertByTime(x, sorted[1..]);
      assert sorted == [sorted[0]] + sorted[1..];
      HeadBelowInserted(sorted, x, tail);
      ConsSorted(sorted[0], tail);
      [sorted[0]] + tail
    else
      BelowHead(x, sorted);
      ConsSorted(x, sorted);
      [x] + sorted
  }

  lemma SortedTail(sorted: seq<Row>)
    requires Sorted(sorted) && sorted != []
    ensures Sorted(sorted[1..])
  {
    forall i, j | 0 <= i < j < |sorted| - 1
      ensures TimeLeq(sorted[1..][i].forecastTime, sorted[1..][j].forecastTime)
    {
      assert sorted[1..][i] == sorted[i + 1] && sorted[1..][j] == sorted[j + 1];
    }
  }

  /** A row not later than every row of a sorted list can lead it. */
  lemma ConsSorted(h: Row, tail: seq<Row>)
    requires Sorted(tail)
    requires forall k :: 0 <= k < |tail| ==> TimeLeq(h.forecastTime, tail[k].forecastTime)
    ensures Sorted([h] + tail)
  {
    var r := [h] + tail;
    forall i, j | 0 <= i < j < |r|
      ensures TimeLeq(r[i].forecastTime, r[j].forecastTime)
    {
      assert r[j] == tail[j - 1];
      if i > 0 {
        assert r[i] == tail[i - 1];
      }
    }
  }

  /** The head of a sorted list is not later than anything of its tail
      with a row inserted that is not earlier than the head. */
  lemma HeadBelowInserted(sorted: seq<Row>, x: Row, tail: seq<Row>)
    requires Sorted(sorted) && sorted != []
    requires TimeLeq(sorted[0].forecastTime, x.forecastTime)
    requires multiset(tail) == multiset(sorted[1..]) + multiset{x}
    ensures forall k :: 0 <= k < |tail| ==> TimeLeq(sorted[0].forecastTime, tail[k].forecastTime)
  {
    forall k | 0 <= k < |tail|
      ensures TimeLeq(sorted[0].forecastTime, tail[k].forecastTime)
    {
      assert tail[k] in multiset(tail);
      if tail[k] != x {
        assert tail[k] in sorted[1..];
      }
    }
  }

  /** A row earlier than the head of a sorted list is not later than any
      of its rows. */
  lemma BelowHead(x: Row, sorted: seq<Row>)
    requires Sorted(sorted) && sorted != []
    requires !TimeLeq(sorted[0].forecastTime, x.forecastTime)
    ensures forall k :: 0 <= k < |sorted| ==> TimeLeq(x.forecastTime, sorted[k].forecastTime)
  {
    TimeLeqTotal(sorted[0].forecastTime, x.forecastTime);
    forall k | 0 <= k < |sorted|
      ensures TimeLeq(x.forecastTime, sorted[k].forecastTime)
    {
      if k > 0 {
        TimeLeqTrans(x.forecastTime, sorted[0].forecastTime, sorted[k].forecastTime);
      }
    }
  }

  /** A stable sort by `forecastTime`. */
  function SortByTime(rows: seq<Row>): (r: seq<Row>)
    ensures Sorted(r) && multiset(r) == multiset(rows)
    decreases |rows|
  {
    if rows == [] then []
    else
      assert rows == rows[..|rows| - 1] + [rows[|rows| - 1]];
      InsertByTime(rows[|rows| - 1], SortByTime(rows[..|rows| - 1]))
  }

  /** get_weather_data_from_db: exactly the rows of the area, each as often
      as it was inserted, in ascending time order. The order among rows with
      equal times is not promised. */
  function Query(rows: seq<Row>, code: string): (r: seq<Row>)
    ensures Sorted(r)
    ensures forall x :: multiset(r)[x] == if x.areaCode == code then multiset(rows)[x] else 0
  {
    SortByTime(Matching(rows, code))
  }

  /** The table: rows are only ever appended. */
  class Store {
    var rows: seq<Row>

    constructor ()
      ensures rows == []
    {
      rows := [];
    }

    /** save_weather_data_to_db: append one row; the others stay as they were. */
    method Insert(areaCode: string, areaName: string, forecastTime: string,
                  weather: Option<string>, wind: Option<string>, wave: Option<string>,
                  minTemp: Option<string>, maxTemp: Option<string>)
      modifies this
      ensures rows == old(rows) + [Row(areaCode, areaName, forecastTime, weather, wind, wave, minTemp, maxTemp)]
    {
      rows := rows + [Row(areaCode, areaName, forecastTime, weather, wind, wave, minTemp, maxTemp)];
    }
  }
}
