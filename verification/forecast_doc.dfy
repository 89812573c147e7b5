/** The two JSON documents the pipeline consumes, as typed values: the
    area metadata (area.json) and the per-region forecast document.
    An absent key is `None` rather than a failed membership test. */
module ForecastDoc {
  import opened Wrappers

  /** One entry of a time-series block's `areas` array. `name` is the
      block's `area.name`; the five arrays are index-aligned with the
      block's `timeDefines` but may be shorter. Temperatures are kept as
      the raw strings of the document. */
  datatype Area = Area(
    name: Option<string>,
    weathers: Option<seq<string>>,
    winds: Option<seq<string>>,
    waves: Option<seq<string>>,
    tempsMin: Option<seq<string>>,
    tempsMax: Option<seq<string>>)

  /** A time-series block: a list of timestamps and the areas it covers. */
  datatype TimeSeries = TimeSeries(timeDefines: Option<seq<string>>, areas: Option<seq<Area>>)

  /** A forecast section (one element of the top-level array). */
  datatype Section = Section(timeSeries: Option<seq<TimeSeries>>)

  /** The decoded forecast document: either a JSON array of sections, or
      some other JSON value, which Python reads as truthy or falsy. */
  datatype Doc = Sections(sections: seq<Section>) | NotAList(truthy: bool)

  /** Python truthiness of the decoded document: a list is truthy when it
      is not empty. */
  predicate Truthy(doc: Doc) {
    match doc
    case Sections(secs) => |secs| > 0
    case NotAList(t) => t
  }

  /** The result of fetching the forecast: `None` when the request failed. */
  predicate Fetched(fetched: Option<Doc>) {
    fetched.Some? && Truthy(fetched.value)
  }

  /** An entry of the metadata document's `offices` object. */
  datatype Office = Office(name: Option<string>)

  /** The area metadata document: a JSON object whose `offices` key may be
      absent, or any other JSON value. */
  datatype AreaDoc = NotAnObject | AreaObject(offices: Option<map<string, Office>>)
}
