# JMA forecast pipeline, modelled in Dafny

A model of the data path of `work_week3/main.py`. The program fetches a
Japan Meteorological Agency forecast document for a region and flattens
it into one row per (series, area, timestamp). It caches those rows in a
`weather_forecast` table and reads them back sorted by timestamp. The
model covers these parts:

- **`AreaIndex`**: `create_area_mapping`, a loop that builds the office
  code → name index. An office with no name gets `"不明"`.
- **`WeatherText`**: `convert_weather_to_emoji`.
  - Python's `str.replace` is modelled as `Replace`, a left-to-right,
    non-overlapping replace-all on `seq<char>`.
  - The transform is the fold `ReplaceAll` over the five pictograph
    substitutions and then the three punctuation substitutions.
  - The method performs the same loop and the same three calls.
  - The tokens share no character and no replacement holds one. So a
    token anywhere in a text becomes its replacement, and the text on
    each side converts as if alone (`EmojiAround`).
- **`Temperatures`**: `extract_temps_from_weather_data`.
  - The four nested loops are proved equal to a fold of map updates.
  - The updates are applied in walk order: one per (section, block, area,
    index) of an area that carries both `tempsMin` and `tempsMax`.
  - Lemmas about the fold state its key set, where each value comes from,
    and that the last write wins.
- **`ForecastStore`**: the table.
  - It is a class whose `rows` field only ever grows by appending
    (`save_weather_data_to_db`).
  - `get_weather_data_from_db` is modelled as `Query`, a function: filter
    by area code, then sort ascending by `forecast_time` in text order.
- **`Normalizer`** (a specification) and **`Cache`** (the code):
  - `Normalizer` describes the rows the populate branch of
    `show_weather_data` inserts, as nested concatenations over section 0.
  - `Cache.ShowWeatherData` models the branch itself: fetch, extract
    temperatures, query, and on a miss populate and re-query. It calls
    `ConvertWeatherToEmoji`, `ExtractTemps` and `Store.Insert`.
  - Lemmas state what the cache guarantees across calls.

The JSON documents are typed values (`ForecastDoc`). A missing key is
`None`, and `dict.get(k, default)` is `GetOr(default)`. A forecast
document is either a list of sections or some other JSON value with a
Python truthiness. The fetch is an `Option<Doc>` argument: `None` means
the request failed.

Behaviour of `main.py` the model keeps:

- The code fetches the forecast before it looks at the table
  (`work_week3/main.py:161-165`).
  - A region that already has rows is still fetched.
  - A failed fetch shows the error even when rows are cached
    (`ShowWeatherData`, first ensures).
  - The rows shown on a hit are the cached ones, unchanged.
- A successful fetch of a first section with no (area, timestamp) pair
  inserts nothing and shows an empty list, not an error. The region
  then stays cold (`PopulateWarms`).

## Model

| member | source | states |
|---|---|---|
| AreaIndex.CreateAreaMapping | work_week3/main.py:75-81 | A document that is not an object, or has no `offices`, gives the empty map. Otherwise the keys are exactly the office codes, and each value is the office's name or "不明" when the name is missing. |
| WeatherText.ConvertWeatherToEmoji | work_week3/main.py:83-98 | The result is the five pictograph replace-alls in dictionary order, then "時々", "〜" and "朝晩", each applied to the running text (`Emoji`). |
| WeatherText.EmojiInTwo | work_week3/main.py:91-96 | The transform is the dictionary loop's five replace-alls followed by the three single replace calls, in that order. |
| WeatherText.EmojiCloudy | work_week3/main.py:85 | "くもり" alone becomes the cloud pictograph followed by U+FE0F. |
| WeatherText.EmojiSnow | work_week3/main.py:86 | "雪" alone becomes the snowman pictograph followed by U+FE0F. |
| WeatherText.EmojiSunny | work_week3/main.py:87 | "晴れ" alone becomes the sun pictograph followed by U+FE0F. |
| WeatherText.EmojiThunder | work_week3/main.py:88 | "雷" alone becomes the high-voltage pictograph followed by U+FE0F. |
| WeatherText.EmojiRain | work_week3/main.py:89 | "雨" alone becomes the umbrella-with-rain pictograph followed by U+FE0F. |
| WeatherText.EmojiWaveDash | work_week3/main.py:95 | "〜" alone becomes "→". |
| WeatherText.EmojiMorningEvening | work_week3/main.py:96 | "朝晩" alone becomes "/". |
| WeatherText.EmojiAround | work_week3/main.py:84-96 | For every entry of the table and all texts x and y: converting x + token + y gives the conversion of x, then the entry's replacement, then the conversion of y. Substitutions of distinct tokens do not interfere, and each token becomes its replacement wherever it stands. |
| WeatherText.ReplaceAllAround | work_week3/main.py:91-96 | For any table whose tokens share no character and whose replacements hold no token character: after each prefix of the table, an entry's token between two texts has become its replacement exactly once that entry has been applied, and the two sides are converted independently. |
| WeatherText.TableSeparated | work_week3/main.py:84-96 | The eight tokens share no character. No replacement other than the identity "時々" holds a token character. Each token's first and last characters occur in it once. |
| WeatherText.ReplaceConcat | work_week3/main.py:92 | A replace-all over a concatenation is the replace-all of each part when no match can straddle the seam. |
| WeatherText.EmojiRemovesTokens | work_week3/main.py:91-96 | None of the seven rewritten tokens (every left-hand side of the table but "時々") occurs in the output, whatever the input. |
| WeatherText.EmojiUnchanged | work_week3/main.py:91-96 | A text that contains none of the seven rewritten tokens comes back unchanged. |
| WeatherText.EmojiIdempotent | work_week3/main.py:83-98 | Converting a second time changes nothing. |
| WeatherText.EmojiTwoTokens | work_week3/main.py:84-96 | Worked example of `EmojiAround`: "晴れ時々くもり" becomes sun, "時々", cloud. |
| WeatherText.ReplaceEliminates | work_week3/main.py:92 | After replacing a pattern by text that shares no character with it, the pattern no longer occurs. |
| WeatherText.ReplacePreservesAbsence | work_week3/main.py:92 | A replacement whose text shares no character with another token does not create that token. |
| Temperatures.ExtractTemps | work_week3/main.py:100-128 | The four nested loops compute `Temps(doc)`, the fold of the walk's updates. A falsy or non-list document gives the empty map. |
| Temperatures.ScanSection | work_week3/main.py:108-126 | One section's loop applies the updates of its blocks in order. A section without `timeSeries` is skipped. |
| Temperatures.ScanBlock | work_week3/main.py:112-126 | One block's loop applies the updates of its areas in order. A block lacking `timeDefines` or `areas` is skipped. |
| Temperatures.ScanArea | work_week3/main.py:118-126 | One area's index loop applies that area's updates in index order. An area lacking `tempsMin` or `tempsMax` is skipped. |
| Temperatures.TempsKeys | work_week3/main.py:104-121 | A falsy or non-list document gives the empty map. Otherwise a timestamp is a key exactly when some block with `timeDefines` and `areas` lists it for an area carrying both temperature arrays. |
| Temperatures.TempsValueFrom | work_week3/main.py:121-126 | A present bound is never the empty string. It is an in-range entry of that bound's array at a site whose timestamp is exactly the key. |
| Temperatures.TempsLastWrite | work_week3/main.py:121-126 | The last update at a timestamp that sets a bound decides that bound. Later blocks overwrite earlier ones. |
| Temperatures.TempsNoWrite | work_week3/main.py:120-126 | A bound that no update at the timestamp sets stays absent. An out-of-range index or an empty entry never sets it. |
| Temperatures.SectionsWritesFrom | work_week3/main.py:107-119 | An update is in the walk exactly when it comes from a (section, block, area, index) site that qualifies. |
| Normalizer.BlocksRowsAt | work_week3/main.py:168-189 | The row for (series b, area a, index idx) sits at position rows-before-b + a·\|timeDefines\| + idx. It holds the emoji of `weathers[idx]` and `winds[idx]`, `waves[idx]`, each `None` past the end of its array, plus the temperatures at that exact timestamp. |
| Normalizer.BlocksRowsFrom | work_week3/main.py:168-189 | Every inserted row comes from some (series, area, index) of section 0. |
| Normalizer.NormalizeCount | work_week3/main.py:168-189 | The number of rows inserted is the sum over section 0's series of \|areas\| × \|timeDefines\|, whatever the lengths of the other arrays. |
| Normalizer.NormalizeCodes | work_week3/main.py:186-189 | Every inserted row carries the requested area code. |
| Normalizer.NormalizeTemps | work_week3/main.py:182-184 | A row's bounds are absent when its timestamp string is not a key. A present bound comes from a temperature entry at exactly that timestamp string and is not empty. |
| Normalizer.ShortWeathers | work_week3/main.py:173-180 | For `ShortDoc`, with two timestamps and `weathers = ["くもり"]`, there are two rows: the first has the cloud pictograph, the second has no weather. |
| ForecastStore.Store.Insert | work_week3/main.py:31-41 | Appends exactly one row. The earlier rows are unchanged. |
| ForecastStore.Query | work_week3/main.py:43-57 | The result is sorted ascending by `forecastTime`. Each row with the area code appears exactly as often as in the table, and no other row appears. |
| ForecastStore.TimeLeqTotal | work_week3/main.py:51 | Text order is total, so any two timestamps can be ordered. |
| ForecastStore.TimeLeqTrans | work_week3/main.py:51 | Text order is transitive. |
| Cache.ShowWeatherData | work_week3/main.py:160-191 | A failed fetch shows the error and writes nothing. A hit writes nothing and shows the cached rows. A miss appends exactly the normalized rows of the fetched document and shows the re-read table. |
| Cache.Populate | work_week3/main.py:168-189 | The populate loop over the first section's series appends exactly the normalized rows, in walk order. |
| Cache.PopulateSeries | work_week3/main.py:171-189 | The loop over one series' areas appends each area's rows in area order. |
| Cache.PopulateArea | work_week3/main.py:173-189 | The index loop appends one row per timestamp of the series, in order. |
| Cache.QueryEmpty | work_week3/main.py:165-167 | A region is a miss exactly when no stored row has its code. |
| Cache.ColdShowsInserted | work_week3/main.py:167-191 | After a miss, the re-read shows exactly the rows just inserted, each once, sorted by time. |
| Cache.ColdShowsCount | work_week3/main.py:167-191 | After a miss, the number of rows shown is the normalizer's row count. |
| Cache.PopulateWarms | work_week3/main.py:165-191 | A miss leaves the region warm (the next show inserts nothing) exactly when section 0 has at least one (area, timestamp) pair. |
| Cache.OtherRegionUnchanged | work_week3/main.py:165-191 | Populating one region changes no other region's query result. |

## Left out

- The flet user interface is not modelled: `main`, the panels, the tiles, the rendering loop (`work_week3/main.py:130-159`, `193-277`) and `ft.app`. It is presentation only.
- Network access and JSON decoding are not modelled (`fetch_json_from_url`, `load_area_data`, `load_weather_data`, `work_week3/main.py:59-73`). The fetched forecast is an `Option<Doc>` argument and the metadata an `AreaDoc` argument.
- SQLite specifics are not modelled: connections, commit and close, the `CREATE TABLE`, and the auto-assigned `id` (`work_week3/main.py:10-29`). The table is a `seq<Row>` without ids.
- Temperatures stay the raw strings of the document, so `float(...)` (`work_week3/main.py:124`, `126`) is not modelled. A malformed numeral, which would raise in the source, is not an error here.
- The `KeyError` raised for an area with no `area.name` (`work_week3/main.py:172`) is not modelled. It becomes a precondition: `Normalizable` on a miss.
  - The consequence in the source is not modelled either. `save_weather_data_to_db` commits each row on its own (`work_week3/main.py:40`). The error comes at the first unnamed area, after the rows of every earlier area of section 0 are committed. The region is left with a partial row set. The next show finds rows (`work_week3/main.py:165-167`), counts the region as warm and never completes it.
  - `ShowWeatherData` promises nothing for such a document, since its precondition excludes it.
- Reading `weather_data[0]` on a miss (`work_week3/main.py:168`) fails for a truthy document that is not a list, and the model makes this a precondition too. An object raises `KeyError`, a number or boolean raises `TypeError`, and a string raises `AttributeError` at `.get`. An empty list never gets there: it is falsy and takes the error branch at `work_week3/main.py:162`.
- JSON values of the wrong type are not modelled: an `offices`, `timeSeries` or array value that is not an object or a list, or a `null` name.
- ForecastStore.Query: returns whole rows, including `areaCode`, where the `SELECT` projects seven columns.
- ForecastStore.Query: does not promise the order of rows with equal `forecast_time`. SQLite leaves it unspecified. The model sorts stably.
- Temperatures.ExtractTemps: the four nested loops of one Python function are four methods, one loop each: `ExtractTemps`, `ScanSection`, `ScanBlock` and `ScanArea`.
- Cache.ShowWeatherData: the three nested populate loops are three methods, one loop each: `Populate`, `PopulateSeries` and `PopulateArea`.
- WeatherText.Replace: the pattern is a non-empty `Token`. Python's `str.replace` with an empty pattern inserts the replacement between characters, which is not modelled; every pattern of `convert_weather_to_emoji` is non-empty.
