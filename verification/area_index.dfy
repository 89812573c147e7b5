/** The area index: office code to display name (work_week3/main.py:75-81). */
module AreaIndex {
  import opened Wrappers
  import opened ForecastDoc

  /** The name shown for an office whose `name` is missing. */
  const Unknown: string := "不明"

  /** create_area_mapping: one entry per office, named by the office's
      `name` or `Unknown`; anything but an object gives the empty map. */
  method CreateAreaMapping(data: AreaDoc) returns (codeToName: map<string, string>)
    ensures data.NotAnObject? || data.offices.None? ==> codeToName == map[]
    ensures data.AreaObject? && data.offices.Some? ==>
      codeToName.Keys == data.offices.value.Keys &&
      forall code :: code in codeToName ==> codeToName[code] == data.offices.value[code].name.GetOr(Unknown)
  {
    codeToName := map[];
    if data.AreaObject? {
      var offices := data.offices.GetOr(map[]);
      var todo := offices.Keys;
      while todo != {}
        invariant todo <= offices.Keys
        invariant codeToName.Keys == offices.Keys - todo
        invariant forall code :: code in codeToName ==> codeToName[code] == offices[code].name.GetOr(Unknown)
        decreases todo
      {
        var code :| code in todo;
        codeToName := codeToName[code := offices[code].name.GetOr(Unknown)];
        todo := todo - {code};
      }
    }
  }
}
