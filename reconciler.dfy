/** Per-batch reconciliation: index the Gemini records by the label they
    answer, then extend every DeepSeek record with six `gemini_*` columns
    taken from the matching Gemini record, or null. */
module Reconciler {
  import opened Common

  /** The six columns added to a DeepSeek record, each with the Gemini field
      it is copied from. */
  const GeminiFields: seq<(string, string)> := [
    ("gemini_mapped_brand", "mapped_brand"),
    ("gemini_mapped_device_model", "mapped_device_model"),
    ("gemini_cpu_name", "cpu_name"),
    ("gemini_cpu_core", "cpu_core"),
    ("gemini_ram", "ram"),
    ("gemini_refresh_rate", "refresh_rate")
  ]

  function GeminiColumns(): (cols: set<string>)
    ensures cols == {"gemini_mapped_brand", "gemini_mapped_device_model", "gemini_cpu_name",
                     "gemini_cpu_core", "gemini_ram", "gemini_refresh_rate"}
  {
    assert GeminiFields[0].0 == "gemini_mapped_brand";
    assert GeminiFields[1].0 == "gemini_mapped_device_model";
    assert GeminiFields[2].0 == "gemini_cpu_name";
    assert GeminiFields[3].0 == "gemini_cpu_core";
    assert GeminiFields[4].0 == "gemini_ram";
    assert GeminiFields[5].0 == "gemini_refresh_rate";
    set j | 0 <= j < |GeminiFields| :: GeminiFields[j].0
  }

  /** `gm_map`: Gemini records keyed by their `origin_device_model`;
      records without that field are left out, and a later record replaces
      an earlier one with the same key. Every entry is a record of `gm`
      stored under its own key. */
  function GeminiIndex(gm: seq<Record>): (idx: map<Value, Record>)
    ensures idx.Keys == set i | 0 <= i < |gm| && OriginField in gm[i] :: gm[i][OriginField]
    ensures forall v :: v in idx ==> idx[v] in gm && OriginField in idx[v] && idx[v][OriginField] == v
  {
    if gm == [] then map[]
    else
      var front := gm[..|gm| - 1];
      var idx := GeminiIndex(front);
      var r := gm[|gm| - 1];
      assert forall i :: 0 <= i < |front| ==> front[i] == gm[i];
      assert forall x :: x in front ==> x in gm;
      if OriginField in r then idx[r[OriginField] := r] else idx
  }

  /** A key maps to the LAST Gemini record carrying it. */
  lemma {:induction false} GeminiIndexLast(gm: seq<Record>, i: nat)
    requires i < |gm| && OriginField in gm[i]
    requires forall j :: i < j < |gm| && OriginField in gm[j] ==> gm[j][OriginField] != gm[i][OriginField]
    ensures GeminiIndex(gm)[gm[i][OriginField]] == gm[i]
  {
    if i < |gm| - 1 {
      var front := gm[..|gm| - 1];
      assert front[i] == gm[i];
      GeminiIndexLast(front, i);
    }
  }

  /** The Gemini record matched to `row`, or `{}`: the row's key is read
      with `get`, so a row without `origin_device_model` looks up None. */
  function Match(row: Record, idx: map<Value, Record>): Record
  {
    var key := Get(row, OriginField);
    if key in idx then idx[key] else map[]
  }

  /** Lines 224-232: the DeepSeek record with the six `gemini_*` columns
      set. Its other fields are untouched, and each new column holds the
      matched record's field, or null. */
  function MergeRow(row: Record, idx: map<Value, Record>): (out: Record)
    ensures out.Keys == row.Keys + GeminiColumns()
    ensures forall k :: k in row && k !in GeminiColumns() ==> out[k] == row[k]
    ensures forall j :: 0 <= j < |GeminiFields| ==>
              out[GeminiFields[j].0] == Get(Match(row, idx), GeminiFields[j].1)
  {
    var gm := Match(row, idx);
    row["gemini_mapped_brand" := Get(gm, "mapped_brand")]
       ["gemini_mapped_device_model" := Get(gm, "mapped_device_model")]
       ["gemini_cpu_name" := Get(gm, "cpu_name")]
       ["gemini_cpu_core" := Get(gm, "cpu_core")]
       ["gemini_ram" := Get(gm, "ram")]
       ["gemini_refresh_rate" := Get(gm, "refresh_rate")]
  }

  /** When Gemini answered the row's label, the `gemini_*` columns are the
      fields of its last record for that label (null where it lacks one). */
  lemma MergeMatched(row: Record, gm: seq<Record>, i: nat)
    requires i < |gm| && OriginField in gm[i] && gm[i][OriginField] == Get(row, OriginField)
    requires forall j :: i < j < |gm| && OriginField in gm[j] ==> gm[j][OriginField] != gm[i][OriginField]
    ensures forall j :: 0 <= j < |GeminiFields| ==>
              MergeRow(row, GeminiIndex(gm))[GeminiFields[j].0] == Get(gm[i], GeminiFields[j].1)
  {
    GeminiIndexLast(gm, i);
  }

  /** When no Gemini record carries the row's label (in particular when
      Gemini returned nothing), all six columns are null. */
  lemma MergeUnmatched(row: Record, gm: seq<Record>)
    requires forall i :: 0 <= i < |gm| && OriginField in gm[i] ==> gm[i][OriginField] != Get(row, OriginField)
    ensures forall j :: 0 <= j < |GeminiFields| ==>
              MergeRow(row, GeminiIndex(gm))[GeminiFields[j].0] == Null
  {
    assert Get(row, OriginField) !in GeminiIndex(gm);
  }

  /** A DeepSeek record without `origin_device_model` is matched to a
      Gemini record whose `origin_device_model` is JSON null, since both
      read as None. */
  lemma MissingKeyMatchesNullKey(row: Record, g: Record)
    requires OriginField !in row && OriginField in g && g[OriginField] == Null
    ensures Match(row, GeminiIndex([g])) == g
  {
    GeminiIndexLast([g], 0);
  }

  /** The merge of a whole batch: one row per DeepSeek record, in order. */
  function MergeAll(ds: seq<Record>, idx: map<Value, Record>): (rows: seq<Record>)
    ensures |rows| == |ds|
    ensures forall i :: 0 <= i < |ds| ==> rows[i] == MergeRow(ds[i], idx)
  {
    seq(|ds|, i requires 0 <= i < |ds| => MergeRow(ds[i], idx))
  }
}
