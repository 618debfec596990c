/*
 * The length presets: the closed table from a preset name to the
 * min_length/max_length pair handed to the summarization model.
 */
module LengthPresets {

  datatype Option<T> = None | Some(value: T)

  /** The min_length and max_length arguments of one preset. */
  datatype LengthParams = LengthParams(minLength: nat, maxLength: nat)

  const LengthTable: map<string, LengthParams> := map[
    "Brief" := LengthParams(20, 50),
    "Medium" := LengthParams(50, 130),
    "Detailed" := LengthParams(100, 250)
  ]

  /** length_params[length]; None is the KeyError raised for any other name. */
  function Preset(name: string): (r: Option<LengthParams>)
    ensures r.Some? <==> name == "Brief" || name == "Medium" || name == "Detailed"
    ensures r.Some? ==> r.value.minLength < r.value.maxLength
  {
    if name in LengthTable then Some(LengthTable[name]) else None
  }

  /** The three presets and their bounds, in the order of the length choice. */
  lemma PresetValues()
    ensures Preset("Brief") == Some(LengthParams(20, 50))
    ensures Preset("Medium") == Some(LengthParams(50, 130))
    ensures Preset("Detailed") == Some(LengthParams(100, 250))
  {
  }
}
