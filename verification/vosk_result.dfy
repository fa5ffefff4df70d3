/** `ParseVoskJson`: picking the recognised text out of the recogniser's JSON
    reply. The JSON decoder is outside the model: its outcome on `json` is
    given as `decoded`, an object's keys mapped to the string form of their
    values, or `None` when decoding throws. */
module VoskResult {
  import opened Wrappers
  import opened Text

  type JsonObject = map<string, string>

  const PartialKey: string := "partial"
  const TextKey: string := "text"

  /** The text of a recogniser reply. A blank reply or one that fails to
      decode yields the empty string; otherwise the `partial` field when
      `preferPartial` asks for it and it is there, else `text`, else
      `partial`, else the empty string. */
  function ParseVoskJson(json: string, decoded: Option<JsonObject>, preferPartial: bool): (r: string)
    ensures IsNullOrWhiteSpace(json) || decoded.None? ==> r == ""
    ensures !IsNullOrWhiteSpace(json) && decoded.Some? ==>
      var obj := decoded.value;
      && (preferPartial && PartialKey in obj ==> r == obj[PartialKey])
      && (!preferPartial && TextKey in obj ==> r == obj[TextKey])
      && (TextKey in obj && PartialKey !in obj ==> r == obj[TextKey])
      && (TextKey !in obj && PartialKey in obj ==> r == obj[PartialKey])
      && (TextKey !in obj && PartialKey !in obj ==> r == "")
  {
    if IsNullOrWhiteSpace(json) then ""
    else match decoded
      case None => ""
      case Some(obj) =>
        if preferPartial && PartialKey in obj then obj[PartialKey]
        else if TextKey in obj then obj[TextKey]
        else if PartialKey in obj then obj[PartialKey]
        else ""
  }

  /** The result is never invented: it is empty or the value of one of the
      two recognised keys. */
  lemma ResultComesFromReply(json: string, decoded: Option<JsonObject>, preferPartial: bool)
    ensures var r := ParseVoskJson(json, decoded, preferPartial);
      r == "" || (decoded.Some? && ((PartialKey in decoded.value && r == decoded.value[PartialKey])
                                    || (TextKey in decoded.value && r == decoded.value[TextKey])))
  {
  }

  /** The preference flag matters exactly when the reply carries both keys
      with different values. */
  lemma PreferenceMattersOnlyWithBothKeys(json: string, decoded: Option<JsonObject>)
    ensures ParseVoskJson(json, decoded, true) != ParseVoskJson(json, decoded, false)
        <==> (&& !IsNullOrWhiteSpace(json) && decoded.Some?
              && PartialKey in decoded.value && TextKey in decoded.value
              && decoded.value[PartialKey] != decoded.value[TextKey])
  {
  }
}
