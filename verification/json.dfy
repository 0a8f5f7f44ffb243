/**
  The parsed token header, as the validators see it: a JSON object whose
  fields are looked up by name. Parsing is done elsewhere; only the shape of
  a parsed value matters here, in particular whether a field holds a string.
 */
module Json {
  import opened Wrappers

  /** A JSON value, reduced to what the dispatch tells apart: a string or something else. */
  datatype JsonValue =
    | JString(text: string)
    | JInteger(number: int)
    | JBoolean(flag: bool)
    | JNull

  /** A JSON object: field name to value. */
  type Header = map<string, JsonValue>

  /**
    The string held by `field` of the header, if any. A missing header (a null
    pointer), a missing field and a field that holds a non-string value all
    give `None`; the callers treat those three alike.
   */
  function GetString(hdr: Option<Header>, field: string): (r: Option<string>)
    ensures r.Some? <==> hdr.Some? && field in hdr.value && hdr.value[field].JString?
    ensures r.Some? ==> hdr.value[field] == JString(r.value)
  {
    match hdr
    case None => None
    case Some(h) =>
      if field in h && h[field].JString? then Some(h[field].text) else None
  }

  /** A one-field header: what `json_pack("{ss}", name, text)` or `json_pack("{si}", name, n)` builds. */
  function Single(field: string, value: JsonValue): (h: Header)
    ensures h.Keys == {field} && h[field] == value
  {
    map[field := value]
  }

  /**
    Reading a one-field header: its own field gives back the string it holds
    and nothing if it holds a number; any other name gives nothing.
   */
  lemma GetStringOfSingle(field: string, value: JsonValue, other: string)
    requires other != field
    ensures GetString(Some(Single(field, value)), field)
              == (if value.JString? then Some(value.text) else None)
    ensures GetString(Some(Single(field, value)), other) == None
  {
  }
}
