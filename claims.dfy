/**
 * The claims map that JWT decoding hands to the token provider, and the
 * `toString()` rendering the provider applies to a claim value.
 */
module Claims {
  import opened Wrappers
  import opened JavaLang

  /** A claim value as the JSON decoder produces it: a string, a list of
      strings (as the `scp` claim is issued), JSON null, or any other value,
      which is represented by the text its `toString()` returns. */
  datatype ClaimValue =
    | Text(text: string)
    | TextList(items: seq<string>)
    | JsonNull
    | Other(rendering: string)

  /** The decoded claims, keyed by claim name. */
  type ClaimsMap = map<string, ClaimValue>

  /** `List.toString()`: the elements separated by `", "` inside square brackets. */
  function ListToString(xs: seq<string>): (r: string)
    ensures |r| >= 2 && r[0] == '[' && r[|r| - 1] == ']'
  {
    "[" + Join(xs, ", ") + "]"
  }

  /** `v.toString()`; `None` is the NullPointerException raised on a JSON null. */
  function ToString(v: ClaimValue): (r: Option<string>)
    ensures r.None? <==> v.JsonNull?
  {
    match v
    case Text(s) => Some(s)
    case TextList(xs) => Some(ListToString(xs))
    case JsonNull => None
    case Other(s) => Some(s)
  }

  /** `claims.get(key).toString()`; `None` is the NullPointerException raised
      when the key is absent or its value is JSON null. */
  function ClaimString(claims: ClaimsMap, key: string): (r: Option<string>)
    ensures r.Some? <==> key in claims && !claims[key].JsonNull?
    ensures key in claims && claims[key].Text? ==> r == Some(claims[key].text)
    ensures key in claims && claims[key].TextList? ==> r == Some(ListToString(claims[key].items))
  {
    if key in claims then ToString(claims[key]) else None
  }
}
