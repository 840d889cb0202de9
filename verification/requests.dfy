/** Reading fields out of a request's JSON object. */
module Requests {
  import opened Outcomes
  import opened Rows
  import opened Responses

  /** A request's JSON object body. */
  type JsonBody = map<string, Value>

  /** The text of the `KeyError` Python raises for a missing key: the key, quoted. */
  function KeyErrorText(key: string): string
  {
    "'" + key + "'"
  }

  /** `data[key]`: the field's value, or the `KeyError` a missing key raises. */
  function Field(body: JsonBody, key: string): (r: Result<Value, DbError>)
    ensures r.Ok? <==> key in body
    ensures r.Ok? ==> r.value == body[key]
    ensures r.Err? ==> r.error == OtherError(KeyErrorText(key))
  {
    if key in body then Ok(body[key]) else Err(OtherError(KeyErrorText(key)))
  }

  /** `data.get(key)`: the field's value, or NULL when it is absent. */
  function Get(body: JsonBody, key: string): (v: Value)
    ensures key in body ==> v == body[key]
    ensures key !in body ==> v == Null
  {
    if key in body then body[key] else Null
  }

  /**
   * `(data[k0], data[k1], ...)`: the fields read left to right; the first
   * missing key raises its `KeyError`.
   */
  function Fields(body: JsonBody, keys: seq<string>): (r: Result<seq<Value>, DbError>)
    ensures r.Ok? <==> forall k :: 0 <= k < |keys| ==> keys[k] in body
    ensures r.Ok? ==> |r.value| == |keys| && forall k :: 0 <= k < |keys| ==> r.value[k] == body[keys[k]]
    ensures r.Err? ==> exists k ::
      && 0 <= k < |keys|
      && keys[k] !in body
      && (forall j :: 0 <= j < k ==> keys[j] in body)
      && r.error == OtherError(KeyErrorText(keys[k]))
  {
    if keys == [] then Ok([])
    else
      match Field(body, keys[0])
      case Err(e) => Err(e)
      case Ok(v) =>
        match Fields(body, keys[1..])
        case Err(e) => Err(e)
        case Ok(vs) => Ok([v] + vs)
  }

  /**
   * When every key before the k-th is present and the k-th is missing, the
   * read raises the k-th key's `KeyError`.
   */
  lemma {:induction false} FirstMissingKey(body: JsonBody, keys: seq<string>, k: nat)
    requires k < |keys| && keys[k] !in body
    requires forall j :: 0 <= j < k ==> keys[j] in body
    ensures Fields(body, keys) == Err(OtherError(KeyErrorText(keys[k])))
  {
    if k > 0 {
      FirstMissingKey(body, keys[1..], k - 1);
    }
  }
}
