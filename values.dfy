/** Values shared by the cycle job: an Option for JavaScript's `null`, and
    the JSON values the cycle endpoint and the history file hold. */
module Values {

  datatype Option<+T> = None | Some(value: T)

  /** A JSON value as the job sees it after `JSON.parse` or `response.json()`.
      Numbers are kept integral: every number the job inspects is an epoch
      timestamp. */
  datatype Json =
    | Null
    | Bool(b: bool)
    | Number(n: int)
    | Str(s: string)
    | Arr(items: seq<Json>)
    | Obj(fields: map<string, Json>)

  /** A JSON object, such as one entry of `cycles`. */
  type Record = map<string, Json>
}
