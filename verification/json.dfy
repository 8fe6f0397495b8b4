/** JSON response bodies and route responses, as far as the routes build and their clients read them. */
module JsonBody {
  import opened Wrappers

  datatype Json = JNull | JBool(b: bool) | JNum(n: int) | JStr(s: string) | JObj(fields: map<string, Json>)

  /** JavaScript truthiness of a JSON value (`!!v`). */
  predicate Truthy(v: Json) {
    match v
    case JNull => false
    case JBool(b) => b
    case JNum(n) => n != 0
    case JStr(s) => s != ""
    case JObj(_) => true
  }

  /** `!!body[key]` for a top-level key; a missing key reads as `undefined`, which is falsy. */
  predicate TruthyField(body: Json, key: string) {
    body.JObj? && key in body.fields && Truthy(body.fields[key])
  }

  /** `{ error: msg }`. */
  function ErrorBody(msg: string): Json {
    JObj(map["error" := JStr(msg)])
  }

  /** What a route handler returns: a status, a JSON body and at most one Set-Cookie header. */
  datatype HttpResponse = HttpResponse(status: int, body: Json, setCookie: Option<string>)
}
