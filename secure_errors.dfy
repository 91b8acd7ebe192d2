/**
 * The production filter over error responses: it drops the validation
 * details and replaces the message by a fixed text chosen from the error
 * code. JSON bodies are values; key order is not modelled.
 */
module SecureErrors {
  /** A decoded JSON body (`json_decode($content, true)`); `JNull` also stands for content that does not decode. */
  datatype Json = JNull | JBool(b: bool) | JNum(n: int) | JStr(s: string) | JList(items: seq<Json>)
                | JObject(fields: map<string, Json>)

  const GenericMessages: map<string, string> := map[
    "UNAUTHENTICATED" := "Authentication required.",
    "UNAUTHORIZED" := "You do not have permission to perform this action.",
    "VALIDATION_ERROR" := "Validation failed. Please check your input.",
    "NOT_FOUND" := "Resource not found.",
    "SERVER_ERROR" := "An error occurred. Please try again later."]

  const Fallback: string := "An error occurred. Please try again later."

  /** `isset($m[k])`: the key is there and not null. */
  predicate IsSet(m: map<string, Json>, k: string)
  {
    k in m && m[k] != JNull
  }

  /** The code has a fixed text: a string listed in the table. */
  predicate KnownCode(e: map<string, Json>)
  {
    "code" in e && e["code"].JStr? && e["code"].s in GenericMessages
  }

  /** The `error` object after filtering. */
  function CleanError(e: map<string, Json>): (r: map<string, Json>)
    ensures !IsSet(r, "details")
    ensures forall k :: k != "details" && k != "message" ==> (k in r <==> k in e) && (k in r ==> r[k] == e[k])
    ensures KnownCode(e) ==> "message" in r && r["message"] == JStr(GenericMessages[e["code"].s])
    ensures !KnownCode(e) && IsSet(e, "message") ==> "message" in r && r["message"] == JStr(Fallback)
    ensures !KnownCode(e) && !IsSet(e, "message") ==> ("message" in r <==> "message" in e) && ("message" in r ==> r["message"] == e["message"])
  {
    var e1 := if IsSet(e, "details") then e - {"details"} else e;
    if KnownCode(e) then e1["message" := JStr(GenericMessages[e["code"].s])]
    else if IsSet(e1, "message") then e1["message" := JStr(Fallback)]
    else e1
  }

  /** Filtering an already filtered error object changes nothing. */
  lemma CleanErrorIdempotent(e: map<string, Json>)
    ensures CleanError(CleanError(e)) == CleanError(e)
  {
    var r := CleanError(e);
    var rr := CleanError(r);
    assert KnownCode(r) == KnownCode(e);
    assert rr.Keys == r.Keys;
    forall k | k in r
      ensures rr[k] == r[k]
    {
    }
  }

  /** The body the middleware sends. */
  function SanitizedBody(debug: bool, status: int, body: Json): (r: Json)
    ensures debug || status < 400 ==> r == body
    ensures !(body.JObject? && IsSet(body.fields, "error") && body.fields["error"].JObject?) ==> r == body
    ensures r.JObject? <==> body.JObject?
    ensures body.JObject? ==> r.fields.Keys == body.fields.Keys
    ensures body.JObject? ==> forall k :: k in body.fields && k != "error" ==> r.fields[k] == body.fields[k]
    ensures !debug && status >= 400 && body.JObject? && IsSet(body.fields, "error") && body.fields["error"].JObject? ==>
              r.fields["error"] == JObject(CleanError(body.fields["error"].fields))
  {
    if debug || status < 400 then body
    else if body.JObject? && IsSet(body.fields, "error") && body.fields["error"].JObject? then
      JObject(body.fields["error" := JObject(CleanError(body.fields["error"].fields))])
    else body
  }

  /** `success` and `error.code` pass through unchanged. */
  lemma SuccessAndCodePreserved(debug: bool, status: int, body: Json)
    requires body.JObject? && "error" in body.fields && body.fields["error"].JObject?
    ensures var r := SanitizedBody(debug, status, body);
            && ("success" in r.fields <==> "success" in body.fields)
            && ("success" in body.fields ==> r.fields["success"] == body.fields["success"])
            && r.fields["error"].JObject?
            && ("code" in r.fields["error"].fields <==> "code" in body.fields["error"].fields)
            && ("code" in body.fields["error"].fields ==> r.fields["error"].fields["code"] == body.fields["error"].fields["code"])
  {
  }

  /** Filtering twice gives the body of filtering once. */
  lemma SanitizeIdempotent(debug: bool, status: int, body: Json)
    ensures SanitizedBody(debug, status, SanitizedBody(debug, status, body)) == SanitizedBody(debug, status, body)
  {
    if !debug && status >= 400 && body.JObject? && IsSet(body.fields, "error") && body.fields["error"].JObject? {
      var e := body.fields["error"].fields;
      CleanErrorIdempotent(e);
      var once := body.fields["error" := JObject(CleanError(e))];
      assert once["error" := JObject(CleanError(CleanError(e)))] == once;
    }
  }

  /**
   * `handle`: the decoded body is edited in place (details unset, message
   * overwritten) and written back; any other response is passed through.
   */
  method Handle(debug: bool, status: int, body: Json) returns (out: Json)
    ensures out == SanitizedBody(debug, status, body)
  {
    out := body;
    if debug || status < 400 || !body.JObject? || !IsSet(body.fields, "error") || !body.fields["error"].JObject? {
      return;
    }
    var data := body.fields;
    var error := data["error"].fields;
    if IsSet(error, "details") {
      error := error - {"details"};
    }
    var code := if "code" in error then error["code"] else JNull;
    if code.JStr? && code.s in GenericMessages {
      error := error["message" := JStr(GenericMessages[code.s])];
    } else if IsSet(error, "message") {
      error := error["message" := JStr(Fallback)];
    }
    data := data["error" := JObject(error)];
    out := JObject(data);
  }
}
