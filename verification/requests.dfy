/** The `/related-work` endpoint's error responses and the validation of its request body. */
module Requests {
  import opened Wrappers
  import opened Text
  import opened JsonValues

  /** Every way the endpoint can answer with an error. The two generic 500 errors stand for a
      Python exception escaping the handler; the exception's text is not modelled. */
  datatype ApiError =
    | NoJsonData
    | AbstractRequired
    | ApiKeyRequired
    | QueryParseError(response: string)
    | QueryGenerationError
    | ServerError

  /** The HTTP status that goes with each error. */
  function Status(e: ApiError): int {
    match e
    case NoJsonData => 400
    case AbstractRequired => 400
    case ApiKeyRequired => 400
    case _ => 500
  }

  /** How much of an unparsable reply the error message quotes. */
  const QuotedReply: nat := 200

  /** The `error` text of each response; exception texts after the generic prefixes are not
      modelled. */
  function Message(e: ApiError): string {
    match e
    case NoJsonData => "No JSON data provided"
    case AbstractRequired => "Abstract is required"
    case ApiKeyRequired => "OpenAI API key is required"
    case QueryParseError(response) =>
      "LLM output parsing error for query generation. Response was: " + response + "..."
    case QueryGenerationError => "Error generating queries: "
    case ServerError => "Server error: "
  }

  /** A request that passed validation: both fields stripped and non-empty. */
  datatype Request = Request(abstractText: string, apiKey: string)

  /** A request field, blank when missing, with surrounding whitespace stripped: `None` when
      the value is not a string, where Python's `strip` raises. */
  function StrippedField(fields: map<string, Json>, key: string): (r: Option<string>)
    ensures r.Some? ==> Trimmed(r.value)
    ensures key !in fields ==> r == Some("")
    ensures key in fields ==> (r.Some? <==> fields[key].JString?)
    ensures key in fields && fields[key].JString? ==> r == Some(Strip(fields[key].str))
  {
    match Get(fields, key, JString(""))
    case JString(s) => Some(Strip(s))
    case _ => None
  }

  /** Validation of the decoded body (`JNull` when there is none): a falsy body, then a
      non-object body or non-string fields (the exception path), then a blank abstract, then a
      blank key. */
  function ValidateRequest(body: Json): (r: Result<Request, ApiError>)
    ensures !Truthy(body) ==> r == Failure(NoJsonData)
    ensures Truthy(body) && !body.JObject? ==> r == Failure(ServerError)
    ensures body.JObject? && Truthy(body) &&
      (!TextOrMissing(body.fields, "abstract") || !TextOrMissing(body.fields, "openai_api_key"))
      ==> r == Failure(ServerError)
    ensures r.Failure? ==> r.error in {NoJsonData, AbstractRequired, ApiKeyRequired, ServerError}
    ensures r.Success? ==>
      && body.JObject?
      && |r.value.abstractText| > 0 && Trimmed(r.value.abstractText)
      && |r.value.apiKey| > 0 && Trimmed(r.value.apiKey)
  {
    if !Truthy(body) then Failure(NoJsonData)
    else if !body.JObject? then Failure(ServerError)
    else
      var a := StrippedField(body.fields, "abstract");
      var k := StrippedField(body.fields, "openai_api_key");
      if a.None? || k.None? then Failure(ServerError)
      else if |a.value| == 0 then Failure(AbstractRequired)
      else if |k.value| == 0 then Failure(ApiKeyRequired)
      else Success(Request(a.value, k.value))
  }

  /** A field the client left out or sent as a string counts as blank or filled by its strip. */
  predicate TextOrMissing(fields: map<string, Json>, key: string) {
    key !in fields || fields[key].JString?
  }

  /** The text a text-or-missing field stands for. */
  function TextOf(fields: map<string, Json>, key: string): string
    requires TextOrMissing(fields, key)
  {
    if key in fields then fields[key].str else ""
  }

  /** For an object body whose two fields are strings or absent, the outcome is decided by
      the abstract first and the key second, and a success carries both stripped values. */
  lemma ValidationOrder(fields: map<string, Json>)
    requires |fields| > 0
    requires TextOrMissing(fields, "abstract") && TextOrMissing(fields, "openai_api_key")
    ensures var r := ValidateRequest(JObject(fields));
      var a := Strip(TextOf(fields, "abstract"));
      var k := Strip(TextOf(fields, "openai_api_key"));
      && (|a| == 0 ==> r == Failure(AbstractRequired))
      && (|a| > 0 && |k| == 0 ==> r == Failure(ApiKeyRequired))
      && (|a| > 0 && |k| > 0 ==> r == Success(Request(a, k)))
  {
    var a := Strip(TextOf(fields, "abstract"));
    var k := Strip(TextOf(fields, "openai_api_key"));
    assert StrippedField(fields, "abstract") == Some(a);
    assert StrippedField(fields, "openai_api_key") == Some(k);
    assert Truthy(JObject(fields));
  }

  /** Every validation failure a client can cause is answered with status 400; only the
      exception path answers 500. */
  lemma ValidationStatus(body: Json)
    ensures var r := ValidateRequest(body);
      r.Failure? ==> (Status(r.error) == 400 <==> r.error != ServerError)
  {
  }
}
