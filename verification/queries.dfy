/** Turning the language model's reply into the list of search queries. */
module Queries {
  import opened Wrappers
  import opened Seqs
  import opened Text
  import opened JsonValues
  import opened Requests
  import opened Fences

  /** At most this many queries are kept. */
  const MaxQueries: nat := 10

  /** A usable query: a string that is not blank. */
  predicate IsQuery(j: Json) {
    j.JString? && |Strip(j.str)| > 0
  }

  /** The strings of a decoded array that are not blank, in order and unstripped. */
  function NonBlankStrings(items: seq<Json>): (r: seq<string>)
    ensures |r| <= |items|
    ensures forall q :: q in r ==> |Strip(q)| > 0 && JString(q) in items
    ensures forall j :: j in items && IsQuery(j) ==> j.str in r
  {
    if |items| == 0 then []
    else if IsQuery(items[0]) then [items[0].str] + NonBlankStrings(items[1..])
    else NonBlankStrings(items[1..])
  }

  /** Filtering keeps the order of the array: it distributes over concatenation. */
  lemma {:induction false} NonBlankStringsAppend(a: seq<Json>, b: seq<Json>)
    ensures NonBlankStrings(a + b) == NonBlankStrings(a) + NonBlankStrings(b)
  {
    if |a| == 0 {
      assert a + b == b;
    } else {
      assert (a + b)[1..] == a[1..] + b;
      NonBlankStringsAppend(a[1..], b);
    }
  }

  /** The first ten usable queries of the array. */
  function SanitizeQueries(items: seq<Json>): (r: seq<string>)
    ensures |r| <= MaxQueries
    ensures r <= NonBlankStrings(items)
    ensures |r| == if |NonBlankStrings(items)| < MaxQueries then |NonBlankStrings(items)| else MaxQueries
  {
    Take(NonBlankStrings(items), MaxQueries)
  }

  /** The usable queries of a decoded reply (`None` where `json.loads` raised): `None` unless
      it is an array holding at least one usable query. */
  function ParseQueries(decoded: Option<Json>): (r: Option<seq<string>>)
    ensures r.Some? ==>
      && 0 < |r.value| <= MaxQueries
      && forall q :: q in r.value ==> |Strip(q)| > 0
  {
    match decoded
    case Some(JArray(items)) =>
      var qs := SanitizeQueries(items);
      if |qs| == 0 then None else Some(qs)
    case _ => None
  }

  /** Decoding yields queries exactly when the value is an array holding a usable query, and
      then yields the first ten usable ones. */
  lemma ParseQueriesExactly(decoded: Option<Json>)
    ensures ParseQueries(decoded).Some? <==>
      decoded.Some? && decoded.value.JArray? && exists j :: j in decoded.value.items && IsQuery(j)
    ensures ParseQueries(decoded).Some? ==>
      ParseQueries(decoded).value == Take(NonBlankStrings(decoded.value.items), MaxQueries)
  {
    match decoded {
      case Some(JArray(items)) =>
        var ok := NonBlankStrings(items);
        SomeQuery(items);
        assert |SanitizeQueries(items)| == 0 <==> |ok| == 0;
        assert ParseQueries(decoded) == if |ok| == 0 then None else Some(Take(ok, MaxQueries));
      case _ =>
    }
  }

  /** The array has a usable query exactly when filtering leaves something. */
  lemma SomeQuery(items: seq<Json>)
    ensures |NonBlankStrings(items)| > 0 <==> exists j :: j in items && IsQuery(j)
  {
    var ok := NonBlankStrings(items);
    if exists j :: j in items && IsQuery(j) {
      var j :| j in items && IsQuery(j);
      assert j.str in ok;
    }
    if |ok| > 0 {
      assert ok[0] in ok;
      assert JString(ok[0]) in items && IsQuery(JString(ok[0]));
    }
  }

  /** The outcome of one chat-completion call. `CallFailed` is any exception other than a
      `ValueError` (a non-200 status, a network error, a reply without text);
      `UndecodableBody` is the `ValueError` raised when the HTTP body is not JSON. */
  datatype Completion = Answer(text: string) | CallFailed | UndecodableBody

  /** The reply after fence stripping, decoded by `parse` (`None` where `json.loads` raises),
      must be an array with at least one usable query; otherwise the error quotes the first
      200 characters of the cleaned reply. A failed call is the generic query-generation
      error. An undecodable HTTP body lands in the parse-error handler before the reply
      variable was ever assigned, so the handler itself raises and the request fails with
      the generic server error. */
  function GenerateQueries(reply: Completion, parse: string -> Option<Json>)
    : (r: Result<seq<string>, ApiError>)
    ensures reply.CallFailed? <==> r == Failure(QueryGenerationError)
    ensures reply.UndecodableBody? <==> r == Failure(ServerError)
    ensures r.Success? ==> reply.Answer? && ParseQueries(parse(StripFences(reply.text))) == Some(r.value)
    ensures r.Failure? && reply.Answer? ==>
      && ParseQueries(parse(StripFences(reply.text))).None?
      && r.error.QueryParseError?
      && r.error.response <= StripFences(reply.text)
      && |r.error.response| == if |StripFences(reply.text)| < QuotedReply then |StripFences(reply.text)| else QuotedReply
  {
    match reply
    case CallFailed => Failure(QueryGenerationError)
    case UndecodableBody => Failure(ServerError)
    case Answer(text) =>
      var t := StripFences(text);
      match ParseQueries(parse(t))
      case Some(qs) => Success(qs)
      case None => Failure(QueryParseError(Take(t, QuotedReply)))
  }
}
