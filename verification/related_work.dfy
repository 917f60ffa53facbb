/** The `/related-work` endpoint: validate, generate queries, then for each query score every
    paper the search returns and keep the ones the language model rates above 70. The search
    service and the language model are inputs: each search outcome comes with the reply the
    model gives for each of its papers. */
module RelatedWork {
  import opened Wrappers
  import opened JsonValues
  import opened Requests
  import opened Fences
  import opened Queries

  /** A paper is kept when its score is strictly above this. */
  const AcceptAbove: real := 70.0

  /** A paper as the search service returned it, with the outcome of the call that asks the
      model to compare it. */
  datatype Candidate = Candidate(paper: Json, reply: Completion)

  /** One query and the papers its search returned (`None` when the search raised). */
  datatype Search = Search(query: string, outcome: Option<seq<Candidate>>)

  /** The `paper` object of a result. */
  datatype PaperRecord = PaperRecord(
    paperId: Json, title: Json, authors: seq<string>, year: Json, venue: Json, url: Json,
    abstractText: Json)

  /** One entry of `results`. */
  datatype Match = Match(query: string, paper: PaperRecord, score: real, note: Json)

  /** The successful response body. */
  datatype Report = Report(inputAbstract: string, generatedQueries: seq<string>, results: seq<Match>)

  /** What the loop does with one paper: record it, `continue` past it, or leave the query
      because an exception reached the per-query handler. */
  datatype Step = Accept(found: Match) | Skip | Abort

  /** An author's name, `"Unknown"` when the object has none; `None` when the author is not an
      object or the name is not a string, which the later join cannot handle. */
  function AuthorName(author: Json): Option<string> {
    match author
    case JObject(m) =>
      (match Get(m, "name", JString("Unknown"))
       case JString(s) => Some(s)
       case _ => None)
    case _ => None
  }

  /** The names of a list of authors: `None` as soon as one has no usable name. */
  function AllNames(authors: seq<Json>): (r: Option<seq<string>>)
    ensures r.Some? <==> forall i :: 0 <= i < |authors| ==> AuthorName(authors[i]).Some?
    ensures r.Some? ==>
      && |r.value| == |authors|
      && forall i :: 0 <= i < |authors| ==> AuthorName(authors[i]) == Some(r.value[i])
  {
    if |authors| == 0 then Some([])
    else
      var rest := AllNames(authors[1..]);
      assert forall i :: 1 <= i < |authors| ==> authors[1..][i - 1] == authors[i];
      match AuthorName(authors[0])
      case None => None
      case Some(n) => if rest.None? then None else Some([n] + rest.value)
  }

  /** The names of a paper's authors (an empty list when the field is missing): an array
      yields one name per author; an empty string or object yields none; anything else
      raises. */
  function AuthorNames(authors: Json): Option<seq<string>> {
    match authors
    case JArray(xs) => AllNames(xs)
    case JString(s) => if |s| == 0 then Some([]) else None
    case JObject(m) => if |m| == 0 then Some([]) else None
    case _ => None
  }

  /** The comparison's score, 0 when missing, made numeric: a number counts as itself, a boolean (an
      `int` to Python) as 1 or 0, and anything else as 0. */
  function ScoreOf(comparison: map<string, Json>): real {
    match Get(comparison, "score", JNumber(0.0))
    case JNumber(n) => n
    case JBool(b) => if b then 1.0 else 0.0
    case _ => 0.0
  }

  /** The decoded comparison, when the call answered and the answer decodes to an object
      (`.get` on any other value raises, and every failure skips the paper). */
  function Comparison(reply: Completion, parse: string -> Option<Json>)
    : Option<map<string, Json>>
  {
    match reply
    case CallFailed => None
    case UndecodableBody => None
    case Answer(text) =>
      match parse(StripFences(text))
      case Some(JObject(m)) => Some(m)
      case _ => None
  }

  /** The `paper` object of a result: each field copied from the search result when present,
      otherwise its default, and the author names as given. */
  function Record(paper: map<string, Json>, authors: seq<string>): (r: PaperRecord)
    ensures r.paperId == (if "paperId" in paper then paper["paperId"] else JString(""))
    ensures r.title == (if "title" in paper then paper["title"] else JString(""))
    ensures r.authors == authors
    ensures r.year == (if "year" in paper then paper["year"] else JString("Unknown year"))
    ensures r.venue == (if "venue" in paper then paper["venue"] else JString("Unknown venue"))
    ensures r.url == (if "url" in paper then paper["url"] else JString(""))
    ensures r.abstractText == (if "abstract" in paper then paper["abstract"] else JString(""))
  {
    PaperRecord(
      Get(paper, "paperId", JString("")), Get(paper, "title", JString("")), authors,
      Get(paper, "year", JString("Unknown year")), Get(paper, "venue", JString("Unknown venue")),
      Get(paper, "url", JString("")), Get(paper, "abstract", JString("")))
  }

  /** One iteration of the inner loop. */
  function PaperStep(query: string, c: Candidate, parse: string -> Option<Json>): Step {
    match c.paper
    case JObject(p) =>
      if !Truthy(Get(p, "abstract", JNull)) then Skip
      else
        (match AuthorNames(Get(p, "authors", JArray([])))
         case None => Abort
         case Some(names) =>
           (match Comparison(c.reply, parse)
            case None => Skip
            case Some(cmp) =>
              var score := ScoreOf(cmp);
              if score > AcceptAbove then
                Accept(Match(query, Record(p, names), score, Get(cmp, "note", JString(""))))
              else Skip))
    case _ => Abort
  }

  /** A paper is recorded exactly when it is an object with a truthy abstract and usable
      authors and the comparison holds a number above 70 under `score`; booleans, missing and
      non-numeric scores never pass, and a score of exactly 70 is rejected. The record carries
      the query, the paper's fields, the number and the note. */
  lemma AcceptExactly(query: string, c: Candidate, parse: string -> Option<Json>)
    ensures PaperStep(query, c, parse).Accept? <==>
      && c.paper.JObject?
      && Truthy(Get(c.paper.fields, "abstract", JNull))
      && AuthorNames(Get(c.paper.fields, "authors", JArray([]))).Some?
      && Comparison(c.reply, parse).Some?
      && "score" in Comparison(c.reply, parse).value
      && Comparison(c.reply, parse).value["score"].JNumber?
      && Comparison(c.reply, parse).value["score"].n > AcceptAbove
    ensures PaperStep(query, c, parse).Accept? ==>
      var m := PaperStep(query, c, parse).found;
      var cmp := Comparison(c.reply, parse).value;
      && m.query == query
      && m.score == cmp["score"].n
      && m.note == (if "note" in cmp then cmp["note"] else JString(""))
      && m.paper.authors == AuthorNames(Get(c.paper.fields, "authors", JArray([]))).value
      && m.paper.abstractText == c.paper.fields["abstract"]
      && m.paper == Record(c.paper.fields, m.paper.authors)
  {
    var step := PaperStep(query, c, parse);
    if c.paper.JObject? && Truthy(Get(c.paper.fields, "abstract", JNull)) {
      var p := c.paper.fields;
      match AuthorNames(Get(p, "authors", JArray([]))) {
        case None =>
          assert step == Abort;
        case Some(names) =>
          match Comparison(c.reply, parse) {
            case None =>
              assert step == Skip;
            case Some(cmp) =>
              ScoreAboveThreshold(cmp);
              assert step == if ScoreOf(cmp) > AcceptAbove then
                Accept(Match(query, Record(p, names), ScoreOf(cmp), Get(cmp, "note", JString(""))))
                else Skip;
          }
      }
    } else if c.paper.JObject? {
      assert step == Skip;
    }
  }

  /** Only a genuine number can exceed the threshold: the defaults and booleans stay at or
      below 1. */
  lemma ScoreAboveThreshold(cmp: map<string, Json>)
    ensures ScoreOf(cmp) > AcceptAbove <==>
      "score" in cmp && cmp["score"].JNumber? && cmp["score"].n > AcceptAbove
  {
  }

  /** A paper that is not an object, or whose authors cannot all be named, ends its query. */
  lemma AbortExactly(query: string, c: Candidate, parse: string -> Option<Json>)
    ensures PaperStep(query, c, parse).Abort? <==>
      || !c.paper.JObject?
      || (Truthy(Get(c.paper.fields, "abstract", JNull))
          && AuthorNames(Get(c.paper.fields, "authors", JArray([]))).None?)
  {
  }

  /** The step aborts somewhere in these papers. */
  predicate Aborts(query: string, cands: seq<Candidate>, parse: string -> Option<Json>) {
    exists i :: 0 <= i < |cands| && PaperStep(query, cands[i], parse).Abort?
  }

  /** The matches one query contributes, in search order, up to the paper that aborts it. */
  function QueryResults(query: string, cands: seq<Candidate>, parse: string -> Option<Json>)
    : (r: seq<Match>)
    ensures |r| <= |cands|
    ensures forall m :: m in r ==> m.query == query && m.score > AcceptAbove
    ensures forall m :: m in r ==>
      exists i :: 0 <= i < |cands| && PaperStep(query, cands[i], parse) == Accept(m)
  {
    if |cands| == 0 then []
    else
      var rest := QueryResults(query, cands[1..], parse);
      assert forall m :: m in rest ==>
        exists i :: 1 <= i < |cands| && PaperStep(query, cands[i], parse) == Accept(m) by {
        forall m | m in rest
          ensures exists i :: 1 <= i < |cands| && PaperStep(query, cands[i], parse) == Accept(m)
        {
          var i :| 0 <= i < |cands[1..]| && PaperStep(query, cands[1..][i], parse) == Accept(m);
          assert cands[1..][i] == cands[i + 1];
        }
      }
      match PaperStep(query, cands[0], parse)
      case Abort => []
      case Skip => rest
      case Accept(m) => [m] + rest
  }

  /** Matches follow search order: papers after an aborting one contribute nothing, and
      otherwise the matches of a split list are those of its halves, concatenated. */
  lemma {:induction false} QueryResultsAppend(
    query: string, a: seq<Candidate>, b: seq<Candidate>, parse: string -> Option<Json>)
    ensures QueryResults(query, a + b, parse) ==
      QueryResults(query, a, parse) + (if Aborts(query, a, parse) then [] else QueryResults(query, b, parse))
  {
    if |a| == 0 {
      assert a + b == b;
    } else {
      var ab := a + b;
      assert ab[1..] == a[1..] + b;
      assert ab[0] == a[0];
      var step := PaperStep(query, a[0], parse);
      if step.Abort? {
        assert Aborts(query, a, parse);
      } else {
        QueryResultsAppend(query, a[1..], b, parse);
        AbortsTail(query, a, parse);
        var tail := QueryResults(query, a[1..] + b, parse);
        assert QueryResults(query, ab, parse) == (if step.Accept? then [step.found] + tail else tail);
        assert QueryResults(query, a, parse) ==
          (if step.Accept? then [step.found] + QueryResults(query, a[1..], parse)
           else QueryResults(query, a[1..], parse));
      }
    }
  }

  /** When the first paper does not abort, the list aborts exactly when its tail does. */
  lemma AbortsTail(query: string, a: seq<Candidate>, parse: string -> Option<Json>)
    requires |a| > 0 && !PaperStep(query, a[0], parse).Abort?
    ensures Aborts(query, a, parse) <==> Aborts(query, a[1..], parse)
  {
    if Aborts(query, a[1..], parse) {
      var i :| 0 <= i < |a[1..]| && PaperStep(query, a[1..][i], parse).Abort?;
      assert a[1..][i] == a[i + 1];
    }
    if Aborts(query, a, parse) {
      var i :| 0 <= i < |a| && PaperStep(query, a[i], parse).Abort?;
      assert i > 0 && a[1..][i - 1] == a[i];
    }
  }

  /** Matches are not deduplicated: a paper accepted twice in one query is recorded twice. */
  lemma {:induction false} RepeatedPaperRecordedTwice(
    query: string, c: Candidate, parse: string -> Option<Json>)
    requires PaperStep(query, c, parse).Accept?
    ensures QueryResults(query, [c, c], parse) ==
      [PaperStep(query, c, parse).found, PaperStep(query, c, parse).found]
  {
    QueryResultsAppend(query, [c], [c], parse);
    assert [c] + [c] == [c, c];
    assert QueryResults(query, [c], parse) == [PaperStep(query, c, parse).found] by {
      assert [c][1..] == [];
    }
  }

  /** The matches of one search; a search that raised contributes nothing. */
  function SearchResults(s: Search, parse: string -> Option<Json>): (r: seq<Match>)
    ensures s.outcome.None? ==> r == []
    ensures s.outcome.Some? ==> r == QueryResults(s.query, s.outcome.value, parse)
    ensures forall m :: m in r ==> m.query == s.query && m.score > AcceptAbove
  {
    match s.outcome
    case None => []
    case Some(cands) => QueryResults(s.query, cands, parse)
  }

  /** The outer loop: the matches of every query, in query order. */
  function FindRelatedWork(searches: seq<Search>, parse: string -> Option<Json>): (r: seq<Match>)
    ensures forall m :: m in r ==>
      m.score > AcceptAbove && exists i :: 0 <= i < |searches| && m.query == searches[i].query
  {
    if |searches| == 0 then []
    else
      var rest := FindRelatedWork(searches[1..], parse);
      assert forall m :: m in rest ==>
        exists i :: 1 <= i < |searches| && m.query == searches[i].query by {
        forall m | m in rest
          ensures exists i :: 1 <= i < |searches| && m.query == searches[i].query
        {
          var i :| 0 <= i < |searches[1..]| && m.query == searches[1..][i].query;
          assert searches[1..][i] == searches[i + 1];
        }
      }
      SearchResults(searches[0], parse) + rest
  }

  /** Results follow query order: the matches of a split query list are those of its halves,
      concatenated, so nothing is reordered or merged across queries. */
  lemma {:induction false} FindRelatedWorkAppend(
    a: seq<Search>, b: seq<Search>, parse: string -> Option<Json>)
    ensures FindRelatedWork(a + b, parse) == FindRelatedWork(a, parse) + FindRelatedWork(b, parse)
  {
    if |a| == 0 {
      assert a + b == b;
    } else {
      assert (a + b)[1..] == a[1..] + b;
      assert (a + b)[0] == a[0];
      FindRelatedWorkAppend(a[1..], b, parse);
    }
  }

  /** A single search contributes exactly its own matches. With `FindRelatedWorkAppend` this
      determines the results of any list of searches. */
  lemma FindRelatedWorkOne(s: Search, parse: string -> Option<Json>)
    ensures FindRelatedWork([s], parse) == SearchResults(s, parse)
  {
    assert [s][1..] == [];
    assert FindRelatedWork([s][1..], parse) == [];
    assert SearchResults(s, parse) + [] == SearchResults(s, parse);
  }

  /** The searches for the generated queries, in query order: `search(i)` is the outcome of
      the search for the `i`-th query. */
  function Searches(qs: seq<string>, search: nat -> Option<seq<Candidate>>): (r: seq<Search>)
    ensures |r| == |qs|
    ensures forall i :: 0 <= i < |qs| ==> r[i] == Search(qs[i], search(i))
  {
    seq(|qs|, i requires 0 <= i < |qs| => Search(qs[i], search(i)))
  }

  /** The whole handler. `body` is the decoded request (`JNull` when there is none),
      `queryReply` the model's answer to the query prompt, `search(i)` the outcome of the
      search for the `i`-th query, and `parse` stands for `json.loads`. */
  function RespondRelatedWork(
    body: Json, queryReply: Completion, search: nat -> Option<seq<Candidate>>,
    parse: string -> Option<Json>): (r: Result<Report, ApiError>)
    ensures ValidateRequest(body).Failure? ==> r == Failure(ValidateRequest(body).error)
    ensures ValidateRequest(body).Success? && GenerateQueries(queryReply, parse).Failure? ==>
      r == Failure(GenerateQueries(queryReply, parse).error)
    ensures r.Success? ==>
      && ValidateRequest(body).Success?
      && r.value.inputAbstract == ValidateRequest(body).value.abstractText
      && GenerateQueries(queryReply, parse) == Success(r.value.generatedQueries)
      && forall m :: m in r.value.results ==>
        m.query in r.value.generatedQueries && m.score > AcceptAbove
    ensures ValidateRequest(body).Success? && GenerateQueries(queryReply, parse).Success? ==>
      && r.Success?
      && r.value.results == FindRelatedWork(Searches(r.value.generatedQueries, search), parse)
  {
    match ValidateRequest(body)
    case Failure(e) => Failure(e)
    case Success(req) =>
      match GenerateQueries(queryReply, parse)
      case Failure(e) => Failure(e)
      case Success(qs) =>
        Success(Report(req.abstractText, qs, FindRelatedWork(Searches(qs, search), parse)))
  }
}
