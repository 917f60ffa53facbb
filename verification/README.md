# Research-agent core in Dafny

This project models the logic of a small literature-search tool and proves properties of the
model. The tool exists in two versions.

**Version 1 (`ResearchAgent`).**
- It cleans text.
- It extracts the ten most frequent non-stopword words of an abstract.
- It builds a search query from the first five of those words.
- It filters the papers the search finds by a similarity threshold, sorts them by similarity and keeps the top twenty.
- It formats each paper for display.

**Version 2 (the `/related-work` endpoint).**
- It validates the request.
- It asks a language model for up to ten search queries.
- For each paper each query finds, it asks the model for a relatedness score.
- It reports every paper scored above 70, with the query that found it.

Modules, one concept each:

- `Wrappers`: the `Option` and `Result` types.
- `Seqs`: prefixes, filtering, joining and splitting.
- `Text`: Python's whitespace set, `strip`, `split` without arguments, ASCII `lower` and `str.replace(pat, '')`.
- `Sorting`: a stable descending sort on keyed items, a specification of stable sorting, and a proof that the specification has exactly one answer.
- `Cleaning`: `clean_text`.
- `Keywords`: `extract_keywords` and the search query.
- `Ranking`: the filter, sort and cut of `find_related_papers`.
- `Display`: `format_paper_info`.
- `JsonValues`: decoded JSON values and Python truthiness.
- `Fences`: stripping Markdown code fences from a model reply.
- `Requests`: error responses and request validation.
- `Queries`: turning the model's reply into queries.
- `RelatedWork`: scoring papers and assembling the response.

Everything outside the program is an input of the model:
- the arXiv and Semantic Scholar searches;
- the embedding similarity;
- the language model's replies;
- `json.loads`.

A search outcome comes with the model's reply for each paper in it. A reply is a
`Completion`: an answer text, a failed call, or an HTTP body that is not JSON.

Three behaviours of the code as written are worth stating:

- **Unusable fields give a 500.** A request body that is truthy but not an object, or that sends a non-string `abstract` or `openai_api_key`, makes `.get` or `.strip()` raise. The answer is the generic 500, not a 400.
- **A non-JSON HTTP body gives a 500.** When the chat-completion HTTP body is not JSON, the handler for query parsing errors reads `queries_response` before it was ever assigned. The request then fails with the generic "Server error" 500 instead of the query-generation error.
- **A paper can end its query.** A paper that is not an object, or whose authors cannot all be named as strings, raises outside the per-paper handler. That ends the current query early; the matches recorded so far are kept.

## Model

| member | source | states |
|---|---|---|
| Text.Strip | v1/research_agent.py:22 | The result has no whitespace at either end and is the input with only whitespace removed from its two ends. |
| Text.StripIdempotent | v1/research_agent.py:22 | Stripping twice is the same as stripping once. |
| Text.Words | v1/research_agent.py:21-22 | The words of a text, as whitespace splitting finds them: each is non-empty and holds no whitespace. They are the reference against which whitespace cleaning is measured. |
| Text.WordsOfStrip | v1/research_agent.py:22 | Stripping keeps the words of a text. |
| Cleaning.RemoveTags | v1/research_agent.py:20 | After deleting every `<...>` tag, no position starts a tag. The result is a subsequence of the input: its characters occur there in the same order. It is no longer than the input. |
| Cleaning.RemoveTagsKeepsPlain | v1/research_agent.py:20 | Text without a `<` in front of the rest is copied unchanged: the result starts with that text, followed by the tag removal of the rest. |
| Cleaning.RemoveTagsCopiesFirst | v1/research_agent.py:20 | A first character that opens no tag is copied, and removal goes on from the next character. This covers a `<` with no `>` after it and a `<` followed directly by `>`. With Cleaning.RemoveTagsDropsTag this determines tag removal for every input. |
| Cleaning.RemoveTagsDropsTag | v1/research_agent.py:20 | A `<`, at least one character other than `>`, and the first `>` after it form a tag, which is deleted entirely: removal continues after it as if it were not there. |
| Cleaning.RemoveTagsIdempotent | v1/research_agent.py:20 | Removing tags a second time changes nothing. |
| Cleaning.CollapseSpace | v1/research_agent.py:21 | After collapsing whitespace, the only whitespace left is single spaces, never two in a row. A leading whitespace run becomes one space and a leading other character is kept. |
| Cleaning.CollapseLast | v1/research_agent.py:21 | At the other end, a trailing whitespace run becomes one space and a last other character is kept. |
| Cleaning.CollapseVisible | v1/research_agent.py:21 | Collapsing whitespace keeps every non-whitespace character, in order. |
| Cleaning.CollapseWords | v1/research_agent.py:21 | Collapsing keeps the words: each whitespace run still separates the words on its two sides, and no words are joined or split. |
| Cleaning.SpacedWords | v1/research_agent.py:21-22 | A trimmed, single-spaced text equals its words joined by single spaces. |
| Cleaning.CleanText | v1/research_agent.py:18-22 | Cleaned text is trimmed and single-spaced and has no tag. It has exactly the words of the input with its tags removed, and the same non-whitespace characters. |
| Cleaning.CleanTextJoinsWords | v1/research_agent.py:18-22 | Cleaned text is the words of the input with its tags removed, joined by single spaces. |
| Cleaning.CleanTextIdempotent | v1/research_agent.py:18-22 | Cleaning already cleaned text changes nothing. |
| Seqs.Filter | v1/research_agent.py:59 | The list comprehension keeps exactly the elements that pass the test, as a subsequence of the input, so in input order. |
| Seqs.FilterAppend | v1/research_agent.py:59 | Filtering a concatenation filters each part and concatenates the results, so the input order is kept. |
| Keywords.Tokens | v1/research_agent.py:58 | The regular-expression scan: each maximal run of word characters is a candidate match, kept when it consists of three or more ASCII letters. Its properties are stated by Keywords.TokensSound, Keywords.TokensComplete, Keywords.TokensInTextOrder and Keywords.TokenCount. |
| Keywords.TokensSound | v1/research_agent.py:58 | Every match is a word of three or more ASCII letters that occurs in the text as a whole word. |
| Keywords.TokensComplete | v1/research_agent.py:58 | Every whole word of three or more ASCII letters in the text is matched. |
| Keywords.TokensInTextOrder | v1/research_agent.py:58 | Matches come in text order: the j-th match is a whole word at the j-th match position, and those positions strictly increase. |
| Keywords.TokenCount | v1/research_agent.py:58 | A word of three or more letters is matched exactly as many times as it occurs in the text as a whole word. |
| Keywords.CandidatesExactly | v1/research_agent.py:55-59 | A word is counted if and only if it is a whole word of three or more ASCII letters in the lowercased abstract and is not a stopword. |
| Keywords.Candidates | v1/research_agent.py:58-59 | The counted list: the tokens of the lowercased abstract that are not stopwords, in text order. Keywords.CandidatesExactly and Keywords.CandidateCount state which words it holds and how often. |
| Keywords.CandidateCount | v1/research_agent.py:58-59 | A word is counted once per whole-word occurrence in the lowercased abstract when it has three or more letters and is not a stopword, and zero times otherwise. |
| Keywords.Distinct | v1/research_agent.py:63 | The Counter's keys have no duplicates, are exactly the counted words, and come in order of first occurrence. |
| Keywords.CounterItems | v1/research_agent.py:63 | The Counter's items: each distinct counted word, in order of first occurrence, with its number of occurrences. Keywords.Distinct states the order of the keys. |
| Keywords.MostCommon | v1/research_agent.py:64 | `most_common(n)`: the items by falling count, equal counts in order of first occurrence, cut to n. Keywords.TopWordsOrdered and Keywords.TopWordsCutOff state its order and cut. |
| Keywords.TopWords | v1/research_agent.py:64 | The words of `most_common(n)`, in its order. Keywords.TopWordsOrdered and Keywords.TopWordsCutOff state their order and cut. |
| Keywords.ExtractKeywordsWords | v1/research_agent.py:52-66 | There are at most ten keywords, with no repeats. Each is a counted, non-stopword whole word of at least three lowercase letters that occurs in the lowercased abstract. |
| Keywords.ExtractKeywords | v1/research_agent.py:52-66 | The keywords: the ten most common counted words. Their properties are stated by Keywords.ExtractKeywordsWords, Keywords.TopWordsOrdered and Keywords.TopWordsCutOff. |
| Keywords.SearchQuery | v1/research_agent.py:72 | The search query: the first five keywords, joined by single spaces. Keywords.SearchQueryWords states that splitting it gives them back. |
| Keywords.TopWordsOrdered | v1/research_agent.py:62-64 | The words of `most_common(n)` come by falling count, and equal counts come in order of first occurrence. |
| Keywords.TopWordsCutOff | v1/research_agent.py:62-64 | There are exactly min(distinct words, n) top words. Every counted word left out ranks after every word kept. Fewer than n means all words were kept. |
| Keywords.SearchQueryWords | v1/research_agent.py:71-72 | The query is empty when there are no keywords. Otherwise, splitting it on spaces gives back exactly the first min(5, n) keywords. |
| Sorting.SortDesc | v1/research_agent.py:97 | The sort yields a descending permutation of its input with the same length. |
| Sorting.SortDescIsStableSort | v1/research_agent.py:97 | The sort is stable: it is sorted, a permutation, and items with equal keys keep their relative order. |
| Sorting.StableSortUnique | v1/research_agent.py:97 | Two descending sequences that list the items of every key in the same order are equal, so a stable sort has exactly one answer. |
| Ranking.Scored | v1/research_agent.py:92-94 | Each paper is paired with its own score, by position, one pair per paper. |
| Ranking.AboveThreshold | v1/research_agent.py:91-94 | Every kept candidate reaches the threshold. The kept candidates are a subsequence of the candidates, so they stay in their original order. |
| Ranking.AboveThresholdWithKey | v1/research_agent.py:91-94 | For a score that reaches the threshold, the filter keeps every candidate with that score, in the original order. For a lower score it keeps none. |
| Ranking.AboveThresholdExact | v1/research_agent.py:91-94 | The threshold filter keeps every copy of each candidate whose score reaches the threshold and no copy of any other. |
| Ranking.RankCandidates | v1/research_agent.py:79-99 | With no papers the result is empty. Otherwise at most twenty entries are kept, all reaching the threshold, all taken from the scored papers, in descending score order. |
| Ranking.RankIsTopOfStableSort | v1/research_agent.py:90-99 | The ranking equals the first twenty entries of any stable descending sort of the candidates that reach the threshold. |
| Ranking.RankKeepsBest | v1/research_agent.py:96-99 | Exactly min(20, qualifying) entries are kept, drawn from the qualifying ones. A qualifying candidate is dropped only if every kept entry scores at least as high. |
| Ranking.RankIsStable | v1/research_agent.py:91-97 | For every score, the ranked entries with that score are a prefix of the scored papers with it, in the order the search returned them. They are also a prefix of the qualifying candidates with it. |
| Ranking.FindRelatedPapers | v1/research_agent.py:68-99 | The result is exactly the ranking of the papers the keyword query finds, each scored by its similarity to the input abstract. With no papers found it is empty. Otherwise at most twenty entries come back in descending order, each a found paper paired with its similarity to the input abstract, which reaches the threshold. |
| Ranking.Similarities | v1/research_agent.py:86-88 | One score per paper, in the papers' order: the similarity of that paper's abstract to the input abstract. |
| Display.FormatPaperInfo | v1/research_agent.py:101-111 | Title, URL and source are copied, and the author line is the one built from the paper's authors. An abstract of up to 300 characters is kept as is; a longer one becomes its first 300 characters plus "...". The date is the first ten characters of the timestamp. |
| Display.AuthorLine | v1/research_agent.py:105 | The author line: the first three names separated by ", ", plus "..." when there are more. Display.AuthorLineNames states what it holds. |
| Display.ShortAbstract | v1/research_agent.py:106 | An abstract of up to 300 characters is kept. A longer one becomes exactly its first 300 characters followed by "...". |
| Display.AuthorLineNames | v1/research_agent.py:105 | For names that contain no comma: with no authors the line is empty. With one to three, splitting the line on ", " gives them back. With more, the line ends in "..." and splitting the rest gives back the first three. |
| Fences.StripFences | v2/app.py:116-121 | The cleaned reply is trimmed. A reply that does not start with a fence is only stripped. A fenced reply has no triple backtick left. |
| Fences.RemoveFenceClears | v2/app.py:119 | `replace('```', '')` leaves no triple backtick behind. |
| Fences.StripFencesIdempotent | v2/app.py:116-121 | Cleaning a cleaned reply changes nothing. |
| Fences.JsonFenceRoundTrip | v2/app.py:117-119 | A trimmed payload without backticks, wrapped in a ```json fence on its own lines, comes back out unchanged. |
| Fences.PlainFenceRoundTrip | v2/app.py:117-121 | A trimmed payload without backticks, wrapped in a plain ``` fence on its own lines, comes back out unchanged. |
| Requests.StrippedField | v2/app.py:99-100 | A missing field reads as the empty string. A string field reads as its strip. Any other value fails. |
| Requests.ValidateRequest | v2/app.py:94-106 | A falsy body is "No JSON data provided". A truthy body that is not an object, or an object whose `abstract` or `openai_api_key` is present but not a string, gives the generic server error. A success comes from an object body and carries a non-empty, trimmed abstract and API key. Every failure is one of the validation errors or the generic server error. |
| Requests.ValidationOrder | v2/app.py:99-106 | For an object body with string or missing fields: a blank abstract is reported first, then a blank key; otherwise the request succeeds with both stripped values. |
| Requests.ValidationStatus | v2/app.py:96-106 | Every validation failure is a 400, except the generic server error, which is a 500. |
| Requests.Status | v2/app.py:97-137 | The status code of each error response: 400 for the three validation errors, 500 for the rest. Requests.ValidationStatus states it for validation. |
| Requests.Message | v2/app.py:97-137 | The `error` text of each failure response, including the parse error that quotes the cleaned reply. |
| Queries.NonBlankStrings | v2/app.py:129 | The kept queries are exactly the non-blank strings of the array, each one an element of the array and not stripped. |
| Queries.NonBlankStringsAppend | v2/app.py:129 | The query filter keeps array order: it distributes over concatenation. |
| Queries.SanitizeQueries | v2/app.py:129 | The result is a prefix of the non-blank strings of length min(10, count). |
| Queries.ParseQueries | v2/app.py:123-132 | Queries come back only as one to ten strings, none of them blank. |
| Queries.ParseQueriesExactly | v2/app.py:123-132 | A decoded reply yields queries if and only if it is an array holding a non-blank string, and then yields the first ten such strings. |
| Queries.GenerateQueries | v2/app.py:109-137 | A failed call gives the query-generation error, and an undecodable HTTP body gives the generic server error. An answer either yields what its decoded, fence-stripped text gives, or a parse error quoting exactly the first min(200, length) characters of the cleaned reply. |
| RelatedWork.AllNames | v2/app.py:151-152 | Names exist if and only if every author has a usable name. They then come one per author, in order, each the author's `name` or "Unknown" when it is missing. |
| RelatedWork.Record | v2/app.py:190-198 | The recorded paper: `paperId`, `title` and `url` default to "", `year` to "Unknown year", `venue` to "Unknown venue", and `abstract` to "". A field present in the search result is copied. The author names are the ones given. |
| RelatedWork.AuthorNames | v2/app.py:151 | The author names of a paper: an array is named by RelatedWork.AllNames, an empty string or object gives no names, and any other value cannot be named. |
| RelatedWork.ScoreAboveThreshold | v2/app.py:180-187 | A score exceeds 70 if and only if the comparison holds a number above 70 under `score`. Missing, boolean and non-numeric scores never do. |
| RelatedWork.ScoreOf | v2/app.py:180-185 | The numeric score of a comparison: 0 when missing, 1 or 0 for a boolean, 0 for any other non-number. RelatedWork.ScoreAboveThreshold states when it passes. |
| RelatedWork.Comparison | v2/app.py:173-181 | The decoded comparison: present only when the call answered and its fence-stripped text decodes to an object. |
| RelatedWork.PaperStep | v2/app.py:146-201 | One iteration of the loop over a query's papers: skip, record or end the query. RelatedWork.AcceptExactly and RelatedWork.AbortExactly state when each happens. |
| RelatedWork.AcceptExactly | v2/app.py:146-201 | A paper is recorded if and only if all of the following hold: it is an object with a truthy abstract and nameable authors, the reply decodes to an object, and that object's `score` is a number strictly above 70. A score of exactly 70 is rejected. The match carries the query, the number, and the note or "". Its paper is the record of the paper's fields and author names, with the paper's abstract. |
| RelatedWork.AbortExactly | v2/app.py:146-152 | A paper ends its query if and only if it is not an object, or it has a truthy abstract but authors that cannot all be named. |
| RelatedWork.QueryResults | v2/app.py:146-212 | Each match of a query carries that query, scores above 70, and is the accepted record of one of the query's papers. |
| RelatedWork.QueryResultsAppend | v2/app.py:146-212 | Matches follow search order. Papers after one that ends the query add nothing; otherwise the matches of a split list are those of its halves, concatenated. |
| RelatedWork.RepeatedPaperRecordedTwice | v2/app.py:187-201 | Results are not deduplicated: a paper accepted twice in one query is recorded twice. |
| RelatedWork.SearchResults | v2/app.py:143-212 | A search that raised contributes no matches. Otherwise its matches are those the candidate loop accepts for its query, each carrying that query and a score above 70. |
| RelatedWork.FindRelatedWork | v2/app.py:139-212 | Every result scores above 70 and carries the query of one of the searches. With the contract of RelatedWork.SearchResults, RelatedWork.FindRelatedWorkOne and RelatedWork.FindRelatedWorkAppend determine the results. |
| RelatedWork.FindRelatedWorkAppend | v2/app.py:142-212 | Results follow query order: the results for a split list of searches are those of its halves, concatenated. |
| RelatedWork.FindRelatedWorkOne | v2/app.py:142-212 | A single search contributes exactly its own matches. Together with the append lemma, the results of a list of searches are the matches of each search, concatenated in query order. |
| RelatedWork.Searches | v2/app.py:142-144 | One search outcome per generated query, in query order, each paired with its query. |
| RelatedWork.RespondRelatedWork | v2/app.py:91-221 | A validation failure is returned as it is. After validation, a query-generation failure is returned as it is. When both succeed the answer is a report that echoes the validated abstract and the generated queries, and whose results are those of searching every generated query in order. Every result carries one of those queries and scores above 70. |

## Left out

- The arXiv search (`search_arxiv`: HTTP, feed parsing, and cleaning of each entry) is a parameter of `Ranking.FindRelatedPapers`, which returns a list of papers.
- The Semantic Scholar search and its `limit=50` are inputs; a failed search contributes nothing to the results.
- Sentence embeddings and cosine similarity are a parameter returning an integer score.
- Ranking.RankCandidates: similarity scores are modelled as integers, an order-preserving stand-in for the floats; NaN is not modelled.
- Ranking.FindRelatedPapers: the `similarity_threshold` default of 0.3 is a parameter of the model.
- Display.FormatPaperInfo: `round(similarity_score, 3)` is not modelled; the score is passed through unchanged, because floating-point rounding has no counterpart among the integer scores.
- Keywords.ExtractKeywords: `lower()` and the `\w` class of `\b` are modelled for ASCII only. Python also lowercases and treats as word characters the non-ASCII letters and digits.
- The chat-completion calls are inputs (`Completion`); the prompt texts built from the templates are not modelled, because they only reach the language model.
- `json.loads` is a parameter. The model does not decode text itself.
- RelatedWork.ScoreOf: JSON numbers are exact reals, so float rounding, NaN and infinity in a score are not modelled.
- Requests.Message: the error texts of the generic 500 responses stop at their prefixes ("Error generating queries: ", "Server error: "); the exception message that follows is not modelled.
- Flask routing, CORS, the index page, `jsonify`, and `request.get_json()`'s own handling of bodies that are not JSON are not modelled. A missing body is represented as JSON `null`.
- All `print` logging is left out; it has no effect on results.
- `v1/app.py` and `v1/setup.py` are not part of this model.
