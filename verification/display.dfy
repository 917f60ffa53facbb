/** `ResearchAgent.format_paper_info`: the record the web page shows for one ranked paper. */
module Display {
  import opened Seqs
  import opened Ranking

  /** The display record. */
  datatype PaperInfo = PaperInfo(
    title: string,
    authors: string,
    abstractText: string,
    url: string,
    published: string,
    similarityScore: int,
    source: string)

  /** Authors shown before the ellipsis. */
  const ShownAuthors: nat := 3

  /** Abstract characters shown before the ellipsis. */
  const ShownAbstract: nat := 300

  /** Characters of the publication timestamp kept: the date part. */
  const DateLength: nat := 10

  const Ellipsis: string := "..."

  const AuthorSeparator: string := ", "

  /** The first three author names separated by a comma and a space, followed by an
      ellipsis when the paper has more authors. */
  function AuthorLine(authors: seq<string>): string {
    Join(Take(authors, ShownAuthors), AuthorSeparator) + (if |authors| > ShownAuthors then Ellipsis else "")
  }

  /** The abstract cut to its first 300 characters, with an ellipsis marking the cut; a
      shorter abstract is shown whole. */
  function ShortAbstract(a: string): (r: string)
    ensures |a| <= ShownAbstract ==> r == a
    ensures |a| > ShownAbstract ==> |r| == ShownAbstract + |Ellipsis| && r[..ShownAbstract] == a[..ShownAbstract] && r[ShownAbstract..] == Ellipsis
  {
    if |a| > ShownAbstract then a[..ShownAbstract] + Ellipsis else a
  }

  /** `format_paper_info`. The score is passed through; see the notes on rounding. */
  function FormatPaperInfo(paper: Paper, score: int): (r: PaperInfo)
    ensures r.title == paper.title && r.url == paper.url && r.source == paper.source
    ensures r.authors == AuthorLine(paper.authors)
    ensures r.similarityScore == score
    ensures |paper.abstractText| <= ShownAbstract ==> r.abstractText == paper.abstractText
    ensures |paper.abstractText| > ShownAbstract ==>
      && |r.abstractText| == ShownAbstract + |Ellipsis|
      && r.abstractText[..ShownAbstract] == paper.abstractText[..ShownAbstract]
      && r.abstractText[ShownAbstract..] == Ellipsis
    ensures r.published <= paper.published
    ensures |r.published| == if |paper.published| < DateLength then |paper.published| else DateLength
  {
    PaperInfo(
      paper.title,
      AuthorLine(paper.authors),
      ShortAbstract(paper.abstractText),
      paper.url,
      Take(paper.published, DateLength),
      score,
      paper.source)
  }

  /** The author line lists exactly the first three names, separated by `", "`, with `"..."`
      attached when more authors exist (for names without commas, so that splitting on the
      separator recovers them). */
  lemma AuthorLineNames(authors: seq<string>)
    requires forall k :: 0 <= k < |authors| ==> ',' !in authors[k]
    ensures |authors| == 0 ==> AuthorLine(authors) == ""
    ensures 0 < |authors| <= ShownAuthors ==> SplitOn(AuthorLine(authors), AuthorSeparator) == authors
    ensures |authors| > ShownAuthors ==>
      var line := AuthorLine(authors);
      && |line| >= |Ellipsis|
      && line[|line| - |Ellipsis|..] == Ellipsis
      && SplitOn(line[..|line| - |Ellipsis|], AuthorSeparator) == authors[..ShownAuthors]
  {
    var shown := Take(authors, ShownAuthors);
    if |authors| > 0 {
      SplitJoin(shown, AuthorSeparator);
    }
    if 0 < |authors| <= ShownAuthors {
      assert shown == authors;
      assert AuthorLine(authors) == Join(shown, AuthorSeparator) + "";
      assert Join(shown, AuthorSeparator) + "" == Join(shown, AuthorSeparator);
      assert SplitOn(Join(shown, AuthorSeparator), AuthorSeparator) == shown;
    }
    if |authors| > ShownAuthors {
      var line := AuthorLine(authors);
      var body := Join(shown, AuthorSeparator);
      assert line == body + Ellipsis;
      assert line[..|line| - |Ellipsis|] == body;
    }
  }
}
