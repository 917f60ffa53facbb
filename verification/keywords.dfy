/** `ResearchAgent.extract_keywords` and the search query built from its result. */
module Keywords {
  import opened Seqs
  import opened Text
  import opened Sorting

  /** The fixed stopword set of `extract_keywords`. */
  const Stopwords: set<string> := {
    "the", "a", "an", "and", "or", "but", "in", "on", "at", "to", "for", "of", "with", "by",
    "is", "are", "was", "were", "be", "been", "being", "have", "has", "had", "do", "does",
    "did", "will", "would", "could", "should", "may", "might", "must", "can", "this", "that",
    "these", "those", "we", "they", "i", "you", "he", "she", "it"
  }

  /** How many keywords are returned: the ten most frequent words. */
  const MaxKeywords: nat := 10

  /** How many of the leading keywords make up the search query. */
  const QueryKeywords: nat := 5

  /** The length of the run of word characters at the start of `s`. */
  function WordRun(s: string): (n: nat)
    ensures n <= |s|
    ensures forall i :: 0 <= i < n ==> IsWordChar(s[i])
    ensures n < |s| ==> !IsWordChar(s[n])
  {
    if |s| > 0 && IsWordChar(s[0]) then 1 + WordRun(s[1..]) else 0
  }

  /** What the pattern `[a-zA-Z]{3,}` accepts. */
  predicate IsToken(w: string) {
    |w| >= 3 && forall k :: 0 <= k < |w| ==> IsAsciiLetter(w[k])
  }

  /** `w` occurs in `s` at index `i` as a whole word: `\b` holds on both sides. */
  predicate WholeWordAt(s: string, w: string, i: nat) {
    && i + |w| <= |s| && s[i..i + |w|] == w
    && (i == 0 || !IsWordChar(s[i - 1]))
    && (i + |w| == |s| || !IsWordChar(s[i + |w|]))
  }

  ghost predicate OccursAsWord(s: string, w: string) {
    exists i: nat :: WholeWordAt(s, w, i)
  }

  /** The words the keyword pattern finds, in text order. A match needs a word boundary on
      both sides, so it is a whole maximal run of word characters, and that run must consist
      of three or more ASCII letters. */
  function Tokens(s: string): (r: seq<string>)
    decreases |s|
  {
    if |s| == 0 then []
    else if !IsWordChar(s[0]) then Tokens(s[1..])
    else
      var n := WordRun(s);
      (if IsToken(s[..n]) then [s[..n]] else []) + Tokens(s[n..])
  }

  /** Index `k` is not inside a word, so a scan may start there. */
  predicate AtBoundary(s: string, k: nat)
    requires k <= |s|
  {
    k == 0 || k == |s| || !IsWordChar(s[k - 1]) || !IsWordChar(s[k])
  }

  /** The positions at or after `k` where a token starts. */
  function TokenStarts(s: string, k: nat): (p: seq<nat>)
    requires k <= |s|
    ensures forall j :: 0 <= j < |p| ==> k <= p[j] < |s|
    ensures forall i, j :: 0 <= i < j < |p| ==> p[i] < p[j]
    decreases |s| - k
  {
    if k == |s| then []
    else if !IsWordChar(s[k]) then TokenStarts(s, k + 1)
    else
      var n := WordRun(s[k..]);
      assert s[k..][0] == s[k];
      var rest := TokenStarts(s, k + n);
      var p := (if IsToken(s[k..k + n]) then [k] else []) + rest;
      assert forall j :: 0 <= j < |p| ==> p[j] == k || p[j] in rest;
      p
  }

  /** One step of the scan at a character that is not a word character: it is passed over. */
  lemma TokensAtNonWord(s: string, k: nat)
    requires k < |s| && !IsWordChar(s[k])
    ensures AtBoundary(s, k + 1)
    ensures Tokens(s[k..]) == Tokens(s[k + 1..])
    ensures TokenStarts(s, k) == TokenStarts(s, k + 1)
  {
    assert s[k..][1..] == s[k + 1..];
  }

  /** One step of the scan at a word character on a boundary: the run of `n` word characters
      there yields at most one token, and the scan resumes on the boundary after it. */
  lemma TokensAtRun(s: string, k: nat, n: nat)
    requires k < |s| && IsWordChar(s[k]) && AtBoundary(s, k) && n == WordRun(s[k..])
    ensures 0 < n && k + n <= |s|
    ensures k + n == |s| || !IsWordChar(s[k + n])
    ensures AtBoundary(s, k + n)
    ensures WholeWordAt(s, s[k..k + n], k)
    ensures Tokens(s[k..]) == (if IsToken(s[k..k + n]) then [s[k..k + n]] else []) + Tokens(s[k + n..])
  {
    var t := s[k..];
    assert t[0] == s[k];
    assert t[..n] == s[k..k + n];
    assert t[n..] == s[k + n..];
    assert k + n < |s| ==> s[k + n] == t[n];
  }

  /** The token positions of a run of `n` word characters: its start when it is a token. */
  lemma StartsAtRun(s: string, k: nat, n: nat)
    requires k < |s| && IsWordChar(s[k]) && n == WordRun(s[k..])
    ensures k + n <= |s|
    ensures TokenStarts(s, k) == (if IsToken(s[k..k + n]) then [k] else []) + TokenStarts(s, k + n)
  {
  }

  /** Tokens come in text order: the `j`-th token is a whole word starting at the `j`-th
      token position, and those positions increase. */
  lemma {:induction false} TokensInTextOrder(s: string, k: nat)
    requires k <= |s| && AtBoundary(s, k)
    ensures |TokenStarts(s, k)| == |Tokens(s[k..])|
    ensures forall j :: 0 <= j < |Tokens(s[k..])| ==>
      WholeWordAt(s, Tokens(s[k..])[j], TokenStarts(s, k)[j])
    decreases |s| - k
  {
    if k < |s| {
      if !IsWordChar(s[k]) {
        TokensAtNonWord(s, k);
        TokensInTextOrder(s, k + 1);
      } else {
        var n := WordRun(s[k..]);
        TokensAtRun(s, k, n);
        StartsAtRun(s, k, n);
        TokensInTextOrder(s, k + n);
        var w := s[k..k + n];
        if IsToken(w) {
          WordsAtCons(s, w, k, Tokens(s[k + n..]), TokenStarts(s, k + n));
        }
      }
    }
  }

  /** Pairing a whole word and its position with pairs of whole words and positions. */
  lemma WordsAtCons(s: string, w: string, k: nat, ts: seq<string>, ps: seq<nat>)
    requires WholeWordAt(s, w, k) && |ts| == |ps|
    requires forall j :: 0 <= j < |ts| ==> WholeWordAt(s, ts[j], ps[j])
    ensures |[k] + ps| == |[w] + ts|
    ensures forall j :: 0 <= j < |[w] + ts| ==> WholeWordAt(s, ([w] + ts)[j], ([k] + ps)[j])
  {
    forall j | 0 < j < |ts| + 1
      ensures WholeWordAt(s, ([w] + ts)[j], ([k] + ps)[j])
    {
      assert ([w] + ts)[j] == ts[j - 1] && ([k] + ps)[j] == ps[j - 1];
    }
  }

  /** How many indices from `k` on hold `w` as a whole word. */
  function WholeWordsFrom(s: string, w: string, k: nat): nat
    decreases |s| + 1 - k
  {
    if k > |s| then 0
    else (if WholeWordAt(s, w, k) then 1 else 0) + WholeWordsFrom(s, w, k + 1)
  }

  /** How often `w` occurs as a whole word in `s`. */
  function WholeWordCount(s: string, w: string): nat {
    WholeWordsFrom(s, w, 0)
  }

  /** Each whole-word occurrence of a word of three or more letters yields exactly one token. */
  lemma {:induction false} TokenCount(s: string, w: string, k: nat)
    requires k <= |s| && AtBoundary(s, k) && IsToken(w)
    ensures multiset(Tokens(s[k..]))[w] == WholeWordsFrom(s, w, k)
    decreases |s| - k
  {
    if k == |s| {
      PositionsAtEnd(s, w);
    } else if !IsWordChar(s[k]) {
      TokenCount(s, w, k + 1);
      CountStepAtNonWord(s, w, k);
    } else {
      var n := WordRun(s[k..]);
      RunEnd(s, k, n);
      TokenCount(s, w, k + n);
      CountStepAtRun(s, w, k, n);
    }
  }

  /** A run of word characters on a boundary ends on a boundary. */
  lemma RunEnd(s: string, k: nat, n: nat)
    requires k < |s| && IsWordChar(s[k]) && n == WordRun(s[k..])
    ensures 0 < n && k + n <= |s| && AtBoundary(s, k + n)
  {
    var t := s[k..];
    assert t[0] == s[k];
    assert k + n < |s| ==> s[k + n] == t[n];
  }

  /** The count from a character that is not a word character is the count after it. */
  lemma CountStepAtNonWord(s: string, w: string, k: nat)
    requires k < |s| && !IsWordChar(s[k]) && IsToken(w)
    requires multiset(Tokens(s[k + 1..]))[w] == WholeWordsFrom(s, w, k + 1)
    ensures multiset(Tokens(s[k..]))[w] == WholeWordsFrom(s, w, k)
  {
    TokensAtNonWord(s, k);
    PositionsAtNonWord(s, w, k);
  }

  /** The count from the start of a run follows from the count after it. */
  lemma CountStepAtRun(s: string, w: string, k: nat, n: nat)
    requires k < |s| && IsWordChar(s[k]) && AtBoundary(s, k) && n == WordRun(s[k..])
    requires IsToken(w) && k + n <= |s|
    requires multiset(Tokens(s[k + n..]))[w] == WholeWordsFrom(s, w, k + n)
    ensures multiset(Tokens(s[k..]))[w] == WholeWordsFrom(s, w, k)
  {
    CountAtRun(s, w, k, n);
    PositionsAtRun(s, w, k, n);
  }

  /** At the end of the text there is neither a token nor a whole word. */
  lemma PositionsAtEnd(s: string, w: string)
    requires IsToken(w)
    ensures Tokens(s[|s|..]) == [] && WholeWordsFrom(s, w, |s|) == 0
  {
    assert s[|s|..] == [];
    assert WholeWordsFrom(s, w, |s| + 1) == 0;
  }

  /** A run of word characters adds one to the count of the word it spells, if any. */
  lemma CountAtRun(s: string, w: string, k: nat, n: nat)
    requires k < |s| && IsWordChar(s[k]) && AtBoundary(s, k) && n == WordRun(s[k..])
    requires IsToken(w)
    ensures 0 < n && k + n <= |s| && AtBoundary(s, k + n)
    ensures multiset(Tokens(s[k..]))[w] ==
      (if s[k..k + n] == w then 1 else 0) + multiset(Tokens(s[k + n..]))[w]
  {
    TokensAtRun(s, k, n);
    var u := s[k..k + n];
    var front := if IsToken(u) then [u] else [];
    CountOfAppend(Tokens(s[k..]), front, Tokens(s[k + n..]), w);
    assert multiset(front)[w] == if u == w then 1 else 0;
  }

  /** Counting in a concatenation adds the counts of its parts. */
  lemma CountOfAppend(whole: seq<string>, front: seq<string>, rest: seq<string>, w: string)
    requires whole == front + rest
    ensures multiset(whole)[w] == multiset(front)[w] + multiset(rest)[w]
  {
  }

  /** No whole word starts at a character that is not a word character. */
  lemma PositionsAtNonWord(s: string, w: string, k: nat)
    requires k < |s| && !IsWordChar(s[k]) && IsToken(w)
    ensures WholeWordsFrom(s, w, k) == WholeWordsFrom(s, w, k + 1)
  {
    assert IsWordChar(w[0]);
    assert !WholeWordAt(s, w, k);
  }

  /** A run of word characters on a boundary holds a whole word only at its start, and
      exactly when the run is that word. */
  lemma PositionsAtRun(s: string, w: string, k: nat, n: nat)
    requires k < |s| && IsWordChar(s[k]) && AtBoundary(s, k) && n == WordRun(s[k..])
    requires IsToken(w)
    ensures k + n <= |s|
    ensures WholeWordsFrom(s, w, k) ==
      (if s[k..k + n] == w then 1 else 0) + WholeWordsFrom(s, w, k + n)
  {
    RunStart(s, w, k);
    assert s[k..][0] == s[k];
    RunInside(s, w, k);
    if n > 1 {
      SkipInside(s, w, k + n, k + 1);
    }
  }

  /** Counting over indices that hold no whole word adds nothing. */
  lemma {:induction false} SkipInside(s: string, w: string, e: nat, j: nat)
    requires j <= e <= |s|
    requires forall i :: j <= i < e ==> !WholeWordAt(s, w, i)
    ensures WholeWordsFrom(s, w, j) == WholeWordsFrom(s, w, e)
    decreases e - j
  {
    if j < e {
      SkipInside(s, w, e, j + 1);
    }
  }

  /** A whole word starts where a run starts exactly when the run is that word. */
  lemma RunStart(s: string, w: string, k: nat)
    requires k < |s| && IsWordChar(s[k]) && AtBoundary(s, k) && IsToken(w)
    ensures k + WordRun(s[k..]) <= |s|
    ensures WholeWordAt(s, w, k) <==> s[k..k + WordRun(s[k..])] == w
  {
    var t := s[k..];
    var n := WordRun(t);
    assert t[..n] == s[k..k + n];
    assert k + n < |s| ==> s[k + n] == t[n];
    if WholeWordAt(s, w, k) {
      assert t[..|w|] == w;
      assert WholeWordAt(t, w, 0);
      WordAtStart(t, w);
    }
  }

  /** No whole word starts strictly inside a run of word characters. */
  lemma RunInside(s: string, w: string, k: nat)
    requires k < |s|
    ensures forall i :: k < i < k + WordRun(s[k..]) ==> !WholeWordAt(s, w, i)
  {
    var t := s[k..];
    var n := WordRun(t);
    forall i | k < i < k + n
      ensures !WholeWordAt(s, w, i)
    {
      assert s[i - 1] == t[i - 1 - k];
    }
  }

  /** Every token is three or more letters and occurs as a whole word. */
  lemma {:induction false} TokensSound(s: string, k: nat)
    requires k <= |s| && AtBoundary(s, k)
    ensures forall w :: w in Tokens(s[k..]) ==> IsToken(w) && OccursAsWord(s, w)
    decreases |s| - k
  {
    if k == |s| {
      assert s[k..] == [];
    } else if !IsWordChar(s[k]) {
      TokensAtNonWord(s, k);
      TokensSound(s, k + 1);
    } else {
      var n := WordRun(s[k..]);
      TokensAtRun(s, k, n);
      TokensSound(s, k + n);
    }
  }

  /** Every whole word of three or more letters is a token. */
  lemma TokensComplete(s: string, k: nat, w: string, i: nat)
    requires k <= i && k <= |s| && AtBoundary(s, k)
    requires IsToken(w) && WholeWordAt(s, w, i)
    ensures w in Tokens(s[k..])
  {
    TokenCount(s, w, k);
    WholeWordCounted(s, w, k, i);
  }

  /** A whole word at or after `k` is counted from `k` on. */
  lemma {:induction false} WholeWordCounted(s: string, w: string, k: nat, i: nat)
    requires k <= i && WholeWordAt(s, w, i)
    ensures WholeWordsFrom(s, w, k) > 0
    decreases i - k
  {
    if k < i {
      WholeWordCounted(s, w, k + 1, i);
    }
  }

  /** A whole word at the start of the text is the first run of word characters. */
  lemma WordAtStart(t: string, w: string)
    requires IsToken(w) && WholeWordAt(t, w, 0)
    ensures WordRun(t) == |w| && t[..WordRun(t)] == w
  {
    var n := WordRun(t);
    assert forall j :: 0 <= j < |w| ==> t[j] == w[j];
    assert forall j :: 0 <= j < |w| ==> IsWordChar(t[j]);
  }

  /** The lowercased abstract with its stopwords removed: the list that is counted. */
  function Candidates(abstractText: string): seq<string> {
    Filter(Tokens(Lower(abstractText)), w => w !in Stopwords)
  }

  /** A word is counted exactly when it is a whole word of three or more letters in the
      lowercased abstract and is not a stopword. */
  lemma CandidatesExactly(abstractText: string, w: string)
    ensures w in Candidates(abstractText) <==>
      IsToken(w) && OccursAsWord(Lower(abstractText), w) && w !in Stopwords
  {
    var s := Lower(abstractText);
    assert s[0..] == s;
    TokensSound(s, 0);
    if IsToken(w) && OccursAsWord(s, w) {
      var i: nat :| WholeWordAt(s, w, i);
      TokensComplete(s, 0, w, i);
    }
  }

  /** A word is counted once for each of its whole-word occurrences in the lowercased abstract
      when it is a word of three or more letters and not a stopword, and never otherwise. */
  lemma CandidateCount(abstractText: string, w: string)
    ensures Count(Candidates(abstractText), w) ==
      if IsToken(w) && w !in Stopwords then WholeWordCount(Lower(abstractText), w) else 0
  {
    var s := Lower(abstractText);
    assert s[0..] == s;
    FilterCount(Tokens(s), x => x !in Stopwords, w);
    if IsToken(w) {
      TokenCount(s, w, 0);
    } else {
      TokensSound(s, 0);
      assert w !in Tokens(s);
    }
  }

  /** Every character of a token of lowercased text is a lowercase letter. */
  lemma TokenIsLower(abstractText: string, w: string)
    requires IsToken(w) && OccursAsWord(Lower(abstractText), w)
    ensures forall k :: 0 <= k < |w| ==> 'a' <= w[k] <= 'z'
  {
    var s := Lower(abstractText);
    var i: nat :| WholeWordAt(s, w, i);
    assert forall k :: 0 <= k < |w| ==> w[k] == s[i + k];
  }

  /** The position of the first occurrence of `x`. */
  function FirstIndex(s: seq<string>, x: string): (r: nat)
    requires x in s
    ensures r < |s| && s[r] == x
    ensures forall j :: 0 <= j < r ==> s[j] != x
  {
    if s[0] == x then 0 else 1 + FirstIndex(s[1..], x)
  }

  /** The first occurrence of a word in a prefix is its first occurrence overall. */
  lemma FirstIndexPrefix(s: seq<string>, n: nat, x: string)
    requires n <= |s| && x in s[..n]
    ensures FirstIndex(s, x) == FirstIndex(s[..n], x)
  {
    var a, b := FirstIndex(s, x), FirstIndex(s[..n], x);
    assert s[b] == x;
  }

  /** The distinct words in order of first occurrence: the keys of `Counter(s)`, which
      keeps insertion order. */
  function Distinct(s: seq<string>): (r: seq<string>)
    ensures NoDup(r)
    ensures forall x :: x in r <==> x in s
    ensures forall i, j :: 0 <= i < j < |r| ==> FirstIndex(s, r[i]) < FirstIndex(s, r[j])
    decreases |s|
  {
    if |s| == 0 then []
    else
      var r := Distinct(s[..|s| - 1]);
      DistinctExtend(s, r);
      if s[|s| - 1] in r then r else r + [s[|s| - 1]]
  }

  /** One step of `Distinct`: the last word is added when it is new, and first-occurrence
      order is kept. */
  lemma DistinctExtend(s: seq<string>, r: seq<string>)
    requires |s| > 0
    requires NoDup(r) && forall x :: x in r <==> x in s[..|s| - 1]
    requires forall i, j :: 0 <= i < j < |r| ==>
      r[i] in s[..|s| - 1] && r[j] in s[..|s| - 1]
      && FirstIndex(s[..|s| - 1], r[i]) < FirstIndex(s[..|s| - 1], r[j])
    ensures var e := if s[|s| - 1] in r then r else r + [s[|s| - 1]];
      && NoDup(e)
      && (forall x :: x in e <==> x in s)
      && forall i, j :: 0 <= i < j < |e| ==>
        e[i] in s && e[j] in s && FirstIndex(s, e[i]) < FirstIndex(s, e[j])
  {
    var p := s[..|s| - 1];
    var last := s[|s| - 1];
    assert s == p + [last];
    forall x | x in r
      ensures x in s && FirstIndex(s, x) == FirstIndex(p, x) && FirstIndex(p, x) < |p|
    {
      FirstIndexPrefix(s, |s| - 1, x);
    }
    if last in r {
      forall i, j | 0 <= i < j < |r|
        ensures r[i] in s && r[j] in s && FirstIndex(s, r[i]) < FirstIndex(s, r[j])
      {
      }
    } else {
      var e := r + [last];
      assert FirstIndex(s, last) == |p|;
      forall i, j | 0 <= i < j < |e|
        ensures e[i] in s && e[j] in s && FirstIndex(s, e[i]) < FirstIndex(s, e[j])
      {
        assert e[i] == r[i];
        if j < |r| {
          assert e[j] == r[j];
        }
      }
      assert NoDup(e) by {
        assert forall i :: 0 <= i < |r| ==> e[i] == r[i];
      }
    }
  }

  /** The `(word, count)` pairs of `Counter(s)`, in insertion order. */
  function CounterItems(s: seq<string>): seq<(string, int)> {
    var d := Distinct(s);
    seq(|d|, i requires 0 <= i < |d| => (d[i], multiset(s)[d[i]]))
  }

  /** `Counter(s).most_common(n)`: the items sorted by count, largest first, equal counts
      in insertion order, cut to `n`. */
  function MostCommon(s: seq<string>, n: nat): seq<(string, int)> {
    Take(RankedItems(s), n)
  }

  function Firsts(s: seq<(string, int)>): (r: seq<string>)
    ensures |r| == |s| && forall i :: 0 <= i < |s| ==> r[i] == s[i].0
  {
    seq(|s|, i requires 0 <= i < |s| => s[i].0)
  }

  /** How often `w` occurs in `s`. */
  function Count(s: seq<string>, w: string): nat {
    multiset(s)[w]
  }

  /** `extract_keywords`. */
  function ExtractKeywords(abstractText: string): seq<string> {
    TopWords(Candidates(abstractText), MaxKeywords)
  }

  /** The search query: the leading keywords, separated by single spaces. */
  function SearchQuery(abstractText: string): string {
    Join(Take(ExtractKeywords(abstractText), QueryKeywords), " ")
  }

  /** The order `most_common` promises: higher count first, and on equal counts the word
      that occurred first. */
  predicate RankedBefore(s: seq<string>, a: string, b: string)
    requires a in s && b in s
  {
    Count(s, a) > Count(s, b) || (Count(s, a) == Count(s, b) && FirstIndex(s, a) < FirstIndex(s, b))
  }

  /** The `Counter` items sorted by `most_common`. */
  function RankedItems(s: seq<string>): seq<(string, int)> {
    SortDesc(CounterItems(s))
  }

  /** Each ranked item is a counted word with its count. */
  lemma RankedItemsShape(s: seq<string>)
    ensures |RankedItems(s)| == |Distinct(s)|
    ensures forall i :: 0 <= i < |RankedItems(s)| ==>
      RankedItems(s)[i].0 in s && RankedItems(s)[i].1 == Count(s, RankedItems(s)[i].0)
  {
    var c := CounterItems(s);
    var items := RankedItems(s);
    forall i | 0 <= i < |items|
      ensures items[i].0 in s && items[i].1 == Count(s, items[i].0)
    {
      assert items[i] in multiset(c);
    }
  }

  /** No word is ranked twice. */
  lemma RankedItemsNoDup(s: seq<string>)
    ensures NoDup(Firsts(RankedItems(s)))
  {
    var c := CounterItems(s);
    var items := RankedItems(s);
    assert NoDup(c);
    SortDescNoDup(c);
    RankedItemsShape(s);
    forall i, j | 0 <= i < j < |items|
      ensures items[i].0 != items[j].0
    {
      assert items[i] != items[j];
    }
  }

  /** Every counted word is ranked. */
  lemma RankedItemsCover(s: seq<string>)
    ensures forall w :: w in s ==> w in Firsts(RankedItems(s))
  {
    var d := Distinct(s);
    var c := CounterItems(s);
    var items := RankedItems(s);
    forall w | w in s
      ensures w in Firsts(items)
    {
      var a :| 0 <= a < |d| && d[a] == w;
      assert c[a] in multiset(items);
      var p :| 0 <= p < |items| && items[p] == c[a];
      assert Firsts(items)[p] == w;
    }
  }

  /** The ranked items are in `most_common` order. */
  lemma RankedItemsOrdered(s: seq<string>)
    ensures forall i, j :: 0 <= i < j < |RankedItems(s)| ==>
      RankedItems(s)[i].0 in s && RankedItems(s)[j].0 in s &&
      RankedBefore(s, RankedItems(s)[i].0, RankedItems(s)[j].0)
  {
    var d := Distinct(s);
    var c := CounterItems(s);
    var items := RankedItems(s);
    RankedItemsShape(s);
    SortDescIsStableSort(c);
    forall i, j | 0 <= i < j < |items|
      ensures RankedBefore(s, items[i].0, items[j].0)
    {
      if items[i].1 == items[j].1 {
        var i', j' := StableOrder(c, items, i, j);
        assert d[i'] == items[i].0 && d[j'] == items[j].0;
      }
    }
  }

  /** Every keyword is a distinct whole word of three or more lowercase letters from the
      abstract, not a stopword, and there are at most ten of them. */
  lemma ExtractKeywordsWords(abstractText: string)
    ensures var r := ExtractKeywords(abstractText);
      && |r| <= MaxKeywords
      && NoDup(r)
      && forall i :: 0 <= i < |r| ==>
           && r[i] in Candidates(abstractText)
           && r[i] !in Stopwords
           && |r[i]| >= 3
           && (forall k :: 0 <= k < |r[i]| ==> 'a' <= r[i][k] <= 'z')
           && OccursAsWord(Lower(abstractText), r[i])
  {
    var s := Candidates(abstractText);
    var items := RankedItems(s);
    var r := ExtractKeywords(abstractText);
    RankedItemsShape(s);
    RankedItemsNoDup(s);
    assert r == Take(Firsts(items), MaxKeywords);
    forall i | 0 <= i < |r|
      ensures r[i] !in Stopwords && |r[i]| >= 3 && OccursAsWord(Lower(abstractText), r[i])
      ensures forall k :: 0 <= k < |r[i]| ==> 'a' <= r[i][k] <= 'z'
    {
      CandidatesExactly(abstractText, r[i]);
      TokenIsLower(abstractText, r[i]);
    }
  }

  /** The words of `most_common(n)`. */
  function TopWords(s: seq<string>, n: nat): seq<string> {
    Firsts(MostCommon(s, n))
  }

  /** The words of `most_common(n)` come in `most_common` order. */
  lemma {:induction false} TopWordsOrdered(s: seq<string>, n: nat)
    ensures forall i :: 0 <= i < |TopWords(s, n)| ==> TopWords(s, n)[i] in s
    ensures forall i, j :: 0 <= i < j < |TopWords(s, n)| ==> RankedBefore(s, TopWords(s, n)[i], TopWords(s, n)[j])
  {
    var items := RankedItems(s);
    var r := TopWords(s, n);
    RankedItemsOrdered(s);
    RankedItemsShape(s);
    assert forall i :: 0 <= i < |r| ==> r[i] == items[i].0;
  }

  /** Every counted word left out of `most_common(n)` ranks below every word kept, and
      fewer than `n` words means that every counted word was kept. */
  lemma {:induction false} TopWordsCutOff(s: seq<string>, n: nat)
    ensures |TopWords(s, n)| == (if |Distinct(s)| < n then |Distinct(s)| else n)
    ensures forall i, w :: 0 <= i < |TopWords(s, n)| && w in s && w !in TopWords(s, n) ==>
      TopWords(s, n)[i] in s && RankedBefore(s, TopWords(s, n)[i], w)
    ensures |TopWords(s, n)| < n ==> forall w :: w in s ==> w in TopWords(s, n)
  {
    var items := RankedItems(s);
    var f := Firsts(items);
    var r := TopWords(s, n);
    assert r == Take(f, n);
    assert |f| == |Distinct(s)| by {
      RankedItemsShape(s);
    }
    assert forall q :: 0 <= q < |r| ==> r[q] == f[q];
    assert forall i, w :: 0 <= i < |r| && w in s && w !in r ==> r[i] in s && RankedBefore(s, r[i], w) by {
      RankedItemsShape(s);
      RankedItemsCover(s);
      RankedItemsOrdered(s);
      forall i, w | 0 <= i < |r| && w in s && w !in r
        ensures r[i] in s && RankedBefore(s, r[i], w)
      {
        var p :| 0 <= p < |f| && f[p] == w;
        assert p >= |r|;
        assert RankedBefore(s, items[i].0, items[p].0);
      }
    }
    assert |r| < n ==> forall w :: w in s ==> w in r by {
      RankedItemsCover(s);
    }
  }

  /** The search query is the first `min(5, n)` keywords separated by single spaces:
      splitting it on spaces gives exactly those keywords back. */
  lemma SearchQueryWords(abstractText: string)
    ensures var kw := ExtractKeywords(abstractText);
      && (|kw| == 0 ==> SearchQuery(abstractText) == "")
      && (|kw| > 0 ==> SplitOn(SearchQuery(abstractText), " ") == Take(kw, QueryKeywords))
  {
    var kw := ExtractKeywords(abstractText);
    var first := Take(kw, QueryKeywords);
    ExtractKeywordsWords(abstractText);
    if |kw| > 0 {
      forall i | 0 <= i < |first|
        ensures ' ' !in first[i]
      {
        assert first[i] == kw[i];
        assert forall k :: 0 <= k < |kw[i]| ==> 'a' <= kw[i][k] <= 'z';
      }
      SplitJoin(first, " ");
    }
  }
}
