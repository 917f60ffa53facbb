/** `ResearchAgent.clean_text`: delete markup tags, turn every whitespace run into one
    space, and strip the ends. */
module Cleaning {
  import opened Seqs
  import opened Text

  /** The index of the first `>` at or after `from`, or `|s|` when there is none. */
  function NextClose(s: string, from: nat): (r: nat)
    requires from <= |s|
    ensures from <= r <= |s|
    ensures forall j :: from <= j < r ==> s[j] != '>'
    ensures r < |s| ==> s[r] == '>'
    decreases |s| - from
  {
    if from == |s| || s[from] == '>' then from else NextClose(s, from + 1)
  }

  /** The length of the match of the pattern `<[^>]+>` at the start of `s`, or 0 when the
      pattern does not match there. */
  function TagLength(s: string): (n: nat)
    ensures n <= |s|
    ensures n > 0 <==> |s| > 1 && s[0] == '<' && s[1] != '>' && '>' in s[1..]
    ensures n > 0 ==> n >= 3 && s[n - 1] == '>' && '>' !in s[1..n - 1]
  {
    if |s| > 1 && s[0] == '<' then
      var c := NextClose(s, 1);
      assert '>' in s[1..] ==> c < |s| by {
        if '>' in s[1..] {
          var j :| 1 <= j < |s| && s[j] == '>';
        }
      }
      if 1 < c < |s| then c + 1 else 0
    else 0
  }

  /** No position of `s` starts a tag. */
  predicate NoTag(s: string) {
    forall i :: 0 <= i <= |s| ==> TagLength(s[i..]) == 0
  }

  /** Tag removal: scanning from the left, a `<` that is followed by at least one character
      other than `>` and then by a `>` opens a tag, and the tag up to that first `>` is
      deleted; every other character is copied. */
  function RemoveTags(s: string): (r: string)
    ensures |r| <= |s|
    ensures forall i :: 0 <= i < |r| ==> r[i] in s
    ensures IsSubsequence(r, s)
    ensures |s| > 0 && TagLength(s) == 0 ==> |r| > 0 && r[0] == s[0]
    ensures NoTag(r)
    decreases |s|
  {
    if |s| == 0 then ""
    else
      var n := TagLength(s);
      if n > 0 then
        var r := RemoveTags(s[n..]);
        assert forall i :: 0 <= i < |r| ==> r[i] in s[n..];
        SubsequenceOfSuffix(r, s, n);
        r
      else
        var t := RemoveTags(s[1..]);
        assert forall i :: 0 <= i < |t| ==> t[i] in s[1..];
        KeepFirst(s, t);
        assert ([s[0]] + t)[1..] == t;
        [s[0]] + t
  }

  /** One markup tag: `<`, one or more characters none of which is `>`, then `>`. */
  predicate IsTag(g: string) {
    && |g| >= 3 && g[0] == '<' && g[|g| - 1] == '>'
    && forall k :: 1 <= k < |g| - 1 ==> g[k] != '>'
  }

  /** Text without `<` cannot open a tag, so it is copied in front of whatever the rest
      becomes. */
  lemma {:induction false} RemoveTagsKeepsPlain(p: string, s: string)
    requires '<' !in p
    ensures RemoveTags(p + s) == p + RemoveTags(s)
    decreases |p|
  {
    if |p| == 0 {
      assert p + s == s;
    } else {
      var ps, rest := p + s, p[1..] + s;
      assert ps[0] == p[0] && ps[1..] == rest;
      RemoveTagsCopiesFirst(ps);
      RemoveTagsKeepsPlain(p[1..], s);
      HeadTail(p, RemoveTags(s));
    }
  }

  /** A first character that opens no tag is copied, and removal goes on from the next one.
      This covers a `<` with no `>` after it and a `<` directly followed by `>`. */
  lemma RemoveTagsCopiesFirst(s: string)
    requires |s| > 0 && TagLength(s) == 0
    ensures RemoveTags(s) == [s[0]] + RemoveTags(s[1..])
  {
  }

  /** A tag at the front is deleted whole, whatever follows it. */
  lemma RemoveTagsDropsTag(g: string, s: string)
    requires IsTag(g)
    ensures RemoveTags(g + s) == RemoveTags(s)
  {
    var t := g + s;
    var c := NextClose(t, 1);
    assert t[|g| - 1] == '>';
    assert forall k :: 1 <= k < |g| - 1 ==> t[k] == g[k];
    assert c == |g| - 1;
    assert TagLength(t) == |g|;
    assert t[|g|..] == s;
  }

  /** Putting in front of a tag-free text a character that does not start a tag there gives a
      tag-free text. */
  lemma KeepFirst(s: string, t: string)
    requires |s| > 0 && TagLength(s) == 0 && NoTag(t)
    requires forall i :: 0 <= i < |t| ==> t[i] in s[1..]
    requires |s| > 1 && TagLength(s[1..]) == 0 ==> |t| > 0 && t[0] == s[1]
    ensures NoTag([s[0]] + t)
  {
    var r := [s[0]] + t;
    assert r[1..] == t;
    assert TagLength(r) == 0 by {
      if |r| > 1 && r[0] == '<' && r[1] != '>' {
        assert '>' !in s[1..];
        assert '>' !in t;
        assert r[1..] == t;
      }
    }
    forall i | 0 <= i <= |r|
      ensures TagLength(r[i..]) == 0
    {
      if i > 0 {
        assert r[i..] == t[i - 1..];
      }
    }
  }

  /** Text without tags is left unchanged by tag removal. */
  lemma {:induction false} RemoveTagsNoTag(s: string)
    requires NoTag(s)
    ensures RemoveTags(s) == s
    decreases |s|
  {
    if |s| > 0 {
      assert TagLength(s[0..]) == 0 && s[0..] == s;
      assert NoTag(s[1..]) by {
        forall i | 0 <= i <= |s[1..]|
          ensures TagLength(s[1..][i..]) == 0
        {
          assert s[1..][i..] == s[i + 1..];
        }
      }
      RemoveTagsNoTag(s[1..]);
    }
  }

  /** Tag removal is idempotent. */
  lemma RemoveTagsIdempotent(s: string)
    ensures RemoveTags(RemoveTags(s)) == RemoveTags(s)
  {
    RemoveTagsNoTag(RemoveTags(s));
  }

  /** Whitespace that `clean_text` leaves is one space character, and never two in a row. */
  predicate SingleSpaced(s: string) {
    && (forall i :: 0 <= i < |s| && IsSpace(s[i]) ==> s[i] == ' ')
    && (forall i :: 0 <= i < |s| - 1 ==> !(s[i] == ' ' && s[i + 1] == ' '))
  }

  /** The text with every whitespace character removed. */
  function Visible(s: string): string {
    if |s| == 0 then ""
    else (if IsSpace(s[0]) then "" else [s[0]]) + Visible(s[1..])
  }

  lemma {:induction false} VisibleAppend(a: string, b: string)
    ensures Visible(a + b) == Visible(a) + Visible(b)
    decreases |a|
  {
    if |a| == 0 {
      assert a + b == b;
    } else {
      assert (a + b)[1..] == a[1..] + b;
      VisibleAppend(a[1..], b);
    }
  }

  lemma VisibleOfSpace(s: string)
    requires AllSpace(s)
    ensures Visible(s) == ""
  {
  }

  /** Whitespace normalisation: every maximal run of whitespace characters is replaced by a
      single space character. */
  function CollapseSpace(s: string): (r: string)
    ensures |r| <= |s|
    ensures |s| > 0 ==> |r| > 0 && r[0] == (if IsSpace(s[0]) then ' ' else s[0])
    ensures SingleSpaced(r)
    decreases |s|
  {
    if |s| == 0 then ""
    else
      var n := if IsSpace(s[0]) then LeadingSpace(s) else 1;
      var c := [if IsSpace(s[0]) then ' ' else s[0]];
      var t := CollapseSpace(s[n..]);
      assert |t| > 0 ==> !IsSpace(t[0]) || !IsSpace(s[0]);
      assert forall i :: 0 <= i < |t| ==> (c + t)[i + 1] == t[i];
      c + t
  }

  /** One step of `CollapseSpace`: the first whitespace run, or the first other character,
      is handled and the rest of the text is collapsed on its own. */
  lemma CollapseStep(s: string) returns (n: nat)
    requires |s| > 0
    ensures 0 < n <= |s|
    ensures IsSpace(s[0]) ==> AllSpace(s[..n]) && CollapseSpace(s) == " " + CollapseSpace(s[n..])
    ensures !IsSpace(s[0]) ==> n == 1 && CollapseSpace(s) == [s[0]] + CollapseSpace(s[1..])
  {
    n := if IsSpace(s[0]) then LeadingSpace(s) else 1;
  }

  /** The last character is kept, or turned into a space when it is whitespace: a trailing
      whitespace run leaves exactly one space, and no space is added after a last word. */
  lemma {:induction false} CollapseLast(s: string)
    requires |s| > 0
    ensures |CollapseSpace(s)| > 0
    ensures CollapseSpace(s)[|CollapseSpace(s)| - 1] == if IsSpace(s[|s| - 1]) then ' ' else s[|s| - 1]
    decreases |s|
  {
    var n := CollapseStep(s);
    var h: string := if IsSpace(s[0]) then " " else [s[0]];
    var t := CollapseSpace(s[n..]);
    assert CollapseSpace(s) == h + t;
    if n < |s| {
      var u := s[n..];
      CollapseLast(u);
      Seqs.LastOfAppend(h, t);
      assert u[|u| - 1] == s[|s| - 1];
    } else {
      assert t == [] && h + t == h;
      LastOfSpaceRun(s, n);
    }
  }

  /** When the first step of collapsing consumes the whole input, the input's last
      character is whitespace exactly when its first is, and otherwise it is that first. */
  lemma LastOfSpaceRun(s: string, n: nat)
    requires 0 < n == |s|
    requires IsSpace(s[0]) ==> AllSpace(s[..n])
    requires !IsSpace(s[0]) ==> n == 1
    ensures IsSpace(s[|s| - 1]) == IsSpace(s[0])
    ensures !IsSpace(s[0]) ==> s[|s| - 1] == s[0]
  {
    if IsSpace(s[0]) {
      assert s[..n][|s| - 1] == s[|s| - 1];
    }
  }

  /** Collapsing only turns whitespace into spaces: every other character comes from the
      input. */
  lemma {:induction false} CollapseChars(s: string)
    ensures forall i :: 0 <= i < |CollapseSpace(s)| ==> CollapseSpace(s)[i] == ' ' || CollapseSpace(s)[i] in s
    decreases |s|
  {
    if |s| > 0 {
      var n := CollapseStep(s);
      CollapseChars(s[n..]);
      var t := CollapseSpace(s[n..]);
      assert forall x :: x in t && x != ' ' ==> x in s[n..];
    }
  }

  /** Collapsing keeps every non-whitespace character, in order. */
  lemma {:induction false} CollapseVisible(s: string)
    ensures Visible(CollapseSpace(s)) == Visible(s)
    decreases |s|
  {
    if |s| > 0 {
      var n := CollapseStep(s);
      CollapseVisible(s[n..]);
      var t := CollapseSpace(s[n..]);
      assert Visible(s) == Visible(s[n..]) + "" || !IsSpace(s[0]) by {
        if IsSpace(s[0]) {
          assert s == s[..n] + s[n..];
          VisibleAppend(s[..n], s[n..]);
          VisibleOfSpace(s[..n]);
        }
      }
      if IsSpace(s[0]) {
        assert CollapseSpace(s) == " " + t;
        assert Visible(" " + t) == Visible(t) by {
          assert (" " + t)[1..] == t;
        }
      } else {
        assert CollapseSpace(s) == [s[0]] + t;
        assert ([s[0]] + t)[1..] == t;
      }
    }
  }

  /** Collapsing keeps the words, so every whitespace run still separates the words on its two
      sides. */
  lemma {:induction false} CollapseWords(s: string)
    ensures Words(CollapseSpace(s)) == Words(s)
    decreases |s|
  {
    if |s| > 0 {
      var n := CollapseStep(s);
      CollapseWords(s[n..]);
      if IsSpace(s[0]) {
        CollapseWordsAtSpace(s, n);
      } else {
        CollapseWordsAtChar(s);
      }
    }
  }

  /** A leading whitespace run, collapsed to one space, still separates no words. */
  lemma CollapseWordsAtSpace(s: string, n: nat)
    requires 0 < n <= |s| && AllSpace(s[..n])
    requires CollapseSpace(s) == " " + CollapseSpace(s[n..])
    requires Words(CollapseSpace(s[n..])) == Words(s[n..])
    ensures Words(CollapseSpace(s)) == Words(s)
  {
    var t := CollapseSpace(s[n..]);
    assert (" " + t)[1..] == t;
    assert s == s[..n] + s[n..];
    WordsAfterSpace(s[..n], s[n..]);
  }

  /** A leading character that is not whitespace joins the first word on both sides. */
  lemma CollapseWordsAtChar(s: string)
    requires |s| > 0 && !IsSpace(s[0])
    requires CollapseSpace(s) == [s[0]] + CollapseSpace(s[1..])
    requires Words(CollapseSpace(s[1..])) == Words(s[1..])
    ensures Words(CollapseSpace(s)) == Words(s)
  {
    assert s == [s[0]] + s[1..];
    WordsCons(s[0], s[1..]);
    WordsCons(s[0], CollapseSpace(s[1..]));
  }

  /** Trimmed, single-spaced text is its words joined by single spaces, so such a text is
      determined by its words. */
  lemma {:induction false} SpacedWords(r: string)
    requires Trimmed(r) && SingleSpaced(r)
    ensures Join(Words(r), " ") == r
    decreases |r|
  {
    if |r| > 0 {
      var m := WordLength(r);
      if m == |r| {
        assert r[..m] == r && r[m..] == [];
      } else {
        assert r[m] == ' ';
        assert m < |r| - 1;
        assert !IsSpace(r[m + 1]);
        var t := r[m + 1..];
        assert r[m..][1..] == t;
        assert Words(r) == [r[..m]] + Words(t);
        SingleSpacedSlice(r, m + 1, |r|);
        assert Trimmed(t);
        SpacedWords(t);
        assert |Words(t)| > 0;
        assert ([r[..m]] + Words(t))[1..] == Words(t);
        SplitAround(r, m);
      }
    }
  }

  /** Collapsing whitespace creates no tag. */
  lemma {:induction false} CollapseKeepsNoTag(s: string)
    requires NoTag(s)
    ensures NoTag(CollapseSpace(s))
    decreases |s|
  {
    if |s| > 0 {
      var n := CollapseStep(s);
      var t := s[n..];
      NoTagSuffix(s, n);
      CollapseKeepsNoTag(t);
      var c := CollapseSpace(t);
      var r := CollapseSpace(s);
      assert r == [r[0]] + c;
      assert TagLength(s[0..]) == 0 && s[0..] == s;
      CollapseHeadNoTag(s, n, r, c);
      NoTagCons(r[0], c);
    }
  }

  /** A suffix of a text without tags has no tags. */
  lemma NoTagSuffix(s: string, n: nat)
    requires n <= |s| && NoTag(s)
    ensures NoTag(s[n..])
  {
    var t := s[n..];
    forall i | 0 <= i <= |t|
      ensures TagLength(t[i..]) == 0
    {
      assert t[i..] == s[n + i..];
    }
  }

  /** A character in front of a text without tags adds no tag unless one starts at it. */
  lemma NoTagCons(x: char, c: string)
    requires NoTag(c) && TagLength([x] + c) == 0
    ensures NoTag([x] + c)
  {
    var r := [x] + c;
    forall i | 0 <= i <= |r|
      ensures TagLength(r[i..]) == 0
    {
      if i > 0 {
        assert r[i..] == c[i - 1..];
      }
    }
  }

  /** The first step of collapsing a text without tags starts no tag. */
  lemma CollapseHeadNoTag(s: string, n: nat, r: string, c: string)
    requires |s| > 0 && TagLength(s) == 0 && 0 < n <= |s|
    requires !IsSpace(s[0]) ==> n == 1
    requires c == CollapseSpace(s[n..]) && r == CollapseSpace(s) && |r| > 0 && r == [r[0]] + c
    ensures TagLength(r) == 0
  {
    if r[0] == '<' {
      assert s[0] == '<' && n == 1;
      if |s| > 1 && s[1] == '>' {
        assert r[1] == c[0] == '>';
      } else {
        assert '>' !in s[1..];
        CollapseChars(s[1..]);
        assert '>' !in c;
        assert r[1..] == c;
      }
    }
  }

  /** A tag match depends only on the text up to its closing `>`, so it survives extending
      the text. */
  lemma TagInPrefix(u: string, v: string)
    requires u <= v
    ensures TagLength(u) > 0 ==> TagLength(v) > 0
  {
    if TagLength(u) > 0 {
      var j :| 1 <= j < |u| && u[j] == '>';
      assert v[j] == '>';
    }
  }

  /** Every slice of a tag-free text is tag-free. */
  lemma NoTagSlice(s: string, a: nat, b: nat)
    requires a <= b <= |s| && NoTag(s)
    ensures NoTag(s[a..b])
  {
    var u := s[a..b];
    forall i | 0 <= i <= |u|
      ensures TagLength(u[i..]) == 0
    {
      assert u[i..] <= s[a + i..];
      TagInPrefix(u[i..], s[a + i..]);
    }
  }

  /** Python's `clean_text`. */
  function CleanText(text: string): (r: string)
    ensures Trimmed(r)
    ensures SingleSpaced(r)
    ensures NoTag(r)
    ensures Visible(r) == Visible(RemoveTags(text))
    ensures Words(r) == Words(RemoveTags(text))
  {
    var untagged := RemoveTags(text);
    var collapsed := CollapseSpace(untagged);
    CollapseKeepsNoTag(untagged);
    CollapseVisible(untagged);
    CollapseWords(untagged);
    StripKeepsClean(collapsed);
    WordsOfStrip(collapsed);
    Strip(collapsed)
  }

  /** `clean_text` agrees with the independent description: split the tag-free text into its
      whitespace-separated words and join them with single spaces. */
  lemma CleanTextJoinsWords(text: string)
    ensures CleanText(text) == Join(Words(RemoveTags(text)), " ")
  {
    SpacedWords(CleanText(text));
  }

  /** Stripping removes only whitespace and keeps single spacing and the absence of tags. */
  lemma StripKeepsClean(c: string)
    requires SingleSpaced(c) && NoTag(c)
    ensures SingleSpaced(Strip(c)) && NoTag(Strip(c))
    ensures Visible(Strip(c)) == Visible(c)
  {
    var a, b := StripIsSlice(c);
    NoTagSlice(c, a, b);
    SingleSpacedSlice(c, a, b);
    VisibleOfPadded(c, a, b);
  }

  /** Cutting whitespace from both ends keeps the visible characters. */
  lemma VisibleOfPadded(c: string, a: nat, b: nat)
    requires a <= b <= |c| && AllSpace(c[..a]) && AllSpace(c[b..])
    ensures Visible(c[a..b]) == Visible(c)
  {
    var pre, r, post := c[..a], c[a..b], c[b..];
    assert pre + r == c[..b];
    assert c[..b] + post == c;
    assert Visible(c) == Visible(pre + r) + Visible(post) by {
      VisibleAppend(pre + r, post);
    }
    assert Visible(pre + r) == Visible(pre) + Visible(r) by {
      VisibleAppend(pre, r);
    }
    VisibleOfSpace(pre);
    VisibleOfSpace(post);
  }

  /** A slice of single-spaced text is single-spaced. */
  lemma SingleSpacedSlice(c: string, a: nat, b: nat)
    requires a <= b <= |c| && SingleSpaced(c)
    ensures SingleSpaced(c[a..b])
  {
    var r := c[a..b];
    assert forall i :: 0 <= i < |r| ==> r[i] == c[a + i];
  }

  /** Text with single spaces only is left unchanged by whitespace collapsing. */
  lemma {:induction false} CollapseSingleSpaced(s: string)
    requires SingleSpaced(s)
    ensures CollapseSpace(s) == s
    decreases |s|
  {
    if |s| > 0 {
      assert SingleSpaced(s[1..]) by {
        assert forall i :: 0 <= i < |s[1..]| ==> s[1..][i] == s[i + 1];
      }
      if IsSpace(s[0]) {
        assert |s| > 1 ==> s[1] != ' ';
        assert LeadingSpace(s) == 1 by {
          assert LeadingSpace(s[1..]) == 0;
        }
      }
      CollapseSingleSpaced(s[1..]);
    }
  }

  /** Cleaning already clean text changes nothing, so `clean_text` is idempotent. */
  lemma CleanTextIdempotent(text: string)
    ensures CleanText(CleanText(text)) == CleanText(text)
  {
    var c := CleanText(text);
    RemoveTagsNoTag(c);
    CollapseSingleSpaced(c);
    StripTrimmed(c);
  }
}
