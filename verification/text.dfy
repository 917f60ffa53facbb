/** Character classes and the string primitives of Python's `str` that the program relies on:
    `isspace`, `strip`, ASCII `lower`, `startswith` and `replace(pat, '')`. */
module Text {
  import opened Seqs

  /** Python's `str.isspace()` for one character, which is also what the regular-expression
      class `\s` matches: the ASCII controls TAB to CR, the four separators 0x1C to 0x1F,
      SPACE, and the Unicode space characters. */
  predicate IsSpace(c: char) {
    || ('\t' <= c <= '\r')
    || ('\U{1C}' <= c <= '\U{1F}')
    || c == ' '
    || c == '\U{85}'
    || c == '\U{A0}'
    || c == '\U{1680}'
    || ('\U{2000}' <= c <= '\U{200A}')
    || c == '\U{2028}'
    || c == '\U{2029}'
    || c == '\U{202F}'
    || c == '\U{205F}'
    || c == '\U{3000}'
  }

  predicate IsAsciiUpper(c: char) { 'A' <= c <= 'Z' }

  predicate IsAsciiLetter(c: char) { 'a' <= c <= 'z' || IsAsciiUpper(c) }

  /** The regular-expression class `\w`, restricted to ASCII. */
  predicate IsWordChar(c: char) { IsAsciiLetter(c) || '0' <= c <= '9' || c == '_' }

  predicate AllSpace(s: string) {
    forall i :: 0 <= i < |s| ==> IsSpace(s[i])
  }

  /** No whitespace at either end. */
  predicate Trimmed(s: string) {
    |s| == 0 || (!IsSpace(s[0]) && !IsSpace(s[|s| - 1]))
  }

  /** `r` is `s` with some whitespace cut from its front and its back, and nothing else. */
  ghost predicate SpacePadded(s: string, r: string) {
    exists a: nat, b: nat | a <= b <= |s| :: s[a..b] == r && AllSpace(s[..a]) && AllSpace(s[b..])
  }

  /** The length of the leading whitespace run. */
  function LeadingSpace(s: string): (n: nat)
    ensures n <= |s| && AllSpace(s[..n])
    ensures n < |s| ==> !IsSpace(s[n])
  {
    if |s| > 0 && IsSpace(s[0]) then
      assert s[..1 + LeadingSpace(s[1..])] == [s[0]] + s[1..][..LeadingSpace(s[1..])];
      1 + LeadingSpace(s[1..])
    else 0
  }

  /** The index where the trailing whitespace run begins. */
  function TrailingSpace(s: string): (n: nat)
    ensures n <= |s| && AllSpace(s[n..])
    ensures 0 < n ==> !IsSpace(s[n - 1])
  {
    if |s| > 0 && IsSpace(s[|s| - 1]) then
      var m := TrailingSpace(s[..|s| - 1]);
      assert s[m..] == s[..|s| - 1][m..] + [s[|s| - 1]];
      m
    else |s|
  }

  /** Python's `s.strip()`. */
  function Strip(s: string): (r: string)
    ensures Trimmed(r)
    ensures SpacePadded(s, r)
    ensures |r| <= |s|
  {
    var a := LeadingSpace(s);
    var t := s[a..];
    var m := TrailingSpace(t);
    var r := t[..m];
    assert s[a + m..] == t[m..];
    assert s[a..a + m] == r;
    assert m > 0 ==> r[0] == s[a] && r[m - 1] == t[m - 1];
    assert Trimmed(r);
    assert SpacePadded(s, r) by {
      assert s[a..a + m] == r && AllSpace(s[..a]) && AllSpace(s[a + m..]);
    }
    r
  }

  /** Stripping text that is already trimmed changes nothing. */
  lemma StripTrimmed(s: string)
    requires Trimmed(s)
    ensures Strip(s) == s
  {
    if |s| > 0 {
      assert LeadingSpace(s) == 0;
      assert s[0..] == s;
      assert TrailingSpace(s) == |s|;
    }
  }

  /** `strip` is idempotent. */
  lemma StripIdempotent(s: string)
    ensures Strip(Strip(s)) == Strip(s)
  {
    StripTrimmed(Strip(s));
  }

  /** The stripped text is one contiguous slice of the input, with only whitespace around it. */
  lemma StripIsSlice(s: string) returns (a: nat, b: nat)
    ensures a <= b <= |s| && Strip(s) == s[a..b]
    ensures AllSpace(s[..a]) && AllSpace(s[b..])
  {
    a := LeadingSpace(s);
    b := a + TrailingSpace(s[a..]);
    assert s[b..] == s[a..][TrailingSpace(s[a..])..];
  }

  /** No character of `w` is whitespace. */
  predicate NoSpace(w: string) {
    forall k :: 0 <= k < |w| ==> !IsSpace(w[k])
  }

  /** The length of the run of non-whitespace characters at the start of `s`. */
  function WordLength(s: string): (n: nat)
    ensures n <= |s| && NoSpace(s[..n])
    ensures n < |s| ==> IsSpace(s[n])
  {
    if |s| > 0 && !IsSpace(s[0]) then
      assert s[..1 + WordLength(s[1..])] == [s[0]] + s[1..][..WordLength(s[1..])];
      1 + WordLength(s[1..])
    else 0
  }

  /** Python's `s.split()` without arguments: the maximal runs of non-whitespace characters,
      in order. */
  function Words(s: string): (r: seq<string>)
    ensures forall i :: 0 <= i < |r| ==> |r[i]| > 0 && NoSpace(r[i])
    decreases |s|
  {
    if |s| == 0 then []
    else if IsSpace(s[0]) then Words(s[1..])
    else
      var n := WordLength(s);
      [s[..n]] + Words(s[n..])
  }

  /** Leading whitespace separates no words. */
  lemma {:induction false} WordsAfterSpace(w: string, u: string)
    requires AllSpace(w)
    ensures Words(w + u) == Words(u)
    decreases |w|
  {
    if |w| > 0 {
      assert (w + u)[1..] == w[1..] + u;
      WordsAfterSpace(w[1..], u);
    } else {
      assert w + u == u;
    }
  }

  /** A word run is not extended by text that starts with whitespace. */
  lemma {:induction false} WordLengthAppend(u: string, w: string)
    requires |w| == 0 || IsSpace(w[0])
    ensures WordLength(u + w) == WordLength(u)
    decreases |u|
  {
    if |u| > 0 && !IsSpace(u[0]) {
      assert (u + w)[1..] == u[1..] + w;
      WordLengthAppend(u[1..], w);
    } else if |u| == 0 {
      assert u + w == w;
    }
  }

  /** Trailing whitespace separates no words. */
  lemma {:induction false} WordsBeforeSpace(u: string, w: string)
    requires AllSpace(w)
    ensures Words(u + w) == Words(u)
    decreases |u|
  {
    var s := u + w;
    if |u| == 0 {
      assert s == w;
      assert w + [] == w;
      WordsAfterSpace(w, []);
    } else if IsSpace(u[0]) {
      assert s[1..] == u[1..] + w;
      WordsBeforeSpace(u[1..], w);
    } else {
      var n := WordLength(u);
      WordLengthAppend(u, w);
      assert s[..n] == u[..n];
      assert s[n..] == u[n..] + w;
      WordsBeforeSpace(u[n..], w);
    }
  }

  /** Stripping keeps the words. */
  lemma WordsOfStrip(s: string)
    ensures Words(Strip(s)) == Words(s)
  {
    var a, b := StripIsSlice(s);
    var pre, mid, post := s[..a], s[a..b], s[b..];
    SplitThree(s, a, b);
    WordsAfterSpace(pre, mid + post);
    WordsBeforeSpace(mid, post);
  }

  /** The words of a text that starts with a non-whitespace character `x`: `x` joins the
      first word of the rest when the rest starts with one, and is a word of its own
      otherwise. */
  lemma WordsCons(x: char, u: string)
    requires !IsSpace(x)
    ensures |u| > 0 && !IsSpace(u[0]) ==>
      |Words(u)| > 0 && Words([x] + u) == [[x] + Words(u)[0]] + Words(u)[1..]
    ensures !(|u| > 0 && !IsSpace(u[0])) ==> Words([x] + u) == [[x]] + Words(u)
  {
    var s := [x] + u;
    assert s[1..] == u;
    var n := WordLength(s);
    assert n == 1 + WordLength(u);
    var m := WordLength(u);
    assert s[..n] == [x] + u[..m];
    assert s[n..] == u[m..];
  }

  /** Python's `c.lower()` on an ASCII character; other characters are left as they are. */
  function LowerChar(c: char): (r: char)
    ensures !IsAsciiUpper(r)
    ensures IsAsciiLetter(r) <==> IsAsciiLetter(c)
    ensures IsWordChar(r) <==> IsWordChar(c)
    ensures !IsAsciiUpper(c) ==> r == c
  {
    if IsAsciiUpper(c) then (c as int + 32) as char else c
  }

  /** Python's `s.lower()` over ASCII. */
  function Lower(s: string): (r: string)
    ensures |r| == |s|
    ensures forall i :: 0 <= i < |s| ==> r[i] == LowerChar(s[i])
  {
    seq(|s|, i requires 0 <= i < |s| => LowerChar(s[i]))
  }

  /** Python's `s.replace(pat, '')`: every non-overlapping occurrence of `pat`, found from
      left to right, is deleted. */
  function RemoveAll(s: string, pat: string): (r: string)
    requires |pat| > 0
    ensures |r| <= |s|
    decreases |s|
  {
    if |s| == 0 then ""
    else if pat <= s then RemoveAll(s[|pat|..], pat)
    else [s[0]] + RemoveAll(s[1..], pat)
  }

  /** A string without any occurrence of the pattern is left alone. */
  lemma {:induction false} RemoveAllAbsent(s: string, pat: string)
    requires |pat| > 0 && !Contains(s, pat)
    ensures RemoveAll(s, pat) == s
    decreases |s|
  {
    if |s| > 0 {
      assert !OccursAt(s, pat, 0);
      assert !(pat <= s);
      assert !Contains(s[1..], pat) by {
        forall i: nat | i <= |s[1..]|
          ensures !OccursAt(s[1..], pat, i)
        {
          assert !OccursAt(s, pat, i + 1);
          if i + |pat| <= |s[1..]| {
            assert s[1..][i..i + |pat|] == s[i + 1..i + 1 + |pat|];
          }
        }
      }
      RemoveAllAbsent(s[1..], pat);
    }
  }

  /** Characters that cannot start the pattern pass through `RemoveAll` untouched. */
  lemma {:induction false} RemoveAllKeepsPrefix(u: string, w: string, pat: string)
    requires |pat| > 0 && pat[0] !in u
    ensures RemoveAll(u + w, pat) == u + RemoveAll(w, pat)
    decreases |u|
  {
    if |u| > 0 {
      var s := u + w;
      assert s[0] == u[0] != pat[0];
      assert !(pat <= s);
      assert s[1..] == u[1..] + w;
      RemoveAllKeepsPrefix(u[1..], w, pat);
    } else {
      assert u + w == w;
    }
  }
}
