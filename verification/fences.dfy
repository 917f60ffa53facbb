/** Stripping of Markdown code fences from a language-model reply before it is decoded as
    JSON (the same steps are applied to the query list and to each comparison). */
module Fences {
  import opened Seqs
  import opened Text

  const Fence: string := "```"

  const JsonFence: string := "```json"

  /** The reply is trimmed. If it then opens with a `json` fence, every `json` fence marker and
      then every remaining triple backtick is deleted; if it opens with a plain fence, every
      triple backtick is deleted. A fenced reply is trimmed once more. */
  function StripFences(reply: string): (r: string)
    ensures Trimmed(r)
    ensures !(Fence <= Strip(reply)) ==> r == Strip(reply)
    ensures Fence <= Strip(reply) ==> !Contains(r, Fence)
  {
    var t := Strip(reply);
    if JsonFence <= t then
      var u := RemoveAll(RemoveAll(t, JsonFence), Fence);
      RemoveFenceClears(RemoveAll(t, JsonFence));
      StripKeepsAbsent(u, Fence);
      Strip(u)
    else if Fence <= t then
      var u := RemoveAll(t, Fence);
      RemoveFenceClears(t);
      StripKeepsAbsent(u, Fence);
      Strip(u)
    else t
  }

  /** The number of backticks at the start of `s`. */
  function LeadTicks(s: string): (n: nat)
    ensures n <= |s|
    ensures forall i :: 0 <= i < n ==> s[i] == '`'
    ensures n < |s| ==> s[n] != '`'
  {
    if |s| > 0 && s[0] == '`' then 1 + LeadTicks(s[1..]) else 0
  }

  /** Deleting every triple backtick leaves none behind: a run of `n` backticks shrinks to
      `n % 3`, and runs are separated by characters that are kept. */
  lemma {:induction false} RemoveFenceClears(s: string)
    ensures !Contains(RemoveAll(s, Fence), Fence)
    ensures LeadTicks(RemoveAll(s, Fence)) < 3
    ensures LeadTicks(s) < 3 ==> LeadTicks(RemoveAll(s, Fence)) == LeadTicks(s)
    decreases |s|
  {
    if |s| > 0 {
      if Fence <= s {
        RemoveFenceClears(s[3..]);
        assert LeadTicks(s) >= 3 by {
          assert s[0] == '`' && s[1] == '`' && s[2] == '`';
          assert s[1..][0] == '`' && s[1..][1..][0] == '`';
        }
      } else {
        var rest := RemoveAll(s[1..], Fence);
        RemoveFenceClears(s[1..]);
        assert RemoveAll(s, Fence) == [s[0]] + rest;
        assert s[0] == '`' ==> LeadTicks(s[1..]) < 2 by {
          if s[0] == '`' && |s| >= 3 && s[1] == '`' {
            assert s[..3] != Fence;
            assert s[2] != '`';
            assert s[1..][1] != '`';
          }
        }
        PrependKeepsClear(s[0], rest);
      }
    }
  }

  /** A character in front of fence-free text leaves it fence-free when it does not complete
      a run of three backticks. */
  lemma PrependKeepsClear(c: char, rest: string)
    requires !Contains(rest, Fence)
    requires c == '`' ==> LeadTicks(rest) < 2
    ensures !Contains([c] + rest, Fence)
    ensures LeadTicks([c] + rest) == if c == '`' then 1 + LeadTicks(rest) else 0
  {
    var r := [c] + rest;
    assert r[1..] == rest;
    assert LeadTicks(r) == if c == '`' then 1 + LeadTicks(rest) else 0;
    assert !OccursAt(r, Fence, 0) by {
      if 3 <= |r| {
        var k := LeadTicks(r);
        assert k < 3 && r[k] != '`';
        assert r[..3][k] != Fence[k];
      }
    }
    forall i: nat | 1 <= i <= |r|
      ensures !OccursAt(r, Fence, i)
    {
      assert !OccursAt(rest, Fence, i - 1);
      if i + 3 <= |r| {
        assert r[i..i + 3] == rest[i - 1..i + 2];
      }
    }
  }

  /** A strip of text without the pattern is without it too. */
  lemma StripKeepsAbsent(s: string, pat: string)
    requires !Contains(s, pat)
    ensures !Contains(Strip(s), pat)
  {
    var a, b := StripIsSlice(s);
    SliceKeepsAbsent(s, pat, a, b);
  }

  /** Stripping fences twice is the same as stripping them once. */
  lemma StripFencesIdempotent(reply: string)
    ensures StripFences(StripFences(reply)) == StripFences(reply)
  {
    var r := StripFences(reply);
    StripTrimmed(r);
    if Fence <= r {
      assert OccursAt(r, Fence, 0);
    }
  }

  /** `Strip` of a trimmed payload between two line breaks gives the payload back. */
  lemma StripBetweenNewlines(p: string)
    requires |p| > 0 && Trimmed(p)
    ensures Strip("\n" + p + "\n") == p
  {
    var s := "\n" + p + "\n";
    assert s[1..] == p + "\n";
    assert LeadingSpace(s[1..]) == 0;
    assert LeadingSpace(s) == 1;
    var t := s[1..];
    assert t[..|t| - 1] == p;
    assert TrailingSpace(p) == |p|;
    assert TrailingSpace(t) == |p|;
  }

  /** A closing fence after text without backticks: deleting `json` fence markers leaves it,
      and deleting triple backticks removes it. */
  lemma ClosingFence(body: string)
    requires '`' !in body
    ensures RemoveAll(body + Fence, JsonFence) == body + Fence
    ensures RemoveAll(body + Fence, Fence) == body
  {
    RemoveAllKeepsPrefix(body, Fence, JsonFence);
    assert !Contains(Fence, JsonFence);
    RemoveAllAbsent(Fence, JsonFence);
    RemoveAllKeepsPrefix(body, Fence, Fence);
    assert RemoveAll(Fence, Fence) == RemoveAll("", Fence) == "";
    assert body + "" == body;
  }

  /** Deleting an opening pattern that starts the text leaves the rest to be scanned. */
  lemma OpeningFence(pat: string, rest: string)
    requires |pat| > 0
    ensures RemoveAll(pat + rest, pat) == RemoveAll(rest, pat)
  {
    assert (pat + rest)[|pat|..] == rest;
    assert pat <= pat + rest;
  }

  /** A JSON payload wrapped in a ```json fence comes back out unchanged, as long as it has
      no backtick and no surrounding whitespace. */
  lemma JsonFenceRoundTrip(p: string)
    requires |p| > 0 && Trimmed(p) && '`' !in p
    ensures StripFences(JsonFence + "\n" + p + "\n" + Fence) == p
  {
    var body := "\n" + p + "\n";
    var x := JsonFence + "\n" + p + "\n" + Fence;
    assert x == JsonFence + (body + Fence);
    assert Trimmed(x);
    StripTrimmed(x);
    assert JsonFence <= x;
    OpeningFence(JsonFence, body + Fence);
    ClosingFence(body);
    StripBetweenNewlines(p);
  }

  /** A payload wrapped in a plain ``` fence comes back out unchanged, as long as it has no
      backtick and no surrounding whitespace. */
  lemma PlainFenceRoundTrip(p: string)
    requires |p| > 0 && Trimmed(p) && '`' !in p
    ensures StripFences(Fence + "\n" + p + "\n" + Fence) == p
  {
    var body := "\n" + p + "\n";
    var x := Fence + "\n" + p + "\n" + Fence;
    assert x == Fence + (body + Fence);
    assert Trimmed(x);
    StripTrimmed(x);
    assert !(JsonFence <= x) by {
      assert x[3] == '\n' != JsonFence[3];
    }
    assert Fence <= x;
    OpeningFence(Fence, body + Fence);
    ClosingFence(body);
    StripBetweenNewlines(p);
  }
}
