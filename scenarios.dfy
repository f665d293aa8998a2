/** Worked inputs for `replaceColors`: what happens to particular texts, whatever the palette and distance. */
module Scenarios {
  import opened Chars
  import opened Normalize
  import opened Matcher
  import opened Scanner
  import opened Rewriter

  /** The only `#` of `t` starts no token, so the text passes through unchanged. */
  lemma UnchangedWhenNoToken(t: string, colors: seq<string>, dist: Distance)
    requires |colors| > 0
    requires |t| > 0 && t[0] == '#' && '#' !in t[1..]
    requires TokenAt(t, 0).None?
    ensures ReplaceColors(t, colors, dist) == t
  {
    forall p | 0 <= p < |t|
      ensures RegexMatchAt(t, p).None?
    {
      if p == 0 {
        RecognitionRule(t, 0);
      } else {
        assert t[p] == t[1..][p - 1];
      }
    }
    ReplaceWithoutTokens(t, tok => ReplaceMatch(tok, colors, dist));
  }

  /** A run of five or seven digits is not a token and passes through unchanged. */
  lemma FiveAndSevenDigitsUnchanged(colors: seq<string>, dist: Distance)
    requires |colors| > 0
    ensures ReplaceColors("#12345", colors, dist) == "#12345"
    ensures ReplaceColors("#1234567", colors, dist) == "#1234567"
  {
    UnchangedWhenNoToken("#12345", colors, dist);
    UnchangedWhenNoToken("#1234567", colors, dist);
  }

  /** Digits followed by a word character (`g` here) are not a token. */
  lemma FollowedByWordCharUnchanged(colors: seq<string>, dist: Distance)
    requires |colors| > 0
    ensures ReplaceColors("#abcg", colors, dist) == "#abcg"
  {
    UnchangedWhenNoToken("#abcg", colors, dist);
  }

  // The text is a parameter fixed by `requires`, so the solver does not unfold the string literal at every use.
  lemma EightDigitParts(colors: seq<string>, dist: Distance, h: string)
    requires |colors| > 0
    requires h == "112233cc"
    ensures ReplaceMatch("#" + h, colors, dist) == colors[NearestIndex("#" + Lower(h[..6]), colors, dist)] + h[6..]
  {
    TokenReassembly(h, colors, dist);
  }

  // The text is a parameter fixed by `requires`, so the solver does not unfold the string literal at every use.
  lemma EightDigitText(h: string)
    requires h == "112233cc"
    ensures "#" + Lower(h[..6]) == "#112233" && h[6..] == "cc" && "#" + h == "#112233cc"
  {
    assert h[..6] == "112233";
  }

  lemma EightDigitMatch(colors: seq<string>, dist: Distance)
    requires |colors| > 0
    ensures ReplaceMatch("#112233cc", colors, dist) == colors[NearestIndex("#112233", colors, dist)] + "cc"
  {
    EightDigitParts(colors, dist, "112233cc");
    EightDigitText("112233cc");
  }

  /** An eight-digit token keeps its two alpha digits as written. */
  lemma EightDigitExample(colors: seq<string>, dist: Distance)
    requires |colors| > 0
    ensures ReplaceColors("#112233cc", colors, dist) == colors[NearestIndex("#112233", colors, dist)] + "cc"
  {
    var f := tok => ReplaceMatch(tok, colors, dist);
    assert "#112233cc" + "" == "#112233cc";
    ReplaceTokenPrefix("#112233cc", "", f);
    ReplaceWithoutTokens("", f);
    EightDigitMatch(colors, dist);
  }

  // The text is a parameter fixed by `requires`, so the solver does not unfold the string literal at every use.
  lemma FourDigitParts(colors: seq<string>, dist: Distance, h: string)
    requires |colors| > 0
    requires h == "F0A8"
    ensures ReplaceMatch("#" + h, colors, dist) == colors[NearestIndex("#" + Doubled(Lower(h)), colors, dist)] + [h[3], h[3]]
  {
    TokenReassembly(h, colors, dist);
  }

  // The text is a parameter fixed by `requires`, so the solver does not unfold the string literal at every use.
  lemma FourDigitText(h: string)
    requires h == "F0A8"
    ensures "#" + Doubled(Lower(h)) == "#ff00aa" && [h[3], h[3]] == "88" && "#" + h == "#F0A8"
  {
  }

  /** A four-digit token: the first three digits doubled and lower-cased are matched, the fourth doubled is appended. */
  lemma FourDigitExample(colors: seq<string>, dist: Distance)
    requires |colors| > 0
    ensures ReplaceColors("#F0A8", colors, dist) == colors[NearestIndex("#ff00aa", colors, dist)] + "88"
  {
    var f := tok => ReplaceMatch(tok, colors, dist);
    assert "#F0A8" + "" == "#F0A8";
    ReplaceTokenPrefix("#F0A8", "", f);
    ReplaceWithoutTokens("", f);
    FourDigitParts(colors, dist, "F0A8");
    FourDigitText("F0A8");
  }
}
