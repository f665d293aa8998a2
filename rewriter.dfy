/**
 * `replaceColors` (src/main.ts:38-60): every token the search finds is
 * replaced by the nearest palette entry followed by the token's alpha digits;
 * everything else is copied as it is.
 */
module Rewriter {
  import opened Chars
  import opened Normalize
  import opened Matcher
  import opened Scanner

  /**
   * The callback given to `replace`: split the matched token by its digit
   * count into a colour part and an alpha part, find the nearest palette
   * entry to the colour part, and append the alpha part.
   */
  function ReplaceMatch(tok: string, colors: seq<string>, dist: Distance): (r: string)
    requires |colors| > 0
    ensures var alpha := AlphaPart(RemoveFirst(tok, '#'));
      |alpha| <= |r| && r[..|r| - |alpha|] in colors && r[|r| - |alpha|..] == alpha
  {
    var hex := RemoveFirst(tok, '#');
    var entry :=
      if |hex| == 8 then NearestColor("#" + hex[..6], colors, dist)
      else if |hex| == 4 then NearestColor("#" + hex[..3], colors, dist)
      else NearestColor(tok, colors, dist);
    EntryThenAlpha(entry, AlphaPart(hex));
    entry + AlphaPart(hex)
  }

  /** The alpha digits the callback appends: the last two of eight, the fourth of four twice, none otherwise. */
  function AlphaPart(hex: string): string {
    if |hex| == 8 then hex[6..8]
    else if |hex| == 4 then [hex[3], hex[3]]
    else []
  }

  lemma EntryThenAlpha(entry: string, alpha: string)
    ensures (entry + alpha)[..|entry|] == entry && (entry + alpha)[|entry|..] == alpha
  {
  }

  lemma NoHashInDigits(h: string)
    requires forall i :: 0 <= i < |h| ==> IsHexDigit(h[i])
    ensures '#' !in h
  {
    forall i | 0 <= i < |h| ensures h[i] != '#' {
      assert IsHexDigit(h[i]);
    }
  }

  /** The callback on `#h` with no other `#` in `h`, stated through `NearestColor`. */
  lemma ReplaceMatchDigits(h: string, colors: seq<string>, dist: Distance)
    requires |colors| > 0
    requires '#' !in h
    ensures |h| == 8 ==> ReplaceMatch("#" + h, colors, dist) == NearestColor("#" + h[..6], colors, dist) + h[6..]
    ensures |h| == 4 ==> ReplaceMatch("#" + h, colors, dist) == NearestColor("#" + h[..3], colors, dist) + [h[3], h[3]]
    ensures |h| != 8 && |h| != 4 ==> ReplaceMatch("#" + h, colors, dist) == NearestColor("#" + h, colors, dist)
  {
    StripHash(h);
    if |h| == 8 {
      assert h[6..8] == h[6..];
    }
  }

  /** The nearest entry to six digits is the nearest to their lower-cased form. */
  lemma NearestToSix(c: string, colors: seq<string>, dist: Distance)
    requires |colors| > 0
    requires |c| == 6 && '#' !in c
    ensures NearestColor("#" + c, colors, dist) == colors[NearestIndex("#" + Lower(c), colors, dist)]
  {
    NormalizeLong(c);
    assert c[..6] == c;
  }

  /** The nearest entry to three digits is the nearest to their doubled, lower-cased form. */
  lemma NearestToThree(c: string, colors: seq<string>, dist: Distance)
    requires |colors| > 0
    requires |c| == 3 && '#' !in c
    ensures NearestColor("#" + c, colors, dist) == colors[NearestIndex("#" + Doubled(Lower(c)), colors, dist)]
  {
    NormalizeShort(c);
  }

  lemma EightTokenReassembly(h: string, colors: seq<string>, dist: Distance)
    requires |colors| > 0
    requires |h| == 8
    requires '#' !in h
    ensures ReplaceMatch("#" + h, colors, dist) == colors[NearestIndex("#" + Lower(h[..6]), colors, dist)] + h[6..]
  {
    ReplaceMatchDigits(h, colors, dist);
    NearestToSix(h[..6], colors, dist);
  }

  lemma SixTokenReassembly(h: string, colors: seq<string>, dist: Distance)
    requires |colors| > 0
    requires |h| == 6
    requires '#' !in h
    ensures ReplaceMatch("#" + h, colors, dist) == colors[NearestIndex("#" + Lower(h), colors, dist)]
  {
    ReplaceMatchDigits(h, colors, dist);
    NearestToSix(h, colors, dist);
  }

  lemma FourTokenReassembly(h: string, colors: seq<string>, dist: Distance)
    requires |colors| > 0
    requires |h| == 4
    requires '#' !in h
    ensures ReplaceMatch("#" + h, colors, dist) == colors[NearestIndex("#" + Doubled(Lower(h)), colors, dist)] + [h[3], h[3]]
  {
    ReplaceMatchDigits(h, colors, dist);
    NearestToThree(h[..3], colors, dist);
    assert Doubled(Lower(h[..3])) == Doubled(Lower(h));
  }

  lemma ThreeTokenReassembly(h: string, colors: seq<string>, dist: Distance)
    requires |colors| > 0
    requires |h| == 3
    requires '#' !in h
    ensures ReplaceMatch("#" + h, colors, dist) == colors[NearestIndex("#" + Doubled(Lower(h)), colors, dist)]
  {
    ReplaceMatchDigits(h, colors, dist);
    NearestToThree(h, colors, dist);
  }

  /**
   * What a token `#h` becomes: the entry nearest to its colour digits,
   * normalized to six lower-case digits, then its alpha digits: the last two as
   * written for eight digits, the fourth twice for four digits, none otherwise.
   */
  function TokenReplacement(h: string, colors: seq<string>, dist: Distance): string
    requires |colors| > 0 && IsTokenLength(|h|)
  {
    if |h| == 8 then colors[NearestIndex("#" + Lower(h[..6]), colors, dist)] + h[6..]
    else if |h| == 6 then colors[NearestIndex("#" + Lower(h), colors, dist)]
    else if |h| == 4 then colors[NearestIndex("#" + Doubled(Lower(h)), colors, dist)] + [h[3], h[3]]
    else colors[NearestIndex("#" + Doubled(Lower(h)), colors, dist)]
  }

  /** The callback on a token `#h` gives what `TokenReplacement` describes. */
  lemma TokenReassembly(h: string, colors: seq<string>, dist: Distance)
    requires |colors| > 0
    requires IsTokenLength(|h|)
    requires forall i :: 0 <= i < |h| ==> IsHexDigit(h[i])
    ensures ReplaceMatch("#" + h, colors, dist) == TokenReplacement(h, colors, dist)
  {
    NoHashInDigits(h);
    if |h| == 8 {
      EightTokenReassembly(h, colors, dist);
    } else if |h| == 6 {
      SixTokenReassembly(h, colors, dist);
    } else if |h| == 4 {
      FourTokenReassembly(h, colors, dist);
    } else {
      ThreeTokenReassembly(h, colors, dist);
    }
  }

  /** The text a piece contributes to the output, `f` being the callback. */
  function Render(s: string, pc: Piece, f: string -> string): string
    requires End(pc) <= |s|
  {
    match pc
    case Verbatim(at) => [s[at]]
    case Token(at, len) => f(s[at..at + len])
  }

  function RenderAll(s: string, ps: seq<Piece>, f: string -> string): string
    requires forall i :: 0 <= i < |ps| ==> End(ps[i]) <= |s|
  {
    if ps == [] then []
    else Render(s, ps[0], f) + RenderAll(s, ps[1..], f)
  }

  /**
   * The output of the global replace for the text from position `p` on: the
   * search tries the regex at `p`; a match is handed to `f` and the search
   * resumes after it, otherwise the character is copied and the search moves on.
   */
  function RewriteFrom(s: string, p: nat, f: string -> string): string
    requires p <= |s|
    decreases |s| - p
  {
    if p == |s| then []
    else
      match RegexMatchAt(s, p)
      case Some(n) => f(s[p..p + n]) + RewriteFrom(s, p + n, f)
      case None => [s[p]] + RewriteFrom(s, p + 1, f)
  }

  lemma RewriteAtToken(s: string, p: nat, n: nat, f: string -> string)
    requires p < |s| && RegexMatchAt(s, p) == Some(n)
    ensures RewriteFrom(s, p, f) == f(s[p..p + n]) + RewriteFrom(s, p + n, f)
  {
  }

  lemma RewriteAtChar(s: string, p: nat, f: string -> string)
    requires p < |s| && RegexMatchAt(s, p).None?
    ensures RewriteFrom(s, p, f) == [s[p]] + RewriteFrom(s, p + 1, f)
  {
  }

  lemma RenderCons(s: string, pc: Piece, rest: seq<Piece>, f: string -> string)
    requires End(pc) <= |s|
    requires forall i :: 0 <= i < |rest| ==> End(rest[i]) <= |s|
    ensures RenderAll(s, [pc] + rest, f) == Render(s, pc, f) + RenderAll(s, rest, f)
  {
    assert ([pc] + rest)[1..] == rest;
  }

  lemma RendersVerbatim(s: string, p: nat, f: string -> string)
    requires p < |s| && RegexMatchAt(s, p).None?
    requires RewriteFrom(s, p + 1, f) == RenderAll(s, TokenizeFrom(s, p + 1), f)
    ensures RewriteFrom(s, p, f) == RenderAll(s, TokenizeFrom(s, p), f)
  {
    RewriteAtChar(s, p, f);
    assert TokenizeFrom(s, p) == [Verbatim(p)] + TokenizeFrom(s, p + 1);
    RenderCons(s, Verbatim(p), TokenizeFrom(s, p + 1), f);
  }

  lemma RendersToken(s: string, p: nat, n: nat, f: string -> string)
    requires p < |s| && RegexMatchAt(s, p) == Some(n)
    requires RewriteFrom(s, p + n, f) == RenderAll(s, TokenizeFrom(s, p + n), f)
    ensures RewriteFrom(s, p, f) == RenderAll(s, TokenizeFrom(s, p), f)
  {
    RewriteAtToken(s, p, n, f);
    assert TokenizeFrom(s, p) == [Token(p, n)] + TokenizeFrom(s, p + n);
    RenderCons(s, Token(p, n), TokenizeFrom(s, p + n), f);
  }

  /** The output is the rendering, in order, of the pieces the search cuts the text into. */
  lemma {:induction false} RewriteRendersPieces(s: string, p: nat, f: string -> string)
    requires p <= |s|
    ensures RewriteFrom(s, p, f) == RenderAll(s, TokenizeFrom(s, p), f)
    decreases |s| - p
  {
    if p < |s| {
      match RegexMatchAt(s, p)
      case None =>
        RewriteRendersPieces(s, p + 1, f);
        RendersVerbatim(s, p, f);
      case Some(n) =>
        RewriteRendersPieces(s, p + n, f);
        RendersToken(s, p, n, f);
    }
  }

  /** `content.replace(HEX_COLOR_REGEX, f)`: every match handed to `f`, its result spliced in. */
  function ReplaceAll(content: string, f: string -> string): (r: string)
    ensures '#' !in content ==> r == content
  {
    RewriteWithoutHash(content, f);
    RewriteFrom(content, 0, f)
  }

  /** Without a `#` the regex matches nowhere and the text is copied. */
  lemma RewriteWithoutHash(s: string, f: string -> string)
    ensures '#' !in s ==> RewriteFrom(s, 0, f) == s
  {
    if '#' !in s {
      forall p | 0 <= p < |s|
        ensures RegexMatchAt(s, p).None?
      {
        assert s[p] != '#';
      }
      RewriteVerbatimRun(s, 0, |s|, f);
      assert s[0..|s|] == s;
    }
  }

  lemma AppendAssoc(a: string, b: string, c: string)
    ensures a + (b + c) == (a + b) + c
  {
  }

  /**
   * The global replace as the regex engine runs it: a position moving left to
   * right, each match handed to `f` and skipped, each other character copied.
   */
  method ReplaceAllLoop(content: string, f: string -> string) returns (out: string)
    ensures out == ReplaceAll(content, f)
  {
    out := [];
    var p := 0;
    while p < |content|
      invariant p <= |content|
      invariant out + RewriteFrom(content, p, f) == RewriteFrom(content, 0, f)
      decreases |content| - p
    {
      match RegexMatchAt(content, p)
      case Some(n) =>
        var replacement := f(content[p..p + n]);
        RewriteAtToken(content, p, n, f);
        AppendAssoc(out, replacement, RewriteFrom(content, p + n, f));
        out := out + replacement;
        p := p + n;
      case None =>
        RewriteAtChar(content, p, f);
        AppendAssoc(out, [content[p]], RewriteFrom(content, p + 1, f));
        out := out + [content[p]];
        p := p + 1;
    }
    assert out + [] == out;
  }

  /** `replaceColors(content, palette)`. */
  function ReplaceColors(content: string, colors: seq<string>, dist: Distance): (r: string)
    requires |colors| > 0
    ensures '#' !in content ==> r == content
  {
    ReplaceAll(content, tok => ReplaceMatch(tok, colors, dist))
  }

  /** A recognised token is rewritten as `TokenReplacement` describes. */
  lemma TokenPieceReplaced(s: string, at: nat, len: nat, colors: seq<string>, dist: Distance)
    requires |colors| > 0
    requires at <= |s| && RegexMatchAt(s, at) == Some(len)
    ensures at + len <= |s| && IsTokenLength(len - 1)
    ensures ReplaceMatch(s[at..at + len], colors, dist) == TokenReplacement(s[at + 1..at + len], colors, dist)
  {
    var h := s[at + 1..at + len];
    assert s[at..at + len] == "#" + h;
    TokenReassembly(h, colors, dist);
  }

  /** One recognised piece is rendered as the copied character or the token's replacement. */
  lemma PieceReplaced(content: string, colors: seq<string>, dist: Distance, pc: Piece)
    requires |colors| > 0
    requires End(pc) <= |content| && Recognised(content, pc)
    ensures pc.Verbatim? ==> Render(content, pc, tok => ReplaceMatch(tok, colors, dist)) == [content[pc.at]]
    ensures pc.Token? ==> (IsTokenLength(pc.len - 1) &&
      Render(content, pc, tok => ReplaceMatch(tok, colors, dist)) == TokenReplacement(content[pc.at + 1..End(pc)], colors, dist))
  {
    if pc.Token? {
      var tok := content[pc.at..pc.at + pc.len];
      assert Render(content, pc, tok => ReplaceMatch(tok, colors, dist)) == ReplaceMatch(tok, colors, dist);
      TokenPieceReplaced(content, pc.at, pc.len, colors, dist);
    }
  }

  /** Each piece of the search is rendered as the copied character or the token's replacement. */
  lemma PiecesReplaced(content: string, colors: seq<string>, dist: Distance)
    requires |colors| > 0
    ensures var ps := TokenizeFrom(content, 0);
      var f := tok => ReplaceMatch(tok, colors, dist);
      (forall i :: 0 <= i < |ps| && ps[i].Verbatim? ==>
        RegexMatchAt(content, ps[i].at).None? && Render(content, ps[i], f) == [content[ps[i].at]]) &&
      (forall i :: 0 <= i < |ps| && ps[i].Token? ==>
        RegexMatchAt(content, ps[i].at) == Some(ps[i].len) && IsTokenLength(ps[i].len - 1) &&
        Render(content, ps[i], f) == TokenReplacement(content[ps[i].at + 1..End(ps[i])], colors, dist))
  {
    var ps := TokenizeFrom(content, 0);
    TokenizeRecognises(content, 0);
    forall i | 0 <= i < |ps|
      ensures Recognised(content, ps[i])
      ensures ps[i].Verbatim? ==> Render(content, ps[i], tok => ReplaceMatch(tok, colors, dist)) == [content[ps[i].at]]
      ensures ps[i].Token? ==> (IsTokenLength(ps[i].len - 1) &&
        Render(content, ps[i], tok => ReplaceMatch(tok, colors, dist)) == TokenReplacement(content[ps[i].at + 1..End(ps[i])], colors, dist))
    {
      PieceReplaced(content, colors, dist, ps[i]);
    }
  }

  /**
   * `replaceColors` on any text: the text is cut into pieces left to right,
   * end to end; a character where no token starts is copied, and a token is
   * replaced as `TokenReplacement` describes; the output is the pieces'
   * results in order.
   */
  lemma ReplaceColorsPieces(content: string, colors: seq<string>, dist: Distance)
    requires |colors| > 0
    ensures var ps := TokenizeFrom(content, 0);
      var f := tok => ReplaceMatch(tok, colors, dist);
      Tiles(content, 0, ps) &&
      ReplaceColors(content, colors, dist) == RenderAll(content, ps, f) &&
      (forall i :: 0 <= i < |ps| && ps[i].Verbatim? ==>
        RegexMatchAt(content, ps[i].at).None? && Render(content, ps[i], f) == [content[ps[i].at]]) &&
      (forall i :: 0 <= i < |ps| && ps[i].Token? ==>
        RegexMatchAt(content, ps[i].at) == Some(ps[i].len) && IsTokenLength(ps[i].len - 1) &&
        Render(content, ps[i], f) == TokenReplacement(content[ps[i].at + 1..End(ps[i])], colors, dist))
  {
    TokenizeTiles(content, 0);
    RewriteRendersPieces(content, 0, tok => ReplaceMatch(tok, colors, dist));
    PiecesReplaced(content, colors, dist);
  }

  lemma SliceShift(u: string, v: string, q: nat, n: nat)
    requires q + n <= |v|
    ensures (u + v)[|u| + q..|u| + q + n] == v[q..q + n]
  {
  }

  /** How far the search advances from `p`: the match length, or one character. */
  function Step(s: string, p: nat): (n: nat)
    requires p < |s|
    ensures 1 <= n && p + n <= |s|
  {
    match RegexMatchAt(s, p)
    case Some(k) => k
    case None => 1
  }

  /** A character passed over in `v` is passed over in `u + v` too, and the rest follows. */
  lemma ShiftVerbatim(u: string, v: string, q: nat, f: string -> string)
    requires q < |v| && RegexMatchAt(v, q).None?
    requires RewriteFrom(u + v, |u| + (q + 1), f) == RewriteFrom(v, q + 1, f)
    ensures RewriteFrom(u + v, |u| + q, f) == RewriteFrom(v, q, f)
  {
    MatchShift(u, v, q);
    assert (u + v)[|u| + q] == v[q];
  }

  /** A token matched in `v` is matched in `u + v` too, and the rest follows. */
  lemma ShiftToken(u: string, v: string, q: nat, n: nat, f: string -> string)
    requires q < |v| && RegexMatchAt(v, q) == Some(n)
    requires RewriteFrom(u + v, |u| + (q + n), f) == RewriteFrom(v, q + n, f)
    ensures RewriteFrom(u + v, |u| + q, f) == RewriteFrom(v, q, f)
  {
    MatchShift(u, v, q);
    SliceShift(u, v, q, n);
  }

  /** One step of the search in `u + v` from inside `v` agrees with the same step in `v` alone. */
  lemma ShiftStep(u: string, v: string, q: nat, f: string -> string)
    requires q < |v|
    requires RewriteFrom(u + v, |u| + (q + Step(v, q)), f) == RewriteFrom(v, q + Step(v, q), f)
    ensures RewriteFrom(u + v, |u| + q, f) == RewriteFrom(v, q, f)
  {
    match RegexMatchAt(v, q)
    case None => ShiftVerbatim(u, v, q, f);
    case Some(n) => ShiftToken(u, v, q, n, f);
  }

  /** The output for the text from a position depends only on the text from there on. */
  lemma {:induction false} RewriteShift(u: string, v: string, q: nat, f: string -> string)
    requires q <= |v|
    ensures RewriteFrom(u + v, |u| + q, f) == RewriteFrom(v, q, f)
    decreases |v| - q
  {
    if q < |v| {
      RewriteShift(u, v, q + Step(v, q), f);
      ShiftStep(u, v, q, f);
    }
  }

  lemma ConsAssoc(s: string, p: nat, e: nat, rest: string)
    requires p < e <= |s|
    ensures [s[p]] + (s[p + 1..e] + rest) == s[p..e] + rest
  {
    assert s[p..e] == [s[p]] + s[p + 1..e];
  }

  lemma {:induction false} RewriteVerbatimRun(s: string, p: nat, e: nat, f: string -> string)
    requires p <= e <= |s|
    requires forall i :: p <= i < e ==> RegexMatchAt(s, i).None?
    ensures RewriteFrom(s, p, f) == s[p..e] + RewriteFrom(s, e, f)
    decreases e - p
  {
    if p < e {
      assert RegexMatchAt(s, p).None?;
      RewriteVerbatimRun(s, p + 1, e, f);
      ConsAssoc(s, p, e, RewriteFrom(s, e, f));
    }
  }

  /** Text in which no token is recognised comes out unchanged. */
  lemma ReplaceWithoutTokens(content: string, f: string -> string)
    requires forall p :: 0 <= p < |content| ==> RegexMatchAt(content, p).None?
    ensures ReplaceAll(content, f) == content
  {
    RewriteVerbatimRun(content, 0, |content|, f);
    assert content[0..|content|] == content;
  }

  /** A stretch of text without `#` is copied to the output verbatim, ahead of the rest. */
  lemma ReplaceVerbatimPrefix(u: string, v: string, f: string -> string)
    requires '#' !in u
    ensures ReplaceAll(u + v, f) == u + ReplaceAll(v, f)
  {
    forall i | 0 <= i < |u|
      ensures RegexMatchAt(u + v, i).None?
    {
      assert (u + v)[i] == u[i];
    }
    RewriteVerbatimRun(u + v, 0, |u|, f);
    assert (u + v)[0..|u|] == u;
    RewriteShift(u, v, 0, f);
  }

  /**
   * A token at the front is handed to the callback on its own, and the search
   * goes on after it exactly as on the remaining text alone: tokens never overlap.
   */
  lemma ReplaceTokenPrefix(t: string, v: string, f: string -> string)
    requires RegexMatchAt(t + v, 0) == Some(|t|)
    ensures ReplaceAll(t + v, f) == f(t) + ReplaceAll(v, f)
  {
    assert (t + v)[0..|t|] == t;
    RewriteShift(t, v, 0, f);
  }
}
