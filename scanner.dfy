/**
 * The search that `content.replace(HEX_COLOR_REGEX, …)` performs
 * (src/main.ts:5, 39): where the hex colour tokens are and what lies between them.
 */
module Scanner {
  import opened Chars

  /** The digit counts a token may have: `#RGB`, `#RGBA`, `#RRGGBB`, `#RRGGBBAA`. */
  predicate IsTokenLength(k: nat) {
    k == 3 || k == 4 || k == 6 || k == 8
  }

  /** The `n` characters from position `q` on exist and are all hex digits. */
  predicate HexDigitsAt(s: string, q: nat, n: nat) {
    q + n <= |s| && forall i :: q <= i < q + n ==> IsHexDigit(s[i])
  }

  predicate IsWordAt(s: string, q: int) {
    0 <= q < |s| && IsWordChar(s[q])
  }

  /** `\b` at position `q`: a word character on exactly one side of it. */
  predicate WordBoundary(s: string, q: int) {
    IsWordAt(s, q - 1) != IsWordAt(s, q)
  }

  /**
   * HEX_COLOR_REGEX tried at position `p`, as the regex engine backtracks
   * through it: first `#` with six digits and the optional two more (greedy,
   * so eight first), each followed by `\b`; then `#` with three digits and the
   * optional fourth.  The result is the length of the match, `#` included.
   */
  function RegexMatchAt(s: string, p: nat): (m: Option<nat>)
    requires p <= |s|
    ensures m.Some? ==> m.value >= 4 && p < |s| && s[p] == '#' && IsTokenLength(m.value - 1) && HexDigitsAt(s, p + 1, m.value - 1)
  {
    if p < |s| && s[p] == '#' then
      if HexDigitsAt(s, p + 1, 8) && WordBoundary(s, p + 9) then Some(9)
      else if HexDigitsAt(s, p + 1, 6) && WordBoundary(s, p + 7) then Some(7)
      else if HexDigitsAt(s, p + 1, 4) && WordBoundary(s, p + 5) then Some(5)
      else if HexDigitsAt(s, p + 1, 3) && WordBoundary(s, p + 4) then Some(4)
      else None
    else None
  }

  /** The length of the maximal run of hex digits starting at position `q`. */
  function HexRun(s: string, q: nat): (k: nat)
    requires q <= |s|
    ensures q + k <= |s|
    ensures forall i :: q <= i < q + k ==> IsHexDigit(s[i])
    ensures q + k < |s| ==> !IsHexDigit(s[q + k])
    decreases |s| - q
  {
    if q < |s| && IsHexDigit(s[q]) then 1 + HexRun(s, q + 1) else 0
  }

  /**
   * The recognition rule: a `#` starts a token exactly when the maximal run of
   * hex digits after it has 3, 4, 6 or 8 digits and is followed by the end of
   * the text or by a character that is not a word character.
   */
  function TokenAt(s: string, p: nat): (m: Option<nat>)
    requires p <= |s|
    ensures m.Some? ==> m.value >= 4 && p < |s| && s[p] == '#' && IsTokenLength(m.value - 1) && HexDigitsAt(s, p + 1, m.value - 1)
    ensures m.Some? ==> p + m.value <= |s| && (p + m.value == |s| || !IsWordChar(s[p + m.value]))
  {
    if p < |s| && s[p] == '#' then
      var k := HexRun(s, p + 1);
      if IsTokenLength(k) && (p + 1 + k == |s| || !IsWordChar(s[p + 1 + k])) then Some(1 + k) else None
    else None
  }

  lemma HexDigitsAtRun(s: string, q: nat, n: nat)
    requires q <= |s|
    ensures HexDigitsAt(s, q, n) <==> n <= HexRun(s, q)
  {
    var k := HexRun(s, q);
    if k < n && q + n <= |s| {
      assert !IsHexDigit(s[q + k]);
    }
  }

  lemma BoundaryAfterDigits(s: string, q: nat, n: nat)
    requires q <= |s| && 1 <= n <= HexRun(s, q)
    ensures WordBoundary(s, q + n) <==> n == HexRun(s, q) && (q + n == |s| || !IsWordChar(s[q + n]))
  {
    assert IsHexDigit(s[q + n - 1]);
    if n < HexRun(s, q) {
      assert IsHexDigit(s[q + n]);
    }
  }

  /** The regex and the recognition rule agree at every position. */
  lemma RecognitionRule(s: string, p: nat)
    requires p <= |s|
    ensures RegexMatchAt(s, p) == TokenAt(s, p)
  {
    if p < |s| && s[p] == '#' {
      var q := p + 1;
      var k := HexRun(s, q);
      HexDigitsAtRun(s, q, 8);
      HexDigitsAtRun(s, q, 6);
      HexDigitsAtRun(s, q, 4);
      HexDigitsAtRun(s, q, 3);
      if 8 <= k { BoundaryAfterDigits(s, q, 8); }
      if 6 <= k { BoundaryAfterDigits(s, q, 6); }
      if 4 <= k { BoundaryAfterDigits(s, q, 4); }
      if 3 <= k { BoundaryAfterDigits(s, q, 3); }
    }
  }

  /** The run of hex digits seen from inside `u + v` is the one seen in `v` alone. */
  lemma {:induction false} HexRunShift(u: string, v: string, q: nat)
    requires q <= |v|
    ensures HexRun(u + v, |u| + q) == HexRun(v, q)
    decreases |v| - q
  {
    if q < |v| {
      assert (u + v)[|u| + q] == v[q];
      HexRunShift(u, v, q + 1);
    }
  }

  lemma TokenAtShift(u: string, v: string, q: nat)
    requires q <= |v|
    ensures TokenAt(u + v, |u| + q) == TokenAt(v, q)
  {
    if q < |v| {
      assert (u + v)[|u| + q] == v[q];
      HexRunShift(u, v, q + 1);
      var k := HexRun(v, q + 1);
      if q + 1 + k < |v| {
        assert (u + v)[|u| + q + 1 + k] == v[q + 1 + k];
      }
    }
  }

  /** Whether a token starts at a position depends only on the text from there on. */
  lemma MatchShift(u: string, v: string, q: nat)
    requires q <= |v|
    ensures RegexMatchAt(u + v, |u| + q) == RegexMatchAt(v, q)
  {
    RecognitionRule(u + v, |u| + q);
    RecognitionRule(v, q);
    TokenAtShift(u, v, q);
  }

  /** A piece of the text: one character passed over, or a recognised token. */
  datatype Piece = Verbatim(at: nat) | Token(at: nat, len: nat)

  function End(pc: Piece): nat {
    match pc
    case Verbatim(at) => at + 1
    case Token(at, len) => at + len
  }

  /**
   * The global search from position `p`: a token where the regex matches, and
   * otherwise one character passed over; after a token the search resumes at
   * its end.
   */
  function TokenizeFrom(s: string, p: nat): (ps: seq<Piece>)
    requires p <= |s|
    ensures forall i :: 0 <= i < |ps| ==> p <= ps[i].at < End(ps[i]) <= |s|
    decreases |s| - p
  {
    if p == |s| then []
    else
      match RegexMatchAt(s, p)
      case Some(n) => [Token(p, n)] + TokenizeFrom(s, p + n)
      case None => [Verbatim(p)] + TokenizeFrom(s, p + 1)
  }

  /** The pieces cover `s[p..]` left to right, end to end, without overlap. */
  ghost predicate Tiles(s: string, p: nat, ps: seq<Piece>) {
    (|ps| == 0 ==> p == |s|) &&
    (|ps| > 0 ==> ps[0].at == p && End(ps[|ps| - 1]) == |s|) &&
    (forall i :: 0 <= i < |ps| - 1 ==> End(ps[i]) == ps[i + 1].at)
  }

  /** A token piece is a match of the regex; a character is passed over only where no match starts. */
  ghost predicate Recognised(s: string, pc: Piece) {
    pc.at <= |s| &&
    match pc
    case Token(at, len) => RegexMatchAt(s, at) == Some(len)
    case Verbatim(at) => RegexMatchAt(s, at) == None
  }

  /** A piece starting at `p` in front of a tiling of what follows it tiles from `p`. */
  lemma TilesCons(s: string, p: nat, first: Piece, rest: seq<Piece>)
    requires first.at == p && End(first) <= |s|
    requires Tiles(s, End(first), rest)
    ensures Tiles(s, p, [first] + rest)
  {
    var ps := [first] + rest;
    forall i | 0 <= i < |ps| - 1
      ensures End(ps[i]) == ps[i + 1].at
    {
      assert ps[i + 1] == rest[i];
      if i > 0 {
        assert ps[i] == rest[i - 1];
      }
    }
    if |rest| > 0 {
      assert ps[|ps| - 1] == rest[|rest| - 1];
    }
  }

  lemma {:induction false} TokenizeTiles(s: string, p: nat)
    requires p <= |s|
    ensures Tiles(s, p, TokenizeFrom(s, p))
    decreases |s| - p
  {
    if p < |s| {
      match RegexMatchAt(s, p)
      case None =>
        TokenizeTiles(s, p + 1);
        TilesCons(s, p, Verbatim(p), TokenizeFrom(s, p + 1));
      case Some(n) =>
        TokenizeTiles(s, p + n);
        TilesCons(s, p, Token(p, n), TokenizeFrom(s, p + n));
    }
  }

  /** Every token piece is a regex match, and no match starts at a character passed over. */
  lemma {:induction false} TokenizeRecognises(s: string, p: nat)
    requires p <= |s|
    ensures forall i :: 0 <= i < |TokenizeFrom(s, p)| ==> Recognised(s, TokenizeFrom(s, p)[i])
    decreases |s| - p
  {
    if p < |s| {
      var m := RegexMatchAt(s, p);
      var first := if m.Some? then Token(p, m.value) else Verbatim(p);
      var next := End(first);
      TokenizeRecognises(s, next);
      var rest := TokenizeFrom(s, next);
      var ps := TokenizeFrom(s, p);
      assert ps == [first] + rest;
      forall i | 0 <= i < |ps|
        ensures Recognised(s, ps[i])
      {
        if i > 0 {
          assert ps[i] == rest[i - 1];
        }
      }
    }
  }
}
