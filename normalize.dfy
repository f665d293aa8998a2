/** `normalizeHex` (src/main.ts:7-18): a hex colour string brought to `#rrggbb` form. */
module Normalize {
  import opened Chars

  /** Each of the first three characters written twice: `f0a` becomes `ff00aa`. */
  function Doubled(h: string): (r: string)
    requires |h| >= 3
    ensures |r| == 6
    ensures forall i :: 0 <= i < 6 ==> r[i] == h[i / 2]
  {
    [h[0], h[0], h[1], h[1], h[2], h[2]]
  }

  /**
   * Strip the first `#`, expand a 3- or 4-character remainder by doubling its
   * first three characters, keep at most six characters and lower-case them.
   */
  function NormalizeHex(hex: string): (r: string)
    ensures 1 <= |r| <= 7 && r[0] == '#'
    ensures forall i :: 1 <= i < |r| ==> !IsUpper(r[i])
  {
    var h := RemoveFirst(hex, '#');
    var h3 := if |h| == 3 then Doubled(h) else h;
    var h4 := if |h3| == 4 then Doubled(h3) else h3;
    "#" + Lower(Take(h4, 6))
  }

  /** Without an inner `#`, the leading one is the only one removed. */
  lemma StripHash(h: string)
    requires '#' !in h
    ensures RemoveFirst(h, '#') == h && RemoveFirst("#" + h, '#') == h
  {
    assert ("#" + h)[1..] == h;
  }

  lemma LowerDoubled(h: string)
    requires |h| >= 3
    ensures Lower(Doubled(h)) == Doubled(Lower(h))
  {
    var a, b := Lower(Doubled(h)), Doubled(Lower(h));
    forall i | 0 <= i < 6 ensures a[i] == b[i] {
      assert a[i] == LowerChar(h[i / 2]);
    }
  }

  /** A 3- or 4-digit input, with or without its leading `#`: `#` and the first three digits doubled, lower-cased. */
  lemma NormalizeShort(h: string)
    requires |h| == 3 || |h| == 4
    requires '#' !in h
    ensures NormalizeHex(h) == NormalizeHex("#" + h) == "#" + Doubled(Lower(h))
    ensures |NormalizeHex(h)| == 7
  {
    StripHash(h);
    var d := Doubled(h);
    assert Take(d, 6) == d;
    LowerDoubled(h);
  }

  /** An input of six or more digits, with or without its leading `#`: `#` and the first six digits, lower-cased. */
  lemma NormalizeLong(h: string)
    requires |h| >= 6
    requires '#' !in h
    ensures NormalizeHex(h) == NormalizeHex("#" + h) == "#" + Lower(h[..6])
  {
    StripHash(h);
  }
}
