/**
 * `findNearestColor` (src/main.ts:20-36): the first palette entry at the least
 * distance from the normalized target.  The distance itself (colorsea's
 * CIEDE2000) is a parameter; only its ordering matters here.
 */
module Matcher {
  import opened Chars
  import opened Normalize

  /** A JavaScript number, as the distance computation may return it. */
  datatype Number = Finite(value: real) | PositiveInfinity | NegativeInfinity | NaN

  /**
   * JavaScript's `<` on numbers: false whenever either side is NaN, the order
   * of the reals on finite values, `-Infinity` below and `Infinity` above them.
   */
  predicate Less(a: Number, b: Number)
    ensures a.NaN? || b.NaN? ==> !Less(a, b)
    ensures a.Finite? && b.Finite? ==> (Less(a, b) <==> a.value < b.value)
  {
    if a.NaN? || b.NaN? then false
    else if a.NegativeInfinity? then !b.NegativeInfinity?
    else if a.PositiveInfinity? then false
    else if b.Finite? then a.value < b.value
    else b.PositiveInfinity?
  }

  /**
   * Without NaN, `<` is a strict total order (irreflexive, asymmetric and
   * total) with `-Infinity` at the bottom and `Infinity` at the top.
   */
  lemma LessStrictOrder(a: Number, b: Number)
    requires !a.NaN? && !b.NaN?
    ensures !Less(a, NegativeInfinity) && !Less(PositiveInfinity, a)
    ensures a.Finite? ==> Less(a, PositiveInfinity) && Less(NegativeInfinity, a)
    ensures !Less(a, a)
    ensures Less(a, b) ==> !Less(b, a)
    ensures a == b || Less(a, b) || Less(b, a)
  {
  }

  lemma LessTransitive(a: Number, b: Number, c: Number)
    requires Less(a, b) && Less(b, c)
    ensures Less(a, c)
  {
  }

  /** `a < b` and `!(c < b)` with `c` not NaN give `a < c`. */
  lemma LessThenNotLess(a: Number, b: Number, c: Number)
    requires Less(a, b) && !Less(c, b) && !c.NaN?
    ensures Less(a, c)
  {
  }

  /** The distance `target.deltaE(entry, 'cie2000')`, from the normalized target to a palette entry as written. */
  type Distance = (string, string) -> Number

  /** The distances from `target` to each palette entry, in palette order. */
  function Distances(target: string, colors: seq<string>, dist: Distance): (ds: seq<Number>)
    ensures |ds| == |colors|
    ensures forall j :: 0 <= j < |colors| ==> ds[j] == dist(target, colors[j])
  {
    seq(|colors|, j requires 0 <= j < |colors| => dist(target, colors[j]))
  }

  /** The loop state: the index of the current best entry and `minDistance`. */
  datatype Best = Best(index: nat, distance: Number)

  /**
   * The loop state after visiting the entries `ds` in order, starting from
   * entry 0 and `Infinity`, replacing the best only on a strictly smaller distance.
   */
  function Scan(ds: seq<Number>): (b: Best)
    ensures ds != [] ==> b.index < |ds|
    ensures b.distance == PositiveInfinity || (b.index < |ds| && b.distance == ds[b.index])
  {
    if ds == [] then Best(0, PositiveInfinity)
    else
      var b := Scan(ds[..|ds| - 1]);
      if Less(ds[|ds| - 1], b.distance) then Best(|ds| - 1, ds[|ds| - 1]) else b
  }

  /**
   * Index `i` holds the first minimum of `ds`: its distance is below Infinity,
   * no distance is below it, and it is below every earlier comparable distance.
   */
  ghost predicate IsFirstMinimum(ds: seq<Number>, i: nat) {
    i < |ds| &&
    Less(ds[i], PositiveInfinity) &&
    (forall j :: 0 <= j < |ds| ==> !Less(ds[j], ds[i])) &&
    (forall j :: 0 <= j < i ==> ds[j].NaN? || Less(ds[i], ds[j]))
  }

  /** No distance at all is below Infinity (every one is Infinity or NaN). */
  ghost predicate NothingBelowInfinity(ds: seq<Number>) {
    forall j :: 0 <= j < |ds| ==> !Less(ds[j], PositiveInfinity)
  }

  /** What the search loop keeps true: either nothing yet beat Infinity, or the best is the first minimum. */
  ghost predicate ScanInvariant(ds: seq<Number>, b: Best) {
    (b == Best(0, PositiveInfinity) && NothingBelowInfinity(ds)) ||
    (IsFirstMinimum(ds, b.index) && b.distance == ds[b.index])
  }

  lemma {:induction false} ScanKeepsInvariant(ds: seq<Number>)
    ensures ScanInvariant(ds, Scan(ds))
  {
    if ds != [] {
      var n := |ds| - 1;
      var pre := ds[..n];
      var x := ds[n];
      var b := Scan(pre);
      ScanKeepsInvariant(pre);
      assert forall j :: 0 <= j < n ==> ds[j] == pre[j];
      if Less(x, b.distance) {
        forall j | 0 <= j < |ds|
          ensures !Less(ds[j], x)
        {
          if j < n && Less(ds[j], x) {
            LessTransitive(ds[j], x, b.distance);
          }
        }
        forall j | 0 <= j < n
          ensures ds[j].NaN? || Less(x, ds[j])
        {
          if !ds[j].NaN? {
            LessThenNotLess(x, b.distance, ds[j]);
          }
        }
        assert IsFirstMinimum(ds, n);
      } else {
        if b == Best(0, PositiveInfinity) && NothingBelowInfinity(pre) {
          assert NothingBelowInfinity(ds);
        } else {
          assert IsFirstMinimum(ds, b.index);
        }
      }
    }
  }

  /** The first minimum, when there is one, is unique. */
  lemma FirstMinimumUnique(ds: seq<Number>, i: nat, k: nat)
    requires IsFirstMinimum(ds, i) && IsFirstMinimum(ds, k)
    ensures i == k
  {
  }

  /** The index `findNearestColor` settles on, for an already normalized target. */
  function NearestIndex(target: string, colors: seq<string>, dist: Distance): (i: nat)
    requires |colors| > 0
    ensures i < |colors|
  {
    ScanKeepsInvariant(Distances(target, colors, dist));
    Scan(Distances(target, colors, dist)).index
  }

  /** The value `findNearestColor(targetHex, palette)` returns. */
  function NearestColor(targetHex: string, colors: seq<string>, dist: Distance): (r: string)
    requires |colors| > 0
    ensures r in colors
  {
    colors[NearestIndex(NormalizeHex(targetHex), colors, dist)]
  }

  /**
   * First-minimum selection: when some entry is at a distance below Infinity,
   * the chosen entry is at the least distance and strictly closer than every
   * comparable entry before it.
   */
  lemma NearestIsFirstMinimum(target: string, colors: seq<string>, dist: Distance)
    requires |colors| > 0
    requires exists j :: 0 <= j < |colors| && Less(dist(target, colors[j]), PositiveInfinity)
    ensures IsFirstMinimum(Distances(target, colors, dist), NearestIndex(target, colors, dist))
  {
    var ds := Distances(target, colors, dist);
    ScanKeepsInvariant(ds);
    var j :| 0 <= j < |colors| && Less(dist(target, colors[j]), PositiveInfinity);
    assert Less(ds[j], PositiveInfinity);
  }

  /** When no entry is at a distance below Infinity, the first entry is returned. */
  lemma NearestFallsBackToFirst(target: string, colors: seq<string>, dist: Distance)
    requires |colors| > 0
    requires forall j :: 0 <= j < |colors| ==> !Less(dist(target, colors[j]), PositiveInfinity)
    ensures NearestIndex(target, colors, dist) == 0
  {
    var ds := Distances(target, colors, dist);
    ScanKeepsInvariant(ds);
  }

  /**
   * With ordinary finite distances, the chosen index `i` has
   * `dist(i) <= dist(j)` for every `j` and `dist(i) < dist(j)` for every `j < i`.
   */
  lemma NearestOnFiniteDistances(target: string, colors: seq<string>, dist: Distance)
    requires |colors| > 0
    requires forall j :: 0 <= j < |colors| ==> dist(target, colors[j]).Finite?
    ensures var i := NearestIndex(target, colors, dist);
      (forall j :: 0 <= j < |colors| ==> dist(target, colors[i]).value <= dist(target, colors[j]).value) &&
      (forall j :: 0 <= j < i ==> dist(target, colors[i]).value < dist(target, colors[j]).value)
  {
    var ds := Distances(target, colors, dist);
    assert Less(ds[0], PositiveInfinity);
    NearestIsFirstMinimum(target, colors, dist);
    var i := NearestIndex(target, colors, dist);
    forall j | 0 <= j < |colors|
      ensures dist(target, colors[i]).value <= dist(target, colors[j]).value
    {
      assert !Less(ds[j], ds[i]);
    }
  }

  /**
   * The loop of `findNearestColor`: `nearestColor` starts at the first entry
   * and `minDistance` at Infinity, and an entry replaces them only when its
   * distance is strictly smaller.
   */
  method FindNearestColor(targetHex: string, colors: seq<string>, dist: Distance) returns (nearest: string)
    requires |colors| > 0
    ensures nearest == NearestColor(targetHex, colors, dist)
    ensures nearest in colors
  {
    var target := NormalizeHex(targetHex);
    ghost var ds := Distances(target, colors, dist);
    nearest := colors[0];
    var minDistance := PositiveInfinity;
    ghost var best := 0;
    for j := 0 to |colors|
      invariant Scan(ds[..j]) == Best(best, minDistance)
      invariant best < |colors| && nearest == colors[best]
    {
      var distance := dist(target, colors[j]);
      assert ds[..j + 1][..j] == ds[..j];
      if Less(distance, minDistance) {
        minDistance := distance;
        nearest := colors[j];
        best := j;
      }
    }
    assert ds[..|colors|] == ds;
  }
}
