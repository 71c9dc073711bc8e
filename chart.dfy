/**
 * The colour-selection rule of the pie chart: every category rated at the
 * maximum is green, otherwise every category rated at the minimum is red,
 * and every other category keeps its base colour.
 */
module Chart {
  import opened Wheel

  /** Largest rating in a non-empty list. */
  function MaxOf(s: seq<int>): (m: int)
    requires |s| > 0
    ensures m in s
    ensures forall k :: 0 <= k < |s| ==> s[k] <= m
  {
    if |s| == 1 then s[0]
    else
      var rest := MaxOf(s[1..]);
      assert forall k :: 1 <= k < |s| ==> s[k] == s[1..][k - 1];
      if s[0] >= rest then s[0] else rest
  }

  /** Smallest rating in a non-empty list. */
  function MinOf(s: seq<int>): (m: int)
    requires |s| > 0
    ensures m in s
    ensures forall k :: 0 <= k < |s| ==> m <= s[k]
  {
    if |s| == 1 then s[0]
    else
      var rest := MinOf(s[1..]);
      assert forall k :: 1 <= k < |s| ==> s[k] == s[1..][k - 1];
      if s[0] <= rest then s[0] else rest
  }

  /** The colour of one category: the maximum test is made before the minimum test. */
  function ColorFor(c: Category, rating: int, hi: int, lo: int): (col: Color)
    ensures col == Green <==> rating == hi
    ensures col == Red <==> rating != hi && rating == lo
    ensures col == BaseColor(c) <==> rating != hi && rating != lo
  {
    if rating == hi then Green
    else if rating == lo then Red
    else BaseColor(c)
  }

  /** The colour list handed to the chart, one entry per category in declared order. */
  function Colors(ratings: seq<int>): (colors: seq<Color>)
    requires |ratings| == |Categories|
    ensures |colors| == |Categories|
    ensures forall i :: 0 <= i < |Categories| ==>
      colors[i] == Green || colors[i] == Red || colors[i] == BaseColor(Categories[i])
  {
    seq(|Categories|, i requires 0 <= i < |Categories| =>
      ColorFor(Categories[i], ratings[i], MaxOf(ratings), MinOf(ratings)))
  }

  /** Builds the colour list by appending one colour per category, as the chart code does. */
  method ChooseColors(ratings: seq<int>) returns (colors: seq<Color>)
    requires |ratings| == |Categories|
    ensures colors == Colors(ratings)
  {
    var hi := MaxOf(ratings);
    var lo := MinOf(ratings);
    colors := [];
    var i := 0;
    while i < |Categories|
      invariant 0 <= i <= |Categories|
      invariant colors == Colors(ratings)[..i]
    {
      assert Colors(ratings)[..i + 1] == Colors(ratings)[..i] + [Colors(ratings)[i]];
      if ratings[i] == hi {
        colors := colors + [Green];
      } else if ratings[i] == lo {
        colors := colors + [Red];
      } else {
        colors := colors + [BaseColor(Categories[i])];
      }
      i := i + 1;
    }
  }

  /** A category is green exactly when its rating is the maximum: every tied category, not only the first. */
  lemma GreenIffMax(ratings: seq<int>, i: int)
    requires |ratings| == |Categories| && 0 <= i < |Categories|
    ensures Colors(ratings)[i] == Green <==> ratings[i] == MaxOf(ratings)
  {
  }

  /** A category is red exactly when its rating is the minimum and not also the maximum. */
  lemma RedIffMinBelowMax(ratings: seq<int>, i: int)
    requires |ratings| == |Categories| && 0 <= i < |Categories|
    ensures Colors(ratings)[i] == Red <==> ratings[i] == MinOf(ratings) && ratings[i] != MaxOf(ratings)
  {
  }

  /** A category keeps its base colour exactly when its rating lies strictly between minimum and maximum. */
  lemma BaseIffStrictlyBetween(ratings: seq<int>, i: int)
    requires |ratings| == |Categories| && 0 <= i < |Categories|
    ensures Colors(ratings)[i] == BaseColor(Categories[i])
            <==> MinOf(ratings) < ratings[i] < MaxOf(ratings)
  {
  }

  /** The maximum is always attained, so the chart always has a green slice. */
  lemma SomeGreen(ratings: seq<int>)
    requires |ratings| == |Categories|
    ensures exists i :: 0 <= i < |Categories| && Colors(ratings)[i] == Green
  {
    var i :| 0 <= i < |ratings| && ratings[i] == MaxOf(ratings);
    assert Colors(ratings)[i] == Green;
  }

  /** A red slice exists exactly when the ratings are not all equal. */
  lemma SomeRedIffSpread(ratings: seq<int>)
    requires |ratings| == |Categories|
    ensures (exists i :: 0 <= i < |Categories| && Colors(ratings)[i] == Red)
            <==> MinOf(ratings) < MaxOf(ratings)
  {
    if MinOf(ratings) < MaxOf(ratings) {
      var i :| 0 <= i < |ratings| && ratings[i] == MinOf(ratings);
      assert Colors(ratings)[i] == Red;
    }
  }

  /** When all ratings are equal, every slice is green and none is red. */
  lemma UniformAllGreen(ratings: seq<int>)
    requires |ratings| == |Categories|
    requires forall i :: 0 <= i < |ratings| ==> ratings[i] == ratings[0]
    ensures forall i :: 0 <= i < |Categories| ==> Colors(ratings)[i] == Green
  {
  }

  /**
   * The ratings 10, 2, 2, 5, 5, 5: the first category is green, BOTH
   * categories tied at 2 are red, and the last three keep their base colours.
   */
  lemma TiedMinimumExample(r: seq<int>)
    requires r == [10, 2, 2, 5, 5, 5]
    ensures Colors(r) == [Green, Red, Red, Teal, Grey, Orange]
  {
    assert MaxOf(r) == 10 by { assert r[0] <= MaxOf(r); }
    assert MinOf(r) == 2 by { assert MinOf(r) <= r[1]; }
  }
}
