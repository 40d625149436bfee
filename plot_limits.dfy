/** `findMinMax`: the axis domains of the scatter plot, computed once from the
    fertility rates (x) and life expectancies (y) of the whole dataset. The
    minima are padded so that no point sits on an axis; the maxima are kept. */
module PlotLimits {
  import opened Wrappers

  /** Padding subtracted from the smallest fertility rate. */
  const XPad: real := 0.5
  /** Padding subtracted from the smallest life expectancy. */
  const YPad: real := 5.0

  datatype Limits = Limits(xMin: real, xMax: real, yMin: real, yMax: real)

  /** `d3.min` of a non-empty sequence: an element no larger than any other. */
  function SeqMin(s: seq<real>): (m: real)
    requires |s| > 0
    ensures m in s
    ensures forall v :: v in s ==> m <= v
  {
    if |s| == 1 then s[0]
    else
      var rest := SeqMin(s[1..]);
      assert s == [s[0]] + s[1..];
      if s[0] <= rest then s[0] else rest
  }

  /** `d3.max` of a non-empty sequence: an element no smaller than any other. */
  function SeqMax(s: seq<real>): (m: real)
    requires |s| > 0
    ensures m in s
    ensures forall v :: v in s ==> v <= m
  {
    if |s| == 1 then s[0]
    else
      var rest := SeqMax(s[1..]);
      assert s == [s[0]] + s[1..];
      if s[0] >= rest then s[0] else rest
  }

  /** The plot limits of x and y. There are none when either sequence is empty
      (`d3.min` and `d3.max` give undefined there). Otherwise xMax and yMax are
      the largest values, and xMin and yMin lie exactly XPad and YPad below the
      smallest ones. */
  function FindMinMax(x: seq<real>, y: seq<real>): (r: Option<Limits>)
    ensures r.Some? <==> |x| > 0 && |y| > 0
    ensures r.Some? ==>
      && r.value.xMin + XPad in x && r.value.xMax in x
      && r.value.yMin + YPad in y && r.value.yMax in y
      && (forall v :: v in x ==> r.value.xMin + XPad <= v <= r.value.xMax)
      && (forall v :: v in y ==> r.value.yMin + YPad <= v <= r.value.yMax)
  {
    if |x| == 0 || |y| == 0 then None
    else Some(Limits(SeqMin(x) - XPad, SeqMax(x), SeqMin(y) - YPad, SeqMax(y)))
  }

  /** The padding always leaves room: each domain is at least its padding wide. */
  lemma LimitsLeaveRoom(x: seq<real>, y: seq<real>)
    requires |x| > 0 && |y| > 0
    ensures FindMinMax(x, y).Some?
    ensures FindMinMax(x, y).value.xMax >= FindMinMax(x, y).value.xMin + XPad
    ensures FindMinMax(x, y).value.yMax >= FindMinMax(x, y).value.yMin + YPad
  {
    assert x[0] in x && y[0] in y;
  }

  /** The limits depend only on the values, not on their order or repetition. */
  lemma LimitsDependOnValuesOnly(x: seq<real>, y: seq<real>, x': seq<real>, y': seq<real>)
    requires forall i :: 0 <= i < |x| ==> x[i] in x'
    requires forall i :: 0 <= i < |x'| ==> x'[i] in x
    requires forall i :: 0 <= i < |y| ==> y[i] in y'
    requires forall i :: 0 <= i < |y'| ==> y'[i] in y
    ensures FindMinMax(x, y) == FindMinMax(x', y')
  {
    if |x| > 0 { assert x[0] in x'; }
    if |x'| > 0 { assert x'[0] in x; }
    if |y| > 0 { assert y[0] in y'; }
    if |y'| > 0 { assert y'[0] in y; }
    if |x| > 0 && |y| > 0 {
      var l, l' := FindMinMax(x, y).value, FindMinMax(x', y').value;
      assert l.xMin == l'.xMin by {
        assert l.xMin + XPad in x && l'.xMin + XPad in x';
      }
      assert l.xMax == l'.xMax by {
        assert l.xMax in x && l'.xMax in x';
      }
      assert l.yMin == l'.yMin by {
        assert l.yMin + YPad in y && l'.yMin + YPad in y';
      }
      assert l.yMax == l'.yMax by {
        assert l.yMax in y && l'.yMax in y';
      }
    }
  }

  /** Three rows with fertility 6.0, 3.0, 5.0 and life expectancy 40,
      60, 50 give the x-domain [2.5, 6.0] and the y-domain [35, 60]. */
  lemma ThreeRowExample()
    ensures FindMinMax([6.0, 3.0, 5.0], [40.0, 60.0, 50.0]) == Some(Limits(2.5, 6.0, 35.0, 60.0))
  {
  }
}
