/** Track segmentation in `process_equipment`: the time-sorted noise points
    of a day are cut into segments wherever two consecutive points are more
    than ten minutes apart. Times are whole seconds. */
module Tracks {
  import opened Wrappers
  import opened Seqs

  datatype NoisePoint<L> = NoisePoint(coord: L, ts: int)

  /** Largest gap, in seconds, inside one track. */
  const MaxGap: int := 600

  predicate GapsWithin<L>(seg: seq<NoisePoint<L>>) {
    forall i :: 0 < i < |seg| ==> seg[i].ts - seg[i - 1].ts <= MaxGap
  }

  function LastTs<L>(seg: seq<NoisePoint<L>>): int
    requires |seg| > 0
  {
    seg[|seg| - 1].ts
  }

  /** Two consecutive segments are more than ten minutes apart. */
  predicate Separated<L>(a: seq<NoisePoint<L>>, b: seq<NoisePoint<L>>) {
    |a| > 0 && |b| > 0 && b[0].ts - LastTs(a) > MaxGap
  }

  /** Segments that are non-empty, each without a long gap, and separated
      from the next one by a long gap; built up from the last segment. */
  predicate Segmentation<L>(segs: seq<seq<NoisePoint<L>>>) {
    |segs| == 0 || (
      var last := segs[|segs| - 1];
      && Segmentation(segs[..|segs| - 1])
      && |last| > 0 && GapsWithin(last)
      && (|segs| > 1 ==> Separated(segs[|segs| - 2], last)))
  }

  /** The same, segment by segment. */
  lemma {:induction false} SegmentationAt<L>(segs: seq<seq<NoisePoint<L>>>)
    requires Segmentation(segs)
    ensures forall k :: 0 <= k < |segs| ==> |segs[k]| > 0 && GapsWithin(segs[k])
    ensures forall k :: 0 < k < |segs| ==> Separated(segs[k - 1], segs[k])
  {
    if |segs| > 0 {
      var init := segs[..|segs| - 1];
      SegmentationAt(init);
      assert forall k :: 0 <= k < |init| ==> segs[k] == init[k];
    }
  }

  /** Reference segmentation, one point at a time: a point more than ten
      minutes after the previous one opens a new segment, any other point
      joins the last segment. */
  function Segments<L>(pts: seq<NoisePoint<L>>): (r: seq<seq<NoisePoint<L>>>)
    ensures |pts| > 0 ==> |r| > 0 && |r[|r| - 1]| > 0 && r[|r| - 1][|r[|r| - 1]| - 1] == pts[|pts| - 1]
  {
    if |pts| == 0 then []
    else
      var init := Segments(pts[..|pts| - 1]);
      var p := pts[|pts| - 1];
      if |pts| == 1 || p.ts - pts[|pts| - 2].ts > MaxGap then init + [[p]]
      else init[..|init| - 1] + [init[|init| - 1] + [p]]
  }

  /** `Segments` on one more point of the same sequence. */
  lemma SegmentsSnoc<L>(pts: seq<NoisePoint<L>>, i: nat)
    requires i < |pts|
    ensures var init, p := Segments(pts[..i]), pts[i];
      Segments(pts[..i + 1])
        == if i == 0 || p.ts - pts[i - 1].ts > MaxGap then init + [[p]]
           else init[..|init| - 1] + [init[|init| - 1] + [p]]
  {
    var q := pts[..i + 1];
    assert q[..i] == pts[..i] && q[i] == pts[i];
    assert i > 0 ==> q[i - 1] == pts[i - 1];
  }

  lemma {:induction false} SegmentsShape<L>(pts: seq<NoisePoint<L>>)
    ensures Segmentation(Segments(pts))
  {
    if |pts| > 0 {
      var init := pts[..|pts| - 1];
      var si := Segments(init);
      var p := pts[|pts| - 1];
      SegmentsShape(init);
      if |pts| == 1 || p.ts - pts[|pts| - 2].ts > MaxGap {
        assert Segments(pts) == si + [[p]];
        assert (si + [[p]])[..|si|] == si;
      } else {
        var last := si[|si| - 1];
        assert Segments(pts) == si[..|si| - 1] + [last + [p]];
        assert (si[..|si| - 1] + [last + [p]])[..|si| - 1] == si[..|si| - 1];
        assert GapsWithin(last + [p]) by {
          assert last[|last| - 1] == init[|init| - 1];
        }
      }
    }
  }

  lemma {:induction false} SegmentsConcat<L>(pts: seq<NoisePoint<L>>)
    ensures Concat(Segments(pts)) == pts
  {
    if |pts| > 0 {
      var init := pts[..|pts| - 1];
      var p := pts[|pts| - 1];
      var si := Segments(init);
      var opens := |pts| == 1 || p.ts - pts[|pts| - 2].ts > MaxGap;
      assert Segments(pts) == if opens then si + [[p]] else si[..|si| - 1] + [si[|si| - 1] + [p]];
      SegmentsConcat(init);
      SegmentsConcatStep(si, p, opens);
      assert init + [p] == pts;
    }
  }

  /** Adding a point, as a new segment or at the end of the last one, adds it
      at the end of the concatenation. */
  lemma SegmentsConcatStep<L>(si: seq<seq<NoisePoint<L>>>, p: NoisePoint<L>, opens: bool)
    requires opens || |si| > 0
    ensures Concat(if opens then si + [[p]] else si[..|si| - 1] + [si[|si| - 1] + [p]]) == Concat(si) + [p]
  {
    if opens {
      CloseConcat(si, [p]);
    } else {
      var front, last := si[..|si| - 1], si[|si| - 1];
      assert si == front + [last];
      CloseConcat(front, last);
      CloseConcat(front, last + [p]);
    }
  }

  lemma CloseConcat<T>(segs: seq<seq<T>>, current: seq<T>)
    ensures Concat(segs + [current]) == Concat(segs) + current
  {
    ConcatAppend(segs, [current]);
    assert Concat([current]) == current + Concat([current][1..]);
  }

  /** After the first i points, the closed segments and the open one are
      together the reference segmentation of those points, and `prev` holds
      the time of the last of them. */
  ghost predicate LoopInv<L>(pts: seq<NoisePoint<L>>, i: nat, segs: seq<seq<NoisePoint<L>>>,
                             current: seq<NoisePoint<L>>, prev: Option<int>) {
    && i <= |pts|
    && (i == 0 ==> segs == [] && current == [] && prev.None?)
    && (i > 0 ==> segs + [current] == Segments(pts[..i]) && prev == Some(pts[i - 1].ts))
  }

  /** One turn of the loop keeps the invariant. */
  lemma LoopStep<L>(pts: seq<NoisePoint<L>>, i: nat, segs: seq<seq<NoisePoint<L>>>,
                    current: seq<NoisePoint<L>>, prev: Option<int>)
    requires i < |pts| && LoopInv(pts, i, segs, current, prev)
    ensures var split := prev.Some? && pts[i].ts - prev.value > MaxGap;
      LoopInv(pts, i + 1,
              if split && |current| > 0 then segs + [current] else segs,
              (if split then [] else current) + [pts[i]],
              Some(pts[i].ts))
  {
    var p := pts[i];
    SegmentsSnoc(pts, i);
    var init := Segments(pts[..i]);
    var q := pts[..i + 1];
    assert q[..i] == pts[..i];
    if i == 0 {
      assert pts[..i] == [];
      assert Segments(q) == [[p]];
      assert current + [p] == [p];
      assert segs + [[p]] == [[p]];
      assert LoopInv(pts, 1, segs, [p], Some(p.ts));
    } else {
      assert init[..|init| - 1] == segs && init[|init| - 1] == current;
      assert |current| > 0;
      if p.ts - pts[i - 1].ts > MaxGap {
        var none: seq<NoisePoint<L>> := [];
        assert none + [p] == [p];
        assert LoopInv(pts, i + 1, segs + [current], [p], Some(p.ts));
      } else {
        assert LoopInv(pts, i + 1, segs, current + [p], Some(p.ts));
      }
    }
  }

  /** The loop in `process_equipment`. */
  method SplitTracks<L>(pts: seq<NoisePoint<L>>) returns (segs: seq<seq<NoisePoint<L>>>)
    ensures forall k :: 0 <= k < |segs| ==> |segs[k]| > 0 && GapsWithin(segs[k])
    ensures forall k :: 0 < k < |segs| ==> Separated(segs[k - 1], segs[k])
    ensures Concat(segs) == pts
  {
    segs := [];
    var current: seq<NoisePoint<L>> := [];
    var prev: Option<int> := None;
    for i := 0 to |pts|
      invariant LoopInv(pts, i, segs, current, prev)
    {
      var p := pts[i];
      LoopStep(pts, i, segs, current, prev);
      if prev.Some? && p.ts - prev.value > MaxGap {
        if |current| > 0 {
          segs := segs + [current];
        }
        current := [];
      }
      current := current + [p];
      prev := Some(p.ts);
    }
    if |current| > 0 {
      segs := segs + [current];
    }
    assert pts[..|pts|] == pts;
    SegmentsShape(pts);
    SegmentationAt(segs);
    SegmentsConcat(pts);
  }
}
