/** The whole post-processing of one picture: network output in, reported boxes out. */
module YoloDetect {
  import opened BoxGeometry
  import opened YoloNms
  import opened YoloBoxes

  /** Truncation toward zero, as a conversion to int does it. */
  function Truncate(r: real): int {
    if r >= 0.0 then r.Floor else -(-r).Floor
  }

  // ------------------------------------------------------------------ letterbox correction

  /** The size of the source picture within the network's input, in integer arithmetic. */
  function FittedSize(fpgaW: nat, fpgaH: nat, srcW: nat, srcH: nat): (size: (nat, nat))
    requires srcW > 0 && srcH > 0
  {
    if fpgaW as real / srcW as real < fpgaH as real / srcH as real
    then (fpgaW, srcH * fpgaW / srcW)
    else (srcW * fpgaH / srcH, fpgaH)
  }

  /** Network and source sizes with which no ratio is zero. */
  predicate Fittable(fpgaW: nat, fpgaH: nat, srcW: nat, srcH: nat) {
    && fpgaW > 0 && fpgaH > 0 && srcW > 0 && srcH > 0
    && FittedSize(fpgaW, fpgaH, srcW, srcH).0 > 0 && FittedSize(fpgaW, fpgaH, srcW, srcH).1 > 0
  }

  function Margin(full: nat, fitted: nat): real
    requires full > 0
  {
    (full - fitted) as real / 2.0 / full as real
  }

  function Ratio(full: nat, fitted: nat): (r: real)
    requires full > 0 && fitted > 0
    ensures r > 0.0
  {
    fitted as real / full as real
  }

  function CorrectCentre(v: real, full: nat, fitted: nat): real
    requires full > 0 && fitted > 0
  {
    (v - Margin(full, fitted)) / Ratio(full, fitted)
  }

  function CorrectExtent(v: real, full: nat, fitted: nat): real
    requires full > 0 && fitted > 0
  {
    v * (1.0 / Ratio(full, fitted))
  }

  function Correct(b: Box, fpgaW: nat, fpgaH: nat, srcW: nat, srcH: nat): Box
    requires Fittable(fpgaW, fpgaH, srcW, srcH)
  {
    var (newW, newH) := FittedSize(fpgaW, fpgaH, srcW, srcH);
    Box(CorrectCentre(b.x, fpgaW, newW), CorrectCentre(b.y, fpgaH, newH),
        CorrectExtent(b.w, fpgaW, newW), CorrectExtent(b.h, fpgaH, newH))
  }

  /** A coordinate of the fitted picture, in the middle of the input and in shares of it. */
  function Placed(v: real, full: nat, fitted: nat): real
    requires full > 0
  {
    (v * fitted as real + (full - fitted) as real / 2.0) / full as real
  }

  function Scaled(v: real, full: nat, fitted: nat): real
    requires full > 0
  {
    v * fitted as real / full as real
  }

  /** Where a box of the source picture appears in the network input. */
  function Letterbox(b: Box, fpgaW: nat, fpgaH: nat, srcW: nat, srcH: nat): Box
    requires Fittable(fpgaW, fpgaH, srcW, srcH)
  {
    var (newW, newH) := FittedSize(fpgaW, fpgaH, srcW, srcH);
    Box(Placed(b.x, fpgaW, newW), Placed(b.y, fpgaH, newH), Scaled(b.w, fpgaW, newW), Scaled(b.h, fpgaH, newH))
  }

  lemma ScaleBack(v: real, r: real)
    requires r > 0.0
    ensures v * r / r == v && v * r * (1.0 / r) == v
  {
    assert r * (1.0 / r) == 1.0;
    assert v * (r * (1.0 / r)) == v * r * (1.0 / r);
  }

  lemma InShares(v: real, full: nat, fitted: nat)
    requires full > 0 && fitted > 0
    ensures Scaled(v, full, fitted) == v * Ratio(full, fitted)
    ensures Placed(v, full, fitted) == v * Ratio(full, fitted) + Margin(full, fitted)
  {
    var f, n, d := full as real, fitted as real, (full - fitted) as real / 2.0;
    var q, r := n / f, d / f;
    assert q * f == n && r * f == d;
    assert v * n == v * q * f;
    assert (v * q + r) * f == v * n + d;
  }

  lemma AxisBack(v: real, full: nat, fitted: nat)
    requires full > 0 && fitted > 0
    ensures CorrectCentre(Placed(v, full, fitted), full, fitted) == v
    ensures CorrectExtent(Scaled(v, full, fitted), full, fitted) == v
  {
    hide Ratio, Margin, Placed, Scaled;
    InShares(v, full, fitted);
    ScaleBack(v, Ratio(full, fitted));
  }

  /** The correction undoes the letterbox. */
  lemma CorrectInvertsLetterbox(b: Box, fpgaW: nat, fpgaH: nat, srcW: nat, srcH: nat)
    requires Fittable(fpgaW, fpgaH, srcW, srcH)
    ensures Correct(Letterbox(b, fpgaW, fpgaH, srcW, srcH), fpgaW, fpgaH, srcW, srcH) == b
  {
    hide FittedSize, Placed, Scaled, CorrectCentre, CorrectExtent;
    var (newW, newH) := FittedSize(fpgaW, fpgaH, srcW, srcH);
    AxisBack(b.x, fpgaW, newW);
    AxisBack(b.y, fpgaH, newH);
    AxisBack(b.w, fpgaW, newW);
    AxisBack(b.h, fpgaH, newH);
  }

  function Corrected(d: Detection, fpgaW: nat, fpgaH: nat, srcW: nat, srcH: nat): Detection
    requires Fittable(fpgaW, fpgaH, srcW, srcH)
  {
    d.(bbox := Correct(d.bbox, fpgaW, fpgaH, srcW, srcH))
  }

  method CorrectYoloBoxes(dets: array<Detection>, n: nat, fpgaW: nat, fpgaH: nat, srcW: nat, srcH: nat)
    requires n <= dets.Length && Fittable(fpgaW, fpgaH, srcW, srcH)
    modifies dets
    ensures forall i | 0 <= i < dets.Length ::
              dets[i] == if i < n then Corrected(old(dets[i]), fpgaW, fpgaH, srcW, srcH) else old(dets[i])
  {
    hide Fittable, Correct;
    for i := 0 to n
      invariant forall j | 0 <= j < dets.Length ::
                  dets[j] == if j < i then Corrected(old(dets[j]), fpgaW, fpgaH, srcW, srcH) else old(dets[j])
    {
      dets[i] := dets[i].(bbox := Correct(dets[i].bbox, fpgaW, fpgaH, srcW, srcH));
    }
  }

  // ---------------------------------------------------------------------------- pixel boxes

  datatype BoxInfo = BoxInfo(classNo: nat, score: real, left: int, top: int, right: int, bottom: int)

  /** One axis: the two edges of centre +- extent / 2, in pixels. */
  function Low(centre: real, extent: real, size: nat): real {
    (centre - extent / 2.0) * size as real
  }

  function High(centre: real, extent: real, size: nat): real {
    (centre + extent / 2.0) * size as real
  }

  function FirstPixel(low: real): int {
    if Truncate(low) < 0 then 0 else Truncate(low)
  }

  function LastPixel(high: real, size: nat): int {
    if Truncate(high) > size - 1 then size - 1 else Truncate(high)
  }

  lemma TruncateAscends(r: real, s: real)
    requires r <= s
    ensures Truncate(r) <= Truncate(s)
  {
  }

  lemma TruncateBounds(r: real, n: nat)
    ensures Truncate(r) >= n + 1 <==> r >= (n + 1) as real
    ensures Truncate(r) < 0 <==> r <= -1.0
  {
  }

  lemma EdgesAscend(centre: real, extent: real, size: nat)
    requires extent >= 0.0
    ensures Low(centre, extent, size) <= High(centre, extent, size)
  {
    assert extent * size as real >= 0.0;
  }

  /** A box of non-negative extent is reported non-empty exactly if it reaches into the picture. */
  lemma PixelsNonEmptyIff(centre: real, extent: real, size: nat)
    requires extent >= 0.0 && size > 0
    ensures var low, high := Low(centre, extent, size), High(centre, extent, size);
            && (FirstPixel(low) <= LastPixel(high, size) <==> low < size as real && high > -1.0)
            && 0 <= FirstPixel(low) && LastPixel(high, size) < size
  {
    hide Truncate, Low, High;
    var low, high := Low(centre, extent, size), High(centre, extent, size);
    EdgesAscend(centre, extent, size);
    TruncateAscends(low, high);
    TruncateBounds(low, size - 1);
    TruncateBounds(high, 0);
  }

  function InfoOf(s: Selected, srcW: nat, srcH: nat): BoxInfo
    requires s.bestClass < |s.det.prob|
  {
    var b := s.det.bbox;
    BoxInfo(s.bestClass, s.det.prob[s.bestClass],
            FirstPixel(Low(b.x, b.w, srcW)), FirstPixel(Low(b.y, b.h, srcH)),
            LastPixel(High(b.x, b.w, srcW), srcW), LastPixel(High(b.y, b.h, srcH), srcH))
  }

  // ------------------------------------------------------------------------------ the run

  /** Suppression of a rearrangement, seen from the original arrangement. */
  lemma SettledFromRearranged(rule: Rule, classNum: nat, start: seq<Detection>, kept: seq<Detection>, cur: seq<Detection>,
                              p: Perm, q: Perm)
    requires Moved(start, kept, p) && SettledBelow(rule, classNum, kept, cur, q, classNum) && Shaped(start, classNum)
    ensures p.Valid(|start|) && q.Valid(|start|)
    ensures SettledBelow(rule, classNum, start, cur, Then(p, q, |start|), classNum)
  {
    hide Suppressed, Suppresses;
    var r := Then(p, q, |start|);
    forall c | 0 <= c < classNum
      ensures Suppressed(rule, Boxes(start), Scores(start, c), ScoresAt(cur, r, c))
    {
      Transport(rule, Boxes(start), Scores(start, c), ScoresAt(cur, r, c),
                Boxes(kept), Scores(kept, c), ScoresAt(cur, q, c), p);
    }
  }

  /** How many detections are allocated and filled. */
  function FoundCount(net: Net): nat
    requires NetFits(net)
  {
    AtMost(|AllHits(net)|, net.maxBoxNum)
  }

  function FoundAt(net: Net, x: nat, srcW: nat, srcH: nat): (d: Detection)
    requires NetFits(net) && Fittable(net.fpgaW, net.fpgaH, srcW, srcH) && x < FoundCount(net)
    ensures |d.prob| == net.classNum && d.objectness > net.thresh
  {
    hide NetFits, Correct, Fittable, LayerHits;
    HitIsAboveThreshold(net, AllHits(net)[x]);
    Corrected(DetectionOf(net, AllHits(net)[x]), net.fpgaW, net.fpgaH, srcW, srcH)
  }

  /** The corrected detections of the first hits, as many as are allocated. */
  function Found(net: Net, srcW: nat, srcH: nat): (dets: seq<Detection>)
    requires NetFits(net) && Fittable(net.fpgaW, net.fpgaH, srcW, srcH)
    ensures |dets| == FoundCount(net)
    ensures Shaped(dets, net.classNum)
    ensures forall d | d in dets :: d.objectness > net.thresh
  {
    hide NetFits, FoundCount, FoundAt, Fittable;
    seq(FoundCount(net), x requires 0 <= x < FoundCount(net) => FoundAt(net, x, srcW, srcH))
  }

  lemma {:induction false} NoMorePicksThanDetections(dets: seq<Detection>, thresh: real, picks: seq<Selected>)
    requires Picked(dets, thresh, picks)
    ensures |picks| <= |dets|
    ensures forall s | s in picks :: s.det in dets && IsBest(s.det, thresh, s.bestClass)
    decreases |dets|
  {
    if dets != [] {
      var prior := dets[..|dets| - 1];
      if IsBest(dets[|dets| - 1], thresh, -1) {
        NoMorePicksThanDetections(prior, thresh, picks);
      } else {
        NoMorePicksThanDetections(prior, thresh, picks[..|picks| - 1]);
        assert picks == picks[..|picks| - 1] + [picks[|picks| - 1]];
      }
    }
  }

  /** Suppression when every detection has objectness: all of them take part. */
  method SuppressAll(dets: array<Detection>, classNum: nat, rule: Rule) returns (ghost r: Perm)
    requires Shaped(dets[..], classNum)
    requires forall i | 0 <= i < dets.Length :: dets[i].objectness != 0.0
    modifies dets
    ensures SettledBelow(rule, classNum, old(dets[..]), dets[..], r, classNum)
  {
    hide SettledBelow, Moved, Then;
    ghost var start := dets[..];
    ghost var kept, p, q, trace;
    var total;
    total, kept, p, q, trace := NmsSort(dets, classNum, rule);
    assert total == dets.Length by {
      if total < dets.Length {
        MovedElement(start, kept, p, total);
      }
    }
    assert kept[..total] == kept && dets[..total] == dets[..];
    SettledFromRearranged(rule, classNum, start, kept, dets[..], p, q);
    r := Then(p, q, |start|);
  }

  lemma MovedElement<T>(before: seq<T>, now: seq<T>, p: Perm, i: nat)
    requires Moved(before, now, p) && i < |now|
    ensures now[i] in before
  {
    assert now[p.to[p.from[i]]] == before[p.from[i]];
  }

  /** The final loop: one pixel box per pick, as long as the array lasts. */
  method ReportBoxes(boxArr: array<BoxInfo>, picks: seq<Selected>, srcW: nat, srcH: nat) returns (inBounds: bool)
    requires forall s | s in picks :: s.bestClass < |s.det.prob|
    modifies boxArr
    ensures inBounds <==> |picks| <= boxArr.Length
    ensures forall u | 0 <= u < boxArr.Length ::
              boxArr[u] == if u < |picks| then InfoOf(picks[u], srcW, srcH) else old(boxArr[u])
  {
    hide InfoOf;
    var i := 0;
    while i < |picks|
      invariant 0 <= i <= |picks| && i <= boxArr.Length
      invariant forall u | 0 <= u < boxArr.Length ::
                  boxArr[u] == if u < i then InfoOf(picks[u], srcW, srcH) else old(boxArr[u])
    {
      if i >= boxArr.Length {
        return false;
      }
      boxArr[i] := InfoOf(picks[i], srcW, srcH);
      i := i + 1;
    }
    inBounds := true;
  }

  /** picks are reported: those of cur, what suppression leaves of the found detections, rearranged by p. */
  ghost predicate Outcome(net: Net, rule: Rule, srcW: nat, srcH: nat, cur: seq<Detection>, p: Perm, picks: seq<Selected>)
    requires NetFits(net) && Fittable(net.fpgaW, net.fpgaH, srcW, srcH)
  {
    SettledBelow(rule, net.classNum, Found(net, srcW, srcH), cur, p, net.classNum) && Picked(cur, net.thresh, picks)
  }

  /** All anchor boxes of the network, as far as the configured maximum allows. */
  function MostReports(net: Net): nat {
    AtMost(Places(net, |net.layers|), net.maxBoxNum)
  }

  /** No output of the network is reported in more boxes. */
  lemma OutcomeAtMost(net: Net, rule: Rule, srcW: nat, srcH: nat, cur: seq<Detection>, p: Perm, picks: seq<Selected>)
    requires NetFits(net) && Fittable(net.fpgaW, net.fpgaH, srcW, srcH) && Outcome(net, rule, srcW, srcH, cur, p, picks)
    ensures |picks| <= |cur| == FoundCount(net) <= MostReports(net)
  {
    hide NetFits, Fittable, Picked, Places;
    NoMorePicksThanDetections(cur, net.thresh, picks);
    HitsAtMostPlaces(net, |net.layers|);
    SettledShape(rule, net.classNum, Found(net, srcW, srcH), cur, p, net.classNum);
  }

  /**
   getDetectBoxInfo: cur is what suppression leaves of the found detections, rearranged by
   p; picks are its detections with a class above the threshold; boxArr gets their pixel boxes.
   inBounds is false when the program writes past boxArr; the model stops there.
   */
  method GetDetectBoxInfo(boxArr: array<BoxInfo>, net: Net, rule: Rule, srcW: nat, srcH: nat)
    returns (inBounds: bool, num: nat, ghost cur: seq<Detection>, ghost p: Perm, ghost picks: seq<Selected>)
    requires NetFits(net) && Fittable(net.fpgaW, net.fpgaH, srcW, srcH)
    requires net.thresh >= 0.0
    modifies boxArr
    ensures Outcome(net, rule, srcW, srcH, cur, p, picks)
    ensures num == |picks| <= MostReports(net)
    ensures inBounds <==> |picks| <= boxArr.Length
    ensures MostReports(net) <= boxArr.Length ==> inBounds
    ensures forall u | 0 <= u < num :: picks[u].bestClass < |picks[u].det.prob|
    ensures forall u | 0 <= u < boxArr.Length ::
              boxArr[u] == if u < num then InfoOf(picks[u], srcW, srcH) else old(boxArr[u])
  {
    hide NetFits, Fittable, Correct, DetectionOf, AllHits, SettledBelow, Picked, InfoOf, Then, MostReports;
    num := MakeNetworkBoxes(net);
    var blank := Detection(Box(0.0, 0.0, 0.0, 0.0), [], 0.0, 0);
    var dets := new Detection[num](_ => blank);
    var count := FillNetworkBoxes(dets, net);
    CorrectYoloBoxes(dets, count, net.fpgaW, net.fpgaH, srcW, srcH);
    ghost var start := Found(net, srcW, srcH);
    assert dets[..] == start;
    p := SuppressAll(dets, net.classNum, rule);
    cur := dets[..];
    var selected := GetActualDetections(dets[..], net.thresh);
    picks := selected;
    NoMorePicksThanDetections(cur, net.thresh, picks);
    OutcomeAtMost(net, rule, srcW, srcH, cur, p, picks);
    num := |selected|;
    inBounds := ReportBoxes(boxArr, selected, srcW, srcH);
  }

  // ------------------------------------------------------------------- what is reported

  /** Every reported score is the score one of the found detections had for that class. */
  lemma ReportsAreFound(rule: Rule, classNum: nat, start: seq<Detection>, cur: seq<Detection>, p: Perm,
                        thresh: real, picks: seq<Selected>, u: nat) returns (x: nat)
    requires SettledBelow(rule, classNum, start, cur, p, classNum) && thresh >= 0.0
    requires Picked(cur, thresh, picks) && u < |picks|
    ensures x < |start| && picks[u].det.bbox == start[x].bbox
    ensures var c := picks[u].bestClass;
            && c < |start[x].prob| && c < |picks[u].det.prob|
            && picks[u].det.prob[c] == start[x].prob[c] > thresh
  {
    hide Suppresses;
    var from := PickSources(cur, thresh, picks);
    var c := picks[u].bestClass;
    x := p.from[from[u]];
    assert p.to[x] == from[u];
    assert Suppressed(rule, Boxes(start), Scores(start, c), ScoresAt(cur, p, c));
    assert ScoresAt(cur, p, c)[x] == Scores(start, c)[x];
  }

  lemma {:induction false} ScoredIsPicked(dets: seq<Detection>, thresh: real, picks: seq<Selected>, i: nat, c: nat)
    requires Picked(dets, thresh, picks) && i < |dets| && c < |dets[i].prob| && dets[i].prob[c] > thresh
    ensures exists s :: s in picks && s.det == dets[i]
    decreases |dets|
  {
    var last := |dets| - 1;
    if i == last {
      assert picks[|picks| - 1] in picks;
    } else if IsBest(dets[last], thresh, -1) {
      ScoredIsPicked(dets[..last], thresh, picks, i, c);
    } else {
      ScoredIsPicked(dets[..last], thresh, picks[..|picks| - 1], i, c);
    }
  }

  /** Every detection found with a class above the threshold is reported, or a reported one suppresses it. */
  lemma FoundAreReportedOrCovered(rule: Rule, classNum: nat, start: seq<Detection>, cur: seq<Detection>, p: Perm,
                                  thresh: real, picks: seq<Selected>, x: nat, c: nat) returns (s: Selected)
    requires SettledBelow(rule, classNum, start, cur, p, classNum) && thresh >= 0.0
    requires Picked(cur, thresh, picks)
    requires x < |start| && c < classNum && start[x].prob[c] > thresh
    ensures s in picks
    ensures s.det.bbox == start[x].bbox || Suppresses(rule, s.det.bbox, start[x].bbox)
    ensures c < |s.det.prob| && s.det.prob[c] >= start[x].prob[c]
  {
    hide Suppresses, Picked;
    var out := ScoresAt(cur, p, c);
    assert Suppressed(rule, Boxes(start), Scores(start, c), out);
    var y := x;
    if out[x] == 0.0 {
      assert Covered(rule, Boxes(start), out, start[x].bbox, start[x].prob[c]);
      y :| 0 <= y < |out| && out[y] != 0.0 && out[y] >= start[x].prob[c] && Suppresses(rule, start[y].bbox, start[x].bbox);
    }
    assert out[x] == 0.0 || out[x] == Scores(start, c)[x];
    ScoredIsPicked(cur, thresh, picks, p.to[y], c);
    s :| s in picks && s.det == cur[p.to[y]];
  }
}
