/** Whether the array of results holds every report: the shape of the network decides. */
module YoloBounds {
  import opened BoxGeometry
  import opened YoloNms
  import opened YoloBoxes
  import opened YoloDetect

  // -------------------------------------------------------------------- boxes without extent

  predicate NoExtent(b: Box) {
    b.w <= 0.0 && b.h <= 0.0
  }

  /** The DIoU penalty is not negative, which holds of the C library's pow on these arguments. */
  ghost predicate PenaltyNotNegative(rule: Rule) {
    forall x, y | x >= 0.0 :: rule.pow(x, y) >= 0.0
  }

  lemma NoOverlap(x1: real, w1: real, x2: real, w2: real)
    requires w1 <= 0.0 && w2 <= 0.0
    ensures Overlap(x1, w1, x2, w2) <= 0.0
  {
  }

  lemma NoIou(a: Box, b: Box)
    requires NoExtent(a) && NoExtent(b)
    ensures BoxIou(a, b) == 0.0
  {
    hide Overlap;
    NoOverlap(a.x, a.w, b.x, b.w);
    NoOverlap(a.y, a.h, b.y, b.h);
    var w, h := Overlap(a.x, a.w, b.x, b.w), Overlap(a.y, a.h, b.y, b.h);
    assert w == 0.0 ==> w * h == 0.0;
  }

  lemma SquareNotNegative(r: real)
    ensures Square(r) >= 0.0
  {
  }

  lemma QuotientNotNegative(x: real, c: real)
    requires x >= 0.0 && c > 0.0
    ensures x / c >= 0.0
  {
  }

  /** Boxes without extent never suppress each other. */
  lemma NoExtentNoSuppression(rule: Rule, a: Box, b: Box)
    requires NoExtent(a) && NoExtent(b) && rule.thresh >= 0.0 && (rule.kind.DiouNms? ==> PenaltyNotNegative(rule))
    ensures !Suppresses(rule, a, b)
  {
    hide BoxIou, Square;
    NoIou(a, b);
    if rule.kind.DiouNms? {
      var ba := BoxC(a, b);
      SquareNotNegative(ba.right - ba.left);
      SquareNotNegative(ba.bot - ba.top);
      SquareNotNegative(a.x - b.x);
      SquareNotNegative(a.y - b.y);
      var c := Square(ba.right - ba.left) + Square(ba.bot - ba.top);
      if c != 0.0 {
        QuotientNotNegative(Square(a.x - b.x) + Square(a.y - b.y), c);
      }
    }
  }

  // ------------------------------------------------------------------- suppressing nothing

  ghost predicate NoneSuppresses(rule: Rule, s: seq<Detection>) {
    forall a, b | a in s && b in s :: !Suppresses(rule, a.bbox, b.bbox)
  }

  lemma SettledIfNoneSuppresses(rule: Rule, classNum: nat, start: seq<Detection>)
    requires Shaped(start, classNum) && NoneSuppresses(rule, start)
    ensures SettledBelow(rule, classNum, start, start, Identity(|start|), classNum)
  {
    hide Suppresses;
    forall c | 0 <= c < classNum
      ensures Suppressed(rule, Boxes(start), Scores(start, c), ScoresAt(start, Identity(|start|), c))
    {
    }
  }

  lemma NotCovered(rule: Rule, start: seq<Detection>, out: seq<real>, x: nat, score: real)
    requires NoneSuppresses(rule, start) && |out| == |start| && x < |start|
    ensures !Covered(rule, Boxes(start), out, start[x].bbox, score)
  {
    hide Suppresses;
    assert start[x] in start && forall y | 0 <= y < |start| :: start[y] in start;
  }

  lemma ScoresStayIfNoneSuppresses(rule: Rule, classNum: nat, start: seq<Detection>, cur: seq<Detection>, p: Perm, c: nat)
    requires SettledBelow(rule, classNum, start, cur, p, classNum) && NoneSuppresses(rule, start) && c < classNum
    ensures ScoresAt(cur, p, c) == Scores(start, c)
  {
    hide Suppresses;
    var out, scores := ScoresAt(cur, p, c), Scores(start, c);
    assert Suppressed(rule, Boxes(start), scores, out);
    forall x | 0 <= x < |out|
      ensures out[x] == scores[x]
    {
      NotCovered(rule, start, out, x, scores[x]);
    }
  }

  /** Every detection has its first class above the threshold. */
  predicate AllScored(dets: seq<Detection>, thresh: real) {
    forall d | d in dets :: |d.prob| > 0 && d.prob[0] > thresh
  }

  lemma {:induction false} AllScoredArePicked(dets: seq<Detection>, thresh: real, picks: seq<Selected>)
    requires Picked(dets, thresh, picks) && AllScored(dets, thresh)
    ensures |picks| == |dets|
    decreases |dets|
  {
    if dets != [] {
      assert dets[|dets| - 1] in dets;
      AllScoredArePicked(dets[..|dets| - 1], thresh, picks[..|picks| - 1]);
    }
  }

  /** Every detection with its first class. */
  function FirstPicks(dets: seq<Detection>): (picks: seq<Selected>)
    ensures |picks| == |dets| && forall i | 0 <= i < |dets| :: picks[i] == Selected(dets[i], 0)
  {
    seq(|dets|, i requires 0 <= i < |dets| => Selected(dets[i], 0))
  }

  predicate FirstIsBest(d: Detection, thresh: real) {
    |d.prob| > 0 && IsBest(d, thresh, 0)
  }

  lemma {:induction false} FirstClassPicked(dets: seq<Detection>, thresh: real)
    requires forall d | d in dets :: FirstIsBest(d, thresh)
    ensures Picked(dets, thresh, FirstPicks(dets))
  {
    hide FirstIsBest;
    if dets != [] {
      var prior, d := dets[..|dets| - 1], dets[|dets| - 1];
      FirstClassPicked(prior, thresh);
      assert FirstPicks(dets)[..|prior|] == FirstPicks(prior);
      assert d in dets;
      BestFirst(d, thresh);
    }
  }

  lemma BestFirst(d: Detection, thresh: real)
    requires FirstIsBest(d, thresh)
    ensures IsBest(d, thresh, 0) && !IsBest(d, thresh, -1)
  {
  }

  // ------------------------------------------------------------------- an output that floods

  function WithData(net: Net, data: seq<real>): Net {
    net.(data := data)
  }

  lemma {:induction false} SameShape(net: Net, data: seq<real>, i: nat)
    requires i <= |net.layers|
    ensures Base(WithData(net, data), i) == Base(net, i) && Places(WithData(net, data), i) == Places(net, i)
  {
    if i > 0 {
      SameShape(net, data, i - 1);
    }
  }

  lemma SameNet(net: Net, data: seq<real>)
    requires NetFits(net) && |data| == |net.data|
    ensures NetFits(WithData(net, data)) && MostReports(WithData(net, data)) == MostReports(net)
  {
    SameShape(net, data, |net.layers|);
    var flooded := WithData(net, data);
    forall l | l in flooded.layers
      ensures LayerFits(flooded, l)
    {
      assert LayerFits(net, l);
    }
  }

  /** Above 1 and above the threshold, and so is its square. */
  function Level(net: Net): real
    requires net.thresh >= 0.0
  {
    net.thresh + 2.0
  }

  /** The output whose every number is the level. */
  function Flooded(net: Net): Net
    requires net.thresh >= 0.0
  {
    WithData(net, seq(|net.data|, _ => Level(net)))
  }

  ghost predicate AnchorsNotNegative(net: Net) {
    forall i | 0 <= i < |net.anchors| :: net.anchors[i] >= 0
  }

  lemma FloodedAt(net: Net, p: Place, entry: nat)
    requires NetFits(net) && net.thresh >= 0.0 && NetFits(Flooded(net)) && Exists(Flooded(net), p) && entry < ONE_CHANNEL
    ensures At(Flooded(net), p, entry) == Level(net)
  {
    hide NetFits;
    OffsetStaysInLayer(Flooded(net), p, entry);
  }

  lemma FloodedHits(net: Net)
    requires NetFits(net) && net.thresh >= 0.0 && NetFits(Flooded(net))
    ensures AllHit(Flooded(net))
  {
    hide NetFits, At, Exists;
    forall p | Exists(Flooded(net), p)
      ensures Hit(Flooded(net), p)
    {
      FloodedAt(net, p, 4);
    }
  }

  lemma OddsNotPositive(v: real)
    requires v > 1.0
    ensures Odds(v) <= 0.0
  {
    var q, d := Odds(v), v - 1.0;
    assert q * (1.0 - v) == v;
    assert q > 0.0 ==> q * d > 0.0;
  }

  lemma ExtentNotPositive(odds: real, anchor: int, full: nat)
    requires odds <= 0.0 && anchor >= 0 && full > 0
    ensures odds * anchor as real / full as real <= 0.0
  {
    var product, f := odds * anchor as real, full as real;
    assert product <= 0.0;
    var q := product / f;
    assert q * f == product;
    assert q > 0.0 ==> q * f > 0.0;
  }

  lemma ScaledNotPositive(w: real, r: real)
    requires w <= 0.0 && r > 0.0
    ensures w * (1.0 / r) <= 0.0
  {
    var s := 1.0 / r;
    assert s * r == 1.0;
    assert s > 0.0;
  }

  lemma SquareAbove(v: real, thresh: real)
    requires v > 1.0 && v > thresh
    ensures v * v > thresh
  {
    assert v * v - v == v * (v - 1.0);
    assert v * (v - 1.0) > 0.0;
  }

  /** No extent, and the same score above the threshold in every class. */
  predicate Floods(d: Detection, net: Net)
    requires net.thresh >= 0.0
  {
    && NoExtent(d.bbox) && |d.prob| == net.classNum
    && forall c | 0 <= c < |d.prob| :: d.prob[c] == Level(net) * Level(net)
  }

  lemma FloodedBox(net: Net, p: Place, col: int, row: int)
    requires NetFits(net) && net.thresh >= 0.0 && NetFits(Flooded(net)) && Exists(Flooded(net), p)
    requires AnchorsNotNegative(net)
    ensures NoExtent(YoloBox(Flooded(net), p, col, row))
  {
    hide At, Odds;
    var flooded := Flooded(net);
    var l := flooded.layers[p.i];
    assert l in flooded.layers && LayerFits(flooded, l);
    FloodedAt(net, p, 2);
    FloodedAt(net, p, 3);
    OddsNotPositive(Level(net));
    ExtentNotPositive(Odds(Level(net)), net.anchors[2 * l.mask[p.n]], net.fpgaW);
    ExtentNotPositive(Odds(Level(net)), net.anchors[2 * l.mask[p.n] + 1], net.fpgaH);
  }

  lemma FloodedScore(net: Net, p: Place, k: nat)
    requires NetFits(net) && net.thresh >= 0.0 && NetFits(Flooded(net)) && Exists(Flooded(net), p) && k < net.classNum
    ensures ClassScore(Flooded(net), p, k) == Level(net) * Level(net) > net.thresh
  {
    hide At;
    FloodedAt(net, p, 4);
    FloodedAt(net, p, 5 + k);
    SquareAbove(Level(net), net.thresh);
  }

  lemma FloodedDetection(net: Net, p: Place)
    requires NetFits(net) && net.thresh >= 0.0 && NetFits(Flooded(net)) && Exists(Flooded(net), p)
    requires AnchorsNotNegative(net)
    ensures Floods(DetectionOf(Flooded(net), p), net)
  {
    hide NetFits, At, YoloBox, ClassScore, NoExtent;
    CellsPositive(Flooded(net).layers[p.i], p.j);
    var l := Flooded(net).layers[p.i];
    FloodedBox(net, p, p.j % l.netH, p.j / l.netW);
    forall k | 0 <= k < net.classNum
      ensures ClassScore(Flooded(net), p, k) == Level(net) * Level(net)
    {
      FloodedScore(net, p, k);
    }
  }

  lemma CorrectedFloods(d: Detection, net: Net, srcW: nat, srcH: nat)
    requires net.thresh >= 0.0 && Floods(d, net) && Fittable(net.fpgaW, net.fpgaH, srcW, srcH)
    ensures Floods(Corrected(d, net.fpgaW, net.fpgaH, srcW, srcH), net)
  {
    hide Ratio, Margin, FittedSize;
    var (newW, newH) := FittedSize(net.fpgaW, net.fpgaH, srcW, srcH);
    ScaledNotPositive(d.bbox.w, Ratio(net.fpgaW, newW));
    ScaledNotPositive(d.bbox.h, Ratio(net.fpgaH, newH));
  }

  lemma FoundFloods(net: Net, srcW: nat, srcH: nat)
    requires NetFits(net) && net.thresh >= 0.0 && NetFits(Flooded(net)) && AnchorsNotNegative(net)
    requires Fittable(net.fpgaW, net.fpgaH, srcW, srcH)
    ensures forall d | d in Found(Flooded(net), srcW, srcH) :: Floods(d, net)
  {
    hide NetFits, Floods, Corrected, DetectionOf, AllHits, Fittable;
    var flooded := Flooded(net);
    var found := Found(flooded, srcW, srcH);
    forall x | 0 <= x < |found|
      ensures Floods(found[x], net)
    {
      assert found[x] == FoundAt(flooded, x, srcW, srcH);
      FloodedDetection(net, AllHits(flooded)[x]);
      CorrectedFloods(DetectionOf(flooded, AllHits(flooded)[x]), net, srcW, srcH);
    }
  }

  lemma FloodsNeverSuppress(rule: Rule, net: Net, s: seq<Detection>)
    requires net.thresh >= 0.0 && rule.thresh >= 0.0 && (rule.kind.DiouNms? ==> PenaltyNotNegative(rule))
    requires forall d | d in s :: Floods(d, net)
    ensures NoneSuppresses(rule, s)
  {
    hide Suppresses, PenaltyNotNegative, NoExtent;
    forall a, b | a in s && b in s
      ensures !Suppresses(rule, a.bbox, b.bbox)
    {
      NoExtentNoSuppression(rule, a.bbox, b.bbox);
    }
  }

  /** A configuration as it is meant: thresholds and anchors are not negative, and there is a class. */
  ghost predicate Sensible(net: Net, rule: Rule) {
    && net.thresh >= 0.0 && rule.thresh >= 0.0 && net.classNum > 0 && AnchorsNotNegative(net)
    && (rule.kind.DiouNms? ==> PenaltyNotNegative(rule))
  }

  /** Every outcome for the flooding output reports every anchor box, as far as the maximum allows. */
  lemma FloodedReportsAll(net: Net, rule: Rule, srcW: nat, srcH: nat, cur: seq<Detection>, p: Perm, picks: seq<Selected>)
    requires Sensible(net, rule) && NetFits(net) && NetFits(Flooded(net))
    requires Fittable(net.fpgaW, net.fpgaH, srcW, srcH)
    requires Outcome(Flooded(net), rule, srcW, srcH, cur, p, picks)
    ensures |picks| == MostReports(net)
  {
    hide NetFits, Fittable, PenaltyNotNegative, AnchorsNotNegative, Picked, Found;
    var flooded := Flooded(net);
    var start := Found(flooded, srcW, srcH);
    FoundFloods(net, srcW, srcH);
    FloodsNeverSuppress(rule, net, start);
    ScoresStayIfNoneSuppresses(rule, net.classNum, start, cur, p, 0);
    FirstScores(net, start, cur, p);
    AllScoredArePicked(cur, net.thresh, picks);
    FloodedCount(net);
  }

  lemma FirstScores(net: Net, start: seq<Detection>, cur: seq<Detection>, p: Perm)
    requires net.thresh >= 0.0 && net.classNum > 0 && Shaped(start, net.classNum) && Shaped(cur, net.classNum)
    requires p.Valid(|start|) && |cur| == |start|
    requires forall d | d in start :: Floods(d, net)
    requires ScoresAt(cur, p, 0) == Scores(start, 0)
    ensures AllScored(cur, net.thresh)
  {
    SquareAbove(Level(net), net.thresh);
    forall i | 0 <= i < |cur|
      ensures |cur[i].prob| > 0 && cur[i].prob[0] > net.thresh
    {
      var x := p.from[i];
      assert p.to[x] == i && start[x] in start;
      assert ScoresAt(cur, p, 0)[x] == Scores(start, 0)[x];
    }
  }

  lemma FloodedCount(net: Net)
    requires NetFits(net) && net.thresh >= 0.0 && NetFits(Flooded(net))
    ensures FoundCount(Flooded(net)) == MostReports(net)
  {
    hide NetFits, Places;
    FloodedHits(net);
    HitsAtMostPlaces(Flooded(net), |net.layers|);
    SameShape(net, Flooded(net).data, |net.layers|);
  }

  lemma FloodsFirst(d: Detection, net: Net)
    requires net.thresh >= 0.0 && Floods(d, net) && net.classNum > 0
    ensures FirstIsBest(d, net.thresh)
  {
    SquareAbove(Level(net), net.thresh);
    hide Level;
  }

  /** The flooding output has an outcome. */
  lemma FloodedOutcome(net: Net, rule: Rule, srcW: nat, srcH: nat)
    returns (cur: seq<Detection>, p: Perm, picks: seq<Selected>)
    requires Sensible(net, rule) && NetFits(net) && NetFits(Flooded(net))
    requires Fittable(net.fpgaW, net.fpgaH, srcW, srcH)
    ensures Outcome(Flooded(net), rule, srcW, srcH, cur, p, picks)
  {
    hide NetFits, Fittable, PenaltyNotNegative, AnchorsNotNegative, Picked, Found, SettledBelow;
    hide Floods, NoneSuppresses, FirstIsBest;
    cur := Found(Flooded(net), srcW, srcH);
    p := Identity(|cur|);
    FoundFloods(net, srcW, srcH);
    FloodsNeverSuppress(rule, net, cur);
    SettledIfNoneSuppresses(rule, net.classNum, cur);
    forall d | d in cur
      ensures FirstIsBest(d, net.thresh)
    {
      FloodsFirst(d, net);
    }
    FirstClassPicked(cur, net.thresh);
    picks := FirstPicks(cur);
  }

  // ------------------------------------------------------------------------ the condition

  /** Whatever numbers a network of this shape puts out, the reports fit an array of this length. */
  ghost predicate AlwaysInBounds(net: Net, rule: Rule, srcW: nat, srcH: nat, length: nat)
    requires Fittable(net.fpgaW, net.fpgaH, srcW, srcH)
  {
    forall data, cur, p, picks |
      NetFits(WithData(net, data)) && Outcome(WithData(net, data), rule, srcW, srcH, cur, p, picks) :: |picks| <= length
  }

  /**
   All outputs stay within the array if and only if it has room for every anchor box, or for the
   configured maximum.
   */
  lemma AlwaysInBoundsIff(net: Net, rule: Rule, srcW: nat, srcH: nat, length: nat)
    requires NetFits(net) && Sensible(net, rule) && Fittable(net.fpgaW, net.fpgaH, srcW, srcH)
    ensures AlwaysInBounds(net, rule, srcW, srcH, length) <==> MostReports(net) <= length
  {
    hide NetFits, Fittable, Sensible, Outcome, MostReports;
    if MostReports(net) <= length {
      forall data, cur, p, picks |
        NetFits(WithData(net, data)) && Outcome(WithData(net, data), rule, srcW, srcH, cur, p, picks)
        ensures |picks| <= length
      {
        OutcomeAtMost(WithData(net, data), rule, srcW, srcH, cur, p, picks);
        SameMost(net, data);
      }
    } else {
      ThresholdOf(net, rule);
      SameNet(net, Flooded(net).data);
      var cur, p, picks := FloodedOutcome(net, rule, srcW, srcH);
      FloodedReportsAll(net, rule, srcW, srcH, cur, p, picks);
    }
  }

  lemma ThresholdOf(net: Net, rule: Rule)
    requires Sensible(net, rule)
    ensures net.thresh >= 0.0
  {
  }

  lemma SameMost(net: Net, data: seq<real>)
    ensures MostReports(WithData(net, data)) == MostReports(net)
  {
    SameShape(net, data, |net.layers|);
  }

  // ------------------------------------------------------------ the network as configured

  /** What the constructor allocates, before it reads the maximum from the configuration. */
  const ALLOCATED := 100

  const LAYER_19 := Layer(19, 19, 256, 369664, 3, [6, 7, 8])
  const LAYER_38 := Layer(38, 38, 256, 1478656, 3, [3, 4, 5])
  const LAYER_76 := Layer(76, 76, 256, 5914624, 3, [0, 1, 2])

  const ANCHORS: seq<int> := [43, 37, 124, 91, 313, 139, 214, 243, 569, 235, 414, 405, 866, 434, 1222, 833, 2897, 1728]

  /** yolov3.cfg: 5 classes, threshold 0.24, at most 200 boxes; the input size is not part of it. */
  function Shipped(fpgaW: nat, fpgaH: nat): Net {
    Net([LAYER_19, LAYER_38, LAYER_76], 5, 0.24, 200, ANCHORS, fpgaW, fpgaH, seq(1940736, _ => 0.0))
  }

  const SHIPPED_RULE := Rule(GreedyNms, 0.45, 0.6, (x, y) => 0.0)

  lemma ShippedBases(net: Net)
    requires net.layers == [LAYER_19, LAYER_38, LAYER_76]
    ensures Base(net, 3) == 1940736 && Places(net, 3) == 22743
  {
    assert Base(net, 1) == 92416 && Base(net, 2) == 462080;
    assert Cells(LAYER_19) == 361 && Cells(LAYER_38) == 1444 && Cells(LAYER_76) == 5776;
    assert Places(net, 1) == 1083 && Places(net, 2) == 5415;
  }

  lemma ShippedFits(fpgaW: nat, fpgaH: nat)
    requires fpgaW > 0 && fpgaH > 0
    ensures NetFits(Shipped(fpgaW, fpgaH)) && Sensible(Shipped(fpgaW, fpgaH), SHIPPED_RULE)
    ensures MostReports(Shipped(fpgaW, fpgaH)) == 200
  {
    var net := Shipped(fpgaW, fpgaH);
    ShippedBases(net);
    assert LayerFits(net, LAYER_19);
    assert LayerFits(net, LAYER_38);
    assert LayerFits(net, LAYER_76);
  }

  /**
   With the shipped configuration some output is reported in 200 boxes: the 100 allocated entries
   do not hold every output, 200 would.
   */
  lemma ShippedArrayIsTooSmall(fpgaW: nat, fpgaH: nat, srcW: nat, srcH: nat)
    requires Fittable(fpgaW, fpgaH, srcW, srcH)
    ensures !AlwaysInBounds(Shipped(fpgaW, fpgaH), SHIPPED_RULE, srcW, srcH, ALLOCATED)
    ensures AlwaysInBounds(Shipped(fpgaW, fpgaH), SHIPPED_RULE, srcW, srcH, 200)
  {
    hide AlwaysInBounds, NetFits, Sensible, MostReports;
    ShippedFits(fpgaW, fpgaH);
    AlwaysInBoundsIff(Shipped(fpgaW, fpgaH), SHIPPED_RULE, srcW, srcH, ALLOCATED);
    AlwaysInBoundsIff(Shipped(fpgaW, fpgaH), SHIPPED_RULE, srcW, srcH, 200);
  }
}
