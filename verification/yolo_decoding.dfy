/** What the numbers of the network output mean, from a drawn object to its reported pixels. */
module YoloDecoding {
  import opened BoxGeometry
  import opened Powers
  import opened YoloBounds
  import opened YoloBoxes
  import opened YoloDetect
  import opened YoloNms

  // ------------------------------------------------------------------------ one anchor box

  /** The number v with v / (1 - v) * anchor / full == size. */
  function Encoded(size: real, anchor: int, full: nat): real
    requires size >= 0.0 && anchor > 0
  {
    var e := size * full as real / anchor as real;
    assert e >= 0.0;
    e / (1.0 + e)
  }

  lemma OddsOfShare(e: real)
    requires e >= 0.0
    ensures e / (1.0 + e) != 1.0 && Odds(e / (1.0 + e)) == e
  {
    var v := e / (1.0 + e);
    assert v * (1.0 + e) == e;
    assert (1.0 - v) * (1.0 + e) == 1.0;
    assert v / (1.0 - v) == e by {
      assert e * (1.0 - v) == v;
    }
  }

  lemma ScaleUnscale(size: real, anchor: real, full: real)
    requires anchor > 0.0 && full > 0.0
    ensures size * full / anchor * anchor / full == size
  {
    var e := size * full / anchor;
    assert e * anchor == size * full;
  }

  /** A number encoded for an anchor decodes to its size. */
  lemma DecodesSize(size: real, anchor: int, full: nat)
    requires size >= 0.0 && anchor > 0 && full > 0
    ensures Odds(Encoded(size, anchor, full)) * anchor as real / full as real == size
  {
    hide Odds;
    var e := size * full as real / anchor as real;
    assert e >= 0.0;
    OddsOfShare(e);
    ScaleUnscale(size, anchor as real, full as real);
  }

  /** The 85 numbers of anchor n of cell j are the n-th group of the cell's channels. */
  function Group(net: Net, p: Place): nat
    requires Exists(net, p)
  {
    Base(net, p.i) + p.j * net.layers[p.i].netC + 85 * p.n
  }

  lemma GroupFits(net: Net, p: Place, entry: nat)
    requires NetFits(net) && Exists(net, p) && entry < 85
    ensures Group(net, p) + entry < |net.data| && At(net, p, entry) == net.data[Group(net, p) + entry]
  {
    OffsetStaysInLayer(net, p, entry);
  }

  /** The first four numbers of the group encode the box, relative to the cell and to its anchor. */
  predicate Encodes(net: Net, p: Place, box: Box)
    requires NetFits(net) && Exists(net, p)
  {
    var l, g := net.layers[p.i], Group(net, p);
    assert l in net.layers && LayerFits(net, l);
    CellsPositive(l, p.j);
    GroupFits(net, p, 3);
    var anchorW, anchorH := net.anchors[2 * l.mask[p.n]], net.anchors[2 * l.mask[p.n] + 1];
    && anchorW > 0 && anchorH > 0 && box.w >= 0.0 && box.h >= 0.0
    && net.data[g] == box.x * l.netW as real - (p.j % l.netH) as real
    && net.data[g + 1] == box.y * l.netH as real - (p.j / l.netW) as real
    && net.data[g + 2] == Encoded(box.w, anchorW, net.fpgaW)
    && net.data[g + 3] == Encoded(box.h, anchorH, net.fpgaH)
  }

  lemma CellBack(c: real, n: real, cell: real)
    requires n > 0.0
    ensures (cell + (c * n - cell)) / n == c
  {
    assert cell + (c * n - cell) == c * n;
  }

  /** What the box computation reads at a place. */
  predicate Numbers(net: Net, p: Place, col: nat, row: nat, box: Box)
    requires NetFits(net) && Exists(net, p)
  {
    var l := net.layers[p.i];
    assert l in net.layers && LayerFits(net, l);
    var anchorW, anchorH := net.anchors[2 * l.mask[p.n]], net.anchors[2 * l.mask[p.n] + 1];
    && anchorW > 0 && anchorH > 0 && box.w >= 0.0 && box.h >= 0.0
    && At(net, p, 0) == box.x * l.netW as real - col as real
    && At(net, p, 1) == box.y * l.netH as real - row as real
    && At(net, p, 2) == Encoded(box.w, anchorW, net.fpgaW)
    && At(net, p, 3) == Encoded(box.h, anchorH, net.fpgaH)
  }

  lemma AnchorFits(net: Net, p: Place)
    requires NetFits(net) && Exists(net, p)
    ensures var l := net.layers[p.i];
            && l.netW > 0 && l.netH > 0 && net.fpgaW > 0 && net.fpgaH > 0
            && p.n < |l.mask| && 2 * l.mask[p.n] + 1 < |net.anchors|
  {
    var l := net.layers[p.i];
    assert l in net.layers && LayerFits(net, l);
    CellsPositive(l, p.j);
  }

  lemma BoxOfNumbers(net: Net, p: Place, col: nat, row: nat, box: Box)
    requires NetFits(net) && Exists(net, p) && Numbers(net, p, col, row, box)
    ensures YoloBox(net, p, col, row) == box
  {
    hide At, Odds, Encoded, NetFits, LayerFits;
    var l := net.layers[p.i];
    AnchorFits(net, p);
    CellBack(box.x, l.netW as real, col as real);
    CellBack(box.y, l.netH as real, row as real);
    DecodesSize(box.w, net.anchors[2 * l.mask[p.n]], net.fpgaW);
    DecodesSize(box.h, net.anchors[2 * l.mask[p.n] + 1], net.fpgaH);
  }

  lemma EncodedNumbers(net: Net, p: Place, box: Box)
    requires NetFits(net) && Exists(net, p) && Encodes(net, p, box)
    ensures net.layers[p.i].netW > 0 && net.layers[p.i].netH > 0
    ensures Numbers(net, p, p.j % net.layers[p.i].netH, p.j / net.layers[p.i].netW, box)
  {
    hide At, Encoded, Group, NetFits, LayerFits;
    CellsPositive(net.layers[p.i], p.j);
    GroupFits(net, p, 0);
    GroupFits(net, p, 1);
    GroupFits(net, p, 2);
    GroupFits(net, p, 3);
  }

  lemma DetectionBox(net: Net, p: Place)
    requires NetFits(net) && Exists(net, p) && net.layers[p.i].netW > 0 && net.layers[p.i].netH > 0
    ensures DetectionOf(net, p).bbox == YoloBox(net, p, p.j % net.layers[p.i].netH, p.j / net.layers[p.i].netW)
  {
    hide NetFits, YoloBox, ClassScore, At;
  }

  lemma DecodesBox(net: Net, p: Place, box: Box)
    requires NetFits(net) && Exists(net, p) && Encodes(net, p, box)
    ensures DetectionOf(net, p).bbox == box
  {
    hide NetFits, Encodes, Numbers, DetectionOf, YoloBox;
    EncodedNumbers(net, p, box);
    DetectionBox(net, p);
    BoxOfNumbers(net, p, p.j % net.layers[p.i].netH, p.j / net.layers[p.i].netW, box);
  }

  /** The fifth number is the objectness; each of the next, times it, is a score if above the threshold. */
  lemma DecodesScores(net: Net, p: Place, k: nat)
    requires NetFits(net) && Exists(net, p) && k < net.classNum
    ensures Group(net, p) + 5 + k < |net.data|
    ensures DetectionOf(net, p).objectness == net.data[Group(net, p) + 4]
    ensures var product := net.data[Group(net, p) + 4] * net.data[Group(net, p) + 5 + k];
            DetectionOf(net, p).prob[k] == if product > net.thresh then product else 0.0
  {
    hide At, Group, YoloBox;
    GroupFits(net, p, 4);
    GroupFits(net, p, 5 + k);
  }

  /** A place is a hit exactly if its fifth number is above the threshold. */
  lemma HitByFifth(net: Net, p: Place)
    requires NetFits(net) && Exists(net, p)
    ensures Group(net, p) + 4 < |net.data| && (Hit(net, p) <==> net.data[Group(net, p) + 4] > net.thresh)
  {
    GroupFits(net, p, 4);
  }

  // --------------------------------------------------------------------------- letterbox

  /**
   The fitted picture is the largest of the source's shape that the network input holds: it fills
   one side, and the other is the source's proportion of it, rounded down.
   */
  lemma FittedFills(fpgaW: nat, fpgaH: nat, srcW: nat, srcH: nat)
    requires srcW > 0 && srcH > 0
    ensures var (newW, newH) := FittedSize(fpgaW, fpgaH, srcW, srcH);
            && newW <= fpgaW && newH <= fpgaH
            && (|| (newW == fpgaW && newH * srcW <= srcH * fpgaW < (newH + 1) * srcW)
                || (newH == fpgaH && newW * srcH <= srcW * fpgaH < (newW + 1) * srcH))
  {
    var a, b := fpgaW as real / srcW as real, fpgaH as real / srcH as real;
    CrossMultiply(fpgaW, srcW, fpgaH, srcH);
    if a < b {
      QuotientIsFloor(srcH * fpgaW, srcW);
      QuotientAtMost(srcH * fpgaW, srcW, fpgaH);
    } else {
      QuotientIsFloor(srcW * fpgaH, srcH);
      QuotientAtMost(srcW * fpgaH, srcH, fpgaW);
    }
  }

  lemma CrossMultiply(a: nat, b: nat, c: nat, d: nat)
    requires b > 0 && d > 0
    ensures a as real / b as real < c as real / d as real <==> a * d < c * b
  {
    var p, q := a as real / b as real, c as real / d as real;
    var bd := b as real * d as real;
    assert p * b as real == a as real && q * d as real == c as real;
    assert p * bd == (a * d) as real;
    assert q * bd == (c * b) as real;
    assert (q - p) * bd == (c * b) as real - (a * d) as real;
  }

  lemma QuotientIsFloor(n: nat, d: nat)
    requires d > 0
    ensures n / d * d <= n < (n / d + 1) * d
  {
  }

  lemma QuotientAtMost(n: nat, d: nat, limit: nat)
    requires d > 0 && n <= limit * d
    ensures n / d <= limit
  {
    if n / d > limit {
      RowsBelow(limit, n / d, d);
    }
  }

  // ------------------------------------------------------------------------------ pixels

  /** A rectangle in pixels of the source picture, as a box in shares of the picture. */
  function BoxOfEdges(left: real, top: real, right: real, bottom: real, srcW: nat, srcH: nat): Box
    requires srcW > 0 && srcH > 0
  {
    Box((left + right) / 2.0 / srcW as real, (top + bottom) / 2.0 / srcH as real,
        (right - left) / srcW as real, (bottom - top) / srcH as real)
  }

  /** The pixel an edge falls into, clipped to the picture. */
  predicate First(edge: real, pixel: int) {
    if edge < 0.0 then pixel == 0 else pixel as real <= edge < pixel as real + 1.0
  }

  predicate Last(edge: real, size: nat, pixel: int) {
    if edge >= size as real then pixel == size - 1 else 0.0 <= edge && pixel as real <= edge < pixel as real + 1.0
  }

  lemma EdgesBack(low: real, high: real, size: nat)
    requires size > 0
    ensures var centre, extent := (low + high) / 2.0 / size as real, (high - low) / size as real;
            Low(centre, extent, size) == low && High(centre, extent, size) == high
  {
    var s := size as real;
    var c, e := (low + high) / 2.0 / s, (high - low) / s;
    assert c * s == (low + high) / 2.0 && e * s == high - low;
    assert (c - e / 2.0) * s == c * s - e * s / 2.0;
    assert (c + e / 2.0) * s == c * s + e * s / 2.0;
  }

  /** Every edge falls into some pixel. */
  lemma EveryEdgeHasPixel(edge: real, size: nat) returns (first: int, last: int)
    ensures First(edge, first) && first >= 0
    ensures edge >= 0.0 ==> Last(edge, size, last) && last < size
  {
    first := if edge < 0.0 then 0 else edge.Floor;
    last := if edge >= size as real then size - 1 else edge.Floor;
  }

  lemma FirstOfEdge(edge: real, pixel: int)
    requires First(edge, pixel)
    ensures FirstPixel(edge) == pixel
  {
  }

  lemma LastOfEdge(edge: real, size: nat, pixel: int)
    requires size > 0 && Last(edge, size, pixel)
    ensures LastPixel(edge, size) == pixel
  {
  }

  /** A selected rectangle is reported with the pixels its four edges fall into. */
  lemma PixelsOfEdges(s: Selected, left: real, top: real, right: real, bottom: real, srcW: nat, srcH: nat, info: BoxInfo)
    requires srcW > 0 && srcH > 0 && s.det.bbox == BoxOfEdges(left, top, right, bottom, srcW, srcH)
    requires s.bestClass < |s.det.prob| && info.classNo == s.bestClass && info.score == s.det.prob[s.bestClass]
    requires First(left, info.left) && First(top, info.top)
    requires Last(right, srcW, info.right) && Last(bottom, srcH, info.bottom)
    ensures InfoOf(s, srcW, srcH) == info
  {
    hide Low, High, First, Last, FirstPixel, LastPixel;
    EdgesBack(left, right, srcW);
    EdgesBack(top, bottom, srcH);
    FirstOfEdge(left, info.left);
    FirstOfEdge(top, info.top);
    LastOfEdge(right, srcW, info.right);
    LastOfEdge(bottom, srcH, info.bottom);
  }

  // ------------------------------------------------------------------- a drawn object comes out

  /** The product of objectness and class number. */
  function ShownScore(net: Net, p: Place, k: nat): real
    requires NetFits(net) && Exists(net, p) && k < net.classNum
  {
    GroupFits(net, p, 5 + k);
    net.data[Group(net, p) + 4] * net.data[Group(net, p) + 5 + k]
  }

  /** Class k has the highest product, and it is above the threshold. */
  predicate ShowsClass(net: Net, p: Place, k: nat)
    requires NetFits(net) && Exists(net, p) && k < net.classNum
  {
    && ShownScore(net, p, k) > net.thresh
    && forall c | 0 <= c < net.classNum && c != k :: ShownScore(net, p, c) < ShownScore(net, p, k)
  }

  lemma ShownIsBest(net: Net, p: Place, k: nat)
    requires NetFits(net) && Exists(net, p) && k < net.classNum && net.thresh >= 0.0 && ShowsClass(net, p, k)
    ensures var d := DetectionOf(net, p);
            IsBest(d, net.thresh, k) && d.prob[k] == ShownScore(net, p, k)
  {
    hide DetectionOf, ShownScore, Group;
    var d := DetectionOf(net, p);
    forall c | 0 <= c < net.classNum
      ensures d.prob[c] == if ShownScore(net, p, c) > net.thresh then ShownScore(net, p, c) else 0.0
    {
      DecodedScore(net, p, c);
    }
  }

  lemma DecodedScore(net: Net, p: Place, c: nat)
    requires NetFits(net) && Exists(net, p) && c < net.classNum
    ensures DetectionOf(net, p).prob[c] == if ShownScore(net, p, c) > net.thresh then ShownScore(net, p, c) else 0.0
  {
    hide DetectionOf, Group;
    DecodesScores(net, p, c);
  }

  /** The other detections leave detection x alone: none of their boxes suppresses its. */
  predicate LeftAlone(rule: Rule, start: seq<Detection>, x: nat)
    requires x < |start|
  {
    forall y | 0 <= y < |start| && y != x :: !Suppresses(rule, start[y].bbox, start[x].bbox)
  }

  lemma UnsuppressedStays(rule: Rule, classNum: nat, start: seq<Detection>, cur: seq<Detection>, p: Perm, x: nat)
    requires SettledBelow(rule, classNum, start, cur, p, classNum) && x < |start| && LeftAlone(rule, start, x)
    ensures cur[p.to[x]].bbox == start[x].bbox && cur[p.to[x]].prob == start[x].prob
  {
    hide Suppresses;
    forall c | 0 <= c < classNum
      ensures cur[p.to[x]].prob[c] == start[x].prob[c]
    {
      var out := ScoresAt(cur, p, c);
      assert Suppressed(rule, Boxes(start), Scores(start, c), out);
      assert out[x] == cur[p.to[x]].prob[c] && Scores(start, c)[x] == start[x].prob[c];
    }
  }

  lemma {:induction false} BestIsPicked(dets: seq<Detection>, thresh: real, picks: seq<Selected>, i: nat, k: nat)
    returns (u: nat)
    requires Picked(dets, thresh, picks) && i < |dets| && IsBest(dets[i], thresh, k)
    ensures u < |picks| && picks[u] == Selected(dets[i], k)
    decreases |dets|
  {
    var last := |dets| - 1;
    if i == last {
      u := |picks| - 1;
      OneBest(dets[i], thresh, picks[u].bestClass, k);
    } else if IsBest(dets[last], thresh, -1) {
      u := BestIsPicked(dets[..last], thresh, picks, i, k);
    } else {
      u := BestIsPicked(dets[..last], thresh, picks[..|picks| - 1], i, k);
    }
  }

  lemma OneBest(d: Detection, thresh: real, b: int, k: nat)
    requires IsBest(d, thresh, b) && IsBest(d, thresh, k)
    ensures b == k
  {
  }

  /**
   From a drawn rectangle to its report: if the x-th hit encodes the letterboxed rectangle and
   shows class k, and no other detection suppresses it, then whatever else the network put out one
   reported box has that class, that score and the pixels of the rectangle's edges.
   */
  lemma DrawnIsReported(net: Net, rule: Rule, srcW: nat, srcH: nat, cur: seq<Detection>, p: Perm, picks: seq<Selected>,
                        x: nat, drawn: Box, info: BoxInfo, left: real, top: real, right: real, bottom: real) returns (u: nat)
    requires NetFits(net) && Fittable(net.fpgaW, net.fpgaH, srcW, srcH) && net.thresh >= 0.0
    requires Outcome(net, rule, srcW, srcH, cur, p, picks)
    requires x < FoundCount(net) && LeftAlone(rule, Found(net, srcW, srcH), x)
    requires drawn == BoxOfEdges(left, top, right, bottom, srcW, srcH)
    requires Encodes(net, AllHits(net)[x], Letterbox(drawn, net.fpgaW, net.fpgaH, srcW, srcH))
    requires info.classNo < net.classNum && ShowsClass(net, AllHits(net)[x], info.classNo)
    requires info.score == ShownScore(net, AllHits(net)[x], info.classNo)
    requires First(left, info.left) && First(top, info.top)
    requires Last(right, srcW, info.right) && Last(bottom, srcH, info.bottom)
    ensures u < |picks| && picks[u].bestClass < |picks[u].det.prob| && InfoOf(picks[u], srcW, srcH) == info
  {
    hide NetFits, Fittable, Encodes, ShowsClass, ShownScore, Suppresses, Picked, SettledBelow, Letterbox, Correct;
    hide DetectionOf, First, Last, InfoOf, IsBest, BoxOfEdges, LeftAlone, AllHits;
    var place, start := AllHits(net)[x], Found(net, srcW, srcH);
    assert start[x] == FoundAt(net, x, srcW, srcH);
    DecodesBox(net, place, Letterbox(drawn, net.fpgaW, net.fpgaH, srcW, srcH));
    CorrectInvertsLetterbox(drawn, net.fpgaW, net.fpgaH, srcW, srcH);
    ShownIsBest(net, place, info.classNo);
    UnsuppressedStays(rule, net.classNum, start, cur, p, x);
    SettledPlace(rule, net.classNum, start, cur, p, x);
    var d := cur[p.to[x]];
    SameBest(DetectionOf(net, place), d, net.thresh, info.classNo);
    u := BestIsPicked(cur, net.thresh, picks, p.to[x], info.classNo);
    BestExists(d, net.thresh, info.classNo);
    FittableSizes(net.fpgaW, net.fpgaH, srcW, srcH);
    PixelsOfEdges(picks[u], left, top, right, bottom, srcW, srcH, info);
  }

  lemma FittableSizes(fpgaW: nat, fpgaH: nat, srcW: nat, srcH: nat)
    requires Fittable(fpgaW, fpgaH, srcW, srcH)
    ensures srcW > 0 && srcH > 0
  {
  }

  lemma SettledPlace(rule: Rule, classNum: nat, start: seq<Detection>, cur: seq<Detection>, p: Perm, x: nat)
    requires SettledBelow(rule, classNum, start, cur, p, classNum) && x < |start|
    ensures |p.to| == |start| && p.to[x] < |cur|
  {
  }

  lemma SameBest(d: Detection, e: Detection, thresh: real, k: nat)
    requires d.prob == e.prob && IsBest(d, thresh, k)
    ensures IsBest(e, thresh, k)
  {
  }

  lemma BestExists(d: Detection, thresh: real, k: nat)
    requires IsBest(d, thresh, k)
    ensures k < |d.prob|
  {
  }

  // ------------------------------------------------------------------- one object, one report

  lemma LayersApart(net: Net, a: Place, b: Place)
    requires NetFits(net) && Exists(net, a) && Exists(net, b) && a.i < b.i
    ensures Group(net, a) + 85 <= Group(net, b)
  {
    hide NetFits;
    OffsetStaysInLayer(net, a, 84);
    OffsetStaysInLayer(net, b, 0);
    BasesAscend(net, a.i + 1, b.i);
  }

  lemma SameLayerApart(net: Net, a: Place, b: Place)
    requires NetFits(net) && Exists(net, a) && Exists(net, b) && a.i == b.i && (a.j < b.j || (a.j == b.j && a.n < b.n))
    ensures Group(net, a) + 85 <= Group(net, b)
  {
    var l := net.layers[a.i];
    assert l in net.layers && LayerFits(net, l);
    hide NetFits, Base, Cells;
    if a.j < b.j {
      CellsApart(a, b, l.netC, l.gridBoxNum);
    }
  }

  /** The numbers of two anchor boxes never overlap. */
  lemma GroupsApart(net: Net, p: Place, q: Place)
    requires NetFits(net) && Exists(net, p) && Exists(net, q) && p != q
    ensures Group(net, p) + 85 <= Group(net, q) || Group(net, q) + 85 <= Group(net, p)
  {
    hide NetFits, Exists, Group;
    if Precedes(p, q) {
      if p.i < q.i { LayersApart(net, p, q); } else { SameLayerApart(net, p, q); }
    } else {
      if q.i < p.i { LayersApart(net, q, p); } else { SameLayerApart(net, q, p); }
    }
  }

  lemma CellsApart(a: Place, b: Place, c: nat, grid: nat)
    requires a.j < b.j && a.n < grid && 85 * grid <= c
    ensures a.j * c + 85 * a.n + 85 <= b.j * c
  {
    IndexFits(a.n, a.j, a.j + 1, c, grid, 84);
    RowsAscend(a.j + 1, b.j, c);
  }

  /** The box has a place to be encoded at: its anchor has extent, and so may the box. */
  predicate Encodable(net: Net, p: Place, box: Box)
    requires NetFits(net) && Exists(net, p)
  {
    var l := net.layers[p.i];
    assert l in net.layers && LayerFits(net, l);
    net.anchors[2 * l.mask[p.n]] > 0 && net.anchors[2 * l.mask[p.n] + 1] > 0 && box.w >= 0.0 && box.h >= 0.0
  }

  /** The output with one object: all numbers are zero but those of its place. */
  function Drawn(net: Net, p: Place, box: Box, k: nat): (d: Net)
    requires NetFits(net) && Exists(net, p) && k < net.classNum && Encodable(net, p, box)
    ensures |d.data| == |net.data| && d == WithData(net, d.data)
  {
    var l, g := net.layers[p.i], Group(net, p);
    assert l in net.layers && LayerFits(net, l);
    CellsPositive(l, p.j);
    GroupFits(net, p, 5 + k);
    var empty := seq(|net.data|, _ => 0.0);
    WithData(net, empty[g := box.x * l.netW as real - (p.j % l.netH) as real]
                       [g + 1 := box.y * l.netH as real - (p.j / l.netW) as real]
                       [g + 2 := Encoded(box.w, net.anchors[2 * l.mask[p.n]], net.fpgaW)]
                       [g + 3 := Encoded(box.h, net.anchors[2 * l.mask[p.n] + 1], net.fpgaH)]
                       [g + 4 := net.thresh + 1.0][g + 5 + k := 1.0])
  }

  lemma DrawnShape(net: Net, p: Place, box: Box, k: nat)
    requires NetFits(net) && Exists(net, p) && k < net.classNum && Encodable(net, p, box)
    ensures var d := Drawn(net, p, box, k);
            && NetFits(d) && (forall q: Place :: Exists(d, q) <==> Exists(net, q))
            && (forall q: Place | Exists(net, q) :: Group(d, q) == Group(net, q))
  {
    hide NetFits, Encoded, Encodable, Drawn;
    var d := Drawn(net, p, box, k);
    SameNet(net, d.data);
    forall q: Place | Exists(net, q)
      ensures Group(d, q) == Group(net, q)
    {
      SameShape(net, d.data, q.i);
    }
  }

  lemma DrawnEncodes(net: Net, p: Place, box: Box, k: nat)
    requires NetFits(net) && Exists(net, p) && k < net.classNum && Encodable(net, p, box)
    requires var d := Drawn(net, p, box, k); NetFits(d) && Exists(d, p) && Group(d, p) == Group(net, p)
    ensures Encodes(Drawn(net, p, box, k), p, box)
  {
    hide Encoded, Group;
    GroupFits(net, p, 5 + k);
  }

  lemma DrawnShows(net: Net, p: Place, box: Box, k: nat)
    requires NetFits(net) && Exists(net, p) && k < net.classNum && Encodable(net, p, box) && net.thresh >= 0.0
    requires var d := Drawn(net, p, box, k); NetFits(d) && Exists(d, p) && Group(d, p) == Group(net, p)
    ensures var d := Drawn(net, p, box, k);
            ShowsClass(d, p, k) && ShownScore(d, p, k) == net.thresh + 1.0 && Hit(d, p)
  {
    hide Encoded, Group, Encodable, ShownScore;
    var d := Drawn(net, p, box, k);
    GroupFits(net, p, 5 + k);
    HitByFifth(d, p);
    ScoreOfNumbers(d, p, k, net.thresh + 1.0, 1.0);
    forall c | 0 <= c < net.classNum && c != k
      ensures ShownScore(d, p, c) == 0.0
    {
      GroupFits(net, p, 5 + c);
      ScoreOfNumbers(d, p, c, net.thresh + 1.0, 0.0);
    }
  }

  lemma ScoreOfNumbers(net: Net, p: Place, c: nat, objectness: real, number: real)
    requires NetFits(net) && Exists(net, p) && c < net.classNum && Group(net, p) + 5 + c < |net.data|
    requires net.data[Group(net, p) + 4] == objectness && net.data[Group(net, p) + 5 + c] == number
    ensures ShownScore(net, p, c) == objectness * number
  {
  }

  lemma DrawnIsOnlyHit(net: Net, p: Place, box: Box, k: nat, q: Place)
    requires NetFits(net) && Exists(net, p) && k < net.classNum && Encodable(net, p, box) && net.thresh >= 0.0
    requires Exists(net, q) && q != p
    requires NetFits(Drawn(net, p, box, k)) && Group(Drawn(net, p, box, k), q) == Group(net, q)
    ensures !Hit(Drawn(net, p, box, k), q)
  {
    hide Encoded, Group, Encodable;
    GroupsApart(net, p, q);
    GroupFits(net, q, 4);
    GroupFits(net, p, 5 + k);
    HitByFifth(Drawn(net, p, box, k), q);
  }

  lemma {:induction false} OnlyHitIsAlone(net: Net, p: Place)
    requires NetFits(net) && Exists(net, p)
    requires forall q | Exists(net, q) :: Hit(net, q) <==> q == p
    ensures AllHits(net) == [p]
  {
    hide NetFits, Exists, Hit, LayerHits;
    EveryHitIsFound(net, p);
    HitsAscend(net, |net.layers|);
    var hits := AllHits(net);
    assert forall x | 0 <= x < |hits| :: hits[x] in hits && hits[x] == p;
    assert hits[0] == hits[|hits| - 1];
  }

  /**
   For every rectangle, every place whose anchor has extent and every class there is an output that
   makes the whole run report exactly that: one box, of that class, with the pixels of the rectangle.
   */
  lemma OneObjectIsReported(net: Net, rule: Rule, srcW: nat, srcH: nat, p: Place, drawn: Box, info: BoxInfo,
                            left: real, top: real, right: real, bottom: real,
                            cur: seq<Detection>, perm: Perm, picks: seq<Selected>)
    requires NetFits(net) && Fittable(net.fpgaW, net.fpgaH, srcW, srcH) && net.thresh >= 0.0 && net.maxBoxNum > 0
    requires drawn == BoxOfEdges(left, top, right, bottom, srcW, srcH) && info.classNo < net.classNum
    requires Exists(net, p) && Encodable(net, p, Letterbox(drawn, net.fpgaW, net.fpgaH, srcW, srcH))
    requires info.score == net.thresh + 1.0 && First(left, info.left) && First(top, info.top)
    requires Last(right, srcW, info.right) && Last(bottom, srcH, info.bottom)
    requires var d := Drawn(net, p, Letterbox(drawn, net.fpgaW, net.fpgaH, srcW, srcH), info.classNo);
             NetFits(d) && Outcome(d, rule, srcW, srcH, cur, perm, picks)
    ensures |picks| == 1 && picks[0].bestClass < |picks[0].det.prob| && InfoOf(picks[0], srcW, srcH) == info
  {
    hide NetFits, Fittable, Encodable, Exists, Encodes, ShowsClass, ShownScore, Letterbox, First, Last, InfoOf, BoxOfEdges;
    hide Drawn, Outcome, Hit, Group, AllHits, Suppresses, MostReports, Found;
    var box := Letterbox(drawn, net.fpgaW, net.fpgaH, srcW, srcH);
    var d := Drawn(net, p, box, info.classNo);
    DrawnShape(net, p, box, info.classNo);
    DrawnEncodes(net, p, box, info.classNo);
    DrawnShows(net, p, box, info.classNo);
    forall q | Exists(d, q)
      ensures Hit(d, q) <==> q == p
    {
      if q != p {
        DrawnIsOnlyHit(net, p, box, info.classNo, q);
      }
    }
    OnlyHitIsAlone(d, p);
    assert FoundCount(d) == 1 && AllHits(d)[0] == p;
    OutcomeAtMost(d, rule, srcW, srcH, cur, perm, picks);
    var u := DrawnIsReported(d, rule, srcW, srcH, cur, perm, picks, 0, drawn, info, left, top, right, bottom);
  }
}
