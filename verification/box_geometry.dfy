/** Boxes, their overlap measures, and when one detection suppresses another. */
module BoxGeometry {

  /** Centre and size. */
  datatype Box = Box(x: real, y: real, w: real, h: real)

  datatype Edges = Edges(left: real, right: real, top: real, bot: real)

  function Max(a: real, b: real): real { if a > b then a else b }

  function Min(a: real, b: real): real { if a < b then a else b }

  function Overlap(x1: real, w1: real, x2: real, w2: real): real {
    var left := Max(x1 - w1 / 2.0, x2 - w2 / 2.0);
    var right := Min(x1 + w1 / 2.0, x2 + w2 / 2.0);
    right - left
  }

  function BoxIntersection(a: Box, b: Box): real {
    var w := Overlap(a.x, a.w, b.x, b.w);
    var h := Overlap(a.y, a.h, b.y, b.h);
    if w < 0.0 || h < 0.0 then 0.0 else w * h
  }

  function BoxUnion(a: Box, b: Box): real {
    a.w * a.h + b.w * b.h - BoxIntersection(a, b)
  }

  function BoxIou(a: Box, b: Box): real {
    var i := BoxIntersection(a, b);
    var u := BoxUnion(a, b);
    if i == 0.0 || u == 0.0 then 0.0 else i / u
  }

  /** The smallest box around both. */
  function BoxC(a: Box, b: Box): Edges {
    Edges(Min(a.x - a.w / 2.0, b.x - b.w / 2.0), Max(a.x + a.w / 2.0, b.x + b.w / 2.0),
          Min(a.y - a.h / 2.0, b.y - b.h / 2.0), Max(a.y + a.h / 2.0, b.y + b.h / 2.0))
  }

  function Square(r: real): real { r * r }

  function BoxDiouNms(a: Box, b: Box, beta: real, pow: (real, real) -> real): real {
    var ba := BoxC(a, b);
    var c := Square(ba.right - ba.left) + Square(ba.bot - ba.top);
    if c == 0.0 then BoxIou(a, b)
    else BoxIou(a, b) - pow((Square(a.x - b.x) + Square(a.y - b.y)) / c, beta)
  }

  datatype NmsKind = DefaultNms | GreedyNms | DiouNms | CornersNms

  /** The configuration of one suppression run; pow is the C library's. */
  datatype Rule = Rule(kind: NmsKind, thresh: real, beta: real, pow: (real, real) -> real)

  /** Whether a kept box a removes a later box b. */
  predicate Suppresses(rule: Rule, a: Box, b: Box) {
    match rule.kind
    case DefaultNms => BoxIou(a, b) > rule.thresh
    case GreedyNms => BoxIou(a, b) > rule.thresh
    case DiouNms => BoxDiouNms(a, b, rule.beta, rule.pow) > rule.thresh
    case CornersNms => false
  }

  lemma IntersectionSymmetric(a: Box, b: Box)
    ensures BoxIntersection(a, b) == BoxIntersection(b, a)
  {
  }

  lemma SquareSymmetric(p: real, q: real)
    ensures Square(p - q) == Square(q - p)
  {
    var d := p - q;
    assert (-d) * (-d) == d * d;
  }

  /** Suppression does not depend on which box comes first. */
  lemma SuppressesSymmetric(rule: Rule, a: Box, b: Box)
    ensures Suppresses(rule, a, b) == Suppresses(rule, b, a)
  {
    hide Square, BoxIntersection;
    IntersectionSymmetric(a, b);
    SquareSymmetric(a.x, b.x);
    SquareSymmetric(a.y, b.y);
    assert BoxUnion(a, b) == BoxUnion(b, a);
    assert BoxIou(a, b) == BoxIou(b, a);
    assert BoxC(a, b) == BoxC(b, a);
  }

  // ----------------------------------------------------------------- what the measures mean

  /** t lies in the interval of this centre and length. */
  predicate Covers(x: real, w: real, t: real) {
    x - w / 2.0 <= t <= x + w / 2.0
  }

  predicate Contains(b: Box, px: real, py: real) {
    Covers(b.x, b.w, px) && Covers(b.y, b.h, py)
  }

  predicate HasExtent(b: Box) {
    b.w > 0.0 && b.h > 0.0
  }

  /** The points of both intervals are those from lo to hi. */
  ghost predicate Common(x1: real, w1: real, x2: real, w2: real, lo: real, hi: real) {
    forall t :: Covers(x1, w1, t) && Covers(x2, w2, t) <==> lo <= t <= hi
  }

  lemma OverlapOfCommon(x1: real, w1: real, x2: real, w2: real, lo: real, hi: real)
    requires Common(x1, w1, x2, w2, lo, hi) && lo <= hi
    ensures Overlap(x1, w1, x2, w2) == hi - lo
  {
    assert Covers(x1, w1, lo) && Covers(x2, w2, lo) && Covers(x1, w1, hi) && Covers(x2, w2, hi);
    var left, right := Max(x1 - w1 / 2.0, x2 - w2 / 2.0), Min(x1 + w1 / 2.0, x2 + w2 / 2.0);
    assert Covers(x1, w1, left) && Covers(x2, w2, left) && Covers(x1, w1, right) && Covers(x2, w2, right);
  }

  /** The points of both boxes are those of the rectangle. */
  ghost predicate CommonPart(a: Box, b: Box, part: Edges) {
    forall px, py :: Contains(a, px, py) && Contains(b, px, py)
                     <==> part.left <= px <= part.right && part.top <= py <= part.bot
  }

  lemma AxesOfCommonPart(a: Box, b: Box, part: Edges)
    requires CommonPart(a, b, part) && part.left <= part.right && part.top <= part.bot
    ensures Common(a.x, a.w, b.x, b.w, part.left, part.right)
    ensures Common(a.y, a.h, b.y, b.h, part.top, part.bot)
  {
    hide Covers;
    assert Contains(a, part.left, part.top) && Contains(b, part.left, part.top);
    forall t
      ensures Covers(a.x, a.w, t) && Covers(b.x, b.w, t) <==> part.left <= t <= part.right
    {
      assert Contains(a, t, part.top) && Contains(b, t, part.top) <==> part.left <= t <= part.right;
    }
    forall t
      ensures Covers(a.y, a.h, t) && Covers(b.y, b.h, t) <==> part.top <= t <= part.bot
    {
      assert Contains(a, part.left, t) && Contains(b, part.left, t) <==> part.top <= t <= part.bot;
    }
  }

  lemma CommonIsLess(w: real, h: real, w1: real, h1: real, w2: real, h2: real)
    requires 0.0 <= w <= w1 && 0.0 <= h <= h1 && w2 > 0.0 && h2 > 0.0
    ensures w1 * h1 + w2 * h2 - w * h > 0.0
  {
    assert w * h <= w1 * h && w1 * h <= w1 * h1;
    assert w2 * h2 > 0.0;
  }

  lemma CommonIsShorter(x1: real, w1: real, x2: real, w2: real)
    ensures Overlap(x1, w1, x2, w2) <= w1 && Overlap(x1, w1, x2, w2) <= w2
  {
  }

  lemma IouOfOverlaps(a: Box, b: Box, w: real, h: real)
    requires HasExtent(a) && HasExtent(b)
    requires w == Overlap(a.x, a.w, b.x, b.w) >= 0.0 && h == Overlap(a.y, a.h, b.y, b.h) >= 0.0
    ensures a.w * a.h + b.w * b.h - w * h > 0.0 && BoxIou(a, b) == (w * h) / (a.w * a.h + b.w * b.h - w * h)
  {
    CommonIsShorter(a.x, a.w, b.x, b.w);
    CommonIsShorter(a.y, a.h, b.y, b.h);
    hide Overlap;
    CommonIsLess(w, h, a.w, a.h, b.w, b.h);
    assert BoxIntersection(a, b) == w * h;
    hide BoxIntersection;
    var union := a.w * a.h + b.w * b.h - w * h;
    assert w * h == 0.0 ==> (w * h) / union == 0.0;
  }

  /** Intersection over union: the area of the common points, over the areas of both without counting it twice. */
  lemma IouOfCommonPart(a: Box, b: Box, left: real, top: real, w: real, h: real)
    requires HasExtent(a) && HasExtent(b) && w >= 0.0 && h >= 0.0
    requires CommonPart(a, b, Edges(left, left + w, top, top + h))
    ensures a.w * a.h + b.w * b.h - w * h > 0.0 && BoxIou(a, b) == (w * h) / (a.w * a.h + b.w * b.h - w * h)
  {
    hide Contains, Overlap, CommonPart, Common, BoxIou;
    AxesOfCommonPart(a, b, Edges(left, left + w, top, top + h));
    OverlapOfCommon(a.x, a.w, b.x, b.w, left, left + w);
    OverlapOfCommon(a.y, a.h, b.y, b.h, top, top + h);
    IouOfOverlaps(a, b, w, h);
  }

  /** Boxes without a common point have an IoU of zero: a common point for any other. */
  lemma IouMeansCommonPoint(a: Box, b: Box) returns (px: real, py: real)
    requires HasExtent(a) && HasExtent(b) && BoxIou(a, b) != 0.0
    ensures Contains(a, px, py) && Contains(b, px, py)
  {
    px, py := Max(a.x - a.w / 2.0, b.x - b.w / 2.0), Max(a.y - a.h / 2.0, b.y - b.h / 2.0);
    assert Overlap(a.x, a.w, b.x, b.w) >= 0.0 && Overlap(a.y, a.h, b.y, b.h) >= 0.0;
  }

  function EdgesOf(b: Box): Edges {
    Edges(b.x - b.w / 2.0, b.x + b.w / 2.0, b.y - b.h / 2.0, b.y + b.h / 2.0)
  }

  lemma InsideIsCommon(a: Box, b: Box)
    requires forall px, py :: Contains(b, px, py) ==> Contains(a, px, py)
    ensures CommonPart(a, b, EdgesOf(b))
  {
  }

  /** A box inside another: the ratio of the areas. */
  lemma IouInside(a: Box, b: Box)
    requires HasExtent(a) && HasExtent(b) && forall px, py :: Contains(b, px, py) ==> Contains(a, px, py)
    ensures BoxIou(a, b) == (b.w * b.h) / (a.w * a.h)
  {
    hide CommonPart, BoxIou, Contains;
    InsideIsCommon(a, b);
    IouOfCommonPart(a, b, b.x - b.w / 2.0, b.y - b.h / 2.0, b.w, b.h);
    var inner, outer := b.w * b.h, a.w * a.h;
    assert outer + inner - inner == outer;
  }

  lemma IouOfSelf(b: Box)
    requires HasExtent(b)
    ensures BoxIou(b, b) == 1.0
  {
    hide BoxIou, Contains;
    IouInside(b, b);
    var area := b.w * b.h;
    assert area > 0.0 && area / area == 1.0;
  }

  function Shifted(b: Box, dx: real, dy: real): Box {
    Box(b.x + dx, b.y + dy, b.w, b.h)
  }

  lemma ShiftedAcross(b: Box, d: real)
    requires 0.0 <= d < b.w
    ensures var left, top := b.x + d - b.w / 2.0, b.y - b.h / 2.0;
            CommonPart(b, Shifted(b, d, 0.0), Edges(left, left + (b.w - d), top, top + b.h))
  {
  }

  lemma ShiftedDown(b: Box, d: real)
    requires 0.0 <= d < b.h
    ensures var left, top := b.x - b.w / 2.0, b.y + d - b.h / 2.0;
            CommonPart(b, Shifted(b, 0.0, d), Edges(left, left + b.w, top, top + (b.h - d)))
  {
  }

  /** A box and itself shifted across by less than its width. */
  lemma IouShifted(b: Box, d: real)
    requires HasExtent(b) && 0.0 <= d < b.w
    ensures BoxIou(b, Shifted(b, d, 0.0)) == (b.w - d) / (b.w + d)
  {
    hide BoxIou, CommonPart;
    ShiftedAcross(b, d);
    IouOfCommonPart(b, Shifted(b, d, 0.0), b.x + d - b.w / 2.0, b.y - b.h / 2.0, b.w - d, b.h);
    SharesCancel(b.w, b.h, d);
  }

  /** A box and itself shifted down by less than its height. */
  lemma IouShiftedDown(b: Box, d: real)
    requires HasExtent(b) && 0.0 <= d < b.h
    ensures BoxIou(b, Shifted(b, 0.0, d)) == (b.h - d) / (b.h + d)
  {
    hide BoxIou, CommonPart;
    ShiftedDown(b, d);
    IouOfCommonPart(b, Shifted(b, 0.0, d), b.x - b.w / 2.0, b.y + d - b.h / 2.0, b.w, b.h - d);
    SharesCancel(b.h, b.w, d);
  }

  lemma SharesCancel(w: real, h: real, d: real)
    requires h > 0.0 && 0.0 <= d < w
    ensures w * h + w * h - (w - d) * h == (w + d) * h > 0.0
    ensures ((w - d) * h) / ((w + d) * h) == (w - d) / (w + d)
  {
    assert w * h + w * h - (w - d) * h == (w + d) * h;
    var q := (w - d) / (w + d);
    assert q * (w + d) == w - d;
    assert q * ((w + d) * h) == (w - d) * h;
  }

  predicate Encloses(e: Edges, b: Box) {
    e.left <= b.x - b.w / 2.0 && b.x + b.w / 2.0 <= e.right && e.top <= b.y - b.h / 2.0 && b.y + b.h / 2.0 <= e.bot
  }

  /** No enclosing rectangle of both boxes has its edges further in. */
  ghost predicate Smallest(e: Edges, a: Box, b: Box) {
    && Encloses(e, a) && Encloses(e, b)
    && forall e' | Encloses(e', a) && Encloses(e', b) ::
         e'.left <= e.left && e.right <= e'.right && e'.top <= e.top && e.bot <= e'.bot
  }

  lemma BoxCIsSmallest(a: Box, b: Box)
    ensures Smallest(BoxC(a, b), a, b)
  {
  }

  lemma SmallestIsUnique(e: Edges, e': Edges, a: Box, b: Box)
    requires Smallest(e, a, b) && Smallest(e', a, b)
    ensures e == e'
  {
    hide Encloses;
  }

  /**
   The measure of DIoU suppression: the IoU less a penalty, the power beta of the squared distance of the centres
   over the squared diagonal of the smallest rectangle around both boxes.
   */
  lemma DiouOfSmallest(a: Box, b: Box, beta: real, pow: (real, real) -> real, e: Edges)
    requires HasExtent(a) && Smallest(e, a, b)
    ensures var diagonal := Square(e.right - e.left) + Square(e.bot - e.top);
            var distance := Square(a.x - b.x) + Square(a.y - b.y);
            diagonal > 0.0 && BoxDiouNms(a, b, beta, pow) == BoxIou(a, b) - pow(distance / diagonal, beta)
  {
    hide BoxIou, BoxC, Smallest, Square;
    BoxCIsSmallest(a, b);
    SmallestIsUnique(e, BoxC(a, b), a, b);
    SmallestHasExtent(e, a, b);
    SquarePositive(e.right - e.left);
    SquarePositive(e.bot - e.top);
  }

  lemma SquarePositive(r: real)
    requires r > 0.0
    ensures Square(r) > 0.0
  {
    assert Square(r) / r == r;
  }

  lemma SmallestHasExtent(e: Edges, a: Box, b: Box)
    requires HasExtent(a) && Smallest(e, a, b)
    ensures e.right - e.left > 0.0 && e.bot - e.top > 0.0
  {
  }

  /** Default and greedy suppression of a box by one shifted by d: exactly if the share exceeds the threshold. */
  lemma ShiftedSuppressesIff(rule: Rule, b: Box, d: real)
    requires HasExtent(b) && 0.0 <= d < b.w && (rule.kind.GreedyNms? || rule.kind.DefaultNms?)
    ensures Suppresses(rule, b, Shifted(b, d, 0.0)) <==> b.w - d > rule.thresh * (b.w + d)
  {
    hide BoxIou;
    IouShifted(b, d);
    var q, s := (b.w - d) / (b.w + d), b.w + d;
    assert q * s == b.w - d;
    assert (q - rule.thresh) * s == b.w - d - rule.thresh * s;
  }

  /** DIoU suppression of a box by one shifted by d: the share less the penalty. */
  lemma ShiftedDiou(b: Box, d: real, beta: real, pow: (real, real) -> real)
    requires HasExtent(b) && 0.0 <= d < b.w
    ensures Square(b.w + d) + Square(b.h) > 0.0
    ensures BoxDiouNms(b, Shifted(b, d, 0.0), beta, pow)
         == (b.w - d) / (b.w + d) - pow(Square(d) / (Square(b.w + d) + Square(b.h)), beta)
  {
    hide BoxIou, BoxDiouNms, Smallest, Square;
    var c := Shifted(b, d, 0.0);
    var e := Edges(b.x - b.w / 2.0, b.x + d + b.w / 2.0, b.y - b.h / 2.0, b.y + b.h / 2.0);
    assert Smallest(e, b, c) by { ShiftedSmallest(b, d); }
    IouShifted(b, d);
    DiouOfSmallest(b, c, beta, pow, e);
    assert e.right - e.left == b.w + d && e.bot - e.top == b.h;
    assert b.x - c.x == -d && b.y - c.y == 0.0;
    SquareSymmetric(0.0, d);
    assert Square(0.0) == 0.0 by { NoSquare(); }
  }

  /** The penalty vanishes for boxes with one centre. */
  lemma ConcentricDiou(a: Box, b: Box, beta: real, pow: (real, real) -> real)
    requires HasExtent(a) && a.x == b.x && a.y == b.y && pow(0.0, beta) == 0.0
    ensures BoxDiouNms(a, b, beta, pow) == BoxIou(a, b)
  {
    hide BoxIou, BoxDiouNms, BoxC, Smallest, Square;
    BoxCIsSmallest(a, b);
    DiouOfSmallest(a, b, beta, pow, BoxC(a, b));
    NoSquare();
    var e := BoxC(a, b);
    var diagonal, distance := Square(e.right - e.left) + Square(e.bot - e.top), Square(a.x - b.x) + Square(a.y - b.y);
    assert a.x - b.x == 0.0 && a.y - b.y == 0.0;
    assert distance == 0.0 && distance / diagonal == 0.0;
  }

  lemma NoSquare()
    ensures Square(0.0) == 0.0
  {
  }

  lemma ShiftedSmallest(b: Box, d: real)
    requires 0.0 <= d
    ensures Smallest(Edges(b.x - b.w / 2.0, b.x + d + b.w / 2.0, b.y - b.h / 2.0, b.y + b.h / 2.0), b, Shifted(b, d, 0.0))
  {
  }
}
