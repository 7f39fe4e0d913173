/** From the network output to detections: the counting pass and the filling pass. */
module YoloBoxes {
  import opened BoxGeometry
  import opened YoloNms

  /** Floats of one anchor box: x, y, w, h, objectness and 80 class scores. */
  const ONE_CHANNEL := 85

  datatype Layer = Layer(netH: nat, netW: nat, netC: nat, outputSize: nat, gridBoxNum: nat, mask: seq<nat>)

  /** The configured network and the floats it put out. */
  datatype Net = Net(layers: seq<Layer>, classNum: nat, thresh: real, maxBoxNum: nat,
                     anchors: seq<int>, fpgaW: nat, fpgaH: nat, data: seq<real>)

  function Cells(l: Layer): nat {
    l.netW * l.netH
  }

  function GetIndex2(n: nat, loc: nat, fullChannel: nat, oneChannel: nat, index: nat): nat {
    loc * fullChannel + n * oneChannel + index
  }

  predicate LayerFits(net: Net, l: Layer) {
    && l.gridBoxNum * ONE_CHANNEL <= l.netC
    && Cells(l) * l.netC * 4 <= l.outputSize
    && |l.mask| == l.gridBoxNum
    && forall n | 0 <= n < |l.mask| :: 2 * l.mask[n] + 1 < |net.anchors|
  }

  /** Where the output of layer i starts, in floats. */
  function Base(net: Net, i: nat): nat
    requires i <= |net.layers|
  {
    if i == 0 then 0 else Base(net, i - 1) + net.layers[i - 1].outputSize / 4
  }

  ghost predicate NetFits(net: Net) {
    && net.classNum <= 80
    && net.fpgaW != 0 && net.fpgaH != 0
    && (forall l | l in net.layers :: LayerFits(net, l))
    && Base(net, |net.layers|) <= |net.data|
  }

  /** Anchor n of cell j of layer i. */
  datatype Place = Place(i: nat, j: nat, n: nat)

  predicate Exists(net: Net, p: Place) {
    p.i < |net.layers| && p.j < Cells(net.layers[p.i]) && p.n < net.layers[p.i].gridBoxNum
  }

  function Offset(net: Net, p: Place, entry: nat): nat
    requires Exists(net, p)
  {
    Base(net, p.i) + GetIndex2(p.n, p.j, net.layers[p.i].netC, ONE_CHANNEL, entry)
  }

  lemma {:induction false} BasesAscend(net: Net, i: nat, i': nat)
    requires i <= i' <= |net.layers|
    ensures Base(net, i) <= Base(net, i')
    decreases i'
  {
    if i < i' {
      BasesAscend(net, i, i' - 1);
    }
  }

  lemma IndexFits(n: nat, j: nat, cells: nat, c: nat, grid: nat, entry: nat)
    requires j < cells && n < grid && entry < ONE_CHANNEL && grid * ONE_CHANNEL <= c
    ensures j * c + n * ONE_CHANNEL + entry < cells * c
  {
    assert (j + 1) * c <= cells * c;
  }

  /** Every index a pass reads stays inside its layer. */
  lemma OffsetStaysInLayer(net: Net, p: Place, entry: nat)
    requires NetFits(net) && Exists(net, p) && entry < ONE_CHANNEL
    ensures Base(net, p.i) <= Offset(net, p, entry) < Base(net, p.i + 1) <= |net.data|
  {
    var l := net.layers[p.i];
    assert l in net.layers && LayerFits(net, l);
    IndexFits(p.n, p.j, Cells(l), l.netC, l.gridBoxNum, entry);
    BasesAscend(net, p.i + 1, |net.layers|);
  }

  function At(net: Net, p: Place, entry: nat): real
    requires NetFits(net) && Exists(net, p) && entry < ONE_CHANNEL
  {
    OffsetStaysInLayer(net, p, entry);
    net.data[Offset(net, p, entry)]
  }

  predicate Hit(net: Net, p: Place)
    requires NetFits(net) && Exists(net, p)
  {
    At(net, p, 4) > net.thresh
  }

  // ------------------------------------------------------------------ hits, cell by cell

  function AnchorHits(net: Net, i: nat, j: nat, n: nat): (places: seq<Place>)
    requires NetFits(net) && i < |net.layers| && j < Cells(net.layers[i]) && n <= net.layers[i].gridBoxNum
    ensures forall p | p in places :: Exists(net, p) && Hit(net, p)
  {
    if n == 0 then []
    else AnchorHits(net, i, j, n - 1) + if Hit(net, Place(i, j, n - 1)) then [Place(i, j, n - 1)] else []
  }

  /** The hits of the first n anchors of the first j cells, in cell order. */
  function CellHits(net: Net, i: nat, j: nat, n: nat): (places: seq<Place>)
    requires NetFits(net) && i < |net.layers| && j <= Cells(net.layers[i]) && n <= net.layers[i].gridBoxNum
    ensures forall p | p in places :: Exists(net, p) && Hit(net, p)
  {
    if j == 0 then [] else CellHits(net, i, j - 1, n) + AnchorHits(net, i, j - 1, n)
  }

  /** All hits of the first i layers: layer, then cell, then anchor. */
  function LayerHits(net: Net, i: nat): (places: seq<Place>)
    requires NetFits(net) && i <= |net.layers|
    ensures forall p | p in places :: Exists(net, p) && Hit(net, p)
  {
    if i == 0 then []
    else LayerHits(net, i - 1) + CellHits(net, i - 1, Cells(net.layers[i - 1]), net.layers[i - 1].gridBoxNum)
  }

  function AllHits(net: Net): (places: seq<Place>)
    requires NetFits(net)
    ensures forall p | p in places :: Exists(net, p) && Hit(net, p)
  {
    LayerHits(net, |net.layers|)
  }

  /** The hits of one anchor in the first j cells. */
  function ColumnCount(net: Net, i: nat, n: nat, j: nat): nat
    requires NetFits(net) && i < |net.layers| && n < net.layers[i].gridBoxNum && j <= Cells(net.layers[i])
  {
    if j == 0 then 0 else ColumnCount(net, i, n, j - 1) + if Hit(net, Place(i, j - 1, n)) then 1 else 0
  }

  /** Counting anchor by anchor or cell by cell gives the same number. */
  lemma {:induction false} CountsAgree(net: Net, i: nat, j: nat, n: nat)
    requires NetFits(net) && i < |net.layers| && j <= Cells(net.layers[i]) && n < net.layers[i].gridBoxNum
    ensures |CellHits(net, i, j, n + 1)| == |CellHits(net, i, j, n)| + ColumnCount(net, i, n, j)
  {
    hide Hit, NetFits, Cells, AnchorHits, CellHits, ColumnCount;
    NoCells(net, i, n);
    if j > 0 {
      CountsAgree(net, i, j - 1, n);
      OneMoreAnchor(net, i, j - 1, n);
      OneMoreCell(net, i, j - 1, n);
      OneMoreCell(net, i, j - 1, n + 1);
      OneMoreInColumn(net, i, n, j - 1);
    }
  }

  lemma NoCells(net: Net, i: nat, n: nat)
    requires NetFits(net) && i < |net.layers| && n < net.layers[i].gridBoxNum
    ensures CellHits(net, i, 0, n + 1) == CellHits(net, i, 0, n) == [] && ColumnCount(net, i, n, 0) == 0
  {
    hide NetFits;
  }

  lemma OneMoreCell(net: Net, i: nat, j: nat, n: nat)
    requires NetFits(net) && i < |net.layers| && j < Cells(net.layers[i]) && n <= net.layers[i].gridBoxNum
    ensures CellHits(net, i, j + 1, n) == CellHits(net, i, j, n) + AnchorHits(net, i, j, n)
  {
    hide NetFits, Cells, AnchorHits;
  }

  lemma OneMoreInColumn(net: Net, i: nat, n: nat, j: nat)
    requires NetFits(net) && i < |net.layers| && n < net.layers[i].gridBoxNum && j < Cells(net.layers[i])
    ensures ColumnCount(net, i, n, j + 1) == ColumnCount(net, i, n, j) + if Hit(net, Place(i, j, n)) then 1 else 0
  {
    hide NetFits, Cells, Hit;
  }

  lemma OneMoreAnchor(net: Net, i: nat, j: nat, n: nat)
    requires NetFits(net) && i < |net.layers| && j < Cells(net.layers[i]) && n < net.layers[i].gridBoxNum
    ensures |AnchorHits(net, i, j, n + 1)| == |AnchorHits(net, i, j, n)| + if Hit(net, Place(i, j, n)) then 1 else 0
  {
    hide Hit, NetFits, Cells;
  }

  lemma {:induction false} NoAnchorNoHit(net: Net, i: nat, j: nat)
    requires NetFits(net) && i < |net.layers| && j <= Cells(net.layers[i])
    ensures CellHits(net, i, j, 0) == []
  {
    hide Hit, NetFits, Cells;
    if j > 0 {
      NoAnchorNoHit(net, i, j - 1);
    }
  }

  function AtMost(n: nat, limit: nat): nat {
    if n > limit then limit else n
  }

  /** makeNetworkBoxes: layer, then anchor, then cell. */
  method MakeNetworkBoxes(net: Net) returns (num: nat)
    requires NetFits(net)
    ensures num == AtMost(|AllHits(net)|, net.maxBoxNum)
  {
    hide NetFits, Hit, CellHits, LayerHits;
    var boxNum := 0;
    assert LayerHits(net, 0) == [] by { NoLayerNoHit(net); }
    for i := 0 to |net.layers|
      invariant boxNum == |LayerHits(net, i)|
    {
      var l := net.layers[i];
      NoAnchorNoHit(net, i, Cells(l));
      for n := 0 to l.gridBoxNum
        invariant boxNum == |LayerHits(net, i)| + |CellHits(net, i, Cells(l), n)|
      {
        for j := 0 to Cells(l)
          invariant boxNum == |LayerHits(net, i)| + |CellHits(net, i, Cells(l), n)| + ColumnCount(net, i, n, j)
        {
          if At(net, Place(i, j, n), 4) > net.thresh {
            boxNum := boxNum + 1;
          }
          assert Hit(net, Place(i, j, n)) <==> At(net, Place(i, j, n), 4) > net.thresh by {
            HitIsAboveThreshold(net, Place(i, j, n));
          }
        }
        CountsAgree(net, i, Cells(l), n);
      }
      LayerHitsGrow(net, i);
    }
    num := if boxNum > net.maxBoxNum then net.maxBoxNum else boxNum;
  }

  lemma NoLayerNoHit(net: Net)
    requires NetFits(net)
    ensures LayerHits(net, 0) == []
  {
  }

  lemma HitIsAboveThreshold(net: Net, p: Place)
    requires NetFits(net) && Exists(net, p)
    ensures Hit(net, p) <==> At(net, p, 4) > net.thresh
  {
  }

  lemma LayerHitsGrow(net: Net, i: nat)
    requires NetFits(net) && i < |net.layers|
    ensures LayerHits(net, i + 1)
         == LayerHits(net, i) + CellHits(net, i, Cells(net.layers[i]), net.layers[i].gridBoxNum)
  {
  }

  // --------------------------------------------------------------------- how many at most

  /** The anchor boxes of the first i layers. */
  function Places(net: Net, i: nat): nat
    requires i <= |net.layers|
  {
    if i == 0 then 0 else Places(net, i - 1) + Cells(net.layers[i - 1]) * net.layers[i - 1].gridBoxNum
  }

  ghost predicate AllHit(net: Net)
    requires NetFits(net)
  {
    forall p | Exists(net, p) :: Hit(net, p)
  }

  lemma {:induction false} AnchorHitsAtMost(net: Net, i: nat, j: nat, n: nat)
    requires NetFits(net) && i < |net.layers| && j < Cells(net.layers[i]) && n <= net.layers[i].gridBoxNum
    ensures |AnchorHits(net, i, j, n)| <= n
    ensures AllHit(net) ==> |AnchorHits(net, i, j, n)| == n
  {
    hide NetFits, Hit, Cells;
    if n > 0 {
      AnchorHitsAtMost(net, i, j, n - 1);
      OneMoreAnchor(net, i, j, n - 1);
      assert Exists(net, Place(i, j, n - 1));
    }
  }

  lemma {:induction false} CellHitsAtMost(net: Net, i: nat, j: nat, n: nat)
    requires NetFits(net) && i < |net.layers| && j <= Cells(net.layers[i]) && n <= net.layers[i].gridBoxNum
    ensures |CellHits(net, i, j, n)| <= j * n
    ensures AllHit(net) ==> |CellHits(net, i, j, n)| == j * n
  {
    hide NetFits, Cells, AnchorHits, AllHit;
    if j > 0 {
      CellHitsAtMost(net, i, j - 1, n);
      AnchorHitsAtMost(net, i, j - 1, n);
      assert j * n == (j - 1) * n + n;
    }
  }

  /** There are at most as many hits as places, and as many if every place is one. */
  lemma {:induction false} HitsAtMostPlaces(net: Net, i: nat)
    requires NetFits(net) && i <= |net.layers|
    ensures |LayerHits(net, i)| <= Places(net, i)
    ensures AllHit(net) ==> |LayerHits(net, i)| == Places(net, i)
  {
    hide NetFits, Cells, CellHits, AllHit;
    if i > 0 {
      var l := net.layers[i - 1];
      HitsAtMostPlaces(net, i - 1);
      CellHitsAtMost(net, i - 1, Cells(l), l.gridBoxNum);
    }
  }

  // ------------------------------------------------------------------------- detections

  /** x / (1 - x); a quotient by zero is no real number and is left at 0. */
  function Odds(x: real): real {
    if x == 1.0 then 0.0 else x / (1.0 - x)
  }

  /** getYoloBox2 at column col and row row. */
  function YoloBox(net: Net, p: Place, col: int, row: int): Box
    requires NetFits(net) && Exists(net, p)
  {
    var l := net.layers[p.i];
    assert l in net.layers && LayerFits(net, l);
    CellsPositive(l, p.j);
    Box((col as real + At(net, p, 0)) / l.netW as real,
        (row as real + At(net, p, 1)) / l.netH as real,
        Odds(At(net, p, 2)) * net.anchors[2 * l.mask[p.n]] as real / net.fpgaW as real,
        Odds(At(net, p, 3)) * net.anchors[2 * l.mask[p.n] + 1] as real / net.fpgaH as real)
  }

  lemma CellsPositive(l: Layer, j: nat)
    requires j < Cells(l)
    ensures l.netW > 0 && l.netH > 0
  {
  }

  /** The score of class k: zero unless it exceeds the threshold. */
  function ClassScore(net: Net, p: Place, k: nat): (score: real)
    requires NetFits(net) && Exists(net, p) && k < net.classNum
    ensures score == 0.0 || score > net.thresh
  {
    var prob := At(net, p, 4) * At(net, p, 5 + k);
    if prob > net.thresh then prob else 0.0
  }

  /** The detection of one place: its box, its objectness and its class scores. */
  function DetectionOf(net: Net, p: Place): (d: Detection)
    requires NetFits(net) && Exists(net, p)
    ensures |d.prob| == net.classNum && d.objectness == At(net, p, 4)
  {
    var l := net.layers[p.i];
    CellsPositive(l, p.j);
    Detection(YoloBox(net, p, p.j % l.netH, p.j / l.netW),
              seq(net.classNum, k requires 0 <= k < net.classNum => ClassScore(net, p, k)),
              At(net, p, 4), 0)
  }

  /** The column j % net_h is the column of cell j for every cell exactly if the grid is square. */
  lemma ColumnIsRightIffSquare(l: Layer)
    requires Cells(l) > 0
    ensures (forall j | 0 <= j < Cells(l) :: j % l.netH == j % l.netW) <==> l.netH == l.netW
  {
    CellsPositive(l, 0);
    var side := if l.netW < l.netH then l.netW else l.netH;
    hide Cells;
    if l.netH != l.netW {
      SideTellsColumnsApart(l);
      assert 0 <= side < Cells(l) && side % l.netH != side % l.netW;
    }
  }

  lemma SideTellsColumnsApart(l: Layer)
    requires l.netH > 0 && l.netW > 0 && l.netH != l.netW
    ensures var side := if l.netW < l.netH then l.netW else l.netH;
            side < Cells(l) && side % l.netH != side % l.netW
  {
    if l.netW < l.netH {
      Remainders(l.netW, l.netH);
    } else {
      Remainders(l.netH, l.netW);
    }
  }

  lemma Remainders(small: nat, large: nat)
    requires 0 < small < large
    ensures small % large == small && small % small == 0 && small < small * large
  {
    SmallerThanProduct(small, large);
  }

  lemma SmallerThanProduct(small: nat, large: nat)
    requires 0 < small && 1 < large
    ensures small < small * large
  {
  }

  /** The places seen before anchor n of cell j of layer i, in the order of the filling pass. */
  function Seen(net: Net, i: nat, j: nat, n: nat): (places: seq<Place>)
    requires NetFits(net) && i < |net.layers| && j < Cells(net.layers[i]) && n <= net.layers[i].gridBoxNum
    ensures forall p | p in places :: Exists(net, p) && Hit(net, p)
  {
    LayerHits(net, i) + CellHits(net, i, j, net.layers[i].gridBoxNum) + AnchorHits(net, i, j, n)
  }

  lemma {:induction false} AnchorsArePrefix(net: Net, i: nat, j: nat, n: nat, n': nat)
    requires NetFits(net) && i < |net.layers| && j < Cells(net.layers[i]) && n <= n' <= net.layers[i].gridBoxNum
    ensures AnchorHits(net, i, j, n) <= AnchorHits(net, i, j, n')
    decreases n'
  {
    hide Hit, NetFits, Cells;
    if n < n' {
      AnchorsArePrefix(net, i, j, n, n' - 1);
    }
  }

  lemma {:induction false} CellsArePrefix(net: Net, i: nat, j: nat, j': nat, n: nat)
    requires NetFits(net) && i < |net.layers| && j <= j' <= Cells(net.layers[i]) && n <= net.layers[i].gridBoxNum
    ensures CellHits(net, i, j, n) <= CellHits(net, i, j', n)
    decreases j'
  {
    hide Hit, NetFits, Cells, AnchorHits;
    if j < j' {
      CellsArePrefix(net, i, j, j' - 1, n);
    }
  }

  lemma {:induction false} LayersArePrefix(net: Net, i: nat, i': nat)
    requires NetFits(net) && i <= i' <= |net.layers|
    ensures LayerHits(net, i) <= LayerHits(net, i')
    decreases i'
  {
    hide Hit, NetFits, CellHits;
    if i < i' {
      LayersArePrefix(net, i, i' - 1);
    }
  }

  lemma PrefixOfSum<T>(a: seq<T>, b: seq<T>, b': seq<T>)
    requires b <= b'
    ensures a + b <= a + b'
  {
  }

  lemma SeenIsPrefix(net: Net, i: nat, j: nat, n: nat)
    requires NetFits(net) && i < |net.layers| && j < Cells(net.layers[i]) && n <= net.layers[i].gridBoxNum
    ensures Seen(net, i, j, n) <= AllHits(net)
  {
    hide Hit, NetFits, Cells, AnchorHits;
    var grid := net.layers[i].gridBoxNum;
    var cells := Cells(net.layers[i]);
    AnchorsArePrefix(net, i, j, n, grid);
    CellsArePrefix(net, i, j + 1, cells, grid);
    LayersArePrefix(net, i + 1, |net.layers|);
    var row := CellHits(net, i, j, grid) + AnchorHits(net, i, j, grid);
    assert CellHits(net, i, j, grid) + AnchorHits(net, i, j, n) <= row;
    assert row <= CellHits(net, i, cells, grid);
    hide CellHits;
    PrefixOfSum(LayerHits(net, i), CellHits(net, i, j, grid) + AnchorHits(net, i, j, n), CellHits(net, i, cells, grid));
    assert Seen(net, i, j, n) == LayerHits(net, i) + (CellHits(net, i, j, grid) + AnchorHits(net, i, j, n));
  }

  /** Every hit is found. */
  lemma EveryHitIsFound(net: Net, p: Place)
    requires NetFits(net) && Exists(net, p) && Hit(net, p)
    ensures p in AllHits(net)
  {
    hide NetFits, Hit;
    SeenGrows(net, p);
    SeenIsPrefix(net, p.i, p.j, p.n + 1);
    var s := Seen(net, p.i, p.j, p.n + 1);
    assert s[|s| - 1] == p;
  }

  /** Layer, then cell, then anchor. */
  predicate Precedes(p: Place, q: Place) {
    p.i < q.i || (p.i == q.i && (p.j < q.j || (p.j == q.j && p.n < q.n)))
  }

  predicate Ascending(places: seq<Place>) {
    forall x, y | 0 <= x < y < |places| :: Precedes(places[x], places[y])
  }

  lemma JoinAscending(a: seq<Place>, b: seq<Place>)
    requires Ascending(a) && Ascending(b)
    requires forall p, q | p in a && q in b :: Precedes(p, q)
    ensures Ascending(a + b)
  {
  }

  lemma {:induction false} AnchorHitsAscend(net: Net, i: nat, j: nat, n: nat)
    requires NetFits(net) && i < |net.layers| && j < Cells(net.layers[i]) && n <= net.layers[i].gridBoxNum
    ensures Ascending(AnchorHits(net, i, j, n))
    ensures forall p | p in AnchorHits(net, i, j, n) :: p.i == i && p.j == j && p.n < n
  {
    hide NetFits, Hit, Cells, Exists;
    if n > 0 {
      AnchorHitsAscend(net, i, j, n - 1);
    }
  }

  lemma {:induction false} CellHitsAscend(net: Net, i: nat, j: nat, n: nat)
    requires NetFits(net) && i < |net.layers| && j <= Cells(net.layers[i]) && n <= net.layers[i].gridBoxNum
    ensures Ascending(CellHits(net, i, j, n))
    ensures forall p | p in CellHits(net, i, j, n) :: p.i == i && p.j < j
  {
    hide NetFits, Hit, Cells, Exists, AnchorHits, Ascending;
    if j > 0 {
      CellHitsAscend(net, i, j - 1, n);
      AnchorHitsAscend(net, i, j - 1, n);
      JoinAscending(CellHits(net, i, j - 1, n), AnchorHits(net, i, j - 1, n));
    } else {
      assert Ascending([]) by { NothingAscends(); }
    }
  }

  lemma NothingAscends()
    ensures Ascending([])
  {
  }

  /** No hit is found twice: the filling pass visits the places in ascending order. */
  lemma {:induction false} HitsAscend(net: Net, i: nat)
    requires NetFits(net) && i <= |net.layers|
    ensures Ascending(LayerHits(net, i))
    ensures var hits := LayerHits(net, i); forall x, y | 0 <= x < |hits| && 0 <= y < |hits| && hits[x] == hits[y] :: x == y
    ensures forall p | p in LayerHits(net, i) :: p.i < i
  {
    hide NetFits, Hit, Cells, Exists, CellHits, Ascending;
    if i > 0 {
      var l := net.layers[i - 1];
      HitsAscend(net, i - 1);
      CellHitsAscend(net, i - 1, Cells(l), l.gridBoxNum);
      JoinAscending(LayerHits(net, i - 1), CellHits(net, i - 1, Cells(l), l.gridBoxNum));
    } else {
      NothingAscends();
    }
    AscendingNeverRepeats(LayerHits(net, i));
  }

  lemma AscendingNeverRepeats(places: seq<Place>)
    requires Ascending(places)
    ensures forall x, y | 0 <= x < |places| && 0 <= y < |places| && places[x] == places[y] :: x == y
  {
  }

  /** count places were found, and dets holds their detections as far as there is room. */
  predicate Filled(net: Net, dets: seq<Detection>, places: seq<Place>, count: nat)
    requires NetFits(net)
  {
    && count == AtMost(|places|, net.maxBoxNum)
    && count <= |dets|
    && forall x | 0 <= x < count :: Exists(net, places[x]) && dets[x] == DetectionOf(net, places[x])
  }

  /** The filling of one cell's anchor: a hit is written while there is room. */
  method FillPlace(dets: array<Detection>, net: Net, p: Place, count: nat, ghost seen: seq<Place>) returns (count': nat)
    requires NetFits(net) && Exists(net, p) && Filled(net, dets[..], seen, count)
    requires Hit(net, p) && count < net.maxBoxNum ==> count < dets.Length
    modifies dets
    ensures Filled(net, dets[..], seen + if Hit(net, p) then [p] else [], count')
  {
    hide NetFits, Exists, DetectionOf;
    var objectness := At(net, p, 4);
    count' := count;
    if objectness > net.thresh && count < net.maxBoxNum {
      dets[count'] := DetectionOf(net, p);
      count' := count' + 1;
    }
  }

  lemma SeenGrows(net: Net, p: Place)
    requires NetFits(net) && Exists(net, p)
    ensures Seen(net, p.i, p.j, p.n + 1) == Seen(net, p.i, p.j, p.n) + if Hit(net, p) then [p] else []
  {
    hide Hit, NetFits, CellHits, LayerHits;
  }

  lemma RoomForHit(net: Net, p: Place)
    requires NetFits(net) && Exists(net, p) && Hit(net, p)
    ensures |Seen(net, p.i, p.j, p.n)| < |AllHits(net)|
  {
    hide NetFits, Hit;
    SeenGrows(net, p);
    SeenIsPrefix(net, p.i, p.j, p.n + 1);
  }

  lemma FilledCount(net: Net, dets: seq<Detection>, places: seq<Place>, count: nat)
    requires NetFits(net) && Filled(net, dets, places, count)
    ensures count == AtMost(|places|, net.maxBoxNum)
  {
  }

  /** All anchors of one cell. */
  method FillCell(dets: array<Detection>, net: Net, i: nat, j: nat, count: nat) returns (count': nat)
    requires NetFits(net) && dets.Length == AtMost(|AllHits(net)|, net.maxBoxNum)
    requires i < |net.layers| && j < Cells(net.layers[i])
    requires Filled(net, dets[..], Seen(net, i, j, 0), count)
    modifies dets
    ensures Filled(net, dets[..], Seen(net, i, j, net.layers[i].gridBoxNum), count')
  {
    count' := count;
    hide NetFits, Hit, DetectionOf, Filled, Seen, LayerHits, CellHits, AnchorHits, Cells, AllHits;
    for n := 0 to net.layers[i].gridBoxNum
      invariant Filled(net, dets[..], Seen(net, i, j, n), count')
    {
      var p := Place(i, j, n);
      SeenGrows(net, p);
      FilledCount(net, dets[..], Seen(net, i, j, n), count');
      if Hit(net, p) {
        RoomForHit(net, p);
      }
      count' := FillPlace(dets, net, p, count', Seen(net, i, j, n));
    }
  }

  lemma SeenAtEnds(net: Net, i: nat, j: nat)
    requires NetFits(net) && i < |net.layers| && j < Cells(net.layers[i])
    ensures var grid := net.layers[i].gridBoxNum;
            && Seen(net, i, j, 0) == LayerHits(net, i) + CellHits(net, i, j, grid)
            && Seen(net, i, j, grid) == LayerHits(net, i) + CellHits(net, i, j + 1, grid)
  {
    hide Hit, NetFits, LayerHits, Cells;
    assert AnchorHits(net, i, j, 0) == [];
  }

  /** fillNetworkBoxes without the final letterbox correction: layer, then cell, then anchor. */
  method FillNetworkBoxes(dets: array<Detection>, net: Net) returns (count: nat)
    requires NetFits(net) && dets.Length == AtMost(|AllHits(net)|, net.maxBoxNum)
    modifies dets
    ensures count == dets.Length
    ensures forall x | 0 <= x < dets.Length :: dets[x] == DetectionOf(net, AllHits(net)[x])
  {
    hide NetFits, Exists, Hit, DetectionOf, AnchorHits, CellHits, LayerHits, Seen;
    NoLayerNoHit(net);
    count := 0;
    for i := 0 to |net.layers|
      invariant Filled(net, dets[..], LayerHits(net, i), count)
    {
      var l := net.layers[i];
      NoCellNoHit(net, i, l.gridBoxNum);
      for j := 0 to Cells(l)
        invariant Filled(net, dets[..], LayerHits(net, i) + CellHits(net, i, j, l.gridBoxNum), count)
      {
        SeenAtEnds(net, i, j);
        count := FillCell(dets, net, i, j, count);
      }
      LayerHitsGrow(net, i);
    }
  }

  lemma NoCellNoHit(net: Net, i: nat, n: nat)
    requires NetFits(net) && i < |net.layers| && n <= net.layers[i].gridBoxNum
    ensures CellHits(net, i, 0, n) == []
    ensures LayerHits(net, i) + CellHits(net, i, 0, n) == LayerHits(net, i)
  {
  }
}
