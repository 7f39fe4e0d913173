/** What a bilinear resize of a planar picture is, in real arithmetic. */
module PicBilinear {
  import opened Powers

  // ----------------------------------------------------------------------- flat indices

  /** Where pixel (x, y) of channel k lies in the flat data. */
  function Index(w: nat, h: nat, x: nat, y: nat, k: nat): nat {
    (k * h + y) * w + x
  }

  function Size(w: nat, h: nat, c: nat): nat {
    c * h * w
  }

  /** The column, row and channel of a flat index. */
  function Col(w: nat, i: nat): nat
    requires w > 0
  {
    i % w
  }

  function Row(w: nat, h: nat, i: nat): nat
    requires w > 0 && h > 0
  {
    i / w % h
  }

  function Channel(w: nat, h: nat, i: nat): nat
    requires w > 0 && h > 0
  {
    i / w / h
  }

  lemma IndexDecodes(w: nat, h: nat, x: nat, y: nat, k: nat)
    requires x < w && y < h
    ensures var i := Index(w, h, x, y, k); Col(w, i) == x && Row(w, h, i) == y && Channel(w, h, i) == k
  {
    Divided(Index(w, h, x, y, k), w, k * h + y, x);
    Divided(k * h + y, h, k, y);
  }

  lemma DecodedIndex(w: nat, h: nat, c: nat, i: nat)
    requires w > 0 && h > 0 && i < Size(w, h, c)
    ensures Col(w, i) < w && Row(w, h, i) < h && Channel(w, h, i) < c
    ensures Index(w, h, Col(w, i), Row(w, h, i), Channel(w, h, i)) == i
  {
    var q := i / w;
    assert i == q * w + i % w;
    assert q == (q / h) * h + q % h;
    if q >= c * h {
      RowsAscend(c * h, q, w);
    }
    if q / h >= c {
      RowsAscend(c, q / h, h);
    }
  }

  lemma IndexFits(w: nat, h: nat, c: nat, x: nat, y: nat, k: nat)
    requires x < w && y < h && k < c
    ensures Index(w, h, x, y, k) < Size(w, h, c)
  {
    RowsBelow(k, c, h);
    RowsBelow(k * h + y, c * h, w);
  }

  // ------------------------------------------------------------------------------ blending

  /** Pixels of one picture: channel, row, column. */
  datatype Picture = Picture(w: nat, h: nat, c: nat, data: seq<real>) {
    ghost predicate Valid() {
      w > 0 && h > 0 && |data| == Size(w, h, c)
    }
  }

  function Pixel(p: Picture, x: nat, y: nat, k: nat): real
    requires p.Valid() && x < p.w && y < p.h && k < p.c
  {
    IndexFits(p.w, p.h, p.c, x, y, k);
    p.data[Index(p.w, p.h, x, y, k)]
  }

  /** (float)(size - 1) / (target - 1) */
  function Scale(size: nat, target: nat): (s: real)
    requires size >= 1 && target >= 2
    ensures s >= 0.0
  {
    (size - 1) as real / (target - 1) as real
  }

  function Product(x: real, y: real): real {
    x * y
  }

  lemma ProductNotNegative(x: real, y: real)
    requires x >= 0.0 && y >= 0.0
    ensures Product(x, y) >= 0.0 && x * y >= 0.0
  {
  }

  /** The source coordinate of target coordinate t. */
  function Source(size: nat, target: nat, t: nat): (s: real)
    requires size >= 1 && target >= 2
    ensures s >= 0.0
  {
    ProductNotNegative(t as real, Scale(size, target));
    Product(t as real, Scale(size, target))
  }

  function Whole(s: real): nat
    requires s >= 0.0
  {
    s.Floor
  }

  function Fraction(s: real): (d: real)
    requires s >= 0.0
    ensures 0.0 <= d < 1.0
  {
    s - s.Floor as real
  }

  function Blend(a: real, b: real, d: real): real {
    (1.0 - d) * a + d * b
  }

  lemma QuotientTimes(n: real, m: real)
    requires m > 0.0
    ensures m * (n / m) == n
  {
  }

  lemma LastSource(size: nat, target: nat)
    requires size >= 1 && target >= 2
    ensures Source(size, target, target - 1) == (size - 1) as real
  {
    QuotientTimes((size - 1) as real, (target - 1) as real);
  }

  lemma PositiveFactor(m: real, s: real)
    requires Product(m, s) > 0.0 && s >= 0.0
    ensures s > 0.0
  {
    assert s == 0.0 ==> m * s == 0.0;
  }

  lemma SmallerProduct(u: real, m: real, s: real)
    requires u < m && s > 0.0
    ensures Product(u, s) < Product(m, s)
  {
    var d := m - u;
    assert d * s > 0.0;
    assert m * s == (u + d) * s == u * s + d * s;
  }

  lemma EarlierSource(size: nat, target: nat, t: nat)
    requires size > 1 && target >= 2 && t < target - 1
    ensures Source(size, target, t) < (size - 1) as real
  {
    hide Scale, Product;
    LastSource(size, target);
    PositiveFactor((target - 1) as real, Scale(size, target));
    SmallerProduct(t as real, (target - 1) as real, Scale(size, target));
  }

  lemma OnlySource(target: nat, t: nat)
    requires target >= 2
    ensures Source(1, target, t) == 0.0
  {
    var m := (target - 1) as real;
    assert 0.0 / m * m == 0.0;
  }

  /** Before the last target coordinate both neighbours exist; at the last one the fraction is zero. */
  lemma SourceInBounds(size: nat, target: nat, t: nat)
    requires size >= 1 && target >= 2 && t < target
    ensures t < target - 1 && size > 1 ==> Whole(Source(size, target, t)) + 1 < size
    ensures t == target - 1 ==> Whole(Source(size, target, t)) == size - 1 && Fraction(Source(size, target, t)) == 0.0
    ensures size == 1 ==> Whole(Source(size, target, t)) == 0 && Fraction(Source(size, target, t)) == 0.0
  {
    hide Source, Scale;
    if t == target - 1 {
      LastSource(size, target);
    } else if size > 1 {
      EarlierSource(size, target, t);
    } else {
      OnlySource(target, t);
    }
  }

  lemma BlendIsAtLeast(a: real, b: real, d: real, lo: real)
    requires 0.0 <= d <= 1.0 && lo <= a && lo <= b
    ensures lo <= Blend(a, b, d)
  {
    var u, v, e := a - lo, b - lo, 1.0 - d;
    ProductNotNegative(e, u);
    ProductNotNegative(d, v);
    assert e * a == e * lo + e * u;
    assert d * b == d * lo + d * v;
    assert e * lo == lo - d * lo;
  }

  lemma BlendIsAtMost(a: real, b: real, d: real, hi: real)
    requires 0.0 <= d <= 1.0 && a <= hi && b <= hi
    ensures Blend(a, b, d) <= hi
  {
    var u, v, e := hi - a, hi - b, 1.0 - d;
    ProductNotNegative(e, u);
    ProductNotNegative(d, v);
    assert e * a == e * hi - e * u;
    assert d * b == d * hi - d * v;
    assert e * hi == hi - d * hi;
  }

  /** Row y of the source at target column x. */
  function Across(p: Picture, w: nat, x: nat, y: nat, k: nat): real
    requires p.Valid() && x < w && y < p.h && k < p.c
  {
    if x == w - 1 || p.w == 1 then Pixel(p, p.w - 1, y, k)
    else
      SourceInBounds(p.w, w, x);
      var s := Source(p.w, w, x);
      Blend(Pixel(p, Whole(s), y, k), Pixel(p, Whole(s) + 1, y, k), Fraction(s))
  }

  /** The two-axis blend of the four neighbours. */
  function Bilinear(p: Picture, w: nat, h: nat, x: nat, y: nat, k: nat): real
    requires p.Valid() && h >= 2 && x < w && y < h && k < p.c
  {
    SourceInBounds(p.h, h, y);
    var s := Source(p.h, h, y);
    if y == h - 1 || p.h == 1 then Across(p, w, x, Whole(s), k)
    else Blend(Across(p, w, x, Whole(s), k), Across(p, w, x, Whole(s) + 1, k), Fraction(s))
  }

  ghost predicate ChannelWithin(p: Picture, k: nat, lo: real, hi: real)
    requires p.Valid() && k < p.c
  {
    forall x, y | 0 <= x < p.w && 0 <= y < p.h :: lo <= Pixel(p, x, y, k) <= hi
  }

  lemma AcrossWithin(p: Picture, w: nat, x: nat, y: nat, k: nat, lo: real, hi: real)
    requires p.Valid() && x < w && y < p.h && k < p.c && ChannelWithin(p, k, lo, hi)
    ensures lo <= Across(p, w, x, y, k) <= hi
  {
    hide Pixel, Blend;
    if !(x == w - 1 || p.w == 1) {
      SourceInBounds(p.w, w, x);
      var s := Source(p.w, w, x);
      BlendIsAtLeast(Pixel(p, Whole(s), y, k), Pixel(p, Whole(s) + 1, y, k), Fraction(s), lo);
      BlendIsAtMost(Pixel(p, Whole(s), y, k), Pixel(p, Whole(s) + 1, y, k), Fraction(s), hi);
    }
  }

  /** Every resized value lies between the smallest and the largest value of its channel. */
  lemma BilinearWithin(p: Picture, w: nat, h: nat, x: nat, y: nat, k: nat, lo: real, hi: real)
    requires p.Valid() && h >= 2 && x < w && y < h && k < p.c && ChannelWithin(p, k, lo, hi)
    ensures lo <= Bilinear(p, w, h, x, y, k) <= hi
  {
    hide Across, Blend, Pixel;
    SourceInBounds(p.h, h, y);
    var s := Source(p.h, h, y);
    AcrossWithin(p, w, x, Whole(s), k, lo, hi);
    if !(y == h - 1 || p.h == 1) {
      AcrossWithin(p, w, x, Whole(s) + 1, k, lo, hi);
      BlendIsAtLeast(Across(p, w, x, Whole(s), k), Across(p, w, x, Whole(s) + 1, k), Fraction(s), lo);
      BlendIsAtMost(Across(p, w, x, Whole(s), k), Across(p, w, x, Whole(s) + 1, k), Fraction(s), hi);
    }
  }

  // ---------------------------------------------------------------------------- linear pictures

  /** The linear function with slopes a and b and value e at the origin. */
  function Level(a: real, b: real, e: real, x: real, y: real): real {
    a * x + b * y + e
  }

  ghost predicate IsRamp(p: Picture, k: nat, a: real, b: real, e: real)
    requires p.Valid() && k < p.c
  {
    forall x, y | 0 <= x < p.w && 0 <= y < p.h :: Pixel(p, x, y, k) == Level(a, b, e, x as real, y as real)
  }

  /** Blending two consecutive values of a linear function gives its value in between. */
  lemma BlendOfSteps(c: real, a: real, n: real, d: real)
    ensures Blend(c + a * n, c + a * (n + 1.0), d) == c + a * (n + d)
  {
    assert a * (n + 1.0) == a * n + a;
    assert a * (n + d) == a * n + d * a;
    var low := c + a * n;
    assert (1.0 - d) * low + d * (low + a) == low + d * a;
  }

  lemma BlendOfColumns(a: real, b: real, e: real, s: real, y: real)
    requires s >= 0.0
    ensures Blend(Level(a, b, e, Whole(s) as real, y), Level(a, b, e, (Whole(s) + 1) as real, y), Fraction(s))
         == Level(a, b, e, s, y)
  {
    hide Blend;
    var n, d, c := Whole(s) as real, Fraction(s), b * y + e;
    BlendOfSteps(c, a, n, d);
    assert (Whole(s) + 1) as real == n + 1.0 && n + d == s;
    assert Level(a, b, e, n, y) == c + a * n;
    assert Level(a, b, e, n + 1.0, y) == c + a * (n + 1.0);
  }

  lemma BlendOfRows(a: real, b: real, e: real, x: real, s: real)
    requires s >= 0.0
    ensures Blend(Level(a, b, e, x, Whole(s) as real), Level(a, b, e, x, (Whole(s) + 1) as real), Fraction(s))
         == Level(a, b, e, x, s)
  {
    hide Blend;
    var n, d, c := Whole(s) as real, Fraction(s), a * x + e;
    BlendOfSteps(c, b, n, d);
    assert (Whole(s) + 1) as real == n + 1.0 && n + d == s;
    assert Level(a, b, e, x, n) == c + b * n;
    assert Level(a, b, e, x, n + 1.0) == c + b * (n + 1.0);
  }

  lemma AcrossRamp(p: Picture, w: nat, x: nat, y: nat, k: nat, a: real, b: real, e: real)
    requires p.Valid() && w >= 2 && x < w && y < p.h && k < p.c && IsRamp(p, k, a, b, e)
    ensures Across(p, w, x, y, k) == Level(a, b, e, Source(p.w, w, x), y as real)
  {
    hide Pixel, Blend, Source, Level;
    SourceInBounds(p.w, w, x);
    var s := Source(p.w, w, x);
    if x == w - 1 || p.w == 1 {
      assert s == (p.w - 1) as real;
    } else {
      BlendOfColumns(a, b, e, s, y as real);
    }
  }

  /** Resizing reproduces every linear picture exactly, sampled at the source coordinates. */
  lemma BilinearRamp(p: Picture, w: nat, h: nat, x: nat, y: nat, k: nat, a: real, b: real, e: real)
    requires p.Valid() && w >= 2 && h >= 2 && x < w && y < h && k < p.c && IsRamp(p, k, a, b, e)
    ensures Bilinear(p, w, h, x, y, k) == Level(a, b, e, Source(p.w, w, x), Source(p.h, h, y))
  {
    hide Pixel, Blend, Source, Across, Level, IsRamp;
    SourceInBounds(p.h, h, y);
    var s, u := Source(p.h, h, y), Source(p.w, w, x);
    AcrossRamp(p, w, x, Whole(s), k, a, b, e);
    if y == h - 1 || p.h == 1 {
      assert s == Whole(s) as real;
    } else {
      AcrossRamp(p, w, x, Whole(s) + 1, k, a, b, e);
      BlendOfRows(a, b, e, u, s);
    }
  }
}
