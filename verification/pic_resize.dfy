/** The resize loops: from interleaved bytes to planes, bilinear in two passes, and back to bytes. */
module PicResize {
  import opened Bytes
  import opened Powers
  import opened PicBilinear

  /** Passed around by value, with its samples on the heap. */
  datatype Image = Image(w: nat, h: nat, c: nat, data: array<real>) {
    ghost predicate Valid() {
      w > 0 && h > 0 && data.Length == Size(w, h, c)
    }

    ghost function View(): (p: Picture)
      requires Valid()
      reads data
      ensures p.Valid()
    {
      Picture(w, h, c, data[..])
    }
  }

  // ------------------------------------------------------------------------ specification

  function AcrossAt(p: Picture, w: nat, i: nat): real
    requires p.Valid() && w > 0 && i < Size(w, p.h, p.c)
  {
    DecodedIndex(w, p.h, p.c, i);
    Across(p, w, Col(w, i), Row(w, p.h, i), Channel(w, p.h, i))
  }

  function BilinearAt(p: Picture, w: nat, h: nat, i: nat): real
    requires p.Valid() && w > 0 && h >= 2 && i < Size(w, h, p.c)
  {
    DecodedIndex(w, h, p.c, i);
    Bilinear(p, w, h, Col(w, i), Row(w, h, i), Channel(w, h, i))
  }

  /** The bilinear picture of another size; a picture of the same size is left as it is. */
  function Resized(p: Picture, w: nat, h: nat): (q: Picture)
    requires p.Valid() && w > 0 && h > 0 && (h >= 2 || (p.w == w && p.h == h))
    ensures q.Valid() && q.w == w && q.h == h && q.c == p.c
  {
    if p.w == w && p.h == h then p
    else Picture(w, h, p.c, seq(Size(w, h, p.c), i requires 0 <= i < Size(w, h, p.c) => BilinearAt(p, w, h, i)))
  }

  lemma ByteIndexFits(w: nat, h: nat, x: nat, y: nat, k: nat)
    requires x < w && y < h && k < 3
    ensures y * (w * 3) + x * 3 + k < w * h * 3
  {
    RowsBelow(y, h, w * 3);
    assert h * (w * 3) == w * h * 3;
  }

  /** Sample k of pixel (x, y) in interleaved bytes. */
  function ByteAt(data: seq<Byte>, w: nat, h: nat, x: nat, y: nat, k: nat): Byte
    requires |data| == w * h * 3 && x < w && y < h && k < 3
  {
    ByteIndexFits(w, h, x, y, k);
    data[y * (w * 3) + x * 3 + k]
  }

  function Sample(data: seq<Byte>, w: nat, h: nat, x: nat, y: nat, k: nat): real
    requires |data| == w * h * 3 && x < w && y < h && k < 3
  {
    ByteAt(data, w, h, x, y, k) as real / 255.0
  }

  function SampleAt(data: seq<Byte>, w: nat, h: nat, i: nat): real
    requires w > 0 && h > 0 && |data| == w * h * 3 && i < Size(w, h, 3)
  {
    DecodedIndex(w, h, 3, i);
    Sample(data, w, h, Col(w, i), Row(w, h, i), Channel(w, h, i))
  }

  function Planar(data: seq<Byte>, w: nat, h: nat): (p: Picture)
    requires w > 0 && h > 0 && |data| == w * h * 3
    ensures p.Valid() && p.w == w && p.h == h && p.c == 3
  {
    Picture(w, h, 3, seq(Size(w, h, 3), i requires 0 <= i < Size(w, h, 3) => SampleAt(data, w, h, i)))
  }

  function Rounded(v: real): int {
    (v * 255.0 + 0.5).Floor
  }

  // ----------------------------------------------------------------- division by zero

  /** A float that is a number, infinite, or none. */
  datatype Float = Finite(value: real) | Infinite | NotANumber

  /** (float)n / m for counts, where a divisor of zero gives no number. */
  function Quotient(n: nat, m: nat): Float {
    if m > 0 then Finite(n as real / m as real) else if n > 0 then Infinite else NotANumber
  }

  /** A count times a float. */
  function Times(count: nat, f: Float): Float {
    match f
    case Finite(v) => Finite(count as real * v)
    case Infinite => if count == 0 then NotANumber else Infinite
    case NotANumber => NotANumber
  }

  lemma FiniteSource(size: nat, target: nat, t: nat)
    requires size > 0 && target >= 2
    ensures Times(t, Quotient(size - 1, target - 1)) == Finite(Source(size, target, t))
  {
  }

  /** A target row has a source coordinate that converts to an index if and only if there are two rows. */
  lemma RowDefinedIff(size: nat, target: nat, r: nat)
    requires size > 0 && r < target
    ensures Times(r, Quotient(size - 1, target - 1)).Finite? <==> target >= 2
    ensures target >= 2 ==> Times(r, Quotient(size - 1, target - 1)) == Finite(Source(size, target, r))
    ensures target == 1 ==> Times(r, Quotient(size - 1, target - 1)).NotANumber?
  {
    if target >= 2 {
      FiniteSource(size, target, r);
    }
  }

  // --------------------------------------------------------------------------- flat order

  lemma NextRow(w: nat, h: nat, r: nat, k: nat)
    ensures Index(w, h, 0, r + 1, k) == Index(w, h, 0, r, k) + w
  {
  }

  lemma NextChannel(w: nat, h: nat, k: nat)
    ensures Index(w, h, 0, h, k) == Index(w, h, 0, 0, k + 1)
  {
  }

  lemma WholePicture(w: nat, h: nat, c: nat)
    ensures Index(w, h, 0, 0, 0) == 0 && Index(w, h, 0, 0, c) == Size(w, h, c)
  {
  }

  lemma InRow(w: nat, h: nat, x: nat, r: nat, k: nat)
    ensures Index(w, h, x, r, k) == Index(w, h, 0, r, k) + x
  {
  }

  lemma RowFits(w: nat, h: nat, c: nat, r: nat, k: nat)
    requires r < h && k < c
    ensures Index(w, h, 0, r, k) + w <= Size(w, h, c)
  {
    if w > 0 {
      IndexFits(w, h, c, w - 1, r, k);
    }
  }

  lemma AcrossAtPixel(p: Picture, w: nat, x: nat, y: nat, k: nat)
    requires p.Valid() && x < w && y < p.h && k < p.c
    ensures Index(w, p.h, x, y, k) < Size(w, p.h, p.c)
    ensures AcrossAt(p, w, Index(w, p.h, x, y, k)) == Across(p, w, x, y, k)
  {
    hide Across, Index, Size;
    IndexFits(w, p.h, p.c, x, y, k);
    IndexDecodes(w, p.h, x, y, k);
  }

  // --------------------------------------------------------------------------- pixel access

  function GetPixel(m: Image, x: nat, y: nat, k: nat): (v: real)
    requires m.Valid() && x < m.w && y < m.h && k < m.c
    reads m.data
    ensures v == Pixel(m.View(), x, y, k)
  {
    IndexFits(m.w, m.h, m.c, x, y, k);
    m.data[Index(m.w, m.h, x, y, k)]
  }

  /** Writes outside the image are dropped. */
  method SetPixel(m: Image, x: int, y: int, k: int, val: real)
    requires m.Valid()
    modifies m.data
    ensures 0 <= x < m.w && 0 <= y < m.h && 0 <= k < m.c ==>
              && Index(m.w, m.h, x, y, k) < m.data.Length
              && m.data[..] == old(m.data[..])[Index(m.w, m.h, x, y, k) := val]
    ensures !(0 <= x < m.w && 0 <= y < m.h && 0 <= k < m.c) ==> m.data[..] == old(m.data[..])
  {
    if x < 0 || y < 0 || k < 0 || x >= m.w || y >= m.h || k >= m.c {
      return;
    }
    IndexFits(m.w, m.h, m.c, x, y, k);
    m.data[Index(m.w, m.h, x, y, k)] := val;
  }

  method AddPixel(m: Image, x: nat, y: nat, k: nat, val: real)
    requires m.Valid() && x < m.w && y < m.h && k < m.c
    modifies m.data
    ensures Index(m.w, m.h, x, y, k) < m.data.Length
    ensures m.data[..] == old(m.data[..])[Index(m.w, m.h, x, y, k) := old(GetPixel(m, x, y, k)) + val]
  {
    IndexFits(m.w, m.h, m.c, x, y, k);
    m.data[Index(m.w, m.h, x, y, k)] := m.data[Index(m.w, m.h, x, y, k)] + val;
  }

  method MakeImage(w: nat, h: nat, c: nat) returns (m: Image)
    requires w > 0 && h > 0
    ensures m.Valid() && m.w == w && m.h == h && m.c == c && fresh(m.data)
  {
    var data := new real[Size(w, h, c)];
    m := Image(w, h, c, data);
  }

  method CopyImage(p: Image) returns (copy: Image)
    requires p.Valid()
    ensures copy.Valid() && fresh(copy.data) && copy.View() == p.View()
  {
    copy := MakeImage(p.w, p.h, p.c);
    for i := 0 to p.data.Length
      invariant copy.data[..i] == p.data[..i]
    {
      copy.data[i] := p.data[i];
    }
    assert copy.data[..] == copy.data[..copy.data.Length] == p.data[..p.data.Length] == p.data[..];
  }

  // ------------------------------------------------------------------------------ two passes

  method AcrossValue(im: Image, w: nat, wScale: Float, x: nat, r: nat, k: nat) returns (val: real)
    requires im.Valid() && x < w && r < im.h && k < im.c
    requires wScale == Quotient(im.w - 1, w - 1)
    ensures val == Across(im.View(), w, x, r, k)
  {
    hide Source, Pixel, GetPixel, Blend, Times, Quotient;
    if x == w - 1 || im.w == 1 {
      val := GetPixel(im, im.w - 1, r, k);
    } else {
      SourceInBounds(im.w, w, x);
      FiniteSource(im.w, w, x);
      var sx := Times(x, wScale).value;
      var ix := sx.Floor;
      var dx := sx - ix as real;
      val := Blend(GetPixel(im, ix, r, k), GetPixel(im, ix + 1, r, k), dx);
    }
  }

  /** One row of the horizontal pass. */
  method AcrossRow(im: Image, part: Image, r: nat, k: nat)
    requires im.Valid() && part.Valid() && part.data != im.data
    requires part.h == im.h && part.c == im.c && r < im.h && k < im.c
    modifies part.data
    ensures forall i | 0 <= i < part.data.Length ::
              part.data[i] == if 0 <= i - Index(part.w, im.h, 0, r, k) < part.w then AcrossAt(im.View(), part.w, i)
                              else old(part.data[i])
  {
    hide Across, AcrossAt, Index, Size, Quotient;
    var w := part.w;
    ghost var p, start := im.View(), Index(w, im.h, 0, r, k);
    var wScale := Quotient(im.w - 1, w - 1);
    RowFits(w, im.h, im.c, r, k);
    for x := 0 to w
      invariant forall i | 0 <= i < part.data.Length ::
                  part.data[i] == if 0 <= i - start < x then AcrossAt(p, w, i) else old(part.data[i])
    {
      var val := AcrossValue(im, w, wScale, x, r, k);
      AcrossAtPixel(p, w, x, r, k);
      InRow(w, im.h, x, r, k);
      SetPixel(part, x, r, k, val);
    }
  }

  ghost predicate IsAcross(part: Image, p: Picture)
    reads part.data
  {
    && p.Valid() && part.Valid() && part.h == p.h && part.c == p.c
    && forall i | 0 <= i < part.data.Length :: part.data[i] == AcrossAt(p, part.w, i)
  }

  method AcrossPass(im: Image, w: nat) returns (part: Image)
    requires im.Valid() && w > 0
    ensures part.Valid() && fresh(part.data) && part.w == w && part.h == im.h && part.c == im.c && IsAcross(part, im.View())
  {
    part := MakeImage(w, im.h, im.c);
    ghost var p := im.View();
    for k := 0 to im.c
      invariant im.View() == p
      invariant forall i | 0 <= i < Index(w, im.h, 0, 0, k) && i < part.data.Length :: part.data[i] == AcrossAt(p, w, i)
    {
      for r := 0 to im.h
        invariant im.View() == p
        invariant forall i | 0 <= i < Index(w, im.h, 0, r, k) && i < part.data.Length :: part.data[i] == AcrossAt(p, w, i)
      {
        AcrossRow(im, part, r, k);
        NextRow(w, im.h, r, k);
      }
      NextChannel(w, im.h, k);
    }
  }

  lemma AcrossPixel(part: Image, p: Picture, x: nat, y: nat, k: nat)
    requires IsAcross(part, p) && x < part.w && y < p.h && k < p.c
    ensures GetPixel(part, x, y, k) == Across(p, part.w, x, y, k)
  {
    AcrossAtPixel(p, part.w, x, y, k);
  }

  lemma BilinearAtPixel(p: Picture, w: nat, h: nat, x: nat, y: nat, k: nat)
    requires p.Valid() && x < w && h >= 2 && y < h && k < p.c
    ensures Index(w, h, x, y, k) < Size(w, h, p.c)
    ensures BilinearAt(p, w, h, Index(w, h, x, y, k)) == Bilinear(p, w, h, x, y, k)
  {
    hide Bilinear, Index, Size;
    IndexFits(w, h, p.c, x, y, k);
    IndexDecodes(w, h, x, y, k);
  }

  /** The share of the upper neighbour in a pixel of row r. */
  ghost function UpperShare(p: Picture, w: nat, h: nat, x: nat, r: nat, k: nat): real
    requires p.Valid() && x < w && h >= 2 && r < h && k < p.c
  {
    SourceInBounds(p.h, h, r);
    (1.0 - Fraction(Source(p.h, h, r))) * Across(p, w, x, Whole(Source(p.h, h, r)), k)
  }

  ghost function UpperShareAt(p: Picture, w: nat, h: nat, i: nat): real
    requires p.Valid() && w > 0 && h >= 2 && i < Size(w, h, p.c)
  {
    DecodedIndex(w, h, p.c, i);
    UpperShare(p, w, h, Col(w, i), Row(w, h, i), Channel(w, h, i))
  }

  lemma UpperShareAtPixel(p: Picture, w: nat, h: nat, x: nat, y: nat, k: nat)
    requires p.Valid() && x < w && h >= 2 && y < h && k < p.c
    ensures Index(w, h, x, y, k) < Size(w, h, p.c)
    ensures UpperShareAt(p, w, h, Index(w, h, x, y, k)) == UpperShare(p, w, h, x, y, k)
  {
    hide UpperShare, Index, Size;
    IndexFits(w, h, p.c, x, y, k);
    IndexDecodes(w, h, x, y, k);
  }

  /** In the last row, and for a source of one row, the upper neighbour is everything. */
  lemma UpperShareIsAll(p: Picture, w: nat, h: nat, x: nat, r: nat, k: nat)
    requires p.Valid() && x < w && h >= 2 && r < h && k < p.c && (r == h - 1 || p.h == 1)
    ensures UpperShare(p, w, h, x, r, k) == Bilinear(p, w, h, x, r, k)
  {
    hide Across, Source;
    SourceInBounds(p.h, h, r);
  }

  lemma LowerShareCompletes(p: Picture, w: nat, h: nat, x: nat, r: nat, k: nat)
    requires p.Valid() && x < w && h >= 2 && k < p.c && r < h - 1 && p.h > 1
    ensures var s := Source(p.h, h, r);
      && Whole(s) + 1 < p.h
      && UpperShare(p, w, h, x, r, k) + Fraction(s) * Across(p, w, x, Whole(s) + 1, k) == Bilinear(p, w, h, x, r, k)
  {
    hide Across, Source;
    SourceInBounds(p.h, h, r);
  }

  ghost predicate Rows(p: Picture, part: Image, resized: Image, r: nat, k: nat)
    reads part.data
  {
    && p.Valid() && part.Valid() && part.h == p.h && part.c == p.c && IsAcross(part, p)
    && resized.Valid() && part.data != resized.data
    && resized.w == part.w && resized.h >= 2 && resized.c == part.c && r < resized.h && k < resized.c
  }

  /** Sets row r to the upper neighbour's share. */
  method SetRow(ghost p: Picture, part: Image, resized: Image, r: nat, k: nat, iy: nat, dy: real)
    requires Rows(p, part, resized, r, k)
    requires iy == Whole(Source(p.h, resized.h, r)) && dy == Fraction(Source(p.h, resized.h, r))
    modifies resized.data
    ensures forall i | 0 <= i < resized.data.Length ::
              resized.data[i] == if 0 <= i - Index(resized.w, resized.h, 0, r, k) < resized.w
                                 then UpperShareAt(p, resized.w, resized.h, i)
                                 else old(resized.data[i])
  {
    hide Across, AcrossAt, UpperShareAt, Index, Size, Source, IsAcross;
    var w, h := resized.w, resized.h;
    ghost var start := Index(w, h, 0, r, k);
    SourceInBounds(p.h, h, r);
    RowFits(w, h, p.c, r, k);
    for x := 0 to w
      invariant forall i | 0 <= i < resized.data.Length ::
                  resized.data[i] == if 0 <= i - start < x then UpperShareAt(p, w, h, i) else old(resized.data[i])
    {
      AcrossPixel(part, p, x, iy, k);
      UpperShareAtPixel(p, w, h, x, r, k);
      InRow(w, h, x, r, k);
      var val := (1.0 - dy) * GetPixel(part, x, iy, k);
      SetPixel(resized, x, r, k, val);
    }
  }

  /** Adds the lower neighbour's share to row r. */
  method AddRow(ghost p: Picture, part: Image, resized: Image, r: nat, k: nat, iy: nat, dy: real)
    requires Rows(p, part, resized, r, k) && r < resized.h - 1 && p.h > 1
    requires iy == Whole(Source(p.h, resized.h, r)) && dy == Fraction(Source(p.h, resized.h, r))
    requires forall i | 0 <= i < resized.data.Length && 0 <= i - Index(resized.w, resized.h, 0, r, k) < resized.w ::
               resized.data[i] == UpperShareAt(p, resized.w, resized.h, i)
    modifies resized.data
    ensures forall i | 0 <= i < resized.data.Length ::
              resized.data[i] == if 0 <= i - Index(resized.w, resized.h, 0, r, k) < resized.w
                                 then BilinearAt(p, resized.w, resized.h, i)
                                 else old(resized.data[i])
  {
    hide Across, AcrossAt, Bilinear, BilinearAt, UpperShare, UpperShareAt, Index, Size, Source, IsAcross;
    var w, h := resized.w, resized.h;
    ghost var start := Index(w, h, 0, r, k);
    RowFits(w, h, p.c, r, k);
    for x := 0 to w
      invariant forall i | 0 <= i < resized.data.Length ::
                  resized.data[i] == if 0 <= i - start < x then BilinearAt(p, w, h, i) else old(resized.data[i])
    {
      LowerShareCompletes(p, w, h, x, r, k);
      AcrossPixel(part, p, x, iy + 1, k);
      UpperShareAtPixel(p, w, h, x, r, k);
      BilinearAtPixel(p, w, h, x, r, k);
      InRow(w, h, x, r, k);
      var val := dy * GetPixel(part, x, iy + 1, k);
      AddPixel(resized, x, r, k, val);
    }
  }

  lemma UpperSharesAreAll(p: Picture, w: nat, h: nat, r: nat, k: nat, i: nat)
    requires p.Valid() && w > 0 && h >= 2 && r < h && k < p.c && (r == h - 1 || p.h == 1)
    requires 0 <= i - Index(w, h, 0, r, k) < w && i < Size(w, h, p.c)
    ensures UpperShareAt(p, w, h, i) == BilinearAt(p, w, h, i)
  {
    hide UpperShareAt, BilinearAt, UpperShare, Bilinear, Index, Size;
    var x := i - Index(w, h, 0, r, k);
    InRow(w, h, x, r, k);
    UpperShareAtPixel(p, w, h, x, r, k);
    BilinearAtPixel(p, w, h, x, r, k);
    UpperShareIsAll(p, w, h, x, r, k);
  }

  /** One row of the vertical pass. */
  method DownRow(ghost p: Picture, part: Image, resized: Image, r: nat, k: nat, sy: real)
    requires Rows(p, part, resized, r, k)
    requires sy == Source(p.h, resized.h, r)
    modifies resized.data
    ensures forall i | 0 <= i < resized.data.Length ::
              resized.data[i] == if 0 <= i - Index(resized.w, resized.h, 0, r, k) < resized.w
                                 then BilinearAt(p, resized.w, resized.h, i)
                                 else old(resized.data[i])
  {
    hide Across, AcrossAt, Bilinear, BilinearAt, UpperShare, UpperShareAt, Index, Size, Source, IsAcross;
    var h := resized.h;
    var iy := sy.Floor;
    var dy := sy - iy as real;
    SetRow(p, part, resized, r, k, iy, dy);
    if r == h - 1 || part.h == 1 {
      forall i | 0 <= i < resized.data.Length && 0 <= i - Index(resized.w, h, 0, r, k) < resized.w
        ensures UpperShareAt(p, resized.w, h, i) == BilinearAt(p, resized.w, h, i)
      {
        UpperSharesAreAll(p, resized.w, h, r, k, i);
      }
      return;
    }
    AddRow(p, part, resized, r, k, iy, dy);
  }

  /**
   defined is false when a row coordinate is no number: the program then converts it to an index,
   the model stops. That is so exactly for one target row and another source size.
   */
  method ResizeImage(im: Image, w: nat, h: nat) returns (defined: bool, resized: Image)
    requires im.Valid() && im.c > 0 && w > 0 && h > 0
    ensures resized.Valid() && fresh(resized.data)
    ensures defined <==> h >= 2 || (im.w == w && im.h == h)
    ensures defined ==> resized.View() == Resized(im.View(), w, h)
  {
    hide Index, Size, Source, IsAcross, BilinearAt, Times, Quotient;
    if im.w == w && im.h == h {
      resized := CopyImage(im);
      return true, resized;
    }
    ghost var p := im.View();
    resized := MakeImage(w, h, im.c);
    var part := AcrossPass(im, w);
    var hScale := Quotient(im.h - 1, h - 1);
    WholePicture(w, h, im.c);
    for k := 0 to im.c
      invariant IsAcross(part, p) && (k > 0 ==> h >= 2)
      invariant h >= 2 ==> forall i | 0 <= i < Index(w, h, 0, 0, k) && i < resized.data.Length ::
                  resized.data[i] == BilinearAt(p, w, h, i)
    {
      for r := 0 to h
        invariant IsAcross(part, p) && (k > 0 || r > 0 ==> h >= 2)
        invariant h >= 2 ==> forall i | 0 <= i < Index(w, h, 0, r, k) && i < resized.data.Length ::
                    resized.data[i] == BilinearAt(p, w, h, i)
      {
        RowDefinedIff(im.h, h, r);
        match Times(r, hScale) {
          case Finite(sy) => DownRow(p, part, resized, r, k, sy);
          case _ => return false, resized;
        }
        NextRow(w, h, r, k);
      }
      NextChannel(w, h, k);
    }
    defined := true;
  }

  // ------------------------------------------------------------------------- bytes to planes

  /** A flat index lies in row r of channel k exactly when it decodes to them. */
  lemma InRowIff(w: nat, h: nat, c: nat, i: nat, r: nat, k: nat)
    requires w > 0 && h > 0 && i < Size(w, h, c) && r < h
    ensures 0 <= i - Index(w, h, 0, r, k) < w <==> Row(w, h, i) == r && Channel(w, h, i) == k
  {
    hide Index, Size, Col, Row, Channel;
    DecodedIndex(w, h, c, i);
    InRow(w, h, Col(w, i), Row(w, h, i), Channel(w, h, i));
    var x := i - Index(w, h, 0, r, k);
    if 0 <= x < w {
      InRow(w, h, x, r, k);
      IndexDecodes(w, h, x, r, k);
    }
  }

  lemma SampleAtPixel(data: seq<Byte>, w: nat, h: nat, x: nat, y: nat, k: nat)
    requires |data| == w * h * 3 && x < w && y < h && k < 3
    ensures Index(w, h, x, y, k) < Size(w, h, 3)
    ensures SampleAt(data, w, h, Index(w, h, x, y, k)) == Sample(data, w, h, x, y, k)
  {
    hide Sample, Index, Size;
    IndexFits(w, h, 3, x, y, k);
    IndexDecodes(w, h, x, y, k);
  }

  method MatRow(data: seq<Byte>, im: Image, y: nat, k: nat)
    requires im.Valid() && im.c == 3 && |data| == im.w * im.h * 3 && y < im.h && k < 3
    modifies im.data
    ensures forall i | 0 <= i < im.data.Length ::
              im.data[i] == if Row(im.w, im.h, i) == y && Channel(im.w, im.h, i) == k then SampleAt(data, im.w, im.h, i)
                            else old(im.data[i])
  {
    hide Index, Size, SampleAt, Row, Channel;
    var w, h := im.w, im.h;
    ghost var start := Index(w, h, 0, y, k);
    var step := w * 3;
    RowFits(w, h, 3, y, k);
    for x := 0 to w
      invariant forall i | 0 <= i < im.data.Length ::
                  im.data[i] == if 0 <= i - start < x then SampleAt(data, w, h, i) else old(im.data[i])
    {
      SampleAtPixel(data, w, h, x, y, k);
      ByteIndexFits(w, h, x, y, k);
      InRow(w, h, x, y, k);
      im.data[Index(w, h, x, y, k)] := data[y * step + x * 3 + k] as real / 255.0;
    }
    forall i | 0 <= i < im.data.Length
      ensures 0 <= i - start < w <==> Row(w, h, i) == y && Channel(w, h, i) == k
    {
      InRowIff(w, h, 3, i, y, k);
    }
  }

  method MatToImage(w: nat, h: nat, data: seq<Byte>) returns (im: Image)
    requires w > 0 && h > 0 && |data| == w * h * 3
    ensures im.Valid() && fresh(im.data) && im.View() == Planar(data, w, h)
  {
    hide Index, Size, SampleAt, Row, Channel;
    im := MakeImage(w, h, 3);
    for y := 0 to h
      invariant forall i | 0 <= i < im.data.Length && Row(w, h, i) < y :: im.data[i] == SampleAt(data, w, h, i)
    {
      for k := 0 to 3
        invariant forall i | 0 <= i < im.data.Length && Row(w, h, i) < y :: im.data[i] == SampleAt(data, w, h, i)
        invariant forall i | 0 <= i < im.data.Length && Row(w, h, i) == y && Channel(w, h, i) < k ::
                    im.data[i] == SampleAt(data, w, h, i)
      {
        MatRow(data, im, y, k);
      }
      forall i | 0 <= i < im.data.Length
        ensures Channel(w, h, i) < 3
      {
        DecodedIndex(w, h, 3, i);
      }
    }
    forall i | 0 <= i < im.data.Length
      ensures Row(w, h, i) < h
    {
      DecodedIndex(w, h, 3, i);
    }
  }

  // ------------------------------------------------------------------------- planes to bytes

  /** Byte i of the four-byte pixels: three rounded samples and a zero. */
  function RgbaAt(p: Picture, i: nat): int
    requires p.Valid() && p.c == 3 && i < 4 * (p.w * p.h)
  {
    if i % 4 == 3 then 0
    else
      PlaneIndexFits(p.w, p.h, i / 4, i % 4);
      Rounded(p.data[i % 4 * (p.w * p.h) + i / 4])
  }

  lemma PlaneIndexFits(w: nat, h: nat, j: nat, k: nat)
    requires j < w * h && k < 3
    ensures k * (w * h) + j < Size(w, h, 3)
  {
    assert Size(w, h, 3) == 3 * (w * h);
  }

  ghost predicate UnitRange(p: Picture) {
    forall i | 0 <= i < |p.data| :: 0.0 <= p.data[i] <= 1.0
  }

  lemma RoundedIsByte(v: real)
    requires 0.0 <= v <= 1.0
    ensures 0 <= Rounded(v) < 256
  {
  }

  /** The number of a pixel, row after row. */
  function PixelNumber(w: nat, x: nat, y: nat): nat {
    y * w + x
  }

  lemma PixelNumbers(w: nat, h: nat, x: nat, y: nat)
    ensures PixelNumber(w, 0, 0) == 0 && PixelNumber(w, 0, h) == w * h
    ensures PixelNumber(w, x + 1, y) == PixelNumber(w, x, y) + 1
    ensures PixelNumber(w, w, y) == PixelNumber(w, 0, y + 1)
  {
  }

  /** The pixels in row order, and where each channel's plane keeps them. */
  lemma PlaneIndex(w: nat, h: nat, x: nat, y: nat, k: nat)
    requires x < w && y < h
    ensures PixelNumber(w, x, y) < w * h
    ensures Index(w, h, x, y, k) == k * (w * h) + PixelNumber(w, x, y)
  {
    RowsBelow(y, h, w);
  }

  lemma RgbaOfPixel(p: Picture, x: nat, y: nat, k: nat)
    requires p.Valid() && p.c == 3 && x < p.w && y < p.h && k < 4
    ensures 4 * PixelNumber(p.w, x, y) + k < 4 * (p.w * p.h)
    ensures RgbaAt(p, 4 * PixelNumber(p.w, x, y) + k) == if k == 3 then 0 else Rounded(Pixel(p, x, y, k))
  {
    hide Index, Size, Rounded, PixelNumber;
    PlaneIndex(p.w, p.h, x, y, k);
    var j := PixelNumber(p.w, x, y);
    assert (4 * j + k) / 4 == j && (4 * j + k) % 4 == k;
  }

  method RgbaPixel(p: Image, res: array<Byte>, x: nat, y: nat, num: nat)
    requires p.Valid() && p.c == 3 && UnitRange(p.View()) && x < p.w && y < p.h
    requires res.Length == 4 * (p.w * p.h) && num == 4 * PixelNumber(p.w, x, y)
    modifies res
    ensures num + 4 <= res.Length
    ensures forall i | 0 <= i < res.Length ::
              res[i] == if num <= i < num + 3 then RgbaAt(p.View(), i) else old(res[i])
  {
    hide RgbaAt, Index, Size, Rounded, Pixel, PixelNumber;
    ghost var q := p.View();
    RgbaOfPixel(q, x, y, 3);
    for c := 0 to 3
      invariant p.View() == q
      invariant forall i | 0 <= i < res.Length ::
                  res[i] == if num <= i < num + c then RgbaAt(q, i) else old(res[i])
    {
      var v := GetPixel(p, x, y, c);
      RgbaOfPixel(q, x, y, c);
      assert 0.0 <= v <= 1.0 by {
        InUnitRange(q, x, y, c);
      }
      RoundedIsByte(v);
      res[num + c] := Rounded(v);
    }
  }

  lemma InUnitRange(p: Picture, x: nat, y: nat, k: nat)
    requires p.Valid() && x < p.w && y < p.h && k < p.c && UnitRange(p)
    ensures 0.0 <= Pixel(p, x, y, k) <= 1.0
  {
    IndexFits(p.w, p.h, p.c, x, y, k);
  }

  method RgbaImage(p: Image) returns (res: array<Byte>)
    requires p.Valid() && p.c == 3 && UnitRange(p.View())
    ensures fresh(res) && res.Length == 4 * (p.w * p.h)
    ensures forall i | 0 <= i < res.Length :: res[i] == RgbaAt(p.View(), i)
  {
    hide RgbaAt, UnitRange, Size, PixelNumber;
    PixelNumbers(p.w, p.h, 0, 0);
    res := new Byte[4 * (p.w * p.h)](_ => 0);
    ghost var q := p.View();
    var num := 0;
    for y := 0 to p.h
      invariant p.View() == q && num == 4 * PixelNumber(p.w, 0, y)
      invariant forall i | 0 <= i < res.Length :: res[i] == if i < num then RgbaAt(q, i) else 0
    {
      for x := 0 to p.w
        invariant p.View() == q && num == 4 * PixelNumber(p.w, x, y)
        invariant forall i | 0 <= i < res.Length :: res[i] == if i < num then RgbaAt(q, i) else 0
      {
        RgbaPixel(p, res, x, y, num);
        RgbaOfPixel(q, x, y, 3);
        PixelNumbers(p.w, p.h, x, y);
        num := num + 4;
      }
      PixelNumbers(p.w, p.h, 0, y);
    }
  }

  // --------------------------------------------------------------------------- the whole call

  /** A resized sample stays within any bounds of its channel. */
  lemma ResizedWithin(p: Picture, w: nat, h: nat, x: nat, y: nat, k: nat, lo: real, hi: real)
    requires p.Valid() && x < w && y < h && k < p.c && ChannelWithin(p, k, lo, hi)
    requires h >= 2 || (p.w == w && p.h == h)
    ensures lo <= Pixel(Resized(p, w, h), x, y, k) <= hi
  {
    hide Index, Size, BilinearAt;
    if !(p.w == w && p.h == h) {
      BilinearAtPixel(p, w, h, x, y, k);
      BilinearWithin(p, w, h, x, y, k, lo, hi);
    }
  }

  lemma PlanarPixel(data: seq<Byte>, w: nat, h: nat, x: nat, y: nat, k: nat)
    requires |data| == w * h * 3 && x < w && y < h && k < 3
    ensures Pixel(Planar(data, w, h), x, y, k) == Sample(data, w, h, x, y, k)
  {
    hide Index, Size, SampleAt;
    SampleAtPixel(data, w, h, x, y, k);
  }

  ghost predicate BytesWithin(data: seq<Byte>, w: nat, h: nat, k: nat, lo: Byte, hi: Byte)
    requires |data| == w * h * 3 && k < 3
  {
    forall x, y | 0 <= x < w && 0 <= y < h :: lo <= ByteAt(data, w, h, x, y, k) <= hi
  }

  lemma PlanarWithin(data: seq<Byte>, w: nat, h: nat, k: nat, lo: Byte, hi: Byte)
    requires w > 0 && h > 0 && |data| == w * h * 3 && k < 3 && BytesWithin(data, w, h, k, lo, hi)
    ensures ChannelWithin(Planar(data, w, h), k, lo as real / 255.0, hi as real / 255.0)
  {
    hide Pixel, ByteAt, Planar;
    forall x, y | 0 <= x < w && 0 <= y < h
      ensures lo as real / 255.0 <= Pixel(Planar(data, w, h), x, y, k) <= hi as real / 255.0
    {
      PlanarPixel(data, w, h, x, y, k);
    }
  }

  lemma ResizedInUnitRange(data: seq<Byte>, w: nat, h: nat, dw: nat, dh: nat)
    requires w > 0 && h > 0 && |data| == w * h * 3 && dw > 0 && dh > 0 && (dh >= 2 || (w == dw && h == dh))
    ensures UnitRange(Resized(Planar(data, w, h), dw, dh))
  {
    hide Resized, Planar, Index, Size, Col, Row, Channel;
    var p := Planar(data, w, h);
    var q := Resized(p, dw, dh);
    forall i | 0 <= i < |q.data|
      ensures 0.0 <= q.data[i] <= 1.0
    {
      DecodedIndex(dw, dh, 3, i);
      PlanarWithin(data, w, h, Channel(dw, dh, i), 0, 255);
      ResizedWithin(p, dw, dh, Col(dw, i), Row(dw, dh, i), Channel(dw, dh, i), 0.0, 1.0);
    }
  }

  method ResizeRgbBin(data: seq<Byte>, width: nat, height: nat, dstWidth: nat, dstHeight: nat)
    returns (defined: bool, res: array<Byte>)
    requires width > 0 && height > 0 && |data| == width * height * 3 && dstWidth > 0 && dstHeight > 0
    ensures fresh(res)
    ensures defined <==> dstHeight >= 2 || (width == dstWidth && height == dstHeight)
    ensures defined ==> res.Length == 4 * (dstWidth * dstHeight)
                        && forall i | 0 <= i < res.Length ::
                             res[i] == RgbaAt(Resized(Planar(data, width, height), dstWidth, dstHeight), i)
  {
    hide RgbaAt, Resized, Planar, UnitRange;
    var im := MatToImage(width, height, data);
    var resized;
    defined, resized := ResizeImage(im, dstWidth, dstHeight);
    if defined {
      ResizedInUnitRange(data, width, height, dstWidth, dstHeight);
      res := RgbaImage(resized);
    } else {
      res := new Byte[0];
    }
  }

  lemma RoundedWithin(v: real, lo: Byte, hi: Byte)
    requires lo as real / 255.0 <= v <= hi as real / 255.0
    ensures lo <= Rounded(v) <= hi
  {
  }

  /** At equal size every byte comes back, with a zero after each pixel. */
  lemma EqualSizeKeepsBytes(data: seq<Byte>, w: nat, h: nat, x: nat, y: nat, k: nat)
    requires |data| == w * h * 3 && x < w && y < h && k < 4
    ensures 4 * PixelNumber(w, x, y) + k < 4 * (w * h)
    ensures RgbaAt(Resized(Planar(data, w, h), w, h), 4 * PixelNumber(w, x, y) + k)
         == if k == 3 then 0 else ByteAt(data, w, h, x, y, k)
  {
    hide RgbaAt, Planar, Rounded, ByteAt, PixelNumber;
    RgbaOfPixel(Planar(data, w, h), x, y, k);
    if k < 3 {
      PlanarPixel(data, w, h, x, y, k);
      RoundedWithin(Sample(data, w, h, x, y, k), ByteAt(data, w, h, x, y, k), ByteAt(data, w, h, x, y, k));
    }
  }

  /** Every output byte lies between the smallest and the largest input byte of its channel. */
  lemma BytesStayWithinChannel(data: seq<Byte>, w: nat, h: nat, dw: nat, dh: nat, x: nat, y: nat, k: nat,
                               lo: Byte, hi: Byte)
    requires w > 0 && h > 0 && |data| == w * h * 3 && (dh >= 2 || (w == dw && h == dh))
    requires x < dw && y < dh && k < 3 && BytesWithin(data, w, h, k, lo, hi)
    ensures 4 * PixelNumber(dw, x, y) + k < 4 * (dw * dh)
    ensures lo <= RgbaAt(Resized(Planar(data, w, h), dw, dh), 4 * PixelNumber(dw, x, y) + k) <= hi
  {
    hide RgbaAt, Planar, Resized, Rounded, PixelNumber;
    var p := Planar(data, w, h);
    PlanarWithin(data, w, h, k, lo, hi);
    ResizedWithin(p, dw, dh, x, y, k, lo as real / 255.0, hi as real / 255.0);
    RgbaOfPixel(Resized(p, dw, dh), x, y, k);
    RoundedWithin(Pixel(Resized(p, dw, dh), x, y, k), lo, hi);
  }

  lemma RoundedIsNearest(v: real)
    ensures Rounded(v) as real - 0.5 <= 255.0 * v < Rounded(v) as real + 0.5
  {
  }

  /** Every output byte is the integer nearest to its sample of the resized planes, the higher one in the middle. */
  lemma BytesAreNearest(data: seq<Byte>, w: nat, h: nat, dw: nat, dh: nat, x: nat, y: nat, k: nat)
    requires w > 0 && h > 0 && |data| == w * h * 3 && (dh >= 2 || (w == dw && h == dh))
    requires x < dw && y < dh && k < 3
    ensures 4 * PixelNumber(dw, x, y) + k < 4 * (dw * dh)
    ensures var q := Resized(Planar(data, w, h), dw, dh);
            var byte := RgbaAt(q, 4 * PixelNumber(dw, x, y) + k) as real;
            byte - 0.5 <= 255.0 * Pixel(q, x, y, k) < byte + 0.5
  {
    hide RgbaAt, Planar, Resized, Rounded, PixelNumber;
    var q := Resized(Planar(data, w, h), dw, dh);
    RgbaOfPixel(q, x, y, k);
    RoundedIsNearest(Pixel(q, x, y, k));
  }
}
