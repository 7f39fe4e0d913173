/**
 The YUV 4:2:0 to RGB kernel: the loops over a picture, with the column counter kept
 in the upper half of the row counter.
 */
module YuvKernel {
  import opened Bytes
  import opened PackedPixel
  import Powers

  /** Y table, U table and V table, 256 words each. */
  type Tables = t: seq<Word> | |t| == 768 witness seq(768, _ => 0)

  function ReadUV(t: Tables, u: Octet, v: Octet): Word {
    Sum(t[256 + u as int], t[512 + v as int])
  }

  function ReadY(t: Tables, y: Octet): Word {
    t[y as int]
  }

  /** The three bytes the kernel stores for one pixel. */
  function Pixel(t: Tables, y: Octet, u: Octet, v: Octet): (bytes: seq<Octet>)
    ensures |bytes| == 3
  {
    Store(Fixup(Sum(ReadUV(t, u, v), ReadY(t, y))))
  }

  // ------------------------------------------------------------------ row arithmetic

  /** The first index of row r. */
  function RowStart(r: nat, span: nat): nat {
    r * span
  }

  /** The row index i falls in, and its offset there. */
  function RowOf(i: nat, span: nat): nat
    requires span > 0
  {
    i / span
  }

  function OffsetOf(i: nat, span: nat): nat
    requires span > 0
  {
    i % span
  }

  lemma FirstRow()
    ensures forall span :: RowStart(0, span) == 0
  {
  }

  lemma NextRow(r: nat, span: nat)
    ensures RowStart(r + 1, span) == RowStart(r, span) + span
  {
  }

  lemma RowStartsAscend(r: nat, r': nat, span: nat)
    requires r <= r'
    ensures RowStart(r, span) <= RowStart(r', span)
  {
    Powers.RowsAscend(r, r', span);
  }

  lemma DivisionSplits(i: nat, span: nat)
    requires span > 0
    ensures RowStart(RowOf(i, span), span) + OffsetOf(i, span) == i && OffsetOf(i, span) < span
  {
  }

  /** i lies in row r exactly when division says so. */
  lemma RowIsUnique(i: nat, span: nat, r: nat)
    requires span > 0
    ensures RowStart(r, span) <= i < RowStart(r, span) + span <==> RowOf(i, span) == r
    ensures RowOf(i, span) == r ==> OffsetOf(i, span) == i - RowStart(r, span)
  {
    hide RowStart;
    var q := RowOf(i, span);
    assert RowStart(q, span) <= i < RowStart(q, span) + span && OffsetOf(i, span) == i - RowStart(q, span) by {
      DivisionSplits(i, span);
    }
    if q < r {
      NextRow(q, span);
      RowStartsAscend(q + 1, r, span);
    } else if r < q {
      NextRow(r, span);
      RowStartsAscend(r + 1, q, span);
    }
  }

  /** The picture planes; spans are the distance between two rows. */
  datatype Planes = Planes(y: seq<Octet>, u: seq<Octet>, v: seq<Octet>,
                           width: nat, height: nat, ySpan: nat, uvSpan: nat)

  ghost predicate PlanesFit(p: Planes) {
    p.width > 0 && p.height > 0 ==>
      && RowStart(p.height - 1, p.ySpan) + p.width <= |p.y|
      && RowStart((p.height + 1) / 2 - 1, p.uvSpan) + (p.width + 1) / 2 <= |p.u|
      && RowStart((p.height + 1) / 2 - 1, p.uvSpan) + (p.width + 1) / 2 <= |p.v|
  }

  lemma RowFits(rows: nat, span: nat, width: nat, size: nat, r: nat)
    requires r < rows && RowStart(rows - 1, span) + width <= size
    ensures RowStart(r, span) + width <= size
  {
    hide RowStart;
    RowStartsAscend(r, rows - 1, span);
  }

  lemma PixelFits(p: Planes, r: nat, c: nat)
    requires PlanesFit(p) && r < p.height && c < p.width
    ensures RowStart(r, p.ySpan) + c < |p.y|
    ensures RowStart(r / 2, p.uvSpan) + c / 2 < |p.u| && RowStart(r / 2, p.uvSpan) + c / 2 < |p.v|
  {
    hide RowStart;
    RowFits(p.height, p.ySpan, p.width, |p.y|, r);
    RowFits((p.height + 1) / 2, p.uvSpan, (p.width + 1) / 2, |p.u|, r / 2);
    RowFits((p.height + 1) / 2, p.uvSpan, (p.width + 1) / 2, |p.v|, r / 2);
  }

  /** The pixel of row r and column c whose luma comes from row lr. */
  function PixelFrom(t: Tables, p: Planes, lr: nat, r: nat, c: nat): (bytes: seq<Octet>)
    ensures |bytes| == 3
    requires PlanesFit(p) && lr < p.height && r < p.height && c < p.width
  {
    PixelFits(p, lr, c);
    PixelFits(p, r, c);
    Pixel(t, p.y[RowStart(lr, p.ySpan) + c], p.u[RowStart(r / 2, p.uvSpan) + c / 2], p.v[RowStart(r / 2, p.uvSpan) + c / 2])
  }

  /** The reference picture: own luma, chroma shared by a 2x2 block. */
  function Reference(t: Tables, p: Planes, r: nat, c: nat): seq<Octet>
    requires PlanesFit(p) && r < p.height && c < p.width
  {
    PixelFrom(t, p, r, r, c)
  }

  /** The trailing column of an odd width is stored with the two rows of a pair exchanged. */
  function LumaRow(width: nat, height: nat, r: nat, c: nat): (lr: nat)
    requires r < height && c < width
    ensures lr < height && lr / 2 == r / 2
  {
    if width % 2 == 1 && c == width - 1 && r < height - height % 2
    then if r % 2 == 0 then r + 1 else r - 1
    else r
  }

  function Stored(t: Tables, p: Planes, r: nat, c: nat): seq<Octet>
    requires PlanesFit(p) && r < p.height && c < p.width
  {
    PixelFrom(t, p, LumaRow(p.width, p.height, r, c), r, c)
  }

  /** Whether byte i of the destination belongs to the width x height window. */
  predicate InWindow(p: Planes, dstSpan: nat, i: nat) {
    p.width > 0 && dstSpan > 0 && RowOf(i, dstSpan) < p.height && OffsetOf(i, dstSpan) < 3 * p.width
  }

  /** Octet i of the destination once the first rows rows are converted. */
  function DestinationByte(t: Tables, p: Planes, dstSpan: nat, before: seq<Octet>, rows: nat, i: nat): Octet
    requires PlanesFit(p) && i < |before| && rows <= p.height
  {
    if InWindow(p, dstSpan, i) && RowOf(i, dstSpan) < rows
    then Stored(t, p, RowOf(i, dstSpan), OffsetOf(i, dstSpan) / 3)[OffsetOf(i, dstSpan) % 3]
    else before[i]
  }

  // ------------------------------------------------- the packed row and column counter

  /** height after the row counter rows and the column steps col are packed into 32 bits. */
  function PackCounter(rows: int, col: int): int {
    rows + 65536 * col
  }

  /** (height << 16) >> 16 on a 32-bit two's complement integer. */
  function SignExtend16(height: int): int {
    if height % 65536 < 32768 then height % 65536 else height % 65536 - 65536
  }

  // ---------------------------------------------------------------------- inner loops

  /** Where the pointers stand at the start of a row or a row pair. */
  datatype Cursor = Cursor(y: seq<Octet>, u: seq<Octet>, v: seq<Octet>, width: nat, ySpan: nat, dstSpan: nat,
                           yp: nat, up: nat, vp: nat, d: nat)

  predicate CursorFits(k: Cursor, rows: nat, size: nat)
    requires 1 <= rows <= 2
  {
    && 3 * k.width <= k.dstSpan
    && (k.width > 0 ==>
      && k.yp + (if rows == 2 then k.ySpan else 0) + k.width <= |k.y|
      && k.up + (k.width + 1) / 2 <= |k.u|
      && k.vp + (k.width + 1) / 2 <= |k.v|
      && k.d + (if rows == 2 then k.dstSpan else 0) + 3 * k.width <= size)
  }

  function CursorPixel(t: Tables, k: Cursor, lower: bool, c: nat): (bytes: seq<Octet>)
    ensures |bytes| == 3
    requires CursorFits(k, if lower then 2 else 1, |k.y| + k.d + 2 * k.dstSpan + 3 * k.width) && c < k.width
  {
    Pixel(t, k.y[k.yp + (if lower then k.ySpan else 0) + c], k.u[k.up + c / 2], k.v[k.vp + c / 2])
  }

  /** The row pair after done columns: the last column of an odd width is exchanged. */
  function PairByte(t: Tables, k: Cursor, before: seq<Octet>, done: nat, i: nat): Octet
    requires CursorFits(k, 2, |before|) && i < |before| && done <= k.width
  {
    if k.d <= i < k.d + 3 * done then
      var c := (i - k.d) / 3;
      CursorPixel(t, k, k.width % 2 == 1 && c == k.width - 1, c)[(i - k.d) % 3]
    else if k.d + k.dstSpan <= i < k.d + k.dstSpan + 3 * done then
      var c := (i - k.d - k.dstSpan) / 3;
      CursorPixel(t, k, !(k.width % 2 == 1 && c == k.width - 1), c)[(i - k.d - k.dstSpan) % 3]
    else
      before[i]
  }

  /** The single trailing row after done columns. */
  function RowByte(t: Tables, k: Cursor, before: seq<Octet>, done: nat, i: nat): Octet
    requires CursorFits(k, 1, |before|) && i < |before| && done <= k.width
  {
    if k.d <= i < k.d + 3 * done
    then CursorPixel(t, k, false, (i - k.d) / 3)[(i - k.d) % 3]
    else before[i]
  }

  /** STORE at one place of the destination. */
  method StoreAt(dst: array<Octet>, w: Word, at: nat)
    requires at + 3 <= dst.Length
    modifies dst
    ensures forall i | 0 <= i < dst.Length :: dst[i] == if at <= i < at + 3 then Store(w)[i - at] else old(dst[i])
  {
    hide LowByte, GreenByte, ThirdByte;
    dst[at] := LowByte(w);
    dst[at + 1] := GreenByte(w);
    dst[at + 2] := ThirdByte(w);
  }

  /** One column of a row pair: the lower pixel is stored first. */
  method StoreColumn(dst: array<Octet>, lower: Word, upper: Word, at: nat, dstSpan: nat)
    requires 3 <= dstSpan && at + dstSpan + 3 <= dst.Length
    modifies dst
    ensures forall i | 0 <= i < dst.Length ::
              dst[i] == if at <= i < at + 3 then Store(upper)[i - at]
                        else if at + dstSpan <= i < at + dstSpan + 3 then Store(lower)[i - at - dstSpan]
                        else old(dst[i])
  {
    StoreAt(dst, lower, at + dstSpan);
    StoreAt(dst, upper, at);
  }

  lemma PairByteStep(t: Tables, k: Cursor, before: seq<Octet>, c: nat, i: nat)
    requires CursorFits(k, 2, |before|) && i < |before| && c < k.width
    ensures PairByte(t, k, before, c + 1, i) == (
      var exchanged := k.width % 2 == 1 && c == k.width - 1;
      var at := k.d + 3 * c;
      if at <= i < at + 3 then CursorPixel(t, k, exchanged, c)[i - at]
      else if at + k.dstSpan <= i < at + k.dstSpan + 3 then CursorPixel(t, k, !exchanged, c)[i - at - k.dstSpan]
      else PairByte(t, k, before, c, i))
  {
    hide Pixel;
  }

  lemma RowByteStep(t: Tables, k: Cursor, before: seq<Octet>, c: nat, i: nat)
    requires CursorFits(k, 1, |before|) && i < |before| && c < k.width
    ensures RowByte(t, k, before, c + 1, i) == (
      var at := k.d + 3 * c;
      if at <= i < at + 3 then CursorPixel(t, k, false, c)[i - at] else RowByte(t, k, before, c, i))
  {
    hide Pixel;
  }

  lemma CursorPixelIsStored(t: Tables, k: Cursor, lower: bool, c: nat, uv: Word)
    requires CursorFits(k, if lower then 2 else 1, |k.y| + k.d + 2 * k.dstSpan + 3 * k.width) && c < k.width
    requires uv == ReadUV(t, k.u[k.up + c / 2], k.v[k.vp + c / 2])
    ensures Store(Fixup(Sum(uv, ReadY(t, k.y[k.yp + (if lower then k.ySpan else 0) + c])))) == CursorPixel(t, k, lower, c)
  {
    hide Fixup, Store, Sum, ReadUV, ReadY;
  }

  /** The two luma reads, FIXUPs and STOREs of one column of a row pair. */
  method ConvertColumn(dst: array<Octet>, t: Tables, k: Cursor, uv: Word, exchanged: bool, c: nat, ghost before: seq<Octet>)
    requires CursorFits(k, 2, dst.Length) && c < k.width && |before| == dst.Length
    requires uv == ReadUV(t, k.u[k.up + c / 2], k.v[k.vp + c / 2])
    requires exchanged == (k.width % 2 == 1 && c == k.width - 1)
    requires forall i | 0 <= i < dst.Length :: dst[i] == PairByte(t, k, before, c, i)
    modifies dst
    ensures forall i | 0 <= i < dst.Length :: dst[i] == PairByte(t, k, before, c + 1, i)
  {
    hide Fixup, Store, Sum, ReadUV, ReadY, CursorPixel, PairByte;
    CursorPixelIsStored(t, k, true, c, uv);
    CursorPixelIsStored(t, k, false, c, uv);
    var y1 := Fixup(Sum(uv, ReadY(t, k.y[k.yp + c + k.ySpan])));
    var y0 := Fixup(Sum(uv, ReadY(t, k.y[k.yp + c])));
    ghost var prior := dst[..];
    if exchanged {
      StoreColumn(dst, y0, y1, k.d + 3 * c, k.dstSpan);
    } else {
      StoreColumn(dst, y1, y0, k.d + 3 * c, k.dstSpan);
    }
    forall i | 0 <= i < dst.Length
      ensures dst[i] == PairByte(t, k, before, c + 1, i)
    {
      PairByteStep(t, k, before, c, i);
      assert prior[i] == PairByte(t, k, before, c, i);
    }
  }

  /** Two columns of a row pair share their chroma. */
  method ConvertTwoColumns(dst: array<Octet>, t: Tables, k: Cursor, uv: Word, c: nat, ghost before: seq<Octet>)
    requires CursorFits(k, 2, dst.Length) && c + 1 < k.width && c % 2 == 0 && |before| == dst.Length
    requires uv == ReadUV(t, k.u[k.up + c / 2], k.v[k.vp + c / 2])
    requires forall i | 0 <= i < dst.Length :: dst[i] == PairByte(t, k, before, c, i)
    modifies dst
    ensures forall i | 0 <= i < dst.Length :: dst[i] == PairByte(t, k, before, c + 2, i)
  {
    hide PairByte, ReadUV;
    ConvertColumn(dst, t, k, uv, false, c, before);
    ConvertColumn(dst, t, k, uv, false, c + 1, before);
  }

  /** Before the first column nothing has changed. */
  lemma FirstColumns(t: Tables, k: Cursor, before: seq<Octet>)
    ensures CursorFits(k, 2, |before|) ==> forall i | 0 <= i < |before| :: PairByte(t, k, before, 0, i) == before[i]
    ensures CursorFits(k, 1, |before|) ==> forall i | 0 <= i < |before| :: RowByte(t, k, before, 0, i) == before[i]
  {
  }

  /** One pass over a row pair, returning the advanced pointers. */
  method ConvertRowPair(dst: array<Octet>, t: Tables, k: Cursor, rows: nat)
    returns (d: nat, yp: nat, up: nat, vp: nat, height: int)
    requires CursorFits(k, 2, dst.Length) && rows < 32768 && k.width < 32768
    modifies dst
    ensures d == k.d + 3 * k.width && yp == k.yp + k.width && up == k.up + k.width / 2 && vp == k.vp + k.width / 2
    ensures SignExtend16(height) == rows
    ensures forall i | 0 <= i < dst.Length :: dst[i] == PairByte(t, k, old(dst[..]), k.width, i)
  {
    hide PairByte, RowByte, CursorPixel, ReadUV;
    FirstColumns(t, k, dst[..]);
    d, yp, up, vp := k.d, k.yp, k.up, k.vp;
    ghost var before := dst[..];
    height := rows - k.width * 65536;
    height := height + 65536;
    ghost var c := 0;
    while height < 0
      invariant 0 <= c <= k.width && c % 2 == 0
      invariant height == PackCounter(rows, 1 - k.width + c) && -0x8000_0000 <= height < 0x8000_0000
      invariant d == k.d + 3 * c && yp == k.yp + c && up == k.up + c / 2 && vp == k.vp + c / 2
      invariant forall i | 0 <= i < dst.Length :: dst[i] == PairByte(t, k, before, c, i)
      decreases -height
    {
      var uv := ReadUV(t, k.u[up], k.v[vp]);
      up, vp := up + 1, vp + 1;
      ConvertTwoColumns(dst, t, k, uv, yp - k.yp, before);
      yp, d := yp + 2, d + 6;
      height := height + 131072;
      c := c + 2;
    }
    if height / 65536 == 0 {
      var uv := ReadUV(t, k.u[up], k.v[vp]);
      ConvertColumn(dst, t, k, uv, true, yp - k.yp, before);
      yp, d := yp + 1, d + 3;
      c := c + 1;
    }
  }

  /** The luma read, FIXUP and STORE of one pixel of the trailing row. */
  method ConvertPixel(dst: array<Octet>, t: Tables, k: Cursor, uv: Word, c: nat, ghost before: seq<Octet>)
    requires CursorFits(k, 1, dst.Length) && c < k.width && |before| == dst.Length
    requires uv == ReadUV(t, k.u[k.up + c / 2], k.v[k.vp + c / 2])
    requires forall i | 0 <= i < dst.Length :: dst[i] == RowByte(t, k, before, c, i)
    modifies dst
    ensures forall i | 0 <= i < dst.Length :: dst[i] == RowByte(t, k, before, c + 1, i)
  {
    hide Fixup, Store, Sum, ReadUV, ReadY, CursorPixel, RowByte;
    CursorPixelIsStored(t, k, false, c, uv);
    ghost var prior := dst[..];
    StoreAt(dst, Fixup(Sum(uv, ReadY(t, k.y[k.yp + c]))), k.d + 3 * c);
    forall i | 0 <= i < dst.Length
      ensures dst[i] == RowByte(t, k, before, c + 1, i)
    {
      RowByteStep(t, k, before, c, i);
      assert prior[i] == RowByte(t, k, before, c, i);
    }
  }

  method ConvertTwoPixels(dst: array<Octet>, t: Tables, k: Cursor, uv: Word, c: nat, ghost before: seq<Octet>)
    requires CursorFits(k, 1, dst.Length) && c + 1 < k.width && c % 2 == 0 && |before| == dst.Length
    requires uv == ReadUV(t, k.u[k.up + c / 2], k.v[k.vp + c / 2])
    requires forall i | 0 <= i < dst.Length :: dst[i] == RowByte(t, k, before, c, i)
    modifies dst
    ensures forall i | 0 <= i < dst.Length :: dst[i] == RowByte(t, k, before, c + 2, i)
  {
    hide RowByte, ReadUV;
    ConvertPixel(dst, t, k, uv, c, before);
    ConvertPixel(dst, t, k, uv, c + 1, before);
  }

  /** The trailing row of an odd height. */
  method ConvertLastRow(dst: array<Octet>, t: Tables, k: Cursor)
    requires CursorFits(k, 1, dst.Length) && k.width < 32768
    modifies dst
    ensures forall i | 0 <= i < dst.Length :: dst[i] == RowByte(t, k, old(dst[..]), k.width, i)
  {
    hide PairByte, RowByte, CursorPixel, ReadUV;
    FirstColumns(t, k, dst[..]);
    var d, yp, up, vp := k.d, k.yp, k.up, k.vp;
    ghost var before := dst[..];
    var height := 0 - k.width * 65536;
    height := height + 65536;
    ghost var c := 0;
    while height < 0
      invariant 0 <= c <= k.width && c % 2 == 0
      invariant height == PackCounter(0, 1 - k.width + c) && -0x8000_0000 <= height < 0x8000_0000
      invariant d == k.d + 3 * c && yp == k.yp + c && up == k.up + c / 2 && vp == k.vp + c / 2
      invariant forall i | 0 <= i < dst.Length :: dst[i] == RowByte(t, k, before, c, i)
      decreases -height
    {
      var uv := ReadUV(t, k.u[up], k.v[vp]);
      up, vp := up + 1, vp + 1;
      ConvertTwoPixels(dst, t, k, uv, yp - k.yp, before);
      yp, d := yp + 2, d + 6;
      height := height + 131072;
      c := c + 2;
    }
    if height / 65536 == 0 {
      var uv := ReadUV(t, k.u[up], k.v[vp]);
      ConvertPixel(dst, t, k, uv, yp - k.yp, before);
      c := c + 1;
    }
  }

  // -------------------------------------------------------------------------- picture

  ghost predicate DestinationFits(p: Planes, dstSpan: nat, size: nat) {
    && 3 * p.width <= dstSpan
    && (p.width > 0 && p.height > 0 ==> RowStart(p.height - 1, dstSpan) + 3 * p.width <= size)
  }

  /** The cursor at the start of row r. */
  function CursorAt(p: Planes, dstSpan: nat, r: nat): Cursor {
    Cursor(p.y, p.u, p.v, p.width, p.ySpan, dstSpan,
           RowStart(r, p.ySpan), RowStart(r / 2, p.uvSpan), RowStart(r / 2, p.uvSpan), RowStart(r, dstSpan))
  }

  lemma CursorAtFits(p: Planes, dstSpan: nat, size: nat, r: nat, rows: nat)
    requires PlanesFit(p) && DestinationFits(p, dstSpan, size)
    requires 1 <= rows <= 2 && r % 2 == 0 && r + rows <= p.height
    ensures CursorFits(CursorAt(p, dstSpan, r), rows, size)
  {
    hide RowStart;
    if p.width > 0 {
      RowFits(p.height, p.ySpan, p.width, |p.y|, r + rows - 1);
      RowFits(p.height, dstSpan, 3 * p.width, size, r + rows - 1);
      RowFits((p.height + 1) / 2, p.uvSpan, (p.width + 1) / 2, |p.u|, r / 2);
      RowFits((p.height + 1) / 2, p.uvSpan, (p.width + 1) / 2, |p.v|, r / 2);
      NextRow(r, p.ySpan);
      NextRow(r, dstSpan);
    }
  }

  /** A pixel read through the cursor of a row pair is the picture's pixel of that row. */
  lemma CursorPixelIsPicturePixel(t: Tables, p: Planes, dstSpan: nat, r: nat, lower: bool, own: bool, c: nat)
    requires PlanesFit(p) && 3 * p.width <= dstSpan && c < p.width
    requires r % 2 == 0 && r + (if lower || own then 2 else 1) <= p.height
    ensures var k := CursorAt(p, dstSpan, r);
            && CursorFits(k, if lower then 2 else 1, |k.y| + k.d + 2 * k.dstSpan + 3 * k.width)
            && CursorPixel(t, k, lower, c)
               == PixelFrom(t, p, r + (if lower then 1 else 0), r + (if own then 1 else 0), c)
  {
    hide Pixel, RowStart;
    var lr := r + (if lower then 1 else 0);
    RowFits(p.height, p.ySpan, p.width, |p.y|, lr);
    RowFits((p.height + 1) / 2, p.uvSpan, (p.width + 1) / 2, |p.u|, r / 2);
    RowFits((p.height + 1) / 2, p.uvSpan, (p.width + 1) / 2, |p.v|, r / 2);
    NextRow(r, p.ySpan);
  }

  /** Octet i of row r of the window, once that row is converted. */
  lemma DestinationInRow(t: Tables, p: Planes, dstSpan: nat, before: seq<Octet>, rows: nat, r: nat, i: nat)
    requires PlanesFit(p) && 3 * p.width <= dstSpan && i < |before|
    requires r < rows <= p.height && RowStart(r, dstSpan) <= i < RowStart(r, dstSpan) + 3 * p.width
    ensures var off := i - RowStart(r, dstSpan);
            DestinationByte(t, p, dstSpan, before, rows, i) == Stored(t, p, r, off / 3)[off % 3]
  {
    hide Stored, RowStart, RowOf, OffsetOf;
    RowIsUnique(i, dstSpan, r);
  }

  /** Converting row r changes nothing outside its window. */
  lemma DestinationOutsideRow(t: Tables, p: Planes, dstSpan: nat, before: seq<Octet>, r: nat, i: nat)
    requires PlanesFit(p) && 3 * p.width <= dstSpan && i < |before|
    requires r < p.height && !(RowStart(r, dstSpan) <= i < RowStart(r, dstSpan) + 3 * p.width)
    ensures DestinationByte(t, p, dstSpan, before, r + 1, i) == DestinationByte(t, p, dstSpan, before, r, i)
  {
    hide Stored, RowStart, RowOf, OffsetOf;
    if dstSpan > 0 {
      RowIsUnique(i, dstSpan, r);
    }
  }

  /** A converted row pair is the next two rows of the destination. */
  lemma PairCompletesTwoRows(t: Tables, p: Planes, dstSpan: nat, before: seq<Octet>, prior: seq<Octet>, r: nat, i: nat)
    requires PlanesFit(p) && DestinationFits(p, dstSpan, |before|) && |prior| == |before| && i < |before|
    requires r % 2 == 0 && r + 2 <= p.height
    requires CursorFits(CursorAt(p, dstSpan, r), 2, |before|)
    requires prior[i] == DestinationByte(t, p, dstSpan, before, r, i)
    ensures PairByte(t, CursorAt(p, dstSpan, r), prior, p.width, i) == DestinationByte(t, p, dstSpan, before, r + 2, i)
  {
    hide CursorPixel, PixelFrom, RowStart, DestinationByte;
    NextRow(r, dstSpan);
    var d := RowStart(r, dstSpan);
    if d <= i < d + 3 * p.width {
      var c := (i - d) / 3;
      CursorPixelIsPicturePixel(t, p, dstSpan, r, p.width % 2 == 1 && c == p.width - 1, false, c);
      DestinationInRow(t, p, dstSpan, before, r + 2, r, i);
    } else if d + dstSpan <= i < d + dstSpan + 3 * p.width {
      var c := (i - d - dstSpan) / 3;
      CursorPixelIsPicturePixel(t, p, dstSpan, r, !(p.width % 2 == 1 && c == p.width - 1), true, c);
      DestinationInRow(t, p, dstSpan, before, r + 2, r + 1, i);
    } else {
      DestinationOutsideRow(t, p, dstSpan, before, r, i);
      DestinationOutsideRow(t, p, dstSpan, before, r + 1, i);
    }
  }

  lemma LastRowCompletes(t: Tables, p: Planes, dstSpan: nat, before: seq<Octet>, prior: seq<Octet>, r: nat, i: nat)
    requires PlanesFit(p) && DestinationFits(p, dstSpan, |before|) && |prior| == |before| && i < |before|
    requires r % 2 == 0 && r + 1 == p.height
    requires CursorFits(CursorAt(p, dstSpan, r), 1, |before|)
    requires prior[i] == DestinationByte(t, p, dstSpan, before, r, i)
    ensures RowByte(t, CursorAt(p, dstSpan, r), prior, p.width, i) == DestinationByte(t, p, dstSpan, before, r + 1, i)
  {
    hide CursorPixel, PixelFrom, RowStart, DestinationByte;
    var d := RowStart(r, dstSpan);
    if d <= i < d + 3 * p.width {
      CursorPixelIsPicturePixel(t, p, dstSpan, r, false, false, (i - d) / 3);
      DestinationInRow(t, p, dstSpan, before, r + 1, r, i);
    } else {
      DestinationOutsideRow(t, p, dstSpan, before, r, i);
    }
  }

  /** yuv420_2_rgb888: every byte of the destination afterwards, inside the window and outside. */
  method Yuv420ToRgb888(dst: array<Octet>, p: Planes, dstSpan: nat, t: Tables)
    requires PlanesFit(p) && DestinationFits(p, dstSpan, dst.Length)
    requires p.width < 32768 && p.height <= 32768
    modifies dst
    ensures forall i | 0 <= i < dst.Length ::
              dst[i] == DestinationByte(t, p, dstSpan, old(dst[..]), p.height, i)
  {
    hide CursorPixel, PixelFrom, PairByte, RowByte, RowStart, RowOf, OffsetOf;
    assert RowStart(0, dstSpan) == RowStart(0, p.ySpan) == RowStart(0, p.uvSpan) == 0 by { FirstRow(); }
    ghost var before := dst[..];
    var d, yp, up, vp := 0, 0, 0, 0;
    var height: int := p.height;
    height := height - 1;
    ghost var r := 0;
    while height > 0
      invariant r % 2 == 0 && 0 <= r <= p.height && height == p.height - 1 - r
      invariant d == RowStart(r, dstSpan) && yp == RowStart(r, p.ySpan) && up == RowStart(r / 2, p.uvSpan) && vp == up
      invariant forall i | 0 <= i < dst.Length :: dst[i] == DestinationByte(t, p, dstSpan, before, r, i)
    {
      ghost var prior := dst[..];
      CursorAtFits(p, dstSpan, dst.Length, r, 2);
      var k := Cursor(p.y, p.u, p.v, p.width, p.ySpan, dstSpan, yp, up, vp, d);
      assert k == CursorAt(p, dstSpan, r);
      var d', yp', up', vp', packed := ConvertRowPair(dst, t, k, height);
      forall i | 0 <= i < dst.Length
        ensures dst[i] == DestinationByte(t, p, dstSpan, before, r + 2, i)
      {
        PairCompletesTwoRows(t, p, dstSpan, before, prior, r, i);
      }
      d := d' + dstSpan * 2 - p.width * 3;
      yp := yp' + p.ySpan * 2 - p.width;
      up := up' + p.uvSpan - p.width / 2;
      vp := vp' + p.uvSpan - p.width / 2;
      height := SignExtend16(packed);
      height := height - 2;
      NextRow(r, p.ySpan);
      NextRow(r + 1, p.ySpan);
      NextRow(r, dstSpan);
      NextRow(r + 1, dstSpan);
      NextRow(r / 2, p.uvSpan);
      r := r + 2;
    }
    if height == 0 {
      ghost var prior := dst[..];
      CursorAtFits(p, dstSpan, dst.Length, r, 1);
      ConvertLastRow(dst, t, Cursor(p.y, p.u, p.v, p.width, p.ySpan, dstSpan, yp, up, vp, d));
      forall i | 0 <= i < dst.Length
        ensures dst[i] == DestinationByte(t, p, dstSpan, before, p.height, i)
      {
        LastRowCompletes(t, p, dstSpan, before, prior, r, i);
      }
    }
  }

  // --------------------------------------------------------------- what the picture is

  /** The tables hold, for every Y, U and V, the given channel contributions. */
  ghost predicate Holds(t: Tables, ys: seq<Lanes>, us: seq<Lanes>, vs: seq<Lanes>) {
    && |ys| == |us| == |vs| == 256
    && (forall i | 0 <= i < 256 :: t[i] == Pack(ys[i]) && t[256 + i] == Pack(us[i]) && t[512 + i] == Pack(vs[i]))
  }

  function LaneSum(ys: seq<Lanes>, us: seq<Lanes>, vs: seq<Lanes>, y: Octet, u: Octet, v: Octet): Lanes
    requires |ys| == |us| == |vs| == 256
  {
    Plus(Plus(us[u as int], vs[v as int]), ys[y as int])
  }

  /** The plain per-pixel conversion: add the three contributions and clamp each channel. */
  function ClampedPixel(s: Lanes): (bytes: seq<Octet>)
    ensures |bytes| == 3
  {
    ClampedBytes(s.a, s.c, s.g)
  }

  lemma PixelIsClamped(t: Tables, ys: seq<Lanes>, us: seq<Lanes>, vs: seq<Lanes>, y: Octet, u: Octet, v: Octet)
    requires Holds(t, ys, us, vs) && Fits(LaneSum(ys, us, vs, y, u, v))
    ensures Pixel(t, y, u, v) == ClampedPixel(LaneSum(ys, us, vs, y, u, v))
  {
    hide Fixup, Store, Sum, Pack, Plus, ClampedBytes, Fits;
    TableSumStoresClampedSums(us[u as int], vs[v as int], ys[y as int]);
  }

  /** The channel sums of pixel (r, c): its own luma and its 2x2 block's chroma. */
  function OwnSum(ys: seq<Lanes>, us: seq<Lanes>, vs: seq<Lanes>, p: Planes, r: nat, c: nat): Lanes
    requires |ys| == |us| == |vs| == 256 && PlanesFit(p) && r < p.height && c < p.width
  {
    PixelFits(p, r, c);
    var uv := RowStart(r / 2, p.uvSpan) + c / 2;
    LaneSum(ys, us, vs, p.y[RowStart(r, p.ySpan) + c], p.u[uv], p.v[uv])
  }

  /** The channel sums of the pixel byte i of the window belongs to. */
  function SumAt(ys: seq<Lanes>, us: seq<Lanes>, vs: seq<Lanes>, p: Planes, dstSpan: nat, i: nat): Lanes
    requires |ys| == |us| == |vs| == 256 && PlanesFit(p) && InWindow(p, dstSpan, i)
  {
    OwnSum(ys, us, vs, p, RowOf(i, dstSpan), OffsetOf(i, dstSpan) / 3)
  }

  lemma WindowByteIsPixelByte(t: Tables, p: Planes, dstSpan: nat, before: seq<Octet>, i: nat, y: Octet, u: Octet, v: Octet)
    requires PlanesFit(p) && i < |before| && p.width % 2 == 0 && InWindow(p, dstSpan, i)
    requires var r, c := RowOf(i, dstSpan), OffsetOf(i, dstSpan) / 3;
             PixelFrom(t, p, r, r, c) == Pixel(t, y, u, v)
    ensures DestinationByte(t, p, dstSpan, before, p.height, i) == Pixel(t, y, u, v)[OffsetOf(i, dstSpan) % 3]
  {
    hide Pixel, PixelFrom;
  }

  /**
   For an even width every byte of the window is the clamp of its pixel's own channel sums,
   if those fit their lanes, and every byte outside the window is as before.
   */
  lemma PictureIsClamped(t: Tables, ys: seq<Lanes>, us: seq<Lanes>, vs: seq<Lanes>,
                         p: Planes, dstSpan: nat, before: seq<Octet>, i: nat)
    requires Holds(t, ys, us, vs) && PlanesFit(p) && i < |before| && p.width % 2 == 0
    requires InWindow(p, dstSpan, i) ==> Fits(SumAt(ys, us, vs, p, dstSpan, i))
    ensures DestinationByte(t, p, dstSpan, before, p.height, i)
         == if InWindow(p, dstSpan, i) then ClampedPixel(SumAt(ys, us, vs, p, dstSpan, i))[OffsetOf(i, dstSpan) % 3]
            else before[i]
  {
    hide Pixel, LaneSum, ClampedPixel, RowStart, RowOf, OffsetOf, Holds, Fits;
    if InWindow(p, dstSpan, i) {
      var r, c := RowOf(i, dstSpan), OffsetOf(i, dstSpan) / 3;
      PixelFits(p, r, c);
      var uv := RowStart(r / 2, p.uvSpan) + c / 2;
      var y, u, v := p.y[RowStart(r, p.ySpan) + c], p.u[uv], p.v[uv];
      WindowByteIsPixelByte(t, p, dstSpan, before, i, y, u, v);
      PixelIsClamped(t, ys, us, vs, y, u, v);
    }
  }

  lemma DarkPixel(t: Tables, ys: seq<Lanes>, us: seq<Lanes>, vs: seq<Lanes>, y: Octet, u: Octet, v: Octet)
    requires Holds(t, ys, us, vs) && DarkFits(LaneSum(ys, us, vs, y, u, v))
    ensures var s := LaneSum(ys, us, vs, y, u, v);
            DarkBytes(Pixel(t, y, u, v), ClampedPixel(s), LowLaneClamps(s.a, Flagged(Pack(s))))
  {
    hide Fixup, Store, Sum, Pack, Plus, DarkBytes, DarkFits, LowLaneClamps, Flagged, ClampedBytes;
    TableSumDarkBytes(us[u as int], vs[v as int], ys[y as int]);
  }

  /**
   A dark pixel of an even width, its first channel's sum anywhere from -511 up: the second and
   third byte stored are clamps, and so is the first if and only if its sum is at least -256, or
   -257 with another flag raised.
   */
  lemma DarkPictureIsClampedIff(t: Tables, ys: seq<Lanes>, us: seq<Lanes>, vs: seq<Lanes>,
                                p: Planes, dstSpan: nat, before: seq<Octet>, i: nat)
    requires Holds(t, ys, us, vs) && PlanesFit(p) && i < |before| && p.width % 2 == 0
    requires InWindow(p, dstSpan, i) && DarkFits(SumAt(ys, us, vs, p, dstSpan, i))
    ensures var s := SumAt(ys, us, vs, p, dstSpan, i);
            var byte := DestinationByte(t, p, dstSpan, before, p.height, i);
            byte == ClampedPixel(s)[OffsetOf(i, dstSpan) % 3]
            <==> OffsetOf(i, dstSpan) % 3 != 0 || LowLaneClamps(s.a, Flagged(Pack(s)))
  {
    hide Pixel, LaneSum, ClampedPixel, LowLaneClamps, Flagged, Pack, DarkFits, RowStart, RowOf, OffsetOf, Holds;
    var r, c := RowOf(i, dstSpan), OffsetOf(i, dstSpan) / 3;
    PixelFits(p, r, c);
    var uv := RowStart(r / 2, p.uvSpan) + c / 2;
    var y, u, v := p.y[RowStart(r, p.ySpan) + c], p.u[uv], p.v[uv];
    WindowByteIsPixelByte(t, p, dstSpan, before, i, y, u, v);
    DarkPixel(t, ys, us, vs, y, u, v);
  }

  /** The stored picture is the reference picture for all planes of this size. */
  ghost predicate AlwaysReference(t: Tables, width: nat, height: nat) {
    forall p: Planes, r: nat, c: nat | PlanesFit(p) && p.width == width && p.height == height && r < height && c < width ::
      Stored(t, p, r, c) == Reference(t, p, r, c)
  }

  /** No pixel depends on its luma. */
  ghost predicate LumaIrrelevant(t: Tables) {
    forall y, y', u, v :: Pixel(t, y, u, v) == Pixel(t, y', u, v)
  }

  /** The exchange in the trailing column shows exactly for odd widths with a full row pair. */
  lemma ReferenceExactlyForEvenWidths(t: Tables, width: nat, height: nat)
    ensures AlwaysReference(t, width, height) <==> width % 2 == 0 || height < 2 || LumaIrrelevant(t)
  {
    hide Pixel, RowStart;
    if width % 2 == 1 && height >= 2 && !LumaIrrelevant(t) {
      var y, y', u, v :| Pixel(t, y, u, v) != Pixel(t, y', u, v);
      ExchangedPicture(t, width, height, y, y', u, v);
    }
  }

  lemma ExchangedPicture(t: Tables, width: nat, height: nat, y: Octet, y': Octet, u: Octet, v: Octet)
    requires width % 2 == 1 && height >= 2
    requires Pixel(t, y, u, v) != Pixel(t, y', u, v)
    ensures !AlwaysReference(t, width, height)
  {
    hide Pixel, RowStart;
    var luma := seq(RowStart(height - 1, width) + width, i => if i < width then y else y');
    var size := RowStart((height + 1) / 2 - 1, width) + (width + 1) / 2;
    var p := Planes(luma, seq(size, _ => u), seq(size, _ => v), width, height, width, width);
    PixelFits(p, 0, width - 1);
    PixelFits(p, 1, width - 1);
    FirstRow();
    NextRow(0, width);
    assert Stored(t, p, 0, width - 1) == Pixel(t, y', u, v);
    assert Reference(t, p, 0, width - 1) == Pixel(t, y, u, v);
  }
}
