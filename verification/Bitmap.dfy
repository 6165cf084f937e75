/** Converting the firmware's logo, a 24-bit BMP stored bottom row first, into pixels stored top row first. */
module Bitmap {
  import opened Bytes

  const BMP_HEADER_SIZE := 54
  const INFO_HEADER_SIZE := 40
  const CHAR_B: byte := 0x42
  const CHAR_M: byte := 0x4D

  /** A cell of the output, as the firmware's graphics protocol names its bytes. */
  datatype Pixel = Pixel(blue: byte, green: byte, red: byte, reserved: byte)

  datatype Header = Header(charB: byte, charM: byte, size: nat, imageOffset: nat, headerSize: nat, width: nat,
                           height: nat, planes: nat, bitPerPixel: nat, compression: nat)

  function ReadHeader(mem: seq<byte>): Header
    requires |mem| >= BMP_HEADER_SIZE
  {
    Header(mem[0], mem[1], FromLE(mem[2..6]), FromLE(mem[10..14]), FromLE(mem[14..18]), FromLE(mem[18..22]),
           FromLE(mem[22..26]), FromLE(mem[26..28]), FromLE(mem[28..30]), FromLE(mem[30..34]))
  }

  /** Uncompressed, one plane, 24 bits a pixel. */
  predicate Supported(h: Header) {
    && h.charB == CHAR_B && h.charM == CHAR_M
    && h.headerSize == INFO_HEADER_SIZE
    && h.size >= h.imageOffset
    && h.planes == 1 && h.bitPerPixel == 24 && h.compression == 0
  }

  /** A file written field by field: the signature, its size, two reserved words, the offset of the pixels, the size of
      the information header, width, height, planes, bits per pixel, compression, and the rest of that header. */
  function HeaderBytes(b: byte, m: byte, size: nat, reserved: seq<byte>, offset: nat, headerSize: nat, width: nat,
                       height: nat, planes: nat, bits: nat, compression: nat, others: seq<byte>): seq<byte>
  {
    [b, m] + ToLE(size, 4) + reserved + ToLE(offset, 4)
    + (ToLE(headerSize, 4) + ToLE(width, 4) + ToLE(height, 4) + ToLE(planes, 2) + ToLE(bits, 2)
       + ToLE(compression, 4) + others)
  }

  /** It is taken exactly if it is of the one kind that is understood, and then with its own width, height and
      offset. */
  lemma FieldsSupported(b: byte, m: byte, size: nat, reserved: seq<byte>, offset: nat, headerSize: nat, width: nat,
                        height: nat, planes: nat, bits: nat, compression: nat, others: seq<byte>, pixels: seq<byte>)
    requires |reserved| == 4 && |others| == 20
    requires size < TWO32 && offset < TWO32 && headerSize < TWO32 && width < TWO32 && height < TWO32
    requires planes < TWO16 && bits < TWO16 && compression < TWO32
    ensures var mem := HeaderBytes(b, m, size, reserved, offset, headerSize, width, height, planes, bits, compression,
                                   others) + pixels;
      && |mem| == BMP_HEADER_SIZE + |pixels|
      && ReadHeader(mem).width == width && ReadHeader(mem).height == height && ReadHeader(mem).imageOffset == offset
      && (Supported(ReadHeader(mem))
          <==> b == 0x42 && m == 0x4D && headerSize == 40 && offset <= size && planes == 1 && bits == 24
               && compression == 0)
  {
    hide ToLE, FromLE;
    var front := [b, m] + ToLE(size, 4) + reserved + ToLE(offset, 4);
    var back := ToLE(headerSize, 4) + ToLE(width, 4) + ToLE(height, 4) + ToLE(planes, 2) + ToLE(bits, 2)
                + ToLE(compression, 4) + others;
    FrontFields(front, b, m, ToLE(size, 4), reserved, ToLE(offset, 4));
    BackFields(back, ToLE(headerSize, 4), ToLE(width, 4), ToLE(height, 4), ToLE(planes, 2), ToLE(bits, 2),
               ToLE(compression, 4), others);
    InPlace(front, back, pixels);
    Word(size, 4);
    Word(offset, 4);
    Word(headerSize, 4);
    Word(width, 4);
    Word(height, 4);
    Word(planes, 2);
    Word(bits, 2);
    Word(compression, 4);
    var mem := front + back + pixels;
    assert ReadHeader(mem) == Header(b, m, size, offset, headerSize, width, height, planes, bits, compression);
  }

  lemma Word(v: nat, n: nat)
    requires n in {2, 4} && v < if n == 2 then TWO16 else TWO32
    ensures FromLE(ToLE(v, n)) == v
  {
    hide ToLE, FromLE;
    FromToLE(v, n);
    WordSizes();
  }

  lemma FrontFields(s: seq<byte>, b: byte, m: byte, size: seq<byte>, reserved: seq<byte>, offset: seq<byte>)
    requires |size| == |reserved| == |offset| == 4 && s == [b, m] + size + reserved + offset
    ensures |s| == 14 && s[0] == b && s[1] == m && s[2..6] == size && s[10..14] == offset
  {
  }

  lemma BackFields(s: seq<byte>, headerSize: seq<byte>, width: seq<byte>, height: seq<byte>, planes: seq<byte>,
                   bits: seq<byte>, compression: seq<byte>, others: seq<byte>)
    requires |headerSize| == |width| == |height| == |compression| == 4 && |planes| == |bits| == 2 && |others| == 20
    requires s == headerSize + width + height + planes + bits + compression + others
    ensures |s| == 40 && s[0..4] == headerSize && s[4..8] == width && s[8..12] == height && s[12..14] == planes
    ensures s[14..16] == bits && s[16..20] == compression
  {
  }

  lemma InPlace(front: seq<byte>, back: seq<byte>, pixels: seq<byte>)
    requires |front| == 14 && |back| == 40
    ensures var mem := front + back + pixels;
      && mem[0] == front[0] && mem[1] == front[1] && mem[2..6] == front[2..6] && mem[10..14] == front[10..14]
      && mem[14..18] == back[0..4] && mem[18..22] == back[4..8] && mem[22..26] == back[8..12]
      && mem[26..28] == back[12..14] && mem[28..30] == back[14..16] && mem[30..34] == back[16..20]
  {
  }

  // ---- Geometry ----

  /** The number of cells in n rows. */
  function Cells(width: nat, n: nat): nat {
    width * n
  }

  function AlignUp4(n: nat): nat {
    if n % 4 == 0 then n else n + (4 - n % 4)
  }

  /** Where the code reads row i from: each row ends at the next multiple of four, counted from the file's start. */
  function RowStart(offset: nat, width: nat, i: nat): nat {
    if i == 0 then offset else AlignUp4(RowStart(offset, width, i - 1) + 3 * width)
  }

  /** The length of a row in the file: three bytes a pixel, padded to a multiple of four. */
  function Stride(width: nat): nat {
    AlignUp4(3 * width)
  }

  /** The code takes a pixel's three bytes for green, red and blue. */
  function PixelAt(mem: seq<byte>, at: nat): Pixel
    requires at + 3 <= |mem|
  {
    Pixel(mem[at + 2], mem[at], mem[at + 1], 0)
  }

  /** In the file they are blue, green and red. */
  function ColourAt(mem: seq<byte>, at: nat): Pixel
    requires at + 3 <= |mem|
  {
    Pixel(mem[at], mem[at + 1], mem[at + 2], 0)
  }

  /** So a pixel keeps its colour exactly if it is grey. */
  lemma ColourKeptIff(mem: seq<byte>, at: nat)
    requires at + 3 <= |mem|
    ensures PixelAt(mem, at) == ColourAt(mem, at) <==> mem[at] == mem[at + 1] == mem[at + 2]
    ensures PixelAt(mem, at).green == ColourAt(mem, at).blue && PixelAt(mem, at).red == ColourAt(mem, at).green
    ensures PixelAt(mem, at).blue == ColourAt(mem, at).red
  {
  }

  predicate RowsInMemory(mem: seq<byte>, offset: nat, width: nat, height: nat) {
    forall i | 0 <= i < height :: RowStart(offset, width, i) + 3 * width <= |mem|
  }

  /** Cell k of the output: row k / width from the top is row height - 1 - k / width of the file. */
  function Cell(mem: seq<byte>, offset: nat, width: nat, height: nat, k: nat): Pixel
    requires RowsInMemory(mem, offset, width, height) && 0 < width && k < Cells(width, height)
  {
    RowOfCell(width, height, k);
    PixelAt(mem, RowStart(offset, width, height - 1 - k / width) + 3 * (k % width))
  }

  lemma RowOfCell(width: nat, height: nat, k: nat)
    requires 0 < width && k < Cells(width, height)
    ensures k / width < height && k % width < width
  {
    if k / width >= height {
      MulMonotone(width, height, k / width);
    }
  }

  lemma CellInRow(width: nat, row: nat, j: nat)
    requires j < width
    ensures (width * row + j) / width == row && (width * row + j) % width == j
  {
    ModUnique(width * row + j, width, row, j);
  }

  lemma NextRow(width: nat, n: nat)
    requires n > 0
    ensures width * n == width * (n - 1) + width
  {
  }

  /** Cell j of a row is pixel j of the row's counterpart in the file. */
  lemma CellOfRow(mem: seq<byte>, offset: nat, width: nat, height: nat, row: nat, j: nat, k: nat)
    requires RowsInMemory(mem, offset, width, height)
    requires row < height && j < width && k == Cells(width, row) + j
    ensures k < Cells(width, height)
    ensures RowStart(offset, width, height - 1 - row) + 3 * width <= |mem|
    ensures Cell(mem, offset, width, height, k) == PixelAt(mem, RowStart(offset, width, height - 1 - row) + 3 * j)
  {
    hide RowStart;
    CellInRow(width, row, j);
    NextRow(width, row + 1);
    MulMonotone(width, row + 1, height);
  }

  // ---- The conversion ----

  /** One row: reads width pixels from image on, writes them from cell q on. */
  method ConvertRow(mem: seq<byte>, p: array<Pixel>, image: nat, q: nat, width: nat) returns (next: nat)
    requires image + 3 * width <= |mem| && q + width <= p.Length
    modifies p
    ensures next == image + 3 * width
    ensures forall j | 0 <= j < width :: p[q + j] == PixelAt(mem, image + 3 * j)
    ensures forall k | 0 <= k < p.Length && !(q <= k < q + width) :: p[k] == old(p[k])
  {
    next := image;
    var j := 0;
    while j < width
      invariant 0 <= j <= width && next == image + 3 * j
      invariant forall i | 0 <= i < j :: p[q + i] == PixelAt(mem, image + 3 * i)
      invariant forall k | 0 <= k < p.Length && !(q <= k < q + j) :: p[k] == old(p[k])
    {
      var green := mem[next];
      next := next + 1;
      var red := mem[next];
      next := next + 1;
      var blue := mem[next];
      next := next + 1;
      p[q + j] := Pixel(blue, green, red, 0);
      j := j + 1;
    }
  }

  /** The cells from lo to before hi hold what they should. */
  ghost predicate Converted(cells: seq<Pixel>, lo: nat, hi: nat, mem: seq<byte>, offset: nat, width: nat, height: nat)
    requires RowsInMemory(mem, offset, width, height)
  {
    hi <= |cells| == Cells(width, height)
    && forall k | lo <= k < hi :: width > 0 && cells[k] == Cell(mem, offset, width, height, k)
  }

  /** All rows, the file's first one last. */
  method ConvertRows(mem: seq<byte>, p: array<Pixel>, offset: nat, width: nat, height: nat)
    requires RowsInMemory(mem, offset, width, height) && p.Length == Cells(width, height)
    modifies p
    ensures Converted(p[..], 0, p.Length, mem, offset, width, height)
  {
    hide Cell, RowStart, RowsInMemory, Cells;
    var image, i := offset, 0;
    ghost var top := Cells(width, height);
    FirstRow(offset, width);
    while i < height
      invariant 0 <= i <= height
      invariant image == RowStart(offset, width, i) && top == Cells(width, height - i)
      invariant Converted(p[..], top, p.Length, mem, offset, width, height)
    {
      var row := height - i - 1;
      var q := Cells(width, row);
      RowSpan(width, height, row);
      RowInMemory(mem, offset, width, height, i);
      ghost var below := p[..];
      var next := ConvertRow(mem, p, image, q, width);
      RowConverted(p[..], mem, offset, width, height, row, q);
      StillConverted(below, p[..], q, top, mem, offset, width, height);
      top := q;
      FollowingRow(offset, width, i);
      image := next;
      if image % 4 != 0 {
        image := image + (4 - image % 4);
      }
      i := i + 1;
    }
  }

  lemma RowSpan(width: nat, height: nat, row: nat)
    requires row < height
    ensures Cells(width, row) + width == Cells(width, row + 1) <= Cells(width, height)
  {
    NextRow(width, row + 1);
    MulMonotone(width, row + 1, height);
  }

  lemma RowInMemory(mem: seq<byte>, offset: nat, width: nat, height: nat, i: nat)
    requires RowsInMemory(mem, offset, width, height) && i < height
    ensures RowStart(offset, width, i) + 3 * width <= |mem|
  {
  }

  lemma RowConverted(cells: seq<Pixel>, mem: seq<byte>, offset: nat, width: nat, height: nat, row: nat, q: nat)
    requires RowsInMemory(mem, offset, width, height) && row < height && q == Cells(width, row)
    requires |cells| == Cells(width, height) && q + width <= |cells|
    requires RowStart(offset, width, height - 1 - row) + 3 * width <= |mem|
    requires forall j | 0 <= j < width ::
      cells[q + j] == PixelAt(mem, RowStart(offset, width, height - 1 - row) + 3 * j)
    ensures Converted(cells, q, q + width, mem, offset, width, height)
  {
    hide Cell, RowStart, RowsInMemory;
    forall k | q <= k < q + width
      ensures cells[k] == Cell(mem, offset, width, height, k)
    {
      CellOfRow(mem, offset, width, height, row, k - q, k);
      assert cells[q + (k - q)] == cells[k];
    }
  }

  lemma StillConverted(before: seq<Pixel>, cells: seq<Pixel>, lo: nat, mid: nat, mem: seq<byte>, offset: nat,
                       width: nat, height: nat)
    requires RowsInMemory(mem, offset, width, height) && lo <= mid <= |before| == |cells|
    requires Converted(before, mid, |before|, mem, offset, width, height)
    requires Converted(cells, lo, mid, mem, offset, width, height)
    requires forall k | mid <= k < |cells| :: cells[k] == before[k]
    ensures Converted(cells, lo, |cells|, mem, offset, width, height)
  {
    hide Cell, RowsInMemory;
  }

  lemma AllConverted(cells: seq<Pixel>, mem: seq<byte>, offset: nat, width: nat, height: nat)
    requires RowsInMemory(mem, offset, width, height)
    requires Converted(cells, 0, |cells|, mem, offset, width, height)
    ensures forall k | 0 <= k < |cells| :: width > 0 && cells[k] == Cell(mem, offset, width, height, k)
  {
  }

  lemma FirstRow(offset: nat, width: nat)
    ensures RowStart(offset, width, 0) == offset
    ensures Cells(width, 0) == 0
  {
  }

  lemma FollowingRow(offset: nat, width: nat, i: nat)
    ensures RowStart(offset, width, i + 1) == AlignUp4(RowStart(offset, width, i) + 3 * width)
  {
  }

  /** The image lies at the start of mem; havePool says whether there was memory for the pixels. Null otherwise. */
  method ConvBitmap(mem: seq<byte>, havePool: bool) returns (p: array?<Pixel>, width: nat, height: nat)
    requires |mem| >= BMP_HEADER_SIZE
    requires var h := ReadHeader(mem); Supported(h) ==> RowsInMemory(mem, h.imageOffset, h.width, h.height)
    ensures p != null <==> Supported(ReadHeader(mem)) && havePool
    ensures p != null ==>
      var h := ReadHeader(mem);
      && fresh(p) && width == h.width && height == h.height && p.Length == Cells(width, height)
      && forall k | 0 <= k < p.Length :: width > 0 && p[k] == Cell(mem, h.imageOffset, width, height, k)
  {
    var h := ReadHeader(mem);
    width, height := 0, 0;
    if h.charB != CHAR_B || h.charM != CHAR_M {
      return null, width, height;
    }
    if h.headerSize != BMP_HEADER_SIZE - 14 {
      return null, width, height;
    }
    if h.size < h.imageOffset {
      return null, width, height;
    }
    if h.planes != 1 {
      return null, width, height;
    }
    if h.bitPerPixel != 24 {
      return null, width, height;
    }
    if h.compression != 0 {
      return null, width, height;
    }
    width, height := h.width, h.height;
    if !havePool {
      return null, width, height;
    }
    var pixels := new Pixel[Cells(width, height)](_ => Pixel(0, 0, 0, 0));
    ConvertRows(mem, pixels, h.imageOffset, width, height);
    AllConverted(pixels[..], mem, h.imageOffset, width, height);
    p := pixels;
  }

  // ---- When the rows are where the file format puts them ----

  lemma AlignedRow(offset: nat, width: nat, k: nat)
    requires offset % 4 == 0 && k % 4 == 0
    ensures AlignUp4(offset + k + 3 * width) == offset + k + Stride(width)
    ensures (k + Stride(width)) % 4 == 0
  {
  }

  lemma {:induction false} RowStartAligned(offset: nat, width: nat, i: nat)
    requires offset % 4 == 0
    ensures RowStart(offset, width, i) == offset + Stride(width) * i && (Stride(width) * i) % 4 == 0
  {
    hide Stride, AlignUp4;
    if i > 0 {
      RowStartAligned(offset, width, i - 1);
      AlignedRow(offset, width, Stride(width) * (i - 1));
      NextRow(Stride(width), i);
    }
  }

  lemma SecondRowMisplaced(offset: nat, width: nat)
    requires offset % 4 != 0
    ensures AlignUp4(offset + 3 * width) != offset + Stride(width)
  {
  }

  /** Every row is read from offset + stride * i exactly if there is at most one row or 4 divides the offset. */
  lemma RowsAtStrideIff(offset: nat, width: nat, height: nat)
    ensures (forall i | 0 <= i < height :: RowStart(offset, width, i) == offset + Stride(width) * i)
       <==> height <= 1 || offset % 4 == 0
  {
    hide Stride, AlignUp4;
    var s := Stride(width);
    if offset % 4 == 0 {
      forall i | 0 <= i < height
        ensures RowStart(offset, width, i) == offset + s * i
      {
        RowStartAligned(offset, width, i);
      }
    } else if height > 1 {
      FirstRow(offset, width);
      FollowingRow(offset, width, 0);
      SecondRowMisplaced(offset, width);
      assert s * 1 == s;
      assert RowStart(offset, width, 1) != offset + s * 1;
    } else {
      forall i | 0 <= i < height
        ensures RowStart(offset, width, i) == offset + s * i
      {
        assert i == 0 && s * 0 == 0;
      }
    }
  }

  /** Pixel j of file row i, at offset + stride * i + 3 * j, is the pixel in column j of row height - 1 - i. */
  lemma PixelPosition(mem: seq<byte>, offset: nat, width: nat, height: nat, i: nat, j: nat, k: nat, at: nat)
    requires RowsInMemory(mem, offset, width, height) && offset % 4 == 0
    requires i < height && j < width
    requires k == Cells(width, height - 1 - i) + j && at == offset + Stride(width) * i + 3 * j
    ensures k < Cells(width, height) && at + 3 <= |mem|
    ensures Cell(mem, offset, width, height, k) == PixelAt(mem, at)
  {
    hide Stride, RowStart, Cell;
    RowStartAligned(offset, width, i);
    CellOfRow(mem, offset, width, height, height - 1 - i, j, k);
  }
}
