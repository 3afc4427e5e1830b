/**
 Loading of an uncompressed 24-bit BMP file: in-place reversal of the rows of a
 bottom-up file and conversion from interleaved pixels to colour planes
 (validation/umd-test/image.cpp, the branch without OpenCV).
 */
module Bmp {
  import opened Bits

  datatype LoadError = Compressed | UnsupportedDepth | Padded

  datatype Result = Success(image: Image) | Failure(error: LoadError)

  /** data, and the geometry of the pixel bytes that start at offset. */
  datatype Image = Image(data: seq<Byte>, height: nat, width: nat, offset: nat, sizeInBytes: nat)

  // ---------------------------------------------------------------------- the header

  const HEADERS_SIZE := 54

  function Signed32(v: nat): (r: int)
  {
    if v % 0x1_0000_0000 < 0x8000_0000 then v % 0x1_0000_0000 else v % 0x1_0000_0000 - 0x1_0000_0000
  }

  function Signed16(v: nat): (r: int)
  {
    if v % 0x1_0000 < 0x8000 then v % 0x1_0000 else v % 0x1_0000 - 0x1_0000
  }

  /** The header fields the loader looks at. */
  datatype Header = Header(offset: nat, width: int, height: int, bitCount: int, compression: int)

  function ParseHeader(file: seq<Byte>): (hd: Header)
    requires |file| >= HEADERS_SIZE
  {
    Header(FromLe(file[10..14]),
           Signed32(FromLe(file[18..22])),
           Signed32(FromLe(file[22..26])),
           Signed16(FromLe(file[28..30])),
           Signed32(FromLe(file[30..34])))
  }

  function Abs(x: int): (r: nat)
  {
    if x < 0 then -x else x
  }

  /** Where the pixels are and how they are arranged. */
  datatype Geometry = Geometry(offset: nat, width: nat, height: nat, bottomUp: bool)

  function GeometryOf(hd: Header): (g: Geometry)
    requires hd.width >= 0
  {
    Geometry(hd.offset, hd.width, Abs(hd.height), hd.height > 0)
  }

  predicate Fits(g: Geometry, size: nat)
  {
    RowStart(g.offset, g.width * 3, g.height) <= size
  }

  /** The header passes the loader's checks, so its pixels will be read. */
  predicate Readable(hd: Header)
  {
    hd.compression == 0 && 24 <= hd.bitCount < 32 && hd.width * 3 % 4 == 0
  }

  /** If pixels will be read, all the header announces are in the file; the loader does not check this. */
  predicate PixelsPresent(hd: Header, file: seq<Byte>)
  {
    Readable(hd) ==> hd.width >= 0 && Fits(GeometryOf(hd), |file|)
  }

  // -------------------------------------------------------------------- rows of bytes

  /** First byte of row y: offset + y * stride (RowStartIsMul). */
  function RowStart(offset: nat, stride: nat, y: nat): (r: nat)
    ensures r >= offset
  {
    if y == 0 then offset else RowStart(offset, stride, y - 1) + stride
  }

  lemma {:induction false} RowStartIsMul(offset: nat, stride: nat, y: nat)
    ensures RowStart(offset, stride, y) == offset + y * stride
  {
    if y > 0 {
      RowStartIsMul(offset, stride, y - 1);
      assert y * stride == (y - 1) * stride + stride;
    }
  }

  lemma {:induction false} RowsOrdered(offset: nat, stride: nat, y: nat, z: nat)
    requires y < z
    ensures RowStart(offset, stride, y) + stride <= RowStart(offset, stride, z)
  {
    if y < z - 1 { RowsOrdered(offset, stride, y, z - 1); }
  }

  function Row(s: seq<Byte>, offset: nat, stride: nat, height: nat, y: nat): (r: seq<Byte>)
    requires y < height && RowStart(offset, stride, height) <= |s|
    ensures |r| == stride
  {
    RowsOrdered(offset, stride, y, height);
    s[RowStart(offset, stride, y)..RowStart(offset, stride, y) + stride]
  }

  /** t is s with its rows in reverse order; nothing outside the rows differs. */
  ghost predicate Flipped(s: seq<Byte>, t: seq<Byte>, offset: nat, stride: nat, height: nat)
  {
    && |t| == |s| && RowStart(offset, stride, height) <= |s|
    && (forall y :: 0 <= y < height ==>
          Row(t, offset, stride, height, y) == Row(s, offset, stride, height, height - 1 - y))
    && t[..offset] == s[..offset]
    && t[RowStart(offset, stride, height)..] == s[RowStart(offset, stride, height)..]
  }

  method SwapRows(data: array<Byte>, dst: nat, src: nat, stride: nat)
    requires dst + stride <= src && src + stride <= data.Length
    modifies data
    ensures data[dst..dst + stride] == old(data[src..src + stride])
    ensures data[src..src + stride] == old(data[dst..dst + stride])
    ensures forall k :: 0 <= k < data.Length && !(dst <= k < dst + stride) && !(src <= k < src + stride)
                        ==> data[k] == old(data[k])
  {
    for j := 0 to stride
      invariant data[dst..dst + j] == old(data[src..src + j])
      invariant data[src..src + j] == old(data[dst..dst + j])
      invariant forall k :: 0 <= k < data.Length && !(dst <= k < dst + j) && !(src <= k < src + j)
                            ==> data[k] == old(data[k])
    {
      ghost var before := data[..];
      data[src + j], data[dst + j] := data[dst + j], data[src + j];
      SwappedSoFar(before, data[..], dst, src, j);
    }
  }

  /** Swapping byte j of two rows after the first j bytes. */
  lemma SwappedSoFar(s: seq<Byte>, t: seq<Byte>, dst: nat, src: nat, j: nat)
    requires dst + j < src && src + j < |s| == |t|
    requires t == s[dst + j := s[src + j]][src + j := s[dst + j]]
    ensures t[dst..dst + j + 1] == s[dst..dst + j] + [s[src + j]]
    ensures t[src..src + j + 1] == s[src..src + j] + [s[dst + j]]
  {
  }

  /** The state of the reversal after i swaps. */
  ghost predicate HalfFlipped(s: seq<Byte>, t: seq<Byte>, offset: nat, stride: nat, height: nat, i: nat)
  {
    && |t| == |s| && RowStart(offset, stride, height) <= |s|
    && (forall y :: 0 <= y < height ==>
          Row(t, offset, stride, height, y)
          == Row(s, offset, stride, height, if y < i || height - i <= y then height - 1 - y else y))
    && t[..offset] == s[..offset]
    && t[RowStart(offset, stride, height)..] == s[RowStart(offset, stride, height)..]
  }

  lemma SwapStep(s: seq<Byte>, t: seq<Byte>, u: seq<Byte>, offset: nat, stride: nat, height: nat, i: nat)
    requires i < height / 2
    requires HalfFlipped(s, t, offset, stride, height, i)
    requires |u| == |t|
    requires Row(u, offset, stride, height, i) == Row(t, offset, stride, height, height - 1 - i)
    requires Row(u, offset, stride, height, height - 1 - i) == Row(t, offset, stride, height, i)
    requires forall k :: 0 <= k < |u|
                && !(RowStart(offset, stride, i) <= k < RowStart(offset, stride, i) + stride)
                && !(RowStart(offset, stride, height - 1 - i) <= k < RowStart(offset, stride, height - 1 - i) + stride)
                ==> u[k] == t[k]
    ensures HalfFlipped(s, u, offset, stride, height, i + 1)
  {
    hide RowStart;
    var j := height - 1 - i;
    forall y | 0 <= y < height && y != i && y != j
      ensures Row(u, offset, stride, height, y) == Row(t, offset, stride, height, y)
    {
      RowKept(t, u, offset, stride, height, i, j, y);
    }
    RowsOrdered(offset, stride, i, height);
    RowsOrdered(offset, stride, j, height);
    assert u[..offset] == t[..offset];
    assert u[RowStart(offset, stride, height)..] == t[RowStart(offset, stride, height)..];
  }

  lemma RowKept(t: seq<Byte>, u: seq<Byte>, offset: nat, stride: nat, height: nat, i: nat, j: nat, y: nat)
    requires y < height && y != i && y != j
    requires |u| == |t| && RowStart(offset, stride, height) <= |t|
    requires forall k :: 0 <= k < |u|
                && !(RowStart(offset, stride, i) <= k < RowStart(offset, stride, i) + stride)
                && !(RowStart(offset, stride, j) <= k < RowStart(offset, stride, j) + stride)
                ==> u[k] == t[k]
    ensures Row(u, offset, stride, height, y) == Row(t, offset, stride, height, y)
  {
    hide RowStart;
    RowsApart(offset, stride, y, i);
    RowsApart(offset, stride, y, j);
    RowsOrdered(offset, stride, y, height);
  }

  lemma RowsApart(offset: nat, stride: nat, y: nat, z: nat)
    requires y != z
    ensures RowStart(offset, stride, y) + stride <= RowStart(offset, stride, z)
         || RowStart(offset, stride, z) + stride <= RowStart(offset, stride, y)
  {
    if y < z { RowsOrdered(offset, stride, y, z); } else { RowsOrdered(offset, stride, z, y); }
  }

  lemma RowStartStep(offset: nat, stride: nat, y: nat)
    ensures RowStart(offset, stride, 0) == offset
    ensures RowStart(offset, stride, y + 1) == RowStart(offset, stride, y) + stride
  {
  }

  lemma FlipBegins(s: seq<Byte>, offset: nat, stride: nat, height: nat)
    requires RowStart(offset, stride, height) <= |s|
    ensures HalfFlipped(s, s, offset, stride, height, 0)
  {
    hide RowStart;
  }

  lemma FlipEnds(s: seq<Byte>, t: seq<Byte>, offset: nat, stride: nat, height: nat)
    requires HalfFlipped(s, t, offset, stride, height, height / 2)
    ensures Flipped(s, t, offset, stride, height)
  {
    hide RowStart;
  }

  /** The loop over row pairs, with the two moving pointers. */
  method ReverseRows(data: array<Byte>, offset: nat, stride: nat, height: nat)
    requires height > 0 && RowStart(offset, stride, height) <= data.Length
    modifies data
    ensures Flipped(old(data[..]), data[..], offset, stride, height)
  {
    hide RowStart, HalfFlipped, Flipped;
    ghost var before := data[..];
    var dst := offset;
    var src := offset + (height - 1) * stride;
    RowStartIsMul(offset, stride, height - 1);
    RowStartStep(offset, stride, 0);
    FlipBegins(before, offset, stride, height);
    for i := 0 to height / 2
      invariant dst == RowStart(offset, stride, i)
      invariant src == RowStart(offset, stride, height - 1 - i)
      invariant HalfFlipped(before, data[..], offset, stride, height, i)
    {
      RowsOrdered(offset, stride, i, height - 1 - i);
      RowsOrdered(offset, stride, height - 1 - i, height);
      ghost var t := data[..];
      SwapRows(data, dst, src, stride);
      assert data[dst..dst + stride] == data[..][dst..dst + stride];
      assert data[src..src + stride] == data[..][src..src + stride];
      SwapStep(before, t, data[..], offset, stride, height, i);
      RowStartStep(offset, stride, i);
      RowStartStep(offset, stride, height - 2 - i);
      dst := dst + stride;
      src := src - stride;
    }
    FlipEnds(before, data[..], offset, stride, height);
  }

  // ------------------------------------------------------------------- colour planes

  /** The inner loop: one byte of pixel i to each plane. */
  method CopyPixel(data: array<Byte>, chw: array<Byte>, offset: nat, pixels: nat, i: nat)
    requires i < pixels && offset + pixels * 3 <= data.Length && chw.Length == pixels * 3 && chw != data
    modifies chw
    ensures chw[i] == data[offset + i * 3]
    ensures chw[i + pixels] == data[offset + i * 3 + 1]
    ensures chw[i + pixels * 2] == data[offset + i * 3 + 2]
    ensures forall k :: 0 <= k < chw.Length && k != i && k != i + pixels && k != i + pixels * 2
                        ==> chw[k] == old(chw[k])
  {
    for c := 0 to 3
      invariant c > 0 ==> chw[i] == data[offset + i * 3]
      invariant c > 1 ==> chw[i + pixels] == data[offset + i * 3 + 1]
      invariant c > 2 ==> chw[i + pixels * 2] == data[offset + i * 3 + 2]
      invariant forall k :: 0 <= k < chw.Length && k != i && k != i + pixels && k != i + pixels * 2
                            ==> chw[k] == old(chw[k])
    {
      PlaneStart(pixels, c);
      chw[i + pixels * c] := data[offset + i * 3 + c];
    }
  }

  lemma PlaneStart(pixels: nat, c: nat)
    requires c < 3
    ensures pixels * c == c * pixels == if c == 0 then 0 else if c == 1 then pixels else pixels * 2
  {
  }

  /** The loop that fills the chw vector: plane c holds channel c of every pixel. */
  method ToPlanes(data: array<Byte>, offset: nat, pixels: nat) returns (chw: array<Byte>)
    requires offset + pixels * 3 <= data.Length
    ensures fresh(chw) && chw.Length == pixels * 3
    ensures forall i :: 0 <= i < pixels ==>
              && chw[i] == data[offset + i * 3]
              && chw[i + pixels] == data[offset + i * 3 + 1]
              && chw[i + pixels * 2] == data[offset + i * 3 + 2]
  {
    chw := new Byte[pixels * 3](_ => 0);
    for i := 0 to pixels
      invariant forall j :: 0 <= j < i ==>
                  && chw[j] == data[offset + j * 3]
                  && chw[j + pixels] == data[offset + j * 3 + 1]
                  && chw[j + pixels * 2] == data[offset + j * 3 + 2]
    {
      CopyPixel(data, chw, offset, pixels, i);
    }
  }

  // ----------------------------------------------------------------------- the loader

  predicate InPicture(g: Geometry, x: nat, y: nat, c: nat)
  {
    x < g.width && y < g.height && c < 3
  }

  /** Channel c of the pixel in column x of the row stored y-th in the file. */
  function FilePixel(g: Geometry, file: seq<Byte>, x: nat, y: nat, c: nat): (r: Byte)
    requires InPicture(g, x, y, c) && Fits(g, |file|)
  {
    Row(file, g.offset, g.width * 3, g.height, y)[x * 3 + c]
  }

  /** Position of channel c of pixel (x, y) relative to the first pixel byte of the image. */
  function ByteAt(g: Geometry, planes: bool, x: nat, y: nat, c: nat): (r: nat)
  {
    if planes then c * (g.height * g.width) + y * g.width + x else (y * g.width + x) * 3 + c
  }

  ghost predicate PixelShown(g: Geometry, file: seq<Byte>, data: seq<Byte>, planes: bool, x: nat, y: nat, c: nat)
    requires InPicture(g, x, y, c) && Fits(g, |file|)
  {
    var at := g.offset + ByteAt(g, planes, x, y, c);
    && at < |data|
    && data[at] == FilePixel(g, file, x, if g.bottomUp then g.height - 1 - y else y, c)
  }

  /** The loaded picture, top row first, is the picture of the file. */
  ghost predicate ShowsPicture(g: Geometry, file: seq<Byte>, data: seq<Byte>, planes: bool)
    requires Fits(g, |file|)
  {
    forall x: nat, y: nat, c: nat :: InPicture(g, x, y, c) ==> PixelShown(g, file, data, planes, x, y, c)
  }

  /** The bytes of the pixel area after the optional reversal. */
  ghost predicate Upright(g: Geometry, file: seq<Byte>, data: seq<Byte>)
  {
    if g.bottomUp then Flipped(file, data, g.offset, g.width * 3, g.height) else data == file
  }

  /** What the constructor does once the header is known: the outcome for every header. */
  ghost predicate LoadOutcome(hd: Header, file: seq<Byte>, layoutChw: bool, r: Result)
    requires PixelsPresent(hd, file)
  {
    if hd.compression != 0 then r == Failure(Compressed)
    else if !(24 <= hd.bitCount < 32) then r == Failure(UnsupportedDepth)
    else if hd.width * 3 % 4 != 0 then r == Failure(Padded)
    else
      var g := GeometryOf(hd);
      && r.Success?
      && r.image.offset == g.offset && r.image.height == g.height && r.image.width == g.width
      && r.image.sizeInBytes == g.height * (g.width * 3)
      && ShowsPicture(g, file, r.image.data, layoutChw)
  }

  method Load(file: seq<Byte>, layoutChw: bool) returns (r: Result)
    requires |file| >= HEADERS_SIZE && PixelsPresent(ParseHeader(file), file)
    ensures LoadOutcome(ParseHeader(file), file, layoutChw, r)
    ensures ShowsBytes(file, layoutChw, r)
  {
    r := LoadPixels(ParseHeader(file), file, layoutChw);
    OutcomeFromBytes(file, layoutChw, r);
  }

  // --------------------------------------------------- the outcome in terms of the file's bytes

  /** Byte c of pixel (x, y), counted from the top, of H rows of W pixels whose bytes start at offset. */
  ghost predicate SameByte(file: seq<Byte>, data: seq<Byte>, offset: nat, W: nat, H: nat, bottomUp: bool, chw: bool,
                           x: nat, y: nat, c: nat)
    requires y < H
  {
    var at: int := offset + (if chw then c * (H * W) + y * W + x else (y * W + x) * 3 + c);
    var from: int := offset + (if bottomUp then H - 1 - y else y) * (W * 3) + x * 3 + c;
    0 <= at < |data| && 0 <= from < |file| && data[at] == file[from]
  }

  /**
   The outcome read off the bytes alone: offset at 10, width at 18, height at 22, bits per pixel
   at 28 and compression at 30, all little-endian; the height is a signed number, positive when
   the rows are stored bottom-up.
   */
  ghost predicate ShowsBytes(file: seq<Byte>, chw: bool, r: Result)
    requires |file| >= 54
  {
    var offset, W, height := FromLe(file[10..14]), FromLe(file[18..22]), FromLe(file[22..26]);
    var bits, compression := FromLe(file[28..30]), FromLe(file[30..34]);
    var bottomUp := 0 < height < 0x8000_0000;
    var H: int := if height < 0x8000_0000 then height else 0x1_0000_0000 - height;
    if compression != 0 then r == Failure(Compressed)
    else if bits < 24 || 32 <= bits then r == Failure(UnsupportedDepth)
    else if W * 3 % 4 != 0 then r == Failure(Padded)
    else
      && r.Success? && H >= 0
      && r.image.offset == offset && r.image.width == W && r.image.height == H && r.image.sizeInBytes == H * (W * 3)
      && forall x: nat, y: nat, c: nat :: x < W && y < H && c < 3 ==>
           SameByte(file, r.image.data, offset, W, H, bottomUp, chw, x, y, c)
  }

  lemma FourBytes(s: seq<Byte>)
    requires |s| == 4
    ensures FromLe(s) < 0x1_0000_0000
  {
    hide FromLe, Pow2;
    FromLeBound(s);
    Pow2Of8();
    Pow2Add(8, 8);
    Pow2Add(16, 16);
  }

  lemma TwoBytes(s: seq<Byte>)
    requires |s| == 2
    ensures FromLe(s) < 0x1_0000
  {
    hide FromLe, Pow2;
    FromLeBound(s);
    Pow2Of8();
    Pow2Add(8, 8);
  }

  lemma OutcomeFromBytes(file: seq<Byte>, chw: bool, r: Result)
    requires |file| >= HEADERS_SIZE && PixelsPresent(ParseHeader(file), file)
    requires LoadOutcome(ParseHeader(file), file, chw, r)
    ensures ShowsBytes(file, chw, r)
  {
    hide FromLe, Fits, ShowsPicture, SameByte, ParseHeader;
    HeaderBytes(file);
    var hd := ParseHeader(file);
    if Readable(hd) {
      var g := GeometryOf(hd);
      forall x: nat, y: nat, c: nat | x < g.width && y < g.height && c < 3
        ensures SameByte(file, r.image.data, g.offset, g.width, g.height, g.bottomUp, chw, x, y, c)
      {
        PixelBytes(g, file, r.image.data, chw, x, y, c);
      }
    }
  }

  /** The header's numbers in terms of the unsigned fields they are read from. */
  lemma HeaderBytes(file: seq<Byte>)
    requires |file| >= HEADERS_SIZE
    ensures var hd, W, height := ParseHeader(file), FromLe(file[18..22]), FromLe(file[22..26]);
            && hd.offset == FromLe(file[10..14])
            && W < 0x1_0000_0000 && hd.width == (if W < 0x8000_0000 then W else W - 0x1_0000_0000)
            && height < 0x1_0000_0000 && hd.height == (if height < 0x8000_0000 then height else height - 0x1_0000_0000)
            && (24 <= hd.bitCount < 32 <==> 24 <= FromLe(file[28..30]) < 32)
            && (hd.compression == 0 <==> FromLe(file[30..34]) == 0)
            && hd.width * 3 % 4 == W * 3 % 4
  {
    hide FromLe;
    FourBytes(file[18..22]);
    FourBytes(file[22..26]);
    TwoBytes(file[28..30]);
    FourBytes(file[30..34]);
    WidthMod(FromLe(file[18..22]));
  }

  lemma WidthMod(v: nat)
    requires v < 0x1_0000_0000
    ensures Signed32(v) * 3 % 4 == v * 3 % 4
  {
  }

  lemma PixelBytes(g: Geometry, file: seq<Byte>, data: seq<Byte>, chw: bool, x: nat, y: nat, c: nat)
    requires Fits(g, |file|) && ShowsPicture(g, file, data, chw) && InPicture(g, x, y, c)
    ensures SameByte(file, data, g.offset, g.width, g.height, g.bottomUp, chw, x, y, c)
  {
    hide RowStart;
    assert PixelShown(g, file, data, chw, x, y, c);
    var row := if g.bottomUp then g.height - 1 - y else y;
    RowByte(file, g.offset, g.width * 3, g.height, row, x * 3 + c);
    RowStartIsMul(g.offset, g.width * 3, row);
  }

  method LoadPixels(hd: Header, file: seq<Byte>, layoutChw: bool) returns (r: Result)
    requires PixelsPresent(hd, file)
    ensures LoadOutcome(hd, file, layoutChw, r)
  {
    if hd.compression != 0 { return Failure(Compressed); }
    var channels := hd.bitCount / 8;
    if channels != 3 { return Failure(UnsupportedDepth); }
    var stride := hd.width * 3;
    if stride % 4 != 0 { return Failure(Padded); }
    var g := GeometryOf(hd);
    var data := Pixels(file, g, layoutChw);
    r := Success(Image(data, g.height, g.width, g.offset, g.height * stride));
  }

  /** The two transformations, in place on the file content. */
  method Pixels(file: seq<Byte>, g: Geometry, layoutChw: bool) returns (result: seq<Byte>)
    requires Fits(g, |file|) && (g.bottomUp ==> g.height > 0)
    ensures ShowsPicture(g, file, result, layoutChw)
  {
    hide RowStart, Flipped, ShowsPicture;
    var data := new Byte[|file|](i requires 0 <= i < |file| => file[i]);
    assert data[..] == file;
    if g.bottomUp {
      ReverseRows(data, g.offset, g.width * 3, g.height);
    }
    if layoutChw {
      AreaSize(g);
      var chw := ToPlanes(data, g.offset, g.height * g.width);
      assert IsPlanes(data[..], chw[..], g.offset, g.height * g.width);
      PlanesShowPicture(g, file, data[..], chw[..]);
      result := data[..g.offset] + chw[..] + data[g.offset..];
    } else {
      RowsShowPicture(g, file, data[..]);
      result := data[..];
    }
  }

  lemma AreaSize(g: Geometry)
    ensures RowStart(g.offset, g.width * 3, g.height) == g.offset + g.height * g.width * 3
  {
    hide RowStart;
    RowStartIsMul(g.offset, g.width * 3, g.height);
    assert g.height * (g.width * 3) == g.height * g.width * 3;
  }

  lemma PixelIndex(g: Geometry, x: nat, y: nat, c: nat)
    requires InPicture(g, x, y, c)
    ensures y * g.width + x < g.height * g.width
    ensures y * (g.width * 3) + x * 3 == (y * g.width + x) * 3
  {
    MulBound(y, g.width, g.height, x);
    assert y * (g.width * 3) == y * g.width * 3;
  }

  lemma UprightPixel(g: Geometry, file: seq<Byte>, data: seq<Byte>, x: nat, y: nat, c: nat)
    requires Fits(g, |file|) && Upright(g, file, data) && InPicture(g, x, y, c)
    ensures |data| == |file| && g.offset + (y * g.width + x) * 3 + c < |data|
    ensures data[g.offset + (y * g.width + x) * 3 + c]
         == FilePixel(g, file, x, if g.bottomUp then g.height - 1 - y else y, c)
  {
    hide RowStart;
    PixelIndex(g, x, y, c);
    RowStartIsMul(g.offset, g.width * 3, y);
    RowByte(data, g.offset, g.width * 3, g.height, y, x * 3 + c);
  }

  lemma RowByte(s: seq<Byte>, offset: nat, stride: nat, height: nat, y: nat, j: nat)
    requires y < height && j < stride && RowStart(offset, stride, height) <= |s|
    ensures RowStart(offset, stride, y) + j < |s|
    ensures Row(s, offset, stride, height, y)[j] == s[RowStart(offset, stride, y) + j]
  {
    RowsOrdered(offset, stride, y, height);
  }

  lemma RowsShowPicture(g: Geometry, file: seq<Byte>, data: seq<Byte>)
    requires Fits(g, |file|) && Upright(g, file, data)
    ensures ShowsPicture(g, file, data, false)
  {
    hide RowStart, Flipped;
    forall x: nat, y: nat, c: nat | InPicture(g, x, y, c)
      ensures PixelShown(g, file, data, false, x, y, c)
    {
      UprightPixel(g, file, data, x, y, c);
    }
  }

  /** chw holds the n pixels of data, plane by plane. */
  ghost predicate IsPlanes(data: seq<Byte>, chw: seq<Byte>, offset: nat, n: nat)
  {
    && |chw| == n * 3 && offset + n * 3 <= |data|
    && forall i :: 0 <= i < n ==>
         && chw[i] == data[offset + i * 3]
         && chw[i + n] == data[offset + i * 3 + 1]
         && chw[i + n * 2] == data[offset + i * 3 + 2]
  }

  lemma PlanesShowPicture(g: Geometry, file: seq<Byte>, data: seq<Byte>, chw: seq<Byte>)
    requires Fits(g, |file|) && Upright(g, file, data)
    requires IsPlanes(data, chw, g.offset, g.height * g.width)
    requires g.offset <= |data|
    ensures ShowsPicture(g, file, data[..g.offset] + chw + data[g.offset..], true)
  {
    hide PixelShown, Upright, IsPlanes, Fits;
    forall x: nat, y: nat, c: nat | InPicture(g, x, y, c)
      ensures PixelShown(g, file, data[..g.offset] + chw + data[g.offset..], true, x, y, c)
    {
      PlanesShowPixel(g, file, data, chw, x, y, c);
    }
  }

  lemma PlanesShowPixel(g: Geometry, file: seq<Byte>, data: seq<Byte>, chw: seq<Byte>, x: nat, y: nat, c: nat)
    requires Fits(g, |file|) && Upright(g, file, data) && InPicture(g, x, y, c)
    requires IsPlanes(data, chw, g.offset, g.height * g.width)
    requires g.offset <= |data|
    ensures PixelShown(g, file, data[..g.offset] + chw + data[g.offset..], true, x, y, c)
  {
    hide Upright, Fits, FilePixel, ByteAt, IsPlanes;
    var n, i := g.height * g.width, y * g.width + x;
    UprightPixel(g, file, data, x, y, c);
    PixelIndex(g, x, y, c);
    PlanesAt(data, chw, g.offset, n, i);
    PlaneByte(data, chw, g.offset, n, i, c);
    assert ByteAt(g, true, x, y, c) == c * n + i by { PlanePosition(g, x, y, c); }
  }

  lemma PlanePosition(g: Geometry, x: nat, y: nat, c: nat)
    ensures ByteAt(g, true, x, y, c) == c * (g.height * g.width) + (y * g.width + x)
  {
  }

  lemma PlanesAt(data: seq<Byte>, chw: seq<Byte>, offset: nat, n: nat, i: nat)
    requires IsPlanes(data, chw, offset, n) && i < n
    ensures |chw| == n * 3 && offset + n * 3 <= |data|
    ensures chw[i] == data[offset + i * 3]
    ensures chw[i + n] == data[offset + i * 3 + 1]
    ensures chw[i + n * 2] == data[offset + i * 3 + 2]
  {
  }

  lemma PlaneByte(data: seq<Byte>, chw: seq<Byte>, offset: nat, n: nat, i: nat, c: nat)
    requires i < n && c < 3 && |chw| == n * 3 && offset + n * 3 <= |data|
    requires && chw[i] == data[offset + i * 3]
             && chw[i + n] == data[offset + i * 3 + 1]
             && chw[i + n * 2] == data[offset + i * 3 + 2]
    ensures c * n + i < n * 3
    ensures (data[..offset] + chw + data[offset..])[offset + c * n + i] == data[offset + i * 3 + c]
  {
    PlaneStart(n, c);
  }
}
