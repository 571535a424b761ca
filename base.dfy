/**
 * The raster handle of a hyperspectral image held in the hierarchical
 * container (NEON) layout, and the restartable iterator over it.
 *
 * The data cube is addressed (line, column, band). Reads slice it directly;
 * masks are boolean (line, column) grids registered by name; the iterator
 * yields, call by call, which line, column, band or clipped chunk it reads.
 */
module Base {

  import Arith
  import Grid
  import Spectral
  import Tiling

  type Cube = seq<seq<seq<int>>>

  /** `d` has `lines` lines of `columns` pixels of `bands` values. */
  predicate IsCube(d: Cube, lines: nat, columns: nat, bands: nat)
  {
    |d| == lines && forall l :: 0 <= l < lines ==> Grid.IsGrid(d[l], columns, bands)
  }

  datatype Option<T> = None | Some(value: T)

  /** A band image: the whole (lines, columns) grid, or the values a mask keeps. */
  datatype BandData = Full(rows: seq<seq<int>>) | Masked(values: seq<int>)

  datatype ReadError =
    | NoWavelengths        // the image has no wavelengths to compare against
    | OutOfRange           // wavelength outside [min, max]; the source returns None
    | UnknownMask(name: string)  // no mask registered under that name (KeyError)
    | MaskShape(name: string)    // boolean mask not shaped (lines, columns) (IndexError)

  datatype Result<T> = Ok(value: T) | Err(error: ReadError)

  /** Python slice bounds [s:e] on a dimension of length n, for non-negative s and e. */
  function SliceStart(s: nat, n: nat): nat
  {
    if s <= n then s else n
  }

  function SliceLength(s: nat, e: nat, n: nat): nat
  {
    var lo := SliceStart(s, n);
    var hi := if e <= n then e else n;
    if hi <= lo then 0 else hi - lo
  }

  class HyTools {
    const lines: nat
    const columns: nat
    const bands: nat
    const data: Cube
    const wavelengths: seq<int>
    var badBands: seq<bool>
    var mask: map<string, seq<seq<bool>>>

    /** Shape metadata of an opened image, consistent with its cube. */
    predicate Shaped()
    {
      && lines > 0 && columns > 0 && bands > 0
      && IsCube(data, lines, columns, bands)
      && (|wavelengths| == 0 || |wavelengths| == bands)
    }

    ghost predicate Valid()
      reads this
    {
      Shaped() && (|badBands| == 0 || |badBands| == bands)
    }

    /** An image as the container opener leaves it: shape, data and wavelengths set, no masks. */
    constructor (lines: nat, columns: nat, bands: nat, data: Cube, wavelengths: seq<int>)
      requires lines > 0 && columns > 0 && bands > 0
      requires IsCube(data, lines, columns, bands)
      requires |wavelengths| == 0 || |wavelengths| == bands
      ensures Valid()
      ensures this.lines == lines && this.columns == columns && this.bands == bands
      ensures this.data == data && this.wavelengths == wavelengths
      ensures badBands == [] && mask == map[]
    {
      this.lines := lines;
      this.columns := columns;
      this.bands := bands;
      this.data := data;
      this.wavelengths := wavelengths;
      badBands := [];
      mask := map[];
    }

    /** Band `index` as a (lines, columns) image: data[:, :, index]. */
    function BandSlice(index: nat): (band: seq<seq<int>>)
      requires Shaped() && index < bands
      ensures Grid.IsGrid(band, lines, columns)
      ensures forall l, c :: 0 <= l < lines && 0 <= c < columns ==> band[l][c] == data[l][c][index]
    {
      seq(lines, l requires 0 <= l < lines => seq(columns, c requires 0 <= c < columns => data[l][c][index]))
    }

    /** Line `index` as a (columns, bands) array: data[index, :, :]. */
    function GetLine(index: nat): (line: seq<seq<int>>)
      requires Shaped() && index < lines
      ensures Grid.IsGrid(line, columns, bands)
      ensures forall c, b :: 0 <= c < columns && 0 <= b < bands ==> line[c][b] == data[index][c][b]
    {
      data[index]
    }

    /** Column `index` as a (lines, bands) array: data[:, index, :]. */
    function GetColumn(index: nat): (column: seq<seq<int>>)
      requires Shaped() && index < columns
      ensures Grid.IsGrid(column, lines, bands)
      ensures forall l, b :: 0 <= l < lines && 0 <= b < bands ==> column[l][b] == data[l][index][b]
    {
      seq(lines, l requires 0 <= l < lines => data[l][index])
    }

    /**
     * data[lineStart:lineEnd, colStart:colEnd, :]. Ends are exclusive; as
     * for any Python slice, bounds past the edge are cut back to it and an
     * end before its start gives an empty range.
     */
    function GetChunk(colStart: nat, colEnd: nat, lineStart: nat, lineEnd: nat): (chunk: Cube)
      requires Shaped()
      ensures IsCube(chunk, SliceLength(lineStart, lineEnd, lines), SliceLength(colStart, colEnd, columns), bands)
      ensures lineStart <= lineEnd <= lines && colStart <= colEnd <= columns ==>
        IsCube(chunk, lineEnd - lineStart, colEnd - colStart, bands)
      ensures forall i, j, b ::
        0 <= i < SliceLength(lineStart, lineEnd, lines) && 0 <= j < SliceLength(colStart, colEnd, columns) && 0 <= b < bands ==>
        chunk[i][j][b] == data[SliceStart(lineStart, lines) + i][SliceStart(colStart, columns) + j][b]
    {
      var l0, c0 := SliceStart(lineStart, lines), SliceStart(colStart, columns);
      var nl, nc := SliceLength(lineStart, lineEnd, lines), SliceLength(colStart, colEnd, columns);
      seq(nl, i requires 0 <= i < nl => seq(nc, j requires 0 <= j < nc => data[l0 + i][c0 + j]))
    }

    /**
     * The spectra of the pixels (lines[i], columns[i]), in input order, for
     * the pairs the two lists form together (as zip does, the shorter list
     * decides how many).
     */
    method GetPixels(ls: seq<nat>, cs: seq<nat>) returns (pixels: seq<seq<int>>)
      requires Shaped()
      requires forall i :: 0 <= i < |ls| && i < |cs| ==> ls[i] < lines && cs[i] < columns
      ensures |pixels| == if |ls| <= |cs| then |ls| else |cs|
      ensures Grid.IsGrid(pixels, |pixels|, bands)
      ensures forall i :: 0 <= i < |pixels| ==> pixels[i] == data[ls[i]][cs[i]]
    {
      pixels := [];
      var i := 0;
      while i < |ls| && i < |cs|
        invariant 0 <= i <= |ls| && i <= |cs|
        invariant |pixels| == i
        invariant forall k :: 0 <= k < i ==> pixels[k] == data[ls[k]][cs[k]]
      {
        pixels := pixels + [data[ls[i]][cs[i]]];
        i := i + 1;
      }
    }

    /**
     * Band `index`, or, when a non-empty mask name is given, the band's
     * values at the mask's true cells in row-major order.
     */
    function GetBand(index: nat, maskName: Option<string>): (r: Result<BandData>)
      requires Shaped() && index < bands
      reads this
      ensures maskName == None || maskName == Some("") ==> r == Ok(Full(BandSlice(index)))
      ensures maskName.Some? && maskName.value != "" && maskName.value !in mask ==>
        r == Err(UnknownMask(maskName.value))
      ensures maskName.Some? && maskName.value != "" && maskName.value in mask && !Grid.IsGrid(mask[maskName.value], lines, columns) ==>
        r == Err(MaskShape(maskName.value))
      ensures (maskName.Some? && maskName.value != "" && maskName.value in mask &&
               Grid.IsGrid(mask[maskName.value], lines, columns)) ==>
        r == Ok(Masked(Grid.Masked(BandSlice(index), mask[maskName.value], lines, columns)))
      ensures r.Ok? && r.value.Masked? ==>
        && maskName.Some? && maskName.value in mask
        && Grid.IsGrid(mask[maskName.value], lines, columns)
        && |r.value.values| == Grid.CountCells(mask[maskName.value])
        && |Grid.TrueIndices(Grid.Flatten(mask[maskName.value]))| == |r.value.values|
        && forall j :: 0 <= j < |r.value.values| ==>
             var p := Grid.TrueIndices(Grid.Flatten(mask[maskName.value]))[j];
             p < lines * columns && 0 <= p / columns < lines && 0 <= p % columns < columns &&
             r.value.values[j] == data[p / columns][p % columns][index]
    {
      if maskName == None || maskName == Some("") then
        Ok(Full(BandSlice(index)))
      else if maskName.value !in mask then
        Err(UnknownMask(maskName.value))
      else if !Grid.IsGrid(mask[maskName.value], lines, columns) then
        Err(MaskShape(maskName.value))
      else
        MaskedBandExact(index, mask[maskName.value]);
        Ok(Masked(Grid.Masked(BandSlice(index), mask[maskName.value], lines, columns)))
    }

    /** Band `index` under mask `m`: value j is the cube entry at the j-th true cell of `m`. */
    lemma MaskedBandExact(index: nat, m: seq<seq<bool>>)
      requires Shaped() && index < bands && Grid.IsGrid(m, lines, columns)
      ensures |Grid.Masked(BandSlice(index), m, lines, columns)| == Grid.CountCells(m)
      ensures |Grid.TrueIndices(Grid.Flatten(m))| == |Grid.Masked(BandSlice(index), m, lines, columns)|
      ensures forall j :: 0 <= j < |Grid.Masked(BandSlice(index), m, lines, columns)| ==>
        var p := Grid.TrueIndices(Grid.Flatten(m))[j];
        p < lines * columns && 0 <= p / columns < lines && 0 <= p % columns < columns &&
        Grid.Masked(BandSlice(index), m, lines, columns)[j] == data[p / columns][p % columns][index]
    {
      var band := BandSlice(index);
      Grid.MaskedExact(band, m, lines, columns);
      var sel := Grid.Masked(band, m, lines, columns);
      var idx := Grid.TrueIndices(Grid.Flatten(m));
      forall j | 0 <= j < |sel|
        ensures idx[j] < lines * columns && 0 <= idx[j] / columns < lines && 0 <= idx[j] % columns < columns &&
          sel[j] == data[idx[j] / columns][idx[j] % columns][index]
      {
        Arith.DivModRange(idx[j], columns);
        CellOfBand(index, idx[j] / columns, idx[j] % columns);
      }
    }

    lemma CellOfBand(index: nat, l: nat, c: nat)
      requires Shaped() && index < bands && l < lines && c < columns
      ensures BandSlice(index)[l][c] == data[l][c][index]
    {
    }

    /**
     * The band image nearest to wavelength `wave`, masked as GetBand does;
     * out of range when `wave` lies outside the image's wavelengths.
     */
    function GetWave(wave: int, maskName: Option<string>): (r: Result<BandData>)
      requires Shaped()
      reads this
      ensures wavelengths == [] ==> r == Err(NoWavelengths)
      ensures r == Err(OutOfRange) <==>
        wavelengths != [] &&
        ((forall i :: 0 <= i < |wavelengths| ==> wavelengths[i] < wave) ||
         (forall i :: 0 <= i < |wavelengths| ==> wave < wavelengths[i]))
      ensures wavelengths != [] && r != Err(OutOfRange) ==>
        exists b :: 0 <= b < bands && r == GetBand(b, maskName) &&
          (forall i :: 0 <= i < |wavelengths| ==>
            Spectral.Dist(wavelengths[b], wave) <= Spectral.Dist(wavelengths[i], wave)) &&
          (forall i :: 0 <= i < b ==>
            Spectral.Dist(wavelengths[b], wave) < Spectral.Dist(wavelengths[i], wave))
    {
      match Spectral.WaveToBand(wavelengths, wave)
      case NoWavelengths => Err(NoWavelengths)
      case OutOfRange => Err(OutOfRange)
      case Found(b) => GetBand(b, maskName)
    }

    /** Registers `m` under `name`, replacing any mask of that name; other masks stay. */
    method SetMask(m: seq<seq<bool>>, name: string)
      requires Valid()
      modifies this`mask
      ensures Valid()
      ensures mask == old(mask)[name := m]
      ensures forall n :: n in old(mask) && n != name ==> n in mask && mask[n] == old(mask)[n]
    {
      mask := mask[name := m];
    }

    /** Registers the mask a masking function computed from this image under `name`. */
    method GenMask(computed: seq<seq<bool>>, name: string)
      requires Valid()
      modifies this`mask
      ensures Valid()
      ensures mask == old(mask)[name := computed]
      ensures forall n :: n in old(mask) && n != name ==> n in mask && mask[n] == old(mask)[n]
    {
      mask := mask[name := computed];
    }

    /** One flag per wavelength, true when it falls in one of the closed regions. */
    method CreateBadBands(regions: seq<Spectral.Region>)
      requires Valid()
      modifies this`badBands
      ensures Valid()
      ensures |badBands| == |wavelengths|
      ensures forall i :: 0 <= i < |wavelengths| ==> (badBands[i] <==> Spectral.IsBad(wavelengths[i], regions))
    {
      badBands := Spectral.ClassifyBands(wavelengths, regions);
    }

    /** Band, line, column and chunk reads agree on every element of the cube. */
    lemma AccessPathsAgree(l: nat, c: nat, b: nat)
      requires Shaped() && l < lines && c < columns && b < bands
      ensures BandSlice(b)[l][c] == data[l][c][b]
      ensures GetLine(l)[c][b] == data[l][c][b]
      ensures GetColumn(c)[l][b] == data[l][c][b]
      ensures GetChunk(c, c + 1, l, l + 1)[0][0][b] == data[l][c][b]
      ensures GetBand(b, None) == Ok(Full(BandSlice(b)))
    {
    }

    /** The chunk over the whole extent is the whole cube. */
    lemma WholeChunk()
      requires Shaped()
      ensures GetChunk(0, columns, 0, lines) == data
    {
      var chunk := GetChunk(0, columns, 0, lines);
      forall i | 0 <= i < lines ensures chunk[i] == data[i] {
        forall j | 0 <= j < columns ensures chunk[i][j] == data[i][j] {
          assert |chunk[i][j]| == bands == |data[i][j]|;
        }
      }
    }
  }

  /** Dimension along which an Iterator walks. */
  datatype Mode = ByLine | ByColumn | ByBand | ByChunk

  /** What one read_next call reads: a line, a column, a band, or a chunk tile. */
  datatype Unit = Line(index: nat) | Column(index: nat) | Band(index: nat) | Chunk(tile: Tiling.Window)

  class Iterator {
    const hy: HyTools
    const mode: Mode
    const chunkSize: (nat, nat)   // (lines, columns) of a chunk; used only ByChunk
    var currentLine: int
    var currentColumn: int
    var currentBand: int
    var complete: bool
    ghost var produced: nat       // number of units read since construction or reset

    function Layout(): Tiling.Layout
    {
      Tiling.Layout(hy.lines, hy.columns, chunkSize.0, chunkSize.1)
    }

    /** Number of units a full walk in this mode reads. */
    function UnitCount(): nat
      requires hy.Shaped() && (mode == ByChunk ==> Layout().Valid())
    {
      match mode
      case ByLine => hy.lines
      case ByColumn => hy.columns
      case ByBand => hy.bands
      case ByChunk => Tiling.TileCount(Layout())
    }

    ghost predicate Valid()
      reads this
    {
      && hy.Shaped()
      && (mode == ByChunk ==> Layout().Valid())
      && produced <= UnitCount()
      && (complete <==> produced == UnitCount())
      && match mode
         case ByLine => currentLine == produced - 1 && currentColumn == -1 && currentBand == -1
         case ByColumn => currentColumn == produced - 1 && currentLine == -1 && currentBand == -1
         case ByBand => currentBand == produced - 1 && currentLine == -1 && currentColumn == -1
         case ByChunk =>
           && currentBand == -1
           && (produced == 0 ==> currentLine == -1 && currentColumn == -1)
           && (produced > 0 ==>
                var p := Tiling.PositionAfter(Layout(), produced - 1);
                currentLine == p.row * chunkSize.0 && currentColumn == p.col * chunkSize.1)
    }

    /** The before-first-unit state. */
    ghost predicate Initial()
      reads this
    {
      currentLine == -1 && currentColumn == -1 && currentBand == -1 && !complete && produced == 0
    }

    /** The unit the first call reads. */
    function FirstUnit(): Unit
    {
      match mode
      case ByLine => Line(0)
      case ByColumn => Column(0)
      case ByBand => Band(0)
      case ByChunk => Chunk(Tiling.TileAt(Layout(), Tiling.Pos(0, 0)))
    }

    /** Every unit lies inside the image; tiles are non-empty and at most one chunk. */
    predicate InBounds(u: Unit)
    {
      match u
      case Line(i) => i < hy.lines
      case Column(i) => i < hy.columns
      case Band(i) => i < hy.bands
      case Chunk(t) =>
        && 0 <= t.xStart < t.xEnd <= hy.columns && t.xEnd - t.xStart <= chunkSize.1
        && 0 <= t.yStart < t.yEnd <= hy.lines && t.yEnd - t.yStart <= chunkSize.0
    }

    constructor (hy: HyTools, mode: Mode, chunkSize: (nat, nat))
      requires hy.Shaped()
      requires mode == ByChunk ==> chunkSize.0 > 0 && chunkSize.1 > 0
      ensures this.hy == hy && this.mode == mode && this.chunkSize == chunkSize
      ensures Valid() && Initial()
    {
      this.hy := hy;
      this.mode := mode;
      this.chunkSize := chunkSize;
      currentColumn := -1;
      currentLine := -1;
      currentBand := -1;
      complete := false;
      produced := 0;
      new;
      if mode == ByChunk {
        Tiling.TileCountPositive(Layout());
      }
    }

    /**
     * Reads the next unit: the k-th call (from 0) reads line, column or band
     * k, or the k-th tile of the row-major chunk walk; `complete` becomes
     * true on the call that reads the last unit.
     */
    method ReadNext() returns (u: Unit)
      requires Valid() && !complete
      modifies this
      ensures Valid()
      ensures produced == old(produced) + 1
      ensures mode == ByLine ==> u == Line(old(produced))
      ensures mode == ByColumn ==> u == Column(old(produced))
      ensures mode == ByBand ==> u == Band(old(produced))
      ensures mode == ByChunk ==> u == Chunk(Tiling.TileAt(Layout(), Tiling.PositionAfter(Layout(), old(produced))))
      ensures old(Initial()) ==> u == FirstUnit()
      ensures InBounds(u)
      ensures complete <==> produced == UnitCount()
    {
      if mode == ByLine {
        currentLine := currentLine + 1;
        if currentLine == hy.lines - 1 {
          complete := true;
        }
        u := Line(currentLine);
      } else if mode == ByColumn {
        currentColumn := currentColumn + 1;
        if currentColumn == hy.columns - 1 {
          complete := true;
        }
        u := Column(currentColumn);
      } else if mode == ByBand {
        currentBand := currentBand + 1;
        if currentBand == hy.bands - 1 {
          complete := true;
        }
        u := Band(currentBand);
      } else {
        u := ReadNextChunk();
      }
      produced := produced + 1;
    }

    /** The chunk-mode step of ReadNext: the next tile of the row-major walk, clipped. */
    method ReadNextChunk() returns (u: Unit)
      requires Valid() && !complete && mode == ByChunk
      modifies this`currentLine, this`currentColumn, this`complete
      ensures u == Chunk(Tiling.TileAt(Layout(), Tiling.PositionAfter(Layout(), produced)))
      ensures InBounds(u)
      ensures var p := Tiling.PositionAfter(Layout(), produced);
        currentLine == p.row * chunkSize.0 && currentColumn == p.col * chunkSize.1
      ensures complete <==> produced + 1 == UnitCount()
    {
      ghost var g := Layout();
      ghost var k := produced;
      ghost var p := Tiling.PositionAfter(g, k);
      if k > 0 {
        Tiling.CursorStep(g, k);
      }
      if currentColumn == -1 {
        currentColumn := currentColumn + 1;
        currentLine := currentLine + 1;
      } else {
        currentColumn := currentColumn + chunkSize.1;
      }
      if currentColumn >= hy.columns {
        currentColumn := 0;
        currentLine := currentLine + chunkSize.0;
      }

      var yStart := currentLine;
      var yEnd := currentLine + chunkSize.0;
      if yEnd >= hy.lines {
        yEnd := hy.lines;
      }
      var xStart := currentColumn;
      var xEnd := currentColumn + chunkSize.1;
      if xEnd >= hy.columns {
        xEnd := hy.columns;
      }
      Tiling.WalkIndex(g, k);
      Tiling.TileInBounds(g, p);

      if yEnd == hy.lines && xEnd == hy.columns {
        complete := true;
      }
      u := Chunk(Tiling.Window(xStart, xEnd, yStart, yEnd));
    }

    /** Back to the before-first-unit state; mode, chunk shape and image are kept. */
    method Reset()
      requires Valid()
      modifies this
      ensures Valid() && Initial()
    {
      currentColumn := -1;
      currentLine := -1;
      currentBand := -1;
      complete := false;
      produced := 0;
    }
  }

  /**
   * A chunk sweep of a 250 x 250 image with chunk shape (100, 100): nine
   * tiles, the last 50 x 50, and `complete` only after the ninth; after a
   * reset the sweep starts again at the origin.
   */
  method ChunkSweep250()
  {
    var cube: Cube := seq(250, _ => seq(250, _ => [0]));
    var hy := new HyTools(250, 250, 1, cube, []);
    var it := new Iterator(hy, ByChunk, (100, 100));
    Tiling.Walk250();
    var u := it.ReadNext();
    assert u == Chunk(Tiling.Window(0, 100, 0, 100)) && !it.complete;
    u := it.ReadNext();
    u := it.ReadNext();
    assert u == Chunk(Tiling.Window(200, 250, 0, 100)) && !it.complete;
    u := it.ReadNext();
    assert u == Chunk(Tiling.Window(0, 100, 100, 200));
    u := it.ReadNext();
    u := it.ReadNext();
    u := it.ReadNext();
    u := it.ReadNext();
    assert !it.complete;
    u := it.ReadNext();
    assert u == Chunk(Tiling.Window(200, 250, 200, 250)) && it.complete;
    it.Reset();
    u := it.ReadNext();
    assert u == Chunk(Tiling.Window(0, 100, 0, 100));
  }
}
