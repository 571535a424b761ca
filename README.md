# hytools-lite raster access core, in Dafny

A model of the read side of HyTools-lite's `HyTools` raster handle and of its
`Iterator`, for images held in the hierarchical container (NEON) layout.

- **Raster handle** (`Base.HyTools`). An opened image: `lines`, `columns`,
  `bands`, a `(line, column, band)` data cube (`seq<seq<seq<int>>>`), per-band
  `wavelengths`, the `badBands` flags and the `mask` registry (a map from name
  to boolean `(line, column)` grid). It reads bands, lines, columns, pixel
  lists and chunks by slicing the cube. It resolves a wavelength to the nearest
  band. It registers masks and applies them to a band.
- **Masked selection** (`Grid`). Boolean indexing of a band by a mask: the
  band entries at the mask's true cells, in row-major order.
- **Wavelength logic** (`Spectral`). The `[min, max]` range check and the
  arg-min search of `wave_to_band` / `get_wave`. Bad-band classification by
  closed wavelength regions.
- **Chunk tiling** (`Tiling`). The tile grid walked by chunk traversal, as
  pure functions: tile origins, clipping at the raster edge, the cursor step,
  row-major rank and tile count.
- **Iterator** (`Base.Iterator`). The restartable cursor, with the source's
  counters `currentLine`, `currentColumn`, `currentBand` and `complete`. It has
  ghost state (`produced`, the number of units read) that ties these counters
  to the `Tiling` walk. `ReadNext` returns a descriptor of the unit it reads:
  `Line(i)`, `Column(i)`, `Band(i)` or `Chunk(window)`. It does not return the
  pixel data; `HyTools.GetLine`, `GetColumn`, `BandSlice` and `GetChunk` give
  that data for the same indices.

Main results:

- In chunk mode the k-th call (counting from 0) reads tile k of the row-major
  walk. Every tile lies inside the raster, is non-empty and is at most one chunk.
  Tiles are clipped, never padded. `complete` becomes true exactly on the last of
  the ceil(lines / rowStep) × ceil(columns / colStep) calls. The tiles read
  before `complete` cover every pixel of the raster (`Tiling.WalkCovers`), and
  no two of them overlap (`Tiling.WalkDisjoint`).
- `Base.ChunkSweep250` is a client of these contracts. It walks a 250 × 250
  image with chunk shape (100, 100): nine tiles, the last one 50 × 50, and
  `complete` only after the ninth. After `Reset` the walk starts again at the
  origin.

Wavelengths and cube values are integers. Python integers and numpy indices are
unbounded here.

The chunk walk's wrap condition tests the advanced column origin against
`columns`. This never skips or repeats a tile, even where the raster is not a
multiple of the chunk shape: `Tiling.WalkIndex` and `Base.Iterator.ReadNext`
prove the exact tile count for every positive shape.

The docstring of `create_bad_bands` says "Good: True, bad: False"
(`hytools_lite/base.py:88`). The code sets True for a wavelength that lies
INSIDE a bad region. The model follows the code.

## Model

| member | source | states |
|---|---|---|
| `Base.HyTools.BandSlice` | hytools_lite/base.py:186-188 | `data[:, :, index]` is a (lines, columns) grid whose entry (l, c) is `data[l][c][index]` |
| `Base.HyTools.GetLine` | hytools_lite/base.py:258-260 | `data[index, :, :]` is a (columns, bands) array whose entry (c, b) is `data[index][c][b]` |
| `Base.HyTools.GetColumn` | hytools_lite/base.py:279-281 | `data[:, index, :]` is a (lines, bands) array whose entry (l, b) is `data[l][index][b]` |
| `Base.HyTools.GetChunk` | hytools_lite/base.py:290-305 | shape (lineEnd-lineStart, colEnd-colStart, bands) for in-bounds ends; Python slice clipping otherwise; entry (i, j, b) is `data[lineStart+i][colStart+j][b]` |
| `Base.HyTools.GetPixels` | hytools_lite/base.py:234-239 | one spectrum per pair of the zipped lists, in input order, so the length is the shorter list's; entry i is `data[lines[i]][columns[i]]` |
| `Base.HyTools.AccessPathsAgree` | hytools_lite/base.py:188-305 | band, line, column and one-pixel chunk reads return the same value `data[l][c][b]` for every valid (l, c, b) |
| `Base.HyTools.WholeChunk` | hytools_lite/base.py:305 | the chunk over the full extent is the whole cube |
| `Base.HyTools.GetBand` | hytools_lite/base.py:175-198 | no mask (None or an empty name) gives the full band. An unregistered name is a KeyError and a mask not shaped (lines, columns) is an IndexError. Otherwise the result is the masked selection `band[mask]`: one value per true mask cell, and value j is the band entry at the j-th true cell in row-major order |
| `Base.HyTools.MaskedBandExact` | hytools_lite/base.py:186-196 | `data[:, :, index][mask]` has one value per true cell of the mask, and value j is the cube entry `data[l][c][index]` at the j-th true cell (l, c) in row-major order |
| `Base.HyTools.GetWave` | hytools_lite/base.py:201-221 | out of range exactly when the wavelength is above every band's or below every band's. Otherwise the result is GetBand of the band whose wavelength is nearest, ties going to the lowest index |
| `Base.HyTools.SetMask` | hytools_lite/base.py:339-343 | the registry becomes the old one with `name` mapped to the given grid; every other entry is unchanged |
| `Base.HyTools.GenMask` | hytools_lite/base.py:345-352 | the registry becomes the old one with `name` mapped to the masking function's result; every other entry is unchanged |
| `Base.HyTools.CreateBadBands` | hytools_lite/base.py:100-106 | `badBands` has one flag per wavelength; flag i is true iff wavelength i lies in some closed region |
| `Spectral.ClassifyBands` | hytools_lite/base.py:100-105 | the double loop yields one flag per wavelength, in order, true iff `start <= w <= end` for some region |
| `Spectral.MaxOf` | hytools_lite/base.py:168 | `wavelengths.max()`: an element that bounds all others from above |
| `Spectral.MinOf` | hytools_lite/base.py:168 | `wavelengths.min()`: an element that bounds all others from below |
| `Spectral.ArgMin` | hytools_lite/base.py:172 | `argmin(abs(wavelengths - wave))`: a valid index at minimum distance, lower than every other index at that distance |
| `Spectral.WaveToBand` | hytools_lite/base.py:168-173 | no wavelengths gives an error; out of range iff the wavelength is above all or below all; otherwise the nearest band, ties going to the lowest index |
| `Spectral.NearestIsUnique` | hytools_lite/base.py:172 | any index that is nearest with lowest-index ties is the one WaveToBand returns whenever the wavelength is in range (otherwise the result is out of range) |
| `Spectral.NearestInRange` | hytools_lite/base.py:168-172 | for a wavelength between two band wavelengths, WaveToBand returns exactly the nearest index with lowest-index ties |
| `Spectral.InRangeResolves` | hytools_lite/base.py:168-172 | a wavelength between two band wavelengths always resolves to a band |
| `Spectral.WaveToBandExample` | hytools_lite/base.py:168-173 | wavelengths 450, 550, 650, 750: 560 resolves to band 1 and 1000 is out of range |
| `Grid.MaskedExact` | hytools_lite/base.py:195-196 | `band[mask]` has as many values as the mask has true cells; value j is the band entry at the j-th true cell in row-major order |
| `Grid.MaskedKeepsEveryTrueCell` | hytools_lite/base.py:195-196 | every true mask cell contributes its band entry to `band[mask]` |
| `Tiling.TileInBounds` | hytools_lite/base.py:429-436 | every tile of the grid satisfies `0 <= x_start < x_end <= columns`, `0 <= y_start < y_end <= lines`, and is at most one chunk in each direction |
| `Tiling.TileClipped` | hytools_lite/base.py:430-436 | a tile is a full chunk in each direction unless it ends at the raster edge (clipped, never padded) |
| `Tiling.CursorStep` | hytools_lite/base.py:420-427 | the cursor's column advance by `chunk_size[1]`, and its wrap to column 0 with a line advance by `chunk_size[0]`, land on the origin of the next tile of the walk |
| `Tiling.NextAdvances` | hytools_lite/base.py:420-427 | before the bottom-right tile, a step stays in the grid, moves right or wraps to column 0 of the next tile row, and raises the row-major rank by one |
| `Tiling.WalkIndex` | hytools_lite/base.py:420-439 | the k-th tile of the walk is the tile of row-major rank k, and it is the bottom-right one iff k = ceil(lines/rowStep)·ceil(columns/colStep) − 1 |
| `Tiling.TilesCover` | hytools_lite/base.py:429-436 | every pixel of the raster lies in a tile of the grid |
| `Tiling.TilesDisjoint` | hytools_lite/base.py:429-436 | a pixel lies in only one tile |
| `Tiling.IndexInjective` | hytools_lite/base.py:420-427 | two positions of the tile grid with the same row-major rank are the same position |
| `Tiling.WalkCovers` | hytools_lite/base.py:419-441 | every pixel of the raster lies in the tile read by one of the first ceil(lines/rowStep)·ceil(columns/colStep) calls of the walk |
| `Tiling.WalkDisjoint` | hytools_lite/base.py:419-441 | two calls of the walk whose tiles share a pixel are the same call, so no pixel is read twice |
| `Tiling.Walk250` | hytools_lite/base.py:419-441 | a 250 × 250 raster with chunk shape (100, 100) gives nine tiles of the stated sizes in row-major order; only the ninth is the bottom-right one |
| `Base.Iterator.constructor` | hytools_lite/base.py:377-397 | all three counters start at -1 and `complete` at false; the image, mode and chunk shape are kept |
| `Base.Iterator.ReadNext` | hytools_lite/base.py:399-442 | the k-th call reads line, column or band k, or tile k of the walk. The unit lies inside the image. `complete` is set exactly on the call that reads the last unit. The first call from the initial state reads the first unit |
| `Base.Iterator.ReadNextChunk` | hytools_lite/base.py:419-441 | the chunk branch: the cursor moves to the next tile's origin, the tile is clipped to the raster, and `complete` is set iff the tile reaches both the last line and the last column |
| `Base.Iterator.Reset` | hytools_lite/base.py:444-450 | counters back to -1 and `complete` to false, with mode, chunk shape and image unchanged, so the next call reads the same unit as a fresh iterator |

## Left out

- The flat-binary (ENVI) backend: `envi_read_band`, `envi_read_pixels`, `envi_read_line`, `envi_read_column`, `envi_read_chunk`, `open_envi`, `parse_envi_header`, `envi_header_from_neon` and `open_neon` live in `hytools_lite/io/`, which is not part of this model. The handle is modelled for the container layout only.
- `load_data` / `close_data`: file and container I/O (memory maps, HDF5 handles). The cube is a constant field of the handle, and opening and closing around each read are not modelled.
- `byteswap`: a numpy call on machine words, applied only on the flat-binary path.
- `ndi`: floating-point division.
- `do` and the masking function of `gen_mask`: caller-supplied code. `GenMask` takes the function's result as an input, so the `args` branch has nothing left to model.
- `read_file` and the `no_data` mask it builds: header and file opening. It also uses an undefined `file_name`. The `HyTools` constructor stands for the state after opening.
- `get_header`: header parsing.
- `iterate`: it only constructs an `Iterator`, which is the `Iterator` constructor here.
- The global warning filter and the `print` messages.
- Reading past `complete`: the source does not guard it, so `ReadNext` requires `!complete`.
- `Base.HyTools.BandSlice`, `Base.HyTools.GetBand`, `Base.HyTools.GetLine`, `Base.HyTools.GetColumn`, `Base.HyTools.GetPixels`: negative and out-of-range indices are excluded by the requires clause. The model does not cover numpy's wrap-around for negative indices or its IndexError. `GetChunk` takes non-negative bounds and models Python's slice clipping for them.
- `Spectral.WaveToBand`: floating-point wavelengths (and NaN) are not modelled; wavelengths are integers.
- `Base.Iterator.ReadNext`: a traversal mode other than line, column, band or chunk leaves `subset` unbound in the source, so `read_next` raises UnboundLocalError at `return subset` (`hytools_lite/base.py:442`). The `Mode` datatype has only the four modes, so this failure is not modelled.
- `Base.Iterator.constructor`: a chunk shape with a zero or negative entry is excluded by the requires clause. With such a shape the source walk never sets `complete` (for `chunk_size[0] == 0` the line cursor never advances, `hytools_lite/base.py:427-439`), so it never ends.
