/**
 * Per-band wavelength logic of a raster: resolving a query wavelength to the
 * nearest band, and flagging bands whose wavelength falls in a bad region.
 * Wavelengths are integers in the image's wavelength units.
 */
module Spectral {

  /** Outcome of resolving a wavelength to a band index. */
  datatype BandLookup =
    | Found(band: nat)
    | OutOfRange      // the query lies outside [min, max] of the wavelengths
    | NoWavelengths   // the raster has no wavelengths (numpy refuses max/min of an empty array)

  function Dist(a: int, b: int): nat
  {
    if a >= b then a - b else b - a
  }

  function MaxOf(ws: seq<int>): (m: int)
    requires |ws| > 0
    ensures m in ws
    ensures forall i :: 0 <= i < |ws| ==> ws[i] <= m
  {
    if |ws| == 1 then ws[0]
    else
      var m' := MaxOf(ws[..|ws| - 1]);
      assert forall i :: 0 <= i < |ws| - 1 ==> ws[..|ws| - 1][i] == ws[i];
      if ws[|ws| - 1] > m' then ws[|ws| - 1] else m'
  }

  function MinOf(ws: seq<int>): (m: int)
    requires |ws| > 0
    ensures m in ws
    ensures forall i :: 0 <= i < |ws| ==> m <= ws[i]
  {
    if |ws| == 1 then ws[0]
    else
      var m' := MinOf(ws[..|ws| - 1]);
      assert forall i :: 0 <= i < |ws| - 1 ==> ws[..|ws| - 1][i] == ws[i];
      if ws[|ws| - 1] < m' then ws[|ws| - 1] else m'
  }

  /**
   * Index of the wavelength closest to `w`; on ties the lowest such index,
   * as numpy's argmin of the absolute differences.
   */
  function ArgMin(ws: seq<int>, w: int): (k: nat)
    requires |ws| > 0
    ensures k < |ws|
    ensures forall i :: 0 <= i < |ws| ==> Dist(ws[k], w) <= Dist(ws[i], w)
    ensures forall i :: 0 <= i < k ==> Dist(ws[k], w) < Dist(ws[i], w)
  {
    if |ws| == 1 then 0
    else
      var front := ws[..|ws| - 1];
      var k' := ArgMin(front, w);
      assert forall i :: 0 <= i < |front| ==> front[i] == ws[i];
      if Dist(ws[|ws| - 1], w) < Dist(ws[k'], w) then |ws| - 1 else k'
  }

  /**
   * Band index for a wavelength: out of range above the largest or below the
   * smallest wavelength, otherwise the nearest band.
   */
  function WaveToBand(ws: seq<int>, w: int): (r: BandLookup)
    ensures |ws| == 0 <==> r == NoWavelengths
    ensures r == OutOfRange <==>
      |ws| > 0 && ((forall i :: 0 <= i < |ws| ==> ws[i] < w) || (forall i :: 0 <= i < |ws| ==> w < ws[i]))
    ensures r.Found? ==> r.band < |ws|
    ensures r.Found? ==> forall i :: 0 <= i < |ws| ==> Dist(ws[r.band], w) <= Dist(ws[i], w)
    ensures r.Found? ==> forall i :: 0 <= i < r.band ==> Dist(ws[r.band], w) < Dist(ws[i], w)
  {
    if |ws| == 0 then NoWavelengths
    else if w > MaxOf(ws) || w < MinOf(ws) then OutOfRange
    else Found(ArgMin(ws, w))
  }

  /** The nearest band is unique once ties go to the lowest index. */
  lemma NearestIsUnique(ws: seq<int>, w: int, k: nat)
    requires k < |ws|
    requires forall i :: 0 <= i < |ws| ==> Dist(ws[k], w) <= Dist(ws[i], w)
    requires forall i :: 0 <= i < k ==> Dist(ws[k], w) < Dist(ws[i], w)
    ensures WaveToBand(ws, w) == OutOfRange || WaveToBand(ws, w) == Found(k)
  {
    var r := WaveToBand(ws, w);
    if r.Found? {
      var b := r.band;
      assert Dist(ws[b], w) <= Dist(ws[k], w) && Dist(ws[k], w) <= Dist(ws[b], w);
      assert !(b < k) && !(k < b);
    }
  }

  /** Inside the range of the wavelengths, the nearest lowest-tie index is the band returned. */
  lemma NearestInRange(ws: seq<int>, w: int, k: nat, lo: nat, hi: nat)
    requires k < |ws|
    requires forall i :: 0 <= i < |ws| ==> Dist(ws[k], w) <= Dist(ws[i], w)
    requires forall i :: 0 <= i < k ==> Dist(ws[k], w) < Dist(ws[i], w)
    requires lo < |ws| && hi < |ws| && ws[lo] <= w <= ws[hi]
    ensures WaveToBand(ws, w) == Found(k)
  {
    NearestIsUnique(ws, w, k);
    InRangeResolves(ws, w, lo, hi);
  }

  /** A wavelength inside [min, max] always resolves to a band. */
  lemma InRangeResolves(ws: seq<int>, w: int, lo: nat, hi: nat)
    requires lo < |ws| && hi < |ws| && ws[lo] <= w <= ws[hi]
    ensures WaveToBand(ws, w).Found?
  {
    assert !(forall i :: 0 <= i < |ws| ==> ws[i] < w) by { assert !(ws[hi] < w); }
    assert !(forall i :: 0 <= i < |ws| ==> w < ws[i]) by { assert !(w < ws[lo]); }
  }

  /** Wavelengths 450, 550, 650, 750: 560 resolves to band 1; 1000 is out of range. */
  lemma WaveToBandExample()
    ensures WaveToBand([450, 550, 650, 750], 560) == Found(1)
    ensures WaveToBand([450, 550, 650, 750], 1000) == OutOfRange
  {
    var ws := [450, 550, 650, 750];
    NearestIsUnique(ws, 560, 1);
    InRangeResolves(ws, 560, 0, 3);
    assert !(ws[3] > 1000);
  }

  /** A bad region [start, end]: closed at both ends. */
  datatype Region = Region(start: int, end: int)

  predicate InRegion(w: int, g: Region)
  {
    g.start <= w <= g.end
  }

  /** `w` lies in at least one of the regions. */
  predicate IsBad(w: int, regions: seq<Region>)
  {
    exists j :: 0 <= j < |regions| && InRegion(w, regions[j])
  }

  /**
   * One flag per wavelength, in order; a flag is true exactly when its
   * wavelength falls in some closed region.
   */
  method ClassifyBands(ws: seq<int>, regions: seq<Region>) returns (flags: seq<bool>)
    ensures |flags| == |ws|
    ensures forall i :: 0 <= i < |ws| ==> (flags[i] <==> IsBad(ws[i], regions))
  {
    flags := [];
    var i := 0;
    while i < |ws|
      invariant 0 <= i <= |ws|
      invariant |flags| == i
      invariant forall k :: 0 <= k < i ==> (flags[k] <==> IsBad(ws[k], regions))
    {
      var bad := false;
      var j := 0;
      while j < |regions|
        invariant 0 <= j <= |regions|
        invariant bad <==> exists m :: 0 <= m < j && InRegion(ws[i], regions[m])
      {
        bad := (ws[i] >= regions[j].start && ws[i] <= regions[j].end) || bad;
        j := j + 1;
      }
      flags := flags + [bad];
      i := i + 1;
    }
  }
}
