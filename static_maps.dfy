/**
 * The batch step of scripts/generate-static-maps.js that pre-renders one
 * basemap per hike: for every file of the manifest it skips files whose map
 * already exists (unless `--force` is given), works out the grid of zoom-15
 * tiles covering the track, downloads a satellite tile and, where that
 * succeeds, a hillshade tile for every grid cell (each with up to three
 * attempts), and writes the stitched image and its metadata only if at least
 * 10% of the satellite tiles arrived.
 *
 * Tile servers are oracles that answer each (x, y, attempt) with a payload
 * or a failure. The stitched image is the list of tiles placed on it, not
 * pixels. Files on disk are two maps keyed by the map's base name.
 */
module StaticMaps {
  import opened Wrappers
  import opened SlippyTiles
  import opened TrackStats

  type Payload = seq<bv8>

  /** A tile server: its answer to attempt number `attempt` (from 0) for tile (x, y) at zoom 15. */
  type TileServer = (int, int, nat) -> Option<Payload>

  /** `downloadTile`'s default number of attempts */
  const Retries: nat := 3

  /** Degrees added around the track's bounding box */
  const Padding: real := 0.005

  /* ---------------------------------------------------------------------- */
  /* downloadTile                                                            */
  /* ---------------------------------------------------------------------- */

  /** What a download returned (None is `null`) and how many requests it made. */
  datatype Download = Download(tile: Option<Payload>, attempts: nat)

  /** The download from attempt i on, when i attempts have already failed. */
  function DownloadFrom(server: TileServer, x: int, y: int, retries: nat, i: nat): Download
    requires i <= retries
    decreases retries - i
  {
    if i == retries then Download(None, retries)
    else if server(x, y, i).Some? then Download(server(x, y, i), i + 1)
    else DownloadFrom(server, x, y, retries, i + 1)
  }

  /** `downloadTile(url, z, x, y, retries)` against the server behind `url`. */
  function DownloadSpec(server: TileServer, x: int, y: int, retries: nat): (r: Download)
    ensures r.attempts <= retries
    ensures r.tile.Some? ==> 1 <= r.attempts && r.tile == server(x, y, r.attempts - 1)
    ensures r.tile.None? ==> r.attempts == retries
  {
    DownloadFromFacts(server, x, y, retries, 0);
    DownloadFrom(server, x, y, retries, 0)
  }

  lemma {:induction false} DownloadFromFacts(server: TileServer, x: int, y: int, retries: nat, i: nat)
    requires i <= retries
    requires forall j :: 0 <= j < i ==> server(x, y, j).None?
    ensures var d := DownloadFrom(server, x, y, retries, i);
      d.attempts <= retries &&
      (d.tile.Some? <==> exists j :: 0 <= j < retries && server(x, y, j).Some?) &&
      (d.tile.Some? ==> 1 <= d.attempts && d.tile == server(x, y, d.attempts - 1)) &&
      (forall j :: 0 <= j < d.attempts - 1 ==> server(x, y, j).None?) &&
      (d.tile.None? ==> d.attempts == retries)
    decreases retries - i
  {
    if i < retries && server(x, y, i).None? {
      DownloadFromFacts(server, x, y, retries, i + 1);
    }
  }

  /**
   * A download makes at most `retries` attempts and returns the payload of the
   * first attempt that succeeded; it returns None only when every attempt
   * failed, after making all of them.
   */
  lemma DownloadReturnsFirstSuccess(server: TileServer, x: int, y: int, retries: nat)
    ensures var d := DownloadSpec(server, x, y, retries);
      d.attempts <= retries &&
      (d.tile.Some? <==> exists j :: 0 <= j < retries && server(x, y, j).Some?) &&
      (d.tile.Some? ==> 1 <= d.attempts && d.tile == server(x, y, d.attempts - 1)) &&
      (forall j :: 0 <= j < d.attempts - 1 ==> server(x, y, j).None?) &&
      (d.tile.None? ==> d.attempts == retries)
  {
    DownloadFromFacts(server, x, y, retries, 0);
  }

  /**
   * `downloadTile`: the counted retry loop. `sleeps` counts the one-second
   * pauses, which come between attempts and never after the last one.
   */
  method DownloadTile(server: TileServer, x: int, y: int, retries: nat)
    returns (tile: Option<Payload>, attempts: nat, sleeps: nat)
    ensures Download(tile, attempts) == DownloadSpec(server, x, y, retries)
    ensures sleeps == if attempts == 0 then 0 else attempts - 1
  {
    attempts, sleeps := 0, 0;
    var i := 0;
    while i < retries
      invariant 0 <= i <= retries
      invariant retries > 0 ==> i < retries
      invariant attempts == i && sleeps == i
      invariant DownloadSpec(server, x, y, retries) == DownloadFrom(server, x, y, retries, i)
    {
      var response := server(x, y, i);
      attempts := attempts + 1;
      if response.Some? {
        return response, attempts, sleeps;
      }
      if i == retries - 1 {
        return None, attempts, sleeps;
      }
      sleeps := sleeps + 1;
      i := i + 1;
    }
    tile := None;
  }

  /* ---------------------------------------------------------------------- */
  /* The tile grid                                                           */
  /* ---------------------------------------------------------------------- */

  /** `lat2tile` and `tile2lat` at zoom 15 (Mercator projection, not modelled). */
  datatype Mercator = Mercator(lat2tile: real -> int, tile2lat: int -> real)

  /** Tile columns xStart..xEnd and rows yStart..yEnd, both inclusive. */
  datatype Grid = Grid(xStart: int, xEnd: int, yStart: int, yEnd: int)

  function Columns(g: Grid): int { g.xEnd - g.xStart + 1 }
  function Rows(g: Grid): int { g.yEnd - g.yStart + 1 }
  function Width(g: Grid): int { Columns(g) * TileSize }
  function Height(g: Grid): int { Rows(g) * TileSize }
  function TotalTiles(g: Grid): int { Columns(g) * Rows(g) }

  /** `Math.min(...s)` on a non-empty list. */
  function Least(s: seq<real>): (m: real)
    requires |s| > 0
    ensures forall i :: 0 <= i < |s| ==> m <= s[i]
    ensures m in s
  {
    if |s| == 1 then s[0]
    else
      var rest := Least(s[1..]);
      assert rest in s;
      if s[0] < rest then s[0] else rest
  }

  /** `Math.max(...s)` on a non-empty list. */
  function Greatest(s: seq<real>): (m: real)
    requires |s| > 0
    ensures forall i :: 0 <= i < |s| ==> s[i] <= m
    ensures m in s
  {
    if |s| == 1 then s[0]
    else
      var rest := Greatest(s[1..]);
      assert rest in s;
      if s[0] > rest then s[0] else rest
  }

  function Lats(pts: seq<TrackPoint>): (r: seq<real>)
    ensures |r| == |pts| && forall i :: 0 <= i < |pts| ==> r[i] == pts[i].lat
  {
    seq(|pts|, i requires 0 <= i < |pts| => pts[i].lat)
  }

  function Lons(pts: seq<TrackPoint>): (r: seq<real>)
    ensures |r| == |pts| && forall i :: 0 <= i < |pts| ==> r[i] == pts[i].lon
  {
    seq(|pts|, i requires 0 <= i < |pts| => pts[i].lon)
  }

  /** `minLon - padding`: the west edge of the padded bounding box. */
  function WestEdge(lons: seq<real>): real
    requires |lons| > 0
  {
    Least(lons) - Padding
  }

  /** `maxLon + padding`: the east edge of the padded bounding box. */
  function EastEdge(lons: seq<real>): real
    requires |lons| > 0
  {
    Greatest(lons) + Padding
  }

  /** Every longitude of the track lies strictly between the padded edges. */
  lemma EdgesEnclose(lons: seq<real>, i: int)
    requires 0 <= i < |lons|
    ensures WestEdge(lons) < lons[i] < EastEdge(lons)
  {
  }

  /** The tiles covering the track's bounding box widened by `Padding` degrees. */
  function GridFor(pts: seq<TrackPoint>, merc: Mercator): (r: Grid)
    requires |pts| > 0
    ensures r.xStart <= r.xEnd
  {
    var lons, lats := Lons(pts), Lats(pts);
    EdgesEnclose(lons, 0);
    ColumnsEnclose(WestEdge(lons), EastEdge(lons), lons[0]);
    Grid(Lon2Tile(WestEdge(lons), Zoom), Lon2Tile(EastEdge(lons), Zoom),
         merc.lat2tile(Greatest(lats) + Padding), merc.lat2tile(Least(lats) - Padding))
  }

  /** Columns chosen from a west and an east edge enclose every longitude strictly between the edges. */
  lemma ColumnsEnclose(west: real, east: real, lon: real)
    requires west < lon < east
    ensures Lon2Tile(west, Zoom) <= Lon2Tile(east, Zoom)
    ensures Tile2Lon(Lon2Tile(west, Zoom), Zoom) < lon < Tile2Lon(Lon2Tile(east, Zoom) + 1, Zoom)
  {
    Lon2TileMonotone(west, east, Zoom);
    TileBracketsLon(west, Zoom);
    TileBracketsLon(east, Zoom);
  }

  /**
   * The grid has at least one column, and its columns span every longitude
   * of the track, with room to spare on both sides.
   */
  lemma GridCoversTrackLongitudes(pts: seq<TrackPoint>, merc: Mercator)
    requires |pts| > 0
    ensures var g := GridFor(pts, merc);
      g.xStart <= g.xEnd &&
      forall i :: 0 <= i < |pts| ==>
        Tile2Lon(g.xStart, Zoom) < pts[i].lon < Tile2Lon(g.xEnd + 1, Zoom)
  {
    var lons := Lons(pts);
    var g := GridFor(pts, merc);
    assert g.xStart == Lon2Tile(WestEdge(lons), Zoom) && g.xEnd == Lon2Tile(EastEdge(lons), Zoom);
    forall i | 0 <= i < |pts|
      ensures Tile2Lon(g.xStart, Zoom) < pts[i].lon < Tile2Lon(g.xEnd + 1, Zoom)
    {
      EdgesEnclose(lons, i);
      ColumnsEnclose(WestEdge(lons), EastEdge(lons), lons[i]);
    }
  }

  /* ---------------------------------------------------------------------- */
  /* The tile loop                                                           */
  /* ---------------------------------------------------------------------- */

  /**
   * One tile placed on the canvas at its pixel offset; it was blended with a
   * hillshade tile exactly when `hillshade` is present.
   */
  datatype Composition = Composition(left: int, top: int, satellite: Payload, hillshade: Option<Payload>)

  /** The stitched image: its size and the tiles placed on a black background. */
  datatype Canvas = Canvas(width: int, height: int, tiles: seq<Composition>)

  /** What the loop body contributes for tile (x, y): nothing when the satellite download failed. */
  function Placement(g: Grid, sat: TileServer, hill: TileServer, x: int, y: int): seq<Composition>
  {
    match DownloadSpec(sat, x, y, Retries).tile
    case None => []
    case Some(s) =>
      [Composition((x - g.xStart) * TileSize, (y - g.yStart) * TileSize, s, DownloadSpec(hill, x, y, Retries).tile)]
  }

  /** The compositions of column x from row yStart up to, not including, row yTo. */
  function ColumnComps(g: Grid, sat: TileServer, hill: TileServer, x: int, yTo: int): seq<Composition>
    decreases yTo - g.yStart
  {
    if yTo <= g.yStart then []
    else ColumnComps(g, sat, hill, x, yTo - 1) + Placement(g, sat, hill, x, yTo - 1)
  }

  /** The compositions of columns xStart up to, not including, column xTo, column by column. */
  function GridComps(g: Grid, sat: TileServer, hill: TileServer, xTo: int): seq<Composition>
    decreases xTo - g.xStart
  {
    if xTo <= g.xStart then []
    else GridComps(g, sat, hill, xTo - 1) + ColumnComps(g, sat, hill, xTo - 1, g.yEnd + 1)
  }

  /** The compositions of the whole grid. */
  function AllComps(g: Grid, sat: TileServer, hill: TileServer): seq<Composition>
  {
    GridComps(g, sat, hill, g.xEnd + 1)
  }

  /**
   * c is the composition of the grid cell its offsets point at: the offsets
   * are whole tiles inside columns xStart..xTo-1 and rows yStart..yEnd, the
   * satellite tile of that cell arrived and is c's, and c's hillshade is what
   * that cell's hillshade download returned.
   */
  ghost predicate PlacedAt(g: Grid, sat: TileServer, hill: TileServer, xTo: int, c: Composition)
  {
    c.left % TileSize == 0 && c.top % TileSize == 0 &&
    var x, y := g.xStart + c.left / TileSize, g.yStart + c.top / TileSize;
    g.xStart <= x < xTo && g.yStart <= y <= g.yEnd &&
    DownloadSpec(sat, x, y, Retries).tile == Some(c.satellite) &&
    c.hillshade == DownloadSpec(hill, x, y, Retries).tile
  }

  lemma {:induction false} ColumnCompsMembers(g: Grid, sat: TileServer, hill: TileServer, x: int, yTo: int, c: Composition)
    requires yTo <= g.yEnd + 1
    ensures c in ColumnComps(g, sat, hill, x, yTo) <==>
      (c.left == (x - g.xStart) * TileSize && c.top % TileSize == 0 &&
       var y := g.yStart + c.top / TileSize;
       g.yStart <= y < yTo &&
       DownloadSpec(sat, x, y, Retries).tile == Some(c.satellite) &&
       c.hillshade == DownloadSpec(hill, x, y, Retries).tile)
    decreases yTo - g.yStart
  {
    if yTo > g.yStart {
      ColumnCompsMembers(g, sat, hill, x, yTo - 1, c);
    }
  }

  lemma {:induction false} GridCompsMembers(g: Grid, sat: TileServer, hill: TileServer, xTo: int, c: Composition)
    requires xTo <= g.xEnd + 1
    ensures c in GridComps(g, sat, hill, xTo) <==> PlacedAt(g, sat, hill, xTo, c)
    decreases xTo - g.xStart
  {
    if xTo > g.xStart {
      GridCompsMembers(g, sat, hill, xTo - 1, c);
      ColumnCompsMembers(g, sat, hill, xTo - 1, g.yEnd + 1, c);
    }
  }

  /**
   * Grid cell (x, y) is placed at offset ((x-xStart)·256, (y-yStart)·256)
   * exactly when its satellite download succeeded, and it is blended exactly
   * when its hillshade download succeeded as well.
   */
  lemma TilePlacedIffSatelliteArrived(g: Grid, sat: TileServer, hill: TileServer, x: int, y: int)
    requires g.xStart <= x <= g.xEnd && g.yStart <= y <= g.yEnd
    ensures DownloadSpec(sat, x, y, Retries).tile.Some? ==>
      Composition((x - g.xStart) * TileSize, (y - g.yStart) * TileSize,
                  DownloadSpec(sat, x, y, Retries).tile.value, DownloadSpec(hill, x, y, Retries).tile)
        in AllComps(g, sat, hill)
    ensures DownloadSpec(sat, x, y, Retries).tile.None? ==>
      forall c :: c in AllComps(g, sat, hill) ==>
        c.left != (x - g.xStart) * TileSize || c.top != (y - g.yStart) * TileSize
    ensures forall c :: c in AllComps(g, sat, hill) && c.left == (x - g.xStart) * TileSize && c.top == (y - g.yStart) * TileSize ==>
      (c.hillshade.Some? <==> DownloadSpec(hill, x, y, Retries).tile.Some?)
  {
    var d := DownloadSpec(sat, x, y, Retries);
    if d.tile.Some? {
      var c := Composition((x - g.xStart) * TileSize, (y - g.yStart) * TileSize, d.tile.value, DownloadSpec(hill, x, y, Retries).tile);
      GridCompsMembers(g, sat, hill, g.xEnd + 1, c);
    }
    forall c' | c' in AllComps(g, sat, hill) && c'.left == (x - g.xStart) * TileSize && c'.top == (y - g.yStart) * TileSize
      ensures d.tile.Some? && (c'.hillshade.Some? <==> DownloadSpec(hill, x, y, Retries).tile.Some?)
    {
      GridCompsMembers(g, sat, hill, g.xEnd + 1, c');
    }
  }

  /** Compositions come column by column, top to bottom: no offset occurs twice. */
  ghost predicate OffsetsIncreasing(s: seq<Composition>)
  {
    forall i, j :: 0 <= i < j < |s| ==>
      s[i].left < s[j].left || (s[i].left == s[j].left && s[i].top < s[j].top)
  }

  lemma {:induction false} ColumnCompsOrdered(g: Grid, sat: TileServer, hill: TileServer, x: int, yTo: int)
    requires yTo <= g.yEnd + 1
    ensures OffsetsIncreasing(ColumnComps(g, sat, hill, x, yTo))
    decreases yTo - g.yStart
  {
    if yTo > g.yStart {
      var prev := ColumnComps(g, sat, hill, x, yTo - 1);
      ColumnCompsOrdered(g, sat, hill, x, yTo - 1);
      var s := prev + Placement(g, sat, hill, x, yTo - 1);
      forall i, j | 0 <= i < j < |s|
        ensures s[i].left < s[j].left || (s[i].left == s[j].left && s[i].top < s[j].top)
      {
        if j >= |prev| {
          assert s[i] in prev;
          ColumnCompsMembers(g, sat, hill, x, yTo - 1, s[i]);
        }
      }
    }
  }

  lemma {:induction false} GridCompsOrdered(g: Grid, sat: TileServer, hill: TileServer, xTo: int)
    requires xTo <= g.xEnd + 1
    ensures OffsetsIncreasing(GridComps(g, sat, hill, xTo))
    decreases xTo - g.xStart
  {
    if xTo > g.xStart {
      var prev := GridComps(g, sat, hill, xTo - 1);
      var col := ColumnComps(g, sat, hill, xTo - 1, g.yEnd + 1);
      GridCompsOrdered(g, sat, hill, xTo - 1);
      ColumnCompsOrdered(g, sat, hill, xTo - 1, g.yEnd + 1);
      var s := prev + col;
      forall i, j | 0 <= i < j < |s|
        ensures s[i].left < s[j].left || (s[i].left == s[j].left && s[i].top < s[j].top)
      {
        if i < |prev| && j >= |prev| {
          assert s[i] in prev && s[j] in col;
          GridCompsMembers(g, sat, hill, xTo - 1, s[i]);
          ColumnCompsMembers(g, sat, hill, xTo - 1, g.yEnd + 1, s[j]);
        } else if j < |prev| {
          assert s[i] == prev[i] && s[j] == prev[j];
        } else {
          assert s[i] == col[i - |prev|] && s[j] == col[j - |prev|];
        }
      }
    }
  }

  /**
   * No grid cell is composed twice: together with
   * TilePlacedIffSatelliteArrived, the number of compositions (the success
   * count) is the number of cells whose satellite tile arrived.
   */
  lemma EachCellComposedOnce(g: Grid, sat: TileServer, hill: TileServer)
    ensures OffsetsIncreasing(AllComps(g, sat, hill))
    ensures forall i, j :: 0 <= i < j < |AllComps(g, sat, hill)| ==>
      (AllComps(g, sat, hill)[i].left, AllComps(g, sat, hill)[i].top) != (AllComps(g, sat, hill)[j].left, AllComps(g, sat, hill)[j].top)
  {
    GridCompsOrdered(g, sat, hill, g.xEnd + 1);
  }

  /** Every composition lies wholly on the canvas, at a multiple of the tile size. */
  lemma PlacementsInsideCanvas(g: Grid, sat: TileServer, hill: TileServer)
    requires g.xStart <= g.xEnd
    ensures forall c :: c in AllComps(g, sat, hill) ==>
      0 <= c.left <= Width(g) - TileSize && 0 <= c.top <= Height(g) - TileSize &&
      c.left % TileSize == 0 && c.top % TileSize == 0
  {
    forall c | c in AllComps(g, sat, hill)
      ensures 0 <= c.left <= Width(g) - TileSize && 0 <= c.top <= Height(g) - TileSize
      ensures c.left % TileSize == 0 && c.top % TileSize == 0
    {
      GridCompsMembers(g, sat, hill, g.xEnd + 1, c);
    }
  }

  lemma {:induction false} ColumnCompsCount(g: Grid, sat: TileServer, hill: TileServer, x: int, yTo: int)
    ensures |ColumnComps(g, sat, hill, x, yTo)| <= if yTo <= g.yStart then 0 else yTo - g.yStart
    decreases yTo - g.yStart
  {
    if yTo > g.yStart {
      ColumnCompsCount(g, sat, hill, x, yTo - 1);
    }
  }

  lemma {:induction false} GridCompsCount(g: Grid, sat: TileServer, hill: TileServer, xTo: int)
    requires Rows(g) >= 0
    ensures |GridComps(g, sat, hill, xTo)| <= if xTo <= g.xStart then 0 else (xTo - g.xStart) * Rows(g)
    decreases xTo - g.xStart
  {
    if xTo > g.xStart {
      GridCompsCount(g, sat, hill, xTo - 1);
      ColumnCompsCount(g, sat, hill, xTo - 1, g.yEnd + 1);
      assert (xTo - g.xStart) * Rows(g) == (xTo - 1 - g.xStart) * Rows(g) + Rows(g);
    }
  }

  /**
   * There are never more compositions than tiles in the grid; a grid with no
   * rows gets none.
   */
  lemma CompositionsAtMostTotalTiles(g: Grid, sat: TileServer, hill: TileServer)
    requires g.xStart <= g.xEnd
    ensures Rows(g) >= 0 ==> |AllComps(g, sat, hill)| <= TotalTiles(g)
    ensures Rows(g) <= 0 ==> AllComps(g, sat, hill) == []
  {
    if Rows(g) >= 0 {
      GridCompsCount(g, sat, hill, g.xEnd + 1);
    }
    if Rows(g) <= 0 && AllComps(g, sat, hill) != [] {
      GridCompsMembers(g, sat, hill, g.xEnd + 1, AllComps(g, sat, hill)[0]);
    }
  }

  /* ---------------------------------------------------------------------- */
  /* processGPX                                                              */
  /* ---------------------------------------------------------------------- */

  datatype Bounds = Bounds(minLat: real, maxLat: real, minLon: real, maxLon: real)

  /** The JSON written beside the image. */
  datatype MapMetadata = MapMetadata(bounds: Bounds, width: int, height: int)

  /** The geographic extent of the whole grid and the canvas size. */
  function GridMetadata(g: Grid, merc: Mercator): (r: MapMetadata)
    ensures r.width == Width(g) && r.height == Height(g)
    ensures g.xStart <= g.xEnd ==> r.width > 0 && r.bounds.minLon < r.bounds.maxLon
  {
    var meta := MapMetadata(
      Bounds(merc.tile2lat(g.yEnd + 1), merc.tile2lat(g.yStart), Tile2Lon(g.xStart, Zoom), Tile2Lon(g.xEnd + 1, Zoom)),
      Width(g),
      Height(g));
    if g.xStart <= g.xEnd then Tile2LonStrictlyIncreasing(g.xStart, g.xEnd + 1, Zoom); meta else meta
  }

  /** `successCount < totalTiles * 0.1`: fewer than 10% of the tiles arrived. */
  predicate TooFewTiles(successCount: int, totalTiles: int): (r: bool)
    ensures r <==> 10 * successCount < totalTiles
  {
    (successCount as real) < (totalTiles as real) * 0.1
  }

  /**
   * `s.replace(pat, rep)` with a string pattern: only the FIRST occurrence of
   * `pat` is replaced.
   */
  function ReplaceFirst(s: string, pat: string, rep: string): (r: string)
    ensures r == s || |r| == |s| - |pat| + |rep|
    decreases |s|
  {
    if |pat| <= |s| && s[..|pat|] == pat then rep + s[|pat|..]
    else if s == [] then []
    else [s[0]] + ReplaceFirst(s[1..], pat, rep)
  }

  /** pat occurs in s starting at index k. */
  predicate MatchAt(s: string, pat: string, k: int)
  {
    0 <= k && k + |pat| <= |s| && s[k..k + |pat|] == pat
  }

  /** pat occurs nowhere in s. */
  predicate NoMatch(s: string, pat: string)
  {
    forall k :: 0 <= k <= |s| ==> !MatchAt(s, pat, k)
  }

  /** pat occurs in s at k and at no earlier index. */
  predicate FirstMatchAt(s: string, pat: string, k: int)
  {
    MatchAt(s, pat, k) && forall j :: 0 <= j < k ==> !MatchAt(s, pat, j)
  }

  /** A match of pat in s[1..] is a match in s one index further on. */
  lemma MatchInTail(s: string, pat: string, k: int)
    requires s != [] && 0 <= k
    ensures MatchAt(s[1..], pat, k) <==> MatchAt(s, pat, k + 1)
  {
    if k + |pat| <= |s| - 1 {
      assert s[1..][k..k + |pat|] == s[k + 1..k + 1 + |pat|];
    }
  }

  /** Without an occurrence of the pattern, `replace` returns the string unchanged. */
  lemma {:induction false} ReplaceFirstWithoutMatch(s: string, pat: string, rep: string)
    ensures NoMatch(s, pat) ==> ReplaceFirst(s, pat, rep) == s
    decreases |s|
  {
    if NoMatch(s, pat) {
      assert !MatchAt(s, pat, 0);
      if s != [] {
        assert NoMatch(s[1..], pat) by {
          forall k | 0 <= k <= |s| - 1
            ensures !MatchAt(s[1..], pat, k)
          {
            MatchInTail(s, pat, k);
          }
        }
        ReplaceFirstWithoutMatch(s[1..], pat, rep);
        assert [s[0]] + s[1..] == s;
      }
    }
  }

  /** The first match at k > 0 is the first match of the tail at k - 1. */
  lemma FirstMatchInTail(s: string, pat: string, k: int)
    requires FirstMatchAt(s, pat, k) && k > 0
    ensures FirstMatchAt(s[1..], pat, k - 1)
  {
    MatchInTail(s, pat, k - 1);
    forall j | 0 <= j < k - 1
      ensures !MatchAt(s[1..], pat, j)
    {
      MatchInTail(s, pat, j);
    }
  }

  /** `replace` exchanges the first occurrence of the pattern and keeps everything around it. */
  lemma {:induction false} ReplaceFirstAtFirstMatch(s: string, pat: string, rep: string, k: int)
    requires FirstMatchAt(s, pat, k)
    ensures ReplaceFirst(s, pat, rep) == s[..k] + rep + s[k + |pat|..]
    decreases k
  {
    if k == 0 {
      assert s[..|pat|] == pat;
      assert s[..k] == [];
    } else {
      assert s[..|pat|] != pat by {
        assert !MatchAt(s, pat, 0);
      }
      var t := s[1..];
      FirstMatchInTail(s, pat, k);
      ReplaceFirstAtFirstMatch(t, pat, rep, k - 1);
      assert ReplaceFirst(s, pat, rep) == [s[0]] + ReplaceFirst(t, pat, rep);
      assert t[..k - 1] == s[1..k] && t[k - 1 + |pat|..] == s[k + |pat|..];
      assert [s[0]] + s[1..k] == s[..k];
    }
  }

  /** `filename.replace('.gpx', '')`: the base name of `maps/<base>.jpg` and `maps/<base>.json`. */
  function MapBase(filename: string): (r: string)
    ensures r == filename || |r| + 4 == |filename|
    ensures NoMatch(filename, ".gpx") ==> r == filename
  {
    ReplaceFirstWithoutMatch(filename, ".gpx", "");
    ReplaceFirst(filename, ".gpx", "")
  }

  /** `<name>.gpx` maps to `maps/<name>.jpg` whenever `.gpx` does not already occur in name. */
  lemma MapBaseOfGpxName(name: string)
    requires NoMatch(name, ".gpx")
    ensures MapBase(name + ".gpx") == name
  {
    var s := name + ".gpx";
    assert s[|name|..|name| + 4] == ".gpx";
    forall j | 0 <= j < |name|
      ensures !MatchAt(s, ".gpx", j)
    {
      if j + 4 <= |name| {
        assert s[j..j + 4] == name[j..j + 4];
        assert !MatchAt(name, ".gpx", j);
      } else {
        var d := |name| - j;
        assert s[j..j + 4][d] == s[|name|] == '.';
        assert ".gpx"[d] != '.';
      }
    }
    assert FirstMatchAt(s, ".gpx", |name|);
    ReplaceFirstAtFirstMatch(s, ".gpx", "", |name|);
    assert s[..|name|] == name && s[|name| + 4..] == [];
  }

  /** The generated files: images and metadata, each keyed by base name. */
  datatype Artifacts = Artifacts(images: map<string, Canvas>, metadata: map<string, MapMetadata>)

  /** Why processing one file ended. */
  datatype Outcome =
    | Skipped                                             // map exists and no --force
    | Failed                                              // an exception escaped processGPX
    | NotSaved(successCount: nat, totalTiles: int)       // coverage below 10%
    | Generated(image: Canvas, metadata: MapMetadata)

  datatype Step = Step(outcome: Outcome, files: Artifacts)

  /** `process.argv.includes('--force')` */
  predicate ForceRequested(args: seq<string>)
  {
    "--force" in args
  }

  /**
   * `processGPX(filename)` on a pure view of the disk. `doc` is the parsed
   * first track, None when reading or parsing the file throws. An empty track
   * and a canvas of non-positive width or height make the image library throw.
   */
  function ProcessSpec(files: Artifacts, filename: string, args: seq<string>, doc: Option<seq<TrackPoint>>,
                       merc: Mercator, sat: TileServer, hill: TileServer): (r: Step)
    ensures r.files.images.Keys == files.images.Keys + (if r.outcome.Generated? then {MapBase(filename)} else {})
    ensures r.files.metadata.Keys == files.metadata.Keys + (if r.outcome.Generated? then {MapBase(filename)} else {})
  {
    var base := MapBase(filename);
    if base in files.images && !ForceRequested(args) then Step(Skipped, files)
    else if doc.None? || |doc.value| == 0 then Step(Failed, files)
    else GenerateSpec(files, base, GridFor(doc.value, merc), merc, sat, hill)
  }

  /** The part of `processGPX` after the grid is known: tile loop, coverage floor, writes. */
  function GenerateSpec(files: Artifacts, base: string, g: Grid, merc: Mercator, sat: TileServer, hill: TileServer): (r: Step)
    ensures r.files.images.Keys == files.images.Keys + (if r.outcome.Generated? then {base} else {})
    ensures r.files.metadata.Keys == files.metadata.Keys + (if r.outcome.Generated? then {base} else {})
  {
    var comps := AllComps(g, sat, hill);
    if TooFewTiles(|comps|, TotalTiles(g)) then Step(NotSaved(|comps|, TotalTiles(g)), files)
    else if Width(g) <= 0 || Height(g) <= 0 then Step(Failed, files)
    else
      var image := Canvas(Width(g), Height(g), comps);
      var meta := GridMetadata(g, merc);
      Step(Generated(image, meta), Artifacts(files.images[base := image], files.metadata[base := meta]))
  }

  /**
   * What one file's processing guarantees about its outcome: it is skipped
   * exactly when its map exists and `--force` is absent, and nothing is
   * written unless it is Generated.
   */
  lemma ProcessGuarantees(files: Artifacts, filename: string, args: seq<string>, doc: Option<seq<TrackPoint>>,
                          merc: Mercator, sat: TileServer, hill: TileServer)
    ensures var step := ProcessSpec(files, filename, args, doc, merc, sat, hill);
      (step.outcome.Skipped? <==> MapBase(filename) in files.images && !ForceRequested(args)) &&
      (!step.outcome.Generated? ==> step.files == files)
  {
  }

  /**
   * A generated image had at least 10% of its tiles, and its image and its
   * metadata agree on the size, which is the grid's, with every tile inside it.
   */
  lemma GeneratedImageFacts(files: Artifacts, base: string, g: Grid, merc: Mercator, sat: TileServer, hill: TileServer)
    requires g.xStart <= g.xEnd
    ensures var step := GenerateSpec(files, base, g, merc, sat, hill);
      step.outcome.Generated? ==>
        var image, meta := step.outcome.image, step.outcome.metadata;
        step.files == Artifacts(files.images[base := image], files.metadata[base := meta]) &&
        !TooFewTiles(|image.tiles|, image.width / TileSize * (image.height / TileSize)) &&
        |image.tiles| <= image.width / TileSize * (image.height / TileSize) &&
        image.width == meta.width > 0 && image.height == meta.height > 0 &&
        image.width % TileSize == 0 && image.height % TileSize == 0 &&
        forall c :: c in image.tiles ==>
          0 <= c.left <= image.width - TileSize && 0 <= c.top <= image.height - TileSize
  {
    var step := GenerateSpec(files, base, g, merc, sat, hill);
    if step.outcome.Generated? {
      var comps := AllComps(g, sat, hill);
      assert step.outcome.image == Canvas(Width(g), Height(g), comps);
      assert step.outcome.metadata == GridMetadata(g, merc);
      assert Height(g) > 0;
      CompositionsAtMostTotalTiles(g, sat, hill);
      PlacementsInsideCanvas(g, sat, hill);
      assert Width(g) / TileSize == Columns(g);
      assert Height(g) / TileSize == Rows(g);
    }
  }

  /**
   * What a generated map guarantees: the track had points, the image is as
   * `GeneratedImageFacts` says, and the metadata's longitude bounds strictly
   * contain every point of the track.
   */
  lemma GeneratedMapGuarantees(files: Artifacts, filename: string, args: seq<string>, doc: Option<seq<TrackPoint>>,
                               merc: Mercator, sat: TileServer, hill: TileServer)
    ensures var step := ProcessSpec(files, filename, args, doc, merc, sat, hill);
      step.outcome.Generated? ==>
        var image, meta, base := step.outcome.image, step.outcome.metadata, MapBase(filename);
        doc.Some? && |doc.value| > 0 &&
        step.files == Artifacts(files.images[base := image], files.metadata[base := meta]) &&
        !TooFewTiles(|image.tiles|, image.width / TileSize * (image.height / TileSize)) &&
        |image.tiles| <= image.width / TileSize * (image.height / TileSize) &&
        image.width == meta.width > 0 && image.height == meta.height > 0 &&
        image.width % TileSize == 0 && image.height % TileSize == 0 &&
        (forall c :: c in image.tiles ==>
          0 <= c.left <= image.width - TileSize && 0 <= c.top <= image.height - TileSize) &&
        meta.bounds.minLon < meta.bounds.maxLon &&
        forall i :: 0 <= i < |doc.value| ==> meta.bounds.minLon < doc.value[i].lon < meta.bounds.maxLon
  {
    var step := ProcessSpec(files, filename, args, doc, merc, sat, hill);
    if step.outcome.Generated? {
      var g := GridFor(doc.value, merc);
      var base := MapBase(filename);
      assert step == GenerateSpec(files, base, g, merc, sat, hill);
      GridCoversTrackLongitudes(doc.value, merc);
      GeneratedImageFacts(files, base, g, merc, sat, hill);
      Tile2LonStrictlyIncreasing(g.xStart, g.xEnd + 1, Zoom);
      assert step.outcome.metadata == GridMetadata(g, merc);
    }
  }

  /**
   * A map that exists is skipped without `--force` before anything is read:
   * the result depends neither on the track nor on the tile servers.
   */
  lemma SkipReadsNothing(files: Artifacts, filename: string, args: seq<string>,
                         doc: Option<seq<TrackPoint>>, doc': Option<seq<TrackPoint>>,
                         merc: Mercator, merc': Mercator,
                         sat: TileServer, sat': TileServer, hill: TileServer, hill': TileServer)
    requires MapBase(filename) in files.images && !ForceRequested(args)
    ensures ProcessSpec(files, filename, args, doc, merc, sat, hill) == Step(Skipped, files)
    ensures ProcessSpec(files, filename, args, doc, merc, sat, hill) ==
            ProcessSpec(files, filename, args, doc', merc', sat', hill')
  {
  }

  /** Once a map has been generated, processing the same file again without `--force` skips it and changes nothing. */
  lemma RegenerationIsSkipped(files: Artifacts, filename: string, args: seq<string>, args': seq<string>,
                              doc: Option<seq<TrackPoint>>, doc': Option<seq<TrackPoint>>,
                              merc: Mercator, sat: TileServer, hill: TileServer, sat': TileServer, hill': TileServer)
    requires ProcessSpec(files, filename, args, doc, merc, sat, hill).outcome.Generated?
    requires !ForceRequested(args')
    ensures var after := ProcessSpec(files, filename, args, doc, merc, sat, hill).files;
      ProcessSpec(after, filename, args', doc', merc, sat', hill') == Step(Skipped, after)
  {
  }

  /** The files the batch step writes to. */
  class MapStore {
    var images: map<string, Canvas>
    var metadata: map<string, MapMetadata>

    function Files(): Artifacts
      reads this
    {
      Artifacts(images, metadata)
    }

    constructor (files: Artifacts)
      ensures Files() == files
    {
      images, metadata := files.images, files.metadata;
    }
  }

  /** Cell `cell` lies in the grid and its satellite tile arrived. */
  predicate SatelliteArrived(g: Grid, sat: TileServer, cell: (int, int))
  {
    g.xStart <= cell.0 <= g.xEnd && g.yStart <= cell.1 <= g.yEnd &&
    DownloadSpec(sat, cell.0, cell.1, Retries).tile.Some?
  }

  /** Composition c sits at the pixel offset of grid cell `cell`. */
  predicate ComposedAt(g: Grid, c: Composition, cell: (int, int))
  {
    c.left == (cell.0 - g.xStart) * TileSize && c.top == (cell.1 - g.yStart) * TileSize
  }

  /** Request k names the cell of composition k, and that cell's satellite tile arrived. */
  predicate CellsMatch(g: Grid, sat: TileServer, comps: seq<Composition>, reqs: seq<(int, int)>)
  {
    |comps| == |reqs| &&
    forall k :: 0 <= k < |reqs| ==> SatelliteArrived(g, sat, reqs[k]) && ComposedAt(g, comps[k], reqs[k])
  }

  lemma CellsMatchExtend(g: Grid, sat: TileServer, comps: seq<Composition>, reqs: seq<(int, int)>,
                         c: Composition, cell: (int, int))
    requires CellsMatch(g, sat, comps, reqs)
    requires SatelliteArrived(g, sat, cell) && ComposedAt(g, c, cell)
    ensures CellsMatch(g, sat, comps + [c], reqs + [cell])
  {
  }

  /**
   * The inner y loop of `processGPX` for column x: for every row, download
   * the satellite tile and, when it arrived, count it, download the
   * hillshade tile and push the composition.
   */
  method ComposeColumn(g: Grid, sat: TileServer, hill: TileServer, x: int,
                       comps0: seq<Composition>, reqs0: seq<(int, int)>)
    returns (compositions: seq<Composition>, added: nat, hillshadeRequests: seq<(int, int)>)
    requires g.xStart <= x <= g.xEnd
    requires CellsMatch(g, sat, comps0, reqs0)
    ensures compositions == comps0 + ColumnComps(g, sat, hill, x, g.yEnd + 1)
    ensures |compositions| == |comps0| + added
    ensures CellsMatch(g, sat, compositions, hillshadeRequests)
  {
    compositions, added, hillshadeRequests := comps0, 0, reqs0;
    var y := g.yStart;
    while y <= g.yEnd
      invariant y <= g.yEnd + 1 || y == g.yStart
      invariant g.yStart <= y
      invariant compositions == comps0 + ColumnComps(g, sat, hill, x, y)
      invariant |compositions| == |comps0| + added
      invariant CellsMatch(g, sat, compositions, hillshadeRequests)
      decreases g.yEnd + 1 - y
    {
      var satTile, _, _ := DownloadTile(sat, x, y, Retries);
      if satTile.Some? {
        added := added + 1;
        var left := (x - g.xStart) * TileSize;
        var top := (y - g.yStart) * TileSize;
        var hillTile, _, _ := DownloadTile(hill, x, y, Retries);
        var c := Composition(left, top, satTile.value, hillTile);
        CellsMatchExtend(g, sat, compositions, hillshadeRequests, c, (x, y));
        hillshadeRequests := hillshadeRequests + [(x, y)];
        compositions := compositions + [c];
      }
      y := y + 1;
    }
  }

  /**
   * The nested x/y loop of `processGPX`: for every cell, column by column,
   * download the satellite tile and, when it arrived, count it, download the
   * hillshade tile and push the composition. `hillshadeRequests` lists the
   * cells whose hillshade was requested: only cells whose satellite tile
   * arrived, one per composition, request k being the cell of composition k.
   */
  method ComposeTiles(g: Grid, sat: TileServer, hill: TileServer)
    returns (compositions: seq<Composition>, successCount: nat, hillshadeRequests: seq<(int, int)>)
    ensures compositions == AllComps(g, sat, hill)
    ensures successCount == |compositions| == |hillshadeRequests|
    ensures forall k :: 0 <= k < |hillshadeRequests| ==> SatelliteArrived(g, sat, hillshadeRequests[k])
    ensures forall k :: 0 <= k < |hillshadeRequests| ==> ComposedAt(g, compositions[k], hillshadeRequests[k])
  {
    compositions, successCount, hillshadeRequests := [], 0, [];
    var x := g.xStart;
    while x <= g.xEnd
      invariant x <= g.xEnd + 1 || x == g.xStart
      invariant compositions == GridComps(g, sat, hill, x)
      invariant successCount == |compositions|
      invariant CellsMatch(g, sat, compositions, hillshadeRequests)
      decreases g.xEnd + 1 - x
    {
      var added;
      compositions, added, hillshadeRequests := ComposeColumn(g, sat, hill, x, compositions, hillshadeRequests);
      successCount := successCount + added;
      x := x + 1;
    }
  }

  /**
   * The second half of `processGPX`, once the grid is known: the tile loop,
   * the coverage floor and the two writes.
   */
  method Generate(store: MapStore, base: string, g: Grid, merc: Mercator, sat: TileServer, hill: TileServer)
    returns (outcome: Outcome)
    modifies store
    ensures Step(outcome, store.Files()) == GenerateSpec(old(store.Files()), base, g, merc, sat, hill)
  {
    var width, height := (g.xEnd - g.xStart + 1) * TileSize, (g.yEnd - g.yStart + 1) * TileSize;
    var compositions, successCount, _ := ComposeTiles(g, sat, hill);
    var totalTiles := (g.xEnd - g.xStart + 1) * (g.yEnd - g.yStart + 1);
    assert totalTiles == TotalTiles(g);
    if TooFewTiles(successCount, totalTiles) {
      return NotSaved(successCount, totalTiles);
    }
    if width <= 0 || height <= 0 {
      return Failed;
    }
    var image := Canvas(width, height, compositions);
    store.images := store.images[base := image];
    var meta := GridMetadata(g, merc);
    store.metadata := store.metadata[base := meta];
    outcome := Generated(image, meta);
  }

  /**
   * `processGPX(filename)`: the skip rule, reading the track, then the tile
   * loop, coverage floor and writes. `readTrack` tells whether the GPX file
   * was read; a skipped file is neither read nor downloaded for.
   */
  method ProcessGpx(store: MapStore, filename: string, args: seq<string>, doc: Option<seq<TrackPoint>>,
                    merc: Mercator, sat: TileServer, hill: TileServer)
    returns (outcome: Outcome, readTrack: bool)
    modifies store
    ensures Step(outcome, store.Files()) == ProcessSpec(old(store.Files()), filename, args, doc, merc, sat, hill)
    ensures outcome.Skipped? <==> !readTrack
  {
    var base := MapBase(filename);
    var force := ForceRequested(args);
    if base in store.images && !force {
      return Skipped, false;
    }
    readTrack := true;
    if doc.None? || |doc.value| == 0 {
      return Failed, readTrack;
    }
    var g := GridFor(doc.value, merc);
    outcome := Generate(store, base, g, merc, sat, hill);
  }

  /* ---------------------------------------------------------------------- */
  /* run                                                                     */
  /* ---------------------------------------------------------------------- */

  /** Source files as the batch reads them: the parsed first track of each, None when that throws. */
  type TrackFiles = string -> Option<seq<TrackPoint>>

  datatype Batch = Batch(outcomes: seq<Outcome>, files: Artifacts)

  /** The manifest's files processed one after another, each seeing what the earlier ones wrote. */
  function RunSpec(files: Artifacts, manifest: seq<string>, args: seq<string>, tracks: TrackFiles,
                   merc: Mercator, sat: TileServer, hill: TileServer): (r: Batch)
    ensures |r.outcomes| == |manifest|
  {
    if manifest == [] then Batch([], files)
    else
      var before := RunSpec(files, manifest[..|manifest| - 1], args, tracks, merc, sat, hill);
      var file := manifest[|manifest| - 1];
      var step := ProcessSpec(before.files, file, args, tracks(file), merc, sat, hill);
      Batch(before.outcomes + [step.outcome], step.files)
  }

  /**
   * Every file of the manifest gets its own outcome, and the outcome of file
   * i is what processing it gives on the files left by files 0..i-1, whether
   * those failed or not.
   */
  lemma {:induction false} EveryFileProcessed(files: Artifacts, manifest: seq<string>, args: seq<string>, tracks: TrackFiles,
                                              merc: Mercator, sat: TileServer, hill: TileServer, i: nat)
    requires i < |manifest|
    ensures |RunSpec(files, manifest, args, tracks, merc, sat, hill).outcomes| == |manifest|
    ensures RunSpec(files, manifest, args, tracks, merc, sat, hill).outcomes[i] ==
      ProcessSpec(RunSpec(files, manifest[..i], args, tracks, merc, sat, hill).files,
                  manifest[i], args, tracks(manifest[i]), merc, sat, hill).outcome
  {
    var init := manifest[..|manifest| - 1];
    if i < |init| {
      EveryFileProcessed(files, init, args, tracks, merc, sat, hill, i);
      assert init[..i] == manifest[..i];
      assert init[i] == manifest[i];
    } else {
      assert manifest[..i] == init;
    }
  }

  /** A batch never removes a generated file, and the files it adds belong to manifest entries. */
  lemma {:induction false} RunOnlyAdds(files: Artifacts, manifest: seq<string>, args: seq<string>, tracks: TrackFiles,
                                       merc: Mercator, sat: TileServer, hill: TileServer)
    ensures var after := RunSpec(files, manifest, args, tracks, merc, sat, hill).files;
      files.images.Keys <= after.images.Keys && files.metadata.Keys <= after.metadata.Keys &&
      forall base :: base in after.images && base !in files.images ==>
        exists i :: 0 <= i < |manifest| && MapBase(manifest[i]) == base
  {
    if manifest != [] {
      var init := manifest[..|manifest| - 1];
      RunOnlyAdds(files, init, args, tracks, merc, sat, hill);
      var before := RunSpec(files, init, args, tracks, merc, sat, hill).files;
      var after := RunSpec(files, manifest, args, tracks, merc, sat, hill).files;
      forall base | base in after.images && base !in files.images
        ensures exists i :: 0 <= i < |manifest| && MapBase(manifest[i]) == base
      {
        if base in before.images {
          var i :| 0 <= i < |init| && MapBase(init[i]) == base;
          assert manifest[i] == init[i];
        } else {
          assert MapBase(manifest[|manifest| - 1]) == base;
        }
      }
    }
  }

  /**
   * `run()`: nothing happens without a manifest (None when the file is
   * missing or `JSON.parse` rejects it, both before any file is processed);
   * otherwise every file is
   * processed in order, and an exception in one file (a Failed outcome) does
   * not stop the rest.
   */
  method Run(store: MapStore, manifest: Option<seq<string>>, args: seq<string>, tracks: TrackFiles,
             merc: Mercator, sat: TileServer, hill: TileServer)
    returns (outcomes: seq<Outcome>)
    modifies store
    ensures manifest.None? ==> outcomes == [] && store.Files() == old(store.Files())
    ensures manifest.Some? ==>
      Batch(outcomes, store.Files()) == RunSpec(old(store.Files()), manifest.value, args, tracks, merc, sat, hill)
  {
    outcomes := [];
    if manifest.None? {
      return;
    }
    var files := manifest.value;
    for i := 0 to |files|
      invariant Batch(outcomes, store.Files()) == RunSpec(old(store.Files()), files[..i], args, tracks, merc, sat, hill)
    {
      var outcome, _ := ProcessGpx(store, files[i], args, tracks(files[i]), merc, sat, hill);
      outcomes := outcomes + [outcome];
      assert files[..i + 1][..i] == files[..i];
    }
    assert files[..|files|] == files;
  }
}
