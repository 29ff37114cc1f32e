/**
 * OpenStreetMap "slippy map" tile numbering for longitudes, as
 * scripts/generate-static-maps.js uses it: `lon2tile` and its inverse
 * `tile2lon`. The latitude functions need logarithms and trigonometry and
 * are parameters of the static-map model instead.
 */
module SlippyTiles {
  /** `ZOOM` */
  const Zoom: nat := 15
  /** `TILE_SIZE`, in pixels */
  const TileSize: int := 256

  /** `Math.pow(2, zoom)` */
  function Pow2(zoom: nat): (r: nat)
    ensures r >= 1
  {
    if zoom == 0 then 1 else 2 * Pow2(zoom - 1)
  }

  /** `(lon + 180) / 360 * Math.pow(2, zoom)`: a longitude as a fractional tile column. */
  function TileCoord(lon: real, zoom: nat): real
  {
    (lon + 180.0) / 360.0 * Pow2(zoom) as real
  }

  /** `lon2tile(lon, zoom)`: the column of the tile holding the longitude. */
  function Lon2Tile(lon: real, zoom: nat): (r: int)
    ensures r as real <= TileCoord(lon, zoom) < r as real + 1.0
  {
    TileCoord(lon, zoom).Floor
  }

  /** `tile2lon(x, z)`: the longitude of the west edge of tile column x. */
  function Tile2Lon(x: int, zoom: nat): real
  {
    x as real / Pow2(zoom) as real * 360.0 - 180.0
  }

  /** Multiplying by a positive factor keeps a strict order. */
  lemma ScaleStrict(a: real, b: real, f: real)
    requires a < b && f > 0.0
    ensures a * f < b * f
  {
  }

  /** The fractional tile column grows strictly with the longitude. */
  lemma TileCoordStrictlyIncreasing(a: real, b: real, zoom: nat)
    requires a < b
    ensures TileCoord(a, zoom) < TileCoord(b, zoom)
  {
    ScaleStrict((a + 180.0) / 360.0, (b + 180.0) / 360.0, Pow2(zoom) as real);
  }

  /** The west edge of column x has fractional tile column exactly x. */
  lemma TileCoordOfTile2Lon(x: int, zoom: nat)
    ensures TileCoord(Tile2Lon(x, zoom), zoom) == x as real
  {
    var n := Pow2(zoom) as real;
    var lon := Tile2Lon(x, zoom);
    assert (lon + 180.0) / 360.0 == x as real / n;
    assert x as real / n * n == x as real;
  }

  /** `lon2tile` is monotone non-decreasing in the longitude. */
  lemma Lon2TileMonotone(a: real, b: real, zoom: nat)
    requires a <= b
    ensures Lon2Tile(a, zoom) <= Lon2Tile(b, zoom)
  {
    if a < b {
      TileCoordStrictlyIncreasing(a, b, zoom);
    }
  }

  /** `tile2lon` is strictly increasing in the column. */
  lemma Tile2LonStrictlyIncreasing(x: int, y: int, zoom: nat)
    requires x < y
    ensures Tile2Lon(x, zoom) < Tile2Lon(y, zoom)
  {
    var n := Pow2(zoom) as real;
    ScaleStrict(x as real, y as real, 1.0 / n);
    assert x as real / n == x as real * (1.0 / n);
    assert y as real / n == y as real * (1.0 / n);
  }

  /** The west edge of a column lies in that column: `lon2tile(tile2lon(x)) == x`. */
  lemma TileRoundTrip(x: int, zoom: nat)
    ensures Lon2Tile(Tile2Lon(x, zoom), zoom) == x
  {
    TileCoordOfTile2Lon(x, zoom);
  }

  /**
   * The column `lon2tile` picks brackets the longitude between its own west
   * edge and the next column's west edge.
   */
  lemma TileBracketsLon(lon: real, zoom: nat)
    ensures Tile2Lon(Lon2Tile(lon, zoom), zoom) <= lon < Tile2Lon(Lon2Tile(lon, zoom) + 1, zoom)
  {
    var x := Lon2Tile(lon, zoom);
    var west, east := Tile2Lon(x, zoom), Tile2Lon(x + 1, zoom);
    TileCoordOfTile2Lon(x, zoom);
    TileCoordOfTile2Lon(x + 1, zoom);
    if lon < west {
      TileCoordStrictlyIncreasing(lon, west, zoom);
    }
    if east <= lon {
      if east < lon {
        TileCoordStrictlyIncreasing(east, lon, zoom);
      }
    }
  }
}
