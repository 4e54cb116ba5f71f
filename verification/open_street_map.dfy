/** Tile selection for OpenStreetMap-style servers (Mapnik, MapQuest,
    CloudMade and the three Stamen styles): which tiles `drawMap` asks the
    retriever for, the coarser cached tiles it falls back on, and the
    coarsest-first order it draws them in. The four floating-point
    conversions between longitude/latitude and tile numbers are a parameter;
    the pixel drawing is not modelled. */
module OpenStreetMap {
  import opened Wrappers
  import opened JavaInt
  import opened Strings
  import R = TileRetriever
  import opened TileSelection
  import StableSort
  import BTS = BingTileSystem

  datatype OsmTileType = Mapnik | MapQuest | CloudMade | Watercolour | Toner | Terrain

  /** `osmTileType.toString().toLowerCase()`. */
  function TypeName(t: OsmTileType): (s: string)
    ensures '-' !in s
  {
    match t
    case Mapnik => "mapnik"
    case MapQuest => "mapquest"
    case CloudMade => "cloudmade"
    case Watercolour => "watercolour"
    case Toner => "toner"
    case Terrain => "terrain"
  }

  /** A tile: column, row and level of detail. */
  datatype TileId = TileId(x: int, y: int, zoom: int)

  /** The range check of `getTileUrl`, which compares with
      `Math.pow(2, zoom) - 1` in double arithmetic. For a negative level
      that bound lies in (-1, -0.5], so no tile passes; for levels of 31 and
      more it is at least 2^31 - 1 (or infinite), so every non-negative
      `int` passes, as it does here. */
  predicate InGrid(tile: TileId) {
    tile.zoom >= 0 && 0 <= tile.x < Pow2(tile.zoom) && 0 <= tile.y < Pow2(tile.zoom)
  }

  /** The tile one level coarser over an in-grid tile is in the grid too. */
  lemma InGridParent(tile: TileId)
    requires InGrid(tile) && tile.zoom > 0
    ensures InGrid(TileId(tile.x / 2, tile.y / 2, tile.zoom - 1))
  {
    assert Pow2(tile.zoom) == 2 * Pow2(tile.zoom - 1);
  }

  /** `zoom + "/" + tileX + "/" + tileY`. */
  function TileName(tile: TileId): (r: string)
    ensures var z := IntToString(tile.zoom); |r| > |z| && r[..|z|] == z && r[|z|] == '/'
  {
    Join(IntToString(tile.zoom), '/', Join(IntToString(tile.x), '/', IntToString(tile.y)))
  }

  /** Different tiles have different names. */
  lemma TileNameInjective(a: TileId, b: TileId)
    requires TileName(a) == TileName(b)
    ensures a == b
  {
    SplitAfterInt(a.zoom, Join(IntToString(a.x), '/', IntToString(a.y)),
                  b.zoom, Join(IntToString(b.x), '/', IntToString(b.y)), '/');
    SplitAfterInt(a.x, IntToString(a.y), b.x, IntToString(b.y), '/');
    IntToStringInjective(a.y, b.y);
  }

  /** `getTileCacheFileName`. */
  function CacheFileName(t: OsmTileType, tile: TileId): (r: string)
    ensures var n := |TypeName(t)|; |r| > 5 + n && r[..4] == "osm-" && r[4..4 + n] == TypeName(t) && r[4 + n] == '-'
  {
    "osm-" + Join(TypeName(t), '-', NumberTail(tile))
  }

  lemma TypeNameInjective(t1: OsmTileType, t2: OsmTileType)
    requires TypeName(t1) == TypeName(t2)
    ensures t1 == t2
  {
    match t1
    case Mapnik => assert TypeName(t1)[1] == 'a' && |TypeName(t1)| == 6;
    case MapQuest => assert TypeName(t1)[3] == 'q';
    case CloudMade => assert TypeName(t1)[0] == 'c';
    case Watercolour => assert TypeName(t1)[0] == 'w';
    case Toner => assert TypeName(t1)[2] == 'n';
    case Terrain => assert TypeName(t1)[2] == 'r';
  }

  /** The numeric tail `x-y-zoom.png` of a cache file name. */
  function NumberTail(tile: TileId): string {
    Join(IntToString(tile.x), '-', Join(IntToString(tile.y), '-', IntToString(tile.zoom) + ".png"))
  }

  lemma NumberTailInjective(a: TileId, b: TileId)
    requires NumberTail(a) == NumberTail(b)
    ensures a == b
  {
    var za, zb := IntToString(a.zoom) + ".png", IntToString(b.zoom) + ".png";
    SplitAfterInt(a.x, Join(IntToString(a.y), '-', za), b.x, Join(IntToString(b.y), '-', zb), '-');
    SplitAfterInt(a.y, za, b.y, zb, '-');
    DropCommonSuffix(IntToString(a.zoom), IntToString(b.zoom), ".png");
    IntToStringInjective(a.zoom, b.zoom);
  }

  lemma PrefixedNameInjective(n1: string, a: TileId, n2: string, b: TileId)
    requires '-' !in n1 && '-' !in n2
    requires "osm-" + Join(n1, '-', NumberTail(a)) == "osm-" + Join(n2, '-', NumberTail(b))
    ensures n1 == n2 && a == b
  {
    DropCommonPrefix("osm-", Join(n1, '-', NumberTail(a)), Join(n2, '-', NumberTail(b)));
    SplitAtSeparator(n1, NumberTail(a), n2, NumberTail(b), '-');
    NumberTailInjective(a, b);
  }

  /** Different tiles or types never share a cache file, negative numbers
      included, although the minus sign is also the separator. */
  lemma CacheFileNameInjective(t1: OsmTileType, a: TileId, t2: OsmTileType, b: TileId)
    requires CacheFileName(t1, a) == CacheFileName(t2, b)
    ensures t1 == t2 && a == b
  {
    PrefixedNameInjective(TypeName(t1), a, TypeName(t2), b);
    TypeNameInjective(t1, t2);
  }

  /** The `tileX + ":" + tileY + ":" + zoom` key of the `keys` set. */
  function Key(tile: TileId): string {
    Join(IntToString(tile.x), ':', Join(IntToString(tile.y), ':', IntToString(tile.zoom)))
  }

  /** Different tiles have different keys. */
  lemma KeyInjective(a: TileId, b: TileId)
    requires Key(a) == Key(b)
    ensures a == b
  {
    SplitAfterInt(a.x, Join(IntToString(a.y), ':', IntToString(a.zoom)), b.x, Join(IntToString(b.y), ':', IntToString(b.zoom)), ':');
    SplitAfterInt(a.y, IntToString(a.zoom), b.y, IntToString(b.zoom), ':');
    IntToStringInjective(a.zoom, b.zoom);
  }

  /** `(int)(Math.random() * n)` for a random double in [0, 1). */
  function RandomBelow(random: real, n: nat): (k: nat)
    requires 0.0 <= random < 1.0 && n > 0
    ensures k < n
  {
    var m := n as real;
    assert 0.0 <= random * m < m by {
      assert random * m <= 1.0 * m;
      assert random * m != m;
    }
    (random * m).Floor
  }

  /** The settings `getTileUrl` reads besides the tile: the CloudMade key
      (`None` for a key that was never set, printed as `null`), the CloudMade
      style, and the random double drawn for the subdomain. */
  datatype UrlSettings = UrlSettings(apiKey: Option<string>, cloudMadeStyleId: int, random: real)

  predicate ValidSettings(settings: UrlSettings) {
    0.0 <= settings.random < 1.0
  }

  function MapnikSubdomain(k: int): string {
    if k == 1 then "a." else if k == 2 then "b." else if k == 3 then "c." else ""
  }

  /** The CloudMade subdomain as `getTileUrl` writes it: `b` and `c` carry
      a dot of their own before the `.tile` that follows. */
  function CloudMadeSubdomainAsWritten(k: int): string {
    if k == 0 then "a" else if k == 1 then "b." else if k == 2 then "c." else "null"
  }

  function CloudMadeHostAsWritten(k: int): string {
    "http://" + CloudMadeSubdomainAsWritten(k) + ".tile.cloudmade.com/"
  }

  /** Two of the three CloudMade hosts, as written, hold an empty DNS label:
      `http://b..tile.cloudmade.com/`. */
  lemma CloudMadeHostAsWrittenIsMalformed(k: int)
    requires k == 1 || k == 2
    ensures var h := CloudMadeHostAsWritten(k); |h| > 9 && h[8] == '.' && h[9] == '.'
  {
  }

  /** The evident intent: subdomains `a`, `b` and `c`. */
  function CloudMadeSubdomain(k: int): (s: string)
    requires 0 <= k < 3
    ensures |s| == 1 && s[0] == "abc"[k]
  {
    if k == 0 then "a" else if k == 1 then "b" else "c"
  }

  function CloudMadeHost(k: int): string
    requires 0 <= k < 3
  {
    "http://" + CloudMadeSubdomain(k) + ".tile.cloudmade.com/"
  }

  /** Each corrected host is `http://<letter>.tile.cloudmade.com/`, with one
      dot after the letter, and the three are different. */
  lemma CloudMadeHostIsWellFormed(k: int, j: int)
    requires 0 <= k < 3 && 0 <= j < 3
    ensures var h := CloudMadeHost(k);
      |h| > 9 && h[7] == "abc"[k] && h[8] == '.' && h[9] == 't'
    ensures k != j ==> CloudMadeHost(k) != CloudMadeHost(j)
  {
    var h := CloudMadeHost(k);
    assert h == "http://" + [("abc"[k])] + ".tile.cloudmade.com/";
    if k != j {
      assert CloudMadeHost(j)[7] == "abc"[j];
    }
  }

  /** The part of the URL before the tile name. */
  function UrlPrefix(t: OsmTileType, settings: UrlSettings): (r: string)
    requires ValidSettings(settings)
    ensures |r| > 7 && r[..7] == "http://" && r[|r| - 1] == '/'
  {
    match t
    case Mapnik => "http://" + MapnikSubdomain(RandomBelow(settings.random, 4)) + "tile.openstreetmap.org/"
    case MapQuest => "http://otile" + IntToString(RandomBelow(settings.random, 3) + 1) + ".mqcdn.com/tiles/1.0.0/osm/"
    case CloudMade =>
      CloudMadeHostAsWritten(RandomBelow(settings.random, 3))
      + (match settings.apiKey case None => "null" case Some(k) => k)
      + "/" + IntToString(settings.cloudMadeStyleId) + "/256/"
    case Watercolour => "http://tile.stamen.com/watercolor/"
    case Toner => "http://tile.stamen.com/toner/"
    case Terrain => "http://tile.stamen.com/terrain/"
  }

  function Extension(t: OsmTileType): string {
    if t == MapQuest then ".jpg" else ".png"
  }

  /** `getTileUrl`: no URL outside the grid; otherwise the server's address
      for the tile, wrapped with the pass-through URL. */
  function TileUrl(t: OsmTileType, settings: UrlSettings, passthroughURL: Option<string>,
                   urlEncode: string -> string, tile: TileId): (r: Option<string>)
    requires ValidSettings(settings)
    ensures r.None? <==> !InGrid(tile)
  {
    if !InGrid(tile) then None
    else Some(R.ApplyPassThroughURL(passthroughURL, UrlPrefix(t, settings) + TileName(tile) + Extension(t), urlEncode))
  }

  /** With the same settings, a URL names one tile: the tile name sits
      between a fixed prefix and a fixed extension, and the pass-through
      wrapping keeps URLs apart when the encoder does. */
  lemma TileUrlIdentifiesTile(t: OsmTileType, settings: UrlSettings, passthroughURL: Option<string>,
                              urlEncode: string -> string, a: TileId, b: TileId)
    requires ValidSettings(settings)
    requires forall u, v :: urlEncode(u) == urlEncode(v) ==> u == v
    requires TileUrl(t, settings, passthroughURL, urlEncode, a).Some?
    requires TileUrl(t, settings, passthroughURL, urlEncode, a) == TileUrl(t, settings, passthroughURL, urlEncode, b)
    ensures a == b
  {
    var p, e := UrlPrefix(t, settings), Extension(t);
    R.PassThroughInjective(passthroughURL, p + TileName(a) + e, p + TileName(b) + e, urlEncode);
    DropAffixes(p, TileName(a), TileName(b), e);
    TileNameInjective(a, b);
  }

  /** With no pass-through URL the Stamen URLs are fixed addresses. */
  lemma StamenUrl(tile: TileId, settings: UrlSettings, urlEncode: string -> string)
    requires ValidSettings(settings) && InGrid(tile)
    ensures TileUrl(Toner, settings, None, urlEncode, tile) == Some("http://tile.stamen.com/toner/" + TileName(tile) + ".png")
    ensures TileUrl(Terrain, settings, None, urlEncode, tile) == Some("http://tile.stamen.com/terrain/" + TileName(tile) + ".png")
    ensures TileUrl(Watercolour, settings, None, urlEncode, tile)
      == Some("http://tile.stamen.com/watercolor/" + TileName(tile) + ".png")
  {
  }

  /** `getTileUrl` for one tile type and fixed settings, as a function of
      the retriever's pass-through URL and the tile. The tile selection
      below depends on it only through `GridUrls`. */
  type UrlOf = (Option<string>, TileId) -> Option<string>

  /** A URL exists exactly for the tiles of the grid. */
  ghost predicate GridUrls(urls: UrlOf) {
    forall p, tile :: urls(p, tile).None? <==> !InGrid(tile)
  }

  /** The map's own `getTileUrl`. */
  function OsmUrls(t: OsmTileType, settings: UrlSettings, urlEncode: string -> string): (urls: UrlOf)
    requires ValidSettings(settings)
    ensures GridUrls(urls)
    ensures forall p, tile :: urls(p, tile) == TileUrl(t, settings, p, urlEncode, tile)
  {
    (p, tile) => TileUrl(t, settings, p, urlEncode, tile)
  }

  /** True when a cache-only lookup of this tile finds an image: the tile
      must have a URL, and its file must be cached. */
  predicate Available(st: R.Retriever, t: OsmTileType, tile: TileId) {
    InGrid(tile) && R.Cached(st, CacheFileName(t, tile))
  }

  /** `getTileImage`: a tile without a URL is not looked up at all. */
  function GetTileImage(st: R.Retriever, t: OsmTileType, urls: UrlOf, urlEncode: string -> string,
                        tile: TileId, onlyGetFromCache: bool): (r: R.Lookup)
    requires GridUrls(urls)
    ensures !InGrid(tile) ==> r == R.Lookup(None, st)
    ensures r.image.Some? <==> Available(st, t, tile)
    ensures R.SameCaches(r.state, st)
    ensures Available(st, t, tile) || onlyGetFromCache ==> r.state.urls == st.urls
    ensures !Available(st, t, tile) && !onlyGetFromCache && InGrid(tile) ==>
      |r.state.urls| >= 1 && r.state.urls[0].cacheFilename == CacheFileName(t, tile)
    ensures R.Valid(st) ==> R.Valid(r.state)
  {
    match urls(st.passthroughURL, tile)
    case None => R.Lookup(None, st)
    case Some(url) => R.GetTileImage(st, url, CacheFileName(t, tile), onlyGetFromCache, urlEncode)
  }

  /** The floating-point conversions `lon2TileX`, `lat2TileY`, `tileX2Lon`
      and `tileY2Lat`, and `toFloat`, the `(float)` cast of a double, which
      `drawMap` applies to the clamped bounds before converting them. */
  datatype Projection = Projection(
    lon2TileX: (real, int) -> int,
    lat2TileY: (real, int) -> int,
    tileX2Lon: (int, int) -> real,
    tileY2Lat: (int, int) -> real,
    toFloat: real -> real)

  /** The tiles chosen so far with their `keys` set, the retriever state,
      and the lookups made. */
  datatype Scan = Scan(tilesToDraw: seq<TileId>, keys: set<string>, state: R.Retriever, probes: seq<Probe<TileId>>)

  /** The keys of a list of tiles. */
  function KeySet(tiles: seq<TileId>): set<string> {
    set i | 0 <= i < |tiles| :: Key(tiles[i])
  }

  lemma KeySetSnoc(tiles: seq<TileId>, tile: TileId)
    ensures KeySet(tiles + [tile]) == KeySet(tiles) + {Key(tile)}
  {
    var s := tiles + [tile];
    forall k | k in KeySet(s)
      ensures k in KeySet(tiles) + {Key(tile)}
    {
      var i :| 0 <= i < |s| && Key(s[i]) == k;
      if i < |tiles| {
        assert s[i] == tiles[i];
      }
    }
    forall k | k in KeySet(tiles)
      ensures k in KeySet(s)
    {
      var i :| 0 <= i < |tiles| && Key(tiles[i]) == k;
      assert s[i] == tiles[i];
    }
    assert s[|tiles|] == tile;
  }

  /** The invariant of the tile loop: `keys` holds exactly the keys of the
      chosen tiles, and no tile is chosen twice. */
  predicate Consistent(tiles: seq<TileId>, keys: set<string>) {
    keys == KeySet(tiles) && Distinct(tiles)
  }

  /** Adding a tile whose key is absent keeps the invariant. */
  lemma ConsistentAdd(tiles: seq<TileId>, keys: set<string>, tile: TileId)
    requires Consistent(tiles, keys) && Key(tile) !in keys
    ensures Consistent(tiles + [tile], keys + {Key(tile)})
  {
    KeySetSnoc(tiles, tile);
    assert tile !in tiles by {
      forall i | 0 <= i < |tiles|
        ensures tiles[i] != tile
      {
        assert Key(tiles[i]) in keys;
      }
    }
    DistinctSnoc(tiles, tile);
  }

  /** A key is present exactly when its tile is chosen. */
  lemma ConsistentKeyMeansChosen(tiles: seq<TileId>, keys: set<string>, tile: TileId)
    requires Consistent(tiles, keys)
    ensures Key(tile) in keys <==> tile in tiles
  {
    if Key(tile) in keys {
      var i :| 0 <= i < |tiles| && Key(tiles[i]) == Key(tile);
      KeyInjective(tiles[i], tile);
    }
  }

  /** The tile at a position and level of detail. */
  function TileAt(proj: Projection, lon: real, lat: real, zoom: int): TileId {
    TileId(proj.lon2TileX(lon, zoom), proj.lat2TileY(lat, zoom), zoom)
  }

  /** Adds a tile unless its key is already present. */
  function AddTile(tiles: seq<TileId>, keys: set<string>, tile: TileId): (seq<TileId>, set<string>) {
    if Key(tile) in keys then (tiles, keys) else (tiles + [tile], keys + {Key(tile)})
  }

  /** The fallback loop for a missing tile: the position of the tile's
      corner is looked up, in the caches only, at levels `level - 1` down
      to 0; the first tile found is added unless its key is present. */
  function Fallback(st: R.Retriever, t: OsmTileType, urls: UrlOf, urlEncode: string -> string,
                    proj: Projection, lon: real, lat: real, level: nat,
                    tiles: seq<TileId>, keys: set<string>): (r: Scan)
    requires GridUrls(urls)
    ensures R.SameCaches(r.state, st) && r.state.urls == st.urls
    ensures R.Valid(st) ==> R.Valid(r.state)
    decreases level
  {
    if level == 0 then Scan(tiles, keys, st, [])
    else
      var tile := TileAt(proj, lon, lat, level - 1);
      var l := GetTileImage(st, t, urls, urlEncode, tile, true);
      if l.image.Some? then
        var added := AddTile(tiles, keys, tile);
        Scan(added.0, added.1, l.state, [Probe(tile, true)])
      else
        var rest := Fallback(l.state, t, urls, urlEncode, proj, lon, lat, level - 1, tiles, keys);
        Scan(rest.tilesToDraw, rest.keys, rest.state, [Probe(tile, true)] + rest.probes)
  }

  /** `n` cache-only lookups of the same position, from level `level - 1`
      down one level at a time. */
  function CoarserProbes(proj: Projection, lon: real, lat: real, level: int, n: nat): seq<Probe<TileId>>
    decreases n
  {
    if n == 0 then [] else [Probe(TileAt(proj, lon, lat, level - 1), true)] + CoarserProbes(proj, lon, lat, level - 1, n - 1)
  }

  lemma {:induction false} CoarserProbesAt(proj: Projection, lon: real, lat: real, level: int, n: nat)
    ensures var p := CoarserProbes(proj, lon, lat, level, n);
      |p| == n && forall i :: 0 <= i < n ==> p[i] == Probe(TileAt(proj, lon, lat, level - 1 - i), true)
    decreases n
  {
    if n > 0 {
      CoarserProbesAt(proj, lon, lat, level - 1, n - 1);
      var rest := CoarserProbes(proj, lon, lat, level - 1, n - 1);
      var p := [Probe(TileAt(proj, lon, lat, level - 1), true)] + rest;
      forall i | 1 <= i < n
        ensures p[i] == Probe(TileAt(proj, lon, lat, level - 1 - i), true)
      {
        assert p[i] == rest[i - 1];
      }
    }
  }

  /** The fallback looks at the same position one level coarser each time,
      in the caches only. */
  lemma {:induction false} FallbackProbesCoarser(st: R.Retriever, t: OsmTileType, urls: UrlOf,
                                                 urlEncode: string -> string, proj: Projection, lon: real, lat: real,
                                                 level: nat, tiles: seq<TileId>, keys: set<string>)
    requires GridUrls(urls)
    ensures var r := Fallback(st, t, urls, urlEncode, proj, lon, lat, level, tiles, keys);
      |r.probes| <= level && r.probes == CoarserProbes(proj, lon, lat, level, |r.probes|)
    decreases level
  {
    if level > 0 {
      var tile := TileAt(proj, lon, lat, level - 1);
      if Available(st, t, tile) {
        FallbackTakes(st, t, urls, urlEncode, proj, lon, lat, level, tiles, keys);
      } else {
        var l := GetTileImage(st, t, urls, urlEncode, tile, true);
        FallbackProbesCoarser(l.state, t, urls, urlEncode, proj, lon, lat, level - 1, tiles, keys);
        FallbackSkips(st, t, urls, urlEncode, proj, lon, lat, level, tiles, keys);
      }
    }
  }

  /** A level with nothing cached is probed and the fallback goes on. */
  lemma FallbackSkips(st: R.Retriever, t: OsmTileType, urls: UrlOf, urlEncode: string -> string,
                      proj: Projection, lon: real, lat: real, level: nat, tiles: seq<TileId>, keys: set<string>)
    requires GridUrls(urls) && level > 0 && !Available(st, t, TileAt(proj, lon, lat, level - 1))
    ensures var l := GetTileImage(st, t, urls, urlEncode, TileAt(proj, lon, lat, level - 1), true);
      var rest := Fallback(l.state, t, urls, urlEncode, proj, lon, lat, level - 1, tiles, keys);
      Fallback(st, t, urls, urlEncode, proj, lon, lat, level, tiles, keys)
        == Scan(rest.tilesToDraw, rest.keys, rest.state, [Probe(TileAt(proj, lon, lat, level - 1), true)] + rest.probes)
  {
  }

  /** With nothing cached at any coarser level, every level down to 0 is
      tried and nothing is added. */
  lemma {:induction false} FallbackMiss(st: R.Retriever, t: OsmTileType, urls: UrlOf,
                                        urlEncode: string -> string, proj: Projection, lon: real, lat: real,
                                        level: nat, tiles: seq<TileId>, keys: set<string>)
    requires GridUrls(urls)
    requires forall z :: 0 <= z < level ==> !Available(st, t, TileAt(proj, lon, lat, z))
    ensures var r := Fallback(st, t, urls, urlEncode, proj, lon, lat, level, tiles, keys);
      |r.probes| == level && r.tilesToDraw == tiles && r.keys == keys
    decreases level
  {
    if level > 0 {
      var l := GetTileImage(st, t, urls, urlEncode, TileAt(proj, lon, lat, level - 1), true);
      FallbackSkips(st, t, urls, urlEncode, proj, lon, lat, level, tiles, keys);
      forall z | 0 <= z < level - 1
        ensures !Available(l.state, t, TileAt(proj, lon, lat, z))
      {
        AvailableAlike(l.state, st, t, TileAt(proj, lon, lat, z));
      }
      FallbackMiss(l.state, t, urls, urlEncode, proj, lon, lat, level - 1, tiles, keys);
      var rest := Fallback(l.state, t, urls, urlEncode, proj, lon, lat, level - 1, tiles, keys);
      var r := Fallback(st, t, urls, urlEncode, proj, lon, lat, level, tiles, keys);
      assert r.tilesToDraw == rest.tilesToDraw && r.keys == rest.keys && |r.probes| == 1 + |rest.probes|;
    }
  }

  /** The fallback keeps the loop invariant and adds at most one tile,
      one that was cached, at a level below `level`. */
  lemma {:induction false} FallbackAdds(st: R.Retriever, t: OsmTileType, urls: UrlOf,
                                        urlEncode: string -> string, proj: Projection, lon: real, lat: real,
                                        level: nat, tiles: seq<TileId>, keys: set<string>)
    requires GridUrls(urls) && Consistent(tiles, keys)
    ensures var r := Fallback(st, t, urls, urlEncode, proj, lon, lat, level, tiles, keys);
      Grows(st, t, level - 1, tiles, r.tilesToDraw, r.keys) && |r.tilesToDraw| <= |tiles| + 1
    decreases level
  {
    if level == 0 {
      assert tiles[..|tiles|] == tiles;
    } else {
      var tile := TileAt(proj, lon, lat, level - 1);
      if Available(st, t, tile) {
        FallbackTakes(st, t, urls, urlEncode, proj, lon, lat, level, tiles, keys);
        if Key(tile) !in keys {
          ConsistentAdd(tiles, keys, tile);
          assert (tiles + [tile])[..|tiles|] == tiles;
        } else {
          assert tiles[..|tiles|] == tiles;
        }
      } else {
        var l := GetTileImage(st, t, urls, urlEncode, tile, true);
        FallbackSkips(st, t, urls, urlEncode, proj, lon, lat, level, tiles, keys);
        FallbackAdds(l.state, t, urls, urlEncode, proj, lon, lat, level - 1, tiles, keys);
        var r := Fallback(l.state, t, urls, urlEncode, proj, lon, lat, level - 1, tiles, keys);
        GrowsCoarser(st, l.state, t, level - 2, level - 1, tiles, r.tilesToDraw, r.keys);
      }
    }
  }

  /** A level with its tile cached ends the fallback, adding that tile
      unless its key is present. */
  lemma FallbackTakes(st: R.Retriever, t: OsmTileType, urls: UrlOf, urlEncode: string -> string,
                      proj: Projection, lon: real, lat: real, level: nat, tiles: seq<TileId>, keys: set<string>)
    requires GridUrls(urls) && level > 0 && Available(st, t, TileAt(proj, lon, lat, level - 1))
    ensures var r := Fallback(st, t, urls, urlEncode, proj, lon, lat, level, tiles, keys);
      var added := AddTile(tiles, keys, TileAt(proj, lon, lat, level - 1));
      r.tilesToDraw == added.0 && r.keys == added.1 && r.probes == [Probe(TileAt(proj, lon, lat, level - 1), true)]
  {
  }

  lemma AvailableAlike(a: R.Retriever, b: R.Retriever, t: OsmTileType, tile: TileId)
    requires R.SameCaches(a, b)
    ensures Available(a, t, tile) == Available(b, t, tile)
  {
    assert R.Cached(a, CacheFileName(t, tile)) == R.Cached(b, CacheFileName(t, tile));
  }

  /** The tile under the top-left corner of a cell's tile at another level. */
  function CornerTile(proj: Projection, c: Cell, zoom: int, level: int): TileId {
    TileAt(proj, proj.tileX2Lon(c.x, zoom), proj.tileY2Lat(c.y, zoom), level)
  }

  /** The cell's own tile at a level. */
  function CellTile(c: Cell, zoom: int): TileId {
    TileId(c.x, c.y, zoom)
  }

  /** The body of the nested tile loop for one cell: skip a tile already
      chosen; otherwise ask for it with fetching allowed, and if it is not
      there yet fall back on a coarser one. */
  function TileStep(st: R.Retriever, t: OsmTileType, urls: UrlOf, urlEncode: string -> string,
                    proj: Projection, zoom: int, c: Cell, tiles: seq<TileId>, keys: set<string>): (r: Scan)
    requires GridUrls(urls)
    ensures R.SameCaches(r.state, st)
    ensures R.Valid(st) ==> R.Valid(r.state)
  {
    var tile := CellTile(c, zoom);
    if Key(tile) in keys then Scan(tiles, keys, st, [])
    else
      var l := GetTileImage(st, t, urls, urlEncode, tile, false);
      if l.image.Some? then
        Scan(tiles + [tile], keys + {Key(tile)}, l.state, [Probe(tile, false)])
      else
        var lon := proj.tileX2Lon(c.x, zoom);
        var lat := proj.tileY2Lat(c.y, zoom);
        var f := Fallback(l.state, t, urls, urlEncode, proj, lon, lat, if zoom > 0 then zoom else 0, tiles, keys);
        Scan(f.tilesToDraw, f.keys, f.state, [Probe(tile, false)] + f.probes)
  }

  /** One cell keeps the invariant and adds at most one tile: its own, when
      cached, or a cached tile of a lower level. */
  lemma TileStepAdds(st: R.Retriever, t: OsmTileType, urls: UrlOf, urlEncode: string -> string,
                     proj: Projection, zoom: int, c: Cell, tiles: seq<TileId>, keys: set<string>)
    requires GridUrls(urls) && Consistent(tiles, keys)
    ensures var r := TileStep(st, t, urls, urlEncode, proj, zoom, c, tiles, keys);
      && Consistent(r.tilesToDraw, r.keys)
      && (r.tilesToDraw == tiles
          || (|r.tilesToDraw| == |tiles| + 1 && r.tilesToDraw[..|tiles|] == tiles
              && Available(st, t, r.tilesToDraw[|tiles|])
              && (r.tilesToDraw[|tiles|] == CellTile(c, zoom) || r.tilesToDraw[|tiles|].zoom < zoom)))
    ensures Available(st, t, CellTile(c, zoom)) && CellTile(c, zoom) !in tiles ==>
      TileStep(st, t, urls, urlEncode, proj, zoom, c, tiles, keys).tilesToDraw == tiles + [CellTile(c, zoom)]
  {
    var tile := CellTile(c, zoom);
    ConsistentKeyMeansChosen(tiles, keys, tile);
    if Key(tile) !in keys {
      var l := GetTileImage(st, t, urls, urlEncode, tile, false);
      if l.image.Some? {
        ConsistentAdd(tiles, keys, tile);
        assert (tiles + [tile])[..|tiles|] == tiles;
      } else {
        var lon := proj.tileX2Lon(c.x, zoom);
        var lat := proj.tileY2Lat(c.y, zoom);
        var level := if zoom > 0 then zoom else 0;
        FallbackAdds(l.state, t, urls, urlEncode, proj, lon, lat, level, tiles, keys);
        var f := Fallback(l.state, t, urls, urlEncode, proj, lon, lat, level, tiles, keys);
        if |f.tilesToDraw| == |tiles| {
          assert f.tilesToDraw == f.tilesToDraw[..|tiles|];
        } else {
          AvailableAlike(l.state, st, t, f.tilesToDraw[|tiles|]);
        }
      }
    }
  }

  /** The lookups of one cell whose tile is not chosen yet: the tile itself
      with fetching allowed, then the same corner one level coarser at a
      time, in the caches only. */
  lemma TileStepProbes(st: R.Retriever, t: OsmTileType, urls: UrlOf, urlEncode: string -> string,
                       proj: Projection, zoom: nat, c: Cell, tiles: seq<TileId>, keys: set<string>)
    requires GridUrls(urls) && Key(CellTile(c, zoom)) !in keys
    ensures var r := TileStep(st, t, urls, urlEncode, proj, zoom, c, tiles, keys);
      && 1 <= |r.probes| <= zoom + 1
      && r.probes[0] == Probe(CellTile(c, zoom), false)
      && forall i :: 1 <= i < |r.probes| ==>
           r.probes[i] == Probe(CornerTile(proj, c, zoom, zoom - i), true)
  {
    var l := GetTileImage(st, t, urls, urlEncode, CellTile(c, zoom), false);
    if l.image.None? {
      var lon, lat := proj.tileX2Lon(c.x, zoom), proj.tileY2Lat(c.y, zoom);
      FallbackProbesCoarser(l.state, t, urls, urlEncode, proj, lon, lat, zoom, tiles, keys);
      var f := Fallback(l.state, t, urls, urlEncode, proj, lon, lat, zoom, tiles, keys);
      CoarserProbesAt(proj, lon, lat, zoom, |f.probes|);
      forall i | 1 <= i < 1 + |f.probes|
        ensures ([Probe(CellTile(c, zoom), false)] + f.probes)[i] == Probe(CornerTile(proj, c, zoom, zoom - i), true)
      {
        assert ([Probe(CellTile(c, zoom), false)] + f.probes)[i] == f.probes[i - 1];
      }
    }
  }

  /** The nested tile loop over the cells, in order. */
  function ScanCells(st: R.Retriever, t: OsmTileType, urls: UrlOf, urlEncode: string -> string,
                     proj: Projection, zoom: int, cells: seq<Cell>, tiles: seq<TileId>, keys: set<string>): (r: Scan)
    requires GridUrls(urls)
    ensures R.SameCaches(r.state, st)
    ensures R.Valid(st) ==> R.Valid(r.state)
    decreases |cells|
  {
    if |cells| == 0 then Scan(tiles, keys, st, [])
    else
      var one := TileStep(st, t, urls, urlEncode, proj, zoom, cells[0], tiles, keys);
      var rest := ScanCells(one.state, t, urls, urlEncode, proj, zoom, cells[1..], one.tilesToDraw, one.keys);
      Scan(rest.tilesToDraw, rest.keys, rest.state, one.probes + rest.probes)
  }

  /** `next` extends `tiles` with tiles cached in `st` and no finer than `zoom`. */
  predicate Extends(st: R.Retriever, t: OsmTileType, zoom: int, tiles: seq<TileId>, next: seq<TileId>) {
    && |next| >= |tiles| && next[..|tiles|] == tiles
    && forall i :: |tiles| <= i < |next| ==> Available(st, t, next[i]) && next[i].zoom <= zoom
  }

  lemma ExtendsChain(st: R.Retriever, st': R.Retriever, t: OsmTileType, zoom: int,
                     a: seq<TileId>, b: seq<TileId>, c: seq<TileId>)
    requires R.SameCaches(st', st) && Extends(st, t, zoom, a, b) && Extends(st', t, zoom, b, c)
    ensures Extends(st, t, zoom, a, c)
  {
    assert c[..|a|] == b[..|a|];
    forall i | |a| <= i < |c|
      ensures Available(st, t, c[i]) && c[i].zoom <= zoom
    {
      if i < |b| {
        assert c[i] == b[i];
      } else {
        assert R.Cached(st', CacheFileName(t, c[i]));
      }
    }
  }

  /** The loop invariant holds of `next` and `nextKeys`, and `next`
      extends `tiles` with cached tiles no finer than `zoom`. */
  predicate Grows(st: R.Retriever, t: OsmTileType, zoom: int, tiles: seq<TileId>, next: seq<TileId>, nextKeys: set<string>) {
    Consistent(next, nextKeys) && Extends(st, t, zoom, tiles, next)
  }

  lemma GrowsChain(st: R.Retriever, st': R.Retriever, t: OsmTileType, zoom: int,
                   a: seq<TileId>, b: seq<TileId>, bk: set<string>, c: seq<TileId>, ck: set<string>)
    requires R.SameCaches(st', st) && Grows(st, t, zoom, a, b, bk) && Grows(st', t, zoom, b, c, ck)
    ensures Grows(st, t, zoom, a, c, ck)
  {
    ExtendsChain(st, st', t, zoom, a, b, c);
  }

  /** The same growth seen from a retriever with the same caches, with a
      looser bound on the level. */
  lemma GrowsCoarser(st: R.Retriever, st': R.Retriever, t: OsmTileType, zoom: int, zoom': int,
                     a: seq<TileId>, b: seq<TileId>, bk: set<string>)
    requires R.SameCaches(st', st) && zoom <= zoom' && Grows(st', t, zoom, a, b, bk)
    ensures Grows(st, t, zoom', a, b, bk)
  {
    forall i | |a| <= i < |b|
      ensures Available(st, t, b[i])
    {
      AvailableAlike(st', st, t, b[i]);
    }
  }

  lemma TileStepGrows(st: R.Retriever, t: OsmTileType, urls: UrlOf, urlEncode: string -> string,
                      proj: Projection, zoom: int, c: Cell, tiles: seq<TileId>, keys: set<string>)
    requires GridUrls(urls) && Consistent(tiles, keys)
    ensures var one := TileStep(st, t, urls, urlEncode, proj, zoom, c, tiles, keys);
      Grows(st, t, zoom, tiles, one.tilesToDraw, one.keys)
  {
    TileStepAdds(st, t, urls, urlEncode, proj, zoom, c, tiles, keys);
  }

  /** The `keys` set keeps the list free of repeats whatever the view, and
      everything added was cached when the loop started. */
  lemma {:induction false} ScanAdds(st: R.Retriever, t: OsmTileType, urls: UrlOf, urlEncode: string -> string,
                                    proj: Projection, zoom: int, cells: seq<Cell>, tiles: seq<TileId>, keys: set<string>)
    requires GridUrls(urls) && Consistent(tiles, keys)
    ensures var r := ScanCells(st, t, urls, urlEncode, proj, zoom, cells, tiles, keys);
      Grows(st, t, zoom, tiles, r.tilesToDraw, r.keys)
    decreases |cells|
  {
    if |cells| == 0 {
      assert tiles[..|tiles|] == tiles;
    } else {
      var one := TileStep(st, t, urls, urlEncode, proj, zoom, cells[0], tiles, keys);
      TileStepGrows(st, t, urls, urlEncode, proj, zoom, cells[0], tiles, keys);
      ScanAdds(one.state, t, urls, urlEncode, proj, zoom, cells[1..], one.tilesToDraw, one.keys);
      var r := ScanCells(one.state, t, urls, urlEncode, proj, zoom, cells[1..], one.tilesToDraw, one.keys);
      GrowsChain(st, one.state, t, zoom, tiles, one.tilesToDraw, one.keys, r.tilesToDraw, r.keys);
    }
  }

  /** The cell's tile is kept, or added when it was cached. */
  lemma TileStepKeepsOrAddsOwn(st: R.Retriever, t: OsmTileType, urls: UrlOf, urlEncode: string -> string,
                               proj: Projection, zoom: int, c: Cell, tiles: seq<TileId>, keys: set<string>, tile: TileId)
    requires GridUrls(urls) && Consistent(tiles, keys)
    requires tile in tiles || (tile == CellTile(c, zoom) && Available(st, t, tile))
    ensures tile in TileStep(st, t, urls, urlEncode, proj, zoom, c, tiles, keys).tilesToDraw
  {
    TileStepAdds(st, t, urls, urlEncode, proj, zoom, c, tiles, keys);
    var r := TileStep(st, t, urls, urlEncode, proj, zoom, c, tiles, keys);
    if tile in tiles {
      var i :| 0 <= i < |tiles| && tiles[i] == tile;
      assert r.tilesToDraw[i] == r.tilesToDraw[..|tiles|][i];
    }
  }

  /** The level `m` is the finest level below `level` at which the tile
      under a corner is cached. */
  predicate FinestCached(st: R.Retriever, t: OsmTileType, proj: Projection, lon: real, lat: real, level: int, m: nat) {
    && m < level
    && Available(st, t, TileAt(proj, lon, lat, m))
    && forall z :: m < z < level ==> !Available(st, t, TileAt(proj, lon, lat, z))
  }

  /** The fallback ends with the finest cached coarser tile in the list:
      added, or already there. */
  lemma {:induction false} FallbackFindsFinest(st: R.Retriever, t: OsmTileType, urls: UrlOf,
                                               urlEncode: string -> string, proj: Projection, lon: real, lat: real,
                                               level: nat, tiles: seq<TileId>, keys: set<string>, m: nat)
    requires GridUrls(urls) && Consistent(tiles, keys)
    requires FinestCached(st, t, proj, lon, lat, level, m)
    ensures TileAt(proj, lon, lat, m) in Fallback(st, t, urls, urlEncode, proj, lon, lat, level, tiles, keys).tilesToDraw
    decreases level
  {
    var tile := TileAt(proj, lon, lat, level - 1);
    var r := Fallback(st, t, urls, urlEncode, proj, lon, lat, level, tiles, keys);
    if level - 1 == m {
      FallbackTakes(st, t, urls, urlEncode, proj, lon, lat, level, tiles, keys);
      ConsistentKeyMeansChosen(tiles, keys, tile);
      if Key(tile) !in keys {
        assert r.tilesToDraw == tiles + [tile];
        assert r.tilesToDraw[|tiles|] == tile;
      }
    } else {
      assert !Available(st, t, tile);
      var l := GetTileImage(st, t, urls, urlEncode, tile, true);
      FallbackSkips(st, t, urls, urlEncode, proj, lon, lat, level, tiles, keys);
      var rest := Fallback(l.state, t, urls, urlEncode, proj, lon, lat, level - 1, tiles, keys);
      assert FinestCached(st, t, proj, lon, lat, level - 1, m);
      FinestCachedAlike(l.state, st, t, proj, lon, lat, level - 1, m);
      FallbackFindsFinest(l.state, t, urls, urlEncode, proj, lon, lat, level - 1, tiles, keys, m);
      assert r.tilesToDraw == rest.tilesToDraw;
    }
  }


  /** A cell whose own tile is missing ends up represented by the finest
      cached tile under its corner, unless its own tile was already chosen. */
  lemma TileStepMiss(st: R.Retriever, t: OsmTileType, urls: UrlOf, urlEncode: string -> string,
                     proj: Projection, zoom: int, c: Cell, tiles: seq<TileId>, keys: set<string>, m: nat)
    requires GridUrls(urls) && Consistent(tiles, keys)
    requires !Available(st, t, CellTile(c, zoom)) && CellTile(c, zoom) !in tiles
    requires FinestCached(st, t, proj, proj.tileX2Lon(c.x, zoom), proj.tileY2Lat(c.y, zoom), zoom, m)
    ensures CornerTile(proj, c, zoom, m) in TileStep(st, t, urls, urlEncode, proj, zoom, c, tiles, keys).tilesToDraw
  {
    var tile := CellTile(c, zoom);
    var lon, lat := proj.tileX2Lon(c.x, zoom), proj.tileY2Lat(c.y, zoom);
    ConsistentKeyMeansChosen(tiles, keys, tile);
    var l := GetTileImage(st, t, urls, urlEncode, tile, false);
    FinestCachedAlike(l.state, st, t, proj, lon, lat, zoom, m);
    FallbackFindsFinest(l.state, t, urls, urlEncode, proj, lon, lat, zoom, tiles, keys, m);
  }

  /** Whatever the scan adds comes after the list it started with. */
  lemma ScanKeeps(st: R.Retriever, t: OsmTileType, urls: UrlOf, urlEncode: string -> string,
                  proj: Projection, zoom: int, cells: seq<Cell>, tiles: seq<TileId>, keys: set<string>, tile: TileId)
    requires GridUrls(urls) && Consistent(tiles, keys) && tile in tiles
    ensures tile in ScanCells(st, t, urls, urlEncode, proj, zoom, cells, tiles, keys).tilesToDraw
  {
    ScanAdds(st, t, urls, urlEncode, proj, zoom, cells, tiles, keys);
    var r := ScanCells(st, t, urls, urlEncode, proj, zoom, cells, tiles, keys);
    var i :| 0 <= i < |tiles| && tiles[i] == tile;
    assert r.tilesToDraw[i] == r.tilesToDraw[..|tiles|][i];
  }

  /** What the tile loop promises a cell: its own tile is chosen when it is
      cached, and otherwise its own tile chosen earlier or the finest cached
      tile `m` under its corner is. */
  predicate Covers(st: R.Retriever, t: OsmTileType, proj: Projection, zoom: int, c: Cell, m: nat, tiles: seq<TileId>) {
    && (Available(st, t, CellTile(c, zoom)) ==> CellTile(c, zoom) in tiles)
    && (!Available(st, t, CellTile(c, zoom))
        && FinestCached(st, t, proj, proj.tileX2Lon(c.x, zoom), proj.tileY2Lat(c.y, zoom), zoom, m) ==>
          CellTile(c, zoom) in tiles || CornerTile(proj, c, zoom, m) in tiles)
  }

  lemma FinestCachedAlike(a: R.Retriever, b: R.Retriever, t: OsmTileType, proj: Projection,
                          lon: real, lat: real, level: int, m: nat)
    requires R.SameCaches(a, b)
    ensures FinestCached(a, t, proj, lon, lat, level, m) == FinestCached(b, t, proj, lon, lat, level, m)
  {
    AvailableAlike(a, b, t, TileAt(proj, lon, lat, m));
    forall z | m < z < level
      ensures Available(a, t, TileAt(proj, lon, lat, z)) == Available(b, t, TileAt(proj, lon, lat, z))
    {
      AvailableAlike(a, b, t, TileAt(proj, lon, lat, z));
    }
  }

  lemma CoversAlike(a: R.Retriever, b: R.Retriever, t: OsmTileType, proj: Projection, zoom: int, c: Cell, m: nat, tiles: seq<TileId>)
    requires R.SameCaches(a, b)
    ensures Covers(a, t, proj, zoom, c, m, tiles) == Covers(b, t, proj, zoom, c, m, tiles)
  {
    AvailableAlike(a, b, t, CellTile(c, zoom));
    FinestCachedAlike(a, b, t, proj, proj.tileX2Lon(c.x, zoom), proj.tileY2Lat(c.y, zoom), zoom, m);
  }

  /** Every cell ends up represented: by its own tile when that is cached,
      otherwise by its own tile chosen earlier or by the finest cached tile
      under its corner. */
  lemma {:induction false} ScanCoversCell(st: R.Retriever, t: OsmTileType, urls: UrlOf, urlEncode: string -> string,
                                          proj: Projection, zoom: int, cells: seq<Cell>, tiles: seq<TileId>, keys: set<string>,
                                          i: nat, m: nat)
    requires GridUrls(urls) && Consistent(tiles, keys) && i < |cells|
    ensures Covers(st, t, proj, zoom, cells[i], m, ScanCells(st, t, urls, urlEncode, proj, zoom, cells, tiles, keys).tilesToDraw)
    decreases i
  {
    var one := TileStep(st, t, urls, urlEncode, proj, zoom, cells[0], tiles, keys);
    var rest := ScanCells(one.state, t, urls, urlEncode, proj, zoom, cells[1..], one.tilesToDraw, one.keys);
    assert ScanCells(st, t, urls, urlEncode, proj, zoom, cells, tiles, keys).tilesToDraw == rest.tilesToDraw;
    if i == 0 {
      TileStepCovers(st, t, urls, urlEncode, proj, zoom, cells, tiles, keys, m);
    } else {
      TileStepAdds(st, t, urls, urlEncode, proj, zoom, cells[0], tiles, keys);
      ScanCoversCell(one.state, t, urls, urlEncode, proj, zoom, cells[1..], one.tilesToDraw, one.keys, i - 1, m);
      assert cells[1..][i - 1] == cells[i];
      CoversAlike(one.state, st, t, proj, zoom, cells[i], m, rest.tilesToDraw);
    }
  }

  /** The first cell is covered by its own step, and later steps keep it. */
  lemma TileStepCovers(st: R.Retriever, t: OsmTileType, urls: UrlOf, urlEncode: string -> string,
                       proj: Projection, zoom: int, cells: seq<Cell>, tiles: seq<TileId>, keys: set<string>, m: nat)
    requires GridUrls(urls) && Consistent(tiles, keys) && |cells| > 0
    ensures var one := TileStep(st, t, urls, urlEncode, proj, zoom, cells[0], tiles, keys);
      Covers(st, t, proj, zoom, cells[0], m,
             ScanCells(one.state, t, urls, urlEncode, proj, zoom, cells[1..], one.tilesToDraw, one.keys).tilesToDraw)
  {
    var c := cells[0];
    var one := TileStep(st, t, urls, urlEncode, proj, zoom, c, tiles, keys);
    TileStepAdds(st, t, urls, urlEncode, proj, zoom, c, tiles, keys);
    var lon, lat := proj.tileX2Lon(c.x, zoom), proj.tileY2Lat(c.y, zoom);
    var tile := CellTile(c, zoom);
    if tile in tiles || Available(st, t, tile) {
      TileStepKeepsOrAddsOwn(st, t, urls, urlEncode, proj, zoom, c, tiles, keys, tile);
      ScanKeeps(one.state, t, urls, urlEncode, proj, zoom, cells[1..], one.tilesToDraw, one.keys, tile);
    } else if FinestCached(st, t, proj, lon, lat, zoom, m) {
      TileStepMiss(st, t, urls, urlEncode, proj, zoom, c, tiles, keys, m);
      ScanKeeps(one.state, t, urls, urlEncode, proj, zoom, cells[1..], one.tilesToDraw, one.keys,
                CornerTile(proj, c, zoom, m));
    }
  }

  /** The tile of each cell, in visiting order. */
  function CellTiles(cells: seq<Cell>, zoom: int): (r: seq<TileId>)
    ensures |r| == |cells|
    ensures forall i :: 0 <= i < |cells| ==> r[i] == CellTile(cells[i], zoom)
  {
    seq(|cells|, i requires 0 <= i < |cells| => CellTile(cells[i], zoom))
  }

  /** No listed tile is the own tile of any of the cells. */
  predicate Apart(tiles: seq<TileId>, cells: seq<Cell>, zoom: int) {
    forall i, j :: 0 <= i < |tiles| && 0 <= j < |cells| ==> tiles[i] != CellTile(cells[j], zoom)
  }

  /** What one cell may add keeps the list apart from the remaining cells. */
  lemma StepKeepsApart(tiles: seq<TileId>, next: seq<TileId>, cells: seq<Cell>, zoom: int)
    requires |cells| > 0 && Distinct(cells) && Apart(tiles, cells, zoom)
    requires |tiles| <= |next| <= |tiles| + 1 && next[..|tiles|] == tiles
    requires |next| == |tiles| + 1 ==> next[|tiles|] == CellTile(cells[0], zoom) || next[|tiles|].zoom < zoom
    ensures Distinct(cells[1..]) && Apart(next, cells[1..], zoom)
  {
    forall i, j | 0 <= i < |next| && 0 <= j < |cells[1..]|
      ensures next[i] != CellTile(cells[1..][j], zoom)
    {
      assert cells[1..][j] == cells[j + 1];
      if i < |tiles| {
        assert next[i] == tiles[i];
      }
    }
    forall i, j | 0 <= i < j < |cells[1..]|
      ensures cells[1..][i] != cells[1..][j]
    {
      assert cells[1..][i] == cells[i + 1] && cells[1..][j] == cells[j + 1];
    }
  }

  /** A cell whose tile is not chosen yet asks for that tile, and only that
      one, with fetching allowed. */
  lemma TileStepRequestsOwn(st: R.Retriever, t: OsmTileType, urls: UrlOf, urlEncode: string -> string,
                            proj: Projection, zoom: nat, c: Cell, tiles: seq<TileId>, keys: set<string>)
    requires GridUrls(urls) && Consistent(tiles, keys) && CellTile(c, zoom) !in tiles
    ensures Requested(TileStep(st, t, urls, urlEncode, proj, zoom, c, tiles, keys).probes) == [CellTile(c, zoom)]
  {
    ConsistentKeyMeansChosen(tiles, keys, CellTile(c, zoom));
    TileStepProbes(st, t, urls, urlEncode, proj, zoom, c, tiles, keys);
    RequestedHeadOnly(TileStep(st, t, urls, urlEncode, proj, zoom, c, tiles, keys).probes);
  }

  /** One step keeps the invariants the request lemma needs. */
  lemma TileStepKeepsApart(st: R.Retriever, t: OsmTileType, urls: UrlOf, urlEncode: string -> string,
                           proj: Projection, zoom: nat, cells: seq<Cell>, tiles: seq<TileId>, keys: set<string>)
    requires GridUrls(urls) && Consistent(tiles, keys)
    requires |cells| > 0 && Distinct(cells) && Apart(tiles, cells, zoom)
    ensures var one := TileStep(st, t, urls, urlEncode, proj, zoom, cells[0], tiles, keys);
      && Consistent(one.tilesToDraw, one.keys)
      && Distinct(cells[1..]) && Apart(one.tilesToDraw, cells[1..], zoom)
  {
    TileStepAdds(st, t, urls, urlEncode, proj, zoom, cells[0], tiles, keys);
    var one := TileStep(st, t, urls, urlEncode, proj, zoom, cells[0], tiles, keys);
    StepKeepsApart(tiles, one.tilesToDraw, cells, zoom);
  }

  /** The first cell's request comes first, then those of the rest. */
  lemma ScanStepRequests(st: R.Retriever, t: OsmTileType, urls: UrlOf, urlEncode: string -> string,
                         proj: Projection, zoom: nat, cells: seq<Cell>, tiles: seq<TileId>, keys: set<string>)
    requires GridUrls(urls) && Consistent(tiles, keys) && |cells| > 0 && CellTile(cells[0], zoom) !in tiles
    ensures var one := TileStep(st, t, urls, urlEncode, proj, zoom, cells[0], tiles, keys);
      Requested(ScanCells(st, t, urls, urlEncode, proj, zoom, cells, tiles, keys).probes)
        == [CellTile(cells[0], zoom)]
           + Requested(ScanCells(one.state, t, urls, urlEncode, proj, zoom, cells[1..], one.tilesToDraw, one.keys).probes)
  {
    var one := TileStep(st, t, urls, urlEncode, proj, zoom, cells[0], tiles, keys);
    var rest := ScanCells(one.state, t, urls, urlEncode, proj, zoom, cells[1..], one.tilesToDraw, one.keys);
    TileStepRequestsOwn(st, t, urls, urlEncode, proj, zoom, cells[0], tiles, keys);
    RequestedAppend(one.probes, rest.probes);
  }

  /** The tiles asked for with fetching allowed are exactly the cells' own
      tiles, in visiting order: no cell's tile is chosen before its turn. */
  lemma {:induction false} ScanRequestsEveryCell(st: R.Retriever, t: OsmTileType, urls: UrlOf,
                                                 urlEncode: string -> string, proj: Projection, zoom: nat,
                                                 cells: seq<Cell>, tiles: seq<TileId>, keys: set<string>)
    requires GridUrls(urls) && Consistent(tiles, keys)
    requires Distinct(cells) && Apart(tiles, cells, zoom)
    ensures Requested(ScanCells(st, t, urls, urlEncode, proj, zoom, cells, tiles, keys).probes) == CellTiles(cells, zoom)
    decreases |cells|
  {
    if |cells| > 0 {
      var c := cells[0];
      assert CellTile(c, zoom) !in tiles by {
        forall i | 0 <= i < |tiles|
          ensures tiles[i] != CellTile(cells[0], zoom)
        {
        }
      }
      ScanStepRequests(st, t, urls, urlEncode, proj, zoom, cells, tiles, keys);
      TileStepKeepsApart(st, t, urls, urlEncode, proj, zoom, cells, tiles, keys);
      var one := TileStep(st, t, urls, urlEncode, proj, zoom, c, tiles, keys);
      ScanRequestsEveryCell(one.state, t, urls, urlEncode, proj, zoom, cells[1..], one.tilesToDraw, one.keys);
      CellTilesCons(cells, zoom);
    }
  }

  lemma CellTilesCons(cells: seq<Cell>, zoom: int)
    requires |cells| > 0
    ensures CellTiles(cells, zoom) == [CellTile(cells[0], zoom)] + CellTiles(cells[1..], zoom)
  {
  }

  /** The exact-arithmetic reading of the four conversions: the corner of
      tile `x` at level `z`, converted back at a level `l <= z`, lies in
      tile `x / 2^(z - l)`. Floating point only approximates this. */
  ghost predicate ExactProjection(proj: Projection) {
    && (forall x, z, l :: 0 <= l <= z ==> proj.lon2TileX(proj.tileX2Lon(x, z), l) == x / Pow2(z - l))
    && (forall y, z, l :: 0 <= l <= z ==> proj.lat2TileY(proj.tileY2Lat(y, z), l) == y / Pow2(z - l))
  }

  /** Under exact arithmetic the fallback walks up the tile's ancestors:
      the `i`-th lookup is the tile `i` levels coarser that contains it. */
  lemma TileStepProbesAncestors(st: R.Retriever, t: OsmTileType, urls: UrlOf, urlEncode: string -> string,
                                proj: Projection, zoom: nat, c: Cell, tiles: seq<TileId>, keys: set<string>)
    requires GridUrls(urls) && Key(CellTile(c, zoom)) !in keys && ExactProjection(proj)
    ensures var r := TileStep(st, t, urls, urlEncode, proj, zoom, c, tiles, keys);
      forall i :: 0 <= i < |r.probes| ==> r.probes[i].key == TileId(c.x / Pow2(i), c.y / Pow2(i), zoom - i)
  {
    TileStepProbes(st, t, urls, urlEncode, proj, zoom, c, tiles, keys);
    ProbesAreAncestors(TileStep(st, t, urls, urlEncode, proj, zoom, c, tiles, keys).probes, proj, c, zoom);
  }

  lemma ProbesAreAncestors(probes: seq<Probe<TileId>>, proj: Projection, c: Cell, zoom: nat)
    requires ExactProjection(proj) && 1 <= |probes| <= zoom + 1
    requires probes[0].key == CellTile(c, zoom)
    requires forall i :: 1 <= i < |probes| ==> probes[i].key == CornerTile(proj, c, zoom, zoom - i)
    ensures forall i :: 0 <= i < |probes| ==> probes[i].key == TileId(c.x / Pow2(i), c.y / Pow2(i), zoom - i)
  {
    forall i | 0 <= i < |probes|
      ensures probes[i].key == TileId(c.x / Pow2(i), c.y / Pow2(i), zoom - i)
    {
      if i > 0 {
        ExactCorner(proj, c, zoom, i);
      }
    }
  }

  /** The corner of a cell's tile, `i` levels coarser, under exact arithmetic. */
  lemma ExactCorner(proj: Projection, c: Cell, zoom: nat, i: nat)
    requires ExactProjection(proj) && i <= zoom
    ensures CornerTile(proj, c, zoom, zoom - i) == TileId(c.x / Pow2(i), c.y / Pow2(i), zoom - i)
  {
    var l := zoom - i;
    assert zoom - l == i;
    assert proj.lon2TileX(proj.tileX2Lon(c.x, zoom), l) == c.x / Pow2(zoom - l);
    assert proj.lat2TileY(proj.tileY2Lat(c.y, zoom), l) == c.y / Pow2(zoom - l);
  }

  /** The ancestor an OpenStreetMap fallback looks up is the tile whose Bing
      quadkey is the corresponding prefix of the cell's quadkey: both
      providers fall back along the same chain of tiles. */
  lemma AncestorIsQuadKeyPrefix(c: Cell, zoom: nat, i: nat)
    requires i <= zoom
    ensures BTS.TileXYToQuadKey(c.x / Pow2(i), c.y / Pow2(i), zoom - i) == BTS.TileXYToQuadKey(c.x, c.y, zoom)[..zoom - i]
  {
    BTS.QuadKeyPrefixIsAncestor(c.x, c.y, zoom, zoom - i);
    assert zoom - (zoom - i) == i;
  }

  /** `TileInfo.compareTo` as written: it never answers 0, so of two tiles
      at the same level each claims to come first. */
  function CompareToAsWritten(a: TileId, b: TileId): (r: int)
    ensures r == 1 || r == -1
    ensures r == 1 <==> b.zoom < a.zoom
  {
    if b.zoom < a.zoom then 1 else -1
  }

  /** Same-level tiles break the `Comparable` contract, which demands
      `sgn(a.compareTo(b)) == -sgn(b.compareTo(a))` and `a.compareTo(a) == 0`. */
  lemma CompareToAsWrittenIsNotAntisymmetric(a: TileId, b: TileId)
    requires a.zoom == b.zoom
    ensures CompareToAsWritten(a, b) == CompareToAsWritten(b, a) == -1
    ensures CompareToAsWritten(a, a) != 0
  {
  }

  /** The evidently intended comparison: coarser levels first, equal levels
      equal. */
  function CompareTo(a: TileId, b: TileId): (r: int)
    ensures r < 0 <==> a.zoom < b.zoom
    ensures r == 0 <==> a.zoom == b.zoom
    ensures r > 0 <==> a.zoom > b.zoom
  {
    if b.zoom < a.zoom then 1 else if a.zoom < b.zoom then -1 else 0
  }

  /** The corrected comparison obeys the `Comparable` contract, and agrees
      with the original whenever the levels differ. */
  lemma CompareToIsComparator(a: TileId, b: TileId, c: TileId)
    ensures CompareTo(a, b) == -CompareTo(b, a)
    ensures CompareTo(a, b) <= 0 && CompareTo(b, c) <= 0 ==> CompareTo(a, c) <= 0
    ensures CompareTo(a, b) == 0 ==> CompareTo(a, c) == CompareTo(b, c)
    ensures a.zoom != b.zoom ==> CompareToAsWritten(a, b) == CompareTo(a, b)
  {
  }

  function Level(tile: TileId): int {
    tile.zoom
  }

  /** `Collections.sort(tilesToDraw)`: coarsest level first. The order of
      tiles of the same level is not stated. */
  function SortByZoom(tiles: seq<TileId>): (r: seq<TileId>)
    ensures forall i, j :: 0 <= i < j < |r| ==> CompareTo(r[i], r[j]) <= 0
    ensures multiset(r) == multiset(tiles)
  {
    StableSort.SortBy(tiles, Level)
  }

  /** The level chosen in `drawMap`: the finest level, at most 20, at which
      the view's zoom-20 tile columns, halved once per level, fit across the
      screen. The integer division throws on a zero tile width. */
  function Zoom(proj: Projection, bounds: Bounds, screenWidth: int, tilePixelWidth: int): (z: int)
    requires tilePixelWidth != 0
    ensures 1 <= z <= MaxZoom
  {
    var firstX := proj.lon2TileX(bounds.minX, MaxZoom);
    var lastX := proj.lon2TileX(bounds.maxX, MaxZoom);
    ChooseZoom(ToInt(lastX - firstX), Div(screenWidth, tilePixelWidth))
  }

  function Max(a: real, b: real): real {
    if a >= b then a else b
  }

  function Min(a: real, b: real): real {
    if a <= b then a else b
  }

  /** The view with its western edge raised to -180, its eastern edge
      lowered to 180, its northern edge lowered to 85 and its southern edge
      raised to -85; an edge already inside those limits is kept. */
  function Clamp(bounds: Bounds): (c: Bounds)
    ensures c.minX >= -180.0 && c.maxX <= 180.0 && c.maxY <= 85.0 && c.minY >= -85.0
    ensures bounds.minX >= -180.0 ==> c.minX == bounds.minX
    ensures bounds.maxX <= 180.0 ==> c.maxX == bounds.maxX
    ensures bounds.maxY <= 85.0 ==> c.maxY == bounds.maxY
    ensures bounds.minY >= -85.0 ==> c.minY == bounds.minY
  {
    Bounds(Max(bounds.minX, -180.0), Max(bounds.minY, -85.0), Min(bounds.maxX, 180.0), Min(bounds.maxY, 85.0))
  }

  /** The tiles of the clamped view at a level; the northern edge gives
      the first row. Each clamped edge is cast to `float` first, which the
      level choice in `Zoom` does not do, so the rounded edge can fall in
      the next tile. */
  function ViewRange(proj: Projection, bounds: Bounds, zoom: int): TileRange {
    var c := Clamp(bounds);
    TileRange(proj.lon2TileX(proj.toFloat(c.minX), zoom), proj.lon2TileX(proj.toFloat(c.maxX), zoom),
              proj.lat2TileY(proj.toFloat(c.maxY), zoom), proj.lat2TileY(proj.toFloat(c.minY), zoom))
  }

  /** Clamping twice is clamping once, so only the part of the view within
      the limits decides which tiles are visited. */
  lemma ViewRangeIgnoresBeyondLimits(proj: Projection, bounds: Bounds, zoom: int)
    ensures Clamp(Clamp(bounds)) == Clamp(bounds)
    ensures ViewRange(proj, Clamp(bounds), zoom) == ViewRange(proj, bounds, zoom)
  {
  }

  /** What one call of `drawMap` decides: the level, the tiles in drawing
      order, the lookups made while choosing, and the retriever state
      afterwards. */
  datatype Frame = Frame(zoom: int, tilesToDraw: seq<TileId>, probes: seq<Probe<TileId>>, state: R.Retriever)

  /** `drawMap` without the painting: the chosen tiles carry their images,
      so drawing makes no further lookups. */
  function DrawMap(st: R.Retriever, t: OsmTileType, urls: UrlOf, urlEncode: string -> string,
                   proj: Projection, bounds: Bounds, screenWidth: int, tilePixelWidth: int): (f: Frame)
    requires GridUrls(urls) && tilePixelWidth != 0
    ensures 1 <= f.zoom <= MaxZoom
    ensures forall i, j :: 0 <= i < j < |f.tilesToDraw| ==> f.tilesToDraw[i].zoom <= f.tilesToDraw[j].zoom
    ensures R.SameCaches(f.state, st)
    ensures R.Valid(st) ==> R.Valid(f.state)
  {
    var zoom := Zoom(proj, bounds, screenWidth, tilePixelWidth);
    var scan := ScanCells(st, t, urls, urlEncode, proj, zoom, Cells(ViewRange(proj, bounds, zoom)), [], {});
    Frame(zoom, SortByZoom(scan.tilesToDraw), scan.probes, scan.state)
  }

  /** The empty start satisfies the loop invariant. */
  lemma ConsistentEmpty()
    ensures Consistent([], {})
  {
    assert KeySet([]) == {};
  }

  /** The `keys` set keeps the drawing list free of repeats whatever the
      projection returns. */
  lemma DrawMapDrawsNoTileTwice(st: R.Retriever, t: OsmTileType, urls: UrlOf, urlEncode: string -> string,
                                proj: Projection, bounds: Bounds, screenWidth: int, tilePixelWidth: int)
    requires GridUrls(urls) && tilePixelWidth != 0
    ensures Distinct(DrawMap(st, t, urls, urlEncode, proj, bounds, screenWidth, tilePixelWidth).tilesToDraw)
  {
    var zoom := Zoom(proj, bounds, screenWidth, tilePixelWidth);
    var cells := Cells(ViewRange(proj, bounds, zoom));
    ConsistentEmpty();
    ScanAdds(st, t, urls, urlEncode, proj, zoom, cells, [], {});
    var scan := ScanCells(st, t, urls, urlEncode, proj, zoom, cells, [], {});
    DistinctPermutation(scan.tilesToDraw, SortByZoom(scan.tilesToDraw));
  }

  /** Every tile drawn was cached when `drawMap` started, and none is finer
      than the chosen level. */
  lemma DrawMapDrawsOnlyCachedTiles(st: R.Retriever, t: OsmTileType, urls: UrlOf, urlEncode: string -> string,
                                    proj: Projection, bounds: Bounds, screenWidth: int, tilePixelWidth: int)
    requires GridUrls(urls) && tilePixelWidth != 0
    ensures var f := DrawMap(st, t, urls, urlEncode, proj, bounds, screenWidth, tilePixelWidth);
      forall tile :: tile in f.tilesToDraw ==> Available(st, t, tile) && tile.zoom <= f.zoom
  {
    var zoom := Zoom(proj, bounds, screenWidth, tilePixelWidth);
    var cells := Cells(ViewRange(proj, bounds, zoom));
    ConsistentEmpty();
    ScanAdds(st, t, urls, urlEncode, proj, zoom, cells, [], {});
    var scan := ScanCells(st, t, urls, urlEncode, proj, zoom, cells, [], {});
    forall tile | tile in SortByZoom(scan.tilesToDraw)
      ensures Available(st, t, tile) && tile.zoom <= zoom
    {
      assert tile in multiset(scan.tilesToDraw);
    }
  }

  /** The tiles asked for with fetching allowed are exactly those of the
      clamped view at the chosen level, column by column. */
  lemma DrawMapRequestsTheView(st: R.Retriever, t: OsmTileType, urls: UrlOf, urlEncode: string -> string,
                               proj: Projection, bounds: Bounds, screenWidth: int, tilePixelWidth: int)
    requires GridUrls(urls) && tilePixelWidth != 0
    ensures var f := DrawMap(st, t, urls, urlEncode, proj, bounds, screenWidth, tilePixelWidth);
      Requested(f.probes) == CellTiles(Cells(ViewRange(proj, bounds, f.zoom)), f.zoom)
  {
    var zoom := Zoom(proj, bounds, screenWidth, tilePixelWidth);
    ConsistentEmpty();
    ScanRequestsEveryCell(st, t, urls, urlEncode, proj, zoom, Cells(ViewRange(proj, bounds, zoom)), [], {});
  }

  /** Every tile of the view is covered: by itself when cached, otherwise
      by the finest cached tile under its corner. */
  lemma DrawMapCoversTheView(st: R.Retriever, t: OsmTileType, urls: UrlOf, urlEncode: string -> string,
                             proj: Projection, bounds: Bounds, screenWidth: int, tilePixelWidth: int, c: Cell, m: nat)
    requires GridUrls(urls) && tilePixelWidth != 0
    ensures var f := DrawMap(st, t, urls, urlEncode, proj, bounds, screenWidth, tilePixelWidth);
      InRange(ViewRange(proj, bounds, f.zoom), c) ==>
        && (Available(st, t, CellTile(c, f.zoom)) ==> CellTile(c, f.zoom) in f.tilesToDraw)
        && (!Available(st, t, CellTile(c, f.zoom))
            && FinestCached(st, t, proj, proj.tileX2Lon(c.x, f.zoom), proj.tileY2Lat(c.y, f.zoom), f.zoom, m) ==>
              CornerTile(proj, c, f.zoom, m) in f.tilesToDraw)
  {
    var zoom := Zoom(proj, bounds, screenWidth, tilePixelWidth);
    var cells := Cells(ViewRange(proj, bounds, zoom));
    if c in cells {
      var i :| 0 <= i < |cells| && cells[i] == c;
      ConsistentEmpty();
      ScanCoversCell(st, t, urls, urlEncode, proj, zoom, cells, [], {}, i, m);
      ScanAdds(st, t, urls, urlEncode, proj, zoom, cells, [], {});
      var scan := ScanCells(st, t, urls, urlEncode, proj, zoom, cells, [], {});
      var sorted := SortByZoom(scan.tilesToDraw);
      forall tile | tile in scan.tilesToDraw
        ensures tile in sorted
      {
        assert tile in multiset(scan.tilesToDraw);
      }
    }
  }
}
