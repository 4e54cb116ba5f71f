# Slippy map tile core in Dafny

This project models the tile-addressing and tile-acquisition core of the
giCentre slippy map library, a Processing library that draws Bing and
OpenStreetMap tiles:

- **BingTileSystem** (`bing_tile_system.dfy`) covers the integer half of the
  Bing Maps Tile System, section "Tile Coordinates and Quadkeys":
  - the map size per level;
  - pixel/tile conversion;
  - the bit-interleaving quadkey encoding and decoding, with its round trips;
  - the law that a quadkey prefix names an ancestor tile.
- **TileRetriever** (`tile_retriever.dfy`) is the tile retriever as a
  sequential state machine. Its state holds:
  - the most-recent-first request queue, capped at 30;
  - the in-memory cache and the on-disk cache, both as maps;
  - the listener set and the two settings.

  The operations are `getTileImage`, `retrieve`, `applyPassThroughURL`,
  listener registration, and one iteration of the background worker. Network
  fetches, disk reads and writes, and image decoding are oracle parameters.
- **Bing** (`bing.dfy`) and **OpenStreetMap** (`open_street_map.dfy`) model
  `drawMap` without the painting:
  - the zoom chosen by halving from level 20;
  - the rectangle of tiles visited column by column;
  - the request for each tile, with fetching allowed;
  - the cache-only search for a coarser tile when one is missing (quadkey
    prefixes for Bing, decreasing levels for OpenStreetMap);
  - de-duplication of the chosen tiles, then the coarsest-first sort.

  Both files also model the cache file names and the tile URLs, and show
  that names are injective: a cache name always determines its tile. For
  OpenStreetMap, fixed URL settings and an injective encoder make a URL
  determine its tile too. For Bing the same holds for templates of the shape
  `p0{subdomain}p1{quadkey}p2{culture}p3` with no other `{`, and for digit
  quadkeys; other templates, such as the default aerial one without
  `{culture}`, are not covered.
- **Shared modules**:
  - `tile_selection.dfy`: the zoom loop and the tile rectangle;
  - `stable_sort.dfy`: the stable sort behind `Collections.sort`;
  - `java_int.dfy`: Java `int` wrap-around and truncating division;
  - `strings.dfy`: `Integer.toString` and `String.replace`;
  - `wrappers.dfy`: `Option`.

The floating-point conversions between longitude/latitude and tiles or pixels
are parameters of the model:
- Bing's `lonLatToPixelXY` is a function `Projection`.
- OpenStreetMap's `lon2TileX`, `lat2TileY`, `tileX2Lon` and `tileY2Lat` form a
  record `Projection`.

`URLEncoder.encode` is an uninterpreted function `urlEncode`. A random double
is passed in wherever `Math.random()` is called.

Behaviours of the code that the model keeps:
- **Duplicate requests.** `retrieve` does not de-duplicate the queue.
  `urls.remove(url)` passes a `String` to a list of `TileInfo`, so it never
  matches.
- **Starting zoom.** The zoom search starts at level 20.
- **Cache names.** Cache file names carry unpadded decimal numbers. They are
  still collision-free, as `CacheFileNameInjective` shows.
- **CloudMade hosts.** `OpenStreetMap.TileUrl` builds the CloudMade host as
  written, `b.` and `c.` followed by `.tile`. The corrected host is
  defined and proved separately (see "## Findings").

## Model

| member | source | states |
|---|---|---|
| BingTileSystem.Clip | src/org/gicentre/utils/slippymap/BingTileSystem.java:39-41 | The result lies in [min, max] when min <= max, and a value already inside is returned unchanged. Below the range the result is min, above it max. When max < min the result is max, because `Math.min` is applied last. |
| BingTileSystem.MapSize | src/org/gicentre/utils/slippymap/BingTileSystem.java:53-55 | `256 << level` is always a Java `int`: the shift distance is taken modulo 32 and the product wraps. |
| BingTileSystem.MapSizeExact | src/org/gicentre/utils/slippymap/BingTileSystem.java:53-55 | For levels 0 to 22 the map is exactly 256 * 2^level pixels wide, and positive. |
| BingTileSystem.MapSizeOverflowsAt23 | src/org/gicentre/utils/slippymap/BingTileSystem.java:53-55 | At level 23, which the quadkey functions document as valid, the width wraps to `Integer.MIN_VALUE` and is negative. |
| BingTileSystem.MapSizeUnsigned | src/org/gicentre/utils/slippymap/BingTileSystem.java:53-55 | The unsigned width is 256 * 2^level, between 512 and 2^31, for every level from 1 to 23. |
| BingTileSystem.MapSizeUnsignedAgrees | src/org/gicentre/utils/slippymap/BingTileSystem.java:53-55 | The corrected width is positive at every documented level and equals the Java width wherever the shift does not overflow. |
| BingTileSystem.PixelXYToTileXY | src/org/gicentre/utils/slippymap/BingTileSystem.java:145-149 | For non-negative pixels the tile returned is the one whose 256-pixel span contains the pixel, and its coordinates are non-negative. |
| BingTileSystem.TileXYToPixelXY | src/org/gicentre/utils/slippymap/BingTileSystem.java:162-166 | The corner pixel is always a Java `int`, and it is exactly tile * 256 whenever that product fits. |
| BingTileSystem.TilePixelRoundTrip | src/org/gicentre/utils/slippymap/BingTileSystem.java:145-166 | A tile's upper-left pixel maps back to that tile, negative tiles included, for every tile whose pixel does not overflow. |
| BingTileSystem.TileXYToQuadKey | src/org/gicentre/utils/slippymap/BingTileSystem.java:179-197 | The key has one character per level (none for a level of 0 or less), and every character is a digit 0 to 3. |
| BingTileSystem.QuadKeyToTileXY | src/org/gicentre/utils/slippymap/BingTileSystem.java:208-238 | A key of length n decodes to a tile inside the 2^n by 2^n grid. |
| BingTileSystem.QuadKeyParent | src/org/gicentre/utils/slippymap/BingTileSystem.java:179-197 | Dropping the last digit gives the parent tile's key, and the last digit encodes the low bits of x and y. |
| BingTileSystem.QuadKeyRoundTrip | src/org/gicentre/utils/slippymap/BingTileSystem.java:179-238 | Decoding the key of any tile of the grid at a level gives the tile back. |
| BingTileSystem.QuadKeyReverseRoundTrip | src/org/gicentre/utils/slippymap/BingTileSystem.java:179-238 | Encoding the decoded tile of a well-formed key, at the key's own length, gives the key back. |
| BingTileSystem.QuadKeyPrefixIsAncestor | src/org/gicentre/utils/slippymap/BingTileSystem.java:181-195 | The first k digits of a tile's key at level l are the level-k key of its ancestor (x / 2^(l-k), y / 2^(l-k)). This is why truncating a key finds a covering coarser tile. |
| BingTileSystem.QuadKeyInjective | src/org/gicentre/utils/slippymap/BingTileSystem.java:179-197 | Distinct tiles of the grid at one level have distinct keys. |
| BingTileSystem.InvalidDigitReadsAsZero | src/org/gicentre/utils/slippymap/BingTileSystem.java:233-234 | A character outside 0 to 3 is only reported and sets no bit: the key decodes as if that character were '0'. |
| JavaInt.Div | src/org/gicentre/utils/slippymap/OpenStreetMap.java:74 | Java `int` division truncates toward zero: the quotient q satisfies the truncation bounds for each sign of the operands, and the result is always a Java `int`. |
| TileSelection.ZoomLoop | src/org/gicentre/utils/slippymap/Bing.java:145-149 | The loop ends at a level between 1 and the start. Either it reached 1, or the count halved once per level down fits the screen. No earlier level fits, so the finest fitting level is chosen. |
| TileSelection.ChooseZoom | src/org/gicentre/utils/slippymap/OpenStreetMap.java:80-86 | Started from 20, the chosen level is in [1, 20] and is the first level, going down, whose halved count fits, or 1 when none does. |
| TileSelection.FittingViewKeepsMaxZoom | src/org/gicentre/utils/slippymap/OpenStreetMap.java:83-86 | A view already narrow enough at level 20 is drawn at level 20. |
| TileSelection.Column | src/org/gicentre/utils/slippymap/OpenStreetMap.java:97 | The inner loop visits exactly the rows firstY to lastY of one column, top to bottom. |
| TileSelection.Cells | src/org/gicentre/utils/slippymap/Bing.java:163-164 | The nested loops visit exactly the cells of the rectangle, each once, column by column and top to bottom within a column. |
| StableSort.SortBy | src/org/gicentre/utils/slippymap/Bing.java:194 | `Collections.sort` with a key comparator returns a permutation of its input, ordered by key, with equal-key elements left in their original order. |
| TileRetriever.Create | src/org/gicentre/utils/slippymap/TileRetriever.java:89-97 | A new retriever has an empty queue and no listeners. A cache-only lookup finds exactly the files already on disk, because the file cache starts enabled. |
| TileRetriever.ApplyPassThroughURL | src/org/gicentre/utils/slippymap/TileRetriever.java:287-299 | Without a pass-through URL the URL is returned unchanged. With one, the result is that URL, `?url=`, then the encoded target. |
| TileRetriever.PassThroughInjective | src/org/gicentre/utils/slippymap/TileRetriever.java:287-299 | With an injective encoder, wrapping never maps two distinct URLs to the same string. |
| TileRetriever.Retrieve | src/org/gicentre/utils/slippymap/TileRetriever.java:217-229 | The new request goes to the head and the earlier ones follow in their old order. The last one is dropped only when the queue was already full, so a queue of at most 30 stays at most 30. Nothing else in the state changes. |
| TileRetriever.RetrieveKeepsDuplicates | src/org/gicentre/utils/slippymap/TileRetriever.java:220-221 | Asking again for a queued tile adds a second equal request instead of moving the first, because the removal never matches. |
| TileRetriever.RetrieveDropsOldest | src/org/gicentre/utils/slippymap/TileRetriever.java:226-227 | A request added to a full queue of 30 pushes out exactly the oldest request. |
| TileRetriever.GetTileImage | src/org/gicentre/utils/slippymap/TileRetriever.java:238-281 | An image is returned iff the tile is in memory, or on disk with the file cache on. A memory hit changes nothing. A disk hit is copied into memory and queues nothing. A miss queues the wrapped URL unless only the caches may be used. Disk, listeners and settings are never touched. |
| TileRetriever.MissQueuesOneRequest | src/org/gicentre/utils/slippymap/TileRetriever.java:264-276 | A miss with fetching allowed returns no image and puts exactly one request, for that tile, in front of the old queue. |
| TileRetriever.MissWrapsTwice | src/org/gicentre/utils/slippymap/TileRetriever.java:264-276 | A URL the provider has already wrapped is wrapped a second time on a miss, so the queued URL is encoded twice. |
| TileRetriever.WorkerStep | src/org/gicentre/utils/slippymap/TileRetriever.java:111-188 | One worker iteration takes the queue head. A disk hit is copied into memory before its width is checked; otherwise the web result is used. A positive-width image is cached, written to disk when the file cache is on and the write succeeds, and announced to every listener. A missing or empty image changes no cache and notifies nobody. |
| TileRetriever.NewestServedFirst | src/org/gicentre/utils/slippymap/TileRetriever.java:111-175 | The request queued last is the one the next worker iteration serves: its image lands in memory and every listener hears of it. |
| TileRetriever.FetchedTileIsCached | src/org/gicentre/utils/slippymap/TileRetriever.java:169-175 | After the worker stores a fetched tile, a cache-only lookup of it returns that image and leaves the state as it is. |
| TileRetriever.AddSlippyMapListener | src/org/gicentre/utils/slippymap/TileRetriever.java:198-202 | The listener joins the set and nothing else changes. |
| TileRetriever.RemoveSlippyMapListener | src/org/gicentre/utils/slippymap/TileRetriever.java:208-211 | The listener leaves the set; removing an absent listener changes nothing. |
| TileRetriever.ListenerLifecycle | src/org/gicentre/utils/slippymap/TileRetriever.java:198-211 | Adding then removing a new listener restores the state, and while registered it hears of every tile the worker stores. |
| Bing.TileCacheFileName | src/org/gicentre/utils/slippymap/Bing.java:327-329 | The cache name `bing-` + lower-case type name + `-` + quadkey + `.jpeg`; `Bing.TileCacheFileNameInjective` shows the name determines the type and the quadkey. |
| Bing.TileCacheFileNameInjective | src/org/gicentre/utils/slippymap/Bing.java:327-329 | Distinct (type, quadkey) pairs never share a cache file name. |
| Bing.TileURL | src/org/gicentre/utils/slippymap/Bing.java:331-349 | A URL exists exactly when the template for the tile type is known. |
| Bing.TileURLInjective | src/org/gicentre/utils/slippymap/Bing.java:331-349 | For a fixed template with the three placeholders, a fixed subdomain and culture, and an injective encoder, two quadkeys with the same URL are equal, with or without a pass-through URL. |
| Bing.FillTemplate | src/org/gicentre/utils/slippymap/Bing.java:341-344 | The three `String.replace` calls followed by `&ext=.jpeg`; `Bing.TileURLFillsTemplate` gives the result for a template with the three placeholders, and `Bing.FilledQuadKeyInjective` shows that the filled template then determines the quadkey. |
| Bing.FilledQuadKeyInjective | src/org/gicentre/utils/slippymap/Bing.java:341-344 | For a brace-free three-placeholder template, a fixed subdomain and culture, and brace-free quadkeys, equal filled templates mean equal quadkeys. |
| Bing.TileURLFillsTemplate | src/org/gicentre/utils/slippymap/Bing.java:341-344 | Given a template with the three placeholders in order and brace-free values, `{subdomain}`, `{quadkey}` and `{culture}` are each replaced by their value and `&ext=.jpeg` is appended. |
| Bing.DefaultRoadURL | src/org/gicentre/utils/slippymap/Bing.java:312-322 | With the fallback road template, subdomain `t0` and the default culture `en-GB`, a quadkey's URL is the fixed road-tile address. This is the fill with the corrected subdomain pick: as written, the pick from `["t0"]` always throws (`Bing.DefaultSubdomainsAlwaysFail`), so Java never builds this URL. |
| Bing.GetTileImage | src/org/gicentre/utils/slippymap/Bing.java:245-255 | Without a URL the retriever is not consulted. Otherwise an image is found iff the tile is cached. A found tile ends up in memory, and the caches answer as before. Only a miss with fetching allowed queues a request, for that tile. |
| Bing.Fallback | src/org/gicentre/utils/slippymap/Bing.java:178-187 | The coarser-tile search never queues a request and never changes what the caches hold. |
| Bing.FallbackProbesPrefixes | src/org/gicentre/utils/slippymap/Bing.java:178-180 | The i-th lookup is cache-only and asks for the prefix of length len - i, so the empty key is never asked for. |
| Bing.FallbackMiss | src/org/gicentre/utils/slippymap/Bing.java:178-187 | With no prefix cached, every length down to 1 is tried and nothing is added. |
| Bing.FallbackHit | src/org/gicentre/utils/slippymap/Bing.java:178-187 | The search stops at the longest cached prefix after len - m + 1 lookups, adds that prefix if it is absent, and leaves it in memory. |
| Bing.FallbackStopsAtHit | src/org/gicentre/utils/slippymap/Bing.java:180-185 | A cached first prefix ends the search after one lookup. |
| Bing.FallbackAddsAvailable | src/org/gicentre/utils/slippymap/Bing.java:178-187 | The list only grows at its end, and only by tiles that were cached and are now in memory. |
| Bing.FallbackAddsAtMostOne | src/org/gicentre/utils/slippymap/Bing.java:181-185 | The search adds nothing or exactly one prefix that was not in the list. |
| Bing.TileStep | src/org/gicentre/utils/slippymap/Bing.java:170-188 | Each cell first asks for its own key with fetching allowed, and every later lookup is cache-only. The list only grows, by tiles cached at the start. |
| Bing.TileStepProbes | src/org/gicentre/utils/slippymap/Bing.java:170-187 | A cell makes at most max(zoom, 1) lookups, and the i-th fallback lookup is the cell's key cut to zoom - i digits. |
| Bing.TileStepProbesAncestors | src/org/gicentre/utils/slippymap/Bing.java:178-179 | Each fallback lookup names the ancestor tile i levels up. |
| Bing.TileStepHit | src/org/gicentre/utils/slippymap/Bing.java:171-175 | A cached tile is added as it is, after one lookup and with no request queued. |
| Bing.TileStepMiss | src/org/gicentre/utils/slippymap/Bing.java:171-187 | A missing tile is queued for download. It is stood in for by its longest cached proper prefix if there is one; otherwise nothing is added. |
| Bing.TileStepAddsAtMostOne | src/org/gicentre/utils/slippymap/Bing.java:171-187 | One cell adds at most one entry: its own key, or a shorter key not yet listed. |
| Bing.ScanCells | src/org/gicentre/utils/slippymap/Bing.java:163-190 | The nested tile loop only reads the caches: every cache-only lookup is answered as before, the memory cache only gains entries, and a valid retriever stays valid. `Bing.ScanRequestsEveryCell`, `Bing.ScanCoversCell` and `Bing.ScanDrawsNoTileTwice` state what it requests and lists. |
| Bing.ViewRange | src/org/gicentre/utils/slippymap/Bing.java:155-162 | The first column and last row come from the tile under the minimum corner, the last column and first row from the tile under the maximum corner; `Bing.DrawMapRequestsTheView` shows these are exactly the cells requested. |
| Bing.ScanRequestsEveryCell | src/org/gicentre/utils/slippymap/Bing.java:163-171 | The tile loop asks, with fetching allowed, for exactly the keys of the visited cells, in visiting order. |
| Bing.ScanAddsCachedTiles | src/org/gicentre/utils/slippymap/Bing.java:163-190 | The loop appends only tiles that were cached when it began and are now in memory. |
| Bing.ScanKeeps | src/org/gicentre/utils/slippymap/Bing.java:163-190 | A listed tile stays listed. |
| Bing.ScanCoversCell | src/org/gicentre/utils/slippymap/Bing.java:163-190 | Every visited cell ends up represented: by its own tile when cached, otherwise by its longest cached prefix. |
| Bing.ScanDrawsNoTileTwice | src/org/gicentre/utils/slippymap/Bing.java:163-190 | For distinct cells inside the grid, the `contains` check keeps the list free of repeats. |
| Bing.CompareByLength | src/org/gicentre/utils/slippymap/Bing.java:103-112 | The comparator's sign is the order of the two key lengths. |
| Bing.CompareByLengthIsComparator | src/org/gicentre/utils/slippymap/Bing.java:103-112 | The comparator is antisymmetric, transitive and consistent on equal lengths, as `Comparator` requires. |
| Bing.SortByLength | src/org/gicentre/utils/slippymap/Bing.java:194 | The sorted list is a permutation ordered by key length, with keys of equal length in their original order. |
| Bing.CorrectNumTilesAcross | src/org/gicentre/utils/slippymap/Bing.java:137 | For a positive tile width the count is the number of whole tiles that fit across the screen. A zero width gives a float infinity or NaN, which the cast makes non-zero exactly when the screen width is. |
| Bing.Zoom | src/org/gicentre/utils/slippymap/Bing.java:137-149 | The level drawn is between 1 and 20. |
| Bing.Draw | src/org/gicentre/utils/slippymap/Bing.java:197-199 | Drawing draws no more tiles than listed and leaves the caches answering alike. |
| Bing.DrawFindsEveryTile | src/org/gicentre/utils/slippymap/Bing.java:197-199 | Tiles already in memory are all drawn, and drawing then leaves the state untouched. |
| Bing.DrawMap | src/org/gicentre/utils/slippymap/Bing.java:134-199 | `drawMap` draws at a level in [1, 20] and lists tiles in non-decreasing key length, coarsest first. The caches answer as before, and the queue stays within its cap. |
| Bing.DrawMapDrawsEveryChosenTile | src/org/gicentre/utils/slippymap/Bing.java:163-199 | Every chosen tile is drawn, because choosing put it in memory. |
| Bing.DrawMapRequestsTheView | src/org/gicentre/utils/slippymap/Bing.java:155-171 | The tiles asked for with fetching allowed are exactly the view's tiles at the chosen level, column by column. |
| Bing.DrawMapDrawsOnlyCachedTiles | src/org/gicentre/utils/slippymap/Bing.java:163-194 | Every listed tile was cached when `drawMap` started. |
| Bing.DrawMapDrawsNoTileTwice | src/org/gicentre/utils/slippymap/Bing.java:163-194 | When the view lies within the grid, no tile is listed twice. |
| Bing.SubdomainIndexAsWritten | src/org/gicentre/utils/slippymap/Bing.java:338 | The index computed is between 1 and 3, the number of tile types, whatever the subdomain list holds. |
| Bing.PickSubdomainAsWritten | src/org/gicentre/utils/slippymap/Bing.java:338 | A subdomain is found iff the index is inside the list, and it is never the list's first entry. |
| Bing.DefaultSubdomainsAlwaysFail | src/org/gicentre/utils/slippymap/Bing.java:338 | With the one-entry default list `["t0"]`, every pick is out of bounds. |
| Bing.PickSubdomain | src/org/gicentre/utils/slippymap/Bing.java:338 | The corrected pick finds a subdomain iff the list is non-empty, and always one of its entries. |
| Bing.PickSubdomainReachesEvery | src/org/gicentre/utils/slippymap/Bing.java:338 | Every entry of the list, the first included, is picked for some random value in [0, 1). |
| OpenStreetMap.InGrid | src/org/gicentre/utils/slippymap/OpenStreetMap.java:275 | The range check of `getTileUrl`: `OpenStreetMap.OsmUrls` shows a URL exists exactly for the tiles it accepts. |
| OpenStreetMap.InGridParent | src/org/gicentre/utils/slippymap/OpenStreetMap.java:275 | The tile one level coarser over an in-grid tile is in the grid, so a coarser fallback tile always has a URL. |
| OpenStreetMap.TileName | src/org/gicentre/utils/slippymap/OpenStreetMap.java:278 | The name starts with the level followed by `/`; `OpenStreetMap.TileNameInjective` shows the name determines the tile. |
| OpenStreetMap.CacheFileName | src/org/gicentre/utils/slippymap/OpenStreetMap.java:319-321 | The name starts with `osm-` and the lower-case type name followed by `-`; `OpenStreetMap.CacheFileNameInjective` shows it determines the type and the tile. |
| OpenStreetMap.Key | src/org/gicentre/utils/slippymap/OpenStreetMap.java:98 | The `HashSet` key `x:y:zoom` of a tile; `OpenStreetMap.KeyInjective` shows it determines the tile, so the `keys` check skips exactly the tiles already chosen. |
| OpenStreetMap.UrlPrefix | src/org/gicentre/utils/slippymap/OpenStreetMap.java:280-314 | Every server prefix, the CloudMade one with its key and style included, begins with `http://` and ends with `/`, so the tile name starts a new path segment. |
| OpenStreetMap.TileNameInjective | src/org/gicentre/utils/slippymap/OpenStreetMap.java:278 | The path `zoom/x/y` names one tile, negative numbers included. |
| OpenStreetMap.CacheFileNameInjective | src/org/gicentre/utils/slippymap/OpenStreetMap.java:319-321 | Distinct (type, x, y, zoom) never share a cache file name, even for negative numbers, whose minus sign is also the separator. |
| OpenStreetMap.KeyInjective | src/org/gicentre/utils/slippymap/OpenStreetMap.java:98 | The `x:y:zoom` key names one tile. |
| OpenStreetMap.RandomBelow | src/org/gicentre/utils/slippymap/OpenStreetMap.java:281 | `(int)(Math.random() * n)` is below n. |
| OpenStreetMap.CloudMadeHostAsWrittenIsMalformed | src/org/gicentre/utils/slippymap/OpenStreetMap.java:295-305 | For subdomains `b` and `c` the host as written has two dots in a row, `http://b..tile.cloudmade.com/`. |
| OpenStreetMap.CloudMadeSubdomain | src/org/gicentre/utils/slippymap/OpenStreetMap.java:296-303 | The corrected subdomain is the single letter a, b or c for the index. |
| OpenStreetMap.CloudMadeHostIsWellFormed | src/org/gicentre/utils/slippymap/OpenStreetMap.java:295-305 | Each corrected host is `http://<letter>.tile.cloudmade.com/` with a single dot, and the three hosts differ. |
| OpenStreetMap.TileUrl | src/org/gicentre/utils/slippymap/OpenStreetMap.java:274-317 | No URL exists for exactly the tiles outside the 2^zoom by 2^zoom grid. |
| OpenStreetMap.TileUrlIdentifiesTile | src/org/gicentre/utils/slippymap/OpenStreetMap.java:274-317 | With fixed settings and an injective encoder, a URL determines its tile. |
| OpenStreetMap.StamenUrl | src/org/gicentre/utils/slippymap/OpenStreetMap.java:306-314 | Without a pass-through URL the three Stamen styles give their fixed `tile.stamen.com` addresses for `zoom/x/y.png`. |
| OpenStreetMap.OsmUrls | src/org/gicentre/utils/slippymap/OpenStreetMap.java:274-317 | The map's URL function answers nothing for exactly the tiles outside the grid. |
| OpenStreetMap.Clamp | src/org/gicentre/utils/slippymap/OpenStreetMap.java:92-95 | The view's longitudes are kept within [-180, 180] and its latitudes within [-85, 85], and an edge already inside is unchanged. |
| OpenStreetMap.GetTileImage | src/org/gicentre/utils/slippymap/OpenStreetMap.java:217-224 | A tile outside the grid is not looked up. An image is found iff the tile is cached, and the caches answer as before. Only a miss with fetching allowed queues a request, for that tile. |
| OpenStreetMap.ConsistentAdd | src/org/gicentre/utils/slippymap/OpenStreetMap.java:109-110 | Adding a tile whose key is absent, with its key, keeps `keys` equal to the keys of the list and the list free of repeats. |
| OpenStreetMap.ConsistentKeyMeansChosen | src/org/gicentre/utils/slippymap/OpenStreetMap.java:98 | Under the loop invariant, a key is in `keys` exactly when its tile is listed. |
| OpenStreetMap.Fallback | src/org/gicentre/utils/slippymap/OpenStreetMap.java:113-134 | The coarser-tile search never queues a request and never changes what the caches hold. |
| OpenStreetMap.FallbackProbesCoarser | src/org/gicentre/utils/slippymap/OpenStreetMap.java:119-124 | At most `level` lookups are made, all cache-only, of the same position one level coarser each time. |
| OpenStreetMap.FallbackMiss | src/org/gicentre/utils/slippymap/OpenStreetMap.java:119-124 | With nothing cached at a coarser level, exactly `level` lookups are made and nothing is added. |
| OpenStreetMap.FallbackTakes | src/org/gicentre/utils/slippymap/OpenStreetMap.java:119-134 | A cached first level ends the search after one lookup and adds that tile unless its key is present. |
| OpenStreetMap.FallbackAdds | src/org/gicentre/utils/slippymap/OpenStreetMap.java:113-134 | The search keeps the loop invariant. It adds at most one tile, cached and coarser than the missing one. |
| OpenStreetMap.FallbackFindsFinest | src/org/gicentre/utils/slippymap/OpenStreetMap.java:113-134 | After the search, the finest cached coarser tile at the position is listed. |
| OpenStreetMap.TileStep | src/org/gicentre/utils/slippymap/OpenStreetMap.java:98-135 | One cell leaves the caches answering alike and the queue within its cap. |
| OpenStreetMap.TileStepAdds | src/org/gicentre/utils/slippymap/OpenStreetMap.java:98-135 | One cell keeps the invariant and adds at most one cached tile: its own, or a coarser one. A cached, unlisted own tile is always added. |
| OpenStreetMap.TileStepProbes | src/org/gicentre/utils/slippymap/OpenStreetMap.java:98-124 | An unlisted cell first asks for its own tile with fetching allowed, then for the tile under its corner one level coarser at a time, cache-only. |
| OpenStreetMap.TileStepKeepsOrAddsOwn | src/org/gicentre/utils/slippymap/OpenStreetMap.java:98-111 | A listed tile stays listed, and a cached own tile ends up listed. |
| OpenStreetMap.TileStepMiss | src/org/gicentre/utils/slippymap/OpenStreetMap.java:112-134 | A cell whose tile is missing ends with the finest cached tile under its corner listed. |
| OpenStreetMap.TileStepRequestsOwn | src/org/gicentre/utils/slippymap/OpenStreetMap.java:98-124 | An unlisted cell asks, with fetching allowed, for its own tile and nothing else. |
| OpenStreetMap.ScanAdds | src/org/gicentre/utils/slippymap/OpenStreetMap.java:96-138 | The `keys` set keeps the list free of repeats whatever the view, and the list grows only by cached tiles no finer than the level. |
| OpenStreetMap.ScanKeeps | src/org/gicentre/utils/slippymap/OpenStreetMap.java:96-138 | A listed tile stays listed. |
| OpenStreetMap.ScanCoversCell | src/org/gicentre/utils/slippymap/OpenStreetMap.java:96-138 | Every visited cell ends up represented: by its own tile when cached, otherwise by the finest cached tile under its corner. |
| OpenStreetMap.ViewRange | src/org/gicentre/utils/slippymap/OpenStreetMap.java:92-97 | The columns and rows come from the clamped view's corners after the `(float)` cast; `OpenStreetMap.DrawMapRequestsTheView` shows they are exactly the tiles requested. |
| OpenStreetMap.ViewRangeIgnoresBeyondLimits | src/org/gicentre/utils/slippymap/OpenStreetMap.java:92-95 | Clamping is idempotent, so a view reaching beyond ±180 or ±85 visits the same tiles as its clamped part. |
| OpenStreetMap.ScanCells | src/org/gicentre/utils/slippymap/OpenStreetMap.java:96-138 | The tile loop only reads the caches: every cache-only lookup is answered as before, and a valid retriever stays valid. `OpenStreetMap.ScanAdds`, `OpenStreetMap.ScanCoversCell` and `OpenStreetMap.ScanRequestsEveryCell` state what it requests and lists. |
| OpenStreetMap.ScanRequestsEveryCell | src/org/gicentre/utils/slippymap/OpenStreetMap.java:96-124 | For distinct cells none of whose tiles is listed yet, the loop asks, with fetching allowed, for exactly the cells' tiles in visiting order. |
| OpenStreetMap.TileStepProbesAncestors | src/org/gicentre/utils/slippymap/OpenStreetMap.java:114-123 | Under exact arithmetic the i-th lookup is the ancestor (x / 2^i, y / 2^i) at level zoom - i. |
| OpenStreetMap.AncestorIsQuadKeyPrefix | src/org/gicentre/utils/slippymap/OpenStreetMap.java:119-123 | That ancestor's Bing quadkey is the matching prefix of the cell's quadkey, so both providers fall back along the same chain of tiles. |
| OpenStreetMap.CompareToAsWritten | src/org/gicentre/utils/slippymap/OpenStreetMap.java:338-343 | `compareTo` as written answers 1 exactly when the other tile is coarser, and -1 otherwise, never 0. |
| OpenStreetMap.CompareToAsWrittenIsNotAntisymmetric | src/org/gicentre/utils/slippymap/OpenStreetMap.java:338-343 | For two tiles of the same level each claims to come first, and a tile does not compare equal to itself. |
| OpenStreetMap.CompareTo | src/org/gicentre/utils/slippymap/OpenStreetMap.java:338-343 | The corrected comparison's sign is the order of the two levels. |
| OpenStreetMap.CompareToIsComparator | src/org/gicentre/utils/slippymap/OpenStreetMap.java:338-343 | The corrected comparison is antisymmetric, transitive and consistent on equal levels, and agrees with the original whenever the levels differ. |
| OpenStreetMap.SortByZoom | src/org/gicentre/utils/slippymap/OpenStreetMap.java:141 | The sorted list is a permutation of the chosen tiles, coarsest level first. |
| OpenStreetMap.Zoom | src/org/gicentre/utils/slippymap/OpenStreetMap.java:74-86 | The level drawn is between 1 and 20. |
| OpenStreetMap.DrawMap | src/org/gicentre/utils/slippymap/OpenStreetMap.java:71-141 | `drawMap` draws at a level in [1, 20] and lists tiles by non-decreasing level. The caches answer as before, and the queue stays within its cap. |
| OpenStreetMap.DrawMapDrawsNoTileTwice | src/org/gicentre/utils/slippymap/OpenStreetMap.java:89-141 | No tile is listed twice, whatever the projection returns. |
| OpenStreetMap.DrawMapDrawsOnlyCachedTiles | src/org/gicentre/utils/slippymap/OpenStreetMap.java:96-141 | Every listed tile was cached when `drawMap` started and is no finer than the chosen level. |
| OpenStreetMap.DrawMapRequestsTheView | src/org/gicentre/utils/slippymap/OpenStreetMap.java:92-99 | The tiles asked for with fetching allowed are exactly those of the clamped view at the chosen level, column by column. |
| OpenStreetMap.DrawMapCoversTheView | src/org/gicentre/utils/slippymap/OpenStreetMap.java:92-138 | Every tile of the view is covered: by itself when cached, otherwise by the finest cached tile under its corner. |

## Left out

- Floating-point projection is not modelled. This covers `lonLatToPixelXY`, `pixelXYToLatLong`, `groundResolution` and `mapScale` in BingTileSystem.java, the four OpenStreetMap conversions, Mercator.java and `SlippyMap.map`. They are transcendental float code, so they are parameters of the model.
- The `(float)` casts of the clamped OpenStreetMap bounds are modelled as the `toFloat` parameter of `Projection`, applied in `OpenStreetMap.ViewRange` only, as in Java. `OpenStreetMap.Zoom` uses the unrounded bounds, so the rounded edge can fall one tile further and the view can have one more column or row than the level choice counted. No property of the rounding itself is assumed.
- OpenStreetMap.TileStepProbesAncestors: the ancestor law assumes the exact-arithmetic reading `ExactProjection` of the four conversions. Floating-point rounding can break it.
- Painting is not modelled: `g.image`, the attribution text and logo, the screen coordinates of each tile, and `Thread.isInterrupted` early returns. Drawing is modelled only as the lookups it makes.
- `Bing.retrieveBaseUrl` is not modelled, because it is network and XML parsing. Its outcome is the `UrlSource` input: the metadata's `ImageUrl`, or the built-in default template when the metadata cannot be read (Bing.java:311-316), plus the subdomain and culture. A `None` template stands for the null guard of `getTileURL` at Bing.java:336, which is reached only after `retrieveBaseUrl` has thrown. Of its defaults, only the road template is stated.
- Randomness is an input: the random subdomain choice is a random double passed in, and the Bing subdomain is an input of `TileURL`. `Bing.DrawMap` uses one subdomain for all its lookups, where Java picks a new random one on every `getTileURL` call; this affects only the URLs queued for missing tiles, not which tiles are found or listed, because whether a tile is found depends only on its cache name.
- Network reads, disk reads, disk writes and image decoding are oracle parameters: `fetch`, `diskWriteOk`, and the `fileCache` map of decodable files. The temporary-file rename and the cache directory are not modelled.
- The memory cache is a plain map. `LRUCache` is not part of this model, so nothing is said about eviction or `maxItemsInCache`.
- Threading is not modelled: the worker thread, `synchronized`, `wait`/`notify` and interrupts. The model is a single-threaded sequence of operations, with the worker run one iteration at a time.
- Setters are not modelled as operations: `setUseFileCache`, `setPassThroughURL` and `setCulture` are plain record updates of `useFileCache`, `passthroughURL` and `culture`.
- Logging on an invalid quadkey character, and `printStackTrace`, are not modelled; only their effect on the result is.
- BingTileSystem.TileXYToQuadKey: the mask `1 << (i - 1)` wraps for levels above 31. The model reads bit i - 1 directly, so it agrees with Java for levels up to 31 only.
- OpenStreetMap.Zoom: `screenBounds.width / tilePixelWidth` throws `ArithmeticException` for a zero tile width. Zoom and DrawMap require a non-zero width rather than model the exception.
- OpenStreetMap.SortByZoom: `compareTo` never answers 0, so the order of tiles of one level after `Collections.sort` is not stated. Only the level order and the permutation are stated. The model also assumes the sort returns. Java's `TimSort` can detect the broken comparator and throw `IllegalArgumentException("Comparison method violates its general contract!")` on a long list with mixed levels, and the model does not include that exception.
- OpenStreetMap.DrawMap: like `SortByZoom`, it assumes the sort of the chosen tiles returns, so the possible `IllegalArgumentException` from `Collections.sort` is not modelled.
- BingTileSystem.QuadKeyToTileXY: the mask `1 << (i - 1)` wraps for keys of 32 characters or more. At length 32 a leading `1` or `3` sets the sign bit, and from length 33 on the masks repeat lower bits. The model ORs in 2^(n-1-k) without wrapping, so its bound `0 <= x, y < 2^n` and `BingTileSystem.QuadKeyReverseRoundTrip` hold of Java only for keys of up to 31 characters.
- Bing.CorrectNumTilesAcross: `(int)(width / (float)tilePixelWidth)` rounds the width to a 24-bit float mantissa. Above 2^24 pixels the model's exact quotient can differ from Java's: for width 2^24 + 1 and tile width 1, Java gives 2^24. The model states the exact count.
- Bing.ScanCells, OpenStreetMap.ScanCells and TileSelection.Cells: the tile loops' `int` counters would wrap if a rectangle reached `Integer.MAX_VALUE`; the model counts with unbounded integers.
- OpenStreetMap.GetTileImage: the URL function is abstracted as `UrlOf` with the property `GridUrls`; `OsmUrls` shows that the map's own `getTileUrl` has that property.
- Bing.DrawMapDrawsNoTileTwice requires the view to lie within the grid. Outside it, bits above the level are dropped from the key, so two cells can share a key and Bing lists that tile twice.

## Findings

| source | as written | input that shows it | evidently intended | confidence | as-written member | corrected member |
|---|---|---|---|---|---|---|
| src/org/gicentre/utils/slippymap/BingTileSystem.java:53-55 | `mapSize` computes `256 << levelOfDetail` on a signed `int` | `levelOfDetail = 23`, a level the quadkey functions document as valid, gives `Integer.MIN_VALUE` | a map width of 256 * 2^level, as with the unsigned shift of the C# original | high, not executed | BingTileSystem.MapSizeOverflowsAt23 | BingTileSystem.MapSizeUnsignedAgrees |
| src/org/gicentre/utils/slippymap/Bing.java:338 | the subdomain index is `(int)(Math.random() * subdomains.size()) + 1`, where `subdomains` is the map from the 3 tile types | the default list `["t0"]`: every index is 1 to 3, so `get` always throws; with a longer list the first subdomain is never used | a uniformly random index into the type's own subdomain list | high, not executed | Bing.DefaultSubdomainsAlwaysFail | Bing.PickSubdomainReachesEvery |
| src/org/gicentre/utils/slippymap/OpenStreetMap.java:295-305 | the CloudMade subdomains `b.` and `c.` carry a dot before the `.tile.cloudmade.com` that follows | random index 1 gives the host `http://b..tile.cloudmade.com/` | subdomains `a`, `b` and `c`, each followed by a single dot | high, not executed | OpenStreetMap.CloudMadeHostAsWrittenIsMalformed | OpenStreetMap.CloudMadeHostIsWellFormed |
| src/org/gicentre/utils/slippymap/OpenStreetMap.java:338-343 | `TileInfo.compareTo` answers -1 whenever the levels are equal | two tiles at the same level each compare less than the other, and a tile compares -1 with itself, which breaks the `Comparable` contract that `Collections.sort` relies on. On Java 7 and later, a 32-tile list whose halves sort to levels [a×8, c×8] and [a×2, b, c×13], with a < b < c, can make `TimSort`'s merge throw `IllegalArgumentException` | 0 for equal levels | high, not executed | OpenStreetMap.CompareToAsWrittenIsNotAntisymmetric | OpenStreetMap.CompareToIsComparator |
