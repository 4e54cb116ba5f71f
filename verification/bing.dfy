/** Tile selection for Bing maps: which quadkeys `drawMap` asks the
    retriever for, the coarser cached tiles it falls back on while a tile is
    being fetched, and the coarsest-first order it draws them in. The pixel
    drawing itself, the attribution and the metadata download are not
    modelled; the projection from longitude/latitude to pixels is a
    parameter. */
module Bing {
  import opened Wrappers
  import opened JavaInt
  import opened Strings
  import BTS = BingTileSystem
  import R = TileRetriever
  import opened TileSelection
  import StableSort

  datatype BingTileType = Aerial | Road | AerialWithLabels

  /** `bingTileType.toString().toLowerCase()`. */
  function TypeName(t: BingTileType): (s: string)
    ensures '-' !in s
  {
    match t
    case Aerial => "aerial"
    case Road => "road"
    case AerialWithLabels => "aerial_with_labels"
  }

  /** `getTileCacheFileName`. */
  function TileCacheFileName(t: BingTileType, quadKey: string): string {
    "bing-" + TypeName(t) + "-" + quadKey + ".jpeg"
  }

  /** Different tile types or quadkeys never share a cache file. */
  lemma TileCacheFileNameInjective(t1: BingTileType, q1: string, t2: BingTileType, q2: string)
    requires TileCacheFileName(t1, q1) == TileCacheFileName(t2, q2)
    ensures t1 == t2 && q1 == q2
  {
    NameFieldsSplit(TypeName(t1), q1, TypeName(t2), q2);
    assert TypeName(Road) != TypeName(Aerial);
    assert TypeName(Road) != TypeName(AerialWithLabels);
    assert TypeName(Aerial) != TypeName(AerialWithLabels);
  }

  lemma NameFieldsSplit(n1: string, q1: string, n2: string, q2: string)
    requires '-' !in n1 && '-' !in n2
    requires "bing-" + n1 + "-" + q1 + ".jpeg" == "bing-" + n2 + "-" + q2 + ".jpeg"
    ensures n1 == n2 && q1 == q2
  {
    var s1, s2 := n1 + ['-'] + (q1 + ".jpeg"), n2 + ['-'] + (q2 + ".jpeg");
    assert "bing-" + n1 + "-" + q1 + ".jpeg" == "bing-" + s1;
    assert "bing-" + n2 + "-" + q2 + ".jpeg" == "bing-" + s2;
    DropCommonPrefix("bing-", s1, s2);
    SplitAtSeparator(n1, q1 + ".jpeg", n2, q2 + ".jpeg", '-');
    DropCommonSuffix(q1, q2, ".jpeg");
  }

  /** What `getTileURL` builds a URL from: the base URL template for the
      tile type, the subdomain picked for this request and the culture. The
      template is the metadata's `ImageUrl`, or the built-in default for the
      type when the metadata cannot be read. `None` stands for `baseUrls`
      still being null at the guard of `getTileURL`, which happens only when
      `retrieveBaseUrl` has ended in an exception. */
  datatype UrlSource = UrlSource(template: Option<string>, subdomain: string, culture: string)

  /** The template with its placeholders filled in, plus the image extension. */
  function FillTemplate(template: string, src: UrlSource, quadKey: string): string {
    Replace(Replace(Replace(template, "{subdomain}", src.subdomain), "{quadkey}", quadKey), "{culture}", src.culture)
      + "&ext=.jpeg"
  }

  /** `getTileURL`: the filled-in template, wrapped with the pass-through URL. */
  function TileURL(src: UrlSource, passthroughURL: Option<string>, urlEncode: string -> string, quadKey: string): (r: Option<string>)
    ensures r.None? <==> src.template.None?
  {
    match src.template
    case None => None
    case Some(template) => Some(R.ApplyPassThroughURL(passthroughURL, FillTemplate(template, src, quadKey), urlEncode))
  }

  predicate BraceFree(s: string) {
    '{' !in s
  }

  /** Filling one placeholder of a template of the shape
      `p0 target p1 u p2 v p3`, where `u` and `v` are other placeholders. */
  lemma FillFirst(p0: string, target: string, p1: string, u: string, p2: string, v: string, p3: string, value: string)
    requires |target| >= 2 && |u| >= 2 && |v| >= 2
    requires target[0] == '{' && u[0] == '{' && v[0] == '{'
    requires u[1] != target[1] && v[1] != target[1]
    requires '{' !in u[1..] && '{' !in v[1..]
    requires BraceFree(p0) && BraceFree(p1) && BraceFree(p2) && BraceFree(p3)
    ensures Replace(p0 + (target + (p1 + (u + (p2 + (v + p3))))), target, value)
         == p0 + (value + (p1 + (u + (p2 + (v + p3)))))
  {
    ReplaceSkips(p0, target + (p1 + (u + (p2 + (v + p3)))), target, value);
    ReplaceHit(target, p1 + (u + (p2 + (v + p3))), value);
    ReplaceSkips(p1, u + (p2 + (v + p3)), target, value);
    ReplaceOtherPlaceholder(u, p2 + (v + p3), target, value);
    ReplaceSkips(p2, v + p3, target, value);
    ReplaceOtherPlaceholder(v, p3, target, value);
    ReplaceNoOccurrence(p3, target, value);
  }

  /** Filling the middle placeholder of `p0 target p1 v p2`. */
  lemma FillMiddle(p0: string, target: string, p1: string, v: string, p2: string, value: string)
    requires |target| >= 2 && |v| >= 2 && target[0] == '{' && v[0] == '{'
    requires v[1] != target[1] && '{' !in v[1..]
    requires BraceFree(p0) && BraceFree(p1) && BraceFree(p2)
    ensures Replace(p0 + (target + (p1 + (v + p2))), target, value) == p0 + (value + (p1 + (v + p2)))
  {
    ReplaceSkips(p0, target + (p1 + (v + p2)), target, value);
    ReplaceHit(target, p1 + (v + p2), value);
    ReplaceSkips(p1, v + p2, target, value);
    ReplaceOtherPlaceholder(v, p2, target, value);
    ReplaceNoOccurrence(p2, target, value);
  }

  /** Filling the last placeholder of `p0 target p1`. */
  lemma FillLast(p0: string, target: string, p1: string, value: string)
    requires |target| >= 1 && target[0] == '{'
    requires BraceFree(p0) && BraceFree(p1)
    ensures Replace(p0 + (target + p1), target, value) == p0 + (value + p1)
  {
    ReplaceSkips(p0, target + p1, target, value);
    ReplaceHit(target, p1, value);
    ReplaceNoOccurrence(p1, target, value);
  }

  /** Filling three distinct placeholders in turn. */
  lemma FillThree(p0: string, p1: string, p2: string, p3: string, tA: string, tB: string, tC: string,
                  a: string, b: string, c: string)
    requires |tA| >= 2 && |tB| >= 2 && |tC| >= 2
    requires tA[0] == '{' && tB[0] == '{' && tC[0] == '{'
    requires tA[1] != tB[1] && tA[1] != tC[1] && tB[1] != tC[1]
    requires '{' !in tB[1..] && '{' !in tC[1..]
    requires BraceFree(p0) && BraceFree(p1) && BraceFree(p2) && BraceFree(p3)
    requires BraceFree(a) && BraceFree(b)
    ensures Replace(Replace(Replace(p0 + tA + p1 + tB + p2 + tC + p3, tA, a), tB, b), tC, c)
         == p0 + a + p1 + b + p2 + c + p3
  {
    FillThreeFirst(p0, p1, p2, p3, tA, tB, tC, a);
    var q0 := p0 + a + p1;
    FillThreeMiddle(q0, p2, p3, tB, tC, b);
    var c0 := q0 + b + p2;
    FillLast(c0, tC, p3, c);
    assert c0 + (c + p3) == p0 + a + p1 + b + p2 + c + p3;
  }

  lemma FillThreeFirst(p0: string, p1: string, p2: string, p3: string, tA: string, tB: string, tC: string, a: string)
    requires |tA| >= 2 && |tB| >= 2 && |tC| >= 2
    requires tA[0] == '{' && tB[0] == '{' && tC[0] == '{'
    requires tA[1] != tB[1] && tA[1] != tC[1]
    requires '{' !in tB[1..] && '{' !in tC[1..]
    requires BraceFree(p0) && BraceFree(p1) && BraceFree(p2) && BraceFree(p3)
    ensures Replace(p0 + tA + p1 + tB + p2 + tC + p3, tA, a) == (p0 + a + p1) + (tB + (p2 + (tC + p3)))
  {
    var rest := tB + (p2 + (tC + p3));
    assert p0 + tA + p1 + tB + p2 + tC + p3 == p0 + (tA + (p1 + rest));
    FillFirst(p0, tA, p1, tB, p2, tC, p3, a);
    assert p0 + (a + (p1 + rest)) == (p0 + a + p1) + rest;
  }

  lemma FillThreeMiddle(q0: string, p2: string, p3: string, tB: string, tC: string, b: string)
    requires |tB| >= 2 && |tC| >= 2 && tB[0] == '{' && tC[0] == '{'
    requires tB[1] != tC[1] && '{' !in tC[1..]
    requires BraceFree(q0) && BraceFree(p2) && BraceFree(p3)
    ensures Replace(q0 + (tB + (p2 + (tC + p3))), tB, b) == (q0 + b + p2) + (tC + p3)
  {
    FillMiddle(q0, tB, p2, tC, p3, b);
    assert q0 + (b + (p2 + (tC + p3))) == (q0 + b + p2) + (tC + p3);
  }

  /** For a template `p0{subdomain}p1{quadkey}p2{culture}p3` whose fixed
      parts and arguments hold no `{`, the URL is the template with the three
      values in place, followed by `&ext=.jpeg`. */
  lemma TileURLFillsTemplate(p0: string, p1: string, p2: string, p3: string,
                             subdomain: string, culture: string, quadKey: string, urlEncode: string -> string)
    requires BraceFree(p0) && BraceFree(p1) && BraceFree(p2) && BraceFree(p3)
    requires BraceFree(subdomain) && BraceFree(quadKey)
    ensures var template := p0 + "{subdomain}" + p1 + "{quadkey}" + p2 + "{culture}" + p3;
      TileURL(UrlSource(Some(template), subdomain, culture), None, urlEncode, quadKey)
        == Some(p0 + subdomain + p1 + quadKey + p2 + culture + p3 + "&ext=.jpeg")
  {
    var tS, tQ, tC := "{subdomain}", "{quadkey}", "{culture}";
    assert '{' !in tQ[1..] && '{' !in tC[1..];
    FillThree(p0, p1, p2, p3, tS, tQ, tC, subdomain, quadKey, culture);
  }

  /** For a fixed source with such a template and an injective encoder,
      two quadkeys that give the same URL are the same quadkey. */
  lemma TileURLInjective(p0: string, p1: string, p2: string, p3: string, subdomain: string, culture: string,
                         passthroughURL: Option<string>, urlEncode: string -> string, q1: string, q2: string)
    requires BraceFree(p0) && BraceFree(p1) && BraceFree(p2) && BraceFree(p3) && BraceFree(subdomain)
    requires BTS.IsQuadKey(q1) && BTS.IsQuadKey(q2)
    requires forall a, b :: urlEncode(a) == urlEncode(b) ==> a == b
    requires var src := UrlSource(Some(p0 + "{subdomain}" + p1 + "{quadkey}" + p2 + "{culture}" + p3), subdomain, culture);
      TileURL(src, passthroughURL, urlEncode, q1) == TileURL(src, passthroughURL, urlEncode, q2)
    ensures q1 == q2
  {
    var template := p0 + "{subdomain}" + p1 + "{quadkey}" + p2 + "{culture}" + p3;
    var src := UrlSource(Some(template), subdomain, culture);
    R.PassThroughInjective(passthroughURL, FillTemplate(template, src, q1), FillTemplate(template, src, q2), urlEncode);
    assert BraceFree(q1) && BraceFree(q2);
    FilledQuadKeyInjective(p0, p1, p2, p3, subdomain, culture, urlEncode, q1, q2);
  }

  /** Before the pass-through wrap: the filled template determines the quadkey. */
  lemma FilledQuadKeyInjective(p0: string, p1: string, p2: string, p3: string, subdomain: string, culture: string,
                               urlEncode: string -> string, q1: string, q2: string)
    requires BraceFree(p0) && BraceFree(p1) && BraceFree(p2) && BraceFree(p3) && BraceFree(subdomain)
    requires BraceFree(q1) && BraceFree(q2)
    requires var template := p0 + "{subdomain}" + p1 + "{quadkey}" + p2 + "{culture}" + p3;
      var src := UrlSource(Some(template), subdomain, culture);
      FillTemplate(template, src, q1) == FillTemplate(template, src, q2)
    ensures q1 == q2
  {
    TileURLFillsTemplate(p0, p1, p2, p3, subdomain, culture, q1, urlEncode);
    TileURLFillsTemplate(p0, p1, p2, p3, subdomain, culture, q2, urlEncode);
    var pre, post := p0 + subdomain + p1, p2 + culture + p3 + "&ext=.jpeg";
    assert p0 + subdomain + p1 + q1 + p2 + culture + p3 + "&ext=.jpeg" == pre + q1 + post;
    assert p0 + subdomain + p1 + q2 + p2 + culture + p3 + "&ext=.jpeg" == pre + q2 + post;
    DropAffixes(pre, q1, q2, post);
  }

  /** True when a cache-only lookup of this Bing tile finds an image. */
  predicate Available(st: R.Retriever, src: UrlSource, t: BingTileType, quadKey: string) {
    src.template.Some? && R.Cached(st, TileCacheFileName(t, quadKey))
  }

  /** `getTileImage`: without a URL the retriever is not consulted. */
  function GetTileImage(st: R.Retriever, src: UrlSource, urlEncode: string -> string,
                        t: BingTileType, quadKey: string, onlyGetFromCache: bool): (r: R.Lookup)
    ensures src.template.None? ==> r == R.Lookup(None, st)
    ensures r.image.Some? <==> Available(st, src, t, quadKey)
    ensures r.image.Some? ==> TileCacheFileName(t, quadKey) in r.state.tileCache
    ensures src.template.Some? && TileCacheFileName(t, quadKey) in st.tileCache ==> r.image.Some? && r.state == st
    ensures st.tileCache.Keys <= r.state.tileCache.Keys
    ensures R.SameCaches(r.state, st)
    ensures Available(st, src, t, quadKey) || onlyGetFromCache ==> r.state.urls == st.urls
    ensures !Available(st, src, t, quadKey) && !onlyGetFromCache && src.template.Some? ==>
      |r.state.urls| >= 1 && r.state.urls[0].cacheFilename == TileCacheFileName(t, quadKey)
    ensures R.Valid(st) ==> R.Valid(r.state)
  {
    match TileURL(src, st.passthroughURL, urlEncode, quadKey)
    case None => R.Lookup(None, st)
    case Some(url) => R.GetTileImage(st, url, TileCacheFileName(t, quadKey), onlyGetFromCache, urlEncode)
  }

  /** The tiles chosen so far, the retriever state, and the lookups made. */
  datatype Scan = Scan(tilesToDraw: seq<string>, state: R.Retriever, probes: seq<Probe<string>>)

  function AddIfAbsent(tiles: seq<string>, q: string): seq<string> {
    if q in tiles then tiles else tiles + [q]
  }

  /** The fallback loop for a missing tile: prefixes of length `len` down to
      1 are looked up in the caches only, and the first one found is added
      to the tiles to draw unless it is already there. */
  function Fallback(st: R.Retriever, src: UrlSource, urlEncode: string -> string, t: BingTileType,
                    quadKey: string, len: nat, tilesToDraw: seq<string>): (r: Scan)
    requires len <= |quadKey|
    ensures R.SameCaches(r.state, st) && r.state.urls == st.urls
    ensures st.tileCache.Keys <= r.state.tileCache.Keys
    ensures R.Valid(st) ==> R.Valid(r.state)
    decreases len
  {
    if len == 0 then Scan(tilesToDraw, st, [])
    else
      var prefix := quadKey[..len];
      var l := GetTileImage(st, src, urlEncode, t, prefix, true);
      if l.image.Some? then
        Scan(AddIfAbsent(tilesToDraw, prefix), l.state, [Probe(prefix, true)])
      else
        var rest := Fallback(l.state, src, urlEncode, t, quadKey, len - 1, tilesToDraw);
        Scan(rest.tilesToDraw, rest.state, [Probe(prefix, true)] + rest.probes)
  }

  /** The fallback only looks in the caches, and looks at ever shorter
      prefixes, starting with the one of length `len`. */
  lemma {:induction false} FallbackProbesPrefixes(st: R.Retriever, src: UrlSource, urlEncode: string -> string,
                                                  t: BingTileType, quadKey: string, len: nat, tilesToDraw: seq<string>)
    requires len <= |quadKey|
    ensures var r := Fallback(st, src, urlEncode, t, quadKey, len, tilesToDraw);
      && |r.probes| <= len
      && forall i :: 0 <= i < |r.probes| ==> r.probes[i] == Probe(quadKey[..len - i], true)
    decreases len
  {
    if len > 0 {
      var l := GetTileImage(st, src, urlEncode, t, quadKey[..len], true);
      if l.image.None? {
        FallbackProbesPrefixes(l.state, src, urlEncode, t, quadKey, len - 1, tilesToDraw);
      }
    }
  }

  /** With no cached prefix the fallback tries every length and adds nothing. */
  lemma {:induction false} FallbackMiss(st: R.Retriever, src: UrlSource, urlEncode: string -> string,
                                        t: BingTileType, quadKey: string, len: nat, tilesToDraw: seq<string>)
    requires len <= |quadKey|
    requires forall m :: 1 <= m <= len ==> !Available(st, src, t, quadKey[..m])
    ensures var r := Fallback(st, src, urlEncode, t, quadKey, len, tilesToDraw);
      |r.probes| == len && r.tilesToDraw == tilesToDraw
    decreases len
  {
    if len > 0 {
      var l := GetTileImage(st, src, urlEncode, t, quadKey[..len], true);
      assert !Available(st, src, t, quadKey[..len]);
      FallbackMiss(l.state, src, urlEncode, t, quadKey, len - 1, tilesToDraw);
    }
  }

  /** The fallback stops at the longest cached prefix, of length `m`, and
      adds it to the tiles to draw unless it is already there. */
  lemma {:induction false} FallbackHit(st: R.Retriever, src: UrlSource, urlEncode: string -> string,
                                       t: BingTileType, quadKey: string, len: nat, tilesToDraw: seq<string>, m: nat)
    requires 1 <= m <= len <= |quadKey|
    requires Available(st, src, t, quadKey[..m])
    requires forall m' :: m < m' <= len ==> !Available(st, src, t, quadKey[..m'])
    ensures var r := Fallback(st, src, urlEncode, t, quadKey, len, tilesToDraw);
      && |r.probes| == len - m + 1
      && r.tilesToDraw == AddIfAbsent(tilesToDraw, quadKey[..m])
      && TileCacheFileName(t, quadKey[..m]) in r.state.tileCache
    decreases len
  {
    if len == m {
      FallbackStopsAtHit(st, src, urlEncode, t, quadKey, len, tilesToDraw);
    } else {
      var l := GetTileImage(st, src, urlEncode, t, quadKey[..len], true);
      FallbackSkips(st, src, urlEncode, t, quadKey, len, tilesToDraw);
      AvailableAlike(l.state, st, src, t, quadKey[..m]);
      forall m' | m < m' <= len - 1
        ensures !Available(l.state, src, t, quadKey[..m'])
      {
        AvailableAlike(l.state, st, src, t, quadKey[..m']);
      }
      FallbackHit(l.state, src, urlEncode, t, quadKey, len - 1, tilesToDraw, m);
    }
  }

  /** States with the same cached files have the same available tiles. */
  lemma AvailableAlike(a: R.Retriever, b: R.Retriever, src: UrlSource, t: BingTileType, q: string)
    requires R.SameCaches(a, b)
    ensures Available(a, src, t, q) == Available(b, src, t, q)
  {
    assert R.Cached(a, TileCacheFileName(t, q)) == R.Cached(b, TileCacheFileName(t, q));
  }

  /** A prefix that is not cached is probed and the fallback goes on. */
  lemma FallbackSkips(st: R.Retriever, src: UrlSource, urlEncode: string -> string,
                      t: BingTileType, quadKey: string, len: nat, tilesToDraw: seq<string>)
    requires 1 <= len <= |quadKey|
    requires !Available(st, src, t, quadKey[..len])
    ensures var l := GetTileImage(st, src, urlEncode, t, quadKey[..len], true);
      var rest := Fallback(l.state, src, urlEncode, t, quadKey, len - 1, tilesToDraw);
      Fallback(st, src, urlEncode, t, quadKey, len, tilesToDraw)
        == Scan(rest.tilesToDraw, rest.state, [Probe(quadKey[..len], true)] + rest.probes)
  {
  }

  /** A cached prefix of length `len` ends the fallback at once. */
  lemma FallbackStopsAtHit(st: R.Retriever, src: UrlSource, urlEncode: string -> string,
                           t: BingTileType, quadKey: string, len: nat, tilesToDraw: seq<string>)
    requires 1 <= len <= |quadKey|
    requires Available(st, src, t, quadKey[..len])
    ensures var r := Fallback(st, src, urlEncode, t, quadKey, len, tilesToDraw);
      && r.probes == [Probe(quadKey[..len], true)]
      && r.tilesToDraw == AddIfAbsent(tilesToDraw, quadKey[..len])
      && TileCacheFileName(t, quadKey[..len]) in r.state.tileCache
  {
    var l := GetTileImage(st, src, urlEncode, t, quadKey[..len], true);
    assert l.image.Some?;
  }

  /** Whatever the fallback adds is cached, and it only ever appends. */
  lemma {:induction false} FallbackAddsAvailable(st: R.Retriever, src: UrlSource, urlEncode: string -> string,
                                                 t: BingTileType, quadKey: string, len: nat, tilesToDraw: seq<string>)
    requires len <= |quadKey|
    ensures var r := Fallback(st, src, urlEncode, t, quadKey, len, tilesToDraw);
      && |r.tilesToDraw| >= |tilesToDraw| && r.tilesToDraw[..|tilesToDraw|] == tilesToDraw
      && forall i :: |tilesToDraw| <= i < |r.tilesToDraw| ==>
           Available(st, src, t, r.tilesToDraw[i]) && TileCacheFileName(t, r.tilesToDraw[i]) in r.state.tileCache
    decreases len
  {
    if len > 0 {
      var prefix := quadKey[..len];
      var l := GetTileImage(st, src, urlEncode, t, prefix, true);
      if l.image.Some? {
        assert (tilesToDraw + [prefix])[..|tilesToDraw|] == tilesToDraw;
      } else {
        FallbackAddsAvailable(l.state, src, urlEncode, t, quadKey, len - 1, tilesToDraw);
      }
    }
  }

  /** The quadkey of a cell at a zoom. */
  function KeyOf(c: Cell, zoom: int): string {
    BTS.TileXYToQuadKey(c.x, c.y, zoom)
  }

  /** The fallback search starts one level above the tile and never reaches the empty key. */
  function FallbackStart(quadKey: string): nat {
    if |quadKey| > 0 then |quadKey| - 1 else 0
  }

  /** The body of the nested tile loop for one cell: ask for the tile with
      fetching allowed; if it is not there yet, fall back on a coarser one. */
  function TileStep(st: R.Retriever, src: UrlSource, urlEncode: string -> string, t: BingTileType,
                    zoom: int, c: Cell, tilesToDraw: seq<string>): (r: Scan)
    ensures R.SameCaches(r.state, st)
    ensures st.tileCache.Keys <= r.state.tileCache.Keys
    ensures R.Valid(st) ==> R.Valid(r.state)
    ensures |r.probes| >= 1 && r.probes[0] == Probe(KeyOf(c, zoom), false)
    ensures forall i :: 1 <= i < |r.probes| ==> r.probes[i].onlyGetFromCache
    ensures |r.tilesToDraw| >= |tilesToDraw| && r.tilesToDraw[..|tilesToDraw|] == tilesToDraw
    ensures forall i :: |tilesToDraw| <= i < |r.tilesToDraw| ==>
      Available(st, src, t, r.tilesToDraw[i]) && TileCacheFileName(t, r.tilesToDraw[i]) in r.state.tileCache
  {
    var quadKey := KeyOf(c, zoom);
    var l := GetTileImage(st, src, urlEncode, t, quadKey, false);
    if l.image.Some? then
      assert (tilesToDraw + [quadKey])[..|tilesToDraw|] == tilesToDraw;
      Scan(tilesToDraw + [quadKey], l.state, [Probe(quadKey, false)])
    else
      var f := Fallback(l.state, src, urlEncode, t, quadKey, FallbackStart(quadKey), tilesToDraw);
      FallbackProbesPrefixes(l.state, src, urlEncode, t, quadKey, FallbackStart(quadKey), tilesToDraw);
      FallbackAddsAvailable(l.state, src, urlEncode, t, quadKey, FallbackStart(quadKey), tilesToDraw);
      Scan(f.tilesToDraw, f.state, [Probe(quadKey, false)] + f.probes)
  }

  /** The keys of the cells, in order. */
  function KeysOf(cells: seq<Cell>, zoom: int): (ks: seq<string>)
    ensures |ks| == |cells|
    ensures forall i :: 0 <= i < |cells| ==> ks[i] == KeyOf(cells[i], zoom)
  {
    if |cells| == 0 then [] else [KeyOf(cells[0], zoom)] + KeysOf(cells[1..], zoom)
  }

  /** The nested tile loop over the cells, in order. */
  function ScanCells(st: R.Retriever, src: UrlSource, urlEncode: string -> string, t: BingTileType,
                     zoom: int, cells: seq<Cell>, tilesToDraw: seq<string>): (r: Scan)
    ensures R.SameCaches(r.state, st)
    ensures st.tileCache.Keys <= r.state.tileCache.Keys
    ensures R.Valid(st) ==> R.Valid(r.state)
    decreases |cells|
  {
    if |cells| == 0 then Scan(tilesToDraw, st, [])
    else
      var one := TileStep(st, src, urlEncode, t, zoom, cells[0], tilesToDraw);
      var rest := ScanCells(one.state, src, urlEncode, t, zoom, cells[1..], one.tilesToDraw);
      Scan(rest.tilesToDraw, rest.state, one.probes + rest.probes)
  }

  /** A missing tile is asked for once with fetching allowed and then
      looked for among its ancestors, from the parent upwards, in the
      caches only. */
  lemma TileStepProbes(st: R.Retriever, src: UrlSource, urlEncode: string -> string, t: BingTileType,
                       zoom: nat, c: Cell, tilesToDraw: seq<string>)
    ensures var r := TileStep(st, src, urlEncode, t, zoom, c, tilesToDraw);
      && |r.probes| <= (if zoom > 1 then zoom else 1)
      && forall i :: 1 <= i < |r.probes| ==> r.probes[i] == Probe(KeyOf(c, zoom)[..zoom - i], true)
  {
    var quadKey := KeyOf(c, zoom);
    var l := GetTileImage(st, src, urlEncode, t, quadKey, false);
    if l.image.None? {
      FallbackProbesPrefixes(l.state, src, urlEncode, t, quadKey, FallbackStart(quadKey), tilesToDraw);
    }
  }

  /** The tile at (x, y) one level of detail `d` coarser, `d` levels up. */
  function Ancestor(c: Cell, d: nat): Cell {
    Cell(c.x / Pow2(d), c.y / Pow2(d))
  }

  /** Every fallback lookup is for an ancestor of the missing tile: the
      `i`-th one is for the tile `i` levels up. */
  lemma TileStepProbesAncestors(st: R.Retriever, src: UrlSource, urlEncode: string -> string, t: BingTileType,
                                zoom: nat, c: Cell, tilesToDraw: seq<string>, i: nat)
    requires i >= 1 && i < |TileStep(st, src, urlEncode, t, zoom, c, tilesToDraw).probes|
    ensures TileStep(st, src, urlEncode, t, zoom, c, tilesToDraw).probes[i].key == KeyOf(Ancestor(c, i), zoom - i)
  {
    TileStepProbes(st, src, urlEncode, t, zoom, c, tilesToDraw);
    BTS.QuadKeyPrefixIsAncestor(c.x, c.y, zoom, zoom - i);
  }

  /** A cell whose tile is cached is drawn at its own level. */
  lemma TileStepHit(st: R.Retriever, src: UrlSource, urlEncode: string -> string, t: BingTileType,
                    zoom: int, c: Cell, tilesToDraw: seq<string>)
    requires Available(st, src, t, KeyOf(c, zoom))
    ensures var r := TileStep(st, src, urlEncode, t, zoom, c, tilesToDraw);
      r.tilesToDraw == tilesToDraw + [KeyOf(c, zoom)] && |r.probes| == 1 && r.state.urls == st.urls
  {
  }

  /** True when `m` is the length of the longest proper, non-empty prefix
      of `quadKey` whose tile is cached. */
  predicate LongestCachedPrefix(st: R.Retriever, src: UrlSource, t: BingTileType, quadKey: string, m: nat) {
    && 1 <= m < |quadKey|
    && Available(st, src, t, quadKey[..m])
    && forall m' :: m < m' < |quadKey| ==> !Available(st, src, t, quadKey[..m'])
  }

  /** A cell whose tile is missing is queued for download and stands in by
      the closest cached ancestor, if there is one. */
  lemma TileStepMiss(st: R.Retriever, src: UrlSource, urlEncode: string -> string, t: BingTileType,
                     zoom: int, c: Cell, tilesToDraw: seq<string>)
    requires src.template.Some? && !Available(st, src, t, KeyOf(c, zoom))
    ensures var r := TileStep(st, src, urlEncode, t, zoom, c, tilesToDraw);
      && |r.state.urls| >= 1 && r.state.urls[0].cacheFilename == TileCacheFileName(t, KeyOf(c, zoom))
      && (forall m: nat :: LongestCachedPrefix(st, src, t, KeyOf(c, zoom), m) ==>
            r.tilesToDraw == AddIfAbsent(tilesToDraw, KeyOf(c, zoom)[..m]))
      && ((forall m :: 1 <= m < |KeyOf(c, zoom)| ==> !Available(st, src, t, KeyOf(c, zoom)[..m])) ==>
            r.tilesToDraw == tilesToDraw)
  {
    var quadKey := KeyOf(c, zoom);
    var l := GetTileImage(st, src, urlEncode, t, quadKey, false);
    var len := FallbackStart(quadKey);
    forall m: nat | LongestCachedPrefix(st, src, t, quadKey, m)
      ensures TileStep(st, src, urlEncode, t, zoom, c, tilesToDraw).tilesToDraw == AddIfAbsent(tilesToDraw, quadKey[..m])
    {
      assert Available(l.state, src, t, quadKey[..m]) by {
        assert R.Cached(l.state, TileCacheFileName(t, quadKey[..m]));
      }
      forall m' | m < m' <= len
        ensures !Available(l.state, src, t, quadKey[..m'])
      {
        assert !R.Cached(st, TileCacheFileName(t, quadKey[..m']));
      }
      FallbackHit(l.state, src, urlEncode, t, quadKey, len, tilesToDraw, m);
    }
    if forall m :: 1 <= m < |quadKey| ==> !Available(st, src, t, quadKey[..m]) {
      forall m | 1 <= m <= len
        ensures !Available(l.state, src, t, quadKey[..m])
      {
        assert !R.Cached(st, TileCacheFileName(t, quadKey[..m]));
      }
      FallbackMiss(l.state, src, urlEncode, t, quadKey, len, tilesToDraw);
    }
  }

  /** At most one tile is added per cell: the cell's own, or a coarser one
      that was not yet in the list. */
  lemma TileStepAddsAtMostOne(st: R.Retriever, src: UrlSource, urlEncode: string -> string, t: BingTileType,
                              zoom: int, c: Cell, tilesToDraw: seq<string>)
    ensures var r := TileStep(st, src, urlEncode, t, zoom, c, tilesToDraw);
      && |r.tilesToDraw| <= |tilesToDraw| + 1
      && (|r.tilesToDraw| == |tilesToDraw| + 1 ==>
            var added := r.tilesToDraw[|tilesToDraw|];
            added == KeyOf(c, zoom) || (added !in tilesToDraw && |added| < |KeyOf(c, zoom)|))
  {
    var quadKey := KeyOf(c, zoom);
    var l := GetTileImage(st, src, urlEncode, t, quadKey, false);
    if l.image.None? {
      FallbackAddsAtMostOne(l.state, src, urlEncode, t, quadKey, FallbackStart(quadKey), tilesToDraw);
    }
  }

  lemma {:induction false} FallbackAddsAtMostOne(st: R.Retriever, src: UrlSource, urlEncode: string -> string,
                                                 t: BingTileType, quadKey: string, len: nat, tilesToDraw: seq<string>)
    requires len <= |quadKey|
    ensures var r := Fallback(st, src, urlEncode, t, quadKey, len, tilesToDraw);
      || r.tilesToDraw == tilesToDraw
      || exists m :: 1 <= m <= len && quadKey[..m] !in tilesToDraw && r.tilesToDraw == tilesToDraw + [quadKey[..m]]
    decreases len
  {
    if len > 0 {
      var l := GetTileImage(st, src, urlEncode, t, quadKey[..len], true);
      if l.image.None? {
        FallbackAddsAtMostOne(l.state, src, urlEncode, t, quadKey, len - 1, tilesToDraw);
      }
    }
  }

  /** The keys asked for with fetching allowed are exactly the cells' keys,
      in loop order. */
  lemma {:induction false} ScanRequestsEveryCell(st: R.Retriever, src: UrlSource, urlEncode: string -> string,
                                                 t: BingTileType, zoom: int, cells: seq<Cell>, tilesToDraw: seq<string>)
    ensures Requested(ScanCells(st, src, urlEncode, t, zoom, cells, tilesToDraw).probes) == KeysOf(cells, zoom)
    decreases |cells|
  {
    if |cells| > 0 {
      var one := TileStep(st, src, urlEncode, t, zoom, cells[0], tilesToDraw);
      var rest := ScanCells(one.state, src, urlEncode, t, zoom, cells[1..], one.tilesToDraw);
      ScanRequestsEveryCell(one.state, src, urlEncode, t, zoom, cells[1..], one.tilesToDraw);
      RequestedAppend(one.probes, rest.probes);
      RequestedHeadOnly(one.probes);
      assert KeysOf(cells, zoom) == [KeyOf(cells[0], zoom)] + KeysOf(cells[1..], zoom);
    }
  }

  /** The scan only appends, and only tiles that were cached when it
      started; each of them is in memory afterwards. */
  lemma {:induction false} ScanAddsCachedTiles(st: R.Retriever, src: UrlSource, urlEncode: string -> string,
                                               t: BingTileType, zoom: int, cells: seq<Cell>, tilesToDraw: seq<string>)
    ensures var r := ScanCells(st, src, urlEncode, t, zoom, cells, tilesToDraw);
      && |r.tilesToDraw| >= |tilesToDraw| && r.tilesToDraw[..|tilesToDraw|] == tilesToDraw
      && forall i :: |tilesToDraw| <= i < |r.tilesToDraw| ==>
           Available(st, src, t, r.tilesToDraw[i]) && TileCacheFileName(t, r.tilesToDraw[i]) in r.state.tileCache
    decreases |cells|
  {
    if |cells| > 0 {
      var one := TileStep(st, src, urlEncode, t, zoom, cells[0], tilesToDraw);
      var r := ScanCells(one.state, src, urlEncode, t, zoom, cells[1..], one.tilesToDraw);
      ScanAddsCachedTiles(one.state, src, urlEncode, t, zoom, cells[1..], one.tilesToDraw);
      assert r.tilesToDraw[..|tilesToDraw|] == one.tilesToDraw[..|tilesToDraw|];
      forall i | |tilesToDraw| <= i < |r.tilesToDraw|
        ensures Available(st, src, t, r.tilesToDraw[i]) && TileCacheFileName(t, r.tilesToDraw[i]) in r.state.tileCache
      {
        if i < |one.tilesToDraw| {
          assert r.tilesToDraw[i] == one.tilesToDraw[i];
        } else {
          assert R.Cached(one.state, TileCacheFileName(t, r.tilesToDraw[i]));
        }
      }
    }
  }

  /** Whatever the scan adds comes after the list it started with. */
  lemma ScanKeeps(st: R.Retriever, src: UrlSource, urlEncode: string -> string,
                  t: BingTileType, zoom: int, cells: seq<Cell>, tilesToDraw: seq<string>, q: string)
    requires q in tilesToDraw
    ensures q in ScanCells(st, src, urlEncode, t, zoom, cells, tilesToDraw).tilesToDraw
  {
    ScanAddsCachedTiles(st, src, urlEncode, t, zoom, cells, tilesToDraw);
    var r := ScanCells(st, src, urlEncode, t, zoom, cells, tilesToDraw);
    var i :| 0 <= i < |tilesToDraw| && tilesToDraw[i] == q;
    assert r.tilesToDraw[i] == r.tilesToDraw[..|tilesToDraw|][i];
  }

  /** What the tile loop promises a cell: its key is chosen when its tile
      is cached, and otherwise its longest cached proper prefix `m` is. */
  predicate Covers(st: R.Retriever, src: UrlSource, t: BingTileType, quadKey: string, m: nat, tiles: seq<string>) {
    && (Available(st, src, t, quadKey) ==> quadKey in tiles)
    && (!Available(st, src, t, quadKey) && LongestCachedPrefix(st, src, t, quadKey, m) ==> quadKey[..m] in tiles)
  }

  /** Every cell ends up represented: by its own tile when that is cached,
      otherwise by its closest cached ancestor. */
  lemma {:induction false} ScanCoversCell(st: R.Retriever, src: UrlSource, urlEncode: string -> string,
                                          t: BingTileType, zoom: int, cells: seq<Cell>, tilesToDraw: seq<string>,
                                          i: nat, m: nat)
    requires src.template.Some? && i < |cells|
    ensures Covers(st, src, t, KeyOf(cells[i], zoom), m, ScanCells(st, src, urlEncode, t, zoom, cells, tilesToDraw).tilesToDraw)
    decreases i
  {
    var one := TileStep(st, src, urlEncode, t, zoom, cells[0], tilesToDraw);
    var rest := ScanCells(one.state, src, urlEncode, t, zoom, cells[1..], one.tilesToDraw);
    assert ScanCells(st, src, urlEncode, t, zoom, cells, tilesToDraw).tilesToDraw == rest.tilesToDraw;
    if i == 0 {
      TileStepCovers(st, src, urlEncode, t, zoom, cells, tilesToDraw, m);
    } else {
      ScanCoversCell(one.state, src, urlEncode, t, zoom, cells[1..], one.tilesToDraw, i - 1, m);
      assert cells[1..][i - 1] == cells[i];
      CoversAlike(one.state, st, src, t, KeyOf(cells[i], zoom), m, rest.tilesToDraw);
    }
  }

  lemma CoversAlike(a: R.Retriever, b: R.Retriever, src: UrlSource, t: BingTileType, quadKey: string, m: nat, tiles: seq<string>)
    requires R.SameCaches(a, b)
    ensures Covers(a, src, t, quadKey, m, tiles) == Covers(b, src, t, quadKey, m, tiles)
  {
    CachedAlike(a, b, src, t, quadKey, m);
  }

  /** The first cell is covered by its own step, and later steps keep it. */
  lemma TileStepCovers(st: R.Retriever, src: UrlSource, urlEncode: string -> string,
                       t: BingTileType, zoom: int, cells: seq<Cell>, tilesToDraw: seq<string>, m: nat)
    requires src.template.Some? && |cells| > 0
    ensures var one := TileStep(st, src, urlEncode, t, zoom, cells[0], tilesToDraw);
      Covers(st, src, t, KeyOf(cells[0], zoom), m,
             ScanCells(one.state, src, urlEncode, t, zoom, cells[1..], one.tilesToDraw).tilesToDraw)
  {
    var one := TileStep(st, src, urlEncode, t, zoom, cells[0], tilesToDraw);
    var quadKey := KeyOf(cells[0], zoom);
    if Available(st, src, t, quadKey) {
      TileStepHit(st, src, urlEncode, t, zoom, cells[0], tilesToDraw);
      ScanKeeps(one.state, src, urlEncode, t, zoom, cells[1..], one.tilesToDraw, quadKey);
    } else if LongestCachedPrefix(st, src, t, quadKey, m) {
      TileStepMiss(st, src, urlEncode, t, zoom, cells[0], tilesToDraw);
      ScanKeeps(one.state, src, urlEncode, t, zoom, cells[1..], one.tilesToDraw, quadKey[..m]);
    }
  }

  /** Retrievers with the same caches agree on what is cached and on the
      longest cached prefix of a key. */
  lemma CachedAlike(a: R.Retriever, b: R.Retriever, src: UrlSource, t: BingTileType, quadKey: string, m: nat)
    requires R.SameCaches(a, b)
    ensures Available(a, src, t, quadKey) == Available(b, src, t, quadKey)
    ensures LongestCachedPrefix(a, src, t, quadKey, m) == LongestCachedPrefix(b, src, t, quadKey, m)
  {
    AvailableAlike(a, b, src, t, quadKey);
    if 1 <= m < |quadKey| {
      AvailableAlike(a, b, src, t, quadKey[..m]);
      forall m' | m < m' < |quadKey|
        ensures Available(a, src, t, quadKey[..m']) == Available(b, src, t, quadKey[..m'])
      {
        AvailableAlike(a, b, src, t, quadKey[..m']);
      }
    }
  }


  /** Cells within the grid of the level and pairwise different. */
  predicate CellsOnGrid(cells: seq<Cell>, zoom: nat) {
    && Distinct(cells)
    && forall i :: 0 <= i < |cells| ==> 0 <= cells[i].x < Pow2(zoom) && 0 <= cells[i].y < Pow2(zoom)
  }

  /** No listed tile is the own tile of any of the cells. */
  predicate Apart(tiles: seq<string>, cells: seq<Cell>, zoom: int) {
    forall i, j :: 0 <= i < |tiles| && 0 <= j < |cells| ==> tiles[i] != KeyOf(cells[j], zoom)
  }

  /** What one cell may add keeps the list free of repeats and apart from
      the remaining cells. */
  lemma StepKeepsApart(tiles: seq<string>, next: seq<string>, cells: seq<Cell>, zoom: nat)
    requires |cells| > 0 && CellsOnGrid(cells, zoom) && Distinct(tiles) && Apart(tiles, cells, zoom)
    requires |tiles| <= |next| <= |tiles| + 1 && next[..|tiles|] == tiles
    requires |next| == |tiles| + 1 ==>
      next[|tiles|] == KeyOf(cells[0], zoom) || (next[|tiles|] !in tiles && |next[|tiles|]| < zoom)
    ensures Distinct(next) && Apart(next, cells[1..], zoom) && CellsOnGrid(cells[1..], zoom)
  {
    var n, c := |tiles|, cells[0];
    if |next| == n + 1 {
      assert next == tiles + [next[n]];
      if next[n] == KeyOf(c, zoom) {
        assert next[n] !in tiles by {
          forall i | 0 <= i < n
            ensures tiles[i] != KeyOf(cells[0], zoom)
          {
          }
        }
      }
      DistinctSnoc(tiles, next[n]);
    } else {
      assert next == tiles;
    }
    forall i, j | 0 <= i < |next| && 0 <= j < |cells[1..]|
      ensures next[i] != KeyOf(cells[1..][j], zoom)
    {
      var d := cells[1..][j];
      assert d == cells[j + 1];
      if i < n {
        assert next[i] == tiles[i];
      } else if next[i] == KeyOf(c, zoom) {
        if KeyOf(c, zoom) == KeyOf(d, zoom) {
          BTS.QuadKeyInjective(c.x, c.y, d.x, d.y, zoom);
        }
      } else {
        assert |next[i]| < |KeyOf(d, zoom)|;
      }
    }
    assert CellsOnGrid(cells[1..], zoom) by {
      forall i, j | 0 <= i < j < |cells[1..]|
        ensures cells[1..][i] != cells[1..][j]
      {
        assert cells[1..][i] == cells[i + 1] && cells[1..][j] == cells[j + 1];
      }
      forall i | 0 <= i < |cells[1..]|
        ensures 0 <= cells[1..][i].x < Pow2(zoom) && 0 <= cells[1..][i].y < Pow2(zoom)
      {
        assert cells[1..][i] == cells[i + 1];
      }
    }
  }

  /** No tile is drawn twice: each cell's own key is different from every
      other cell's, and a coarser tile is only added when it is absent. */
  lemma {:induction false} ScanDrawsNoTileTwice(st: R.Retriever, src: UrlSource, urlEncode: string -> string,
                                                t: BingTileType, zoom: nat, cells: seq<Cell>, tilesToDraw: seq<string>)
    requires CellsOnGrid(cells, zoom)
    requires Distinct(tilesToDraw) && Apart(tilesToDraw, cells, zoom)
    ensures Distinct(ScanCells(st, src, urlEncode, t, zoom, cells, tilesToDraw).tilesToDraw)
    decreases |cells|
  {
    if |cells| > 0 {
      var one := TileStep(st, src, urlEncode, t, zoom, cells[0], tilesToDraw);
      TileStepAddsAtMostOne(st, src, urlEncode, t, zoom, cells[0], tilesToDraw);
      StepKeepsApart(tilesToDraw, one.tilesToDraw, cells, zoom);
      ScanDrawsNoTileTwice(one.state, src, urlEncode, t, zoom, cells[1..], one.tilesToDraw);
    }
  }

  /** `quadKeyLengthComparator`: orders quadkeys by length, coarsest first. */
  function CompareByLength(a: string, b: string): (r: int)
    ensures r < 0 <==> |a| < |b|
    ensures r == 0 <==> |a| == |b|
    ensures r > 0 <==> |a| > |b|
  {
    if |a| < |b| then -1 else if |a| > |b| then 1 else 0
  }

  /** The comparator obeys the `Comparator` contract: it is antisymmetric
      and transitive, and equal results stand for equal lengths. */
  lemma CompareByLengthIsComparator(a: string, b: string, c: string)
    ensures CompareByLength(a, b) == -CompareByLength(b, a)
    ensures CompareByLength(a, b) <= 0 && CompareByLength(b, c) <= 0 ==> CompareByLength(a, c) <= 0
    ensures CompareByLength(a, b) == 0 ==> CompareByLength(a, c) == CompareByLength(b, c)
  {
  }

  function Length(q: string): int {
    |q|
  }

  /** `Collections.sort(tilesToDraw, quadKeyLengthComparator)`: a stable
      sort on the key length. */
  function SortByLength(tiles: seq<string>): (r: seq<string>)
    ensures forall i, j :: 0 <= i < j < |r| ==> CompareByLength(r[i], r[j]) <= 0
    ensures multiset(r) == multiset(tiles)
    ensures forall k :: StableSort.WithKey(r, Length, k) == StableSort.WithKey(tiles, Length, k)
  {
    StableSort.SortBy(tiles, Length)
  }

  /** The screen-width division `(int)(width / (float)tilePixelWidth)`:
      Java's float-to-int cast truncates toward zero, takes infinity to the
      extreme `int` values and NaN to 0. Float rounding is not modelled. */
  function CorrectNumTilesAcross(screenWidth: int, tilePixelWidth: int): (r: int)
    ensures tilePixelWidth > 0 && screenWidth >= 0 ==>
      tilePixelWidth * r <= screenWidth < tilePixelWidth * r + tilePixelWidth
    ensures tilePixelWidth == 0 ==> (r == 0 <==> screenWidth == 0)
  {
    if tilePixelWidth > 0 then Quot(screenWidth, tilePixelWidth)
    else if tilePixelWidth < 0 then -Quot(screenWidth, -tilePixelWidth)
    else if screenWidth > 0 then IntMax
    else if screenWidth < 0 then IntMin
    else 0
  }

  /** `BingTileSystem.lonLatToPixelXY` is floating point, so it is a
      parameter: longitude, latitude and level of detail to pixel. */
  type Projection = (real, real, int) -> BTS.Point

  /** The tile under a longitude and latitude at a level. */
  function TileAt(project: Projection, lon: real, lat: real, zoom: int): BTS.Point {
    var p := project(lon, lat, zoom);
    BTS.PixelXYToTileXY(p.x, p.y)
  }

  /** The level chosen in `drawMap`: the finest level, at most 20, at which
      the view is no wider in tiles than the screen. */
  function Zoom(project: Projection, bounds: Bounds, screenWidth: int, tilePixelWidth: int): (z: int)
    ensures 1 <= z <= MaxZoom
  {
    var first := TileAt(project, bounds.minX, bounds.minY, MaxZoom);
    var last := TileAt(project, bounds.maxX, bounds.maxY, MaxZoom);
    ChooseZoom(ToInt(last.x - first.x), CorrectNumTilesAcross(screenWidth, tilePixelWidth))
  }

  /** The tiles spanned by the view at a level: the minimum corner gives the
      first column and the last row, the maximum corner the reverse. */
  function ViewRange(project: Projection, bounds: Bounds, zoom: int): TileRange {
    var a := TileAt(project, bounds.minX, bounds.minY, zoom);
    var b := TileAt(project, bounds.maxX, bounds.maxY, zoom);
    TileRange(a.x, b.x, b.y, a.y)
  }

  /** The drawing loop's own `getTileImage` calls, one per chosen tile:
      `drawn` lists the tiles whose image was found. */
  datatype DrawPass = DrawPass(drawn: seq<string>, state: R.Retriever)

  function Draw(st: R.Retriever, src: UrlSource, urlEncode: string -> string, t: BingTileType,
                tiles: seq<string>): (r: DrawPass)
    ensures |r.drawn| <= |tiles|
    ensures R.SameCaches(r.state, st)
    ensures R.Valid(st) ==> R.Valid(r.state)
    decreases |tiles|
  {
    if |tiles| == 0 then DrawPass([], st)
    else
      var l := GetTileImage(st, src, urlEncode, t, tiles[0], false);
      var rest := Draw(l.state, src, urlEncode, t, tiles[1..]);
      DrawPass((if l.image.Some? then [tiles[0]] else []) + rest.drawn, rest.state)
  }

  /** Tiles already in memory are all drawn, and drawing queues nothing. */
  lemma {:induction false} DrawFindsEveryTile(st: R.Retriever, src: UrlSource, urlEncode: string -> string,
                                              t: BingTileType, tiles: seq<string>)
    requires src.template.Some?
    requires forall q :: q in tiles ==> TileCacheFileName(t, q) in st.tileCache
    ensures Draw(st, src, urlEncode, t, tiles) == DrawPass(tiles, st)
    decreases |tiles|
  {
    if |tiles| > 0 {
      DrawHit(st, src, urlEncode, t, tiles);
      DrawFindsEveryTile(st, src, urlEncode, t, tiles[1..]);
      assert [tiles[0]] + tiles[1..] == tiles;
    }
  }

  /** A first tile already in memory is drawn without touching the state. */
  lemma DrawHit(st: R.Retriever, src: UrlSource, urlEncode: string -> string, t: BingTileType, tiles: seq<string>)
    requires src.template.Some? && |tiles| > 0 && TileCacheFileName(t, tiles[0]) in st.tileCache
    ensures var rest := Draw(st, src, urlEncode, t, tiles[1..]);
      Draw(st, src, urlEncode, t, tiles) == DrawPass([tiles[0]] + rest.drawn, rest.state)
  {
    var l := GetTileImage(st, src, urlEncode, t, tiles[0], false);
    assert l.image.Some? && l.state == st;
  }

  /** What one call of `drawMap` decides: the level, the tiles in drawing
      order, the tiles actually drawn, the lookups made while choosing, and
      the retriever state afterwards. */
  datatype Frame = Frame(zoom: int, tilesToDraw: seq<string>, drawn: seq<string>, probes: seq<Probe<string>>, state: R.Retriever)

  /** `drawMap` without the painting. */
  function DrawMap(st: R.Retriever, src: UrlSource, urlEncode: string -> string, t: BingTileType,
                   project: Projection, bounds: Bounds, screenWidth: int, tilePixelWidth: int): (f: Frame)
    ensures 1 <= f.zoom <= MaxZoom
    ensures forall i, j :: 0 <= i < j < |f.tilesToDraw| ==> |f.tilesToDraw[i]| <= |f.tilesToDraw[j]|
    ensures R.SameCaches(f.state, st)
    ensures R.Valid(st) ==> R.Valid(f.state)
  {
    var zoom := Zoom(project, bounds, screenWidth, tilePixelWidth);
    var scan := ScanCells(st, src, urlEncode, t, zoom, Cells(ViewRange(project, bounds, zoom)), []);
    var tiles := SortByLength(scan.tilesToDraw);
    var pass := Draw(scan.state, src, urlEncode, t, tiles);
    Frame(zoom, tiles, pass.drawn, scan.probes, pass.state)
  }

  /** Every tile chosen is drawn: it was put in memory while choosing, so
      the drawing loop's lookups all hit and queue nothing. */
  lemma DrawMapDrawsEveryChosenTile(st: R.Retriever, src: UrlSource, urlEncode: string -> string, t: BingTileType,
                                    project: Projection, bounds: Bounds, screenWidth: int, tilePixelWidth: int)
    requires src.template.Some?
    ensures var f := DrawMap(st, src, urlEncode, t, project, bounds, screenWidth, tilePixelWidth);
      f.drawn == f.tilesToDraw
  {
    var zoom := Zoom(project, bounds, screenWidth, tilePixelWidth);
    var scan := ScanCells(st, src, urlEncode, t, zoom, Cells(ViewRange(project, bounds, zoom)), []);
    ScanAddsCachedTiles(st, src, urlEncode, t, zoom, Cells(ViewRange(project, bounds, zoom)), []);
    var tiles := SortByLength(scan.tilesToDraw);
    forall q | q in tiles
      ensures TileCacheFileName(t, q) in scan.state.tileCache
    {
      assert q in multiset(scan.tilesToDraw);
    }
    DrawFindsEveryTile(scan.state, src, urlEncode, t, tiles);
  }

  /** The tiles asked for with fetching allowed are exactly those of the
      view at the chosen level, column by column. */
  lemma DrawMapRequestsTheView(st: R.Retriever, src: UrlSource, urlEncode: string -> string, t: BingTileType,
                               project: Projection, bounds: Bounds, screenWidth: int, tilePixelWidth: int)
    ensures var f := DrawMap(st, src, urlEncode, t, project, bounds, screenWidth, tilePixelWidth);
      Requested(f.probes) == KeysOf(Cells(ViewRange(project, bounds, f.zoom)), f.zoom)
  {
    var zoom := Zoom(project, bounds, screenWidth, tilePixelWidth);
    ScanRequestsEveryCell(st, src, urlEncode, t, zoom, Cells(ViewRange(project, bounds, zoom)), []);
  }

  /** Every tile in the drawing list was cached when `drawMap` started. */
  lemma DrawMapDrawsOnlyCachedTiles(st: R.Retriever, src: UrlSource, urlEncode: string -> string, t: BingTileType,
                                    project: Projection, bounds: Bounds, screenWidth: int, tilePixelWidth: int)
    ensures var f := DrawMap(st, src, urlEncode, t, project, bounds, screenWidth, tilePixelWidth);
      forall q :: q in f.tilesToDraw ==> Available(st, src, t, q)
  {
    var zoom := Zoom(project, bounds, screenWidth, tilePixelWidth);
    var scan := ScanCells(st, src, urlEncode, t, zoom, Cells(ViewRange(project, bounds, zoom)), []);
    ScanAddsCachedTiles(st, src, urlEncode, t, zoom, Cells(ViewRange(project, bounds, zoom)), []);
    forall q | q in SortByLength(scan.tilesToDraw)
      ensures Available(st, src, t, q)
    {
      assert q in multiset(scan.tilesToDraw);
    }
  }

  /** When the view lies within the world at the chosen level, no tile is
      listed twice. */
  lemma DrawMapDrawsNoTileTwice(st: R.Retriever, src: UrlSource, urlEncode: string -> string, t: BingTileType,
                                project: Projection, bounds: Bounds, screenWidth: int, tilePixelWidth: int)
    requires var zoom := Zoom(project, bounds, screenWidth, tilePixelWidth);
      var v := ViewRange(project, bounds, zoom);
      0 <= v.firstX && v.lastX < Pow2(zoom) && 0 <= v.firstY && v.lastY < Pow2(zoom)
    ensures Distinct(DrawMap(st, src, urlEncode, t, project, bounds, screenWidth, tilePixelWidth).tilesToDraw)
  {
    var zoom := Zoom(project, bounds, screenWidth, tilePixelWidth);
    var cells := Cells(ViewRange(project, bounds, zoom));
    assert CellsOnGrid(cells, zoom) by {
      forall i | 0 <= i < |cells|
        ensures 0 <= cells[i].x < Pow2(zoom) && 0 <= cells[i].y < Pow2(zoom)
      {
        assert InRange(ViewRange(project, bounds, zoom), cells[i]);
      }
    }
    ScanDrawsNoTileTwice(st, src, urlEncode, t, zoom, cells, []);
    var scan := ScanCells(st, src, urlEncode, t, zoom, cells, []);
    DistinctPermutation(scan.tilesToDraw, SortByLength(scan.tilesToDraw));
  }

  /** The default road template used when the metadata cannot be read. */
  const DefaultRoadTemplate: string :=
    "http://ecn." + "{subdomain}" + ".tiles.virtualearth.net/tiles/r" + "{quadkey}"
    + ".jpeg?g=950&mkt=" + "{culture}" + "&shading=hill&stl=H"

  /** The default culture. */
  const DefaultCulture: string := "en-GB"

  /** With the default road template, subdomain `t0` and the default
      culture, a quadkey's URL is the fixed road-tile address. */
  lemma DefaultRoadURL(quadKey: string, urlEncode: string -> string)
    requires BTS.IsQuadKey(quadKey)
    ensures TileURL(UrlSource(Some(DefaultRoadTemplate), "t0", DefaultCulture), None, urlEncode, quadKey)
      == Some("http://ecn." + "t0" + ".tiles.virtualearth.net/tiles/r" + quadKey + ".jpeg?g=950&mkt="
              + "en-GB" + "&shading=hill&stl=H" + "&ext=.jpeg")
  {
    assert BraceFree(quadKey);
    TileURLFillsTemplate("http://ecn.", ".tiles.virtualearth.net/tiles/r", ".jpeg?g=950&mkt=", "&shading=hill&stl=H",
                         "t0", DefaultCulture, quadKey, urlEncode);
  }

  /** The number of tile types: the size of the map from type to subdomain list. */
  const TypeCount: nat := 3

  /** The subdomain index as `getTileURL` computes it: a random double in
      [0, 1) scaled by the number of tile types, truncated, plus one. */
  function SubdomainIndexAsWritten(random: real): (k: int)
    requires 0.0 <= random < 1.0
    ensures 1 <= k <= TypeCount
  {
    (random * TypeCount as real).Floor + 1
  }

  /** The subdomain picked as written; `None` stands for the
      `IndexOutOfBoundsException` that `List.get` throws. */
  function PickSubdomainAsWritten(subdomains: seq<string>, random: real): (r: Option<string>)
    requires 0.0 <= random < 1.0
    ensures r.Some? <==> SubdomainIndexAsWritten(random) < |subdomains|
    ensures r.Some? ==> r.value in subdomains[1..]
  {
    var k := SubdomainIndexAsWritten(random);
    if k < |subdomains| then Some(subdomains[k]) else None
  }

  /** With the default subdomain list `["t0"]` every pick is out of bounds. */
  lemma DefaultSubdomainsAlwaysFail(random: real)
    requires 0.0 <= random < 1.0
    ensures PickSubdomainAsWritten(["t0"], random) == None
  {
  }

  /** The evident intent: a uniformly chosen index into the list itself. */
  function PickSubdomain(subdomains: seq<string>, random: real): (r: Option<string>)
    requires 0.0 <= random < 1.0
    ensures r.Some? <==> |subdomains| > 0
    ensures r.Some? ==> r.value in subdomains
  {
    if |subdomains| == 0 then None
    else
      var n := |subdomains| as real;
      assert 0.0 <= random * n < n by {
        assert random * n <= 1.0 * n;
        assert random * n != n;
      }
      Some(subdomains[(random * n).Floor])
  }

  /** Every subdomain of the list, the first included, can be picked. */
  lemma PickSubdomainReachesEvery(subdomains: seq<string>, k: nat)
    requires k < |subdomains|
    ensures var random := k as real / |subdomains| as real;
      0.0 <= random < 1.0 && PickSubdomain(subdomains, random) == Some(subdomains[k])
  {
    var n := |subdomains| as real;
    var random := k as real / n;
    FractionBelowOne(k as real, n);
    assert random * n == k as real;
    assert (random * n).Floor == k;
  }

  lemma FractionBelowOne(a: real, b: real)
    requires 0.0 <= a < b
    ensures 0.0 <= a / b < 1.0
  {
  }
}
