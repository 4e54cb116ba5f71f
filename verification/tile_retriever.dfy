/** The tile retriever as a sequential state machine: a most-recent-first
    request queue, an in-memory tile cache, an on-disk tile cache, the set of
    listeners told about new tiles, and two settings. The background worker
    is modelled one iteration at a time; the network, the file system and
    image decoding are passed in as oracle values. */
module TileRetriever {
  import opened Wrappers

  /** A decoded tile image. Only its width is inspected: a non-positive width
      marks an image that did not decode. */
  datatype Image = Image(width: int, height: int, pixels: seq<int>)

  /** One queued request: the URL to fetch and the name of its cache entry. */
  datatype TileInfo = TileInfo(url: string, cacheFilename: string)

  /** A registered map listener, identified by reference. */
  type Listener = nat

  /** The queue never grows past this many requests. */
  const MaxQueued: nat := 30

  /** `tileCache` is the in-memory cache (its LRU eviction is not modelled);
      `fileCache` maps a cache file name to the image that file decodes to,
      so an unreadable or corrupt file is simply absent. A listener set that
      is still null behaves as the empty set. */
  datatype Retriever = Retriever(
    urls: seq<TileInfo>,
    tileCache: map<string, Image>,
    fileCache: map<string, Image>,
    listeners: set<Listener>,
    useFileCache: bool,
    passthroughURL: Option<string>)

  /** The result of a cache lookup: the image, if any, and the new state. */
  datatype Lookup = Lookup(image: Option<Image>, state: Retriever)

  /** The result of one worker iteration: the new state and the listeners
      that were told a new tile is available. */
  datatype Step = Step(state: Retriever, notified: set<Listener>)

  predicate Valid(s: Retriever) {
    |s.urls| <= MaxQueued
  }

  /** True when a cache-only lookup of `cacheFilename` finds an image. */
  predicate Cached(s: Retriever, cacheFilename: string) {
    cacheFilename in s.tileCache || (s.useFileCache && cacheFilename in s.fileCache)
  }

  /** True when the two states answer every cache-only lookup alike. */
  ghost predicate SameCaches(a: Retriever, b: Retriever) {
    forall f :: Cached(a, f) <==> Cached(b, f)
  }

  /** True for an image the worker accepts: present and of positive width. */
  predicate Usable(image: Option<Image>) {
    image.Some? && image.value.width > 0
  }

  /** A freshly constructed retriever over the files already on disk. */
  function Create(fileCache: map<string, Image>): (s: Retriever)
    ensures Valid(s) && s.urls == [] && s.listeners == {}
    ensures forall f :: Cached(s, f) <==> f in fileCache
  {
    Retriever([], map[], fileCache, {}, true, None)
  }

  /** `applyPassThroughURL`: with a pass-through URL set, the target URL is
      sent as its encoded `url` parameter. `urlEncode` stands for
      `URLEncoder.encode(_, "UTF-8")`. */
  function ApplyPassThroughURL(passthroughURL: Option<string>, url: string, urlEncode: string -> string): (r: string)
    ensures passthroughURL.None? ==> r == url
    ensures passthroughURL.Some? ==> |r| == |passthroughURL.value| + 5 + |urlEncode(url)|
    ensures passthroughURL.Some? ==> r[..|passthroughURL.value| + 5] == passthroughURL.value + "?url="
    ensures passthroughURL.Some? ==> r[|passthroughURL.value| + 5..] == urlEncode(url)
  {
    match passthroughURL
    case None => url
    case Some(p) => p + "?url=" + urlEncode(url)
  }

  /** With an injective encoder, wrapping never merges two distinct URLs. */
  lemma PassThroughInjective(passthroughURL: Option<string>, u1: string, u2: string, urlEncode: string -> string)
    requires forall a, b :: urlEncode(a) == urlEncode(b) ==> a == b
    requires ApplyPassThroughURL(passthroughURL, u1, urlEncode) == ApplyPassThroughURL(passthroughURL, u2, urlEncode)
    ensures u1 == u2
  {
    if passthroughURL.Some? {
      var n := |passthroughURL.value| + 5;
      assert urlEncode(u1) == ApplyPassThroughURL(passthroughURL, u1, urlEncode)[n..];
      assert urlEncode(u2) == ApplyPassThroughURL(passthroughURL, u2, urlEncode)[n..];
    }
  }

  /** `retrieve`: the request goes to the head of the queue and the last
      entry is dropped once the queue is over 30. The preceding
      `urls.remove(url)` passes a `String` to a list of `TileInfo`, which
      never matches, so an equal earlier request is not removed. */
  function Retrieve(s: Retriever, url: string, cacheFilename: string): (r: Retriever)
    ensures |r.urls| >= 1 && r.urls[0] == TileInfo(url, cacheFilename)
    ensures |s.urls| < MaxQueued ==> r.urls[1..] == s.urls
    ensures |s.urls| >= MaxQueued ==> r.urls[1..] == s.urls[..|s.urls| - 1]
    ensures Valid(s) ==> Valid(r)
    ensures r == s.(urls := r.urls)
  {
    var pushed := [TileInfo(url, cacheFilename)] + s.urls;
    s.(urls := if |pushed| > MaxQueued then pushed[..|pushed| - 1] else pushed)
  }

  /** Asking again for a tile that is already queued adds a second, equal
      request instead of moving the first one. */
  lemma RetrieveKeepsDuplicates(s: Retriever, url: string, cacheFilename: string)
    requires |s.urls| < MaxQueued
    ensures var t := TileInfo(url, cacheFilename);
      multiset(Retrieve(s, url, cacheFilename).urls)[t] == multiset(s.urls)[t] + 1
  {
    var r := Retrieve(s, url, cacheFilename);
    assert r.urls == [TileInfo(url, cacheFilename)] + s.urls;
  }

  /** Queueing 31 requests into a full queue loses exactly its oldest one. */
  lemma RetrieveDropsOldest(s: Retriever, url: string, cacheFilename: string)
    requires |s.urls| == MaxQueued
    ensures var r := Retrieve(s, url, cacheFilename);
      |r.urls| == MaxQueued && r.urls == [TileInfo(url, cacheFilename)] + s.urls[..MaxQueued - 1]
  {
    var r := Retrieve(s, url, cacheFilename);
    assert r.urls == [r.urls[0]] + r.urls[1..];
  }

  /** `getTileImage`: the memory cache first, then (with the file cache on)
      the disk, copying a disk hit into memory; on a miss, unless only the
      caches may be used, the URL is wrapped with the pass-through URL and
      queued. */
  function GetTileImage(s: Retriever, tileUrl: string, cacheFilename: string, onlyGetFromCache: bool,
                        urlEncode: string -> string): (r: Lookup)
    ensures r.image.Some? <==> Cached(s, cacheFilename)
    ensures cacheFilename in s.tileCache ==> r == Lookup(Some(s.tileCache[cacheFilename]), s)
    ensures cacheFilename !in s.tileCache && Cached(s, cacheFilename) ==>
      && r.image == Some(s.fileCache[cacheFilename])
      && r.state == s.(tileCache := s.tileCache[cacheFilename := s.fileCache[cacheFilename]])
    ensures !Cached(s, cacheFilename) && onlyGetFromCache ==> r.state == s
    ensures !Cached(s, cacheFilename) && !onlyGetFromCache ==>
      r.state == Retrieve(s, ApplyPassThroughURL(s.passthroughURL, tileUrl, urlEncode), cacheFilename)
    ensures r.state.fileCache == s.fileCache && r.state.listeners == s.listeners
    ensures r.state.useFileCache == s.useFileCache && r.state.passthroughURL == s.passthroughURL
    ensures forall f :: Cached(r.state, f) <==> Cached(s, f)
    ensures Valid(s) ==> Valid(r.state)
  {
    if cacheFilename in s.tileCache then
      Lookup(Some(s.tileCache[cacheFilename]), s)
    else
      var fromDisk := if s.useFileCache && cacheFilename in s.fileCache then Some(s.fileCache[cacheFilename]) else None;
      var s1 := if fromDisk.Some? then s.(tileCache := s.tileCache[cacheFilename := fromDisk.value]) else s;
      if fromDisk.None? && !onlyGetFromCache then
        Lookup(None, Retrieve(s1, ApplyPassThroughURL(s1.passthroughURL, tileUrl, urlEncode), cacheFilename))
      else
        Lookup(fromDisk, s1)
  }

  /** A miss with fetching allowed queues exactly one request, at the head. */
  lemma MissQueuesOneRequest(s: Retriever, tileUrl: string, cacheFilename: string, urlEncode: string -> string)
    requires !Cached(s, cacheFilename) && |s.urls| < MaxQueued
    ensures var r := GetTileImage(s, tileUrl, cacheFilename, false, urlEncode);
      && r.image == None
      && r.state.urls == [TileInfo(ApplyPassThroughURL(s.passthroughURL, tileUrl, urlEncode), cacheFilename)] + s.urls
  {
    var r := GetTileImage(s, tileUrl, cacheFilename, false, urlEncode);
    assert r.state.urls == [r.state.urls[0]] + r.state.urls[1..];
  }

  /** Providers hand over URLs they have already wrapped, and a miss wraps
      them again, so with a pass-through URL set the queued URL is wrapped
      twice. */
  lemma MissWrapsTwice(s: Retriever, url: string, cacheFilename: string, urlEncode: string -> string)
    requires s.passthroughURL.Some? && !Cached(s, cacheFilename)
    ensures var p := s.passthroughURL.value;
      var r := GetTileImage(s, ApplyPassThroughURL(s.passthroughURL, url, urlEncode), cacheFilename, false, urlEncode);
      r.state.urls[0].url == p + "?url=" + urlEncode(p + "?url=" + urlEncode(url))
  {
  }

  /** One iteration of the worker loop in `run`. The head request is taken;
      with the file cache on, a file on disk is read and copied into memory
      (before its width is checked); otherwise `fetch` gives what the URL
      downloads to. An image of positive width is written to disk when the
      file cache is on (`diskWriteOk` says whether that write succeeded), put
      into memory, and every listener is notified. An empty queue leaves the
      worker waiting. */
  function WorkerStep(s: Retriever, fetch: string -> Option<Image>, diskWriteOk: bool): (r: Step)
    ensures |s.urls| == 0 ==> r == Step(s, {})
    ensures |s.urls| > 0 ==> r.state.urls == s.urls[1..]
    ensures r.state.listeners == s.listeners && r.state.useFileCache == s.useFileCache
    ensures r.state.passthroughURL == s.passthroughURL
    ensures Valid(s) ==> Valid(r.state)
    ensures r.notified == {} || r.notified == s.listeners
    ensures |s.urls| > 0 && s.useFileCache && s.urls[0].cacheFilename in s.fileCache ==>
      var f := s.urls[0].cacheFilename;
      var image := s.fileCache[f];
      && r.state.tileCache == s.tileCache[f := image]
      && r.state.fileCache == s.fileCache
      && (image.width > 0 ==> r.notified == s.listeners)
      && (image.width <= 0 ==> r.notified == {})
    ensures |s.urls| > 0 && !(s.useFileCache && s.urls[0].cacheFilename in s.fileCache) ==>
      var t := s.urls[0];
      var image := fetch(t.url);
      && (Usable(image) ==> r.state.tileCache == s.tileCache[t.cacheFilename := image.value]
                            && r.notified == s.listeners)
      && (!Usable(image) ==> r.state.tileCache == s.tileCache && r.notified == {} && r.state.fileCache == s.fileCache)
      && (Usable(image) && s.useFileCache && diskWriteOk ==> r.state.fileCache == s.fileCache[t.cacheFilename := image.value])
      && (!(s.useFileCache && diskWriteOk) ==> r.state.fileCache == s.fileCache)
  {
    if |s.urls| == 0 then Step(s, {})
    else
      var t := s.urls[0];
      var s1 := s.(urls := s.urls[1..]);
      var f := t.cacheFilename;
      var fromDisk := if s.useFileCache && f in s.fileCache then Some(s.fileCache[f]) else None;
      var s2 := if fromDisk.Some? then s1.(tileCache := s1.tileCache[f := fromDisk.value]) else s1;
      var image := if fromDisk.Some? then fromDisk else fetch(t.url);
      if !Usable(image) then Step(s2, {})
      else
        var s3 := if s.useFileCache && diskWriteOk then s2.(fileCache := s2.fileCache[f := image.value]) else s2;
        Step(s3.(tileCache := s3.tileCache[f := image.value]), s.listeners)
  }

  /** The most recently requested tile is the next one served. */
  lemma NewestServedFirst(s: Retriever, url: string, cacheFilename: string,
                          fetch: string -> Option<Image>, diskWriteOk: bool)
    requires !(s.useFileCache && cacheFilename in s.fileCache)
    requires Usable(fetch(url))
    ensures var s1 := Retrieve(s, url, cacheFilename);
      var r := WorkerStep(s1, fetch, diskWriteOk);
      && r.state.urls == s1.urls[1..]
      && r.state.tileCache == s.tileCache[cacheFilename := fetch(url).value]
      && r.notified == s.listeners
  {
  }

  /** Once the worker has stored a tile, a cache-only lookup returns it and
      queues nothing. */
  lemma FetchedTileIsCached(s: Retriever, fetch: string -> Option<Image>, diskWriteOk: bool,
                            tileUrl: string, urlEncode: string -> string)
    requires |s.urls| > 0 && !(s.useFileCache && s.urls[0].cacheFilename in s.fileCache)
    requires Usable(fetch(s.urls[0].url))
    ensures var f := s.urls[0].cacheFilename;
      var r := WorkerStep(s, fetch, diskWriteOk).state;
      GetTileImage(r, tileUrl, f, true, urlEncode) == Lookup(Some(fetch(s.urls[0].url).value), r)
  {
  }

  /** `addSlippyMapListener`. */
  function AddSlippyMapListener(s: Retriever, l: Listener): (r: Retriever)
    ensures r.listeners == s.listeners + {l}
    ensures r == s.(listeners := r.listeners)
  {
    s.(listeners := s.listeners + {l})
  }

  /** `removeSlippyMapListener`; removing an absent listener changes nothing. */
  function RemoveSlippyMapListener(s: Retriever, l: Listener): (r: Retriever)
    ensures r.listeners == s.listeners - {l}
    ensures l !in s.listeners ==> r == s
    ensures r == s.(listeners := r.listeners)
  {
    s.(listeners := s.listeners - {l})
  }

  /** A listener added and then removed again leaves the registry as it was,
      and while registered it hears about every tile the worker stores. */
  lemma ListenerLifecycle(s: Retriever, l: Listener, fetch: string -> Option<Image>, diskWriteOk: bool)
    requires l !in s.listeners
    ensures RemoveSlippyMapListener(AddSlippyMapListener(s, l), l) == s
    ensures var st := WorkerStep(AddSlippyMapListener(s, l), fetch, diskWriteOk);
      st.notified != {} ==> l in st.notified
  {
    assert s.listeners + {l} - {l} == s.listeners;
  }
}
