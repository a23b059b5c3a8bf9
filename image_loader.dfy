/**
 * CachedImageLoader's lookup: an in-memory dictionary from key to bitmap, then a file
 * per key in the cache directory, then the network. `Load` is the effect of one call
 * of LoadInternal on the two stores; the class CachedImageLoader holds the process-wide
 * state the source keeps in static fields and updates it in place.
 */
module ImageLoader {
  import opened Optional
  import opened Subsampling
  import opened HexDigest
  import opened CacheKey

  /** The decode options the source reads and writes (BitmapFactory.Options). */
  datatype DecodeOptions = DecodeOptions(outWidth: Int32, outHeight: Int32, inSampleSize: int)

  /** A freshly constructed options object: no bounds measured, no subsampling asked for. */
  const DefaultDecodeOptions := DecodeOptions(0, 0, 0)

  datatype CompressFormat = Png | Jpeg | Webp

  /** BitmapCompressOptions: the format and quality a bitmap is written to disk with. */
  datatype CompressOptions = CompressOptions(format: CompressFormat, quality: int)

  const DefaultCompressOptions := CompressOptions(Png, 100)

  /**
   * The library code the loader calls and that is not part of this model: MD5 over the
   * key string's bytes, whether `new Uri(url)` accepts the URL, and the bitmap codec.
   * `decode` yields None where BitmapFactory returns null (undecodable bytes).
   */
  datatype Platform<!Bitmap> = Platform(
    md5: string -> Option<seq<Byte>>,
    isWellFormedUri: string -> bool,
    decode: (seq<Byte>, DecodeOptions) -> Option<Bitmap>,
    encode: (Bitmap, CompressOptions) -> seq<Byte>)

  /** What the network answers to the download of the URL, should it be asked. */
  datatype Download = Data(bytes: seq<Byte>) | NullResponse | WebError

  /** One call of LoadInternal: the loader's URL and the call's arguments (None for null). */
  datatype Request = Request(
    url: string,
    options: Option<DecodeOptions>,
    scaleWidth: Int32,
    scaleHeight: Int32,
    compress: Option<CompressOptions>)

  /** How a call ends: with a bitmap or null, or with an exception nobody catches. */
  datatype Outcome<Bitmap> = Returned(bitmap: Option<Bitmap>) | Faulted

  /** The memory tier (key to bitmap, possibly null) and the cache directory (key to file contents). */
  datatype Store<Bitmap> = Store(memory: map<string, Option<Bitmap>>, disk: map<string, seq<Byte>>)

  /** The cache key of a request: the hex MD5 of url, width and height run together. */
  function RequestKey<Bitmap>(p: Platform<Bitmap>, req: Request): string
  {
    Md5Hex(p.md5, KeyString(req.url, req.scaleWidth, req.scaleHeight))
  }

  /** Whether the call gets past the URL checks (not null or empty, and a well-formed URI). */
  predicate Accepted<Bitmap>(p: Platform<Bitmap>, req: Request)
  {
    req.url != "" && p.isWellFormedUri(req.url)
  }

  /** The options a download is decoded with: subsampled only when both scales are positive. */
  function FetchOptions(o: DecodeOptions, scaleWidth: Int32, scaleHeight: Int32): (r: DecodeOptions)
    ensures r.outWidth == o.outWidth && r.outHeight == o.outHeight
    ensures !(scaleWidth > 0 && scaleHeight > 0) ==> r == o
    ensures scaleWidth > 0 && scaleHeight > 0 ==> r.inSampleSize >= 1 && IsPowerOfTwo(r.inSampleSize)
  {
    if scaleWidth > 0 && scaleHeight > 0
    then o.(inSampleSize := SampleSize(o.outHeight, o.outWidth, scaleWidth, scaleHeight))
    else o
  }

  /** The new stores and the outcome of one LoadInternal call. */
  function Load<Bitmap>(p: Platform<Bitmap>, st: Store<Bitmap>, req: Request, download: Download)
    : (Store<Bitmap>, Outcome<Bitmap>)
  {
    if !Accepted(p, req) then (st, Returned(None))
    else
      var key := RequestKey(p, req);
      var options := req.options.GetOr(DefaultDecodeOptions);
      if key in st.memory then (st, Returned(st.memory[key]))
      else if key in st.disk then
        var bmp := p.decode(st.disk[key], options);
        (st.(memory := st.memory[key := bmp]), Returned(bmp))
      else if !download.Data? || |download.bytes| == 0 then (st, Returned(None))
      else
        var bmp := p.decode(download.bytes, FetchOptions(options, req.scaleWidth, req.scaleHeight));
        match bmp
        // the file is created before the null bitmap is compressed into it
        case None => (st.(disk := st.disk[key := []]), Faulted)
        case Some(b) =>
          var file := p.encode(b, req.compress.GetOr(DefaultCompressOptions));
          (Store(st.memory[key := bmp], st.disk[key := file]), Returned(bmp))
  }

  /** Every bitmap held in memory came from a file that is still in the cache directory. */
  ghost predicate MemoryBackedByDisk<Bitmap>(st: Store<Bitmap>)
  {
    st.memory.Keys <= st.disk.Keys
  }

  /** A null, empty or malformed URL returns null and leaves both stores as they were. */
  lemma RejectedUrlChangesNothing<Bitmap>(p: Platform<Bitmap>, st: Store<Bitmap>, req: Request, download: Download)
    requires req.url == "" || !p.isWellFormedUri(req.url)
    ensures Load(p, st, req, download) == (st, Returned(None))
  {
  }

  /** A memory hit returns the stored bitmap, whatever the network or the disk would give. */
  lemma MemoryHit<Bitmap>(p: Platform<Bitmap>, st: Store<Bitmap>, req: Request, download: Download)
    requires Accepted(p, req) && RequestKey(p, req) in st.memory
    ensures Load(p, st, req, download) == (st, Returned(st.memory[RequestKey(p, req)]))
  {
  }

  /**
   * A disk hit decodes the file with the caller's options (no subsampling is computed on
   * this path), puts the result in memory and leaves the disk alone; the network is not asked.
   */
  lemma DiskHit<Bitmap>(p: Platform<Bitmap>, st: Store<Bitmap>, req: Request, download: Download)
    requires Accepted(p, req)
    requires RequestKey(p, req) !in st.memory && RequestKey(p, req) in st.disk
    ensures var key := RequestKey(p, req);
      var bmp := p.decode(st.disk[key], req.options.GetOr(DefaultDecodeOptions));
      Load(p, st, req, download) == (Store(st.memory[key := bmp], st.disk), Returned(bmp))
  {
  }

  /** A null or empty response, or a WebException, returns null and caches nothing. */
  lemma FailedDownloadChangesNothing<Bitmap>(p: Platform<Bitmap>, st: Store<Bitmap>, req: Request, download: Download)
    requires Accepted(p, req)
    requires RequestKey(p, req) !in st.memory && RequestKey(p, req) !in st.disk
    requires download == NullResponse || download == WebError || download == Data([])
    ensures Load(p, st, req, download) == (st, Returned(None))
  {
  }

  /**
   * A download that decodes is written to disk, re-encoded with the compress options,
   * and then put in memory; no other entry of either store changes.
   */
  lemma SuccessfulDownload<Bitmap>(p: Platform<Bitmap>, st: Store<Bitmap>, req: Request, bytes: seq<Byte>, b: Bitmap)
    requires Accepted(p, req)
    requires RequestKey(p, req) !in st.memory && RequestKey(p, req) !in st.disk
    requires |bytes| > 0
    requires p.decode(bytes, FetchOptions(req.options.GetOr(DefaultDecodeOptions), req.scaleWidth, req.scaleHeight)) == Some(b)
    ensures var key := RequestKey(p, req);
      var file := p.encode(b, req.compress.GetOr(DefaultCompressOptions));
      Load(p, st, req, Data(bytes)) == (Store(st.memory[key := Some(b)], st.disk[key := file]), Returned(Some(b)))
  {
  }

  /**
   * A call faults exactly when the URL is accepted, the key misses both stores, and a
   * non-empty download does not decode. It then leaves an empty file under its key and
   * memory is untouched, so the next call for the key is a disk hit on that empty file.
   */
  lemma UndecodableDownload<Bitmap>(p: Platform<Bitmap>, st: Store<Bitmap>, req: Request, download: Download)
    ensures var key := RequestKey(p, req);
      Load(p, st, req, download).1 == Faulted
      <==> && Accepted(p, req) && key !in st.memory && key !in st.disk
           && download.Data? && |download.bytes| > 0
           && p.decode(download.bytes, FetchOptions(req.options.GetOr(DefaultDecodeOptions), req.scaleWidth, req.scaleHeight)).None?
    ensures Load(p, st, req, download).1 == Faulted
      ==> Load(p, st, req, download).0 == st.(disk := st.disk[RequestKey(p, req) := []])
  {
  }

  /**
   * Only the request's own key can change, in either store, and an existing file is
   * never rewritten.
   */
  lemma LoadChangesOnlyItsKey<Bitmap>(p: Platform<Bitmap>, st: Store<Bitmap>, req: Request, download: Download)
    ensures var st' := Load(p, st, req, download).0;
      var key := RequestKey(p, req);
      && st'.memory - {key} == st.memory - {key}
      && st'.disk - {key} == st.disk - {key}
      && st.disk.Keys <= st'.disk.Keys
      && (forall k | k in st.disk :: st'.disk[k] == st.disk[k])
  {
    var st' := Load(p, st, req, download).0;
    var key := RequestKey(p, req);
    if Accepted(p, req) && key !in st.memory {
      assert st'.memory == st.memory || st'.memory == st.memory[key := st'.memory[key]];
      assert st'.disk == st.disk || (key !in st.disk && st'.disk == st.disk[key := st'.disk[key]]);
    }
  }

  /** Memory only gains keys whose file exists, so every memory entry stays backed by a file. */
  lemma LoadKeepsMemoryBackedByDisk<Bitmap>(p: Platform<Bitmap>, st: Store<Bitmap>, req: Request, download: Download)
    requires MemoryBackedByDisk(st)
    ensures MemoryBackedByDisk(Load(p, st, req, download).0)
  {
  }

  /**
   * Once a call has returned a bitmap, every later call whose key is the same is a memory
   * hit that returns that bitmap, whatever its options or the network say.
   */
  lemma LaterCallsHitMemory<Bitmap>(p: Platform<Bitmap>, st: Store<Bitmap>, req: Request, download: Download,
                                    req2: Request, download2: Download)
    requires Load(p, st, req, download).1.Returned? && Load(p, st, req, download).1.bitmap.Some?
    requires Accepted(p, req2) && RequestKey(p, req2) == RequestKey(p, req)
    ensures Load(p, Load(p, st, req, download).0, req2, download2) == Load(p, st, req, download)
  {
    var (st', out) := Load(p, st, req, download);
    var key := RequestKey(p, req);
    assert Accepted(p, req);
    assert key in st'.memory && st'.memory[key] == out.bitmap;
  }

  /** Repeating a call that returned a bitmap (same URL and scale) is a memory hit with the same result. */
  lemma RepeatedCallHitsMemory<Bitmap>(p: Platform<Bitmap>, st: Store<Bitmap>, req: Request, download: Download,
                                       options2: Option<DecodeOptions>, compress2: Option<CompressOptions>, download2: Download)
    requires Load(p, st, req, download).1.Returned? && Load(p, st, req, download).1.bitmap.Some?
    ensures var req2 := req.(options := options2, compress := compress2);
      Load(p, Load(p, st, req, download).0, req2, download2) == Load(p, st, req, download)
  {
    var req2 := req.(options := options2, compress := compress2);
    assert Accepted(p, req);
    LaterCallsHitMemory(p, st, req, download, req2, download2);
  }

  /**
   * Because the key string has no delimiter, requests collide: once (url, a, 10b + c)
   * has returned a bitmap, the request (url + a, b, c) returns that same bitmap, if
   * `new Uri` accepts its URL.
   */
  lemma CollidingRequestsShareSlot<Bitmap>(p: Platform<Bitmap>, st: Store<Bitmap>, url: string, a: int, b: int, c: int,
                                           o: Option<DecodeOptions>, cmp: Option<CompressOptions>,
                                           download: Download, download2: Download)
    requires 1 <= a <= 9 && 1 <= b <= 9 && 0 <= c <= 9
    requires p.isWellFormedUri(url + [DigitChar(a)])
    requires var req := Request(url, o, a, 10 * b + c, cmp);
      Load(p, st, req, download).1.Returned? && Load(p, st, req, download).1.bitmap.Some?
    ensures var req := Request(url, o, a, 10 * b + c, cmp);
      Load(p, Load(p, st, req, download).0, Request(url + [DigitChar(a)], o, b, c, cmp), download2)
      == Load(p, st, req, download)
  {
    var req := Request(url, o, a, 10 * b + c, cmp);
    var req2 := Request(url + [DigitChar(a)], o, b, c, cmp);
    KeyStringIsAmbiguous(url, a, b, c);
    assert RequestKey(p, req2) == RequestKey(p, req);
    assert Accepted(p, req2);
    LaterCallsHitMemory(p, st, req, download, req2, download2);
  }

  /** Likewise for one URL: once (url, a, 10b + c) has returned a bitmap, (url, 10a + b, c) returns it too. */
  lemma CollidingScalesShareSlot<Bitmap>(p: Platform<Bitmap>, st: Store<Bitmap>, url: string, a: int, b: int, c: int,
                                         o: Option<DecodeOptions>, cmp: Option<CompressOptions>,
                                         download: Download, download2: Download)
    requires 1 <= a <= 9 && 1 <= b <= 9 && 0 <= c <= 9
    requires var req := Request(url, o, a, 10 * b + c, cmp);
      Load(p, st, req, download).1.Returned? && Load(p, st, req, download).1.bitmap.Some?
    ensures var req := Request(url, o, a, 10 * b + c, cmp);
      Load(p, Load(p, st, req, download).0, Request(url, o, 10 * a + b, c, cmp), download2)
      == Load(p, st, req, download)
  {
    var req := Request(url, o, a, 10 * b + c, cmp);
    var req2 := Request(url, o, 10 * a + b, c, cmp);
    KeyStringIsAmbiguous(url, a, b, c);
    assert RequestKey(p, req2) == RequestKey(p, req);
    assert Accepted(p, req);
    LaterCallsHitMemory(p, st, req, download, req2, download2);
  }

  /**
   * With no options object passed (as the demo app calls it), the options carry no
   * measured bounds, so the factor a download is decoded with is at most 1, whatever
   * the scale values.
   */
  lemma DefaultOptionsNeverSubsample(scaleWidth: Int32, scaleHeight: Int32)
    ensures FetchOptions(DefaultDecodeOptions, scaleWidth, scaleHeight).inSampleSize <= 1
  {
    if scaleWidth > 0 && scaleHeight > 0 {
      UnmeasuredSourceIsNotSubsampled(scaleWidth, scaleHeight);
    }
  }

  /** No element occurs twice. */
  ghost predicate NoDuplicates<T>(s: seq<T>)
  {
    |s| == 0 || (s[0] !in s[1..] && NoDuplicates(s[1..]))
  }

  /** List.Remove: drops the first occurrence of `x`, if any. */
  function RemoveFirst<T(==)>(s: seq<T>, x: T): (r: seq<T>)
    ensures multiset(r) == multiset(s) - multiset{x}
  {
    assert |s| > 0 ==> s == [s[0]] + s[1..];
    if |s| == 0 then []
    else if s[0] == x then s[1..]
    else [s[0]] + RemoveFirst(s[1..], x)
  }

  /** The loaded-views list after LoadImageFromUrl for `view` ended with `outcome`. */
  function ViewsAfterLoad<T(==), Bitmap>(views: seq<T>, view: T, outcome: Outcome<Bitmap>): seq<T>
  {
    var rest := if view in views then RemoveFirst(views, view) else views;
    if outcome.Returned? && outcome.bitmap.Some? && view !in rest then rest + [view] else rest
  }

  /** Removing `x` keeps every other element's membership. */
  lemma {:induction false} RemoveFirstMembers<T>(s: seq<T>, x: T, y: T)
    ensures y in RemoveFirst(s, x) ==> y in s
    ensures y != x ==> (y in RemoveFirst(s, x) <==> y in s)
  {
    if |s| > 0 && s[0] != x {
      RemoveFirstMembers(s[1..], x, y);
      assert RemoveFirst(s, x) == [s[0]] + RemoveFirst(s[1..], x);
      assert s == [s[0]] + s[1..];
    }
  }

  lemma {:induction false} RemoveFirstKeepsNoDuplicates<T>(s: seq<T>, x: T)
    requires NoDuplicates(s)
    ensures NoDuplicates(RemoveFirst(s, x)) && x !in RemoveFirst(s, x)
  {
    if |s| > 0 && s[0] != x {
      RemoveFirstKeepsNoDuplicates(s[1..], x);
      RemoveFirstMembers(s[1..], x, s[0]);
      var r := RemoveFirst(s, x);
      assert r[0] == s[0] && r[1..] == RemoveFirst(s[1..], x);
    }
  }

  lemma {:induction false} AppendFreshKeepsNoDuplicates<T>(s: seq<T>, x: T)
    requires NoDuplicates(s) && x !in s
    ensures NoDuplicates(s + [x])
  {
    if |s| > 0 {
      AppendFreshKeepsNoDuplicates(s[1..], x);
      var t := s + [x];
      assert t[0] == s[0] && t[1..] == s[1..] + [x];
    }
  }

  /**
   * The bookkeeping keeps the list free of duplicates; afterwards `view` is listed
   * exactly when the load returned a bitmap, and every other view keeps its place in
   * or out of the list.
   */
  lemma ViewsAfterLoadSpec<T, Bitmap>(views: seq<T>, view: T, outcome: Outcome<Bitmap>)
    requires NoDuplicates(views)
    ensures var views' := ViewsAfterLoad(views, view, outcome);
      && NoDuplicates(views')
      && (view in views' <==> outcome.Returned? && outcome.bitmap.Some?)
      && (forall u | u != view :: u in views' <==> u in views)
  {
    var rest := if view in views then RemoveFirst(views, view) else views;
    RestAfterRemove(views, view);
    var views' := ViewsAfterLoad(views, view, outcome);
    if outcome.Returned? && outcome.bitmap.Some? {
      AppendFreshKeepsNoDuplicates(rest, view);
      assert views' == rest + [view];
      forall u | u != view ensures u in views' <==> u in rest {
        assert u in rest + [view] <==> u in rest;
      }
    } else {
      assert views' == rest;
    }
  }

  /** The first half of the bookkeeping: `view` is taken out and nothing else is. */
  lemma RestAfterRemove<T>(views: seq<T>, view: T)
    requires NoDuplicates(views)
    ensures var rest := if view in views then RemoveFirst(views, view) else views;
      && NoDuplicates(rest) && view !in rest
      && (forall u | u != view :: u in rest <==> u in views)
  {
    RemoveFirstKeepsNoDuplicates(views, view);
    forall u | u != view
      ensures u in RemoveFirst(views, view) <==> u in views
    {
      RemoveFirstMembers(views, view, u);
    }
  }

  /**
   * The state shared by every load: the static memory cache and loaded-views list, and
   * the files of the cache directory.
   */
  class CachedImageLoader<Bitmap, View(==)> {
    const platform: Platform<Bitmap>
    var ramCache: map<string, Option<Bitmap>>
    var cacheDir: map<string, seq<Byte>>
    var loadedImageViews: seq<View>

    ghost predicate Valid()
      reads this
    {
      NoDuplicates(loadedImageViews) && MemoryBackedByDisk(Store(ramCache, cacheDir))
    }

    /** A process start: empty memory and views list, and whatever files the directory holds. */
    constructor(platform: Platform<Bitmap>, files: map<string, seq<Byte>>)
      ensures Valid()
      ensures this.platform == platform && cacheDir == files
      ensures ramCache == map[] && loadedImageViews == []
    {
      this.platform := platform;
      ramCache := map[];
      cacheDir := files;
      loadedImageViews := [];
    }

    /** ClearRAMCache: forgets every bitmap in memory and every loaded view; the files stay. */
    method ClearRAMCache()
      modifies this
      ensures Valid()
      ensures ramCache == map[] && loadedImageViews == [] && cacheDir == old(cacheDir)
    {
      ramCache := map[];
      loadedImageViews := [];
    }

    /** LoadInternal for the loader of `url`. */
    method LoadInternal(url: string, options: Option<DecodeOptions>, scaleWidth: Int32, scaleHeight: Int32,
                        compressOptions: Option<CompressOptions>, download: Download)
      returns (outcome: Outcome<Bitmap>)
      requires Valid()
      modifies this
      ensures Valid()
      ensures (Store(ramCache, cacheDir), outcome)
           == Load(platform, old(Store(ramCache, cacheDir)), Request(url, options, scaleWidth, scaleHeight, compressOptions), download)
      ensures loadedImageViews == old(loadedImageViews)
    {
      ghost var req := Request(url, options, scaleWidth, scaleHeight, compressOptions);
      ghost var st := Store(ramCache, cacheDir);
      LoadKeepsMemoryBackedByDisk(platform, st, req, download);
      if url == "" {
        return Returned(None);
      }
      if !platform.isWellFormedUri(url) {
        // UriFormatException
        return Returned(None);
      }
      var stringme := KeyString(url, scaleWidth, scaleHeight);
      var urlHash := GetMD5(platform.md5, stringme);
      assert Accepted(platform, req) && urlHash == RequestKey(platform, req);
      var o := options.GetOr(DefaultDecodeOptions);
      var compress := compressOptions.GetOr(DefaultCompressOptions);
      if urlHash in ramCache {
        MemoryHit(platform, st, req, download);
        return Returned(ramCache[urlHash]);
      }
      if urlHash in cacheDir {
        DiskHit(platform, st, req, download);
        var bmp := platform.decode(cacheDir[urlHash], o);
        ramCache := ramCache[urlHash := bmp];
        return Returned(bmp);
      }
      match download {
        case NullResponse =>
          FailedDownloadChangesNothing(platform, st, req, download);
          return Returned(None);
        case WebError =>
          FailedDownloadChangesNothing(platform, st, req, download);
          return Returned(None);
        case Data(response) =>
          if |response| == 0 {
            FailedDownloadChangesNothing(platform, st, req, download);
            return Returned(None);
          }
          if scaleWidth > 0 && scaleHeight > 0 {
            var inSampleSize := CalculateInSampleSize(o.outHeight, o.outWidth, scaleWidth, scaleHeight);
            o := o.(inSampleSize := inSampleSize);
          }
          assert o == FetchOptions(options.GetOr(DefaultDecodeOptions), scaleWidth, scaleHeight);
          outcome := StoreDownload(req, urlHash, response, o, compress);
      }
    }

    /** The end of the download path: decode, create the file, write the bitmap, then cache it in memory. */
    method StoreDownload(ghost req: Request, urlHash: string, response: seq<Byte>, o: DecodeOptions, compress: CompressOptions)
      returns (outcome: Outcome<Bitmap>)
      requires Accepted(platform, req) && urlHash == RequestKey(platform, req)
      requires urlHash !in ramCache && urlHash !in cacheDir && |response| > 0
      requires o == FetchOptions(req.options.GetOr(DefaultDecodeOptions), req.scaleWidth, req.scaleHeight)
      requires compress == req.compress.GetOr(DefaultCompressOptions)
      modifies this
      ensures (Store(ramCache, cacheDir), outcome) == Load(platform, old(Store(ramCache, cacheDir)), req, Data(response))
      ensures loadedImageViews == old(loadedImageViews)
    {
      ghost var st := Store(ramCache, cacheDir);
      var bmp := platform.decode(response, o);
      // FileMode.OpenOrCreate creates the file before anything is written to it
      cacheDir := cacheDir[urlHash := []];
      if bmp.None? {
        // bmp.CompressAsync on a null bitmap throws NullReferenceException
        UndecodableDownload(platform, st, req, Data(response));
        return Faulted;
      }
      cacheDir := cacheDir[urlHash := platform.encode(bmp.value, compress)];
      ramCache := ramCache[urlHash := bmp];
      SuccessfulDownload(platform, st, req, response, bmp.value);
      assert cacheDir == st.disk[urlHash := platform.encode(bmp.value, compress)];
      return Returned(bmp);
    }

    /**
     * LoadImageFromUrl: the view leaves the loaded list, the image is loaded, and the
     * view is listed again if a bitmap came back. An exception from the load ends the
     * call before the list is touched again.
     */
    method LoadImageFromUrl(view: View, url: string, options: Option<DecodeOptions>, scaleWidth: Int32, scaleHeight: Int32,
                            compressOptions: Option<CompressOptions>, download: Download)
      requires Valid()
      modifies this
      ensures Valid()
      ensures var (st, outcome) := Load(platform, old(Store(ramCache, cacheDir)),
                                        Request(url, options, scaleWidth, scaleHeight, compressOptions), download);
        && Store(ramCache, cacheDir) == st
        && loadedImageViews == ViewsAfterLoad(old(loadedImageViews), view, outcome)
    {
      ghost var views := loadedImageViews;
      if view in loadedImageViews {
        RemoveFirstKeepsNoDuplicates(loadedImageViews, view);
        loadedImageViews := RemoveFirst(loadedImageViews, view);
      }
      ghost var removed := loadedImageViews;
      var outcome := LoadInternal(url, options, scaleWidth, scaleHeight, compressOptions, download);
      assert loadedImageViews == removed;
      if outcome.Returned? && outcome.bitmap.Some? && view !in loadedImageViews {
        loadedImageViews := loadedImageViews + [view];
      }
      ViewsAfterLoadSpec(views, view, outcome);
    }
  }
}
