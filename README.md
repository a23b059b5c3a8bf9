# CachedImageLoader, modelled in Dafny

CachedImageLoader is a Xamarin.Android helper. It loads an image from a URL into an
`ImageView` and keeps two caches: an in-memory dictionary keyed by a hash, and one file per
hash in the application's cache directory. This project models the core of
`CachedImageLoader/CachedImageLoader.cs` and proves properties of that model:

- `sample_size.dfy` (module `Subsampling`): `CalculateInSampleSize`. This is the
  power-of-two subsample factor used when a scaled image is requested. It is a `while`
  loop over C# `int`s, and C#'s truncating division is written out (`TDiv`). The method
  is proved equal to a closed-form reference, `SampleSize`: the largest power of two at most
  `min(height / (reqHeight + 1), width / (reqWidth + 1))`, or 1. Lemmas say what that
  value means, and that it is the only value that means it.
- `hex_digest.dfy` (module `HexDigest`): the hex rendering loop of `GetMD5`. The MD5
  digest is a function parameter (`md5`). `None` stands for `NoSuchAlgorithmException`,
  which makes `GetMD5` return `""`. Java's `Integer.toHexString` is modelled, and so is
  the padding loop that prefixes `'0'`. A parser `ParseHex` is the rendering's inverse.
- `cache_key.dfy` (module `CacheKey`): the string that is hashed,
  `String.Format("{0}{1}{2}", url, scaleWidth, scaleHeight)`. C#'s decimal rendering is
  modelled, with its inverse.
- `image_loader.dfy` (module `ImageLoader`): the two-tier lookup of `LoadInternal`,
  `ClearRAMCache` and the view bookkeeping of `LoadImageFromUrl`.
  - The pure function `Load` gives the new stores and the outcome of one call.
  - The class `CachedImageLoader` holds the state that the source keeps in static fields:
    `_staticRAMCache` as `ramCache`, `_loadedImageViews` as `loadedImageViews`, and the
    cache directory as `cacheDir`, a map from key to file bytes.
  - The class's methods update that state in place, and their postconditions tie the new
    state to `Load`.
  - `Valid()` is preserved. It says the views list has no duplicates and every key in
    memory also has a file.

The platform code that the loader calls is a value of datatype `Platform`:
- the MD5 digest;
- whether `new Uri(url)` accepts the URL;
- `BitmapFactory.DecodeByteArrayAsync`, which yields `None` where Android returns null;
- `Bitmap.CompressAsync`.

The network's answer to the download is a parameter of each call (`Download`). It can be
bytes, a null response, or a `WebException`. A C# `null` option argument is `None`.

What the code does, and the model with it:

- The URL checks come first. A null or empty URL, or one that `new Uri` rejects, returns
  null and touches neither cache.
- The key is the hex MD5 of url, width and height run together. Nothing delimits the three
  fields, so requests collide: the key strings of `(url, a, 10b + c)`, `(url + a, b, c)`
  and `(url, 10a + b, c)` are equal for digits a, b (1-9) and c (0-9), whatever the URL
  (`KeyStringIsAmbiguous`). For example `("http://h/a", 1, 23)` and `("http://h/a1", 2, 3)`
  share a slot. `CollidingRequestsShareSlot` shows that, once the first request has
  returned a bitmap, the second returns that bitmap whenever `new Uri` accepts its URL, and
  `CollidingScalesShareSlot` shows the same for scales `(1, 23)` and `(12, 3)` of one URL.
  A collision needs a digit to move between fields. For one URL, scale pairs whose widths
  have the same length give equal key strings only when they are equal
  (`KeyStringScalesRecoverable`), so `(10, 10)` and `(20, 20)` are told apart.
- The memory tier is checked first, then the file. A file hit is decoded with the caller's
  options, and the result goes into memory even when it is null. Nothing falls back to
  the network on this path. A null decode is not treated as a miss: it stays in memory as
  null until `ClearRAMCache`.
- Otherwise the URL is downloaded. A null or empty response, or a `WebException`, returns
  null and caches nothing.
- Subsampling is computed only on the download path, and only when both scales are
  positive.
- The file is opened with `FileMode.OpenOrCreate` before anything is written. So a
  download that does not decode leaves an empty file behind, and `CompressAsync` on the
  null bitmap then throws. The model's outcome for this is `Faulted`. The next call for
  that key is a file hit on the empty file.
- `CalculateInSampleSize` reads `OutHeight` and `OutWidth` from the options object. No
  bounds-only decode fills those in first. With no options passed, which is how the
  demo app calls the loader (`CachedImageLoaderApp/MainActivity.cs:83`), both are 0.
  The factor is then always at most 1 (`DefaultOptionsNeverSubsample`): the scale values
  change the key, and ask for no subsampling.
- For a 1000x1000 source requested at 12x12, the factor is 64, which gives 15x15
  (`SampleSizeOfDemoRequest`). 32 would give 31x31, and 128 would give 7x7, which is too
  small.
- No disk or decode error is masked, no write is best-effort, and there is no eviction.

## Model

| member | source | states |
|---|---|---|
| `Subsampling.CalculateInSampleSize` | CachedImageLoader/CachedImageLoader.cs:93-115 | The loop's result equals the reference `SampleSize`. It is a power of two and stays below 2^30, so the doubling never overflows an `int`. Positive requested sizes are required, which the only caller guarantees. |
| `Subsampling.FloorPow2` | CachedImageLoader/CachedImageLoader.cs:106-111 | The largest power of two at most n: a power of two r with r <= n < 2r. |
| `Subsampling.SampleSizeCharacterized` | CachedImageLoader/CachedImageLoader.cs:99-114 | The factor is a power of two >= 1. It is exactly 1 when height <= reqHeight and width <= reqWidth. When it is above 1, both truncated height/r and width/r exceed the request. Doubling it once more would not keep both above the request. |
| `Subsampling.SampleSizeUnique` | CachedImageLoader/CachedImageLoader.cs:103-111 | Any power of two that is 1 or keeps both dimensions above the request, and whose double does not, equals `SampleSize`. So the loop finds the largest such factor. |
| `Subsampling.SampleSizeOfDemoRequest` | CachedImageLoader/CachedImageLoader.cs:103-111 | 1000x1000 requested at 12x12 gives factor 64, and 1000/64 = 15. |
| `Subsampling.UnmeasuredSourceIsNotSubsampled` | CachedImageLoader/CachedImageLoader.cs:97-101 | Options reporting 0x0 bounds always give factor 1. |
| `HexDigest.ToHexString` | CachedImageLoader/CachedImageLoader.cs:78 | Integer.toHexString output is non-empty. Its first character is '0' exactly for 0. It has one character exactly below 16. |
| `HexDigest.ToHexStringOfByte` | CachedImageLoader/CachedImageLoader.cs:78-81 | For a byte, toHexString has one or two characters: it is its two-character pair, or the pair's second character when the first is '0'. So padding to two characters gives the pair. |
| `HexDigest.GetMD5` | CachedImageLoader/CachedImageLoader.cs:67-90 | The loop yields the concatenated pairs of the digest's bytes, of length twice the digest's length. It yields "" when MD5 is unavailable. |
| `HexDigest.HexValue` | CachedImageLoader/CachedImageLoader.cs:78 | Reading a hex digit back succeeds exactly on 0-9a-f, and it inverts HexDigit. |
| `HexDigest.HexOfLength` | CachedImageLoader/CachedImageLoader.cs:77-83 | An n-byte digest renders as 2n characters. |
| `HexDigest.HexOfAlphabet` | CachedImageLoader/CachedImageLoader.cs:77-83 | Every character of the rendering is in 0-9a-f. |
| `HexDigest.HexOfPairAt` | CachedImageLoader/CachedImageLoader.cs:77-83 | Characters 2i and 2i+1 of the rendering are exactly the pair of byte i. |
| `HexDigest.ParseHexLastPair` | CachedImageLoader/CachedImageLoader.cs:78-82 | The last two characters of a rendering read back as the last byte. |
| `HexDigest.ParseHexOfHexOf` | CachedImageLoader/CachedImageLoader.cs:77-84 | Parsing the rendering gives back the digest. |
| `HexDigest.HexOfParseHex` | CachedImageLoader/CachedImageLoader.cs:77-84 | Anything the parser accepts is the rendering of what it returns. |
| `HexDigest.HexOfInjective` | CachedImageLoader/CachedImageLoader.cs:77-84 | Distinct digests render to distinct strings. |
| `CacheKey.NatString` | CachedImageLoader/CachedImageLoader.cs:133 | A non-negative int's decimal text is all digits, and starts with '0' only for 0. |
| `CacheKey.DecimalString` | CachedImageLoader/CachedImageLoader.cs:133 | The rendering of a scale value is non-empty, and starts with '-' exactly when the value is negative. `DecimalStringRoundTrip` shows it loses nothing. |
| `CacheKey.DecimalStringRoundTrip` | CachedImageLoader/CachedImageLoader.cs:133 | Each scale value can be read back from its own decimal text. |
| `CacheKey.KeyString` | CachedImageLoader/CachedImageLoader.cs:133 | The key string starts with the URL and is longer than it. |
| `CacheKey.KeyStringInjectiveInUrl` | CachedImageLoader/CachedImageLoader.cs:133 | At a fixed scale, distinct URLs give distinct key strings. |
| `CacheKey.KeyStringScalesRecoverable` | CachedImageLoader/CachedImageLoader.cs:133 | For one URL, two scale pairs whose widths render to the same number of characters give equal key strings only if both widths and both heights are equal. With `KeyStringIsAmbiguous` this is the boundary of the collisions. |
| `CacheKey.KeyStringSeparatesScales` | CachedImageLoader/CachedImageLoader.cs:133 | Scales (10, 10) and (20, 20) of any URL give different key strings. |
| `CacheKey.KeyStringIsAmbiguous` | CachedImageLoader/CachedImageLoader.cs:133 | For all URLs and digits a, b (1-9) and c (0-9): (url, a, bc) == (url+a, b, c) == (url, ab, c) as key strings. A digit moves between fields unnoticed. |
| `CacheKey.KeyStringCollisions` | CachedImageLoader/CachedImageLoader.cs:133 | ("a",1,23) and ("a1",2,3) share a key string. So do scales (1,23) and (12,3) of any URL. |
| `ImageLoader.Load` | CachedImageLoader/CachedImageLoader.cs:117-195 | The new stores and outcome of one call. It has no ensures of its own; its behaviour is stated by the lemmas below, from `RejectedUrlChangesNothing` to `CollidingScalesShareSlot`. |
| `ImageLoader.Accepted` | CachedImageLoader/CachedImageLoader.cs:120-131 | Whether the call gets past the URL checks. No ensures of its own; `RejectedUrlChangesNothing` states its effect. |
| `ImageLoader.RequestKey` | CachedImageLoader/CachedImageLoader.cs:133-134 | The hex MD5 of the key string. No ensures of its own; `GetMD5`, `HexOfInjective` and `CollidingRequestsShareSlot` state what it is and when two requests share it. |
| `ImageLoader.FetchOptions` | CachedImageLoader/CachedImageLoader.cs:164-165 | Keeps the options' bounds. It leaves the options unchanged unless both scales are positive, and then sets a subsample factor that is a power of two, at least 1. |
| `ImageLoader.RejectedUrlChangesNothing` | CachedImageLoader/CachedImageLoader.cs:120-131 | A null, empty or malformed URL returns null, and neither store changes. |
| `ImageLoader.MemoryHit` | CachedImageLoader/CachedImageLoader.cs:143-145 | A memory hit returns the stored value and changes nothing, whatever the disk holds or the network would answer. |
| `ImageLoader.DiskHit` | CachedImageLoader/CachedImageLoader.cs:147-155 | A disk hit sets memory[key] to the file decoded with the caller's options. Disk and other keys are unchanged, and the network is not asked. |
| `ImageLoader.FailedDownloadChangesNothing` | CachedImageLoader/CachedImageLoader.cs:157-189 | A null or empty response, or a WebException, returns null with both stores unchanged. |
| `ImageLoader.SuccessfulDownload` | CachedImageLoader/CachedImageLoader.cs:164-184 | A download that decodes under `FetchOptions` (which sets a factor only when both scales are positive) sets disk[key] to its encoding and memory[key] to the bitmap, and returns it. Every other entry is unchanged. |
| `ImageLoader.UndecodableDownload` | CachedImageLoader/CachedImageLoader.cs:159-178 | The call faults exactly when the URL is accepted, the key misses both stores, and a non-empty download decodes to null. It then leaves an empty file under the key and memory unchanged. |
| `ImageLoader.LoadChangesOnlyItsKey` | CachedImageLoader/CachedImageLoader.cs:143-184 | Only the request's key can change in either store. An existing file is never rewritten or removed. |
| `ImageLoader.LoadKeepsMemoryBackedByDisk` | CachedImageLoader/CachedImageLoader.cs:143-184 | If every memory key has a file before a call, that holds after it too. |
| `ImageLoader.LaterCallsHitMemory` | CachedImageLoader/CachedImageLoader.cs:143-145 | After a call returned a bitmap, any accepted call with the same key returns the same result with no change, whatever its options or download. |
| `ImageLoader.RepeatedCallHitsMemory` | CachedImageLoader/CachedImageLoader.cs:133-145 | After a call returned a bitmap, repeating it with the same (url, width, height) is a memory hit with the same result. |
| `ImageLoader.CollidingRequestsShareSlot` | CachedImageLoader/CachedImageLoader.cs:131-145 | For any URL and digits a, b (1-9), c (0-9): once (url, a, 10b+c) returned a bitmap, the request (url+a, b, c) returns the same bitmap from memory with no change, provided `new Uri` accepts url+a. |
| `ImageLoader.CollidingScalesShareSlot` | CachedImageLoader/CachedImageLoader.cs:133-145 | For any URL and those digits: once (url, a, 10b+c) returned a bitmap, (url, 10a+b, c) returns the same bitmap from memory with no change. |
| `ImageLoader.DefaultOptionsNeverSubsample` | CachedImageLoader/CachedImageLoader.cs:139-141 | With no options object passed, the download is decoded with factor at most 1, whatever the scales. |
| `ImageLoader.RemoveFirst` | CachedImageLoader/CachedImageLoader.cs:203 | List.Remove drops one occurrence of the view: the multiset loses exactly one copy. |
| `ImageLoader.RemoveFirstMembers` | CachedImageLoader/CachedImageLoader.cs:203 | Removing the view never adds an element, and every other view is in the list afterwards exactly when it was before. |
| `ImageLoader.RemoveFirstKeepsNoDuplicates` | CachedImageLoader/CachedImageLoader.cs:202-203 | On a duplicate-free list, removing the view leaves a duplicate-free list without it. |
| `ImageLoader.ViewsAfterLoad` | CachedImageLoader/CachedImageLoader.cs:202-211 | The views list after one LoadImageFromUrl. No ensures of its own; `ViewsAfterLoadSpec` states its properties. |
| `ImageLoader.ViewsAfterLoadSpec` | CachedImageLoader/CachedImageLoader.cs:202-211 | The list stays duplicate-free. It holds the view afterwards exactly when the load returned a non-null bitmap, and every other view's membership is unchanged. |
| `ImageLoader.CachedImageLoader.constructor` | CachedImageLoader/CachedImageLoader.cs:51-54 | Starts with an empty memory cache and views list and the given cache directory, in a valid state. |
| `ImageLoader.CachedImageLoader.ClearRAMCache` | CachedImageLoader/CachedImageLoader.cs:56-60 | Empties the memory cache and the views list and leaves the files alone. |
| `ImageLoader.CachedImageLoader.LoadInternal` | CachedImageLoader/CachedImageLoader.cs:117-195 | The in-place updates of memory and files, and the outcome, are those of `Load`. The views list is unchanged and `Valid()` is kept. |
| `ImageLoader.CachedImageLoader.StoreDownload` | CachedImageLoader/CachedImageLoader.cs:168-184 | The end of the download path updates memory and files, and gives the outcome, as `Load` does for a non-empty download. The views list is unchanged. |
| `ImageLoader.CachedImageLoader.LoadImageFromUrl` | CachedImageLoader/CachedImageLoader.cs:198-215 | The stores change as `Load` says. The views list becomes `ViewsAfterLoad` of the outcome, so the view is listed once when a bitmap came back. `Valid()` is kept. |

## Left out

- `ImageLoader.CachedImageLoader.LoadInternal`: the URL is a parameter. The source keeps it in a `CachedImageLoader` instance (lines 52, 62-65) that exists only to carry it into this call.
- `ImageLoader.CachedImageLoader.LoadInternal`: `BitmapFactory.Options` is a value. So when a caller passes its own options object, the model does not show that object's `InSampleSize` being overwritten (line 165), nor the decoder writing `OutWidth`/`OutHeight` into it (lines 151, 168), and both being reused by the caller's later calls. A later call with that object reads those bounds at lines 97-98, so its factor can exceed 1. `InPurgeable` (line 140) has no effect in the model.
- `CacheKey.DecimalString`: the negative sign is always '-'. `String.Format` uses the current culture's negative sign, which matters for the default scales of -1.
- `Subsampling.CalculateInSampleSize`: positive requested sizes are required, as the only caller (line 164) guarantees. The source method is public; with negative requested sizes its loop (lines 108-110) doubles until the int wraps to 0 and then divides by zero, which the model does not cover.
- `ImageLoader.DefaultOptionsNeverSubsample`: states only that the factor is at most 1. That Android decodes any factor of at most 1, including 0, without subsampling is not part of the `decode` model.
- `ImageLoader.CachedImageLoader.LoadInternal`: file I/O is a map. Failures of `File.Open`, `ReadAsync` (including short reads), `Directory.Create` and `FileStream` are not modelled; in the source their exceptions propagate. When MD5 is unavailable the key is `""` and the source's path is the cache directory itself; the model treats `""` like any other key.
- The semaphore `_loadQueueSemaphore` (lines 49, 200, 207): concurrency gating only. When `LoadInternal` throws, `Release` is skipped and later loads would wait forever; the model only records that the views list is left as it was after the removal.
- async/await scheduling, and interleavings of concurrent loads: the model is sequential.
- `ImageView.SetImageBitmap` (line 210), `Log.Debug`: UI and logging.
- The MD5 digest and `String.GetBytes` (lines 71-73): a library call, given as the parameter `md5`.
- `new Uri` parsing (line 131): given as `isWellFormedUri`.
- `WebClient.DownloadDataTaskAsync` (line 159): network I/O, given as the per-call `Download`. Exceptions other than `WebException` are not modelled.
- Bitmap decoding and encoding (lines 151, 168, 178): platform codec, given as `decode`/`encode`.
- A null URL is modelled as the empty string. Both are rejected by the same check (line 120).
- The unused `_writeQueue` (line 48) and `BitmapOptions` property (line 46), and `BitmapCompressOptions` beyond its two defaults (lines 36-40).
- `CachedImageLoaderApp/MainActivity.cs`: the demo activity. It only calls the loader.
