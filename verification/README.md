# PhotoWall cache: a Dafny model

This project models the two-tier object cache of the PhotoWall Android app,
the classes under `app/src/main/java/com/github/jeterlee/photowall/cache/`.

- **`DiskCacheHelper`** stores strings in a `DiskLruCache`. Each stored string
  gets an expiry suffix `@createTime{<millis>}expireMills{<millis>}@`.
  On a read the suffix is parsed and checked against the clock, and an
  expired or unstamped entry is deleted.
- **`DiskCacheManager`** is the disk tier. It stores text, JSON, bytes,
  bitmaps, drawables and serialisable objects as bytes under the MD5 of the key.
- **`MemoryCacheManager`** is the memory tier, an `LruCache` whose capacity is
  given in entries.
- **`CacheManager`** coordinates the tiers under one of three modes:
  `ALL_ALLOW`, `ONLY_MEMORY` and `ONLY_DISK`.

The model is made of pure functions over immutable data:

- `Common`: Java `int`/`long` ranges, two's-complement wrap-around, and
  truncating division.
- `Decimal`: `String.valueOf(long)` and `Long.parseLong`.
- `KeyCodec`: the cache-key hash. It uses the MD5 service when one is
  present, and falls back to `String.hashCode` otherwise.
- `ExpirySuffix`: the suffix writer. Also the reader, which runs the regular
  expression's `find` loop (last match wins) and then cuts the value at the
  first tag.
- `KeyedStore`: `DiskLruCache` seen as a map from entry ids to values. It also
  records which entries have an editor open.
- `DiskBudget`: the disk budget computed from the volume size.
- `Values`: the value kinds, and the platform encoders that the caller
  supplies.
- `DiskCacheHelper`, `DiskCacheManager`, `MemoryCacheManager`,
  `CacheManager`: the four classes.

Effects the Java code gets from its environment come in as parameters:

- the clock (`now`);
- I/O failures (`readFails`, `ioFails`, `WriteFault`, `PutFaults`);
- the heap limit;
- the file system (a function from locations to directories);
- the platform codecs (`Values.Platform`).

Where a Java call throws past its caller, the model returns an explicit
outcome: `Crashed`, `OpenFailed` or `NotADirectory`.

Some properties need a codec to be faithful. The lemmas that rely on this take
it as a hypothesis, e.g. that Java serialisation reads back what it wrote.

## Model

| member | source | states |
|---|---|---|
| Decimal.ToDecimal | app/src/main/java/com/github/jeterlee/photowall/cache/DiskCacheHelper.java:99-103 | `"" + long` renders a number as text: digits only for non-negative numbers, a '-' followed by digits otherwise |
| Decimal.ParseLong | app/src/main/java/com/github/jeterlee/photowall/cache/DiskCacheHelper.java:144-147 | `Long.parseLong` accepts an optional sign and digits inside the `long` range; for plain digits it succeeds exactly when the value fits, and returns that value |
| Decimal.DecimalRoundTrip | app/src/main/java/com/github/jeterlee/photowall/cache/DiskCacheHelper.java:144-147 | every `long` written into a stamp is parsed back by the read loop as the same number |
| Decimal.ToDecimalInjective | app/src/main/java/com/github/jeterlee/photowall/cache/DiskCacheHelper.java:99-103 | distinct timestamps are written as distinct texts |
| KeyCodec.JavaHashCode | app/src/main/java/com/github/jeterlee/photowall/cache/DiskCacheHelper.java:329 | `String.hashCode` always lies in the `int` range and is 0 for the empty key |
| KeyCodec.HashKeyForDisk | app/src/main/java/com/github/jeterlee/photowall/cache/DiskCacheHelper.java:322-332 | the entry id is the MD5 hex text when MD5 is available, otherwise a decimal text that parses back to the key's `hashCode` |
| KeyCodec.FallbackCollidesIffHashCodesEqual | app/src/main/java/com/github/jeterlee/photowall/cache/DiskCacheManager.java:607-617 | without MD5 two keys share an entry exactly when their hash codes are equal (both directions) |
| ExpirySuffix.Stamp | app/src/main/java/com/github/jeterlee/photowall/cache/DiskCacheHelper.java:99-104 | stored content starts with the value and has the `@createTime` tag right after it |
| ExpirySuffix.IndexOf | app/src/main/java/com/github/jeterlee/photowall/cache/DiskCacheHelper.java:148 | `indexOf` gives the first position of the tag, or -1 exactly when the tag occurs nowhere |
| ExpirySuffix.MatchAt | app/src/main/java/com/github/jeterlee/photowall/cache/DiskCacheHelper.java:38 | a pattern match found at a position starts there, begins with `@createTime{`, and its groups and closing literal fit inside the content |
| ExpirySuffix.MatchShape | app/src/main/java/com/github/jeterlee/photowall/cache/DiskCacheHelper.java:38 | everything the pattern matches is `@createTime{`, a non-empty run of digits, `}expireMills{`, an optional '-' followed by digits, and `}@` |
| ExpirySuffix.MatchFromPieces | app/src/main/java/com/github/jeterlee/photowall/cache/DiskCacheHelper.java:38 | conversely, wherever those five pieces follow each other the pattern matches there: the creation group ends after the creation digits and the match ends right after `}@` |
| ExpirySuffix.FindFrom | app/src/main/java/com/github/jeterlee/photowall/cache/DiskCacheHelper.java:144 | `find` returns the leftmost match at or after the resume position; no match starts before it, and none at all when it returns nothing |
| ExpirySuffix.Scan | app/src/main/java/com/github/jeterlee/photowall/cache/DiskCacheHelper.java:142-147 | with no match the loop leaves the timestamps at their initial values |
| ExpirySuffix.ScanAtMatch | app/src/main/java/com/github/jeterlee/photowall/cache/DiskCacheHelper.java:144-147 | at a match whose groups are the decimal texts of two `long`s the loop adopts both numbers and resumes after the match |
| ExpirySuffix.ScanSkips | app/src/main/java/com/github/jeterlee/photowall/cache/DiskCacheHelper.java:144 | positions where no match starts do not change what the loop ends with |
| ExpirySuffix.FreshIsCutPrefix | app/src/main/java/com/github/jeterlee/photowall/cache/DiskCacheHelper.java:142-155 | a fresh read returns a proper prefix of the content, cut where the first tag starts, and the returned value contains no tag |
| ExpirySuffix.StampRoundTrip | app/src/main/java/com/github/jeterlee/photowall/cache/DiskCacheHelper.java:148-152 | a value without the tag, stamped with a non-negative time, reads back unchanged while `createTime + expireMills > now` or `expireMills == -1`; the boundary `== now` is expired |
| ExpirySuffix.OverflowingLifetimeExpires | app/src/main/java/com/github/jeterlee/photowall/cache/DiskCacheHelper.java:150 | when `createTime + expireMills` overflows a `long` the wrapped sum is negative and the entry reads as expired |
| ExpirySuffix.LastStampWinsFirstTagCuts | app/src/main/java/com/github/jeterlee/photowall/cache/DiskCacheHelper.java:144-152 | for a value stamped twice the timestamps of the last stamp decide freshness, while the value is cut at the first tag |
| ExpirySuffix.UnstampedContentExpires | app/src/main/java/com/github/jeterlee/photowall/cache/DiskCacheHelper.java:142-155 | content with no well-formed stamp keeps both timestamps at 0 and is expired at any non-negative time |
| DiskBudget.CalculateDiskCacheSize | app/src/main/java/com/github/jeterlee/photowall/cache/DiskCacheHelper.java:277-290 | the budget always lies in [5 MiB, 20 MiB], and is 5 MiB when the volume query fails |
| DiskBudget.BudgetIsFiftiethOfVolume | app/src/main/java/com/github/jeterlee/photowall/cache/DiskCacheManager.java:528-541 | between the bounds the budget is exactly a fiftieth of the volume size; below it is 5 MiB, above it 20 MiB |
| DiskCacheHelper.New | app/src/main/java/com/github/jeterlee/photowall/cache/DiskCacheHelper.java:56 | a new helper never expires entries (`cacheTime` -1) until told otherwise |
| DiskCacheHelper.SetCacheTime | app/src/main/java/com/github/jeterlee/photowall/cache/DiskCacheHelper.java:83-86 | only the time-to-live of later writes changes; stored entries do not |
| DiskCacheHelper.Get | app/src/main/java/com/github/jeterlee/photowall/cache/DiskCacheHelper.java:133-163 | a missing entry or a failed read gives null and changes nothing; a returned value is the stored content cut at its first tag; the only possible change is deleting the entry, and only on a null read |
| DiskCacheHelper.Put | app/src/main/java/com/github/jeterlee/photowall/cache/DiskCacheHelper.java:88-109 | an empty key or value changes nothing; otherwise the write crashes exactly when the entry has an editor open and neither `remove` nor `edit` threw before; without faults it stores value + stamp(now, cacheTime) under the hashed key; a failed `set` leaves an editor open; a failed `remove` or `edit` keeps or drops the old entry but writes nothing; no entry other than hash(key) and hash(hash(key)) changes |
| DiskCacheHelper.Probe | app/src/main/java/com/github/jeterlee/photowall/cache/DiskCacheHelper.java:95-96 | the pre-check throws exactly when the probe finds a non-empty value and `remove` fails; it changes no entry other than hash(key) and hash(hash(key)), never adds or alters hash(key), and opens no editor |
| DiskCacheHelper.Write | app/src/main/java/com/github/jeterlee/photowall/cache/DiskCacheHelper.java:98-104 | `edit` yields null (and `set` crashes) exactly when an editor is open; otherwise the content replaces the entry, or a failed `set` leaves the entries alone with the editor open |
| DiskCacheHelper.PutObject | app/src/main/java/com/github/jeterlee/photowall/cache/DiskCacheHelper.java:111-116 | only a bitmap is stored (as Base64 of its PNG); any other object is ignored |
| DiskCacheHelper.Remove | app/src/main/java/com/github/jeterlee/photowall/cache/DiskCacheHelper.java:188-197 | reports whether the hashed entry existed and removes exactly that entry, keeping every other value and the open editors; a failure answers false and changes nothing |
| DiskCacheHelper.Contains | app/src/main/java/com/github/jeterlee/photowall/cache/DiskCacheHelper.java:199-209 | true exactly when the lookup succeeds and the store has an entry for the hashed key, regardless of its stamp |
| DiskCacheHelper.PutThenGet | app/src/main/java/com/github/jeterlee/photowall/cache/DiskCacheHelper.java:88-163 | a value without the tag, written at time `now`, reads back while `now + cacheTime` lies after the read time or never expires; otherwise it reads as null and the read deletes it |
| DiskCacheHelper.PutStoresStamp | app/src/main/java/com/github/jeterlee/photowall/cache/DiskCacheHelper.java:93-104 | a write without faults to an entry with no editor open returns normally and stores the stamped value under the hashed key |
| DiskCacheHelper.DefaultNeverExpires | app/src/main/java/com/github/jeterlee/photowall/cache/DiskCacheHelper.java:54-57 | with the default time-to-live a written value reads back at any later time |
| DiskCacheHelper.UnstampedEntryIsDeleted | app/src/main/java/com/github/jeterlee/photowall/cache/DiskCacheHelper.java:142-155 | a non-empty entry without a well-formed stamp reads as null and is deleted |
| DiskCacheHelper.ContainsIgnoresExpiry | app/src/main/java/com/github/jeterlee/photowall/cache/DiskCacheHelper.java:199-209 | right after a write with time-to-live 0, `contains` is true while `get` is null |
| DiskCacheHelper.PutProbesTwiceHashedKey | app/src/main/java/com/github/jeterlee/photowall/cache/DiskCacheHelper.java:93-98 | the pre-check reads hash(hash(key)): writing `key` deletes a different, unstamped entry stored under that id |
| DiskCacheHelper.RemoveThenAbsent | app/src/main/java/com/github/jeterlee/photowall/cache/DiskCacheHelper.java:133-209 | after a successful `remove` the key is not contained and reads as null, while every key with another entry id reads and is contained as before |
| DiskCacheManager.Editor | app/src/main/java/com/github/jeterlee/photowall/cache/DiskCacheManager.java:471-485 | an editor is obtained exactly when the hashed entry has no editor open and `edit` does not fail; it opens an editor and leaves the entries alone |
| DiskCacheManager.Write | app/src/main/java/com/github/jeterlee/photowall/cache/DiskCacheManager.java:115-145 | only a successful write through an obtained editor changes the hashed entry; a failed or unencodable write keeps the old entry; no editor stays open |
| DiskCacheManager.PutString | app/src/main/java/com/github/jeterlee/photowall/cache/DiskCacheManager.java:115-145 | the hashed entry becomes the encoded text when the write goes through, and nothing else changes |
| DiskCacheManager.PutJsonObject | app/src/main/java/com/github/jeterlee/photowall/cache/DiskCacheManager.java:168-171 | a JSON object is stored as the encoding of its text |
| DiskCacheManager.PutJsonArray | app/src/main/java/com/github/jeterlee/photowall/cache/DiskCacheManager.java:189-192 | a JSON array is stored as the encoding of its text |
| DiskCacheManager.PutBytes | app/src/main/java/com/github/jeterlee/photowall/cache/DiskCacheManager.java:215-245 | the hashed entry becomes the bytes when the write goes through |
| DiskCacheManager.PutBitmap | app/src/main/java/com/github/jeterlee/photowall/cache/DiskCacheManager.java:333-336 | a bitmap is stored as its PNG bytes |
| DiskCacheManager.PutDrawable | app/src/main/java/com/github/jeterlee/photowall/cache/DiskCacheManager.java:351-354 | a drawable is stored as the PNG bytes of the bitmap it is drawn onto |
| DiskCacheManager.PutSerializable | app/src/main/java/com/github/jeterlee/photowall/cache/DiskCacheManager.java:272-301 | the hashed entry becomes the serialised bytes; a value that cannot be serialised aborts and keeps the old entry |
| DiskCacheManager.Read | app/src/main/java/com/github/jeterlee/photowall/cache/DiskCacheManager.java:490-505 | the bytes of the hashed entry, and null exactly when the entry is missing or the read fails |
| DiskCacheManager.GetAsString | app/src/main/java/com/github/jeterlee/photowall/cache/DiskCacheManager.java:147-166 | text is returned exactly when the stream is obtained |
| DiskCacheManager.GetAsJsonObject | app/src/main/java/com/github/jeterlee/photowall/cache/DiskCacheManager.java:173-184 | no text means null |
| DiskCacheManager.GetAsJsonArray | app/src/main/java/com/github/jeterlee/photowall/cache/DiskCacheManager.java:194-203 | no text means null |
| DiskCacheManager.GetAsBinary | app/src/main/java/com/github/jeterlee/photowall/cache/DiskCacheManager.java:247-266 | the stored bytes of the hashed entry, null when missing or unreadable |
| DiskCacheManager.BytesToBitmap | app/src/main/java/com/github/jeterlee/photowall/cache/DiskCacheManager.java:572-577 | empty bytes give null; other bytes are decoded |
| DiskCacheManager.GetAsBitmap | app/src/main/java/com/github/jeterlee/photowall/cache/DiskCacheManager.java:338-345 | null when there are no bytes, otherwise the bitmap decoded from them |
| DiskCacheManager.GetAsDrawable | app/src/main/java/com/github/jeterlee/photowall/cache/DiskCacheManager.java:356-363 | non-null exactly when a bitmap is decoded, and then a `BitmapDrawable` of that bitmap |
| DiskCacheManager.GetSerializable | app/src/main/java/com/github/jeterlee/photowall/cache/DiskCacheManager.java:303-327 | no stream means null |
| DiskCacheManager.Contains | app/src/main/java/com/github/jeterlee/photowall/cache/DiskCacheManager.java:369-379 | true exactly when the lookup succeeds and the hashed entry exists |
| DiskCacheManager.Remove | app/src/main/java/com/github/jeterlee/photowall/cache/DiskCacheManager.java:381-389 | true exactly when the removal succeeds and the hashed entry existed; only that entry goes, every other value and the open editors stay; a failure changes nothing |
| DiskCacheManager.Clear | app/src/main/java/com/github/jeterlee/photowall/cache/DiskCacheManager.java:391-399 | no entry is left |
| DiskCacheManager.Create | app/src/main/java/com/github/jeterlee/photowall/cache/DiskCacheManager.java:69-111 | a given path that is not a directory is rejected; an open failure is reported; an explicit budget is used as given; without one the budget lies in [5 MiB, 20 MiB] |
| DiskCacheManager.WritesTouchOnlyHashedKey | app/src/main/java/com/github/jeterlee/photowall/cache/DiskCacheManager.java:471-475 | a write changes no entry other than the hashed key's and leaves no editor open |
| DiskCacheManager.BusyEntryIgnoresPut | app/src/main/java/com/github/jeterlee/photowall/cache/DiskCacheManager.java:120-123 | while another editor is open on the entry, the String, byte[] and Serializable puts change nothing |
| DiskCacheManager.FailedWriteKeepsOldEntry | app/src/main/java/com/github/jeterlee/photowall/cache/DiskCacheManager.java:279-291 | a value that cannot be serialised leaves the previous entry as it was |
| DiskCacheManager.StringRoundTrip | app/src/main/java/com/github/jeterlee/photowall/cache/DiskCacheManager.java:115-166 | a string put is returned by `getAsString`, given that the charsets round-trip |
| DiskCacheManager.JsonStoredAsText | app/src/main/java/com/github/jeterlee/photowall/cache/DiskCacheManager.java:168-213 | after a JSON put `getAsString` returns the JSON text, `getAsJSONObject` the object and `getAsJSONArray` the array when their texts parse back |
| DiskCacheManager.BytesAndBitmapRoundTrip | app/src/main/java/com/github/jeterlee/photowall/cache/DiskCacheManager.java:215-266 | bytes put are returned by `getAsBinary`; a bitmap put is decoded from its PNG by `getAsBitmap` and wrapped by `getAsDrawable` |
| DiskCacheManager.SerializableRoundTrip | app/src/main/java/com/github/jeterlee/photowall/cache/DiskCacheManager.java:272-327 | a serialisable value put is returned by `get`, given that serialisation round-trips |
| DiskCacheManager.AbsentReadsNull | app/src/main/java/com/github/jeterlee/photowall/cache/DiskCacheManager.java:490-505 | for an absent entry every getter returns null and `contains` is false |
| DiskCacheManager.RemoveThenAbsent | app/src/main/java/com/github/jeterlee/photowall/cache/DiskCacheManager.java:370-389 | after a successful `remove` the key is not contained and its getters return null, while every key with another entry id reads and is contained as before |
| DiskCacheManager.CustomDirectorySizedFromDefault | app/src/main/java/com/github/jeterlee/photowall/cache/DiskCacheManager.java:78-93 | without an explicit budget a custom directory's budget is computed from the default directory's volume, not its own |
| MemoryCacheManager.DefaultMaxSize | app/src/main/java/com/github/jeterlee/photowall/cache/MemoryCacheManager.java:21-24 | for a heap limit inside the `int` range the default size is `maxMemory / 1024 / 8` |
| MemoryCacheManager.New | app/src/main/java/com/github/jeterlee/photowall/cache/MemoryCacheManager.java:30-33 | a tier exists exactly when the wrapped `maxSize * 1024` is positive; it starts empty with capacity `maxSize * 1024` when that fits |
| MemoryCacheManager.Get | app/src/main/java/com/github/jeterlee/photowall/cache/MemoryCacheManager.java:43-46 | non-null exactly when the key is cached, and then its value; the cached values do not change |
| MemoryCacheManager.Put | app/src/main/java/com/github/jeterlee/photowall/cache/MemoryCacheManager.java:35-41 | the key then maps to the new value, no other value changes, no key is added besides it, and with room or an existing key the cache is the old one with the key replaced |
| MemoryCacheManager.Remove | app/src/main/java/com/github/jeterlee/photowall/cache/MemoryCacheManager.java:48-53 | the key is gone afterwards and nothing else changes; the flag says whether it was cached |
| MemoryCacheManager.Contains | app/src/main/java/com/github/jeterlee/photowall/cache/MemoryCacheManager.java:55-58 | true exactly when the key is cached |
| MemoryCacheManager.Size | app/src/main/java/com/github/jeterlee/photowall/cache/MemoryCacheManager.java:60-63 | the number of cached entries, which lies between 0 and the capacity |
| MemoryCacheManager.SizeAfterPutAndRemove | app/src/main/java/com/github/jeterlee/photowall/cache/MemoryCacheManager.java:36-63 | a put of a new key raises the size by one up to the capacity (the eviction keeps it there), a put of a cached key keeps it; a remove lowers it by one exactly when the key was cached |
| MemoryCacheManager.Clear | app/src/main/java/com/github/jeterlee/photowall/cache/MemoryCacheManager.java:65-68 | no value is left |
| MemoryCacheManager.PutThenGet | app/src/main/java/com/github/jeterlee/photowall/cache/MemoryCacheManager.java:35-46 | get after put returns the value put; a second put on the same key replaces the value without adding an entry |
| MemoryCacheManager.ContainsIffGetNonNull | app/src/main/java/com/github/jeterlee/photowall/cache/MemoryCacheManager.java:55-58 | `contains` holds exactly when `get` is non-null |
| MemoryCacheManager.RemoveProperties | app/src/main/java/com/github/jeterlee/photowall/cache/MemoryCacheManager.java:48-53 | removing an absent key changes nothing, a removed key is not contained, removing twice equals removing once |
| MemoryCacheManager.ClearEmpties | app/src/main/java/com/github/jeterlee/photowall/cache/MemoryCacheManager.java:65-68 | after `clear` no key is contained and the size is 0 |
| MemoryCacheManager.TenMebibytesOverflowCapacity | app/src/main/java/com/github/jeterlee/photowall/cache/MemoryCacheManager.java:30-33 | a size of 10 MiB times 1024 wraps to `Integer.MIN_VALUE`, so no tier can be built |
| MemoryCacheManager.DefaultSizeCastsFirst | app/src/main/java/com/github/jeterlee/photowall/cache/MemoryCacheManager.java:21-24 | the cast comes before the divisions: a 4 GiB heap gives size 0 and no tier, a 256 MiB heap gives 32768 |
| CacheManager.Effective | app/src/main/java/com/github/jeterlee/photowall/cache/CacheManager.java:466-484 | only `ONLY_MEMORY` and `ONLY_DISK` keep their own branch; every other mode takes the `ALL_ALLOW` branch |
| CacheManager.Initial | app/src/main/java/com/github/jeterlee/photowall/cache/CacheManager.java:35-48 | the coordinator starts with no tiers and both sizes 0 |
| CacheManager.SetMaxMemoryCacheSize | app/src/main/java/com/github/jeterlee/photowall/cache/CacheManager.java:428-431 | the memory size is kept in KiB truncated, positive exactly when at least 1024 bytes are given |
| CacheManager.InitMemory | app/src/main/java/com/github/jeterlee/photowall/cache/CacheManager.java:86-92 | once a memory size is set the tier is built from `maxDiskCacheSize`, otherwise from the default size; `init` crashes exactly when that size times 1024 wraps to a non-positive capacity |
| CacheManager.DiskPlacement | app/src/main/java/com/github/jeterlee/photowall/cache/CacheManager.java:97-117 | a custom name wins over a custom directory, which wins over the default; a budget is passed exactly when `maxDiskCacheSize` is positive |
| CacheManager.InitDisk | app/src/main/java/com/github/jeterlee/photowall/cache/CacheManager.java:97-117 | a built tier is installed, an IOException leaves the field as it was, and a given path that is not a directory crashes `init` |
| CacheManager.Init | app/src/main/java/com/github/jeterlee/photowall/cache/CacheManager.java:65-81 | records the mode; `ONLY_MEMORY` builds only memory, `ONLY_DISK` only disk, every other mode memory and then disk, stopping when memory crashes; only non-`ONLY_DISK` modes change memory and only non-`ONLY_MEMORY` modes change disk; validity is kept |
| CacheManager.DiskPut | app/src/main/java/com/github/jeterlee/photowall/cache/CacheManager.java:133-147 | each kind of value goes to its typed overload and is stored in the form that overload writes |
| CacheManager.Put | app/src/main/java/com/github/jeterlee/photowall/cache/CacheManager.java:125-165 | `ALL_ALLOW` does nothing unless both tiers exist, otherwise writes disk by kind and then memory whatever the disk did; `ONLY_MEMORY` touches only memory; `ONLY_DISK` stores every value through serialisation |
| CacheManager.GetByCacheType | app/src/main/java/com/github/jeterlee/photowall/cache/CacheManager.java:220-254 | each cache type reads the entry through its own disk getter and wraps that getter's answer as a value of that kind; any other type reads it as serialised; a returned value comes from an existing disk entry |
| CacheManager.TypedReadAfterPut | app/src/main/java/com/github/jeterlee/photowall/cache/CacheManager.java:126-254 | when the codecs round-trip, reading by a value's own cache type returns what the typed `put` wrote; a drawable reads back as a `BitmapDrawable` of the bitmap it was drawn to |
| CacheManager.Get | app/src/main/java/com/github/jeterlee/photowall/cache/CacheManager.java:178-218 | `ALL_ALLOW`: a memory hit is returned as is; a miss returns the typed disk read and puts a hit into memory; single modes read only their tier; absent tiers give null |
| CacheManager.GetDefault | app/src/main/java/com/github/jeterlee/photowall/cache/CacheManager.java:173-176 | plain `get` is the serialised read: a memory hit in `ALL_ALLOW` and `ONLY_MEMORY`, otherwise the disk entry deserialised, and null without the tiers it needs |
| CacheManager.Contains | app/src/main/java/com/github/jeterlee/photowall/cache/CacheManager.java:262-284 | `ALL_ALLOW`: memory OR disk, false when a tier is missing; single modes ask only their tier |
| CacheManager.Remove | app/src/main/java/com/github/jeterlee/photowall/cache/CacheManager.java:292-313 | `ALL_ALLOW`: memory AND disk with short-circuit, so the disk is touched only when memory held the key; `ONLY_MEMORY` removes the key from memory only; `ONLY_DISK` removes the hashed disk entry exactly as the disk tier does |
| CacheManager.Size | app/src/main/java/com/github/jeterlee/photowall/cache/CacheManager.java:320-344 | the sum of the active tiers' sizes narrowed to an `int`: congruent to it modulo 2^32, and equal to it whenever it fits |
| CacheManager.OnlyMemorySizeCounts | app/src/main/java/com/github/jeterlee/photowall/cache/CacheManager.java:320-344 | in `ONLY_MEMORY` the size is the entry count: a put of a new key raises it by one up to the capacity, a remove of a cached key lowers it by one |
| CacheManager.Clear | app/src/main/java/com/github/jeterlee/photowall/cache/CacheManager.java:349-370 | `ALL_ALLOW` empties both tiers when both exist; single modes empty only their tier |
| CacheManager.Flush | app/src/main/java/com/github/jeterlee/photowall/cache/CacheManager.java:375-391 | the disk is flushed only in `ONLY_DISK` with a disk tier, or in `ALL_ALLOW` with both tiers |
| CacheManager.UnknownModeInitsAsAllAllow | app/src/main/java/com/github/jeterlee/photowall/cache/CacheManager.java:68-73 | `init` with any unknown mode builds exactly what `ALL_ALLOW` builds |
| CacheManager.UnknownModeUpdatesAsAllAllow | app/src/main/java/com/github/jeterlee/photowall/cache/CacheManager.java:127-129 | `put` and `clear` under an unknown mode act exactly as under `ALL_ALLOW` |
| CacheManager.UnknownModeAnswersAsAllAllow | app/src/main/java/com/github/jeterlee/photowall/cache/CacheManager.java:180-182 | `get`, `contains`, `remove`, `size` and `flush` under an unknown mode answer as under `ALL_ALLOW` |
| CacheManager.AllAllowPutThenGet | app/src/main/java/com/github/jeterlee/photowall/cache/CacheManager.java:130-197 | in `ALL_ALLOW` a value put is returned by the next get from memory, whatever the disk write did |
| CacheManager.OnlyMemoryPutThenGet | app/src/main/java/com/github/jeterlee/photowall/cache/CacheManager.java:152-157 | in `ONLY_MEMORY` put then get returns the value and leaves the disk alone |
| CacheManager.OnlyDiskPutThenGet | app/src/main/java/com/github/jeterlee/photowall/cache/CacheManager.java:158-163 | in `ONLY_DISK` a serialisable value is returned by plain `get`; an unserialisable one leaves the previous answer |
| CacheManager.MissPromotesDiskHit | app/src/main/java/com/github/jeterlee/photowall/cache/CacheManager.java:183-197 | after a miss answered by the disk, the next get returns the same value from memory even if the disk read now fails |
| CacheManager.RemoveSkipsDiskOnMemoryMiss | app/src/main/java/com/github/jeterlee/photowall/cache/CacheManager.java:297-298 | a key absent from memory makes `remove` false and keeps its disk entry |
| CacheManager.MemoryTierSizedFromDiskSize | app/src/main/java/com/github/jeterlee/photowall/cache/CacheManager.java:86-92 | with a memory size set, a disk size of 0 crashes `init` and a disk size of 1 MiB gives the memory tier 2^30 entries |
| CacheManager.SmallMemorySizeIgnored | app/src/main/java/com/github/jeterlee/photowall/cache/CacheManager.java:428-431 | a memory size below 1 KiB truncates to 0 and the default size is used |

## Left out

- `DiskLruCache` internals are not modelled: the journal, byte-size accounting, eviction by size and LRU order. The store is a map plus the set of entries with an open editor. `maxSize` is recorded but never enforced.
- `DiskLruCache.remove` refusing an entry whose editor is open is not modelled. In the model, removal always deletes the entry.
- `clear()` on the disk tier deletes the directory and closes the cache. The model only empties the entries, so later calls on a cleared `DiskLruCache` (which would throw) are not modelled.
- I/O, the clock and the heap limit are parameters. The model does not say when a stream fails, only what happens when it does.
- MD5 hex encoding, `JSONObject`/`JSONArray` parsing and printing, PNG compression, `BitmapFactory`, canvas drawing, Base64, and Java object serialisation belong to the platform. They are supplied as functions in `Values.Platform`.
- DiskCacheHelper.Get: the helper stores and reads back Java strings directly. The UTF-8 writer/reader pair it goes through is assumed to round-trip, because the charsets are platform code.
- The `DiskCacheHelper` constructors and `getDiskCacheDir`, `getAppVersion`, `getInstance` singletons, `flush`, `close`, `delete`, `size`, `getDirectory` and `getMaxSize` pass straight through to `DiskLruCache` or the Android context, so they have no members. The helper's null-cache branches (a failed open) are not modelled; the helper is built around an open store.
- DiskCacheManager.PutString: the source commits the editor before its `BufferedWriter` is closed, so the stored bytes depend on buffering. The model stores the fully encoded text.
- CacheManager.Size: the disk tier's `size()` is DiskLruCache's byte count. It comes in as the parameter `diskSize`, because byte accounting is not modelled.
- KeyCodec.JavaHashCode: Java hashes UTF-16 code units. The model hashes Dafny `char`s, which agree with them for characters in the Basic Multilingual Plane.
- ExpirySuffix.Decode: the source reads `Calendar.getInstance().getTimeInMillis()` once per `get`, and the model takes that value as a single `now`. A `put` reads the clock twice, once in its probe `get` and once for the stamp, and takes both readings as the parameters `probeNow` and `now`.
- MemoryCacheManager.Remove: the Java method is declared `void`, yet `CacheManager.remove` uses its result as a boolean. The model returns whether the key was cached, which is what the guarded removal decides.
- `null` keys and values are not modelled: Dafny values are never null. The `null` results of getters are `None`.
- `DiskCacheManager.flush`, `close`, `deleteCacheFile`, `getEditor`, `getSnapshot` and `CacheManager.closeCache` are resource plumbing with no effect on cached contents. `CacheManager.Flush` only reports whether the disk tier would be flushed.
- The plain setters `setMaxDiskCacheSize`, `setDiskCacheDirName` and `setDiskCacheFileDir`, and `getInstance`, are record updates with no logic, so they have no members.
- `synchronized` blocks, logging, and the context and app-version parameters used only to find directories are not modelled.
