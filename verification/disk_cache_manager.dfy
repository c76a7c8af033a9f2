/** `DiskCacheManager`: the disk tier. Every value kind is turned into bytes
    and written through an editor of the journaled store under the hashed
    key; every read goes through a snapshot of the hashed key. I/O failures
    are parameters: `WriteFault` for a write, `readFails` for a read. */
module DiskCacheManager {
  import opened Common
  import opened Values
  import KeyCodec
  import KeyedStore
  import DiskBudget

  /** The tier: the store of byte entries and the platform's MD5. */
  datatype DiskTier = DiskTier(store: KeyedStore.Store<Bytes>, md5: KeyCodec.Md5Service)

  /** What goes wrong in a write: `edit` throwing IOException (the editor
      comes back null), or an IOException while writing or committing,
      which aborts the edit. */
  datatype WriteFault = NoFault | EditFails | WriteFails

  /** `DISK_CACHE_DIR`. */
  const DiskCacheDir: string := "disk_cache"

  /** The entry id of a key (`Utils.hashKeyForDisk`). */
  function Id(t: DiskTier, key: string): string {
    KeyCodec.HashKeyForDisk(t.md5, key)
  }

  /** `editor(key)`: an editor on the hashed key, or null when the entry is
      being edited or `edit` throws. The result is the store with the
      editor open. */
  function Editor(t: DiskTier, key: string, fault: WriteFault): (r: Option<DiskTier>)
    ensures r.Some? <==> Id(t, key) !in t.store.editing && fault != EditFails
    ensures r.Some? ==> r.value.store.editing == t.store.editing + {Id(t, key)}
    ensures r.Some? ==> r.value.store.entries == t.store.entries && r.value.md5 == t.md5
  {
    if fault == EditFails then None
    else
      match KeyedStore.BeginEdit(t.store, Id(t, key))
      case None => None
      case Some(s) => Some(t.(store := s))
  }

  /** The effect of a write of `bytes` under `key`: only when an editor was
      obtained, the write succeeded and there was something to write does
      the hashed key's entry become `bytes`; otherwise the entries stay. In
      every case no editor is left open. */
  ghost predicate Wrote(t: DiskTier, r: DiskTier, key: string, bytes: Option<Bytes>, fault: WriteFault) {
    && r.md5 == t.md5 && r.store.editing == t.store.editing && r.store.maxSize == t.store.maxSize
    && r.store.entries ==
      if Id(t, key) !in t.store.editing && fault == NoFault && bytes.Some?
      then t.store.entries[Id(t, key) := bytes.value]
      else t.store.entries
  }

  /** The write shared by the String, byte[] and Serializable `put`s: no
      editor means nothing happens; an editor whose write fails (or whose
      value cannot be encoded, `None`) is aborted, keeping the old entry;
      otherwise the bytes are committed. */
  function Write(t: DiskTier, key: string, bytes: Option<Bytes>, fault: WriteFault): (r: DiskTier)
    ensures Wrote(t, r, key, bytes, fault)
  {
    match Editor(t, key, fault)
    case None => t
    case Some(open) =>
      var id := Id(t, key);
      if fault == WriteFails || bytes.None? then open.(store := KeyedStore.Abort(open.store, id))
      else open.(store := KeyedStore.Commit(open.store, id, bytes.value))
  }

  /** `put(String, String)`: the text as the platform writes it. */
  function PutString(p: Platform, t: DiskTier, key: string, s: string, fault: WriteFault): (r: DiskTier)
    ensures Wrote(t, r, key, Some(p.encodeText(s)), fault)
  {
    Write(t, key, Some(p.encodeText(s)), fault)
  }

  /** `put(String, JSONObject)`: the object's text. */
  function PutJsonObject(p: Platform, t: DiskTier, key: string, o: JsonObject, fault: WriteFault): (r: DiskTier)
    ensures Wrote(t, r, key, Some(p.encodeText(p.jsonObjectText(o))), fault)
  {
    PutString(p, t, key, p.jsonObjectText(o), fault)
  }

  /** `put(String, JSONArray)`: the array's text. */
  function PutJsonArray(p: Platform, t: DiskTier, key: string, a: JsonArray, fault: WriteFault): (r: DiskTier)
    ensures Wrote(t, r, key, Some(p.encodeText(p.jsonArrayText(a))), fault)
  {
    PutString(p, t, key, p.jsonArrayText(a), fault)
  }

  /** `put(String, byte[])`: the bytes themselves. */
  function PutBytes(t: DiskTier, key: string, b: Bytes, fault: WriteFault): (r: DiskTier)
    ensures Wrote(t, r, key, Some(b), fault)
  {
    Write(t, key, Some(b), fault)
  }

  /** `put(String, Bitmap)`: the PNG encoding. */
  function PutBitmap(p: Platform, t: DiskTier, key: string, bm: Bitmap, fault: WriteFault): (r: DiskTier)
    ensures Wrote(t, r, key, Some(p.compressPng(bm)), fault)
  {
    PutBytes(t, key, p.compressPng(bm), fault)
  }

  /** `put(String, Drawable)`: the drawable drawn onto a bitmap, stored as a
      bitmap. */
  function PutDrawable(p: Platform, t: DiskTier, key: string, d: Drawable, fault: WriteFault): (r: DiskTier)
    ensures Wrote(t, r, key, Some(p.compressPng(p.drawableToBitmap(d))), fault)
  {
    PutBitmap(p, t, key, p.drawableToBitmap(d), fault)
  }

  /** `put(String, Serializable)`: the Java serialisation of the value; a
      value that is not serialisable aborts the edit. */
  function PutSerializable(p: Platform, t: DiskTier, key: string, v: Value, fault: WriteFault): (r: DiskTier)
    ensures Wrote(t, r, key, p.serialize(v), fault)
  {
    Write(t, key, p.serialize(v), fault)
  }

  /** `getInputStream(key)`: the entry's bytes, or null when there is no
      entry or the read fails. */
  function Read(t: DiskTier, key: string, readFails: bool): (r: Option<Bytes>)
    ensures r.Some? <==> !readFails && Id(t, key) in t.store.entries
    ensures r.Some? ==> r.value == t.store.entries[Id(t, key)]
  {
    if readFails then None else KeyedStore.Lookup(t.store, Id(t, key))
  }

  /** `getAsString`: the entry decoded as UTF-8 text. */
  function GetAsString(p: Platform, t: DiskTier, key: string, readFails: bool): (r: Option<string>)
    ensures r.Some? <==> Read(t, key, readFails).Some?
  {
    match Read(t, key, readFails)
    case None => None
    case Some(b) => Some(p.decodeText(b))
  }

  /** `getAsJSONObject`: the text parsed as a JSON object; null when there is
      no text or it does not parse. */
  function GetAsJsonObject(p: Platform, t: DiskTier, key: string, readFails: bool): (r: Option<JsonObject>)
    ensures GetAsString(p, t, key, readFails).None? ==> r.None?
  {
    match GetAsString(p, t, key, readFails)
    case None => None
    case Some(s) => p.parseJsonObject(s)
  }

  /** `getAsJSONArray`: the text parsed as a JSON array. Without text the
      parse of null throws, which is caught: null as well. */
  function GetAsJsonArray(p: Platform, t: DiskTier, key: string, readFails: bool): (r: Option<JsonArray>)
    ensures GetAsString(p, t, key, readFails).None? ==> r.None?
  {
    match GetAsString(p, t, key, readFails)
    case None => None
    case Some(s) => p.parseJsonArray(s)
  }

  /** `getAsBinary`: the entry's bytes. */
  function GetAsBinary(t: DiskTier, key: string, readFails: bool): (r: Option<Bytes>)
    ensures r.Some? <==> !readFails && Id(t, key) in t.store.entries
    ensures r.Some? ==> r.value == t.store.entries[Id(t, key)]
  {
    Read(t, key, readFails)
  }

  /** `Utils.bytesToBitmap`: empty bytes give null, other bytes are decoded. */
  function BytesToBitmap(p: Platform, b: Bytes): (r: Option<Bitmap>)
    ensures |b| == 0 ==> r.None?
    ensures |b| > 0 ==> r == p.decodeBitmap(b)
  {
    if |b| == 0 then None else p.decodeBitmap(b)
  }

  /** `getAsBitmap`: the entry's bytes decoded as an image. */
  function GetAsBitmap(p: Platform, t: DiskTier, key: string, readFails: bool): (r: Option<Bitmap>)
    ensures GetAsBinary(t, key, readFails).None? ==> r.None?
    ensures GetAsBinary(t, key, readFails).Some? ==> r == BytesToBitmap(p, GetAsBinary(t, key, readFails).value)
  {
    match GetAsBinary(t, key, readFails)
    case None => None
    case Some(b) => BytesToBitmap(p, b)
  }

  /** `getAsDrawable`: the decoded image wrapped as a `BitmapDrawable`, or
      null when there is none. */
  function GetAsDrawable(p: Platform, t: DiskTier, key: string, readFails: bool): (r: Option<Drawable>)
    ensures r.Some? <==> GetAsBitmap(p, t, key, readFails).Some?
    ensures r.Some? ==> r.value == BitmapDrawable(GetAsBitmap(p, t, key, readFails).value)
  {
    match GetAsBinary(t, key, readFails)
    case None => None
    case Some(b) =>
      match BytesToBitmap(p, b)
      case None => None
      case Some(bm) => Some(BitmapDrawable(bm))
  }

  /** `get(key)` (generic): the entry deserialised; null when there is no
      entry or deserialisation fails. */
  function GetSerializable(p: Platform, t: DiskTier, key: string, readFails: bool): (r: Option<Value>)
    ensures Read(t, key, readFails).None? ==> r.None?
  {
    match Read(t, key, readFails)
    case None => None
    case Some(b) => p.deserialize(b)
  }

  /** `contains(key)`: whether the store yields a snapshot; false when the
      lookup fails. */
  function Contains(t: DiskTier, key: string, readFails: bool): (r: bool)
    ensures r <==> !readFails && Id(t, key) in t.store.entries
  {
    !readFails && KeyedStore.Lookup(t.store, Id(t, key)).Some?
  }

  /** `remove(key)`: whether the store removed an entry; false, with the
      store unchanged, when the removal fails. */
  function Remove(t: DiskTier, key: string, ioFails: bool): (r: (DiskTier, bool))
    ensures ioFails ==> r == (t, false)
    ensures r.1 <==> !ioFails && Id(t, key) in t.store.entries
    ensures r.0.store.entries.Keys == if ioFails then t.store.entries.Keys else t.store.entries.Keys - {Id(t, key)}
    ensures forall k :: k in r.0.store.entries ==> r.0.store.entries[k] == t.store.entries[k]
    ensures r.0.md5 == t.md5 && r.0.store.editing == t.store.editing && r.0.store.maxSize == t.store.maxSize
  {
    if ioFails then (t, false)
    else
      var (s, existed) := KeyedStore.Remove(t.store, Id(t, key));
      (t.(store := s), existed)
  }

  /** `clear()`: every entry is deleted. */
  function Clear(t: DiskTier): (r: DiskTier)
    ensures r.store.entries == map[] && r.md5 == t.md5
  {
    t.(store := KeyedStore.Clear(t.store))
  }

  /** A directory as the constructors see it: whether it exists as a
      directory, what `StatFs` reports for its volume (`None`: StatFs
      throws), and what `DiskLruCache.open` finds in it (`None`: the open
      throws IOException). */
  datatype Directory = Directory(isDirectory: bool, stat: Option<DiskBudget.BlockStat>, existing: Option<map<string, Bytes>>)

  /** Where a tier lives: a directory name under the app's cache directory
      (created if missing), or a directory given as a `File`. */
  datatype Location = Named(dirName: string) | Given(path: string)

  type FileSystem = Location -> Directory

  /** How a constructor ends: a tier, IOException from opening the store
      (declared, so the caller sees it), or IllegalArgumentException for a
      given path that is not a directory. */
  datatype Construction = Built(tier: DiskTier) | OpenFailed | NotADirectory

  /** The six constructors: a location and an optional explicit budget. With
      no explicit budget, the budget is computed from the volume of the
      DEFAULT directory, whatever the location. */
  function Create(fs: FileSystem, md5: KeyCodec.Md5Service, loc: Location, maxCount: Option<int>): (r: Construction)
    ensures r.NotADirectory? <==> loc.Given? && !fs(loc).isDirectory
    ensures r.OpenFailed? <==> !r.NotADirectory? && fs(loc).existing.None?
    ensures r.Built? ==> fs(loc).existing == Some(r.tier.store.entries) && r.tier.store.editing == {}
    ensures r.Built? ==> r.tier.md5 == md5
    ensures r.Built? && maxCount.Some? ==> r.tier.store.maxSize == maxCount.value
    ensures r.Built? && maxCount.None? ==>
      DiskBudget.MinDiskCacheSize <= r.tier.store.maxSize <= DiskBudget.MaxDiskCacheSize
  {
    var budget :=
      match maxCount
      case Some(n) => n
      case None => DiskBudget.CalculateDiskCacheSize(fs(Named(DiskCacheDir)).stat);
    var dir := fs(loc);
    if loc.Given? && !dir.isDirectory then NotADirectory
    else
      match dir.existing
      case None => OpenFailed
      case Some(entries) => Built(DiskTier(KeyedStore.Open(entries, budget), md5))
  }

  /** Every write touches only the entry of the hashed key, and leaves no
      editor open. */
  lemma WritesTouchOnlyHashedKey(t: DiskTier, key: string, bytes: Option<Bytes>, fault: WriteFault, other: string)
    requires other != Id(t, key)
    ensures var r := Write(t, key, bytes, fault);
      KeyedStore.Lookup(r.store, other) == KeyedStore.Lookup(t.store, other)
      && r.store.editing == t.store.editing
  {
  }

  /** While another editor is open on the entry, every `put` is a no-op. */
  lemma BusyEntryIgnoresPut(p: Platform, t: DiskTier, key: string, v: Value, fault: WriteFault)
    requires Id(t, key) in t.store.editing
    ensures PutSerializable(p, t, key, v, fault) == t
    ensures v.Text? ==> PutString(p, t, key, v.text, fault) == t
    ensures v.Binary? ==> PutBytes(t, key, v.bytes, fault) == t
  {
  }

  /** A failed write keeps the old entry: in particular a value that Java
      cannot serialise leaves what was stored before. */
  lemma FailedWriteKeepsOldEntry(p: Platform, t: DiskTier, key: string, v: Value)
    requires p.serialize(v).None?
    ensures KeyedStore.Lookup(PutSerializable(p, t, key, v, NoFault).store, Id(t, key))
         == KeyedStore.Lookup(t.store, Id(t, key))
  {
  }

  /** Text round trip: a string put is read back by `getAsString`. */
  lemma StringRoundTrip(p: Platform, t: DiskTier, key: string, s: string)
    requires TextRoundTrips(p)
    requires Id(t, key) !in t.store.editing
    ensures GetAsString(p, PutString(p, t, key, s, NoFault), key, false) == Some(s)
  {
  }

  /** JSON values are stored as their text: `getAsString` returns the text,
      and `getAsJSONObject` the object when its text parses back. */
  lemma JsonStoredAsText(p: Platform, t: DiskTier, key: string, o: JsonObject, a: JsonArray)
    requires TextRoundTrips(p)
    requires Id(t, key) !in t.store.editing
    ensures GetAsString(p, PutJsonObject(p, t, key, o, NoFault), key, false) == Some(p.jsonObjectText(o))
    ensures GetAsString(p, PutJsonArray(p, t, key, a, NoFault), key, false) == Some(p.jsonArrayText(a))
    ensures JsonObjectRoundTrips(p) ==> GetAsJsonObject(p, PutJsonObject(p, t, key, o, NoFault), key, false) == Some(o)
    ensures JsonArrayRoundTrips(p) ==> GetAsJsonArray(p, PutJsonArray(p, t, key, a, NoFault), key, false) == Some(a)
  {
  }

  /** Bytes round trip, and the image path: a bitmap put is decoded from its
      PNG bytes by `getAsBitmap`, and `getAsDrawable` wraps the same bitmap. */
  lemma BytesAndBitmapRoundTrip(p: Platform, t: DiskTier, key: string, b: Bytes, bm: Bitmap)
    requires Id(t, key) !in t.store.editing
    ensures GetAsBinary(PutBytes(t, key, b, NoFault), key, false) == Some(b)
    ensures |p.compressPng(bm)| > 0 ==>
      && GetAsBitmap(p, PutBitmap(p, t, key, bm, NoFault), key, false) == p.decodeBitmap(p.compressPng(bm))
      && (p.decodeBitmap(p.compressPng(bm)) == Some(bm) ==>
            GetAsDrawable(p, PutBitmap(p, t, key, bm, NoFault), key, false) == Some(BitmapDrawable(bm)))
  {
  }

  /** Serialisable round trip: what Java serialises is deserialised back. */
  lemma SerializableRoundTrip(p: Platform, t: DiskTier, key: string, v: Value)
    requires SerialisationRoundTrips(p)
    requires Id(t, key) !in t.store.editing && p.serialize(v).Some?
    ensures GetSerializable(p, PutSerializable(p, t, key, v, NoFault), key, false) == Some(v)
  {
  }

  /** For an absent entry every getter returns null and `contains` is
      false. */
  lemma AbsentReadsNull(p: Platform, t: DiskTier, key: string, readFails: bool)
    requires Id(t, key) !in t.store.entries
    ensures GetAsString(p, t, key, readFails).None? && GetAsJsonObject(p, t, key, readFails).None?
    ensures GetAsJsonArray(p, t, key, readFails).None? && GetAsBinary(t, key, readFails).None?
    ensures GetAsBitmap(p, t, key, readFails).None? && GetAsDrawable(p, t, key, readFails).None?
    ensures GetSerializable(p, t, key, readFails).None? && !Contains(t, key, readFails)
  {
  }

  /** Remove then read: after a successful `remove` the key is not
      contained and every getter returns null, while a key with a different
      entry id reads and is contained exactly as before. */
  lemma RemoveThenAbsent(p: Platform, t: DiskTier, key: string, other: string, readFails: bool)
    ensures var t' := Remove(t, key, false).0;
      && !Contains(t', key, readFails) && GetAsString(p, t', key, readFails).None?
      && GetAsBinary(t', key, readFails).None? && GetSerializable(p, t', key, readFails).None?
      && (Id(t, other) != Id(t, key) ==>
            && Contains(t', other, readFails) == Contains(t, other, readFails)
            && Read(t', other, readFails) == Read(t, other, readFails)
            && GetSerializable(p, t', other, readFails) == GetSerializable(p, t, other, readFails))
  {
    var t' := Remove(t, key, false).0;
    assert Id(t', key) == Id(t, key) && Id(t', other) == Id(t, other);
    AbsentReadsNull(p, t', key, readFails);
  }

  /** Without an explicit budget, a tier in a custom directory is sized from
      the default directory's volume: two file systems that differ only in
      the custom directory's statistics give the same budget. */
  lemma CustomDirectorySizedFromDefault(fs: FileSystem, fs': FileSystem, md5: KeyCodec.Md5Service, loc: Location)
    requires loc != Named(DiskCacheDir)
    requires fs'(Named(DiskCacheDir)) == fs(Named(DiskCacheDir))
    requires fs'(loc) == fs(loc).(stat := fs'(loc).stat)
    ensures Create(fs', md5, loc, None).Built? == Create(fs, md5, loc, None).Built?
    ensures Create(fs, md5, loc, None).Built? ==>
      && Create(fs, md5, loc, None).tier.store.maxSize
         == DiskBudget.CalculateDiskCacheSize(fs(Named(DiskCacheDir)).stat)
      && Create(fs', md5, loc, None).tier.store.maxSize
         == Create(fs, md5, loc, None).tier.store.maxSize
  {
  }
}
