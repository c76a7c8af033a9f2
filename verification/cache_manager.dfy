/** `CacheManager`: the two-tier coordinator. Its mode decides which tiers
    `init` builds and how every operation fans out to them; any mode other
    than `ONLY_MEMORY` and `ONLY_DISK` behaves as `ALL_ALLOW`. The
    coordinator is a record threaded through its operations; a tier that was
    never built (or failed to build) is `None`. */
module CacheManager {
  import opened Common
  import opened Values
  import KeyCodec
  import Mem = MemoryCacheManager
  import Disk = DiskCacheManager

  /** `CacheMode`. */
  const AllAllow: int := 0
  const OnlyMemory: int := 1
  const OnlyDisk: int := 2

  /** `CacheType`. */
  const StringType: int := 0
  const JsonObjectType: int := 1
  const JsonArrayType: int := 2
  const BytesType: int := 3
  const BitmapType: int := 4
  const DrawableType: int := 5
  const SerializableType: int := 6

  datatype Manager = Manager(
    mode: int,
    memory: Option<Mem.Lru<Value>>,
    disk: Option<Disk.DiskTier>,
    maxMemoryCacheSize: Int32,
    maxDiskCacheSize: Int32,
    diskCacheDirName: string,
    diskCacheFileDir: Option<string>)

  /** What `init` needs from outside: the file system, the platform's MD5
      and `Runtime.maxMemory()`. */
  datatype Env = Env(fs: Disk.FileSystem, md5: KeyCodec.Md5Service, maxMemory: int)

  /** `init` either returns or ends in an uncaught exception (a memory tier
      `LruCache` refuses, or a given disk directory that is not one). */
  datatype InitOutcome = Ready(manager: Manager) | Crashed

  ghost predicate Valid(m: Manager) {
    m.memory.Some? ==> Mem.Valid(m.memory.value)
  }

  /** The mode the `switch` statements act on: unknown values take the
      `default` branch, which is shared with `ALL_ALLOW`. */
  function Effective(mode: int): (e: int)
    ensures e == AllAllow || e == OnlyMemory || e == OnlyDisk
    ensures e == AllAllow <==> mode != OnlyMemory && mode != OnlyDisk
    ensures e != AllAllow ==> e == mode
  {
    if mode == OnlyMemory || mode == OnlyDisk then mode else AllAllow
  }

  /** The singleton as the private constructor leaves it. */
  function Initial(): (m: Manager)
    ensures Valid(m) && m.memory.None? && m.disk.None?
    ensures m.maxMemoryCacheSize == 0 && m.maxDiskCacheSize == 0
  {
    Manager(AllAllow, None, None, 0, 0, "", None)
  }

  /** `setMaxMemoryCacheSize(maxSize)`: the size is kept in KiB, truncated. */
  function SetMaxMemoryCacheSize(m: Manager, maxSize: Int32): (r: Manager)
    ensures r.maxMemoryCacheSize > 0 <==> maxSize >= 1024
    ensures maxSize >= 0 ==> r.maxMemoryCacheSize * 1024 <= maxSize < (r.maxMemoryCacheSize + 1) * 1024
    ensures r == m.(maxMemoryCacheSize := r.maxMemoryCacheSize)
  {
    var kib := JavaDiv(maxSize, 1024);
    assert IntMin <= kib <= IntMax by {
      var a: int := if maxSize >= 0 then maxSize as int else -(maxSize as int);
      assert IsInt(maxSize);
      assert 0 <= a <= 0x8000_0000;
      assert a == 1024 * (a / 1024) + a % 1024 && 0 <= a % 1024 < 1024;
      assert 0 <= a / 1024 <= 0x20_0000;
      assert kib == a / 1024 || kib == -(a / 1024);
    }
    m.(maxMemoryCacheSize := kib)
  }

  /** `initMemoryCacheManager`: once a memory size has been set, the tier is
      built from `maxDiskCacheSize` (not from the memory size); otherwise
      from the default size. */
  function InitMemory(env: Env, m: Manager): (r: InitOutcome)
    requires IsLong(env.maxMemory)
    ensures var size := if m.maxMemoryCacheSize > 0 then m.maxDiskCacheSize
                        else Mem.DefaultMaxSize(env.maxMemory);
      && (r.Crashed? <==> Wrap32(size * 1024) <= 0)
      && (r.Ready? ==> r.manager == m.(memory := r.manager.memory)
                       && r.manager.memory.Some? && Mem.Valid(r.manager.memory.value)
                       && r.manager.memory.value.values == map[]
                       && r.manager.memory.value.capacity == Wrap32(size * 1024))
  {
    var size := if m.maxMemoryCacheSize > 0 then m.maxDiskCacheSize else Mem.DefaultMaxSize(env.maxMemory);
    match Mem.New<Value>(size)
    case None => Crashed
    case Some(lru) => Ready(m.(memory := Some(lru)))
  }

  /** Where `initDiskCacheManager` puts the disk tier, and with which budget:
      a custom name wins over a custom directory, and an explicit budget is
      passed only when `maxDiskCacheSize` is positive. */
  function DiskPlacement(m: Manager): (r: (Disk.Location, Option<int>))
    ensures r.1.Some? <==> m.maxDiskCacheSize > 0
    ensures r.1.Some? ==> r.1.value == m.maxDiskCacheSize
    ensures |m.diskCacheDirName| > 0 ==> r.0 == Disk.Named(m.diskCacheDirName)
    ensures |m.diskCacheDirName| == 0 && m.diskCacheFileDir.Some? ==> r.0 == Disk.Given(m.diskCacheFileDir.value)
    ensures |m.diskCacheDirName| == 0 && m.diskCacheFileDir.None? ==> r.0 == Disk.Named(Disk.DiskCacheDir)
  {
    var loc :=
      if |m.diskCacheDirName| > 0 then Disk.Named(m.diskCacheDirName)
      else if m.diskCacheFileDir.Some? then Disk.Given(m.diskCacheFileDir.value)
      else Disk.Named(Disk.DiskCacheDir);
    (loc, if m.maxDiskCacheSize > 0 then Some(m.maxDiskCacheSize as int) else None)
  }

  /** `initDiskCacheManager`: an IOException from the constructor is caught
      and leaves the field as it was; a given path that is not a directory
      throws out of `init`. */
  function InitDisk(env: Env, m: Manager): (r: InitOutcome)
    ensures var (loc, budget) := DiskPlacement(m);
      var c := Disk.Create(env.fs, env.md5, loc, budget);
      && (r.Crashed? <==> c.NotADirectory?)
      && (c.Built? ==> r == Ready(m.(disk := Some(c.tier))))
      && (c.OpenFailed? ==> r == Ready(m))
  {
    var (loc, budget) := DiskPlacement(m);
    match Disk.Create(env.fs, env.md5, loc, budget)
    case Built(tier) => Ready(m.(disk := Some(tier)))
    case OpenFailed => Ready(m)
    case NotADirectory => Crashed
  }

  /** `init(context, cacheMode)`: records the mode and builds the tiers the
      mode uses, memory before disk. */
  function Init(env: Env, m: Manager, mode: int): (r: InitOutcome)
    requires IsLong(env.maxMemory)
    ensures r.Ready? ==> r.manager.mode == mode
    ensures r.Ready? ==> (r.manager.memory != m.memory ==> Effective(mode) != OnlyDisk)
    ensures r.Ready? ==> (r.manager.disk != m.disk ==> Effective(mode) != OnlyMemory)
    ensures r.Ready? && Effective(mode) != OnlyDisk ==> r.manager.memory.Some?
    ensures r.Ready? && Valid(m) ==> Valid(r.manager)
    ensures Effective(mode) == OnlyMemory ==> r == InitMemory(env, m.(mode := mode))
    ensures Effective(mode) == OnlyDisk ==> r == InitDisk(env, m.(mode := mode))
    ensures Effective(mode) == AllAllow ==>
      r == if InitMemory(env, m.(mode := mode)).Crashed? then Crashed
           else InitDisk(env, InitMemory(env, m.(mode := mode)).manager)
  {
    var m1 := m.(mode := mode);
    match Effective(mode)
    case 1 => InitMemory(env, m1)
    case 2 => InitDisk(env, m1)
    case _ =>
      match InitMemory(env, m1)
      case Crashed => Crashed
      case Ready(m2) => InitDisk(env, m2)
  }

  /** The overload the `ALL_ALLOW` branch of `put` picks by the value's
      run-time type. */
  function DiskPut(p: Platform, t: Disk.DiskTier, key: string, v: Value, fault: Disk.WriteFault): (r: Disk.DiskTier)
    ensures Disk.Wrote(t, r, key, DiskForm(p, v), fault)
  {
    match v
    case Text(s) => Disk.PutString(p, t, key, s, fault)
    case JsonObj(o) => Disk.PutJsonObject(p, t, key, o, fault)
    case JsonArr(a) => Disk.PutJsonArray(p, t, key, a, fault)
    case Binary(b) => Disk.PutBytes(t, key, b, fault)
    case Image(bm) => Disk.PutBitmap(p, t, key, bm, fault)
    case Picture(d) => Disk.PutDrawable(p, t, key, d, fault)
    case Other(_) => Disk.PutSerializable(p, t, key, v, fault)
  }

  /** The bytes the typed overloads store for each kind of value. */
  function DiskForm(p: Platform, v: Value): Option<Bytes> {
    match v
    case Text(s) => Some(p.encodeText(s))
    case JsonObj(o) => Some(p.encodeText(p.jsonObjectText(o)))
    case JsonArr(a) => Some(p.encodeText(p.jsonArrayText(a)))
    case Binary(b) => Some(b)
    case Image(bm) => Some(p.compressPng(bm))
    case Picture(d) => Some(p.compressPng(p.drawableToBitmap(d)))
    case Other(_) => p.serialize(v)
  }

  /** `put(key, value)`. `ALL_ALLOW` acts only when both tiers exist: the
      disk is written first through the typed overload, then the memory
      tier, whatever became of the disk write. `ONLY_DISK` calls `put` with
      a type variable, which resolves to the Serializable overload for every
      value. */
  function Put(p: Platform, m: Manager, key: string, v: Value, fault: Disk.WriteFault): (r: Manager)
    requires Valid(m)
    ensures Valid(r)
    ensures r.mode == m.mode && r.maxMemoryCacheSize == m.maxMemoryCacheSize && r.maxDiskCacheSize == m.maxDiskCacheSize
    ensures r.memory.Some? == m.memory.Some? && r.disk.Some? == m.disk.Some?
    ensures Effective(m.mode) == AllAllow && (m.memory.None? || m.disk.None?) ==> r == m
    ensures Effective(m.mode) == AllAllow && m.memory.Some? && m.disk.Some? ==>
      && Disk.Wrote(m.disk.value, r.disk.value, key, DiskForm(p, v), fault)
      && key in r.memory.value.values && r.memory.value.values[key] == v
    ensures Effective(m.mode) == OnlyMemory ==>
      r.disk == m.disk && (m.memory.Some? ==> key in r.memory.value.values && r.memory.value.values[key] == v)
    ensures Effective(m.mode) == OnlyDisk ==>
      r.memory == m.memory && (m.disk.Some? ==> Disk.Wrote(m.disk.value, r.disk.value, key, p.serialize(v), fault))
  {
    match Effective(m.mode)
    case 1 =>
      if m.memory.Some? then m.(memory := Some(Mem.Put(m.memory.value, key, v))) else m
    case 2 =>
      if m.disk.Some? then m.(disk := Some(Disk.PutSerializable(p, m.disk.value, key, v, fault))) else m
    case _ =>
      if m.memory.Some? && m.disk.Some? then
        var disk := DiskPut(p, m.disk.value, key, v, fault);
        m.(disk := Some(disk), memory := Some(Mem.Put(m.memory.value, key, v)))
      else m
  }

  /** Whether `v` is of the kind a cache type asks for; the Serializable
      type (and any unknown type) accepts every kind. */
  predicate OfType(v: Value, cacheType: int) {
    if cacheType == StringType then v.Text?
    else if cacheType == JsonObjectType then v.JsonObj?
    else if cacheType == JsonArrayType then v.JsonArr?
    else if cacheType == BytesType then v.Binary?
    else if cacheType == BitmapType then v.Image?
    else if cacheType == DrawableType then v.Picture?
    else true
  }

  /** `getByCacheType`: the disk getter the cache type names; unknown types
      read the entry as serialised. */
  function GetByCacheType(p: Platform, t: Disk.DiskTier, key: string, cacheType: int, readFails: bool): (r: Option<Value>)
    ensures r.Some? ==> OfType(r.value, cacheType)
    ensures r.Some? ==> Disk.Contains(t, key, readFails)
    ensures cacheType == StringType ==>
      var s := Disk.GetAsString(p, t, key, readFails);
      r == if s.Some? then Some(Text(s.value)) else None
    ensures cacheType == JsonObjectType ==>
      var o := Disk.GetAsJsonObject(p, t, key, readFails);
      r == if o.Some? then Some(JsonObj(o.value)) else None
    ensures cacheType == JsonArrayType ==>
      var a := Disk.GetAsJsonArray(p, t, key, readFails);
      r == if a.Some? then Some(JsonArr(a.value)) else None
    ensures cacheType == BytesType ==>
      var b := Disk.GetAsBinary(t, key, readFails);
      r == if b.Some? then Some(Binary(b.value)) else None
    ensures cacheType == BitmapType ==>
      var bm := Disk.GetAsBitmap(p, t, key, readFails);
      r == if bm.Some? then Some(Image(bm.value)) else None
    ensures cacheType == DrawableType ==>
      var d := Disk.GetAsDrawable(p, t, key, readFails);
      r == if d.Some? then Some(Picture(d.value)) else None
    ensures !(StringType <= cacheType <= DrawableType) ==> r == Disk.GetSerializable(p, t, key, readFails)
  {
    if cacheType == StringType then
      match Disk.GetAsString(p, t, key, readFails) case None => None case Some(s) => Some(Text(s))
    else if cacheType == JsonObjectType then
      match Disk.GetAsJsonObject(p, t, key, readFails) case None => None case Some(o) => Some(JsonObj(o))
    else if cacheType == JsonArrayType then
      match Disk.GetAsJsonArray(p, t, key, readFails) case None => None case Some(a) => Some(JsonArr(a))
    else if cacheType == BytesType then
      match Disk.GetAsBinary(t, key, readFails) case None => None case Some(b) => Some(Binary(b))
    else if cacheType == BitmapType then
      match Disk.GetAsBitmap(p, t, key, readFails) case None => None case Some(bm) => Some(Image(bm))
    else if cacheType == DrawableType then
      match Disk.GetAsDrawable(p, t, key, readFails) case None => None case Some(d) => Some(Picture(d))
    else Disk.GetSerializable(p, t, key, readFails)
  }

  /** `get(key, cacheType)`. In `ALL_ALLOW` (both tiers present) a memory hit
      is returned without reading the disk; on a miss the disk is read by
      cache type and a hit is put into memory. The single-tier modes read
      only their tier. Only the memory tier's state changes. */
  function Get(p: Platform, m: Manager, key: string, cacheType: int, readFails: bool): (r: (Option<Value>, Manager))
    requires Valid(m)
    ensures Valid(r.1) && r.1 == m.(memory := r.1.memory)
    ensures r.1.memory.Some? == m.memory.Some?
    ensures Effective(m.mode) == AllAllow && m.memory.Some? && m.disk.Some? ==>
      var lru := m.memory.value;
      && (key in lru.values ==> r.0 == Some(lru.values[key]) && r.1.memory.value.values == lru.values)
      && (key !in lru.values ==> r.0 == GetByCacheType(p, m.disk.value, key, cacheType, readFails))
      && (key !in lru.values && r.0.Some? ==>
            key in r.1.memory.value.values && r.1.memory.value.values[key] == r.0.value)
      && (r.0.None? ==> r.1.memory.value.values == lru.values)
    ensures Effective(m.mode) == AllAllow && (m.memory.None? || m.disk.None?) ==> r == (None, m)
    ensures Effective(m.mode) == OnlyMemory ==>
      (r.0.Some? <==> m.memory.Some? && key in m.memory.value.values)
      && (r.0.Some? ==> r.0.value == m.memory.value.values[key])
    ensures Effective(m.mode) == OnlyDisk ==>
      r.1 == m && r.0 == (if m.disk.Some? then GetByCacheType(p, m.disk.value, key, cacheType, readFails) else None)
  {
    match Effective(m.mode)
    case 1 =>
      if m.memory.Some? then
        var (e, lru) := Mem.Get(m.memory.value, key);
        (e, m.(memory := Some(lru)))
      else (None, m)
    case 2 =>
      if m.disk.Some? then (GetByCacheType(p, m.disk.value, key, cacheType, readFails), m) else (None, m)
    case _ =>
      if m.memory.Some? && m.disk.Some? then
        var (e, lru) := Mem.Get(m.memory.value, key);
        if e.Some? then (e, m.(memory := Some(lru)))
        else
          var d := GetByCacheType(p, m.disk.value, key, cacheType, readFails);
          if d.Some? then (d, m.(memory := Some(Mem.Put(lru, key, d.value))))
          else (None, m.(memory := Some(lru)))
      else (None, m)
  }

  /** `get(key)`: the Serializable cache type. */
  function GetDefault(p: Platform, m: Manager, key: string, readFails: bool): (r: (Option<Value>, Manager))
    requires Valid(m)
    ensures Effective(m.mode) == OnlyDisk ==>
      r.0 == if m.disk.Some? then Disk.GetSerializable(p, m.disk.value, key, readFails) else None
    ensures Effective(m.mode) == OnlyMemory ==>
      r.0 == if m.memory.Some? && key in m.memory.value.values then Some(m.memory.value.values[key]) else None
    ensures Effective(m.mode) == AllAllow && m.memory.Some? && m.disk.Some? ==>
      && (key in m.memory.value.values ==> r.0 == Some(m.memory.value.values[key]))
      && (key !in m.memory.value.values ==> r.0 == Disk.GetSerializable(p, m.disk.value, key, readFails))
    ensures Effective(m.mode) == AllAllow && (m.memory.None? || m.disk.None?) ==> r.0.None?
    ensures Valid(r.1)
  {
    Get(p, m, key, SerializableType, readFails)
  }

  /** `contains(key)`: memory OR disk in `ALL_ALLOW` (the disk is asked only
      on a memory miss), the single tier otherwise, false when a tier it
      needs is missing. */
  function Contains(m: Manager, key: string, readFails: bool): (r: (bool, Manager))
    requires Valid(m)
    ensures Valid(r.1) && r.1 == m.(memory := r.1.memory)
    ensures r.1.memory.Some? == m.memory.Some?
    ensures r.1.memory.Some? ==> r.1.memory.value.values == m.memory.value.values
    ensures Effective(m.mode) == AllAllow ==>
      (r.0 <==> m.memory.Some? && m.disk.Some? &&
                (key in m.memory.value.values || Disk.Contains(m.disk.value, key, readFails)))
    ensures Effective(m.mode) == OnlyMemory ==> (r.0 <==> m.memory.Some? && key in m.memory.value.values)
    ensures Effective(m.mode) == OnlyDisk ==> (r.0 <==> m.disk.Some? && Disk.Contains(m.disk.value, key, readFails))
  {
    match Effective(m.mode)
    case 1 =>
      if m.memory.Some? then
        var (c, lru) := Mem.Contains(m.memory.value, key);
        (c, m.(memory := Some(lru)))
      else (false, m)
    case 2 =>
      if m.disk.Some? then (Disk.Contains(m.disk.value, key, readFails), m) else (false, m)
    case _ =>
      if m.memory.Some? && m.disk.Some? then
        var (c, lru) := Mem.Contains(m.memory.value, key);
        (c || Disk.Contains(m.disk.value, key, readFails), m.(memory := Some(lru)))
      else (false, m)
  }

  /** `remove(key)`: memory AND disk in `ALL_ALLOW`, evaluated left to right
      with short-circuit, so the disk entry is removed only when the memory
      tier held the key. */
  function Remove(m: Manager, key: string, ioFails: bool): (r: (bool, Manager))
    requires Valid(m)
    ensures Valid(r.1)
    ensures r.1.mode == m.mode && r.1.memory.Some? == m.memory.Some? && r.1.disk.Some? == m.disk.Some?
    ensures Effective(m.mode) == AllAllow && m.memory.Some? && m.disk.Some? ==>
      && r.1.memory.value.values == m.memory.value.values - {key}
      && (key in m.memory.value.values ==> (r.0, r.1.disk.value) == (Disk.Remove(m.disk.value, key, ioFails).1, Disk.Remove(m.disk.value, key, ioFails).0))
      && (key !in m.memory.value.values ==> !r.0 && r.1.disk == m.disk)
    ensures Effective(m.mode) == AllAllow && (m.memory.None? || m.disk.None?) ==> r == (false, m)
    ensures Effective(m.mode) == OnlyMemory ==>
      r.1.disk == m.disk && (r.0 <==> m.memory.Some? && key in m.memory.value.values)
    ensures Effective(m.mode) == OnlyMemory && m.memory.Some? ==>
      r.1.memory.value.values == m.memory.value.values - {key}
    ensures Effective(m.mode) == OnlyDisk ==>
      r.1.memory == m.memory && (r.0 <==> m.disk.Some? && !ioFails && Disk.Id(m.disk.value, key) in m.disk.value.store.entries)
    ensures Effective(m.mode) == OnlyDisk && m.disk.Some? ==>
      r.1.disk.value == Disk.Remove(m.disk.value, key, ioFails).0
  {
    match Effective(m.mode)
    case 1 =>
      if m.memory.Some? then
        var (lru, removed) := Mem.Remove(m.memory.value, key);
        (removed, m.(memory := Some(lru)))
      else (false, m)
    case 2 =>
      if m.disk.Some? then
        var (t, removed) := Disk.Remove(m.disk.value, key, ioFails);
        (removed, m.(disk := Some(t)))
      else (false, m)
    case _ =>
      if m.memory.Some? && m.disk.Some? then
        var (lru, inMemory) := Mem.Remove(m.memory.value, key);
        if inMemory then
          var (t, onDisk) := Disk.Remove(m.disk.value, key, ioFails);
          (onDisk, m.(memory := Some(lru), disk := Some(t)))
        else (false, m.(memory := Some(lru)))
      else (false, m)
  }

  /** `size()`: the entry count of the memory tier plus the byte count
      `diskSize` the disk store reports, summed in an `int` accumulator
      (`size += …` narrows each sum to `int`). In `ALL_ALLOW` each present
      tier is added, even when the other is missing. */
  function Size(m: Manager, diskSize: int): (n: int)
    requires Valid(m) && IsLong(diskSize)
    ensures IsInt(n)
    ensures var mem := if Effective(m.mode) != OnlyDisk && m.memory.Some? then Mem.Size(m.memory.value) else 0;
      var disk := if Effective(m.mode) != OnlyMemory && m.disk.Some? then diskSize else 0;
      && (IsInt(mem + disk) ==> n == mem + disk)
      && (n - (mem + disk)) % TwoTo32 == 0
  {
    var mem := if Effective(m.mode) != OnlyDisk && m.memory.Some? then Wrap32(0 + Mem.Size(m.memory.value)) else 0;
    if Effective(m.mode) != OnlyMemory && m.disk.Some? then Wrap32(mem + diskSize) else mem
  }

  /** `clear()`: both tiers in `ALL_ALLOW` (only when both exist), the
      active tier otherwise. */
  function Clear(m: Manager): (r: Manager)
    requires Valid(m)
    ensures Valid(r) && r.mode == m.mode
    ensures r.memory.Some? == m.memory.Some? && r.disk.Some? == m.disk.Some?
    ensures Effective(m.mode) == AllAllow && m.memory.Some? && m.disk.Some? ==>
      r.memory.value.values == map[] && r.disk.value.store.entries == map[]
    ensures Effective(m.mode) == AllAllow && (m.memory.None? || m.disk.None?) ==> r == m
    ensures Effective(m.mode) == OnlyMemory ==> r.disk == m.disk && (r.memory.Some? ==> r.memory.value.values == map[])
    ensures Effective(m.mode) == OnlyDisk ==> r.memory == m.memory && (r.disk.Some? ==> r.disk.value.store.entries == map[])
  {
    match Effective(m.mode)
    case 1 => if m.memory.Some? then m.(memory := Some(Mem.Clear(m.memory.value))) else m
    case 2 => if m.disk.Some? then m.(disk := Some(Disk.Clear(m.disk.value))) else m
    case _ =>
      if m.memory.Some? && m.disk.Some? then
        m.(memory := Some(Mem.Clear(m.memory.value)), disk := Some(Disk.Clear(m.disk.value)))
      else m
  }

  /** `flush()`: whether the disk store is asked to flush its journal. */
  function Flush(m: Manager): (flushed: bool)
    ensures flushed ==> m.disk.Some? && Effective(m.mode) != OnlyMemory
    ensures Effective(m.mode) == OnlyDisk ==> (flushed <==> m.disk.Some?)
    ensures Effective(m.mode) == AllAllow ==> (flushed <==> m.disk.Some? && m.memory.Some?)
  {
    match Effective(m.mode)
    case 1 => false
    case 2 => m.disk.Some?
    case _ => m.memory.Some? && m.disk.Some?
  }

  /** Any mode other than `ONLY_MEMORY` and `ONLY_DISK` makes `init` build
      what `ALL_ALLOW` builds. */
  lemma UnknownModeInitsAsAllAllow(env: Env, m: Manager, mode: int)
    requires IsLong(env.maxMemory)
    requires mode != OnlyMemory && mode != OnlyDisk
    ensures Init(env, m, mode).Ready? == Init(env, m, AllAllow).Ready?
    ensures Init(env, m, mode).Ready? ==>
      Init(env, m, mode).manager == Init(env, m, AllAllow).manager.(mode := mode)
  {
  }

  /** Under any unknown mode, `put` and `clear` change the tiers exactly as
      under `ALL_ALLOW`. */
  lemma UnknownModeUpdatesAsAllAllow(p: Platform, m: Manager, mode: int, key: string, v: Value, fault: Disk.WriteFault)
    requires Valid(m)
    requires mode != OnlyMemory && mode != OnlyDisk
    ensures Put(p, m.(mode := mode), key, v, fault) == Put(p, m.(mode := AllAllow), key, v, fault).(mode := mode)
    ensures Clear(m.(mode := mode)) == Clear(m.(mode := AllAllow)).(mode := mode)
  {
  }

  /** Under any unknown mode, the queries answer as under `ALL_ALLOW`. */
  lemma UnknownModeAnswersAsAllAllow(p: Platform, m: Manager, mode: int, key: string, cacheType: int,
                                     readFails: bool, diskSize: int)
    requires Valid(m) && IsLong(diskSize)
    requires mode != OnlyMemory && mode != OnlyDisk
    ensures Get(p, m.(mode := mode), key, cacheType, readFails).0 == Get(p, m.(mode := AllAllow), key, cacheType, readFails).0
    ensures Contains(m.(mode := mode), key, readFails).0 == Contains(m.(mode := AllAllow), key, readFails).0
    ensures Remove(m.(mode := mode), key, readFails).0 == Remove(m.(mode := AllAllow), key, readFails).0
    ensures Size(m.(mode := mode), diskSize) == Size(m.(mode := AllAllow), diskSize)
    ensures Flush(m.(mode := mode)) == Flush(m.(mode := AllAllow))
  {
    UnknownModeGets(p, m, mode, key, cacheType, readFails);
    UnknownModeContains(m, mode, key, readFails);
    UnknownModeRemoves(m, mode, key, readFails);
    UnknownModeSizes(m, mode, diskSize);
  }

  lemma UnknownModeSizes(m: Manager, mode: int, diskSize: int)
    requires Valid(m) && IsLong(diskSize) && Effective(mode) == AllAllow
    ensures Size(m.(mode := mode), diskSize) == Size(m.(mode := AllAllow), diskSize)
  {
  }

  lemma UnknownModeGets(p: Platform, m: Manager, mode: int, key: string, cacheType: int, readFails: bool)
    requires Valid(m) && Effective(mode) == AllAllow
    ensures Get(p, m.(mode := mode), key, cacheType, readFails).0 == Get(p, m.(mode := AllAllow), key, cacheType, readFails).0
  {
  }

  lemma UnknownModeContains(m: Manager, mode: int, key: string, readFails: bool)
    requires Valid(m) && Effective(mode) == AllAllow
    ensures Contains(m.(mode := mode), key, readFails).0 == Contains(m.(mode := AllAllow), key, readFails).0
  {
  }

  lemma UnknownModeRemoves(m: Manager, mode: int, key: string, ioFails: bool)
    requires Valid(m) && Effective(mode) == AllAllow
    ensures Remove(m.(mode := mode), key, ioFails).0 == Remove(m.(mode := AllAllow), key, ioFails).0
  {
  }

  /** `ALL_ALLOW`: a value put is the value a later get returns, from
      memory, whatever the disk did and whatever type is asked for. */
  lemma AllAllowPutThenGet(p: Platform, m: Manager, key: string, v: Value, fault: Disk.WriteFault, cacheType: int, readFails: bool)
    requires Valid(m) && Effective(m.mode) == AllAllow && m.memory.Some? && m.disk.Some?
    ensures Get(p, Put(p, m, key, v, fault), key, cacheType, readFails).0 == Some(v)
  {
  }

  /** `ONLY_MEMORY`: put then get returns the value, and the disk is not
      touched. */
  lemma OnlyMemoryPutThenGet(p: Platform, m: Manager, key: string, v: Value, fault: Disk.WriteFault, cacheType: int, readFails: bool)
    requires Valid(m) && m.mode == OnlyMemory && m.memory.Some?
    ensures Get(p, Put(p, m, key, v, fault), key, cacheType, readFails).0 == Some(v)
    ensures Put(p, m, key, v, fault).disk == m.disk
  {
  }

  /** `ONLY_DISK`: every value goes through Java serialisation, so a plain
      `get(key)` returns it when serialisation round-trips; a value that
      cannot be serialised leaves the previous entry readable. */
  lemma OnlyDiskPutThenGet(p: Platform, m: Manager, key: string, v: Value)
    requires Valid(m) && m.mode == OnlyDisk && m.disk.Some?
    requires Disk.Id(m.disk.value, key) !in m.disk.value.store.editing
    requires SerialisationRoundTrips(p)
    ensures p.serialize(v).Some? ==> GetDefault(p, Put(p, m, key, v, Disk.NoFault), key, false).0 == Some(v)
    ensures p.serialize(v).None? ==>
      GetDefault(p, Put(p, m, key, v, Disk.NoFault), key, false).0 == GetDefault(p, m, key, false).0
    ensures Put(p, m, key, v, Disk.NoFault).memory == m.memory
  {
    var t := m.disk.value;
    var t' := Put(p, m, key, v, Disk.NoFault).disk.value;
    assert Disk.Id(t', key) == Disk.Id(t, key);
  }

  /** The cache type whose getter reads back what the typed overload of
      `put` writes for a value. */
  function CacheTypeOf(v: Value): int {
    match v
    case Text(_) => StringType
    case JsonObj(_) => JsonObjectType
    case JsonArr(_) => JsonArrayType
    case Binary(_) => BytesType
    case Image(_) => BitmapType
    case Picture(_) => DrawableType
    case Other(_) => SerializableType
  }

  /** A typed read after a typed write: when the platform codecs round-trip,
      reading by the value's own cache type returns the value written. The
      one exception is a drawable, which is stored as the bitmap it draws
      and so reads back as a `BitmapDrawable` of that bitmap. */
  lemma TypedReadAfterPut(p: Platform, t: Disk.DiskTier, key: string, v: Value)
    requires Disk.Id(t, key) !in t.store.editing
    requires TextRoundTrips(p) && JsonObjectRoundTrips(p) && JsonArrayRoundTrips(p)
    requires ImagesRoundTrip(p) && SerialisationRoundTrips(p)
    requires DiskForm(p, v).Some?
    ensures GetByCacheType(p, DiskPut(p, t, key, v, Disk.NoFault), key, CacheTypeOf(v), false)
         == Some(if v.Picture? then Picture(BitmapDrawable(p.drawableToBitmap(v.drawable))) else v)
  {
    var t' := DiskPut(p, t, key, v, Disk.NoFault);
    assert Disk.Id(t', key) == Disk.Id(t, key);
    assert Disk.Read(t', key, false) == DiskForm(p, v);
    match v
    case Text(s) =>
      assert p.decodeText(p.encodeText(s)) == s;
    case JsonObj(o) =>
      assert p.decodeText(p.encodeText(p.jsonObjectText(o))) == p.jsonObjectText(o);
      assert p.parseJsonObject(p.jsonObjectText(o)) == Some(o);
    case JsonArr(a) =>
      assert p.decodeText(p.encodeText(p.jsonArrayText(a))) == p.jsonArrayText(a);
      assert p.parseJsonArray(p.jsonArrayText(a)) == Some(a);
    case Binary(b) =>
    case Image(bm) =>
      assert |p.compressPng(bm)| > 0 && p.decodeBitmap(p.compressPng(bm)) == Some(bm);
    case Picture(d) =>
      var bm := p.drawableToBitmap(d);
      assert |p.compressPng(bm)| > 0 && p.decodeBitmap(p.compressPng(bm)) == Some(bm);
    case Other(_) =>
      assert p.deserialize(p.serialize(v).value) == Some(v);
  }

  /** `ONLY_MEMORY`: `size()` is the memory tier's entry count, which a put
      of a new key raises by one (up to the capacity) and a removal of a
      cached key lowers by one. */
  lemma OnlyMemorySizeCounts(p: Platform, m: Manager, key: string, v: Value, fault: Disk.WriteFault,
                             ioFails: bool, diskSize: int)
    requires Valid(m) && Effective(m.mode) == OnlyMemory && m.memory.Some? && IsLong(diskSize)
    ensures Size(m, diskSize) == |m.memory.value.values|
    ensures Size(Put(p, m, key, v, fault), diskSize) ==
      if key in m.memory.value.values then Size(m, diskSize)
      else Min(Size(m, diskSize) + 1, m.memory.value.capacity)
    ensures Size(Remove(m, key, ioFails).1, diskSize) ==
      if key in m.memory.value.values then Size(m, diskSize) - 1 else Size(m, diskSize)
  {
    var lru := m.memory.value;
    Mem.SizeAfterPutAndRemove(lru, key, v);
    var put := Put(p, m, key, v, fault);
    assert put.memory == Some(Mem.Put(lru, key, v));
    OnlyMemorySizeIsCount(m, diskSize);
    OnlyMemorySizeIsCount(put, diskSize);
    var removed := Remove(m, key, ioFails).1;
    assert removed.memory == Some(Mem.Remove(lru, key).0);
    OnlyMemorySizeIsCount(removed, diskSize);
  }

  lemma OnlyMemorySizeIsCount(m: Manager, diskSize: int)
    requires Valid(m) && Effective(m.mode) == OnlyMemory && m.memory.Some? && IsLong(diskSize)
    ensures Size(m, diskSize) == Mem.Size(m.memory.value)
  {
  }

  /** `ALL_ALLOW` promotion: after a memory miss that the disk answers, the
      value sits in memory, so the next get returns it even if the disk read
      would now fail. */
  lemma MissPromotesDiskHit(p: Platform, m: Manager, key: string, cacheType: int)
    requires Valid(m) && Effective(m.mode) == AllAllow && m.memory.Some? && m.disk.Some?
    requires key !in m.memory.value.values
    requires GetByCacheType(p, m.disk.value, key, cacheType, false).Some?
    ensures var (first, m') := Get(p, m, key, cacheType, false);
      first == GetByCacheType(p, m.disk.value, key, cacheType, false)
      && Get(p, m', key, cacheType, true).0 == first
  {
  }

  /** `ALL_ALLOW` remove short-circuits: a key the memory tier does not hold
      reports false and its disk entry survives, even though the disk held
      it. */
  lemma RemoveSkipsDiskOnMemoryMiss(m: Manager, key: string)
    requires Valid(m) && Effective(m.mode) == AllAllow && m.memory.Some? && m.disk.Some?
    requires key !in m.memory.value.values
    requires Disk.Contains(m.disk.value, key, false)
    ensures !Remove(m, key, false).0
    ensures Disk.Contains(Remove(m, key, false).1.disk.value, key, false)
  {
  }

  /** Once a memory size is set, the memory tier is built from the disk
      size: with no disk size set (0) its capacity is 0 and `init` crashes;
      with a disk size of 1 MiB the memory tier gets 1 GiB of entries. */
  lemma MemoryTierSizedFromDiskSize(env: Env, m: Manager)
    requires IsLong(env.maxMemory) && m.maxMemoryCacheSize > 0
    ensures m.maxDiskCacheSize == 0 ==> InitMemory(env, m).Crashed?
    ensures m.maxDiskCacheSize == 1024 * 1024 ==>
      InitMemory(env, m).Ready? && InitMemory(env, m).manager.memory.value.capacity == 1024 * 1024 * 1024
  {
  }

  /** A memory size below 1 KiB truncates to 0 and leaves the default size in
      force. */
  lemma SmallMemorySizeIgnored(env: Env, m: Manager, maxSize: Int32)
    requires IsLong(env.maxMemory) && 0 <= maxSize < 1024
    ensures InitMemory(env, SetMaxMemoryCacheSize(m, maxSize)).Ready? ==>
      InitMemory(env, SetMaxMemoryCacheSize(m, maxSize)).manager.memory.value.capacity
        == Wrap32(Mem.DefaultMaxSize(env.maxMemory) * 1024)
  {
  }
}
