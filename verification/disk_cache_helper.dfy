/** `DiskCacheHelper`: a string cache on the journaled store whose entries
    carry their own expiry. A write appends the creation time and the
    helper's time-to-live to the value; a read parses them back, returns the
    value while it is fresh and deletes the entry once it is not. Keys reach
    the store only through `hashKeyForDisk`. */
module DiskCacheHelper {
  import opened Common
  import opened KeyCodec
  import opened ExpirySuffix
  import KeyedStore
  import Values

  /** The helper's state: its store of stamped strings, the time-to-live
      given to new entries (`cacheTime`), and the platform's MD5. */
  datatype Helper = Helper(store: KeyedStore.Store<string>, cacheTime: int, md5: Md5Service)

  /** A write either returns normally or ends in an uncaught exception: the
      store refused an editor (`edit` returned null) and `editor.set`
      dereferenced it. */
  datatype PutOutcome = Stored(helper: Helper) | Crashed

  /** A helper over an opened store: entries never expire until
      `setCacheTime` says otherwise. */
  function New(store: KeyedStore.Store<string>, md5: Md5Service): (h: Helper)
    ensures h.cacheTime == NeverExpire
    ensures h.store == store && h.md5 == md5
  {
    Helper(store, NeverExpire, md5)
  }

  /** The entry id of a key (`getMd5Key`). */
  function Name(h: Helper, key: string): string {
    HashKeyForDisk(h.md5, key)
  }

  /** `setCacheTime`: the time-to-live of later writes; nothing stored
      changes. */
  function SetCacheTime(h: Helper, cacheTime: int): (r: Helper)
    ensures r.cacheTime == cacheTime
    ensures r.store == h.store && r.md5 == h.md5
  {
    h.(cacheTime := cacheTime)
  }

  /** `get(key)` at clock time `now`: the stored value with its stamp cut
      off while it is fresh, otherwise null. An expired entry is deleted on
      the way; empty content and content whose stamp cannot be parsed or
      cut yield null and stay. `readFails` is an exception inside the read
      (opening the snapshot, reading it, or deleting the expired entry): it
      is caught, the result is null and the store is left as it was. */
  function Get(h: Helper, key: string, now: int, readFails: bool): (r: (Option<string>, Helper))
    ensures readFails ==> r == (None, h)
    ensures var id := Name(h, key);
      id !in h.store.entries ==> r == (None, h)
    ensures var id := Name(h, key);
      r.0.Some? ==>
        && r.1 == h && id in h.store.entries
        && var content := h.store.entries[id];
        && |r.0.value| < |content| && content[..|r.0.value|] == r.0.value
        && HasAt(content, |r.0.value|, CreateTag)
        && IndexOf(r.0.value, CreateTag) == -1
    ensures r.1 == h || (r.0.None? && r.1 == h.(store := KeyedStore.Remove(h.store, Name(h, key)).0))
  {
    var id := Name(h, key);
    if readFails then (None, h)
    else
      match KeyedStore.Lookup(h.store, id)
      case None => (None, h)
      case Some(content) =>
        if |content| == 0 then (None, h)
        else
          match Decode(content, now)
          case Fresh(value) =>
            FreshIsCutPrefix(content, now);
            (Some(value), h)
          case Expired => (None, h.(store := KeyedStore.Remove(h.store, id).0))
          case Faulted => (None, h)
  }

  /** What can go wrong inside `put`: the probe `get` failing (it catches
      its own exception and answers null, so `put` goes on), and an
      IOException from `cache.remove`, from `cache.edit` or from
      `editor.set`. The last three are caught by `put` and end it; after a
      failed `set` the editor stays open. */
  datatype PutFaults = PutFaults(probeRead: bool, removal: bool, edit: bool, write: bool)

  const NoFaults: PutFaults := PutFaults(false, false, false, false)

  /** Whether the probe in `put` finds a non-empty value, which makes `put`
      remove the entry before editing it. */
  predicate ProbeHits(h: Helper, key: string, probeNow: int, f: PutFaults) {
    var found := Get(h, Name(h, key), probeNow, f.probeRead).0;
    found.Some? && |found.value| > 0
  }

  /** Whether `put` gets as far as `cache.edit` and it returns. */
  predicate ReachesEditor(h: Helper, key: string, probeNow: int, f: PutFaults) {
    !f.edit && !(f.removal && ProbeHits(h, key, probeNow, f))
  }

  /** `put(key, value)`. An empty key or value changes nothing. Otherwise
      the helper probes `get(name)` at clock time `probeNow` with the
      ALREADY hashed name, so the probe reads (and may expire) the entry of
      `hashKeyForDisk(name)`; when the probe finds something, the entry
      `name` is removed. Then `name` is edited and the value, stamped with
      the clock time `now` read afterwards, is committed. The faults `f`
      stop the write where their exception is raised. */
  function Put(h: Helper, key: string, value: string, probeNow: int, now: int, f: PutFaults): (r: PutOutcome)
    ensures |key| == 0 || |value| == 0 ==> r == Stored(h)
    ensures |key| > 0 && |value| > 0 ==>
      (r.Crashed? <==> Name(h, key) in h.store.editing && ReachesEditor(h, key, probeNow, f))
    ensures r.Stored? ==> r.helper.cacheTime == h.cacheTime && r.helper.md5 == h.md5
    ensures r.Stored? && |key| > 0 && |value| > 0 && ReachesEditor(h, key, probeNow, f) && !f.write ==>
      && r.helper.store.entries.Keys >= {Name(h, key)}
      && r.helper.store.entries[Name(h, key)] == Stamp(value, now, h.cacheTime)
      && r.helper.store.editing == h.store.editing
    ensures r.Stored? && |key| > 0 && |value| > 0 && ReachesEditor(h, key, probeNow, f) && f.write ==>
      r.helper.store.editing == h.store.editing + {Name(h, key)}
    ensures |key| > 0 && |value| > 0 && !ReachesEditor(h, key, probeNow, f) ==>
      && r.Stored? && r.helper.store.editing == h.store.editing
      && (Name(h, key) in r.helper.store.entries ==>
            Name(h, key) in h.store.entries
            && r.helper.store.entries[Name(h, key)] == h.store.entries[Name(h, key)])
    ensures r.Stored? ==> forall k :: k != Name(h, key) && k != Name(h, Name(h, key)) ==>
      (k in r.helper.store.entries <==> k in h.store.entries) &&
      (k in h.store.entries ==> r.helper.store.entries[k] == h.store.entries[k])
  {
    if |key| == 0 || |value| == 0 then Stored(h)
    else
      var (h2, thrown) := Probe(h, key, probeNow, f);
      if thrown || f.edit then Stored(h2)
      else Write(h2, Name(h, key), Stamp(value, now, h.cacheTime), f.write)
  }

  /** The pre-check of `put`: the probe read of `name` (which may delete
      the expired entry of the twice-hashed key) and, when it found
      something, the removal of `name`. The flag says that the removal
      threw, which ends `put`. Only those two entries can change. */
  function Probe(h: Helper, key: string, probeNow: int, f: PutFaults): (r: (Helper, bool))
    ensures r.1 <==> f.removal && ProbeHits(h, key, probeNow, f)
    ensures r.0.cacheTime == h.cacheTime && r.0.md5 == h.md5 && r.0.store.editing == h.store.editing
    ensures Name(h, key) in r.0.store.entries ==>
      Name(h, key) in h.store.entries && r.0.store.entries[Name(h, key)] == h.store.entries[Name(h, key)]
    ensures forall k :: k != Name(h, key) && k != Name(h, Name(h, key)) ==>
      (k in r.0.store.entries <==> k in h.store.entries) &&
      (k in h.store.entries ==> r.0.store.entries[k] == h.store.entries[k])
  {
    var name := Name(h, key);
    var probe := Get(h, name, probeNow, f.probeRead);
    var hit := probe.0.Some? && |probe.0.value| > 0;
    if hit && f.removal then (probe.1, true)
    else if hit then (h.(store := KeyedStore.Remove(h.store, name).0), false)
    else (probe.1, false)
  }

  /** The edit that ends `put`: `cache.edit(name)` returns null while an
      editor is open, and `editor.set` then throws past `put`; otherwise
      the stamped content is committed, or, when `set` fails, the editor is
      left open. */
  function Write(h: Helper, name: string, content: string, writeFails: bool): (r: PutOutcome)
    ensures r.Crashed? <==> name in h.store.editing
    ensures r.Stored? ==> r.helper.cacheTime == h.cacheTime && r.helper.md5 == h.md5
    ensures r.Stored? && !writeFails ==>
      && r.helper.store.entries == h.store.entries[name := content]
      && r.helper.store.editing == h.store.editing
    ensures r.Stored? && writeFails ==>
      r.helper.store.entries == h.store.entries && r.helper.store.editing == h.store.editing + {name}
  {
    match KeyedStore.BeginEdit(h.store, name)
    case None => Crashed
    case Some(editing) =>
      if writeFails then Stored(h.(store := editing))
      else Stored(h.(store := KeyedStore.Commit(editing, name, content)))
  }

  /** `put(key, Object)`: a bitmap is stored as the Base64 text of its PNG
      encoding; every other object is ignored. */
  function PutObject(p: Values.Platform, h: Helper, key: string, v: Values.Value, probeNow: int, now: int, f: PutFaults): (r: PutOutcome)
    ensures !v.Image? ==> r == Stored(h)
    ensures v.Image? ==> r == Put(h, key, p.base64(p.compressPng(v.bitmap)), probeNow, now, f)
  {
    match v
    case Image(bm) => Put(h, key, p.base64(p.compressPng(bm)), probeNow, now, f)
    case _ => Stored(h)
  }

  /** `remove(key)`: whether the store held the entry; afterwards it does
      not, and every other entry keeps its value. `ioFails` is an exception
      from the store: it is caught, the answer is false and nothing
      changes. */
  function Remove(h: Helper, key: string, ioFails: bool): (r: (Helper, bool))
    ensures ioFails ==> r == (h, false)
    ensures r.1 <==> !ioFails && Name(h, key) in h.store.entries
    ensures r.0.store.entries.Keys == if ioFails then h.store.entries.Keys else h.store.entries.Keys - {Name(h, key)}
    ensures forall k :: k in r.0.store.entries ==> r.0.store.entries[k] == h.store.entries[k]
    ensures r.0.store.editing == h.store.editing && r.0.store.maxSize == h.store.maxSize
    ensures r.0.cacheTime == h.cacheTime && r.0.md5 == h.md5
  {
    if ioFails then (h, false)
    else
      var (s, existed) := KeyedStore.Remove(h.store, Name(h, key));
      (h.(store := s), existed)
  }

  /** `contains(key)`: whether the store yields a snapshot. The stamp is not
      read, so an expired entry is still contained. An IOException from the
      lookup is caught and answers false. */
  function Contains(h: Helper, key: string, readFails: bool): (r: bool)
    ensures r <==> !readFails && KeyedStore.Lookup(h.store, Name(h, key)).Some?
  {
    !readFails && Name(h, key) in h.store.entries
  }

  /** Put then get: a value that does not contain the tag, written at time
      `now`, reads back unchanged while `now + cacheTime` lies after the
      read time (or the helper never expires entries), and reads as null
      afterwards, when the read also deletes the entry. */
  lemma PutThenGet(h: Helper, key: string, value: string, probeNow: int, now: int, later: int)
    requires |key| > 0 && |value| > 0
    requires IndexOf(value, CreateTag) == -1
    requires 0 <= now <= LongMax && IsLong(h.cacheTime)
    requires Name(h, key) !in h.store.editing
    ensures Put(h, key, value, probeNow, now, NoFaults).Stored?
    ensures var h' := Put(h, key, value, probeNow, now, NoFaults).helper;
      var live := h.cacheTime == NeverExpire || Wrap64(now + h.cacheTime) > later;
      && Get(h', key, later, false).0 == (if live then Some(value) else None)
      && (!live ==> !Contains(Get(h', key, later, false).1, key, false))
  {
    PutStoresStamp(h, key, value, probeNow, now);
    var h' := Put(h, key, value, probeNow, now, NoFaults).helper;
    StampRoundTrip(value, now, h.cacheTime, later);
    GetReadsDecode(h', key, later);
  }

  /** A write without faults to an entry with no open editor stores the
      stamped value under the hashed key. */
  lemma PutStoresStamp(h: Helper, key: string, value: string, probeNow: int, now: int)
    requires |key| > 0 && |value| > 0
    requires Name(h, key) !in h.store.editing
    ensures Put(h, key, value, probeNow, now, NoFaults).Stored?
    ensures var h' := Put(h, key, value, probeNow, now, NoFaults).helper;
      && Name(h', key) == Name(h, key) && Name(h, key) in h'.store.entries
      && h'.store.entries[Name(h, key)] == Stamp(value, now, h.cacheTime)
  {
    assert ReachesEditor(h, key, probeNow, NoFaults);
  }

  /** A read of non-empty content follows the read decision on it: a fresh
      value is returned as is, an expired entry reads as null and is gone
      afterwards. */
  lemma GetReadsDecode(h: Helper, key: string, now: int)
    requires Name(h, key) in h.store.entries && |h.store.entries[Name(h, key)]| > 0
    ensures var d := Decode(h.store.entries[Name(h, key)], now);
      && (d.Fresh? ==> Get(h, key, now, false).0 == Some(d.value))
      && (d.Expired? ==> Get(h, key, now, false).0.None? && !Contains(Get(h, key, now, false).1, key, false))
  {
  }

  /** With the default time-to-live a stored value never expires. */
  lemma DefaultNeverExpires(store: KeyedStore.Store<string>, md5: Md5Service, key: string, value: string,
                            probeNow: int, now: int, later: int)
    requires |key| > 0 && |value| > 0
    requires IndexOf(value, CreateTag) == -1
    requires 0 <= now <= LongMax
    requires HashKeyForDisk(md5, key) !in store.editing
    ensures Get(Put(New(store, md5), key, value, probeNow, now, NoFaults).helper, key, later, false).0 == Some(value)
  {
    PutThenGet(New(store, md5), key, value, probeNow, now, later);
  }

  /** An entry whose content carries no well-formed stamp reads as null at
      any non-negative time and is deleted by the read. */
  lemma UnstampedEntryIsDeleted(h: Helper, key: string, now: int)
    requires Name(h, key) in h.store.entries
    requires var content := h.store.entries[Name(h, key)];
      |content| > 0 && FindFrom(content, 0).None?
    requires now >= 0
    ensures Get(h, key, now, false).0.None?
    ensures !Contains(Get(h, key, now, false).1, key, false)
  {
    UnstampedContentExpires(h.store.entries[Name(h, key)], now);
  }

  /** `contains` does not look at the stamp: right after a write with a
      time-to-live of 0 (which expires at once) the key is contained, yet
      `get` at the same instant returns null. */
  lemma ContainsIgnoresExpiry(h: Helper, key: string, value: string, probeNow: int, now: int)
    requires |key| > 0 && |value| > 0
    requires IndexOf(value, CreateTag) == -1
    requires 0 <= now <= LongMax && h.cacheTime == 0
    requires Name(h, key) !in h.store.editing
    ensures var h' := Put(h, key, value, probeNow, now, NoFaults).helper;
      Contains(h', key, false) && Get(h', key, now, false).0.None?
  {
    PutThenGet(h, key, value, probeNow, now, now);
  }

  /** The probe in `put` reads the entry of the twice-hashed key: when that
      entry is a different, non-empty and unstamped one, writing `key`
      deletes it. */
  lemma PutProbesTwiceHashedKey(h: Helper, key: string, value: string, probeNow: int, now: int)
    requires |key| > 0 && |value| > 0 && probeNow >= 0
    requires Name(h, key) !in h.store.editing
    requires var probed := Name(h, Name(h, key));
      && probed != Name(h, key) && probed in h.store.entries
      && |h.store.entries[probed]| > 0 && FindFrom(h.store.entries[probed], 0).None?
    ensures var probed := Name(h, Name(h, key));
      && Put(h, key, value, probeNow, now, NoFaults).Stored?
      && probed !in Put(h, key, value, probeNow, now, NoFaults).helper.store.entries
  {
    var name := Name(h, key);
    UnstampedContentExpires(h.store.entries[Name(h, name)], probeNow);
  }

  /** Remove then read: after a successful `remove` the key is neither
      contained nor readable, while every key with a different entry id
      reads and is contained exactly as before. */
  lemma RemoveThenAbsent(h: Helper, key: string, other: string, now: int, readFails: bool)
    ensures var h' := Remove(h, key, false).0;
      && !Contains(h', key, readFails) && Get(h', key, now, readFails).0.None?
      && (Name(h, other) != Name(h, key) ==>
            && Contains(h', other, readFails) == Contains(h, other, readFails)
            && Get(h', other, now, readFails).0 == Get(h, other, now, readFails).0)
  {
    var h' := Remove(h, key, false).0;
    assert Name(h', other) == Name(h, other);
    if Name(h, other) != Name(h, key) && Name(h, other) in h.store.entries {
      assert h'.store.entries[Name(h, other)] == h.store.entries[Name(h, other)];
    }
  }
}
