/** The journaled LRU store both disk caches sit on (`DiskLruCache`), seen
    only through the surface its callers use: committed values by entry id,
    the ids that currently have an editor open, and the byte budget it was
    opened with. Journal replay, compaction and eviction order are not part
    of this model. */
module KeyedStore {
  import opened Common

  datatype Store<V> = Store(entries: map<string, V>, editing: set<string>, maxSize: int)

  /** A freshly opened store over a directory that already holds `entries`. */
  function Open<V>(entries: map<string, V>, maxSize: int): (s: Store<V>)
    ensures s.entries == entries && s.editing == {} && s.maxSize == maxSize
  {
    Store(entries, {}, maxSize)
  }

  /** `get(id)`: a snapshot of the committed value, or null. */
  function Lookup<V>(s: Store<V>, id: string): (r: Option<V>)
    ensures r.Some? <==> id in s.entries
    ensures r.Some? ==> r.value == s.entries[id]
  {
    if id in s.entries then Some(s.entries[id]) else None
  }

  /** `edit(id)`: null while another editor is open on the same id;
      otherwise the id becomes busy until the edit completes. */
  function BeginEdit<V>(s: Store<V>, id: string): (r: Option<Store<V>>)
    ensures r.Some? <==> id !in s.editing
    ensures r.Some? ==> r.value.editing == s.editing + {id}
    ensures r.Some? ==> r.value.entries == s.entries && r.value.maxSize == s.maxSize
  {
    if id in s.editing then None else Some(s.(editing := s.editing + {id}))
  }

  /** `commit()` of an open edit: the new value replaces any old one and the
      id is free again. */
  function Commit<V>(s: Store<V>, id: string, v: V): (r: Store<V>)
    ensures r.entries.Keys == s.entries.Keys + {id}
    ensures r.entries[id] == v
    ensures forall k :: k in s.entries && k != id ==> r.entries[k] == s.entries[k]
    ensures r.editing == s.editing - {id} && r.maxSize == s.maxSize
  {
    Store(s.entries[id := v], s.editing - {id}, s.maxSize)
  }

  /** `abort()` of an open edit: previously committed data is kept and the
      id is free again. */
  function Abort<V>(s: Store<V>, id: string): (r: Store<V>)
    ensures r.entries == s.entries && r.editing == s.editing - {id} && r.maxSize == s.maxSize
  {
    s.(editing := s.editing - {id})
  }

  /** `remove(id)`: whether an entry existed; afterwards none does. */
  function Remove<V>(s: Store<V>, id: string): (r: (Store<V>, bool))
    ensures r.1 <==> id in s.entries
    ensures r.0.entries.Keys == s.entries.Keys - {id}
    ensures forall k :: k in r.0.entries ==> r.0.entries[k] == s.entries[k]
    ensures r.0.editing == s.editing && r.0.maxSize == s.maxSize
  {
    (s.(entries := s.entries - {id}), id in s.entries)
  }

  /** `delete()`: the directory is wiped. */
  function Clear<V>(s: Store<V>): (r: Store<V>)
    ensures r.entries == map[] && r.editing == {} && r.maxSize == s.maxSize
  {
    Store(map[], {}, s.maxSize)
  }

  /** Removing twice leaves the same store as removing once, and the second
      removal reports that nothing was there. */
  lemma RemoveIdempotent<V>(s: Store<V>, id: string)
    ensures Remove(Remove(s, id).0, id).0 == Remove(s, id).0
    ensures !Remove(Remove(s, id).0, id).1
  {
  }

  /** What an edit commits is what a later snapshot shows. */
  lemma CommitThenLookup<V>(s: Store<V>, id: string, v: V, other: string)
    ensures Lookup(Commit(s, id, v), id) == Some(v)
    ensures other != id ==> Lookup(Commit(s, id, v), other) == Lookup(s, other)
  {
  }
}
