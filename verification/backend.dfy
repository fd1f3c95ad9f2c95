/** The Redis keyspace as the store sees it, and the write commands it sends. */
module Backend {
  import opened Types

  /** Hash keys to hash contents, plus whether the marker key exists. */
  datatype State = State(hashes: map<string, Collection>, inited: bool)

  /** A Redis database that has never been written. */
  const Empty: State := State(map[], false)

  /** HGETALL: Redis reads a missing key as an empty hash. */
  function View(s: State, hashKey: string): Collection
  {
    if hashKey in s.hashes then s.hashes[hashKey] else map[]
  }

  /** HGET: one field of a hash, absent when either the hash or the field is missing. */
  function Field(s: State, hashKey: string, field: string): Option<Item>
  {
    var h := View(s, hashKey);
    if field in h then Some(h[field]) else None
  }

  /** The hash stored under a key, if the key exists. */
  function Slot(s: State, hashKey: string): Option<Collection>
  {
    if hashKey in s.hashes then Some(s.hashes[hashKey]) else None
  }

  /** `t` agrees with `s` on every hash key outside `keys`: same presence, same contents. */
  ghost predicate SameOutside(s: State, t: State, keys: set<string>)
  {
    forall k :: k !in keys ==> Slot(t, k) == Slot(s, k)
  }

  /** Two states whose every key holds the same hash have the same key space. */
  lemma SlotsDetermineHashes(s: State, t: State)
    requires forall k :: Slot(s, k) == Slot(t, k)
    ensures s.hashes == t.hashes
  {
    forall k | k in s.hashes
      ensures k in t.hashes && s.hashes[k] == t.hashes[k]
    {
      assert Slot(s, k) == Slot(t, k);
    }
    forall k | k in t.hashes
      ensures k in s.hashes
    {
      assert Slot(s, k) == Slot(t, k);
    }
  }

  /** The commands the store queues in a MULTI block; `SetInited` is `SET <prefix>:$inited ''`. */
  datatype Command =
    | Del(hashKey: string)
    | HmSet(hashKey: string, fields: Collection)
    | HSet(hashKey: string, field: string, item: Item)
    | SetInited

  /** One command's effect, as Redis defines it: DEL removes the key, HMSET merges fields into
      the hash, HSET sets one field, SET creates the marker. Each touches its own key (or the
      marker) and nothing else. */
  function Apply(s: State, c: Command): (t: State)
    ensures c.SetInited? ==> t.inited && t.hashes == s.hashes
    ensures !c.SetInited? ==> t.inited == s.inited && SameOutside(s, t, {c.hashKey})
    ensures c.Del? ==> Slot(t, c.hashKey) == None
    ensures c.HmSet? ==> Slot(t, c.hashKey) == Some(View(s, c.hashKey) + c.fields)
    ensures c.HSet? ==> Field(t, c.hashKey, c.field) == Some(c.item)
    ensures c.HSet? ==> forall f :: f != c.field ==> Field(t, c.hashKey, f) == Field(s, c.hashKey, f)
  {
    match c
    case Del(k) => s.(hashes := s.hashes - {k})
    case HmSet(k, fields) => s.(hashes := s.hashes[k := View(s, k) + fields])
    case HSet(k, f, item) => s.(hashes := s.hashes[k := View(s, k)[f := item]])
    case SetInited => s.(inited := true)
  }
}
