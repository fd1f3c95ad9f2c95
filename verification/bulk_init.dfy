/** `initInternal`: replace the named collections and set the marker, in one transaction. */
module BulkInit {
  import opened Types
  import opened Keys
  import opened Backend
  import opened Reads

  /** Redis keeps no empty hash: a collection with no records has no key at all. */
  function Stored(items: Collection): (r: Option<Collection>)
    ensures r.None? <==> items == map[]
  {
    if items == map[] then None else Some(items)
  }

  /** What a committed initialisation leaves behind: every collection named in `data` holds
      exactly its supplied records (an empty one is deleted rather than written), every other
      hash is untouched, and the marker exists. */
  ghost predicate Reinitialized(s: State, prefix: Option<string>, data: map<string, Collection>, t: State)
  {
    && t.inited
    && SameOutside(s, t, KeysOf(prefix, data.Keys))
    && (forall ns :: ns in data ==> Slot(t, ItemsKey(prefix, ns)) == Stored(data[ns]))
  }

  /** The effect of the commands queued for one namespace: the hash ends up holding exactly
      `items`, or no longer exists when `items` is empty; nothing else moves. */
  function Replace(s: State, hashKey: string, items: Collection): (t: State)
    ensures t.inited == s.inited
    ensures SameOutside(s, t, {hashKey})
    ensures Slot(t, hashKey) == Stored(items)
  {
    if items == map[] then s.(hashes := s.hashes - {hashKey}) else s.(hashes := s.hashes[hashKey := items])
  }

  /** `Replace` is what DEL followed by HMSET does, with the HMSET skipped when there is nothing
      to write (Redis refuses an empty HMSET). */
  lemma ReplaceIsDelThenHmSet(s: State, hashKey: string, items: Collection)
    ensures Replace(s, hashKey, items)
         == if |items| > 0 then Apply(Apply(s, Del(hashKey)), HmSet(hashKey, items)) else Apply(s, Del(hashKey))
  {
    var cleared := Apply(s, Del(hashKey));
    assert cleared.hashes == s.hashes - {hashKey};
    if |items| > 0 {
      assert View(cleared, hashKey) == map[];
      MergeIntoEmpty(items);
      DelThenStore(s.hashes, hashKey, items);
    } else {
      assert items == map[];
    }
  }

  lemma MergeIntoEmpty(items: Collection)
    ensures map[] + items == items
  {
  }

  lemma DelThenStore(m: map<string, Collection>, k: string, v: Collection)
    ensures (m - {k})[k := v] == m[k := v]
  {
  }

  /** What the MULTI block holds once the namespaces in `done` have been queued. */
  ghost predicate Staged(s: State, prefix: Option<string>, data: map<string, Collection>, done: set<string>, staged: State)
  {
    && done <= data.Keys
    && staged.inited == s.inited
    && SameOutside(s, staged, KeysOf(prefix, done))
    && (forall ns :: ns in done ==> Slot(staged, ItemsKey(prefix, ns)) == Stored(data[ns]))
  }

  /** Queuing one more namespace replaces its hash and keeps the ones already queued, because
      distinct namespaces have distinct keys. */
  lemma StageOne(s: State, prefix: Option<string>, data: map<string, Collection>, done: set<string>, staged: State, ns: string)
    requires ns in data && ns !in done
    requires Staged(s, prefix, data, done, staged)
    ensures Staged(s, prefix, data, done + {ns}, Replace(staged, ItemsKey(prefix, ns), data[ns]))
  {
    var next := Replace(staged, ItemsKey(prefix, ns), data[ns]);
    KeysOfAdd(prefix, done, ns);
    forall other | other in done
      ensures Slot(next, ItemsKey(prefix, other)) == Stored(data[other])
    {
      ItemsKeyInjective(prefix, other, ns);
    }
  }

  /** `initInternal`. JavaScript's `for...in` visits the namespaces in an order the model does
      not fix, so the loop picks any namespace not yet queued; `staged` is what the MULTI block
      will do when it runs. EXEC applies it, marker included, only when it succeeds; on an error
      the callback still fires and Redis is unchanged. */
  method InitInternal(s: State, prefix: Option<string>, data: map<string, Collection>, reply: Reply) returns (t: State)
    ensures reply.Err? ==> t == s
    ensures reply.Ok? ==> Reinitialized(s, prefix, data, t)
  {
    var staged := s;
    var todo := data.Keys;
    while todo != {}
      invariant todo <= data.Keys
      invariant Staged(s, prefix, data, data.Keys - todo, staged)
      decreases todo
    {
      var ns :| ns in todo;
      StageOne(s, prefix, data, data.Keys - todo, staged, ns);
      assert (data.Keys - todo) + {ns} == data.Keys - (todo - {ns});
      staged := Replace(staged, ItemsKey(prefix, ns), data[ns]);
      todo := todo - {ns};
    }
    assert data.Keys - todo == data.Keys;
    if reply.Ok? {
      t := Apply(staged, SetInited);
    } else {
      t := s;
    }
  }

  lemma KeysOfAdd(prefix: Option<string>, done: set<string>, ns: string)
    ensures KeysOf(prefix, done + {ns}) == KeysOf(prefix, done) + {ItemsKey(prefix, ns)}
  {
  }

  /** The outcome of a committed initialisation is fully determined by the data, so the order
      in which the namespaces were queued does not matter. */
  lemma ReinitializedUnique(s: State, prefix: Option<string>, data: map<string, Collection>, t1: State, t2: State)
    requires Reinitialized(s, prefix, data, t1) && Reinitialized(s, prefix, data, t2)
    ensures t1 == t2
  {
    var named := KeysOf(prefix, data.Keys);
    forall k
      ensures Slot(t1, k) == Slot(t2, k)
    {
      if k in named {
        var ns :| ns in data.Keys && ItemsKey(prefix, ns) == k;
      }
    }
    SlotsDetermineHashes(t1, t2);
  }

  /** After a committed initialisation the store reports itself initialised whenever the
      EXISTS request itself succeeds. */
  lemma InitializedAfterInit(s: State, prefix: Option<string>, data: map<string, Collection>, t: State, reply: Reply)
    requires Reinitialized(s, prefix, data, t)
    ensures InitializedInternal(reply, t) <==> reply.Ok?
  {
  }

  /** A connected read after a committed initialisation sees exactly the supplied data: the
      whole collection through HGETALL, and each record through the raw read. */
  lemma ReadsAfterInit(s: State, prefix: Option<string>, data: map<string, Collection>, t: State, local: LocalStore, namespace: string, key: string)
    requires Reinitialized(s, prefix, data, t)
    requires namespace in data
    ensures GetAllInternal(true, local, Ok, t, prefix, namespace) == Callbacks(NotConsulted, Some(data[namespace]))
    ensures DoGet(true, Ok, t, prefix, namespace, key) == (if key in data[namespace] then Some(data[namespace][key]) else None)
  {
  }

  /** Collections that the data does not name read the same before and after. */
  lemma UnnamedCollectionsUntouched(s: State, prefix: Option<string>, data: map<string, Collection>, t: State, namespace: string)
    requires Reinitialized(s, prefix, data, t)
    requires namespace !in data
    ensures Slot(t, ItemsKey(prefix, namespace)) == Slot(s, ItemsKey(prefix, namespace))
  {
    KeysOfMember(prefix, data.Keys, namespace);
  }
}
