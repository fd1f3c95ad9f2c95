/** `updateItemWithVersioning` and `upsertInternal`: the optimistic-concurrency write. */
module VersionedUpsert {
  import opened Types
  import opened Keys
  import opened Backend
  import opened Reads

  /** The EXEC reply: the transaction ran; it was dropped because another client touched the
      watched hash (the reply is `null`), `competing` being that client's write; or it failed. */
  datatype ExecReply = Committed | Invalidated(competing: Command) | ExecFailed(message: string)

  /** What the rest of the world does during one pass of the protocol: the connection flag and
      HGET reply its read sees, and the EXEC reply. */
  datatype Round = Round(connected: bool, read: Reply, exec: ExecReply)

  /** A pass on a healthy connection with no competing writer. */
  const Clean: Round := Round(true, Ok, Committed)

  datatype Decision = KeepStored(stored: Item) | Write

  /** The decision after the raw read: keep the stored record when it is at least as new,
      otherwise write. A record the read could not see (disconnected, or the HGET failed)
      counts as absent. */
  function Decide(connected: bool, read: Reply, s: State, prefix: Option<string>, namespace: string, item: Item): (d: Decision)
    ensures var stored := Field(s, ItemsKey(prefix, namespace), item.key);
      d.KeepStored? <==> connected && read.Ok? && stored.Some? && stored.value.version >= item.version
    ensures d.KeepStored? ==> Field(s, ItemsKey(prefix, namespace), item.key) == Some(d.stored)
  {
    var seen := DoGet(connected, read, s, prefix, namespace, item.key);
    if seen.Some? && seen.value.version >= item.version then KeepStored(seen.value) else Write
  }

  /** One pass either reaches the callback (`err`, record handed back, state afterwards) or
      is retried on the state the competing write left. */
  datatype Pass = Finished(err: Option<string>, returned: Item, after: State) | Retry(after: State)

  /** One pass of `updateItemWithVersioning`. */
  function Attempt(r: Round, s: State, prefix: Option<string>, namespace: string, item: Item): (p: Pass)
    ensures p.Retry? <==> Decide(r.connected, r.read, s, prefix, namespace, item).Write? && r.exec.Invalidated?
    ensures p.Retry? ==> p.after == Apply(s, r.exec.competing)
    ensures p.Finished? && p.err.None? ==> Field(p.after, ItemsKey(prefix, namespace), item.key) == Some(p.returned)
    ensures p.Finished? && p.err.Some? ==> p.returned == item && p.after == s
    ensures p.Finished? && p.after != s ==> p.returned == item
    ensures p.Finished? ==> p.returned == item || p.returned.version >= item.version
    ensures p.Finished? ==> p.after.inited == s.inited && SameOutside(s, p.after, {ItemsKey(prefix, namespace)})
    ensures p.Finished? ==> forall f :: f != item.key ==> Field(p.after, ItemsKey(prefix, namespace), f) == Field(s, ItemsKey(prefix, namespace), f)
  {
    match Decide(r.connected, r.read, s, prefix, namespace, item)
    case KeepStored(stored) => Finished(None, stored, s)
    case Write =>
      match r.exec
      case Committed => Finished(None, item, Apply(s, HSet(ItemsKey(prefix, namespace), item.key, item)))
      case Invalidated(competing) => Retry(Apply(s, competing))
      case ExecFailed(m) => Finished(Some(m), item, s)
  }

  /** What the caller of `upsertInternal` sees: the callback `(err, record)` with the state
      afterwards, or `Pending` when the rounds run out while the protocol is still retrying.
      `updateItemWithVersioning` retries without bound; the model makes no termination claim and
      only follows as many passes as `rounds` describes. */
  datatype Outcome = Done(err: Option<string>, returned: Item, after: State) | Pending(after: State)

  /** `upsertInternal`: passes of `updateItemWithVersioning` until one reaches the callback. */
  function Upsert(rounds: seq<Round>, s: State, prefix: Option<string>, namespace: string, item: Item): (o: Outcome)
    ensures o.Done? && o.err.None? ==> Field(o.after, ItemsKey(prefix, namespace), item.key) == Some(o.returned)
    ensures o.Done? && o.err.Some? ==> o.returned == item
    ensures o.Done? ==> o.returned == item || o.returned.version >= item.version
    decreases |rounds|
  {
    if rounds == [] then Pending(s)
    else
      match Attempt(rounds[0], s, prefix, namespace, item)
      case Finished(err, returned, after) => Done(err, returned, after)
      case Retry(after) => Upsert(rounds[1..], after, prefix, namespace, item)
  }

  /** An upsert never clears the initialisation marker, and the only way the marker can appear
      during one is a competing client's initialisation that invalidated a pass. */
  lemma {:induction false} UpsertKeepsMarker(rounds: seq<Round>, s: State, prefix: Option<string>, namespace: string, item: Item)
    ensures s.inited ==> Upsert(rounds, s, prefix, namespace, item).after.inited
    ensures Upsert(rounds, s, prefix, namespace, item).after.inited ==>
      s.inited || exists i :: 0 <= i < |rounds| && rounds[i].exec == Invalidated(SetInited)
    decreases |rounds|
  {
    if rounds != [] {
      var p := Attempt(rounds[0], s, prefix, namespace, item);
      if p.Retry? {
        UpsertKeepsMarker(rounds[1..], p.after, prefix, namespace, item);
        if p.after.inited && !s.inited {
          assert rounds[0].exec == Invalidated(SetInited);
        }
        if Upsert(rounds[1..], p.after, prefix, namespace, item).after.inited && !p.after.inited {
          var i :| 0 <= i < |rounds[1..]| && rounds[1..][i].exec == Invalidated(SetInited);
          assert rounds[i + 1].exec == Invalidated(SetInited);
        }
      }
    }
  }

  /** Stale write: when the connected read finds a record at least as new as `item` (deleted
      or not), the store is left exactly as it was and the caller gets the stored record back
      without an error, whatever EXEC would have said. */
  lemma StaleUpsert(rounds: seq<Round>, s: State, prefix: Option<string>, namespace: string, item: Item)
    requires rounds != [] && rounds[0].connected && rounds[0].read.Ok?
    requires Field(s, ItemsKey(prefix, namespace), item.key).Some?
    requires Field(s, ItemsKey(prefix, namespace), item.key).value.version >= item.version
    ensures Upsert(rounds, s, prefix, namespace, item)
         == Done(None, Field(s, ItemsKey(prefix, namespace), item.key).value, s)
  {
  }

  /** Accepted write: when the stored record is absent or older and EXEC commits, exactly
      `collection[item.key] := item` happens: every other record, every other collection and
      the marker keep their values, and the caller gets `item` back without an error. */
  lemma AcceptedUpsert(rounds: seq<Round>, s: State, prefix: Option<string>, namespace: string, item: Item, other: string)
    requires rounds != [] && rounds[0].connected && rounds[0].read.Ok? && rounds[0].exec.Committed?
    requires var stored := Field(s, ItemsKey(prefix, namespace), item.key);
      stored.None? || stored.value.version < item.version
    requires other != namespace
    ensures var o := Upsert(rounds, s, prefix, namespace, item);
      && o.Done? && o.err.None? && o.returned == item
      && View(o.after, ItemsKey(prefix, namespace)) == View(s, ItemsKey(prefix, namespace))[item.key := item]
      && Slot(o.after, ItemsKey(prefix, other)) == Slot(s, ItemsKey(prefix, other))
      && o.after.inited == s.inited
  {
    var k := ItemsKey(prefix, namespace);
    var t := Apply(s, HSet(k, item.key, item));
    ItemsKeyInjective(prefix, other, namespace);
    forall f
      ensures f in View(t, k) <==> f in View(s, k)[item.key := item]
      ensures f in View(t, k) ==> View(t, k)[f] == View(s, k)[item.key := item][f]
    {
      if f != item.key {
        assert Field(t, k, f) == Field(s, k, f);
      } else {
        assert Field(t, k, f) == Some(item);
      }
    }
  }

  /** A committed write is what the reads see next: the raw read returns `item` even when it
      is a soft delete, the public read returns it only when it is not deleted. */
  lemma ReadAfterUpsert(rounds: seq<Round>, s: State, prefix: Option<string>, namespace: string, item: Item)
    requires rounds != [] && rounds[0].connected && rounds[0].read.Ok? && rounds[0].exec.Committed?
    requires var stored := Field(s, ItemsKey(prefix, namespace), item.key);
      stored.None? || stored.value.version < item.version
    ensures var o := Upsert(rounds, s, prefix, namespace, item);
      && DoGet(true, Ok, o.after, prefix, namespace, item.key) == Some(item)
      && GetInternal(true, Ok, o.after, prefix, namespace, item.key) == (if item.deleted then None else Some(item))
  {
  }

  /** The raw read yields `null` while the store believes it is disconnected or when HGET
      fails, and the decision treats that like a missing record: the version check is skipped
      and, if EXEC commits, `item` overwrites whatever was stored, newer or not. */
  lemma UnreadableStoreSkipsVersionCheck(r: Round, s: State, prefix: Option<string>, namespace: string, item: Item)
    requires !r.connected || r.read.Err?
    requires r.exec.Committed?
    ensures Attempt(r, s, prefix, namespace, item).Finished?
    ensures Attempt(r, s, prefix, namespace, item).returned == item
    ensures Field(Attempt(r, s, prefix, namespace, item).after, ItemsKey(prefix, namespace), item.key) == Some(item)
  {
  }

  /** A pass whose EXEC was invalidated reports nothing and re-runs the same decision on the
      state the competing write left; if that write was another client's accepted upsert of
      the same record and the retry commits or loses, the record left stored is the newer of
      the two, with the version that is the maximum of both. */
  lemma RetryAfterCompetingWrite(s: State, prefix: Option<string>, namespace: string, item: Item, rival: Item)
    requires rival.key == item.key
    requires var stored := Field(s, ItemsKey(prefix, namespace), item.key);
      stored.None? || (stored.value.version < item.version && stored.value.version < rival.version)
    ensures var first := Round(true, Ok, Invalidated(HSet(ItemsKey(prefix, namespace), rival.key, rival)));
      Upsert([first], s, prefix, namespace, item).Pending?
    ensures var first := Round(true, Ok, Invalidated(HSet(ItemsKey(prefix, namespace), rival.key, rival)));
      var o := Upsert([first, Clean], s, prefix, namespace, item);
      && o.Done? && o.err.None?
      && o.returned == (if rival.version >= item.version then rival else item)
      && Field(o.after, ItemsKey(prefix, namespace), item.key) == Some(o.returned)
      && o.returned.version == (if rival.version >= item.version then rival.version else item.version)
  {
  }

  /** The store after upserting each record in turn, each on a clean pass. */
  function Settle(s: State, prefix: Option<string>, namespace: string, items: seq<Item>): State
    decreases |items|
  {
    if items == [] then s
    else Settle(Upsert([Clean], s, prefix, namespace, items[0]).after, prefix, namespace, items[1..])
  }

  /** Whatever order clean writes for one record arrive in, the record left stored is the one
      with the greatest version among the writes and what was stored before. A pass that cannot
      read the stored record skips the version check, so this is a property of clean passes. */
  lemma {:induction false} SettleKeepsNewest(s: State, prefix: Option<string>, namespace: string, key: string, items: seq<Item>)
    requires forall i :: 0 <= i < |items| ==> items[i].key == key
    ensures var before := Field(s, ItemsKey(prefix, namespace), key);
      var after := Field(Settle(s, prefix, namespace, items), ItemsKey(prefix, namespace), key);
      (items != [] || before.Some?) ==> Newest(before, items, after)
    ensures items == [] ==> Settle(s, prefix, namespace, items) == s
    decreases |items|
  {
    if items != [] {
      var k := ItemsKey(prefix, namespace);
      var s1 := Upsert([Clean], s, prefix, namespace, items[0]).after;
      SettleKeepsNewest(s1, prefix, namespace, key, items[1..]);
      var mid := Field(s1, k, key);
      var after := Field(Settle(s, prefix, namespace, items), k, key);
      assert after == Field(Settle(s1, prefix, namespace, items[1..]), k, key);
      assert mid.Some? && mid.value.version >= items[0].version;
      assert mid == Field(s, k, key) || mid == Some(items[0]);
      forall i | 0 <= i < |items|
        ensures items[i].version <= after.value.version
      {
        if i > 0 {
          assert items[i] == items[1..][i - 1];
        }
      }
      if after != Field(s, k, key) {
        if after == mid {
          assert after == Some(items[0]);
        } else {
          var j :| 0 <= j < |items[1..]| && after == Some(items[1..][j]);
          assert after == Some(items[j + 1]);
        }
      }
    }
  }

  /** No two different candidate records share a version: the writes, and what was stored. */
  ghost predicate VersionsIdentify(before: Option<Item>, items: seq<Item>)
  {
    && (forall i, j :: 0 <= i < |items| && 0 <= j < |items| && items[i].version == items[j].version ==> items[i] == items[j])
    && (before.Some? ==> forall i :: 0 <= i < |items| && items[i].version == before.value.version ==> items[i] == before.value)
  }

  /** A record that could be the stored one after the writes `items` were applied on top of
      `before`, and that is at least as new as every one of them. */
  ghost predicate Newest(before: Option<Item>, items: seq<Item>, x: Option<Item>)
  {
    && x.Some?
    && (x == before || exists i :: 0 <= i < |items| && x == Some(items[i]))
    && (before.Some? ==> before.value.version <= x.value.version)
    && (forall i :: 0 <= i < |items| ==> items[i].version <= x.value.version)
  }

  /** With versions identifying records, two lists of the same writes have one newest record. */
  lemma NewestUnique(before: Option<Item>, a: seq<Item>, b: seq<Item>, x: Option<Item>, y: Option<Item>)
    requires forall z :: z in a <==> z in b
    requires VersionsIdentify(before, a)
    requires Newest(before, a, x) && Newest(before, b, y)
    ensures x == y
  {
    // Each is a candidate of the other's list, so the two versions bound each other.
    var ia: int := -1;
    if x != before {
      ia :| 0 <= ia < |a| && x == Some(a[ia]);
      assert a[ia] in b;
      var j :| 0 <= j < |b| && b[j] == a[ia];
    }
    var ib: int := -1;
    if y != before {
      var j :| 0 <= j < |b| && y == Some(b[j]);
      assert b[j] in a;
      ib :| 0 <= ib < |a| && a[ib] == b[j];
    }
    assert x.value.version == y.value.version;
  }

  lemma SameElements(a: seq<Item>, b: seq<Item>)
    requires multiset(a) == multiset(b)
    ensures forall z :: z in a <==> z in b
    ensures a == [] <==> b == []
  {
    forall z
      ensures z in a <==> z in b
    {
      assert z in a <==> z in multiset(a);
      assert z in b <==> z in multiset(b);
    }
    if a != [] {
      assert a[0] in b;
    }
  }

  /** Concurrent writers with distinct versions, each on a clean pass: the record left stored
      does not depend on the order in which their upserts went through. */
  lemma SettleOrderIrrelevant(s: State, prefix: Option<string>, namespace: string, key: string, a: seq<Item>, b: seq<Item>)
    requires forall i :: 0 <= i < |a| ==> a[i].key == key
    requires multiset(a) == multiset(b)
    requires VersionsIdentify(Field(s, ItemsKey(prefix, namespace), key), a)
    ensures Field(Settle(s, prefix, namespace, a), ItemsKey(prefix, namespace), key)
         == Field(Settle(s, prefix, namespace, b), ItemsKey(prefix, namespace), key)
  {
    var k := ItemsKey(prefix, namespace);
    var before := Field(s, k, key);
    SameElements(a, b);
    forall i | 0 <= i < |b|
      ensures b[i].key == key
    {
      assert b[i] in a;
    }
    SettleKeepsNewest(s, prefix, namespace, key, a);
    SettleKeepsNewest(s, prefix, namespace, key, b);
    if a != [] || before.Some? {
      NewestUnique(before, a, b, Field(Settle(s, prefix, namespace, a), k, key), Field(Settle(s, prefix, namespace, b), k, key));
    }
  }
}
