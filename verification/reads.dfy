/** The read path: `doGet`, `getInternal`, `getAllInternal` and `initializedInternal`. */
module Reads {
  import opened Types
  import opened Keys
  import opened Backend
  import opened Connection

  /** `doGet`: the raw read, which also returns soft-deleted records. While the store believes
      it is disconnected it does not ask Redis at all; a failed HGET also yields `null`. */
  function DoGet(connected: bool, reply: Reply, s: State, prefix: Option<string>, namespace: string, key: string): (r: Option<Item>)
    ensures r.Some? <==> connected && reply.Ok? && key in View(s, ItemsKey(prefix, namespace))
    ensures r.Some? ==> r.value == View(s, ItemsKey(prefix, namespace))[key]
  {
    if !connected then None
    else if reply.Err? then None
    else Field(s, ItemsKey(prefix, namespace), key)
  }

  /** `getInternal`: the public read. A soft-deleted record reads as missing. */
  function GetInternal(connected: bool, reply: Reply, s: State, prefix: Option<string>, namespace: string, key: string): (r: Option<Item>)
    ensures var stored := Field(s, ItemsKey(prefix, namespace), key);
      r.Some? <==> connected && reply.Ok? && stored.Some? && !stored.value.deleted
    ensures r.Some? ==> r == Field(s, ItemsKey(prefix, namespace), key)
  {
    var item := DoGet(connected, reply, s, prefix, namespace, key);
    if item.Some? && !item.value.deleted then item else None
  }

  /** What `getLocalFeatureStore()` resolves to: the fallback data, one sub-collection per kind. */
  datatype Snapshot = Snapshot(features: Collection, segments: Collection)

  /** The `getLocalFeatureStore` constructor argument, as seen when it is called. It has no
      default: when it was omitted, calling it throws a `TypeError` before anything else
      happens. Otherwise its promise either rejects or resolves to a snapshot. */
  datatype LocalStore = Absent | Rejects | Resolves(snapshot: Snapshot)

  /** The fallback sub-collection for a kind: `features` for the namespace "features",
      `segments` for every other namespace. */
  function FallbackFor(snapshot: Snapshot, namespace: string): Collection
  {
    if namespace == "features" then snapshot.features else snapshot.segments
  }

  /** The callback the fallback provider makes: none (it was not consulted), `cb(null)` after
      its promise rejected, or the selected sub-collection. */
  datatype FallbackCall = NotConsulted | FallbackNull | FallbackData(items: Collection)

  /** What one `getAllInternal` call does. `Callbacks` lists the fallback delivery and the
      HGETALL delivery (`live`, `None` standing for `cb(null)` after a Redis error); the live
      request is issued whatever the flag says, so while disconnected both callbacks can fire.
      `Threw` is the call throwing before any request or callback. */
  datatype GetAllCallbacks = Callbacks(fallback: FallbackCall, live: Option<Collection>) | Threw

  function GetAllInternal(connected: bool, local: LocalStore, reply: Reply, s: State, prefix: Option<string>, namespace: string): (d: GetAllCallbacks)
    ensures d.Threw? <==> !connected && local.Absent?
    ensures d.Callbacks? ==> (d.fallback.NotConsulted? <==> connected)
    ensures !connected && local.Rejects? ==> d.Callbacks? && d.fallback == FallbackNull
    ensures !connected && local.Resolves? && namespace == "features" ==> d.Callbacks? && d.fallback == FallbackData(local.snapshot.features)
    ensures !connected && local.Resolves? && namespace != "features" ==> d.Callbacks? && d.fallback == FallbackData(local.snapshot.segments)
    ensures d.Callbacks? ==> (d.live.Some? <==> reply.Ok?)
    ensures d.Callbacks? && d.live.Some? ==> forall key :: key in d.live.value <==> Field(s, ItemsKey(prefix, namespace), key).Some?
    ensures d.Callbacks? && d.live.Some? ==> forall key :: key in d.live.value ==> Some(d.live.value[key]) == Field(s, ItemsKey(prefix, namespace), key)
  {
    if !connected && local.Absent? then Threw
    else
      var fallback :=
        if connected then NotConsulted
        else if local.Rejects? then FallbackNull
        else FallbackData(FallbackFor(local.snapshot, namespace));
      var live := if reply.Err? then None else Some(View(s, ItemsKey(prefix, namespace)));
      Callbacks(fallback, live)
  }

  /** `initializedInternal`: EXISTS on the marker key; an error reads as "not initialised".
      It does not consult the connection flag. */
  function InitializedInternal(reply: Reply, s: State): bool
  {
    reply.Ok? && s.inited
  }

  /** While disconnected the raw read answers `null` whatever Redis holds. */
  lemma DisconnectedReadIgnoresBackend(reply: Reply, s1: State, s2: State, prefix: Option<string>, namespace: string, key: string)
    ensures DoGet(false, reply, s1, prefix, namespace, key) == DoGet(false, reply, s2, prefix, namespace, key) == None
    ensures GetInternal(false, reply, s1, prefix, namespace, key) == None
  {
  }

  /** The live HGETALL result does not depend on the connection flag: the degraded branch does
      not stop the call to Redis, unless calling the missing fallback provider threw first. */
  lemma GetAllAlwaysAsksRedis(local: LocalStore, reply: Reply, s: State, prefix: Option<string>, namespace: string)
    ensures GetAllInternal(true, local, reply, s, prefix, namespace).Callbacks?
    ensures !local.Absent? ==>
      GetAllInternal(false, local, reply, s, prefix, namespace).live == GetAllInternal(true, local, reply, s, prefix, namespace).live
  {
  }

  /** A store that has never been initialised reports so, whatever the reply. */
  lemma FreshStoreNotInitialized(reply: Reply)
    ensures !InitializedInternal(reply, Empty)
  {
  }

  /** A store built without `redisOpts.client` (a preconfigured client included) answers
      every single-record read with `null` until a `connect` event arrives, whatever Redis
      holds. */
  lemma ReadsWaitForFirstConnect(opts: ClientOptions, events: seq<Event>, reply: Reply, s: State, prefix: Option<string>, namespace: string, key: string)
    requires !opts.optsClient
    requires Connect !in events
    ensures DoGet(Replay(Initial(opts), events).connected, reply, s, prefix, namespace, key) == None
  {
    ReplayFlags(Initial(opts), events);
    if events != [] {
      assert events[|events| - 1] in events;
    }
  }
}
