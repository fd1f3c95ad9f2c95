/** The `connected` / `initialConnect` flags and the `connect` and `end` handlers. */
module Connection {

  /** Which clients the constructor was handed: `redisOpts.client` and the separate
      `preconfiguredClient` argument. */
  datatype ClientOptions = ClientOptions(optsClient: bool, preconfiguredClient: bool)

  datatype Flags = Flags(connected: bool, initialConnect: bool)

  datatype Event = Connect | End

  /** The flags after an event, and whether the "Reconnected to Redis" warning was logged. */
  datatype Step = Step(next: Flags, reconnected: bool)

  /** Only `redisOpts.client` counts as an already-connected client; a preconfigured client
      starts out disconnected like a freshly created one. */
  function Initial(opts: ClientOptions): (f: Flags)
    ensures f.connected <==> opts.optsClient
    ensures f.initialConnect <==> !f.connected
  {
    Flags(opts.optsClient, !opts.optsClient)
  }

  function OnEvent(f: Flags, e: Event): (s: Step)
    ensures e == Connect ==> s.next.connected && !s.next.initialConnect
    ensures e == Connect ==> (s.reconnected <==> !f.initialConnect)
    ensures e == End ==> !s.next.connected && s.next.initialConnect == f.initialConnect && !s.reconnected
  {
    match e
    case Connect => Step(Flags(true, false), !f.initialConnect)
    case End => Step(f.(connected := false), false)
  }

  /** The flags after a sequence of events, oldest first. */
  function Replay(f: Flags, events: seq<Event>): Flags
    decreases |events|
  {
    if events == [] then f else Replay(OnEvent(f, events[0]).next, events[1..])
  }

  /** The store is connected exactly when the latest event was `connect` (or, with no events,
      when it started connected), and it is still waiting for its first connection exactly
      when it started that way and no `connect` has arrived. */
  lemma {:induction false} ReplayFlags(f: Flags, events: seq<Event>)
    ensures Replay(f, events).connected == (if events == [] then f.connected else events[|events| - 1] == Connect)
    ensures Replay(f, events).initialConnect <==> f.initialConnect && Connect !in events
    decreases |events|
  {
    if events != [] {
      var rest := events[1..];
      ReplayFlags(OnEvent(f, events[0]).next, rest);
      assert events == [events[0]] + rest;
      if rest != [] {
        assert events[|events| - 1] == rest[|rest| - 1];
      }
    }
  }

  /** A `connect` is reported as a reconnection exactly when the store did not start out
      waiting for its first connection or an earlier `connect` already arrived. */
  lemma ReconnectWarning(f: Flags, events: seq<Event>)
    ensures OnEvent(Replay(f, events), Connect).reconnected <==> !f.initialConnect || Connect in events
  {
    ReplayFlags(f, events);
  }
}
