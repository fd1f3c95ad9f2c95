/** One flag's life through the store, end to end. */
module Walkthrough {
  import opened Types
  import opened Keys
  import opened Backend
  import opened Reads
  import opened BulkInit
  import opened VersionedUpsert

  const FlagV1: Item := Item("a", 1, false, "")
  const FlagV2Deleted: Item := Item("a", 2, true, "")

  /** Initialise an empty store with flag `a` at version 1; the public read finds it. Upserting
      version 1 again is stale: nothing changes and the stored record comes back. Upserting a
      soft delete at version 2 is accepted: the public read then finds nothing while the raw
      read still returns the deleted version-2 record. */
  lemma FlagLifecycle(t: State)
    requires Reinitialized(Empty, None, map["features" := map["a" := FlagV1]], t)
    ensures !InitializedInternal(Ok, Empty) && InitializedInternal(Ok, t)
    ensures GetInternal(true, Ok, t, None, "features", "a") == Some(FlagV1)
    ensures Upsert([Clean], t, None, "features", FlagV1) == Done(None, FlagV1, t)
    ensures var o := Upsert([Clean], t, None, "features", FlagV2Deleted);
      && o == Done(None, FlagV2Deleted, o.after)
      && GetInternal(true, Ok, o.after, None, "features", "a") == None
      && DoGet(true, Ok, o.after, None, "features", "a") == Some(FlagV2Deleted)
  {
  }
}
