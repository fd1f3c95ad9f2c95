/** Redis key names used by the store. */
module Keys {
  import opened Types

  const DefaultPrefix: string := "launchdarkly"
  const InitedSuffix: string := "$inited"

  /** `prefix || 'launchdarkly'`: JavaScript treats a missing prefix and the empty string
      alike, so both fall back to the default. */
  function EffectivePrefix(prefix: Option<string>): (r: string)
    ensures r != []
    ensures prefix.Some? && prefix.value != [] ==> r == prefix.value
  {
    if prefix.Some? && prefix.value != [] then prefix.value else DefaultPrefix
  }

  function ItemsPrefix(prefix: Option<string>): string
  {
    EffectivePrefix(prefix) + ":"
  }

  /** The hash that holds every record of one collection kind. */
  function ItemsKey(prefix: Option<string>, namespace: string): string
  {
    ItemsPrefix(prefix) + namespace
  }

  /** The marker whose existence means the store has been initialised. */
  function InitedKey(prefix: Option<string>): string
  {
    ItemsPrefix(prefix) + InitedSuffix
  }

  /** The collection keys of a set of namespaces. */
  function KeysOf(prefix: Option<string>, namespaces: set<string>): (r: set<string>)
    ensures forall ns :: ns in namespaces ==> ItemsKey(prefix, ns) in r
  {
    set ns | ns in namespaces :: ItemsKey(prefix, ns)
  }

  /** Without a usable prefix the keys are `launchdarkly:<namespace>` and `launchdarkly:$inited`. */
  lemma DefaultKeys(prefix: Option<string>, namespace: string)
    requires prefix == None || prefix == Some("")
    ensures ItemsKey(prefix, namespace) == "launchdarkly:" + namespace
    ensures InitedKey(prefix) == "launchdarkly:$inited"
  {
  }

  /** A non-empty prefix is used verbatim, followed by a colon. */
  lemma CustomKeys(p: string, namespace: string)
    requires p != ""
    ensures ItemsKey(Some(p), namespace) == p + ":" + namespace
    ensures InitedKey(Some(p)) == p + ":$inited"
  {
  }

  /** Under one prefix, different namespaces always name different hashes. */
  lemma ItemsKeyInjective(prefix: Option<string>, a: string, b: string)
    ensures ItemsKey(prefix, a) == ItemsKey(prefix, b) <==> a == b
  {
    var p := ItemsPrefix(prefix);
    if ItemsKey(prefix, a) == ItemsKey(prefix, b) {
      assert a == (p + a)[|p|..];
      assert b == (p + b)[|p|..];
    }
  }

  /** The marker key clashes with a collection key exactly for the namespace `$inited`. */
  lemma MarkerKeyClash(prefix: Option<string>, namespace: string)
    ensures ItemsKey(prefix, namespace) == InitedKey(prefix) <==> namespace == InitedSuffix
  {
    ItemsKeyInjective(prefix, namespace, InitedSuffix);
  }

  /** A collection key belongs to a set of namespaces exactly when its namespace does. */
  lemma KeysOfMember(prefix: Option<string>, namespaces: set<string>, namespace: string)
    ensures ItemsKey(prefix, namespace) in KeysOf(prefix, namespaces) <==> namespace in namespaces
  {
    if ItemsKey(prefix, namespace) in KeysOf(prefix, namespaces) {
      var ns :| ns in namespaces && ItemsKey(prefix, ns) == ItemsKey(prefix, namespace);
      ItemsKeyInjective(prefix, ns, namespace);
    }
  }
}
