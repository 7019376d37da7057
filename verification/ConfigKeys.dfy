/** The registry of settable keys (crates/qsh-core/src/config_edit.rs, `KEYS`). */
module ConfigKeys {
  import opened ConfigEdit
  import opened Options

  function Key(section: string, key: string, ty: KeyType): ConfigKey { ConfigKey(section, key, ty, [], []) }

  const SERVE: seq<ConfigKey> := SERVE_BASICS + SERVE_LIMITS

  const SERVE_BASICS: seq<ConfigKey> := [
    Key("serve", "bind", StrKey),
    Key("serve", "to", StrKey),
    Key("serve", "replay_bytes", IntKey),
    ConfigKey("serve", "resume_ttl", IntKey, [], ["resume_ttl_secs"]),
    Key("serve", "close_grace_ms", IntKey),
    Key("serve", "max_concurrent_handshakes", IntKey),
    Key("serve", "handshake_rate_per_source", IntKey),
    Key("serve", "max_sessions", IntKey),
    Key("serve", "max_sessions_per_principal", IntKey)
  ]

  const SERVE_LIMITS: seq<ConfigKey> := [
    Key("serve", "max_exec_per_principal", IntKey),
    Key("serve", "validated_rate_per_source", IntKey),
    Key("serve", "max_exec", IntKey),
    Key("serve", "max_tunnel_streams_per_principal", IntKey),
    Key("serve", "max_tunnel_streams_per_forward", IntKey),
    Key("serve", "max_remote_forwards_per_principal", IntKey),
    Key("serve", "max_connections_per_principal", IntKey),
    Key("serve", "max_connections", IntKey),
    Key("serve", "max_file_transfers_per_principal", IntKey),
    Key("serve", "max_file_transfers", IntKey),
    Key("serve", "on_demand_idle_ms", IntKey)
  ]

  const IDENTITY: seq<ConfigKey> := [
    ConfigKey("identity", "key_store", StrKey, ["auto", "platform", "file"], [])
  ]

  const LISTEN: seq<ConfigKey> := [
    Key("listen", "bind", StrKey),
    Key("listen", "allow_advertised_names", BoolKey),
    Key("listen", "stale_retention", IntKey)
  ]

  const REVERSE: seq<ConfigKey> := [
    Key("reverse", "controller", StrKey),
    Key("reverse", "offered_name", StrKey),
    Key("reverse", "backoff_initial_ms", IntKey),
    Key("reverse", "backoff_max_ms", IntKey),
    Key("reverse", "backoff_jitter_pct", IntKey)
  ]

  const AUDIT: seq<ConfigKey> := [
    Key("audit", "path", StrKey),
    Key("audit", "max_bytes", IntKey),
    Key("audit", "retain", IntKey),
    Key("audit", "queue_depth", IntKey)
  ]

  const TRANSPORT: seq<ConfigKey> := [
    Key("transport", "keep_alive_ms", IntKey),
    ConfigKey("transport", "adaptive", StrKey, ["on", "off"], [])
  ]

  const RECOVERY: seq<ConfigKey> := [
    Key("recovery", "probe_interval_ms", IntKey),
    Key("recovery", "min_dead_after_ms", IntKey),
    Key("recovery", "strikes", IntKey),
    Key("recovery", "reverse_min_dead_after_ms", IntKey),
    Key("recovery", "reverse_strikes", IntKey)
  ]

  const SSH: seq<ConfigKey> := [
    ConfigKey("ssh", "bootstrap", StrKey, ["auto", "off"], []),
    Key("ssh", "program", StrKey),
    Key("ssh", "remote_qsh", StrKey)
  ]

  const INTERACTIVE: seq<ConfigKey> := [
    ConfigKey("interactive", "screen_sync", StrKey, ["auto", "on", "off"], []),
    ConfigKey("interactive", "predict", StrKey, ["auto", "always", "never"], []),
    ConfigKey("interactive", "status_line", StrKey, ["on", "off"], [])
  ]

  /** Every key `config.toml` reads, in documentation order. */
  const KEYS: seq<ConfigKey> :=
    SERVE + IDENTITY + LISTEN + REVERSE + AUDIT + TRANSPORT + RECOVERY + SSH + INTERACTIVE

  const RESUME_TTL := ConfigKey("serve", "resume_ttl", IntKey, [], ["resume_ttl_secs"])

  /** The dotted path `section.key`. */
  function Path(k: ConfigKey): string { k.section + "." + k.key }

  function LookupIn(keys: seq<ConfigKey>, path: string): (r: Result<ConfigKey>)
    ensures r.Ok? ==> r.value in keys && Path(r.value) == path
    ensures r.Ok? <==> exists i | 0 <= i < |keys| :: Path(keys[i]) == path
    ensures r.Err? ==> r.error == InvalidArgument
  {
    if keys == [] then Err(InvalidArgument)
    else if Path(keys[0]) == path then Ok(keys[0])
    else LookupIn(keys[1..], path)
  }

  function Lookup(path: string): Result<ConfigKey> { LookupIn(KEYS, path) }

  /** The name is not the one old spelling: it has another length or another third letter. */
  predicate NotTheAlias(name: string): (b: bool)
    ensures b ==> name != "resume_ttl_secs"
  {
    |name| == 15 ==> name[2] != 's'
  }

  predicate RowOk(k: ConfigKey) { NotTheAlias(k.key) && (k.aliases == [] || k == RESUME_TTL) }

  lemma ServeBasicsRows(k: ConfigKey)
    requires k in SERVE_BASICS
    ensures RowOk(k)
  {
  }

  lemma ServeLimitsRows(k: ConfigKey)
    requires k in SERVE_LIMITS
    ensures RowOk(k)
  {
  }

  lemma IdentityRows(k: ConfigKey)
    requires k in IDENTITY
    ensures RowOk(k)
  {
  }

  lemma ListenRows(k: ConfigKey)
    requires k in LISTEN
    ensures RowOk(k)
  {
  }

  lemma ReverseRows(k: ConfigKey)
    requires k in REVERSE
    ensures RowOk(k)
  {
  }

  lemma AuditRows(k: ConfigKey)
    requires k in AUDIT
    ensures RowOk(k)
  {
  }

  lemma TransportRows(k: ConfigKey)
    requires k in TRANSPORT
    ensures RowOk(k)
  {
  }

  lemma RecoveryRows(k: ConfigKey)
    requires k in RECOVERY
    ensures RowOk(k)
  {
  }

  lemma SshRows(k: ConfigKey)
    requires k in SSH
    ensures RowOk(k)
  {
  }

  lemma InteractiveRows(k: ConfigKey)
    requires k in INTERACTIVE
    ensures RowOk(k)
  {
  }

  /** One key has an old spelling, and no key is called by it. */
  lemma RegistryRows(k: ConfigKey)
    requires k in KEYS
    ensures RowOk(k)
  {
    if k in SERVE_BASICS {
      ServeBasicsRows(k);
    } else if k in SERVE_LIMITS {
      ServeLimitsRows(k);
    } else if k in IDENTITY {
      IdentityRows(k);
    } else if k in LISTEN {
      ListenRows(k);
    } else if k in REVERSE {
      ReverseRows(k);
    } else if k in AUDIT {
      AuditRows(k);
    } else if k in TRANSPORT {
      TransportRows(k);
    } else if k in RECOVERY {
      RecoveryRows(k);
    } else if k in SSH {
      SshRows(k);
    } else {
      InteractiveRows(k);
    }
  }

  lemma AliasIsNoKey(k: ConfigKey)
    requires k in KEYS
    ensures k.key !in RESUME_TTL.aliases
  {
    RegistryRows(k);
    assert RESUME_TTL.aliases[0] == "resume_ttl_secs" && |RESUME_TTL.aliases| == 1;
  }

  /** Different paths name keys that share no spelling. */
  lemma RegistryIndependent(path: string, other: string)
    requires Lookup(path).Ok? && Lookup(other).Ok? && path != other
    ensures Proper(Lookup(path).value) && Independent(Lookup(path).value, Lookup(other).value)
  {
    var a, b := Lookup(path).value, Lookup(other).value;
    RegistryRows(a);
    RegistryRows(b);
    AliasIsNoKey(a);
    AliasIsNoKey(b);
    assert a.section == b.section ==> a.key != b.key;
  }

  /**
    For any two different paths of the registry: setting one gives it the
    argument's value and leaves the other's reading alone; unsetting one
    leaves it unset and the other's reading alone.
   */
  lemma RegistryLaws(doc: Document, path: string, other: string, raw: string)
    requires Lookup(path).Ok? && Lookup(other).Ok? && path != other
    ensures var k, o := Lookup(path).value, Lookup(other).value;
            && (Set(doc, k, raw).Ok? ==>
                  && ReadValue(Set(doc, k, raw).value.doc, k) == Ok(Some(ParseArgument(k, raw).value))
                  && ReadValue(Set(doc, k, raw).value.doc, o) == ReadValue(doc, o))
            && (Unset(doc, k).Ok? ==>
                  && ReadValue(Unset(doc, k).value.doc, k) == Ok(None)
                  && ReadValue(Unset(doc, k).value.doc, o) == ReadValue(doc, o))
  {
    var k, o := Lookup(path).value, Lookup(other).value;
    RegistryIndependent(path, other);
    if Set(doc, k, raw).Ok? {
      SetThenRead(doc, k, raw);
      SetLeavesOthers(doc, k, raw, o);
    }
    if Unset(doc, k).Ok? {
      UnsetThenRead(doc, k, k);
      UnsetThenRead(doc, k, o);
    }
  }
}
