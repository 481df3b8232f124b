/**
 * Automatic wallet connection: which connector to connect to on mount, and
 * the stored wallet id kept in step with the account's connection state.
 * The scaffold configuration and the burner connector's id and chain are
 * parameters; local storage is a map from keys to stored strings.
 */
module AutoConnect {
  import opened Wrappers
  import opened JsArrays

  const ScaffoldWalletStorageKey: string := "scaffoldEth2.wallet"
  const WagmiWalletStorageKey: string := "wagmi.wallet"
  const SafeId: string := "safe"
  /** The chain id of the local hardhat network. */
  const HardhatChainId: nat := 31337
  /** `JSON.stringify("")`. */
  const EmptyJsonString: string := "\"\""

  datatype Connector = Connector(id: string, ready: bool)

  /** The configuration `getInitialConnector` consults. */
  datatype Config = Config(
    onlyLocalBurnerWallet: bool,
    walletAutoConnect: bool,
    targetNetworkId: nat,
    burnerWalletId: string,
    defaultBurnerChainId: nat)

  /** The returned object: a connector that may be absent, and a chain id given only for the burner. */
  datatype InitialConnector = InitialConnector(connector: Option<Connector>, chainId: Option<nat>)

  /** The burner may be used everywhere, or only on hardhat when `onlyLocalBurnerWallet` is set. */
  predicate AllowBurner(cfg: Config) {
    if cfg.onlyLocalBurnerWallet then cfg.targetNetworkId == HardhatChainId else true
  }

  predicate IsReadySafe(c: Connector) {
    c.id == SafeId && c.ready
  }

  predicate HasId(id: string, c: Connector) {
    c.id == id
  }

  /** `getInitialConnector`; an empty previous id is JavaScript's falsy string. */
  function GetInitialConnector(previousWalletId: string, connectors: seq<Connector>, cfg: Config): Option<InitialConnector> {
    var safeConnector := Find(connectors, IsReadySafe);
    if safeConnector.Some? then
      Some(InitialConnector(safeConnector, None))
    else if previousWalletId == "" && AllowBurner(cfg) && cfg.walletAutoConnect then
      Some(InitialConnector(Find(connectors, c => HasId(cfg.burnerWalletId, c)), Some(cfg.defaultBurnerChainId)))
    else if previousWalletId != "" && cfg.walletAutoConnect then
      var connector := Find(connectors, c => HasId(previousWalletId, c));
      if connector.Some? && !(previousWalletId == cfg.burnerWalletId && !AllowBurner(cfg)) then
        Some(InitialConnector(connector, None))
      else
        None
    else
      None
  }

  /** The connection the mount effect requests: only when a connector was chosen. */
  function ConnectRequest(walletId: string, connectors: seq<Connector>, cfg: Config): Option<(Connector, Option<nat>)> {
    var initial := GetInitialConnector(walletId, connectors, cfg);
    if initial.Some? && initial.value.connector.Some? then
      Some((initial.value.connector.value, initial.value.chainId))
    else
      None
  }

  /** The burner is allowed exactly when the restriction to local networks is off or the target is hardhat. */
  lemma AllowBurnerIff(cfg: Config)
    ensures AllowBurner(cfg) <==> !cfg.onlyLocalBurnerWallet || cfg.targetNetworkId == HardhatChainId
  {
  }

  /** A ready safe connector wins over every other rule: the first one is returned, with no chain id. */
  lemma SafeConnectorFirst(previousWalletId: string, connectors: seq<Connector>, cfg: Config, k: nat)
    requires k < |connectors| && IsReadySafe(connectors[k])
    requires forall j :: 0 <= j < k ==> !IsReadySafe(connectors[j])
    ensures GetInitialConnector(previousWalletId, connectors, cfg) == Some(InitialConnector(Some(connectors[k]), None))
  {
    var r := Find(connectors, IsReadySafe);
    assert r.Some?;
    var i :| 0 <= i < |connectors| && connectors[i] == r.value && IsReadySafe(connectors[i])
             && forall j :: 0 <= j < i ==> !IsReadySafe(connectors[j]);
    assert i == k;
  }

  /** On a first visit the burner connector, possibly absent, is chosen with the default burner chain. */
  lemma FirstVisitChoosesBurner(connectors: seq<Connector>, cfg: Config)
    requires forall i :: 0 <= i < |connectors| ==> !IsReadySafe(connectors[i])
    requires AllowBurner(cfg) && cfg.walletAutoConnect
    ensures var r := GetInitialConnector("", connectors, cfg);
            r.Some? && r.value.chainId == Some(cfg.defaultBurnerChainId)
            && (r.value.connector.Some? <==> exists i :: 0 <= i < |connectors| && connectors[i].id == cfg.burnerWalletId)
            && (r.value.connector.Some? ==> r.value.connector.value.id == cfg.burnerWalletId)
  {
    var b := Find(connectors, c => HasId(cfg.burnerWalletId, c));
    if b.Some? {
      var i :| 0 <= i < |connectors| && connectors[i] == b.value && HasId(cfg.burnerWalletId, connectors[i]);
    }
  }

  /** With a previous wallet, that wallet's connector is chosen unless it is missing or it is a burner the configuration forbids. */
  lemma ReconnectsPreviousWallet(previousWalletId: string, connectors: seq<Connector>, cfg: Config)
    requires forall i :: 0 <= i < |connectors| ==> !IsReadySafe(connectors[i])
    requires previousWalletId != "" && cfg.walletAutoConnect
    ensures var r := GetInitialConnector(previousWalletId, connectors, cfg);
            (r.Some? <==> (exists i :: 0 <= i < |connectors| && connectors[i].id == previousWalletId)
                          && !(previousWalletId == cfg.burnerWalletId && !AllowBurner(cfg)))
            && (r.Some? ==> r.value.connector.Some? && r.value.connector.value.id == previousWalletId
                            && r.value.chainId.None?)
  {
    var c := Find(connectors, c => HasId(previousWalletId, c));
    if c.Some? {
      var i :| 0 <= i < |connectors| && connectors[i] == c.value && HasId(previousWalletId, connectors[i]);
    } else {
      assert forall i :: 0 <= i < |connectors| ==> !HasId(previousWalletId, connectors[i]);
    }
  }

  /** With auto-connect off, only a ready safe connector is ever chosen. */
  lemma AutoConnectOff(previousWalletId: string, connectors: seq<Connector>, cfg: Config)
    requires forall i :: 0 <= i < |connectors| ==> !IsReadySafe(connectors[i])
    requires !cfg.walletAutoConnect
    ensures GetInitialConnector(previousWalletId, connectors, cfg).None?
  {
    assert Find(connectors, IsReadySafe).None?;
  }

  /** On a first visit where the burner is forbidden, and no safe connector is ready, nothing is chosen. */
  lemma FirstVisitForbiddenBurner(connectors: seq<Connector>, cfg: Config)
    requires forall i :: 0 <= i < |connectors| ==> !IsReadySafe(connectors[i])
    requires !AllowBurner(cfg)
    ensures GetInitialConnector("", connectors, cfg).None?
  {
    assert Find(connectors, IsReadySafe).None?;
  }

  /**
   * A forbidden burner is never connected automatically: when the burner is
   * not allowed, a chosen connector with the burner's id can only be a
   * ready safe connector.
   */
  lemma ForbiddenBurnerNeverChosen(previousWalletId: string, connectors: seq<Connector>, cfg: Config)
    requires !AllowBurner(cfg)
    ensures var r := GetInitialConnector(previousWalletId, connectors, cfg);
            r.Some? && r.value.connector.Some? && r.value.connector.value.id == cfg.burnerWalletId
            ==> IsReadySafe(r.value.connector.value)
  {
    var f := Find(connectors, IsReadySafe);
    if f.Some? {
      var i :| 0 <= i < |connectors| && connectors[i] == f.value && IsReadySafe(connectors[i]);
    } else if previousWalletId != "" && cfg.walletAutoConnect {
      var c := Find(connectors, c => HasId(previousWalletId, c));
      if c.Some? {
        var i :| 0 <= i < |connectors| && connectors[i] == c.value && HasId(previousWalletId, connectors[i]);
      }
    }
  }

  /** A connection is requested exactly when a connector was chosen, and it is for that connector. */
  lemma ConnectRequestIff(walletId: string, connectors: seq<Connector>, cfg: Config)
    ensures var r := GetInitialConnector(walletId, connectors, cfg);
            var q := ConnectRequest(walletId, connectors, cfg);
            (q.Some? <==> r.Some? && r.value.connector.Some?)
            && (q.Some? ==> q.value.0 == r.value.connector.value && q.value.0 in connectors
                            && q.value.1 == r.value.chainId)
  {
    var r := GetInitialConnector(walletId, connectors, cfg);
    if r.Some? && r.value.connector.Some? {
      var f := Find(connectors, IsReadySafe);
      if f.Some? {
        var i :| 0 <= i < |connectors| && connectors[i] == f.value && IsReadySafe(connectors[i]);
      } else if walletId == "" && AllowBurner(cfg) && cfg.walletAutoConnect {
        var b := Find(connectors, c => HasId(cfg.burnerWalletId, c));
        var i :| 0 <= i < |connectors| && connectors[i] == b.value && HasId(cfg.burnerWalletId, connectors[i]);
      } else {
        var b := Find(connectors, c => HasId(walletId, c));
        var i :| 0 <= i < |connectors| && connectors[i] == b.value && HasId(walletId, connectors[i]);
      }
    }
  }

  /** A stored entry read back through the storage hooks' parser; an absent or unparsable one is `None`. */
  function StoredValue(storage: map<string, string>, key: string, parse: string -> Option<string>): Option<string> {
    if key in storage then parse(storage[key]) else None
  }

  /**
   * The wallet id the storage hook starts from: the persisted scaffold entry
   * when there is one, otherwise the wagmi wallet entry, otherwise "".
   */
  function InitialWalletId(storage: map<string, string>, parse: string -> Option<string>): string {
    var scaffold := StoredValue(storage, ScaffoldWalletStorageKey, parse);
    if scaffold.Some? then scaffold.value
    else StoredValue(storage, WagmiWalletStorageKey, parse).GetOr("")
  }

  /** An id persisted by `setWalletId` is the one a later mount starts from, whatever wagmi stored. */
  lemma StoredIdIsRecovered(storage: map<string, string>, id: string, serialise: string -> string, parse: string -> Option<string>)
    requires parse(serialise(id)) == Some(id)
    ensures InitialWalletId(storage[ScaffoldWalletStorageKey := serialise(id)], parse) == id
  {
  }

  /** Without a persisted scaffold entry the id falls back to the wagmi wallet, then to "". */
  lemma WagmiFallback(storage: map<string, string>, parse: string -> Option<string>)
    requires ScaffoldWalletStorageKey !in storage
    ensures WagmiWalletStorageKey in storage && parse(storage[WagmiWalletStorageKey]).Some? ==>
              InitialWalletId(storage, parse) == parse(storage[WagmiWalletStorageKey]).value
    ensures !(WagmiWalletStorageKey in storage && parse(storage[WagmiWalletStorageKey]).Some?) ==>
              InitialWalletId(storage, parse) == ""
  {
  }

  /**
   * The stored wallet id and the local storage it lives next to. `walletId` is
   * persisted under `ScaffoldWalletStorageKey` by the storage hook with a
   * serialiser that is a parameter here.
   */
  class WalletIdStore {
    var walletId: string
    var storage: map<string, string>

    /** The hook on mount: the id read from storage as `InitialWalletId` says, the storage unchanged. */
    constructor (storage0: map<string, string>, parse: string -> Option<string>)
      ensures walletId == InitialWalletId(storage0, parse)
      ensures storage == storage0
    {
      walletId := InitialWalletId(storage0, parse);
      storage := storage0;
    }

    /** `setWalletId`: the hook's state and its persisted copy. */
    method SetWalletId(id: string, serialise: string -> string)
      modifies this
      ensures walletId == id
      ensures storage == old(storage)[ScaffoldWalletStorageKey := serialise(id)]
    {
      walletId := id;
      storage := storage[ScaffoldWalletStorageKey := serialise(id)];
    }

    /** The effect on a change of connection: keep the connector's id, or reset both stores on disconnect. */
    method OnAccountChange(isConnected: bool, connector: Option<Connector>, serialise: string -> string)
      modifies this
      ensures isConnected && connector.Some? ==>
                walletId == connector.value.id
                && storage == old(storage)[ScaffoldWalletStorageKey := serialise(connector.value.id)]
      ensures !(isConnected && connector.Some?) ==>
                walletId == ""
                && storage == old(storage)[WagmiWalletStorageKey := EmptyJsonString][ScaffoldWalletStorageKey := serialise("")]
    {
      if isConnected && connector.Some? {
        SetWalletId(connector.value.id, serialise);
      } else {
        storage := storage[WagmiWalletStorageKey := EmptyJsonString];
        SetWalletId("", serialise);
      }
    }
  }
}
