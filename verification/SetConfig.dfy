/** The set-config handler and its copy of the node's attributes. */
module SetConfig {
  import opened AppResults
  import opened Common
  import opened SinkNode

  datatype Keys = Keys(cipher: seq<byte>, authentication: seq<byte>)

  datatype AcRange = AcRange(min: nat, max: nat)

  /** A request; absent parts are None. */
  datatype Config = Config(
    role: Option<nat>,
    nodeAddress: Option<nat>,
    networkAddress: Option<nat>,
    networkChannel: Option<nat>,
    appConfig: Option<AppConfig>,
    keys: Option<Keys>,
    acRange: Option<AcRange>,
    sinkOn: Option<bool>)
  {
    predicate NeedsStop() {
      role.Some? || nodeAddress.Some? || networkAddress.Some? || networkChannel.Some? || keys.Some? || acRange.Some?
    }

    /** No value is too large for the node. */
    predicate InRange() {
      && (networkAddress.Some? ==> networkAddress.value <= UINT32_MAX)
      && (networkChannel.Some? ==> networkChannel.value <= UINT8_MAX)
      && (appConfig.Some? ==> appConfig.value.seqNumber <= UINT8_MAX && appConfig.value.diagInterval <= UINT16_MAX)
      && (acRange.Some? ==> acRange.value.min <= UINT16_MAX && acRange.value.max <= UINT16_MAX)
    }
  }

  /** The gateway's copy of what the node holds. */
  datatype Cache = Cache(attributes: Attributes, cipherKeySet: bool, authenticationKeySet: bool, stopped: bool)

  datatype Item = Keep | TooLarge | Change(write: Write)

  /** Where a request has come to: its result so far, and whether the cache is to
      be refreshed at the end. */
  datatype World = World(cache: Cache, node: Node, res: AppRes, changed: bool)

  // ------------------------------------------------------------- the parts

  /** Copies one thing from the node. */
  function Copied(c: Cache, n: Node, f: Field): Cache {
    var a, b := c.attributes, n.settings.attributes;
    match f
    case STATUS => c.(stopped := !n.running)
    case CIPHER_SET => c.(cipherKeySet := n.settings.cipherKey.Some?)
    case AUTHENTICATION_SET => c.(authenticationKeySet := n.settings.authenticationKey.Some?)
    case AC_RANGE => c.(attributes := a.(acRangeMin := b.acRangeMin, acRangeMax := b.acRangeMax))
    case NODE_ADDRESS => c.(attributes := a.(nodeAddress := b.nodeAddress))
    case ROLE => c.(attributes := a.(role := b.role))
    case NETWORK_ADDRESS => c.(attributes := a.(networkAddress := b.networkAddress))
    case NETWORK_CHANNEL => c.(attributes := a.(networkChannel := b.networkChannel))
  }

  function Get(w: World, f: Field): World {
    w.(cache := if w.node.Readable() then Copied(w.cache, w.node, f) else w.cache, node := w.node.Read(f))
  }

  function GetAll(w: World, fs: seq<Field>): World
    decreases |fs|
  {
    if fs == [] then w else GetAll(Get(w, fs[0]), fs[1..])
  }

  const ALL_FIELDS: seq<Field> :=
    [CIPHER_SET, AUTHENTICATION_SET, STATUS, AC_RANGE, NODE_ADDRESS, ROLE, NETWORK_ADDRESS, NETWORK_CHANNEL]

  /** The full refresh, as far as the parts modelled here. */
  function Refresh(w: World): World {
    GetAll(w, ALL_FIELDS)
  }

  /** What the cache takes over after a successful write; keys are asked for. */
  function Noted(w: World, write: Write): World {
    match write
    case CipherKey(_) => Get(w, CIPHER_SET)
    case AuthenticationKey(_) => Get(w, AUTHENTICATION_SET)
    case AppConfigData(_) => w
    case _ => w.(cache := w.cache.(attributes := WrittenAttributes(w.cache.attributes, write)))
  }

  function Do(w: World, item: Item): World {
    match item
    case Keep => w
    case TooLarge => w.(res := INVALID_VALUE)
    case Change(write) =>
      var w' := w.(node := w.node.Set(write));
      if w.node.SetResult() == OK then Noted(w', write).(changed := true) else w'.(res := INVALID_VALUE)
  }

  function RoleItem(a: Attributes, cfg: Config): Item {
    if cfg.role.Some? && cfg.role.value != a.role then Change(Role(cfg.role.value)) else Keep
  }

  function NodeAddressItem(a: Attributes, cfg: Config): Item {
    if cfg.nodeAddress.Some? && cfg.nodeAddress.value != a.nodeAddress then
      Change(NodeAddress(cfg.nodeAddress.value))
    else Keep
  }

  function NetworkAddressItem(a: Attributes, cfg: Config): Item {
    if cfg.networkAddress.Some? && cfg.networkAddress.value != a.networkAddress then
      if cfg.networkAddress.value > UINT32_MAX then TooLarge else Change(NetworkAddress(cfg.networkAddress.value))
    else Keep
  }

  function NetworkChannelItem(a: Attributes, cfg: Config): Item {
    if cfg.networkChannel.Some? && cfg.networkChannel.value != a.networkChannel then
      if cfg.networkChannel.value > UINT8_MAX then TooLarge else Change(NetworkChannel(cfg.networkChannel.value))
    else Keep
  }

  function AppConfigItem(cfg: Config): Item {
    if cfg.appConfig.None? then Keep
    else if cfg.appConfig.value.seqNumber > UINT8_MAX || cfg.appConfig.value.diagInterval > UINT16_MAX then TooLarge
    else Change(AppConfigData(cfg.appConfig.value))
  }

  function CipherItem(cfg: Config): Item {
    if cfg.keys.Some? then Change(CipherKey(cfg.keys.value.cipher)) else Keep
  }

  function AuthenticationItem(cfg: Config): Item {
    if cfg.keys.Some? then Change(AuthenticationKey(cfg.keys.value.authentication)) else Keep
  }

  function AcRangeItem(a: Attributes, cfg: Config): Item {
    if cfg.acRange.None? then Keep
    else if cfg.acRange.value.min > UINT16_MAX || cfg.acRange.value.max > UINT16_MAX then TooLarge
    else if cfg.acRange.value.min != a.acRangeMin || cfg.acRange.value.max != a.acRangeMax then
      Change(AccessCycleRange(cfg.acRange.value.min, cfg.acRange.value.max))
    else Keep
  }

  /** What is to be written, in the order of the code. */
  function Items(a: Attributes, cfg: Config): seq<Item> {
    [RoleItem(a, cfg), NodeAddressItem(a, cfg), NetworkAddressItem(a, cfg), NetworkChannelItem(a, cfg),
     AppConfigItem(cfg), CipherItem(cfg), AuthenticationItem(cfg), AcRangeItem(a, cfg)]
  }

  function DoAll(w: World, items: seq<Item>): World
    decreases |items|
  {
    if items == [] then w else DoAll(Do(w, items[0]), items[1..])
  }

  predicate StopStack(stopped: bool, cfg: Config) {
    !stopped && (cfg.NeedsStop() || cfg.sinkOn == Some(false))
  }

  predicate RestartStack(stopped: bool, cfg: Config) {
    if stopped then cfg.sinkOn == Some(true) else cfg.NeedsStop() && cfg.sinkOn != Some(false)
  }

  /** The request itself changes the on/off state. */
  predicate StateChange(stopped: bool, cfg: Config) {
    cfg.sinkOn == Some(stopped)
  }

  function DoStop(w: World): World {
    var (n, res) := w.node.SetAutostart(false).StopStack();
    if res != OK then w.(node := n, res := INVALID_VALUE)
    else w.(node := n, cache := w.cache.(stopped := true), changed := true)
  }

  /** A successful start request refreshes the cache at once. */
  function StartStack(w: World): (World, AppRes) {
    var (n, res) := w.node.StartRequest();
    if res != OK then (w.(node := n), res)
    else
      var w' := Refresh(w.(node := n));
      (w'.(node := w'.node.Poll(w'.node.running)), if w'.node.Readable() then OK else INTERNAL_ERROR)
  }

  function DoStart(w: World): World {
    var (w', res) := StartStack(w);
    if res != OK then w'.(res := if w.res == OK then res else w.res)
    else w'.(node := w'.node.SetAutostart(true), cache := w'.cache.(stopped := false))
  }

  /** The whole request. */
  function Handle(c: Cache, n: Node, cfg: Config): World {
    var w0 := Get(World(c, n, OK, false), STATUS);
    var stopped := w0.cache.stopped;
    var w1 := w0.(changed := StateChange(stopped, cfg));
    var w2 := if StopStack(stopped, cfg) then DoStop(w1) else w1;
    var w3 := DoAll(w2, Items(w2.cache.attributes, cfg));
    var w4 := if RestartStack(stopped, cfg) then DoStart(w3) else w3;
    if w4.changed then Refresh(w4) else w4
  }

  // ------------------------------------------------------------ the handler

  class Link {
    var node: Node

    constructor (node: Node)
      ensures this.node == node
    {
      this.node := node;
    }

    method Set(w: Write) returns (res: AppRes)
      modifies this
      ensures node == old(node).Set(w) && res == old(node).SetResult()
    {
      res := node.SetResult();
      node := node.Set(w);
    }

    method SetAutostart(on: bool)
      modifies this
      ensures node == old(node).SetAutostart(on)
    {
      node := node.SetAutostart(on);
    }

    method Stop() returns (res: AppRes)
      modifies this
      ensures (node, res) == old(node).StopStack()
    {
      var r := node.StopStack();
      node, res := r.0, r.1;
    }

    method StartRequest() returns (res: AppRes)
      modifies this
      ensures (node, res) == old(node).StartRequest()
    {
      var r := node.StartRequest();
      node, res := r.0, r.1;
    }

    method Read(f: Field) returns (res: AppRes)
      modifies this
      ensures node == old(node).Read(f) && (res == OK <==> old(node).Readable())
    {
      res := if node.Readable() then OK else INTERNAL_ERROR;
      node := node.Read(f);
    }

    method PollStatus(right: bool) returns (res: AppRes)
      modifies this
      ensures node == old(node).Poll(right)
      ensures res == if old(node).Readable() then OK else INTERNAL_ERROR
    {
      res := if node.Readable() then OK else INTERNAL_ERROR;
      node := node.Poll(right);
    }
  }

  datatype Reply = WrongSink | Answered(res: AppRes)

  class SinkConfig {
    var cache: Cache
    const link: Link
    const sinkId: string

    constructor (cache: Cache, link: Link, sinkId: string)
      ensures this.cache == cache && this.link == link && this.sinkId == sinkId
    {
      this.cache, this.link, this.sinkId := cache, link, sinkId;
    }

    ghost function At(res: AppRes, changed: bool): World
      reads this, link
    {
      World(cache, link.node, res, changed)
    }

    method GetFromNode(f: Field, ghost res: AppRes, ghost changed: bool)
      modifies `cache, link
      ensures At(res, changed) == Get(old(At(res, changed)), f)
    {
      var n := link.node;
      var r := link.Read(f);
      if r == OK {
        cache := Copied(cache, n, f);
      }
    }

    /** initialize_config_variables, for the fields modelled here. */
    method RefreshFullStackState(ghost res: AppRes, ghost changed: bool)
      modifies `cache, link
      ensures At(res, changed) == Refresh(old(At(res, changed)))
    {
      hide Get, GetAll;
      GetAllInTurn(At(res, changed));
      GetFromNode(CIPHER_SET, res, changed);
      GetFromNode(AUTHENTICATION_SET, res, changed);
      GetFromNode(STATUS, res, changed);
      GetFromNode(AC_RANGE, res, changed);
      GetFromNode(NODE_ADDRESS, res, changed);
      GetFromNode(ROLE, res, changed);
      GetFromNode(NETWORK_ADDRESS, res, changed);
      GetFromNode(NETWORK_CHANNEL, res, changed);
    }

    method SetRole(cfg: Config, res: AppRes, changed: bool) returns (res': AppRes, changed': bool)
      modifies `cache, link
      ensures At(res', changed') == Do(old(At(res, changed)), RoleItem(old(cache.attributes), cfg))
    {
      res', changed' := res, changed;
      if cfg.role.Some? && cfg.role.value != cache.attributes.role {
        var r := link.Set(Role(cfg.role.value));
        if r != OK {
          res' := INVALID_VALUE;
        } else {
          cache := cache.(attributes := cache.attributes.(role := cfg.role.value));
          changed' := true;
        }
      }
    }

    method SetNodeAddress(cfg: Config, res: AppRes, changed: bool) returns (res': AppRes, changed': bool)
      modifies `cache, link
      ensures At(res', changed') == Do(old(At(res, changed)), NodeAddressItem(old(cache.attributes), cfg))
    {
      res', changed' := res, changed;
      if cfg.nodeAddress.Some? && cfg.nodeAddress.value != cache.attributes.nodeAddress {
        var r := link.Set(NodeAddress(cfg.nodeAddress.value));
        if r != OK {
          res' := INVALID_VALUE;
        } else {
          cache := cache.(attributes := cache.attributes.(nodeAddress := cfg.nodeAddress.value));
          changed' := true;
        }
      }
    }

    method SetNetworkAddress(cfg: Config, res: AppRes, changed: bool) returns (res': AppRes, changed': bool)
      modifies `cache, link
      ensures At(res', changed') == Do(old(At(res, changed)), NetworkAddressItem(old(cache.attributes), cfg))
    {
      res', changed' := res, changed;
      if cfg.networkAddress.Some? && cfg.networkAddress.value != cache.attributes.networkAddress {
        if cfg.networkAddress.value > UINT32_MAX {
          res' := INVALID_VALUE;
        } else {
          var r := link.Set(NetworkAddress(cfg.networkAddress.value));
          if r != OK {
            res' := INVALID_VALUE;
          } else {
            cache := cache.(attributes := cache.attributes.(networkAddress := cfg.networkAddress.value));
            changed' := true;
          }
        }
      }
    }

    method SetNetworkChannel(cfg: Config, res: AppRes, changed: bool) returns (res': AppRes, changed': bool)
      modifies `cache, link
      ensures At(res', changed') == Do(old(At(res, changed)), NetworkChannelItem(old(cache.attributes), cfg))
    {
      res', changed' := res, changed;
      if cfg.networkChannel.Some? && cfg.networkChannel.value != cache.attributes.networkChannel {
        if cfg.networkChannel.value > UINT8_MAX {
          res' := INVALID_VALUE;
        } else {
          var r := link.Set(NetworkChannel(cfg.networkChannel.value));
          if r != OK {
            res' := INVALID_VALUE;
          } else {
            cache := cache.(attributes := cache.attributes.(networkChannel := cfg.networkChannel.value));
            changed' := true;
          }
        }
      }
    }

    method SetAppConfig(cfg: Config, res: AppRes, changed: bool) returns (res': AppRes, changed': bool)
      modifies `cache, link
      ensures At(res', changed') == Do(old(At(res, changed)), AppConfigItem(cfg))
    {
      res', changed' := res, changed;
      if cfg.appConfig.Some? {
        var a := cfg.appConfig.value;
        if a.seqNumber > UINT8_MAX {
          res' := INVALID_VALUE;
        } else if a.diagInterval > UINT16_MAX {
          res' := INVALID_VALUE;
        } else {
          var r := link.Set(AppConfigData(a));
          if r != OK {
            res' := INVALID_VALUE;
          } else {
            changed' := true;
          }
        }
      }
    }

    method SetCipherKey(cfg: Config, res: AppRes, changed: bool) returns (res': AppRes, changed': bool)
      requires cfg.keys.Some?
      modifies `cache, link
      ensures At(res', changed') == Do(old(At(res, changed)), CipherItem(cfg))
    {
      hide Get;
      res', changed' := res, changed;
      var r := link.Set(CipherKey(cfg.keys.value.cipher));
      if r != OK {
        res' := INVALID_VALUE;
      } else {
        GetFromNode(CIPHER_SET, res', changed');
        changed' := true;
      }
    }

    method SetAuthenticationKey(cfg: Config, res: AppRes, changed: bool) returns (res': AppRes, changed': bool)
      requires cfg.keys.Some?
      modifies `cache, link
      ensures At(res', changed') == Do(old(At(res, changed)), AuthenticationItem(cfg))
    {
      hide Get;
      res', changed' := res, changed;
      var r := link.Set(AuthenticationKey(cfg.keys.value.authentication));
      if r != OK {
        res' := INVALID_VALUE;
      } else {
        GetFromNode(AUTHENTICATION_SET, res', changed');
        changed' := true;
      }
    }

    /** Both keys are tried, whatever becomes of the first. */
    method SetKeys(cfg: Config, res: AppRes, changed: bool) returns (res': AppRes, changed': bool)
      modifies `cache, link
      ensures At(res', changed')
              == Do(Do(old(At(res, changed)), CipherItem(cfg)), AuthenticationItem(cfg))
    {
      res', changed' := res, changed;
      if cfg.keys.Some? {
        res', changed' := SetCipherKey(cfg, res, changed);
        res', changed' := SetAuthenticationKey(cfg, res', changed');
      }
    }

    method SetAcRange(cfg: Config, res: AppRes, changed: bool) returns (res': AppRes, changed': bool)
      modifies `cache, link
      ensures At(res', changed') == Do(old(At(res, changed)), AcRangeItem(old(cache.attributes), cfg))
    {
      res', changed' := res, changed;
      if cfg.acRange.Some? {
        var lo, hi := cfg.acRange.value.min, cfg.acRange.value.max;
        if lo > UINT16_MAX || hi > UINT16_MAX {
          res' := INVALID_VALUE;
        } else if lo != cache.attributes.acRangeMin || hi != cache.attributes.acRangeMax {
          var r := link.Set(AccessCycleRange(lo, hi));
          if r != OK {
            res' := INVALID_VALUE;
          } else {
            cache := cache.(attributes := cache.attributes.(acRangeMin := lo, acRangeMax := hi));
            changed' := true;
          }
        }
      }
    }

    method WpcStartStack(ghost res: AppRes, ghost changed: bool) returns (started: AppRes)
      modifies `cache, link
      ensures (At(res, changed), started) == StartStack(old(At(res, changed)))
    {
      hide Refresh;
      started := link.StartRequest();
      if started != OK {
        return;
      }
      RefreshFullStackState(res, changed);
      started := link.PollStatus(link.node.running);
    }

    method HandleSetConfig(sinkId: string, cfg: Config) returns (reply: Reply)
      modifies `cache, link
      ensures sinkId != this.sinkId ==> reply == WrongSink && cache == old(cache) && link.node == old(link.node)
      ensures sinkId == this.sinkId ==>
                var w := Handle(old(cache), old(link.node), cfg);
                reply == Answered(w.res) && cache == w.cache && link.node == w.node
    {
      if sinkId != this.sinkId {
        return WrongSink;
      }
      var res := ApplyConfig(cfg);
      return Answered(res);
    }

    method ApplyConfig(cfg: Config) returns (res: AppRes)
      modifies `cache, link
      ensures var w := Handle(old(cache), old(link.node), cfg);
              res == w.res && cache == w.cache && link.node == w.node
    {
      hide Get, DoAll, StartStack, Refresh, Items, Config.NeedsStop, Node.StopStack, Node.SetAutostart;
      res := OK;
      var configHasChanged, restartStack, stopStack := false, false, false;
      GetFromNode(STATUS, OK, false);
      if cache.stopped {
        if cfg.sinkOn.Some? && cfg.sinkOn.value {
          restartStack := true;
          configHasChanged := true;
        }
      } else {
        if cfg.NeedsStop() {
          restartStack := true;
          stopStack := true;
        }
        if cfg.sinkOn.Some? && !cfg.sinkOn.value {
          restartStack := false;
          stopStack := true;
          configHasChanged := true;
        }
      }
      if stopStack {
        link.SetAutostart(false);
        var r := link.Stop();
        if r != OK {
          res := INVALID_VALUE;
        } else {
          cache := cache.(stopped := true);
          configHasChanged := true;
        }
      }
      res, configHasChanged := WriteAttributes(cfg, res, configHasChanged);
      if restartStack {
        var r := WpcStartStack(res, configHasChanged);
        if r != OK {
          if res == OK {
            res := r;
          }
        } else {
          link.SetAutostart(true);
          cache := cache.(stopped := false);
        }
      }
      if configHasChanged {
        RefreshFullStackState(res, configHasChanged);
      }
    }

    /** The parts in their order, the role first. */
    method WriteAttributes(cfg: Config, res: AppRes, changed: bool) returns (res': AppRes, changed': bool)
      modifies `cache, link
      ensures At(res', changed') == DoAll(old(At(res, changed)), Items(old(cache.attributes), cfg))
    {
      hide Do, DoAll, RoleItem, NodeAddressItem, NetworkAddressItem, NetworkChannelItem, AppConfigItem, AcRangeItem,
        CipherItem, AuthenticationItem;
      DoAllInTurn(At(res, changed), cfg);
      res', changed' := SetRole(cfg, res, changed);
      res', changed' := SetNodeAddress(cfg, res', changed');
      res', changed' := SetNetworkAddress(cfg, res', changed');
      res', changed' := SetNetworkChannel(cfg, res', changed');
      res', changed' := SetAppConfig(cfg, res', changed');
      res', changed' := SetKeys(cfg, res', changed');
      res', changed' := SetAcRange(cfg, res', changed');
    }
  }

  lemma GetAllInTurn(w: World)
    ensures Refresh(w)
            == Get(Get(Get(Get(Get(Get(Get(Get(w, CIPHER_SET), AUTHENTICATION_SET), STATUS), AC_RANGE), NODE_ADDRESS),
                           ROLE), NETWORK_ADDRESS), NETWORK_CHANNEL)
  {
    hide Get;
    var fs := ALL_FIELDS;
    assert fs[1..][1..] == fs[2..] && fs[2..][1..] == fs[3..] && fs[3..][1..] == fs[4..] && fs[4..][1..] == fs[5..];
    assert fs[5..][1..] == fs[6..] && fs[6..][1..] == fs[7..] && fs[7..][1..] == [];
  }

  /** Part after part: those not yet written are still compared with their old values. */
  lemma DoAllInTurn(w: World, cfg: Config)
    ensures var w1 := Do(w, RoleItem(w.cache.attributes, cfg));
            var w2 := Do(w1, NodeAddressItem(w1.cache.attributes, cfg));
            var w3 := Do(w2, NetworkAddressItem(w2.cache.attributes, cfg));
            var w4 := Do(w3, NetworkChannelItem(w3.cache.attributes, cfg));
            var w7 := Do(Do(Do(w4, AppConfigItem(cfg)), CipherItem(cfg)), AuthenticationItem(cfg));
            DoAll(w, Items(w.cache.attributes, cfg)) == Do(w7, AcRangeItem(w7.cache.attributes, cfg))
  {
    hide Do, RoleItem, NodeAddressItem, NetworkAddressItem, NetworkChannelItem, AppConfigItem, AcRangeItem,
      CipherItem, AuthenticationItem;
    var a := w.cache.attributes;
    ItemKinds(a, cfg);
    var w1 := Do(w, RoleItem(a, cfg));
    LeavesRest(w, RoleItem(a, cfg));
    ItemsDependOn(a, w1.cache.attributes, cfg);
    var w2 := Do(w1, NodeAddressItem(a, cfg));
    LeavesRest(w1, NodeAddressItem(a, cfg));
    ItemsDependOn(a, w2.cache.attributes, cfg);
    var w3 := Do(w2, NetworkAddressItem(a, cfg));
    LeavesRest(w2, NetworkAddressItem(a, cfg));
    ItemsDependOn(a, w3.cache.attributes, cfg);
    var w4 := Do(w3, NetworkChannelItem(a, cfg));
    LeavesRest(w3, NetworkChannelItem(a, cfg));
    var w5 := Do(w4, AppConfigItem(cfg));
    LeavesRest(w4, AppConfigItem(cfg));
    var w6 := Do(w5, CipherItem(cfg));
    LeavesRest(w5, CipherItem(cfg));
    var w7 := Do(w6, AuthenticationItem(cfg));
    LeavesRest(w6, AuthenticationItem(cfg));
    ItemsDependOn(a, w7.cache.attributes, cfg);
    DoAllOfEight(w, RoleItem(a, cfg), NodeAddressItem(a, cfg), NetworkAddressItem(a, cfg), NetworkChannelItem(a, cfg),
                 AppConfigItem(cfg), CipherItem(cfg), AuthenticationItem(cfg), AcRangeItem(a, cfg));
  }

  /** Each part writes what it is named after. */
  lemma ItemKinds(a: Attributes, cfg: Config)
    ensures RoleItem(a, cfg).Change? ==> RoleItem(a, cfg).write.Role?
    ensures NodeAddressItem(a, cfg).Change? ==> NodeAddressItem(a, cfg).write.NodeAddress?
    ensures NetworkAddressItem(a, cfg).Change? ==> NetworkAddressItem(a, cfg).write.NetworkAddress?
    ensures NetworkChannelItem(a, cfg).Change? ==> NetworkChannelItem(a, cfg).write.NetworkChannel?
    ensures AppConfigItem(cfg).Change? ==> AppConfigItem(cfg).write.AppConfigData?
    ensures CipherItem(cfg).Change? ==> CipherItem(cfg).write.CipherKey?
    ensures AuthenticationItem(cfg).Change? ==> AuthenticationItem(cfg).write.AuthenticationKey?
  {}

  /** Writing one attribute leaves the others in the cache alone. */
  lemma LeavesRest(w: World, item: Item)
    ensures var a, b := w.cache.attributes, Do(w, item).cache.attributes;
            && (!(item.Change? && item.write.NodeAddress?) ==> b.nodeAddress == a.nodeAddress)
            && (!(item.Change? && item.write.NetworkAddress?) ==> b.networkAddress == a.networkAddress)
            && (!(item.Change? && item.write.NetworkChannel?) ==> b.networkChannel == a.networkChannel)
            && (!(item.Change? && item.write.AccessCycleRange?) ==>
                  b.acRangeMin == a.acRangeMin && b.acRangeMax == a.acRangeMax)
  {
    hide Noted, Get;
    if item.Change? { NotedAttributes(w.(node := w.node.Set(item.write)), item.write); }
  }

  lemma NotedAttributes(w: World, write: Write)
    ensures Noted(w, write).cache.attributes == WrittenAttributes(w.cache.attributes, write)
  {}

  lemma ItemsDependOn(a: Attributes, b: Attributes, cfg: Config)
    ensures a.nodeAddress == b.nodeAddress ==> NodeAddressItem(a, cfg) == NodeAddressItem(b, cfg)
    ensures a.networkAddress == b.networkAddress ==> NetworkAddressItem(a, cfg) == NetworkAddressItem(b, cfg)
    ensures a.networkChannel == b.networkChannel ==> NetworkChannelItem(a, cfg) == NetworkChannelItem(b, cfg)
    ensures a.acRangeMin == b.acRangeMin && a.acRangeMax == b.acRangeMax ==> AcRangeItem(a, cfg) == AcRangeItem(b, cfg)
  {}

  lemma DoAllOfEight(w: World, a: Item, b: Item, c: Item, d: Item, e: Item, f: Item, g: Item, h: Item)
    ensures DoAll(w, [a, b, c, d, e, f, g, h]) == Do(Do(Do(Do(Do(Do(Do(Do(w, a), b), c), d), e), f), g), h)
  {
    hide Do, DoAll;
    var xs, ys := [a, b, c, d], [e, f, g, h];
    assert [a, b, c, d, e, f, g, h] == xs + ys;
    DoAllInParts(w, xs, ys);
    DoAllOfFour(w, a, b, c, d);
    DoAllOfFour(DoAll(w, xs), e, f, g, h);
  }

  lemma DoAllOfFour(w: World, a: Item, b: Item, c: Item, d: Item)
    ensures DoAll(w, [a, b, c, d]) == Do(Do(Do(Do(w, a), b), c), d)
  {
    hide Do, DoAll;
    assert [a, b, c, d] == [a, b] + [c, d];
    DoAllInParts(w, [a, b], [c, d]);
    DoAllOfTwo(w, a, b);
    DoAllOfTwo(DoAll(w, [a, b]), c, d);
  }

  lemma DoAllOfTwo(w: World, a: Item, b: Item)
    ensures DoAll(w, [a, b]) == Do(Do(w, a), b)
  {
    hide Do;
    assert [a, b][1..] == [b] && [b][1..] == [];
    assert DoAll(w, [a, b]) == DoAll(Do(w, a), [b]);
    assert DoAll(Do(w, a), [b]) == DoAll(Do(Do(w, a), b), []);
  }

  lemma {:induction false} DoAllInParts(w: World, xs: seq<Item>, ys: seq<Item>)
    ensures DoAll(w, xs + ys) == DoAll(DoAll(w, xs), ys)
    decreases |xs|
  {
    hide Do;
    if xs == [] {
      assert xs + ys == ys;
    } else {
      assert (xs + ys)[1..] == xs[1..] + ys;
      DoAllInParts(Do(w, xs[0]), xs[1..], ys);
    }
  }
}
