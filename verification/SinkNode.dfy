/** The node as the set-config handler sees it: its settings, what it refuses,
    and a record of what was asked of it. */
module SinkNode {
  import opened AppResults
  import opened Common

  /** The attributes that the gateway keeps a copy of. */
  datatype Attributes = Attributes(
    role: nat, nodeAddress: nat, networkAddress: nat, networkChannel: nat, acRangeMin: nat, acRangeMax: nat)

  datatype AppConfig = AppConfig(seqNumber: nat, diagInterval: nat, data: seq<byte>)

  datatype Settings = Settings(
    attributes: Attributes, cipherKey: Option<seq<byte>>, authenticationKey: Option<seq<byte>>, appConfig: AppConfig)

  datatype Write =
    | Role(role: nat)
    | NodeAddress(nodeAddress: nat)
    | NetworkAddress(networkAddress: nat)
    | NetworkChannel(channel: nat)
    | AppConfigData(appConfig: AppConfig)
    | CipherKey(key: seq<byte>)
    | AuthenticationKey(key: seq<byte>)
    | AccessCycleRange(min: nat, max: nat)
  {
    /** All but the app config may only be written while the stack is stopped. */
    predicate StoppedOnly() {
      !AppConfigData?
    }
  }

  function WrittenAttributes(a: Attributes, w: Write): Attributes {
    match w
    case Role(v) => a.(role := v)
    case NodeAddress(v) => a.(nodeAddress := v)
    case NetworkAddress(v) => a.(networkAddress := v)
    case NetworkChannel(v) => a.(networkChannel := v)
    case AccessCycleRange(lo, hi) => a.(acRangeMin := lo, acRangeMax := hi)
    case _ => a
  }

  function Written(s: Settings, w: Write): Settings {
    match w
    case AppConfigData(v) => s.(appConfig := v)
    case CipherKey(v) => s.(cipherKey := Some(v))
    case AuthenticationKey(v) => s.(authenticationKey := Some(v))
    case _ => s.(attributes := WrittenAttributes(s.attributes, w))
  }

  /** What can be read back, of what the gateway keeps a copy of. */
  datatype Field =
    | STATUS | CIPHER_SET | AUTHENTICATION_SET | AC_RANGE | NODE_ADDRESS | ROLE | NETWORK_ADDRESS | NETWORK_CHANNEL

  /** What becomes of a change asked of the node: it is accepted or refused; or it
      is made and the confirm is lost; or the request is lost. */
  datatype Outcome = Accepted | Refused | Unheard | Lost {
    predicate Done() {
      Accepted? || Unheard?
    }
  }

  /** What was asked of the node, in which state, and what became of it.  Polled is
      the wait for a status after a stop or a start; it tells as well whether the
      node is then in the state that was asked for. */
  datatype Entry =
    | Wrote(write: Write, running: bool, outcome: Outcome)
    | Autostart(on: bool, outcome: Outcome)
    | Stop(running: bool, outcome: Outcome)
    | Start(running: bool, outcome: Outcome)
    | Got(field: Field, answered: bool)
    | Polled(answered: bool, right: bool)

  /** `outcomes` and `unreadable` tell what becomes of the changes to come and which
      reads to come fail; all is well after their end. */
  datatype Node = Node(
    settings: Settings,
    running: bool,
    outcomes: seq<Outcome>,
    unreadable: seq<bool>,
    log: seq<Entry>)
  {
    function Next(): Outcome {
      if outcomes == [] then Accepted else outcomes[0]
    }

    predicate Readable() {
      unreadable == [] || !unreadable[0]
    }

    function Asked(e: Entry): Node {
      this.(outcomes := if outcomes == [] then [] else outcomes[1..], log := log + [e])
    }

    function Looked(e: Entry): Node {
      this.(unreadable := if unreadable == [] then [] else unreadable[1..], log := log + [e])
    }

    function Read(f: Field): Node {
      Looked(Got(f, Readable()))
    }

    function Poll(right: bool): Node {
      Looked(Polled(Readable(), right))
    }

    function Set(w: Write): Node {
      this.(settings := if Next().Done() then Written(settings, w) else settings).Asked(Wrote(w, running, Next()))
    }

    /** What the caller of a write is told. */
    function SetResult(): AppRes {
      match Next()
      case Accepted => OK
      case Refused => ACCESS_DENIED
      case _ => INTERNAL_ERROR
    }

    function SetAutostart(on: bool): Node {
      Asked(Autostart(on, Next()))
    }

    /** A stop, until the status can be read again after the reboot.  That no confirm
        comes is taken for part of the reboot. */
    function StopStack(): (Node, AppRes) {
      var n := this.(running := running && !Next().Done()).Asked(Stop(running, Next()));
      if Next().Refused? then (n, ACCESS_DENIED)
      else if Next().Accepted? && !running then (n, STACK_ALREADY_STOPPED)
      else (n.Poll(!n.running), if Readable() then OK else INTERNAL_ERROR)
    }

    /** The start request alone. */
    function StartRequest(): (Node, AppRes) {
      (this.(running := running || Next().Done()).Asked(Start(running, Next())),
       if Next().Unheard? || Next().Lost? then INTERNAL_ERROR
       else if running then STACK_ALREADY_STARTED
       else if Next().Refused? then NODE_ADD_NOT_SET
       else OK)
    }
  }
}
