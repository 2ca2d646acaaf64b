/** The node's side of scratchpad updates and of stopping and starting the stack,
    and the host's conversion of its answers. */
module ScratchpadNode {
  import opened AppResults
  import opened Common

  const MAXIMUM_SCRATCHPAD_BLOCK_SIZE: nat := 112

  const START_LUT: seq<AppRes> := [OK, STACK_NOT_STOPPED, INVALID_VALUE, INTERNAL_ERROR, ACCESS_DENIED]
  const BLOCK_LUT: seq<AppRes> := [OK, OK, DATA_ERROR, STACK_NOT_STOPPED, NO_SCRATCHPAD_START, INVALID_START_ADDRESS,
                                   INVALID_NUMBER_OF_BYTES, INVALID_SCRATCHPAD]
  const BLOCK_READ_LUT: seq<AppRes> := [OK, STACK_NOT_STOPPED, INVALID_START_ADDRESS, INVALID_NUMBER_OF_BYTES,
                                        NO_VALID_SCRATCHPAD, ACCESS_DENIED]
  const CLEAR_LUT: seq<AppRes> := [OK, STACK_NOT_STOPPED, ACCESS_DENIED]

  function Convert(lut: seq<AppRes>, code: int): AppRes {
    if 0 <= code < |lut| then lut[code] else INTERNAL_ERROR
  }

  /** What may happen to a request: it or its confirm can get lost. */
  datatype Fault = NoFault | RequestLost | ConfirmLost

  /** What may happen to a stop or a start: refused, lost, or done but with no
      status to be had afterwards. */
  datatype PowerFault = Works | Refused | Lost | Unreadable

  datatype Stored = Nothing | Scratchpad(seqNumber: nat, image: seq<byte>)

  /** A node.  `faults` and `powerFaults` say what happens to the requests to
      come; all is well after their end. */
  datatype Node = Node(
    running: bool,
    updating: bool,
    expected: nat,
    seqNumber: nat,
    image: seq<byte>,
    stored: Stored,
    blockMax: nat,
    faults: seq<Fault>,
    powerFaults: seq<PowerFault>)
  {
    predicate Valid() {
      && 1 <= blockMax <= MAXIMUM_SCRATCHPAD_BLOCK_SIZE
      && (updating ==> !running && |image| < expected)
    }

    function Fault(): Fault {
      if faults == [] then NoFault else faults[0]
    }

    function PowerFault(): PowerFault {
      if powerFaults == [] then Works else powerFaults[0]
    }

    /** The node after one more request, without effect otherwise. */
    function Heard(): Node {
      this.(faults := if faults == [] then [] else faults[1..])
    }

    function PowerHeard(): Node {
      this.(powerFaults := if powerFaults == [] then [] else powerFaults[1..])
    }

    /** An exchange with answer `code` that leads to `after`. */
    function Exchange(after: Node, code: int): (Node, int) {
      match Fault()
      case NoFault => (after.Heard(), code)
      case RequestLost => (Heard(), TIMEOUT_ERROR)
      case ConfirmLost => (after.Heard(), TIMEOUT_ERROR)
    }

    /** A read request: 0 when it was answered. */
    function Read(): (Node, int) {
      Exchange(this, 0)
    }

    function StartUpdate(len: nat, seqNumber: nat): (Node, int) {
      if running then Exchange(this, 1)
      else if len == 0 then Exchange(this, 2)
      else Exchange(this.(updating := true, expected := len, seqNumber := seqNumber, image := [], stored := Nothing), 0)
    }

    /** Blocks are accepted in order; the last one completes the scratchpad. */
    function Block(address: nat, bytes: seq<byte>): (Node, int) {
      if running then Exchange(this, 3)
      else if !updating then Exchange(this, 4)
      else if address != |image| then Exchange(this, 5)
      else if bytes == [] || |bytes| > MAXIMUM_SCRATCHPAD_BLOCK_SIZE || |image| + |bytes| > expected then
        Exchange(this, 6)
      else Exchange(Append(bytes), if |image| + |bytes| == expected then 1 else 0)
    }

    function Append(bytes: seq<byte>): Node {
      if |image| + |bytes| == expected then
        this.(updating := false, image := [], stored := Scratchpad(seqNumber, image + bytes))
      else
        this.(image := image + bytes)
    }

    function BlockRead(address: nat, len: nat): (Node, int, seq<byte>) {
      var code := if running then 1 else if stored == Nothing then 4
                  else if address > |stored.image| then 2
                  else if address + len > |stored.image| then 3 else 0;
      var (after, answer) := Exchange(this, code);
      (after, answer, if answer == 0 && code == 0 then stored.image[address..address + len] else [])
    }

    function Clear(): (Node, int) {
      if running then Exchange(this, 1) else Exchange(this.(updating := false, image := [], stored := Nothing), 0)
    }

    /** WPC_stop_stack: a lost stop request is not noticed. */
    function Stop(): (Node, AppRes) {
      if !running then (PowerHeard(), STACK_ALREADY_STOPPED)
      else
        match PowerFault()
        case Works => (this.(running := false).PowerHeard(), OK)
        case Refused => (PowerHeard(), ACCESS_DENIED)
        case Lost => (PowerHeard(), OK)
        case Unreadable => (this.(running := false).PowerHeard(), INTERNAL_ERROR)
    }

    /** WPC_start_stack */
    function Start(): (Node, AppRes) {
      if running then (PowerHeard(), STACK_ALREADY_STARTED)
      else
        var on := this.(running := true, updating := false, image := []);
        match PowerFault()
        case Works => (on.PowerHeard(), OK)
        case Refused => (PowerHeard(), NODE_ADD_NOT_SET)
        case Lost => (PowerHeard(), INTERNAL_ERROR)
        case Unreadable => (on.PowerHeard(), INTERNAL_ERROR)
    }
  }

  /** The line to one node. */
  class Link {
    var node: Node

    constructor (node: Node)
      ensures this.node == node
    {
      this.node := node;
    }

    method GetStackStatus() returns (res: AppRes, status: nat)
      modifies this
      ensures node == old(node).Read().0
      ensures res == (if old(node).Read().1 == 0 then OK else INTERNAL_ERROR)
      ensures status == if node.running then 0 else 1
    {
      var (after, code) := node.Read();
      node := after;
      res := if code == 0 then OK else INTERNAL_ERROR;
      status := if node.running then 0 else 1;
    }

    method GetScratchpadBlockMax() returns (res: AppRes, max: nat)
      modifies this
      ensures node == old(node).Read().0 && max == node.blockMax
      ensures res == (if old(node).Read().1 == 0 then OK else INTERNAL_ERROR)
    {
      var (after, code) := node.Read();
      node := after;
      res, max := if code == 0 then OK else INTERNAL_ERROR, node.blockMax;
    }

    method ScratchpadStart(len: nat, seqNumber: nat) returns (code: int)
      modifies this
      ensures (node, code) == old(node).StartUpdate(len, seqNumber)
    {
      var r := node.StartUpdate(len, seqNumber);
      node, code := r.0, r.1;
    }

    /** A block that is too large is not sent at all. */
    method ScratchpadBlock(address: nat, bytes: seq<byte>) returns (code: int)
      modifies this
      ensures |bytes| > MAXIMUM_SCRATCHPAD_BLOCK_SIZE ==> node == old(node) && code == 6
      ensures |bytes| <= MAXIMUM_SCRATCHPAD_BLOCK_SIZE ==> (node, code) == old(node).Block(address, bytes)
    {
      if |bytes| > MAXIMUM_SCRATCHPAD_BLOCK_SIZE {
        return 6;
      }
      var r := node.Block(address, bytes);
      node, code := r.0, r.1;
    }

    method ScratchpadBlockRead(address: nat, len: nat) returns (code: int, bytes: seq<byte>)
      modifies this
      ensures (node, code, bytes) == old(node).BlockRead(address, len)
    {
      var r := node.BlockRead(address, len);
      node, code, bytes := r.0, r.1, r.2;
    }

    method ScratchpadClear() returns (code: int)
      modifies this
      ensures (node, code) == old(node).Clear()
    {
      var r := node.Clear();
      node, code := r.0, r.1;
    }

    method StopStack() returns (res: AppRes)
      modifies this
      ensures (node, res) == old(node).Stop()
    {
      var r := node.Stop();
      node, res := r.0, r.1;
    }

    method StartStack() returns (res: AppRes)
      modifies this
      ensures (node, res) == old(node).Start()
    {
      var r := node.Start();
      node, res := r.0, r.1;
    }
  }
}
