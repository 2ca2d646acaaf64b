/** Uploading and downloading a scratchpad block by block. */
module Scratchpad {
  import opened AppResults
  import opened Common
  import opened ScratchpadNode

  function BlockSize(n: Node, remaining: nat): nat {
    if remaining > n.blockMax then n.blockMax else remaining
  }

  lemma BlockKeepsValid(n: Node, address: nat, bytes: seq<byte>)
    requires n.Valid()
    ensures n.Block(address, bytes).0.Valid() && n.Block(address, bytes).0.blockMax == n.blockMax
  {}

  /** The blocks of `bytes` from address `start` on, until one is refused. */
  function LoadBlocks(n: Node, bytes: seq<byte>, start: nat): (r: (Node, AppRes))
    requires n.Valid()
    ensures r.0.Valid() && r.0.blockMax == n.blockMax
    decreases |bytes|
  {
    if bytes == [] then (n, OK)
    else
      var size := BlockSize(n, |bytes|);
      BlockKeepsValid(n, start, bytes[..size]);
      var (n', code) := n.Block(start, bytes[..size]);
      if code > 1 || code < 0 then (n', Convert(BLOCK_LUT, code))
      else LoadBlocks(n', bytes[size..], start + size)
  }

  function UploadBlock(n: Node, bytes: seq<byte>, start: nat): (r: (Node, AppRes))
    requires n.Valid()
    ensures r.0.Valid()
  {
    var (n', code) := n.Read();
    if code != 0 then (n', INTERNAL_ERROR) else LoadBlocks(n', bytes, start)
  }

  method WpcUploadLocalBlockScratchpad(link: Link, bytes: seq<byte>, start: nat) returns (res: AppRes)
    requires link.node.Valid()
    modifies link
    ensures (link.node, res) == UploadBlock(old(link.node), bytes, start)
  {
    hide Node.Block, BlockSize;
    var maxBlockSize;
    res, maxBlockSize := link.GetScratchpadBlockMax();
    if res != OK {
      return;
    }
    ghost var n := link.node;
    var loaded := 0;
    while loaded < |bytes|
      invariant loaded <= |bytes|
      invariant link.node.Valid() && link.node.blockMax == maxBlockSize
      invariant LoadBlocks(n, bytes, start) == LoadBlocks(link.node, bytes[loaded..], start + loaded)
    {
      var remaining := |bytes| - loaded;
      var blockSize := if remaining > maxBlockSize then maxBlockSize else remaining;
      ghost var rest := bytes[loaded..];
      assert blockSize == BlockSize(link.node, |rest|) by { BlockSizeIs(link.node, remaining); }
      assert rest[..blockSize] == bytes[loaded..loaded + blockSize];
      assert rest[blockSize..] == bytes[loaded + blockSize..];
      BlockKeepsValid(link.node, start + loaded, rest[..blockSize]);
      var code := link.ScratchpadBlock(start + loaded, bytes[loaded..loaded + blockSize]);
      if code > 1 || code < 0 {
        return Convert(BLOCK_LUT, code);
      }
      loaded := loaded + blockSize;
    }
    return OK;
  }

  lemma BlockSizeIs(n: Node, remaining: nat)
    ensures BlockSize(n, remaining) == if remaining > n.blockMax then n.blockMax else remaining
  {}

  function StartUpdate(n: Node, len: nat, seqNumber: nat): (Node, AppRes) {
    var (n', code) := n.StartUpdate(len, seqNumber);
    (n', Convert(START_LUT, code))
  }

  lemma StartKeepsValid(n: Node, len: nat, seqNumber: nat)
    requires n.Valid()
    ensures StartUpdate(n, len, seqNumber).0.Valid()
  {}

  method WpcStartLocalScratchpadUpdate(link: Link, len: nat, seqNumber: nat) returns (res: AppRes)
    modifies link
    ensures (link.node, res) == StartUpdate(old(link.node), len, seqNumber)
  {
    var code := link.ScratchpadStart(len, seqNumber);
    return Convert(START_LUT, code);
  }

  function Upload(n: Node, bytes: seq<byte>, seqNumber: nat): (r: (Node, AppRes))
    requires n.Valid()
    ensures r.0.Valid()
  {
    StartKeepsValid(n, |bytes|, seqNumber);
    var (n', res) := StartUpdate(n, |bytes|, seqNumber);
    if res != OK then (n', res) else UploadBlock(n', bytes, 0)
  }

  method WpcUploadLocalScratchpad(link: Link, bytes: seq<byte>, seqNumber: nat) returns (res: AppRes)
    requires link.node.Valid()
    modifies link
    ensures (link.node, res) == Upload(old(link.node), bytes, seqNumber)
  {
    hide UploadBlock;
    StartKeepsValid(link.node, |bytes|, seqNumber);
    res := WpcStartLocalScratchpadUpdate(link, |bytes|, seqNumber);
    if res != OK {
      return;
    }
    res := WpcUploadLocalBlockScratchpad(link, bytes, 0);
  }

  // -------------------------------------------------------- what is loaded

  /** The same node, whatever is still to go wrong. */
  ghost predicate Alike(a: Node, b: Node) {
    a == b.(faults := a.faults)
  }

  /** The node after `bytes` were loaded. */
  function Loaded(n: Node, bytes: seq<byte>): Node {
    if bytes == [] then n else n.Append(bytes)
  }

  /** The node takes these bytes at this address. */
  ghost predicate Takes(n: Node, bytes: seq<byte>, start: nat) {
    bytes == [] || (n.updating && !n.running && start == |n.image| && |n.image| + |bytes| <= n.expected)
  }

  lemma LoadedTwice(n: Node, a: seq<byte>, b: seq<byte>)
    requires a != [] && |n.image| + |a| < n.expected
    ensures Loaded(Loaded(n, a), b) == Loaded(n, a + b)
  {
    assert b == [] ==> a + b == a;
    assert (n.image + a) + b == n.image + (a + b);
  }

  lemma OneBlock(n: Node, bytes: seq<byte>, start: nat)
    requires n.Valid() && bytes != [] && |bytes| <= n.blockMax
    ensures var (n', code) := n.Block(start, bytes);
            && (0 <= code <= 1 ==> Takes(n, bytes, start) && Alike(n', Loaded(n, bytes)))
            && (n.faults == [] ==> n'.faults == [] && (Takes(n, bytes, start) ==> 0 <= code <= 1))
            && (Alike(n', n) || (Takes(n, bytes, start) && Alike(n', Loaded(n, bytes))))
  {}

  lemma TakesBoth(n: Node, n': Node, a: seq<byte>, b: seq<byte>, start: nat)
    requires n.Valid() && a != [] && Takes(n, a, start) && Alike(n', Loaded(n, a))
    ensures Takes(n', b, start + |a|) <==> Takes(n, a + b, start)
    ensures Takes(n, a + b, start) ==> Alike(Loaded(n', b), Loaded(n, a + b))
  {
    hide Node.Valid;
    if b == [] {
      assert a + b == a;
    } else if Takes(n, a + b, start) {
      LoadedTwice(n, a, b);
    }
  }

  /** An upload that reports success has appended exactly its bytes; on a sound
      link it succeeds exactly when the node can take them.  Whatever happens, the
      node has got a first part of the bytes and nothing else. */
  lemma {:induction false} LoadBlocksAppends(n: Node, bytes: seq<byte>, start: nat) returns (k: nat)
    requires n.Valid()
    ensures var (n', res) := LoadBlocks(n, bytes, start);
            && (res == OK ==> Takes(n, bytes, start) && Alike(n', Loaded(n, bytes)))
            && (n.faults == [] ==> n'.faults == [] && (res == OK <==> Takes(n, bytes, start)))
            && k <= |bytes| && Takes(n, bytes[..k], start) && Alike(n', Loaded(n, bytes[..k]))
    decreases |bytes|
  {
    hide Node.Block, Node.Valid, Node.Append, Takes;
    k := 0;
    if bytes == [] {
      TakesNothing(n, start);
      assert bytes[..0] == [];
    } else {
      var size := BlockSize(n, |bytes|);
      BlockSizeFits(n, |bytes|);
      var a, b := bytes[..size], bytes[size..];
      assert a + b == bytes;
      BlockKeepsValid(n, start, a);
      OneBlock(n, a, start);
      var (n', code) := n.Block(start, a);
      if 0 <= code <= 1 {
        TakesBoth(n, n', a, b, start);
        var j := LoadBlocksAppends(n', b, start + size);
        k := size + j;
        assert bytes[..k] == a + b[..j];
        TakesBoth(n, n', a, b[..j], start);
      } else {
        TakesFirst(n, a, b, start);
        TakesNothing(n, start);
        ErrorsAreErrors(code);
        if Alike(n', n) {
          assert bytes[..0] == [];
        } else {
          k := size;
        }
      }
    }
  }

  lemma BlockSizeFits(n: Node, remaining: nat)
    requires n.Valid() && remaining > 0
    ensures 0 < BlockSize(n, remaining) <= remaining && BlockSize(n, remaining) <= n.blockMax
  {}

  lemma TakesNothing(n: Node, start: nat)
    ensures Takes(n, [], start) && Loaded(n, []) == n
  {}

  lemma TakesFirst(n: Node, a: seq<byte>, b: seq<byte>, start: nat)
    requires a != []
    ensures Takes(n, a + b, start) ==> Takes(n, a, start)
  {}

  lemma ErrorsAreErrors(code: int)
    requires code < 0 || code > 1
    ensures Convert(BLOCK_LUT, code) != OK
  {}

  // --------------------------------------------------------------- download

  lemma ReadKeepsNode(n: Node, address: nat, len: nat)
    ensures Alike(n.BlockRead(address, len).0, n)
    ensures n.BlockRead(address, len).1 == 0 ==> |n.BlockRead(address, len).2| == len
  {}

  /** Reading block by block over the old content of the caller's buffer.  Answer
      1 counts as success although nothing was read. */
  function ReadBlocks(n: Node, buffer: seq<byte>, start: nat): (r: (Node, AppRes, seq<byte>))
    requires n.Valid()
    ensures |r.2| == |buffer|
    decreases |buffer|
  {
    if buffer == [] then (n, OK, [])
    else
      var size := BlockSize(n, |buffer|);
      ReadKeepsNode(n, start, size);
      var (n', code, data) := n.BlockRead(start, size);
      if code > 1 || code < 0 then (n', Convert(BLOCK_READ_LUT, code), buffer)
      else
        var (n'', res, rest) := ReadBlocks(n', buffer[size..], start + size);
        (n'', res, (if code == 0 then data else buffer[..size]) + rest)
  }

  function Download(n: Node, buffer: seq<byte>, start: nat): (r: (Node, AppRes, seq<byte>))
    requires n.Valid()
    ensures |r.2| == |buffer|
  {
    var (n', code) := n.Read();
    if code != 0 then (n', INTERNAL_ERROR, buffer) else ReadBlocks(n', buffer, start)
  }

  /** A download from `n` that has read `done` and come to the node `now`. */
  ghost predicate Reading(n: Node, buffer: seq<byte>, start: nat, now: Node, done: seq<byte>) {
    && n.Valid() && now.Valid() && |done| <= |buffer|
    && var r := ReadBlocks(now, buffer[|done|..], start + |done|);
       ReadBlocks(n, buffer, start) == (r.0, r.1, done + r.2)
  }

  lemma ReadingStarts(n: Node, buffer: seq<byte>, start: nat)
    requires n.Valid()
    ensures Reading(n, buffer, start, n, [])
  {
    hide ReadBlocks;
    assert buffer[0..] == buffer;
    assert [] + ReadBlocks(n, buffer, start).2 == ReadBlocks(n, buffer, start).2;
  }

  lemma ReadingGoesOn(n: Node, buffer: seq<byte>, start: nat, now: Node, done: seq<byte>, size: nat)
    requires Reading(n, buffer, start, now, done)
    requires |done| < |buffer| && size == BlockSize(now, |buffer| - |done|)
    ensures size > 0 && |done| + size <= |buffer|
    ensures var (now', code, data) := now.BlockRead(start + |done|, size);
            && now'.Valid() && now'.blockMax == now.blockMax && (code == 0 ==> |data| == size)
            && if 0 <= code <= 1 then
                 Reading(n, buffer, start, now', done + if code == 0 then data else buffer[|done|..|done| + size])
               else
                 ReadBlocks(n, buffer, start) == (now', Convert(BLOCK_READ_LUT, code), done + buffer[|done|..])
  {
    hide BlockSize, Node.BlockRead, ReadBlocks;
    BlockSizeFits(now, |buffer| - |done|);
    ReadKeepsNode(now, start + |done|, size);
    var rest := buffer[|done|..];
    RestInTwo(buffer, |done|, size);
    ReadOneBlock(now, rest, start + |done|);
    var (now', code, data) := now.BlockRead(start + |done|, size);
    if 0 <= code <= 1 {
      var x, y := if code == 0 then data else rest[..size], ReadBlocks(now', rest[size..], start + |done| + size).2;
      Regrouped(done, x, y);
    }
  }

  lemma ReadOneBlock(n: Node, buffer: seq<byte>, start: nat)
    requires n.Valid() && buffer != []
    ensures var size := BlockSize(n, |buffer|);
            var (n', code, data) := n.BlockRead(start, size);
            size <= |buffer| && n'.Valid() &&
            ReadBlocks(n, buffer, start) ==
            if code > 1 || code < 0 then (n', Convert(BLOCK_READ_LUT, code), buffer)
            else
              var (n'', res, rest) := ReadBlocks(n', buffer[size..], start + size);
              (n'', res, (if code == 0 then data else buffer[..size]) + rest)
  {
    hide Node.BlockRead;
    BlockSizeFits(n, |buffer|);
    ReadKeepsNode(n, start, BlockSize(n, |buffer|));
  }

  lemma RestInTwo(s: seq<byte>, i: nat, size: nat)
    requires i + size <= |s|
    ensures s[i..][..size] == s[i..i + size] && s[i..][size..] == s[i + size..]
  {}

  lemma Regrouped(a: seq<byte>, b: seq<byte>, c: seq<byte>)
    ensures a + (b + c) == (a + b) + c
  {}

  lemma ReadingEnds(n: Node, buffer: seq<byte>, start: nat, now: Node, done: seq<byte>)
    requires Reading(n, buffer, start, now, done) && |done| == |buffer|
    ensures ReadBlocks(n, buffer, start) == (now, OK, done)
  {
    assert done + [] == done;
  }

  method Memcpy(bytes: array<byte>, at: nat, data: seq<byte>)
    requires at + |data| <= bytes.Length
    modifies bytes
    ensures bytes[..] == old(bytes[..at]) + data + old(bytes[at + |data|..])
  {
    forall i | 0 <= i < |data| { bytes[at + i] := data[i]; }
  }

  /** A buffer whose first part was replaced by `done`. */
  function Replaced(before: seq<byte>, done: seq<byte>): seq<byte>
    requires |done| <= |before|
  {
    done + before[|done|..]
  }

  lemma ReplacedMore(before: seq<byte>, done: seq<byte>, data: seq<byte>)
    requires |done| + |data| <= |before|
    ensures var now := Replaced(before, done);
            now[..|done|] + data + now[|done| + |data|..] == Replaced(before, done + data)
  {}

  lemma ReplacedSame(before: seq<byte>, done: seq<byte>, size: nat)
    requires |done| + size <= |before|
    ensures Replaced(before, done + before[|done|..|done| + size]) == Replaced(before, done)
  {}

  lemma ReplacedMeans(before: seq<byte>, done: seq<byte>, len: nat)
    requires |done| <= len <= |before|
    ensures Replaced(before, done)[..len] == done + before[..len][|done|..]
    ensures Replaced(before, done)[len..] == before[len..]
  {}

  lemma SliceOfPrefix(s: seq<byte>, n: nat, i: nat, j: nat)
    requires i <= j <= n <= |s|
    ensures s[i..j] == s[..n][i..j]
  {}

  lemma Parts(bytes: array<byte>, len: nat)
    requires len <= bytes.Length
    ensures bytes[..][..len] == bytes[..len] && bytes[..][len..] == bytes[len..]
  {}

  lemma NothingLeft(buffer: seq<byte>, done: seq<byte>)
    ensures buffer[|buffer|..] == [] && done + [] == done
  {}

  method WpcDownloadLocalScratchpad(link: Link, len: nat, bytes: array<byte>, start: nat) returns (res: AppRes)
    requires link.node.Valid() && len <= bytes.Length
    modifies link, bytes
    ensures (link.node, res, bytes[..len]) == Download(old(link.node), old(bytes[..len]), start)
    ensures bytes[len..] == old(bytes[len..])
  {
    hide BlockSize, Node.BlockRead, Node.Valid, Reading, ReadBlocks, Replaced;
    var maxBlockSize;
    assert link.node.Read().0.Valid() by { ReadStaysValid(link.node); }
    res, maxBlockSize := link.GetScratchpadBlockMax();
    if res != OK {
      return;
    }
    ghost var n, before, done := link.node, bytes[..], [];
    ghost var buffer := before[..len];
    Parts(bytes, len);
    ReadingStarts(n, buffer, start);
    assert before == Replaced(before, []) by { ReplacedSame(before, [], 0); ReplacedMeans(before, [], 0); }
    var loaded := 0;
    while loaded < len
      invariant loaded == |done| <= len
      invariant bytes[..] == Replaced(before, done)
      invariant link.node.blockMax == maxBlockSize
      invariant Reading(n, buffer, start, link.node, done)
    {
      ReplacedMeans(before, done, len);
      var remaining := len - loaded;
      var blockSize := if remaining > maxBlockSize then maxBlockSize else remaining;
      assert blockSize == BlockSize(link.node, remaining) by { BlockSizeIs(link.node, remaining); }
      ReadingGoesOn(n, buffer, start, link.node, done, blockSize);
      var code, data := link.ScratchpadBlockRead(start + loaded, blockSize);
      if code > 1 || code < 0 {
        Parts(bytes, len);
        return Convert(BLOCK_READ_LUT, code);
      }
      SliceOfPrefix(before, len, loaded, loaded + blockSize);
      if code == 0 {
        ReplacedMore(before, done, data);
        Memcpy(bytes, loaded, data);
        done := done + data;
      } else {
        ReplacedSame(before, done, blockSize);
        done := done + before[loaded..loaded + blockSize];
      }
      loaded := loaded + blockSize;
    }
    ReadingEnds(n, buffer, start, link.node, done);
    ReplacedMeans(before, done, len);
    NothingLeft(buffer, done);
    Parts(bytes, len);
    return OK;
  }

  lemma ReadStaysValid(n: Node)
    requires n.Valid()
    ensures n.Read().0.Valid()
  {}

  /** The node can give these bytes. */
  ghost predicate Has(n: Node, start: nat, len: nat) {
    len == 0 || (n.stored.Scratchpad? && start + len <= |n.stored.image|)
  }

  ghost function Range(n: Node, start: nat, len: nat): seq<byte>
    requires Has(n, start, len)
  {
    if len == 0 then [] else n.stored.image[start..start + len]
  }

  lemma OneRead(n: Node, start: nat, len: nat)
    requires len > 0
    ensures var (n', code, data) := n.BlockRead(start, len);
            && Alike(n', n) && (n.faults == [] ==> n'.faults == [])
            && (!n.running && 0 <= code <= 1 ==> code == 0 && Has(n, start, len) && data == Range(n, start, len))
            && (!n.running && n.faults == [] ==> (code == 0 <==> Has(n, start, len)) && code != 1 && code >= 0)
            && (n.running && n.faults == [] ==> code == 1)
  {}

  lemma HasBoth(n: Node, n': Node, start: nat, a: nat, b: nat)
    requires Alike(n', n) && a > 0
    ensures Has(n, start, a + b) <==> Has(n, start, a) && Has(n', start + a, b)
    ensures Has(n, start, a + b) ==> Range(n, start, a + b) == Range(n, start, a) + Range(n', start + a, b)
  {}

  lemma ReadErrorsAreErrors(code: int)
    requires code < 0 || code > 1
    ensures Convert(BLOCK_READ_LUT, code) != OK
  {}

  /** From a stopped node a download that reports success gives the bytes of the
      stored scratchpad; on a sound link it succeeds exactly when they exist.  From
      a running node it reports success without reading anything. */
  lemma {:induction false} ReadBlocksGiveImage(n: Node, buffer: seq<byte>, start: nat)
    requires n.Valid()
    ensures var (n', res, data) := ReadBlocks(n, buffer, start);
            && Alike(n', n)
            && (!n.running && res == OK ==> Has(n, start, |buffer|) && data == Range(n, start, |buffer|))
            && (!n.running && n.faults == [] ==> (res == OK <==> Has(n, start, |buffer|)))
            && (n.running && n.faults == [] ==> res == OK && data == buffer)
    decreases |buffer|
  {
    hide Node.BlockRead, Node.Valid, Has, Range;
    if buffer == [] {
      HasNothing(n, start);
    } else {
      var size := BlockSize(n, |buffer|);
      BlockSizeFits(n, |buffer|);
      ReadKeepsNode(n, start, size);
      OneRead(n, start, size);
      var (n', code, data) := n.BlockRead(start, size);
      StillValid(n, n');
      HasBoth(n, n', start, size, |buffer| - size);
      assert buffer == buffer[..size] + buffer[size..];
      if 0 <= code <= 1 {
        ReadBlocksGiveImage(n', buffer[size..], start + size);
      } else {
        ReadErrorsAreErrors(code);
      }
    }
  }

  lemma HasNothing(n: Node, start: nat)
    ensures Has(n, start, 0) && Range(n, start, 0) == []
  {}

  lemma StillValid(n: Node, n': Node)
    requires n.Valid() && Alike(n', n)
    ensures n'.Valid()
  {}

  /** Why a sound, stopped node does not give what it is asked for. */
  function ReadError(n: Node, start: nat): AppRes {
    if n.stored == Nothing then NO_VALID_SCRATCHPAD
    else if start > |n.stored.image| then INVALID_START_ADDRESS
    else INVALID_NUMBER_OF_BYTES
  }

  lemma OneReadFails(n: Node, start: nat, len: nat)
    requires len > 0 && n.faults == [] && !n.running && !Has(n, start, len)
    ensures Convert(BLOCK_READ_LUT, n.BlockRead(start, len).1) == ReadError(n, start)
  {}

  lemma LaterReadError(n: Node, n': Node, start: nat, len: nat)
    requires Alike(n', n) && len > 0 && Has(n, start, len)
    ensures ReadError(n', start + len) == ReadError(n, start) == INVALID_NUMBER_OF_BYTES
  {}

  lemma {:induction false} ReadsFail(n: Node, buffer: seq<byte>, start: nat)
    requires n.Valid() && n.faults == [] && !n.running && !Has(n, start, |buffer|)
    ensures ReadBlocks(n, buffer, start).1 == ReadError(n, start)
    decreases |buffer|
  {
    hide Node.BlockRead, Node.Valid, Has, Range, ReadError;
    HasNothing(n, start);
    var size := BlockSize(n, |buffer|);
    BlockSizeFits(n, |buffer|);
    ReadKeepsNode(n, start, size);
    OneRead(n, start, size);
    var (n', code, data) := n.BlockRead(start, size);
    StillValid(n, n');
    HasBoth(n, n', start, size, |buffer| - size);
    if code == 0 {
      ReadsFail(n', buffer[size..], start + size);
      LaterReadError(n, n', start, size);
    } else {
      OneReadFails(n, start, size);
    }
  }

  /** The error of a download from a sound, stopped node that has not got the bytes
      asked for. */
  lemma DownloadErrors(n: Node, buffer: seq<byte>, start: nat)
    requires n.Valid() && n.faults == [] && !n.running && buffer != []
    ensures var res := Download(n, buffer, start).1;
            if n.stored == Nothing then res == NO_VALID_SCRATCHPAD
            else if start > |n.stored.image| then res == INVALID_START_ADDRESS
            else if start + |buffer| > |n.stored.image| then res == INVALID_NUMBER_OF_BYTES
            else res == OK
  {
    hide ReadBlocks;
    ReadBlocksGiveImage(n, buffer, start);
    if !Has(n, start, |buffer|) { ReadsFail(n, buffer, start); }
  }

  /** A scratchpad that was uploaded comes back from a download. */
  lemma DownloadGivesBack(n: Node, bytes: seq<byte>, seqNumber: nat, buffer: seq<byte>)
    requires n.Valid() && !n.running && |buffer| == |bytes|
    requires Upload(n, bytes, seqNumber).1 == OK
    ensures var n' := Upload(n, bytes, seqNumber).0;
            && n'.stored == Scratchpad(seqNumber, bytes)
            && (Download(n', buffer, 0).1 == OK ==> Download(n', buffer, 0).2 == bytes)
            && (n'.faults == [] ==> Download(n', buffer, 0).1 == OK)
  {
    hide LoadBlocks, ReadBlocks;
    var n1 := StartUpdate(n, |bytes|, seqNumber).0;
    StartKeepsValid(n, |bytes|, seqNumber);
    var k := LoadBlocksAppends(n1.Read().0, bytes, 0);
    var n' := Upload(n, bytes, seqNumber).0;
    ReadBlocksGiveImage(n'.Read().0, buffer, 0);
  }
}
