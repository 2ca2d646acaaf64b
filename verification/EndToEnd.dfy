/** From the frames one node sends to the messages another delivers. */
module EndToEnd {
  import opened Common
  import opened Fragments
  import opened DsapFrames
  import opened DsapSender
  import opened Reassembly
  import opened ReassemblyRuns

  /** How each message was sent: the header and options its frames carry. */
  datatype Sending = Sending(h: Header, txOptions: bv8)

  ghost function FramesOf(k: Key, m: Message, s: Sending): seq<Request>
    requires m.Valid()
  {
    FragRequests(m, 0, s.h, s.txOptions, k.id)
  }

  /** `f` is what the receiver makes of frame number `i` of the message under `f.key`. */
  ghost predicate IsFrame(f: Fragment, m: Message, s: Sending, i: nat)
    requires m.Valid()
  {
    && i < |FramesOf(f.key, m, s)|
    && FramesOf(f.key, m, s)[i].TxFrag?
    && f == FragmentOf(Indicated(f.key.src, FramesOf(f.key, m, s)[i]))
  }

  /** Every arrival of the run is a frame that was sent; nothing is said about
      order, repetition or what happens in between. */
  ghost predicate OnlySentFrames(es: seq<Event>, ms: Messages, how: map<Key, Sending>)
    requires AllValid(ms)
  {
    forall j :: 0 <= j < |es| && es[j].Arrival? ==>
      && es[j].f.key in ms && es[j].f.key in how
      && exists i: nat :: IsFrame(es[j].f, ms[es[j].f.key], how[es[j].f.key], i)
  }

  ghost predicate EveryFrameArrives(es: seq<Event>, k: Key, m: Message, s: Sending)
    requires m.Valid()
  {
    forall i: nat :: i < |FramesOf(k, m, s)| ==> FrameArrives(es, k, m, s, i)
  }

  ghost predicate FrameArrives(es: seq<Event>, k: Key, m: Message, s: Sending, i: nat)
    requires m.Valid()
  {
    exists j :: 0 <= j < |es| && es[j].Arrival? && es[j].f.key == k && IsFrame(es[j].f, m, s, i)
  }

  lemma SentFramesMakeATrace(es: seq<Event>, ms: Messages, how: map<Key, Sending>)
    requires AllValid(ms) && OnlySentFrames(es, ms, how)
    ensures Trace(es, ms)
  {
    forall j | 0 <= j < |es|
      ensures Arrives(es[j], ms)
    {
      if es[j].Arrival? {
        var k := es[j].f.key;
        var i: nat :| IsFrame(es[j].f, ms[k], how[k], i);
        FrameIsPiece(ms[k], how[k].h, how[k].txOptions, k.id, k.src, i);
      }
    }
  }

  lemma AllFramesAreAllPieces(es: seq<Event>, ms: Messages, how: map<Key, Sending>, k: Key)
    requires AllValid(ms) && OnlySentFrames(es, ms, how) && k in ms && k in how
    ensures EveryFrameArrives(es, k, ms[k], how[k]) ==> Arrived(es, k) == ms[k].Offsets()
  {
    SentFramesMakeATrace(es, ms, how);
    var m, s := ms[k], how[k];
    if EveryFrameArrives(es, k, m, s) {
      forall o | o in m.Offsets()
        ensures o in Arrived(es, k)
      {
        var i := EveryPieceSentOnce(m, s.h, s.txOptions, k.id, k.src, o);
        assert FrameArrives(es, k, m, s, i);
      }
      forall o | o in Arrived(es, k)
        ensures o in m.Offsets()
      {
        var j :| 0 <= j < |es| && es[j].Arrival? && es[j].f.key == k && es[j].f.offset == o;
        assert Arrives(es[j], ms);
      }
    }
  }

  /** Fragmented messages under different keys, their frames in any order, mixed
      with each other and repeated before completion: once every frame of a
      message has arrived, the message has been delivered exactly once and is
      what its sender was given. */
  lemma SentMessagesAreDelivered(es: seq<Event>, ms: Messages, how: map<Key, Sending>, buffer: seq<byte>, k: Key)
    requires AllValid(ms) && OnlySentFrames(es, ms, how) && |buffer| == MAX_FULL_PACKET_SIZE
    requires k in ms && k in how && Undisturbed(es, k, ms) && EveryFrameArrives(es, k, ms[k], how[k])
    ensures Trace(es, ms)
    ensures Deliveries(es, k, ms, buffer) == 1
    ensures exists i :: 0 <= i < |es| && DeliveredAt(es, i, ms, buffer) == Some(Delivery(k, ms[k].bytes))
  {
    SentFramesMakeATrace(es, ms, how);
    AllFramesAreAllPieces(es, ms, how, k);
    DeliveredExactlyOnce(es, ms, buffer, k);
    var i := SomeDelivery(es, ms, buffer, k);
    DeliveriesAreOriginals(es, i, ms, buffer);
  }

  lemma {:induction false} SomeDelivery(es: seq<Event>, ms: Messages, buffer: seq<byte>, k: Key) returns (i: nat)
    requires AllValid(ms) && Trace(es, ms) && |buffer| == MAX_FULL_PACKET_SIZE
    requires Deliveries(es, k, ms, buffer) > 0
    ensures i < |es| && DeliversKey(DeliveredAt(es, i, ms, buffer), k)
    decreases |es|
  {
    hide Step;
    var before := es[..|es| - 1];
    if DeliversKey(Step(Run(before, ms, buffer), es[|es| - 1], ms).1, k) {
      i := |es| - 1;
    } else {
      i := SomeDelivery(before, ms, buffer, k);
      assert es[..i] == before[..i] && es[i] == before[i];
    }
  }
}
