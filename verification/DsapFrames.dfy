/** The fragment frames that cross the serial line, and what they mean. */
module DsapFrames {
  import opened Common
  import opened Fragments

  /** The low 12 bits of the 16-bit field hold the offset, its top bit the last
      flag; masking and setting these bits is arithmetic on the field. */
  const DSAP_FRAG_LENGTH_RANGE: nat := 0x1000
  const DSAP_FRAG_LAST_FLAG: nat := 0x8000

  /** The part of a request that is the same in all its frames. */
  datatype Header = Header(pduId: nat, destAdd: nat, qos: nat, srcEp: nat, destEp: nat, bufferingDelay: nat)

  datatype Request =
    | TxTt(h: Header, txOptions: bv8, apdu: seq<byte>)
    | TxFrag(h: Header, txOptions: bv8, fullPacketId: nat, offsetFlag: nat, apdu: seq<byte>)

  /** The fragment fields of a received fragment indication. */
  datatype RxFrag = RxFrag(srcAdd: nat, fullPacketId: nat, offsetFlag: nat, apdu: seq<byte>)

  function OffsetFlag(offset: nat, last: bool): nat {
    offset % DSAP_FRAG_LENGTH_RANGE + (if last then DSAP_FRAG_LAST_FLAG else 0)
  }

  function FragmentOf(p: RxFrag): Fragment {
    Fragment(Key(p.srcAdd, p.fullPacketId),
             p.offsetFlag % DSAP_FRAG_LENGTH_RANGE,
             p.apdu,
             (p.offsetFlag / DSAP_FRAG_LAST_FLAG) % 2 == 1)
  }

  /** Offset and last flag survive their packing into 16 bits exactly when the
      offset fits the 12-bit field. */
  lemma OffsetFlagRoundTrip(srcAdd: nat, id: nat, offset: nat, last: bool, apdu: seq<byte>)
    ensures FragmentOf(RxFrag(srcAdd, id, OffsetFlag(offset, last), apdu))
            == Fragment(Key(srcAdd, id), offset, apdu, last)
            <==> offset < DSAP_FRAG_LENGTH_RANGE
  {
  }
}
