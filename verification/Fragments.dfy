/** What a fragmented message is, independently of the code that cuts it up or
    puts it together again. */
module Fragments {
  import opened Common
  import opened Tiling

  const MAX_APDU_DSAP_SIZE: nat := 180
  const MAX_FULL_PACKET_SIZE: nat := 1500

  /** The hash key: source address and 12-bit packet id. */
  datatype Key = Key(src: nat, id: nat)

  /** A fragment as the reassembly module receives it. */
  datatype Fragment = Fragment(key: Key, offset: nat, bytes: seq<byte>, last: bool)

  /** A fragment as the reassembly module keeps it. */
  datatype Stored = Stored(offset: nat, bytes: seq<byte>) {
    function Extent(): Interval { Interval(offset, |bytes|) }
  }

  /** `o` is one of 0, d, 2d, ... */
  ghost predicate Multiple(o: nat, d: nat)
    requires d > 0
  {
    o == 0 || (o >= d && Multiple(o - d, d))
  }

  /** A message together with the MTU its sender cuts it with. */
  datatype Message = Message(bytes: seq<byte>, mtu: nat) {
    ghost predicate Valid() {
      1 <= mtu <= MAX_APDU_DSAP_SIZE && 0 < |bytes| <= MAX_FULL_PACKET_SIZE
    }

    ghost predicate IsOffset(o: nat)
      requires Valid()
    {
      o < |bytes| && Multiple(o, mtu)
    }

    ghost function Offsets(): set<nat>
      requires Valid()
    {
      set o: nat | o < |bytes| && IsOffset(o)
    }

    function PieceEnd(o: nat): nat {
      if o + mtu < |bytes| then o + mtu else |bytes|
    }

    function PieceBytes(o: nat): seq<byte>
      requires o <= |bytes|
    {
      bytes[o..PieceEnd(o)]
    }

    function Piece(key: Key, o: nat): Fragment
      requires o <= |bytes|
    {
      Fragment(key, o, PieceBytes(o), PieceEnd(o) == |bytes|)
    }

    /** `f` is one of the pieces the sender cuts this message into. */
    ghost predicate IsPiece(f: Fragment)
      requires Valid()
    {
      IsOffset(f.offset) && f == Piece(f.key, f.offset)
    }

    ghost predicate IsStoredPiece(s: Stored)
      requires Valid()
    {
      IsOffset(s.offset) && s.bytes == PieceBytes(s.offset)
    }
  }

  function Intervals(fs: seq<Stored>): (r: seq<Interval>)
    ensures |r| == |fs|
    ensures forall i :: 0 <= i < |fs| ==> r[i] == fs[i].Extent()
  {
    if fs == [] then [] else [fs[0].Extent()] + Intervals(fs[1..])
  }

  function OffsetsOf(fs: seq<Stored>): set<nat> {
    set i | 0 <= i < |fs| :: fs[i].offset
  }

  ghost predicate DistinctOffsets(fs: seq<Stored>) {
    forall i, j :: 0 <= i < j < |fs| ==> fs[i].offset != fs[j].offset
  }

  /** A collection of different pieces of one message. */
  ghost predicate PiecesOf(fs: seq<Stored>, m: Message)
    requires m.Valid()
  {
    && DistinctOffsets(fs)
    && forall i :: 0 <= i < |fs| ==> m.IsStoredPiece(fs[i])
  }

  // ---------------------------------------------------------------- tiling

  lemma {:induction false} MultiplesAreApart(a: nat, b: nat, d: nat)
    requires d > 0 && Multiple(a, d) && Multiple(b, d) && a < b
    ensures a + d <= b
  {
    if a > 0 {
      MultiplesAreApart(a - d, b - d, d);
    }
  }

  lemma PiecesApart(a: Stored, b: Stored, m: Message, p: nat)
    requires m.Valid() && m.IsStoredPiece(a) && m.IsStoredPiece(b) && a.offset != b.offset
    ensures !Covers(a.Extent(), p) || !Covers(b.Extent(), p)
  {
    hide Multiple;
    if a.offset < b.offset {
      MultiplesAreApart(a.offset, b.offset, m.mtu);
    } else {
      MultiplesAreApart(b.offset, a.offset, m.mtu);
    }
  }

  lemma PieceInside(a: Stored, m: Message)
    requires m.Valid() && m.IsStoredPiece(a)
    ensures a.Extent().End() <= |m.bytes|
  {
    hide Multiple;
  }

  lemma PiecesAreDisjoint(fs: seq<Stored>, m: Message)
    requires m.Valid() && PiecesOf(fs, m)
    ensures Disjoint(Intervals(fs))
    ensures forall i :: 0 <= i < |fs| ==> Intervals(fs)[i].End() <= |m.bytes|
  {
    hide Intervals, Covers, Multiple;
    forall i, j, p: nat | 0 <= i < j < |fs| && Covers(Intervals(fs)[i], p)
      ensures !Covers(Intervals(fs)[j], p)
    {
      PiecesApart(fs[i], fs[j], m, p);
    }
    forall i | 0 <= i < |fs|
      ensures Intervals(fs)[i].End() <= |m.bytes|
    {
      PieceInside(fs[i], m);
    }
  }

  lemma {:induction false} MultipleBelow(p: nat, d: nat) returns (o: nat)
    requires d > 0
    ensures Multiple(o, d) && o <= p < o + d
  {
    if p < d {
      o := 0;
    } else {
      var o' := MultipleBelow(p - d, d);
      o := o' + d;
    }
  }

  /** Every position of a message lies in one of its pieces. */
  lemma HolderOfPosition(m: Message, p: nat) returns (o: nat)
    requires m.Valid() && p < |m.bytes|
    ensures m.IsOffset(o) && o <= p < m.PieceEnd(o)
  {
    o := MultipleBelow(p, m.mtu);
  }

  /** A stored piece that covers the first position of a piece is that piece. */
  lemma CoversItsOffset(a: Stored, m: Message, o: nat)
    requires m.Valid() && m.IsStoredPiece(a) && m.IsOffset(o) && Covers(a.Extent(), o)
    ensures a.offset == o
  {
    hide Multiple;
    if a.offset < o { MultiplesAreApart(a.offset, o, m.mtu); }
  }

  lemma TilingHasAllPieces(fs: seq<Stored>, m: Message)
    requires m.Valid() && PiecesOf(fs, m) && Tiles(Intervals(fs), |m.bytes|)
    ensures OffsetsOf(fs) == m.Offsets()
  {
    hide Intervals, Covers, Multiple, Disjoint, DistinctOffsets;
    forall o | o in m.Offsets()
      ensures o in OffsetsOf(fs)
    {
      assert Covered(Intervals(fs), o);
      var i :| 0 <= i < |fs| && Covers(Intervals(fs)[i], o);
      CoversItsOffset(fs[i], m, o);
    }
    forall o | o in OffsetsOf(fs)
      ensures o in m.Offsets()
    {
      var i :| 0 <= i < |fs| && fs[i].offset == o;
      assert m.IsStoredPiece(fs[i]);
    }
  }

  lemma AllPiecesTile(fs: seq<Stored>, m: Message)
    requires m.Valid() && PiecesOf(fs, m) && OffsetsOf(fs) == m.Offsets()
    ensures Tiles(Intervals(fs), |m.bytes|)
  {
    hide Multiple;
    PiecesAreDisjoint(fs, m);
    forall p: nat
      ensures Covered(Intervals(fs), p) <==> p < |m.bytes|
    {
      if p < |m.bytes| {
        var o := HolderOfPosition(m, p);
        assert o in OffsetsOf(fs);
        var i :| 0 <= i < |fs| && fs[i].offset == o;
        assert m.IsStoredPiece(fs[i]) && Covers(Intervals(fs)[i], p);
      }
    }
  }

  /** The receiver's completeness test is right for the pieces of one message:
      their sizes add up to the message length exactly when none is missing. */
  lemma SizeSumDecidesCompleteness(fs: seq<Stored>, m: Message)
    requires m.Valid() && PiecesOf(fs, m)
    ensures SizeSum(Intervals(fs)) == |m.bytes| <==> OffsetsOf(fs) == m.Offsets()
  {
    PiecesAreDisjoint(fs, m);
    SumMeetsFullSizeIffTiles(Intervals(fs), |m.bytes|);
    if Tiles(Intervals(fs), |m.bytes|) {
      TilingHasAllPieces(fs, m);
    } else if OffsetsOf(fs) == m.Offsets() {
      AllPiecesTile(fs, m);
    }
  }

  /** The last piece is unique: exactly the piece that reaches the end of the message. */
  lemma OneLastPiece(m: Message, o: nat, o': nat)
    requires m.Valid() && m.IsOffset(o) && m.IsOffset(o')
    requires m.PieceEnd(o) == |m.bytes| && m.PieceEnd(o') == |m.bytes|
    ensures o == o'
  {
    if o < o' { MultiplesAreApart(o, o', m.mtu); }
    if o' < o { MultiplesAreApart(o', o, m.mtu); }
  }

  /** Every message has a last piece. */
  lemma LastPieceExists(m: Message) returns (o: nat)
    requires m.Valid()
    ensures m.IsOffset(o) && m.PieceEnd(o) == |m.bytes|
  {
    o := HolderOfPosition(m, |m.bytes| - 1);
  }

  // ---------------------------------------------------------------- copying

  /** Writing `s` over `buf` at its offset. */
  function Overwrite(buf: seq<byte>, s: Stored): (r: seq<byte>)
    requires s.offset + |s.bytes| <= |buf|
    ensures |r| == |buf|
  {
    buf[..s.offset] + s.bytes + buf[s.offset + |s.bytes|..]
  }

  ghost predicate AllFit(fs: seq<Stored>, size: nat) {
    forall i :: 0 <= i < |fs| ==> fs[i].offset + |fs[i].bytes| <= size
  }

  /** What a buffer holds after all fragments were copied into it, in list order. */
  function CopyAll(buf: seq<byte>, fs: seq<Stored>): (r: seq<byte>)
    requires AllFit(fs, |buf|)
    ensures |r| == |buf|
    decreases |fs|
  {
    if fs == [] then buf else
      assert forall i :: 0 <= i < |fs| - 1 ==> fs[1..][i] == fs[i + 1];
      CopyAll(Overwrite(buf, fs[0]), fs[1..])
  }

  lemma OverwriteAgrees(buf: seq<byte>, s: Stored, m: Message, p: nat)
    requires m.Valid() && m.IsStoredPiece(s) && |m.bytes| <= |buf| && p < |m.bytes|
    ensures s.offset + |s.bytes| <= |buf|
    ensures Covers(s.Extent(), p) || buf[p] == m.bytes[p] ==> Overwrite(buf, s)[p] == m.bytes[p]
  {
    hide Multiple;
  }

  lemma CoveredFirstOrLater(fs: seq<Stored>, p: nat)
    requires fs != [] && Covered(Intervals(fs), p)
    ensures Covers(fs[0].Extent(), p) || Covered(Intervals(fs[1..]), p)
  {
    var i :| 0 <= i < |fs| && Covers(Intervals(fs)[i], p);
    if i > 0 {
      assert Covers(Intervals(fs[1..])[i - 1], p);
    }
  }

  /** After copying, each position covered by a piece holds the message's byte. */
  lemma {:induction false} CopyAllAgrees(buf: seq<byte>, fs: seq<Stored>, m: Message, p: nat)
    requires m.Valid() && (forall i :: 0 <= i < |fs| ==> m.IsStoredPiece(fs[i]))
    requires |m.bytes| <= |buf| && AllFit(fs, |buf|)
    requires p < |m.bytes|
    requires Covered(Intervals(fs), p) || buf[p] == m.bytes[p]
    ensures CopyAll(buf, fs)[p] == m.bytes[p]
    decreases |fs|
  {
    hide Intervals, Covers, Multiple, Overwrite;
    if fs != [] {
      var rest := fs[1..];
      assert forall i :: 0 <= i < |rest| ==> rest[i] == fs[i + 1];
      if Covered(Intervals(fs), p) { CoveredFirstOrLater(fs, p); }
      OverwriteAgrees(buf, fs[0], m, p);
      CopyAllAgrees(Overwrite(buf, fs[0]), rest, m, p);
    }
  }

  /** Copying all the pieces of a message, in any order, rebuilds it byte for byte. */
  lemma CopyAllRebuilds(buf: seq<byte>, fs: seq<Stored>, m: Message)
    requires m.Valid() && PiecesOf(fs, m) && OffsetsOf(fs) == m.Offsets()
    requires |m.bytes| <= |buf|
    ensures AllFit(fs, |buf|)
    ensures CopyAll(buf, fs)[..|m.bytes|] == m.bytes
  {
    hide Intervals, Covered, CopyAll, Multiple, Message.IsPiece;
    TilesEverything(fs, m);
    assert AllFit(fs, |buf|);
    forall p: nat | p < |m.bytes|
      ensures CopyAll(buf, fs)[p] == m.bytes[p]
    {
      CopyAllAgrees(buf, fs, m, p);
    }
    SamePrefix(CopyAll(buf, fs), m.bytes);
  }

  lemma TilesEverything(fs: seq<Stored>, m: Message)
    requires m.Valid() && PiecesOf(fs, m) && OffsetsOf(fs) == m.Offsets()
    ensures forall i :: 0 <= i < |fs| ==> m.IsStoredPiece(fs[i]) && fs[i].Extent().End() <= |m.bytes|
    ensures forall p: nat :: p < |m.bytes| ==> Covered(Intervals(fs), p)
  {
    hide Covered, Intervals, Multiple, Disjoint;
    AllPiecesTile(fs, m);
    forall i | 0 <= i < |fs|
      ensures m.IsStoredPiece(fs[i]) && fs[i].Extent().End() <= |m.bytes|
    {
      PieceInside(fs[i], m);
    }
  }

  lemma SamePrefix(s: seq<byte>, t: seq<byte>)
    requires |t| <= |s| && forall p :: 0 <= p < |t| ==> s[p] == t[p]
    ensures s[..|t|] == t
  {}
}
