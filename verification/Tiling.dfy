/** Intervals of byte positions.  A received fragment occupies an interval of
    the full message; the receiver never looks at positions, it only adds up
    sizes.  This module proves the counting argument that makes this enough. */
module Tiling {
  datatype Interval = Interval(offset: nat, size: nat) {
    function End(): nat { offset + size }
  }

  ghost predicate Covers(f: Interval, p: nat) {
    f.offset <= p < f.End()
  }

  ghost predicate Covered(fs: seq<Interval>, p: nat) {
    exists i :: 0 <= i < |fs| && Covers(fs[i], p)
  }

  ghost predicate Disjoint(fs: seq<Interval>) {
    forall i, j, p: nat :: 0 <= i < j < |fs| && Covers(fs[i], p) ==> !Covers(fs[j], p)
  }

  /** The intervals tile [0, full): together they cover every position of it and
      nothing else, and no position twice. */
  ghost predicate Tiles(fs: seq<Interval>, full: nat) {
    && Disjoint(fs)
    && forall p: nat :: Covered(fs, p) <==> p < full
  }

  function SizeSum(fs: seq<Interval>): nat {
    if fs == [] then 0 else fs[0].size + SizeSum(fs[1..])
  }

  ghost function Positions(fs: seq<Interval>, full: nat): set<nat> {
    set p: nat | p < full && Covered(fs, p)
  }

  ghost function Span(f: Interval): set<nat> {
    set p: nat | f.offset <= p < f.End() && Covers(f, p)
  }

  lemma {:induction false} SpanSize(f: Interval)
    ensures |Span(f)| == f.size
    decreases f.size
  {
    if f.size > 0 {
      var g := Interval(f.offset, f.size - 1);
      SpanSize(g);
      forall p: nat
        ensures p in Span(f) <==> p in Span(g) + {f.End() - 1}
      {
        assert Covers(f, p) <==> Covers(g, p) || p == f.End() - 1;
      }
      assert Span(f) == Span(g) + {f.End() - 1};
      assert f.End() - 1 !in Span(g);
    }
  }

  lemma CoveredByOne(fs: seq<Interval>, p: nat)
    requires fs != []
    ensures Covered(fs, p) <==> Covers(fs[0], p) || Covered(fs[1..], p)
  {
    hide Covers;
    var rest := fs[1..];
    if Covered(fs, p) {
      var i :| 0 <= i < |fs| && Covers(fs[i], p);
      assert i > 0 ==> Covers(rest[i - 1], p);
    }
    if Covered(rest, p) {
      var i :| 0 <= i < |rest| && Covers(rest[i], p);
      assert Covers(fs[i + 1], p);
    }
  }

  lemma DisjointRest(fs: seq<Interval>, p: nat)
    requires Disjoint(fs) && fs != []
    ensures Disjoint(fs[1..])
    ensures Covers(fs[0], p) ==> !Covered(fs[1..], p)
  {
    hide Covers;
    var rest := fs[1..];
    assert forall i :: 0 <= i < |rest| ==> rest[i] == fs[i + 1];
  }

  lemma PositionsStep(fs: seq<Interval>, full: nat)
    requires Disjoint(fs) && fs != [] && fs[0].End() <= full
    ensures Positions(fs, full) == Span(fs[0]) + Positions(fs[1..], full)
    ensures Span(fs[0]) * Positions(fs[1..], full) == {}
  {
    hide Covered, Disjoint;
    forall p: nat
      ensures p in Positions(fs, full) <==> p in Span(fs[0]) + Positions(fs[1..], full)
      ensures !(p in Span(fs[0]) && p in Positions(fs[1..], full))
    {
      CoveredByOne(fs, p);
      DisjointRest(fs, p);
    }
  }

  /** Disjoint intervals inside [0, full) occupy as many positions as their sizes add up to. */
  lemma {:induction false} PositionsSize(fs: seq<Interval>, full: nat)
    requires Disjoint(fs)
    requires forall i :: 0 <= i < |fs| ==> fs[i].End() <= full
    ensures |Positions(fs, full)| == SizeSum(fs)
  {
    if fs == [] {
      assert Positions(fs, full) == {};
    } else {
      hide Positions, Span, Covers, Disjoint;
      DisjointRest(fs, 0);
      PositionsSize(fs[1..], full);
      PositionsStep(fs, full);
      SpanSize(fs[0]);
    }
  }

  lemma SubsetOfSameSize(a: set<nat>, b: set<nat>)
    requires a <= b && |a| == |b|
    ensures a == b
  {
    assert |b - a| == |b| - |a|;
  }

  /** The receiver's test: for disjoint fragments inside the message, the sizes
      add up to the full size exactly when the fragments tile the message. */
  lemma SumMeetsFullSizeIffTiles(fs: seq<Interval>, full: nat)
    requires Disjoint(fs)
    requires forall i :: 0 <= i < |fs| ==> fs[i].End() <= full
    ensures SizeSum(fs) == full <==> Tiles(fs, full)
  {
    PositionsSize(fs, full);
    var all := Span(Interval(0, full));
    SpanSize(Interval(0, full));
    assert forall p: nat :: Covers(Interval(0, full), p) <==> p < full;
    assert Positions(fs, full) <= all;
    if SizeSum(fs) == full {
      SubsetOfSameSize(Positions(fs, full), all);
      forall p: nat
        ensures Covered(fs, p) <==> p < full
      {
        if p < full { assert p in all; }
      }
    }
    if Tiles(fs, full) {
      assert Positions(fs, full) == all;
    }
  }
}
