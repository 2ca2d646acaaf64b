/** Doubling the number of buckets: every handle is moved to the chain its hash
    value selects among the new buckets. */
module HashExpand {
  import opened HashLinks
  import opened HashBuckets

  /** Items beyond the ideal length of a chain. */
  function Over(count: nat, ideal: nat): nat {
    if count > ideal then count - ideal else 0
  }

  /** All items beyond the ideal length of their chains. */
  function Excess(bs: seq<Bucket>, ideal: nat): nat {
    if bs == [] then 0 else Over(bs[0].count, ideal) + Excess(bs[1..], ideal)
  }

  lemma {:induction false} ExcessUpdate(bs: seq<Bucket>, b: nat, bucket: Bucket, ideal: nat)
    requires b < |bs|
    ensures Excess(bs[b := bucket], ideal) + Over(bs[b].count, ideal) == Excess(bs, ideal) + Over(bucket.count, ideal)
  {
    if b == 0 {
      assert bs[b := bucket][1..] == bs[1..];
    } else {
      assert bs[b := bucket][1..] == bs[1..][b - 1 := bucket];
      ExcessUpdate(bs[1..], b - 1, bucket, ideal);
    }
  }

  lemma {:induction false} EmptyHasNoExcess(bs: seq<Bucket>, ideal: nat)
    requires forall b :: 0 <= b < |bs| ==> bs[b] == EmptyBucket
    ensures Excess(bs, ideal) == 0
  {
    if bs != [] { EmptyHasNoExcess(bs[1..], ideal); }
  }

  ghost function Members(c: seq<Handle>): set<Handle> {
    set x | x in c
  }

  /** The new buckets hold `moved` and their excess has been counted. */
  ghost predicate Moved(nb: seq<Bucket>, chains: seq<seq<Handle>>, moved: set<Handle>, ideal: nat, nonideal: nat)
    reads moved`hhPrev, moved`hhNext
  {
    && Placed(moved, chains)
    && ChainsOk(nb, chains, moved)
    && nonideal == Excess(nb, ideal)
  }

  /** What is left of a chain, linked forward only. */
  ghost predicate Forward(c: seq<Handle>, first: Handle?)
    reads c`hhNext
  {
    && Distinct(c)
    && first == At(c, 0)
    && forall i :: 0 <= i < |c| ==> c[i].hhNext == At(c, i + 1)
  }

  /** Moves one handle to its new chain. */
  method MoveHandle(nb: array<Bucket>, thh: Handle, ghost chains: seq<seq<Handle>>, ghost moved: set<Handle>,
                    ideal: nat, nonideal: nat)
    returns (nonideal': nat, ghost chains': seq<seq<Handle>>)
    requires Moved(nb[..], chains, moved, ideal, nonideal) && thh !in moved
    modifies nb, thh`hhPrev, thh`hhNext, moved`hhPrev
    ensures |chains'| == |chains|
    ensures Moved(nb[..], chains', moved + {thh}, ideal, nonideal')
  {
    hide Placed, ChainsOk, ToBkt, Excess;
    nonideal' := nonideal;
    ghost var before := nb[..];
    var b;
    SameLength(nb[..], chains, moved);
    b, chains' := PutInBucket(nb, thh, chains, moved);
    SameLength(nb[..], chains', moved + {thh});
    ExcessUpdate(before, b, nb[..][b], ideal);
    if nb[b].count > ideal {
      nonideal' := nonideal' + 1;
      if nb[b].count > nb[b].expandMult * ideal {
        ghost var put := nb[..];
        nb[b] := nb[b].(expandMult := nb[b].expandMult + 1);
        ExpandMultIsFree(put, b, nb[..][b], chains', moved + {thh}, ideal);
      }
    }
  }

  /** The expansion multiplier takes no part in what makes the chains right. */
  lemma ExpandMultIsFree(bs: seq<Bucket>, b: nat, bucket: Bucket, chains: seq<seq<Handle>>, nodes: set<Handle>,
                         ideal: nat)
    requires ChainsOk(bs, chains, nodes) && b < |bs|
    requires bucket.hhHead == bs[b].hhHead && bucket.count == bs[b].count
    ensures ChainsOk(bs[b := bucket], chains, nodes)
    ensures Excess(bs[b := bucket], ideal) == Excess(bs, ideal)
  {
    ExcessUpdate(bs, b, bucket, ideal);
  }

  /** Moves what is left of one old chain. */
  method MoveChain(nb: array<Bucket>, first: Handle?, ghost c: seq<Handle>, ghost chains: seq<seq<Handle>>,
                   ghost moved: set<Handle>, ideal: nat, nonideal: nat)
    returns (nonideal': nat, ghost chains': seq<seq<Handle>>, ghost moved': set<Handle>)
    requires Moved(nb[..], chains, moved, ideal, nonideal) && Forward(c, first)
    requires forall x :: x in c ==> x !in moved
    modifies nb, c`hhPrev, c`hhNext, moved`hhPrev
    ensures |chains'| == |chains|
    ensures moved' == moved + Members(c)
    ensures Moved(nb[..], chains', moved', ideal, nonideal')
  {
    hide Moved, Distinct;
    nonideal', chains', moved' := nonideal, chains, moved;
    var thh := first;
    ghost var i := 0;
    while thh != null
      invariant i <= |c| && thh == At(c, i)
      invariant |chains'| == |chains|
      invariant Moved(nb[..], chains', moved', ideal, nonideal')
      invariant moved' == moved + Members(c[..i])
      invariant forall j :: i <= j < |c| ==> c[j].hhNext == At(c, j + 1) && c[j] !in moved'
      decreases |c| - i
    {
      var next := thh.hhNext;
      nonideal', chains' := MoveHandle(nb, thh, chains', moved', ideal, nonideal');
      moved' := moved' + {thh};
      TakeOneMore(c, i);
      thh := next;
      i := i + 1;
    }
    assert c[..|c|] == c;
  }

  lemma TakeOneMore(c: seq<Handle>, i: nat)
    requires Distinct(c) && i < |c|
    ensures Members(c[..i + 1]) == Members(c[..i]) + {c[i]}
    ensures forall j :: i < j < |c| ==> c[j] != c[i]
  {
    assert c[..i + 1] == c[..i] + [c[i]];
  }

  /** The nodes of the first `i` chains. */
  ghost function Upto(nodes: set<Handle>, n: nat, i: nat): set<Handle>
    requires n > 0
  {
    set x | x in nodes && ToBkt(x.hashv, n) < i
  }

  lemma UptoStep(nodes: set<Handle>, chains: seq<seq<Handle>>, i: nat)
    requires Placed(nodes, chains) && i < |chains|
    ensures Upto(nodes, |chains|, i + 1) == Upto(nodes, |chains|, i) + Members(chains[i])
    ensures forall x :: x in chains[i] ==> x in nodes && x !in Upto(nodes, |chains|, i)
    ensures Upto(nodes, |chains|, i + 1) <= nodes
    ensures forall b, y :: i < b < |chains| && y in chains[b] ==> y !in chains[i]
  {
    hide ToBkt;
    forall b, y | i < b < |chains| && y in chains[b]
      ensures y !in chains[i]
    {
      ChainsAreApart(nodes, chains, i, b, y);
    }
    forall x
      ensures x in Upto(nodes, |chains|, i + 1) <==> x in Upto(nodes, |chains|, i) + Members(chains[i])
    {
      if x in nodes && ToBkt(x.hashv, |chains|) == i { assert x in chains[i]; }
    }
  }

  lemma UptoEnds(nodes: set<Handle>, n: nat)
    requires n > 0
    ensures Upto(nodes, n, 0) == {} && Upto(nodes, n, n) == nodes
  {
    hide ToBkt;
    assert forall x :: x in nodes ==> ToBkt(x.hashv, n) < n;
  }

  lemma NothingMoved(nb: seq<Bucket>, chains: seq<seq<Handle>>, ideal: nat)
    requires |nb| == |chains| > 0
    requires forall b :: 0 <= b < |nb| ==> nb[b] == EmptyBucket && chains[b] == []
    ensures Moved(nb, chains, {}, ideal, 0)
  {
    EmptyHasNoExcess(nb, ideal);
  }

  /** The chains from `i` on are still linked forward; they lie in `todo`. */
  ghost predicate StillLinked(bs: seq<Bucket>, chains: seq<seq<Handle>>, i: nat, todo: set<Handle>)
    reads todo`hhNext
  {
    && |bs| == |chains|
    && (forall b, x :: i <= b < |chains| && x in chains[b] ==> x in todo)
    && forall b :: i <= b < |chains| ==> Forward(chains[b], bs[b].hhHead)
  }

  lemma AllLinked(bs: seq<Bucket>, chains: seq<seq<Handle>>, nodes: set<Handle>)
    requires ChainsOk(bs, chains, nodes)
    ensures StillLinked(bs, chains, 0, nodes)
  {
    hide Distinct;
  }

  lemma FirstLinked(bs: seq<Bucket>, chains: seq<seq<Handle>>, i: nat, todo: set<Handle>)
    requires StillLinked(bs, chains, i, todo) && i < |chains|
    requires forall b, y :: i < b < |chains| && y in chains[b] ==> y !in chains[i]
    ensures Forward(chains[i], bs[i].hhHead)
    ensures StillLinked(bs, chains, i + 1, todo - Members(chains[i]))
  {
    hide Forward;
  }

  /** The doubling itself: one pass over the old buckets. */
  method Redistribute(bs: array<Bucket>, ghost chains: seq<seq<Handle>>, ghost nodes: set<Handle>, ideal: nat)
    returns (nb: array<Bucket>, nonideal: nat, ghost chains': seq<seq<Handle>>)
    requires Placed(nodes, chains) && ChainsOk(bs[..], chains, nodes)
    modifies nodes`hhPrev, nodes`hhNext
    ensures fresh(nb) && nb.Length == |chains'| == 2 * bs.Length
    ensures Moved(nb[..], chains', nodes, ideal, nonideal)
  {
    hide Placed, Moved, ToBkt, Distinct, ChainsOk, Upto, Forward, StillLinked;
    SameLength(bs[..], chains, nodes);
    nb := new Bucket[2 * bs.Length](_ => EmptyBucket);
    chains' := seq(2 * bs.Length, _ => []);
    nonideal := 0;
    NothingMoved(nb[..], chains', ideal);
    UptoEnds(nodes, |chains|);
    ghost var moved, todo, before := {}, nodes, bs[..];
    AllLinked(before, chains, nodes);
    var i := 0;
    while i < bs.Length
      invariant i <= bs.Length && bs[..] == before
      invariant moved == Upto(nodes, |chains|, i) && moved <= nodes
      invariant |chains'| == nb.Length
      invariant Moved(nb[..], chains', moved, ideal, nonideal)
      invariant StillLinked(before, chains, i, todo) && todo <= nodes
    {
      UptoStep(nodes, chains, i);
      FirstLinked(before, chains, i, todo);
      todo := todo - Members(chains[i]);
      nonideal, chains', moved := MoveChain(nb, bs[i].hhHead, chains[i], chains', moved, ideal, nonideal);
      assert StillLinked(before, chains, i + 1, todo);
      i := i + 1;
    }
  }
}
