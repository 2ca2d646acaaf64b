/** The buckets of the hash table: every handle is on the chain its hash value
    selects, and nowhere else. */
module HashBuckets {
  import opened HashLinks

  datatype Bucket = Bucket(hhHead: Handle?, count: nat, expandMult: nat)

  const EmptyBucket := Bucket(null, 0, 0)

  /** The bucket of a hash value: its low bits, the number of buckets being a power of two. */
  function ToBkt(hashv: nat, numBuckets: nat): (b: nat)
    requires numBuckets > 0
    ensures b < numBuckets
  {
    hashv % numBuckets
  }

  /** Every node is on the chain of its bucket, and on no other. */
  ghost predicate Placed(nodes: set<Handle>, chains: seq<seq<Handle>>) {
    && |chains| > 0
    && (forall b, x :: 0 <= b < |chains| && x in chains[b] ==> x in nodes && ToBkt(x.hashv, |chains|) == b)
    && (forall x :: x in nodes ==> x in chains[ToBkt(x.hashv, |chains|)])
  }

  /** Heads, counts and links of all chains are right. */
  ghost predicate ChainsOk(bs: seq<Bucket>, chains: seq<seq<Handle>>, nodes: set<Handle>)
    reads nodes`hhPrev, nodes`hhNext
  {
    && |bs| == |chains|
    && (forall b, x :: 0 <= b < |chains| && x in chains[b] ==> x in nodes)
    && forall b :: 0 <= b < |chains| ==> Chain(chains[b], bs[b].hhHead) && bs[b].count == |chains[b]|
  }

  lemma ChainAt(bs: seq<Bucket>, chains: seq<seq<Handle>>, nodes: set<Handle>, b: nat)
    requires ChainsOk(bs, chains, nodes) && b < |bs|
    ensures |chains| == |bs| && Chain(chains[b], bs[b].hhHead) && forall x :: x in chains[b] ==> x in nodes
  {
    hide Chain;
  }

  lemma OnItsChain(nodes: set<Handle>, chains: seq<seq<Handle>>, x: Handle)
    requires Placed(nodes, chains) && x in nodes
    ensures |chains| > 0 && x in chains[ToBkt(x.hashv, |chains|)]
  {
    hide ToBkt;
  }

  /** Chains of different buckets share no node. */
  lemma ChainsAreApart(nodes: set<Handle>, chains: seq<seq<Handle>>, b: nat, b': nat, y: Handle)
    requires Placed(nodes, chains) && b < |chains| && b' < |chains| && b != b'
    requires y in chains[b']
    ensures y !in chains[b] && y in nodes
  {
    assert forall c :: 0 <= c < |chains| && y in chains[c] ==> ToBkt(y.hashv, |chains|) == c;
  }

  lemma SomeChain(nodes: set<Handle>, chains: seq<seq<Handle>>, x: Handle)
    requires Placed(nodes, chains) && x !in nodes
    ensures |chains| > 0 && x !in chains[ToBkt(x.hashv, |chains|)]
  {}

  lemma PlacedMore(nodes: set<Handle>, chains: seq<seq<Handle>>, x: Handle)
    requires Placed(nodes, chains)
    ensures var b := ToBkt(x.hashv, |chains|);
            Placed(nodes + {x}, chains[b := [x] + chains[b]])
  {
    hide ToBkt;
  }

  ghost function Others(nodes: set<Handle>, c: seq<Handle>): set<Handle> {
    set x | x in nodes && x !in c
  }

  /** The chains of all buckets but `b` are right; they lie among `others`. */
  ghost predicate ChainsExcept(bs: seq<Bucket>, chains: seq<seq<Handle>>, b: nat, others: set<Handle>)
    reads others`hhPrev, others`hhNext
  {
    && |bs| == |chains|
    && (forall i, x :: 0 <= i < |chains| && i != b && x in chains[i] ==> x in others)
    && forall i :: 0 <= i < |chains| && i != b ==> Chain(chains[i], bs[i].hhHead) && bs[i].count == |chains[i]|
  }

  lemma SplitOff(bs: seq<Bucket>, chains: seq<seq<Handle>>, nodes: set<Handle>, b: nat)
    requires Placed(nodes, chains) && ChainsOk(bs, chains, nodes) && b < |chains|
    ensures ChainsExcept(bs, chains, b, Others(nodes, chains[b]))
    ensures Chain(chains[b], bs[b].hhHead) && bs[b].count == |chains[b]|
    ensures forall x :: x in chains[b] ==> x in nodes
  {
    hide ToBkt, Distinct, Placed, Chain;
    forall i, x | 0 <= i < |chains| && i != b && x in chains[i]
      ensures x in Others(nodes, chains[b])
    {
      ChainsAreApart(nodes, chains, b, i, x);
    }
  }

  lemma Rejoin(bs: seq<Bucket>, chains: seq<seq<Handle>>, b: nat, others: set<Handle>, bs': seq<Bucket>,
               chains': seq<seq<Handle>>, nodes': set<Handle>)
    requires ChainsExcept(bs, chains, b, others) && b < |chains| && others <= nodes'
    requires |bs'| == |bs| && |chains'| == |chains|
    requires forall i :: 0 <= i < |chains| && i != b ==> bs'[i] == bs[i] && chains'[i] == chains[i]
    requires Chain(chains'[b], bs'[b].hhHead) && bs'[b].count == |chains'[b]|
    requires forall x :: x in chains'[b] ==> x in nodes'
    ensures ChainsOk(bs', chains', nodes')
  {
    hide Chain;
  }

  /** Puts `x` at the front of its chain and counts it. */
  method PutInBucket(bs: array<Bucket>, x: Handle, ghost chains: seq<seq<Handle>>, ghost nodes: set<Handle>)
    returns (b: nat, ghost chains': seq<seq<Handle>>)
    requires Placed(nodes, chains) && ChainsOk(bs[..], chains, nodes) && x !in nodes
    modifies bs, x`hhPrev, x`hhNext, nodes`hhPrev
    ensures b == ToBkt(x.hashv, |chains|) && |chains'| == |chains|
    ensures Placed(nodes + {x}, chains') && ChainsOk(bs[..], chains', nodes + {x})
    ensures bs[..] == old(bs[..])[b := Bucket(x, old(bs[b].count) + 1, old(bs[b].expandMult))]
  {
    hide ToBkt, Distinct, Placed, ChainsOk, Chain, ChainsExcept;
    SameLength(bs[..], chains, nodes);
    SomeChain(nodes, chains, x);
    b := ToBkt(x.hashv, bs.Length);
    PlacedMore(nodes, chains, x);
    ghost var c, others, before := chains[b], Others(nodes, chains[b]), bs[..];
    chains' := chains[b := [x] + c];
    SplitOff(before, chains, nodes, b);
    var first := bs[b].hhHead;
    FirstOfChain(c, first);
    ChainPrepend(c, first, x);
    bs[b] := Bucket(x, bs[b].count + 1, bs[b].expandMult);
    assert ChainsExcept(before, chains, b, others);
    Rejoin(before, chains, b, others, bs[..], chains', nodes + {x});
  }

  lemma SameLength(bs: seq<Bucket>, chains: seq<seq<Handle>>, nodes: set<Handle>)
    requires Placed(nodes, chains) && ChainsOk(bs, chains, nodes)
    ensures |bs| == |chains| > 0
  {}

  lemma FirstOfChain(c: seq<Handle>, first: Handle?)
    requires Chain(c, first)
    ensures first == null || first in c
  {}

  lemma PlacedLess(nodes: set<Handle>, chains: seq<seq<Handle>>, x: Handle, k: nat)
    requires Placed(nodes, chains) && x in nodes
    requires var b := ToBkt(x.hashv, |chains|);
             Distinct(chains[b]) && k < |chains[b]| && chains[b][k] == x
    ensures var b := ToBkt(x.hashv, |chains|);
            Placed(nodes - {x}, chains[b := Without(chains[b], k)])
  {
    hide ToBkt;
    var b := ToBkt(x.hashv, |chains|);
    WithoutIsDistinct(chains[b], k);
  }

  /** Takes `x` off its chain and counts it off. */
  method TakeFromBucket(bs: array<Bucket>, x: Handle, ghost chains: seq<seq<Handle>>, ghost nodes: set<Handle>)
    returns (ghost chains': seq<seq<Handle>>)
    requires Placed(nodes, chains) && ChainsOk(bs[..], chains, nodes) && x in nodes
    modifies bs, nodes`hhPrev, nodes`hhNext
    ensures |chains'| == |chains|
    ensures Placed(nodes - {x}, chains') && ChainsOk(bs[..], chains', nodes - {x})
    ensures forall i :: 0 <= i < bs.Length ==> bs[i].expandMult == old(bs[i].expandMult)
  {
    hide ToBkt, Distinct, Placed, Without, ChainsOk, Chain, ChainsExcept;
    SameLength(bs[..], chains, nodes);
    PlacedAt(nodes, chains, x);
    var b := ToBkt(x.hashv, bs.Length);
    ghost var c, others, before := chains[b], Others(nodes, chains[b]), bs[..];
    ghost var k: nat :| k < |c| && c[k] == x;
    SplitOff(before, chains, nodes, b);
    DistinctChain(c, bs[b].hhHead);
    PlacedLess(nodes, chains, x, k);
    chains' := chains[b := Without(c, k)];
    WithoutIsShorter(c, k);
    var hhHead := ChainRemove(c, bs[b].hhHead, x, k);
    bs[b] := Bucket(hhHead, bs[b].count - 1, bs[b].expandMult);
    WithoutNodes(nodes, chains, chains', x);
    assert ChainsExcept(before, chains, b, others);
    Rejoin(before, chains, b, others, bs[..], chains', nodes - {x});
  }

  lemma DistinctChain(c: seq<Handle>, first: Handle?)
    requires Chain(c, first)
    ensures Distinct(c)
  {}

  lemma WithoutIsShorter(c: seq<Handle>, k: nat)
    requires k < |c|
    ensures |Without(c, k)| == |c| - 1
  {}

  lemma PlacedAt(nodes: set<Handle>, chains: seq<seq<Handle>>, x: Handle)
    requires Placed(nodes, chains) && x in nodes
    ensures |chains| > 0 && x in chains[ToBkt(x.hashv, |chains|)]
  {}

  lemma WithoutNodes(nodes: set<Handle>, chains: seq<seq<Handle>>, chains': seq<seq<Handle>>, x: Handle)
    requires Placed(nodes - {x}, chains')
    ensures forall b, y :: 0 <= b < |chains'| && y in chains'[b] ==> y in nodes - {x}
  {}
}
