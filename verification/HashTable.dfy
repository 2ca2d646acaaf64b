/** The hash table: it refines a map from keys to handles. */
module HashTable {
  import opened Fragments
  import opened HashLinks
  import opened HashBuckets
  import opened HashExpand

  const HASH_INITIAL_NUM_BUCKETS: nat := 32
  const HASH_INITIAL_NUM_BUCKETS_LOG2: nat := 5
  const HASH_BKT_CAPACITY_THRESH: nat := 10

  function Pow2(n: nat): (r: nat)
    ensures r > 0
  {
    if n == 0 then 1 else 2 * Pow2(n - 1)
  }

  /** The ideal chain length, computed as in the source: quotient by the new
      number of buckets, plus one when there is a remainder. */
  function IdealChainMaxlen(items: nat, buckets: nat): nat
    requires buckets > 0
  {
    items / buckets + (if items % buckets != 0 then 1 else 0)
  }

  /** It is the least chain length with which all items fit. */
  lemma IdealIsCeiling(items: nat, buckets: nat)
    requires buckets > 0
    ensures items <= IdealChainMaxlen(items, buckets) * buckets < items + buckets
  {
    var q, r := items / buckets, items % buckets;
    assert items == buckets * q + r;
    assert (q + 1) * buckets == buckets * q + buckets;
    assert q * buckets == buckets * q;
  }

  class UtHashTable {
    var buckets: array<Bucket>
    var log2NumBuckets: nat
    var numItems: nat
    var tail: Handle
    var idealChainMaxlen: nat
    var nonidealItems: nat
    var ineffExpands: nat
    var noexpand: bool

    ghost var chains: seq<seq<Handle>>
    ghost var nodes: set<Handle>

    /** All items are on the chains their hash values select, the chains are
        linked and counted right, and the number of buckets is a power of two. */
    ghost predicate Valid()
      reads `buckets, `log2NumBuckets, `numItems, `chains, `nodes, buckets, nodes`hhPrev, nodes`hhNext
    {
      && buckets.Length == Pow2(log2NumBuckets)
      && numItems == |nodes|
      && Placed(nodes, chains)
      && ChainsOk(buckets[..], chains, nodes)
    }

    /** HASH_MAKE_TABLE */
    constructor (first: Handle)
      ensures Valid() && fresh(buckets) && nodes == {} && tail == first && !noexpand && ineffExpands == 0
    {
      log2NumBuckets := HASH_INITIAL_NUM_BUCKETS_LOG2;
      numItems, idealChainMaxlen, nonidealItems, ineffExpands, noexpand := 0, 0, 0, 0, false;
      tail := first;
      buckets := new Bucket[HASH_INITIAL_NUM_BUCKETS](_ => EmptyBucket);
      chains := seq(HASH_INITIAL_NUM_BUCKETS, _ => []);
      nodes := {};
    }

    /** HASH_EXPAND_BUCKETS */
    method ExpandBuckets()
      requires Valid()
      modifies `buckets, `log2NumBuckets, `idealChainMaxlen, `nonidealItems, `ineffExpands, `noexpand, `chains,
               nodes`hhPrev, nodes`hhNext
      ensures Valid() && fresh(buckets)
      ensures buckets.Length == 2 * old(buckets.Length)
      ensures idealChainMaxlen == IdealChainMaxlen(numItems, buckets.Length)
      ensures nonidealItems == Excess(buckets[..], idealChainMaxlen)
      ensures ineffExpands == if nonidealItems > numItems / 2 then old(ineffExpands) + 1 else 0
      ensures noexpand == (old(noexpand) || ineffExpands > 1)
    {
      hide Placed, ChainsOk, IdealChainMaxlen, Excess;
      SameLength(buckets[..], chains, nodes);
      var ideal := IdealChainMaxlen(numItems, 2 * buckets.Length);
      var nb, nonideal;
      nb, nonideal, chains := Redistribute(buckets, chains, nodes, ideal);
      idealChainMaxlen := ideal;
      nonidealItems := nonideal;
      buckets := nb;
      log2NumBuckets := log2NumBuckets + 1;
      ineffExpands := if nonidealItems > numItems / 2 then ineffExpands + 1 else 0;
      if ineffExpands > 1 {
        noexpand := true;
      }
    }

    /** The bucket of a handle. */
    ghost function Bkt(x: Handle): (b: nat)
      requires buckets.Length > 0
      reads `buckets
      ensures b < buckets.Length
    {
      ToBkt(x.hashv, buckets.Length)
    }

    /** HASH_ADD_TO_TABLE: the table is doubled exactly when the chain of the new
        item has reached its threshold and expansion is not switched off. */
    method AddToTable(x: Handle)
      requires Valid() && x !in nodes
      modifies `buckets, `log2NumBuckets, `numItems, `idealChainMaxlen, `nonidealItems, `ineffExpands, `noexpand,
               `chains, `nodes, buckets, x`hhPrev, x`hhNext, nodes`hhPrev, nodes`hhNext
      ensures Valid() && nodes == old(nodes) + {x}
      ensures old(buckets[Bkt(x)].count + 1 >= (buckets[Bkt(x)].expandMult + 1) * HASH_BKT_CAPACITY_THRESH && !noexpand)
              <==> fresh(buckets)
      ensures fresh(buckets) ==> buckets.Length == 2 * old(buckets.Length)
      ensures !fresh(buckets) ==> buckets == old(buckets)
    {
      hide Placed, ChainsOk, Excess, IdealChainMaxlen;
      numItems := numItems + 1;
      SameLength(buckets[..], chains, nodes);
      var b;
      b, chains := PutInBucket(buckets, x, chains, nodes);
      nodes := nodes + {x};
      SameLength(buckets[..], chains, nodes);
      if buckets[b].count >= (buckets[b].expandMult + 1) * HASH_BKT_CAPACITY_THRESH && !noexpand {
        ExpandBuckets();
      }
    }

    /** HASH_FIND_BYHASHVALUE, for a key that is filed under this hash value if at all. */
    method Find(key: Key, hashv: nat) returns (out: Handle?)
      requires Valid()
      requires forall x :: x in nodes && x.key == key ==> x.hashv == hashv
      ensures out != null ==> out in nodes && out.key == key && out.hashv == hashv
      ensures out == null ==> forall x :: x in nodes ==> x.key != key
    {
      hide Distinct, ToBkt, Placed, ChainsOk, Pow2;
      var b := ToBkt(hashv, buckets.Length);
      assert buckets[..][b] == buckets[b];
      ChainAt(buckets[..], chains, nodes, b);
      ghost var c := chains[b];
      ghost var i := 0;
      out := buckets[b].hhHead;
      while out != null
        invariant i <= |c| && out == At(c, i)
        invariant forall j :: 0 <= j < i ==> c[j].key != key
        decreases |c| - i
      {
        if out.hashv == hashv && out.key == key {
          return;
        }
        out := out.hhNext;
        i := i + 1;
      }
      forall x | x in nodes
        ensures x.key != key
      {
        OnItsChain(nodes, chains, x);
      }
    }

    /** HASH_DEL_IN_BKT and the count */
    method DeleteFromTable(x: Handle)
      requires Valid() && x in nodes
      modifies `numItems, `chains, `nodes, buckets, nodes`hhPrev, nodes`hhNext
      ensures Valid() && nodes == old(nodes) - {x}
    {
      hide Placed, ChainsOk;
      SameLength(buckets[..], chains, nodes);
      chains := TakeFromBucket(buckets, x, chains, nodes);
      nodes := nodes - {x};
      numItems := numItems - 1;
    }
  }

  /** The table as its user sees it: the pointer to the first item. */
  class Hash {
    var head: Handle?
    var tbl: UtHashTable?

    /** All items in the order they were added, and the map they stand for. */
    ghost var items: seq<Handle>
    ghost var view: map<Key, Handle>

    constructor ()
      ensures Valid() && items == [] && view == map[]
    {
      head, tbl, items, view := null, null, [], map[];
    }

    ghost predicate Valid()
      reads this, items, tbl, if tbl == null then {} else {tbl.buckets}
    {
      && (head == null <==> items == []) && (head == null <==> tbl == null)
      && Viewed(items, view)
      && (tbl != null ==>
            && tbl.nodes == Members(items)
            && tbl.Valid()
            && AppList(items, head, tbl.tail))
    }

    /** HASH_FIND: present keys are found, absent ones are not. */
    method Find(key: Key, hashv: nat) returns (out: Handle?)
      requires Valid() && (key in view ==> view[key].hashv == hashv)
      ensures out == if key in view then view[key] else null
    {
      out := null;
      if head != null {
        forall x | x in tbl.nodes && x.key == key
          ensures x.hashv == hashv
        {
          assert x in items;
        }
        out := tbl.Find(key, hashv);
      }
    }

    /** The list part of HASH_ADD: a new table for the first item, the end of the list for any other. */
    method AppendItem(x: Handle)
      requires Valid() && x !in items
      modifies `head, `tbl, x`prev, x`next, items`next, (if tbl == null then {} else {tbl})`tail
      ensures head != null && tbl != null
      ensures tbl.Valid() && tbl.nodes == Members(items)
      ensures AppList(items + [x], head, tbl.tail)
      ensures old(tbl) == null ==> fresh(tbl) && fresh(tbl.buckets)
      ensures old(tbl) != null ==> tbl == old(tbl)
    {
      hide UtHashTable.Valid, Viewed;
      MembersMore(items, x);
      if head == null {
        x.next := null;
        x.prev := null;
        tbl := new UtHashTable(x);
        head := x;
      } else {
        AppAppend(items, head, tbl.tail, x);
        tbl.tail := x;
      }
    }

    /** HASH_ADD of an item whose key is not there yet. */
    method Add(x: Handle)
      requires Valid() && x.key !in view && x !in items
      modifies this, items, x, tbl, if tbl == null then {} else {tbl.buckets}
      ensures Valid()
      ensures items == old(items) + [x] && view == old(view)[x.key := x]
      ensures tbl == old(tbl) || fresh(tbl)
      ensures old(tbl) == null || tbl.buckets == old(tbl.buckets) || fresh(tbl.buckets)
    {
      hide UtHashTable.Valid, Viewed, AppList, Members;
      ViewedMore(items, view, x);
      MembersMore(items, x);
      MembersAre(items);
      AppendItem(x);
      tbl.AddToTable(x);
      assert AppList(items + [x], head, tbl.tail);
      items := items + [x];
      view := view[x.key := x];
    }

    lemma Linked()
      requires Valid() && items != []
      ensures head != null && tbl != null && tbl.Valid() && AppList(items, head, tbl.tail)
    {}

    /** The list part of HASH_DELETE, for an item that is not alone. */
    method UnlinkItem(x: Handle, ghost k: nat)
      requires Valid() && k < |items| && items[k] == x && |items| > 1
      modifies `head, items`prev, items`next, (if tbl == null then {} else {tbl})`tail
      ensures tbl == old(tbl) && tbl != null && tbl.Valid()
      ensures head != null && AppList(Without(items, k), head, tbl.tail)
    {
      hide Valid, UtHashTable.Valid, AppList, Distinct, Without;
      Linked();
      assert |Without(items, k)| > 0 by { WithoutIsShorter(items, k); }
      var head', tail' := AppRemove(items, head, tbl.tail, x, k);
      EndsOf(Without(items, k), head', tail');
      tbl.tail := tail';
      head := head';
    }

    /** HASH_DELETE: unlinks an item; with the last one the table goes. */
    method Delete(x: Handle, ghost k: nat)
      requires Valid() && k < |items| && items[k] == x
      modifies this, items, tbl, if tbl == null then {} else {tbl.buckets}
      ensures Valid()
      ensures items == Without(old(items), k) && view == old(view) - {x.key}
      ensures tbl == null || (tbl == old(tbl) && tbl.buckets == old(tbl.buckets))
    {
      hide UtHashTable.Valid, Viewed, Members, AppList, Without;
      MembersAre(items);
      ghost var left := Without(items, k);
      AloneWhenUnlinked(items, head, tbl.tail, k);
      ViewedLess(items, view, k);
      if x.prev == null && x.next == null {
        tbl := null;
        head := null;
      } else {
        UnlinkItem(x, k);
        assert AppList(left, head, tbl.tail);
        tbl.DeleteFromTable(x);
        assert AppList(left, head, tbl.tail);
      }
      items, view := left, view - {x.key};
    }

    /** The item after `x` on the list. */
    lemma NextOf(k: nat)
      requires Valid() && k < |items|
      ensures items[k].next == At(items, k + 1)
      ensures head == At(items, 0)
    {
      hide UtHashTable.Valid, Viewed, Distinct, Members;
    }

    method DeleteIfDoomed(x: Handle, ghost k: nat, doomed: set<Key>)
      requires Valid() && k < |items| && items[k] == x
      modifies this, items, tbl, if tbl == null then {} else {tbl.buckets}
      ensures Valid()
      ensures items == if x.key in doomed then Without(old(items), k) else old(items)
      ensures tbl == null || (tbl == old(tbl) && tbl.buckets == old(tbl.buckets))
    {
      hide Valid, Without;
      if x.key in doomed {
        Delete(x, k);
      }
    }

    /** One turn of the iteration; the item after the next is looked up when the
        present one may already be gone. */
    method Visit(x: Handle, tmp: Handle?, ghost all: seq<Handle>, ghost i: nat, doomed: set<Key>)
      returns (tmp': Handle?)
      requires Valid() && Iterating(all, i, doomed, items)
      requires i < |all| && x == all[i] && tmp == At(all, i + 1)
      modifies this, items, tbl, if tbl == null then {} else {tbl.buckets}
      ensures Valid() && Iterating(all, i + 1, doomed, items)
      ensures tmp' == At(all, i + 2)
      ensures tbl == null || (tbl == old(tbl) && tbl.buckets == old(tbl.buckets))
    {
      hide Valid, Kept, Without, Iterating, At;
      ghost var k := IterateHere(all, i, doomed, items);
      IterateStep(all, i, doomed, items, k);
      DeleteIfDoomed(x, k, doomed);
      Ends(all);
      tmp' := null;
      if tmp != null {
        ghost var k' := IterateHere(all, i + 1, doomed, items);
        NextOf(k');
        tmp' := tmp.next;
      } else {
        NothingAfter(all, i + 1);
      }
    }

    /** The initialisation of the iteration: the first item and the one after it. */
    method FirstTwo() returns (el: Handle?, tmp: Handle?)
      requires Valid()
      ensures el == At(items, 0) && tmp == At(items, 1)
    {
      hide Valid, At, Viewed;
      HeadOf();
      el, tmp := head, null;
      if head != null {
        Ends(items);
        NextOf(0);
        tmp := head.next;
      } else {
        NothingAfter(items, 0);
      }
    }

    /** HASH_ITER with HASH_DEL of the doomed inside: every item is visited once,
        in order, and exactly the doomed are gone. */
    method IterateAndDelete(doomed: set<Key>) returns (ghost visited: seq<Handle>)
      requires Valid()
      modifies this, items, tbl, if tbl == null then {} else {tbl.buckets}
      ensures Valid()
      ensures visited == old(items)
      ensures items == Kept(old(items), doomed)
      ensures view == old(view) - doomed
    {
      hide Valid, Kept, Without, Iterating, At, Viewed;
      ghost var all := items;
      IterateStart(all, doomed);
      HeadOf();
      visited := [];
      ghost var i := 0;
      var el, tmp := FirstTwo();
      assert all[..0] == [];
      while el != null
        invariant Valid()
        invariant tbl == null || (tbl == old(tbl) && tbl.buckets == old(tbl.buckets))
        invariant i <= |all| && visited == all[..i]
        invariant el == At(all, i) && tmp == At(all, i + 1)
        invariant Iterating(all, i, doomed, items)
        decreases |all| - i
      {
        var item: Handle := el;
        AddVisited(all, i, item);
        visited := visited + [item];
        StillOurs(all, i, doomed, items);
        var following := Visit(item, tmp, all, i, doomed);
        i := i + 1;
        el := tmp;
        tmp := following;
      }
      NoneLeft(all, i);
      IterateEnd(all, i, doomed, items);
      ViewAfter(all, old(view), doomed);
    }

    lemma ViewAfter(all: seq<Handle>, before: map<Key, Handle>, doomed: set<Key>)
      requires Valid() && Viewed(all, before) && items == Kept(all, doomed)
      ensures view == before - doomed
    {
      hide UtHashTable.Valid, AppList, Members, Kept;
      KeptView(all, before, view, doomed);
    }

    lemma HeadOf()
      requires Valid()
      ensures head == At(items, 0)
      ensures Viewed(items, view)
    {
      hide UtHashTable.Valid, Viewed, Distinct, Members;
    }
  }

  lemma MembersAre(items: seq<Handle>)
    ensures forall x :: x in Members(items) <==> x in items
  {}

  lemma AloneWhenUnlinked(items: seq<Handle>, head: Handle?, tail: Handle?, k: nat)
    requires AppList(items, head, tail) && k < |items|
    ensures items[k].prev == null && items[k].next == null <==> |items| == 1
    ensures Distinct(items)
  {}

  lemma EndsOf(items: seq<Handle>, head: Handle?, tail: Handle?)
    requires AppList(items, head, tail) && items != []
    ensures head != null && tail != null
  {}

  /** The map the items stand for: each under its own key. */
  ghost predicate Viewed(items: seq<Handle>, view: map<Key, Handle>) {
    && (forall x :: x in items ==> x.key in view && view[x.key] == x)
    && (forall k :: k in view ==> view[k] in items && view[k].key == k)
  }

  lemma ViewedMore(items: seq<Handle>, view: map<Key, Handle>, x: Handle)
    requires Viewed(items, view) && x.key !in view
    ensures Viewed(items + [x], view[x.key := x])
  {}

  lemma ViewedLess(items: seq<Handle>, view: map<Key, Handle>, k: nat)
    requires Viewed(items, view) && Distinct(items) && k < |items|
    ensures Viewed(Without(items, k), view - {items[k].key})
    ensures Members(Without(items, k)) == Members(items) - {items[k]}
  {
    hide Distinct;
    WithoutIsDistinct(items, k);
    assert items[k] in items;
    forall x | x in Without(items, k)
      ensures x.key != items[k].key
    {
      assert x in items && view[x.key] == x;
    }
  }

  lemma MembersMore(items: seq<Handle>, x: Handle)
    ensures Members(items + [x]) == Members(items) + {x}
    ensures Members([]) == {}
  {}

  /** The items that survive when the doomed are deleted. */
  function Kept(items: seq<Handle>, doomed: set<Key>): seq<Handle> {
    if items == [] then []
    else
      var x := items[|items| - 1];
      Kept(items[..|items| - 1], doomed) + (if x.key in doomed then [] else [x])
  }

  /** An iteration that has come to item `i`. */
  ghost predicate Iterating(all: seq<Handle>, i: nat, doomed: set<Key>, items: seq<Handle>) {
    i <= |all| && items == Kept(all[..i], doomed) + all[i..]
  }

  lemma Ends(all: seq<Handle>)
    ensures forall i: nat :: At(all, i) != null <==> i < |all|
    ensures forall i: nat :: i < |all| ==> At(all, i) == all[i]
  {}

  lemma NoneLeft(all: seq<Handle>, i: nat)
    requires At(all, i) == null && i <= |all|
    ensures i == |all|
  {}

  lemma AddVisited(all: seq<Handle>, i: nat, x: Handle)
    requires At(all, i) == x
    ensures i < |all| && all[i] == x && all[..i] + [x] == all[..i + 1]
  {}

  lemma StillOurs(all: seq<Handle>, i: nat, doomed: set<Key>, items: seq<Handle>)
    requires Iterating(all, i, doomed, items) && i < |all|
    ensures forall j :: 0 <= j < |items| ==> items[j] in all
  {
    var k := IterateHere(all, i, doomed, items);
  }

  lemma NothingAfter(all: seq<Handle>, i: nat)
    requires At(all, i) == null
    ensures At(all, i + 1) == null
  {}

  lemma IterateStart(all: seq<Handle>, doomed: set<Key>)
    ensures Iterating(all, 0, doomed, all)
  {}

  lemma IterateHere(all: seq<Handle>, i: nat, doomed: set<Key>, items: seq<Handle>) returns (k: nat)
    requires Iterating(all, i, doomed, items) && i < |all|
    ensures k == |Kept(all[..i], doomed)| < |items| && items[k] == all[i]
    ensures At(items, k + 1) == At(all, i + 1)
    ensures forall j :: 0 <= j < |items| ==> items[j] in all
  {
    hide Kept;
    k := |Kept(all[..i], doomed)|;
    KeptAre(all[..i], doomed);
    forall j | 0 <= j < |items|
      ensures items[j] in all
    {
      if j < k { assert items[j] in Kept(all[..i], doomed); } else { assert items[j] == all[i + j - k]; }
    }
  }

  lemma IterateStep(all: seq<Handle>, i: nat, doomed: set<Key>, items: seq<Handle>, k: nat)
    requires Iterating(all, i, doomed, items) && i < |all| && k == |Kept(all[..i], doomed)| < |items|
    ensures Iterating(all, i + 1, doomed, if all[i].key in doomed then Without(items, k) else items)
  {
    assert all[..i + 1][..i] == all[..i];
  }

  lemma IterateEnd(all: seq<Handle>, i: nat, doomed: set<Key>, items: seq<Handle>)
    requires Iterating(all, i, doomed, items) && i == |all|
    ensures items == Kept(all, doomed) && all[..i] == all
  {
    assert all[..i] == all;
  }

  lemma {:induction false} KeptAre(items: seq<Handle>, doomed: set<Key>)
    ensures forall x :: x in Kept(items, doomed) <==> x in items && x.key !in doomed
  {
    if items != [] {
      var n := |items| - 1;
      assert items == items[..n] + [items[n]];
      KeptAre(items[..n], doomed);
    }
  }

  /** What the survivors stand for. */
  lemma KeptView(all: seq<Handle>, view: map<Key, Handle>, view': map<Key, Handle>, doomed: set<Key>)
    requires Viewed(all, view) && Viewed(Kept(all, doomed), view')
    ensures view' == view - doomed
  {
    hide Kept;
    KeptAre(all, doomed);
  }
}
