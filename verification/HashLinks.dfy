/** The handles of the hash table and the two lists each of them is on: the list
    of all items in the order they were added, and the chain of its bucket. */
module HashLinks {
  import opened Fragments

  class Handle {
    const key: Key
    const hashv: nat
    var prev: Handle?
    var next: Handle?
    var hhPrev: Handle?
    var hhNext: Handle?

    constructor (key: Key, hashv: nat)
      ensures this.key == key && this.hashv == hashv
    {
      this.key, this.hashv := key, hashv;
      prev, next, hhPrev, hhNext := null, null, null, null;
    }
  }

  ghost predicate Distinct<T>(s: seq<T>) {
    forall i, j :: 0 <= i < j < |s| ==> s[i] != s[j]
  }

  function At(s: seq<Handle>, i: int): Handle? {
    if 0 <= i < |s| then s[i] else null
  }

  /** `s` is the list from `head` to `tail`, linked both ways in application order. */
  ghost predicate AppList(s: seq<Handle>, head: Handle?, tail: Handle?)
    reads s`prev, s`next
  {
    && Distinct(s)
    && head == At(s, 0) && tail == At(s, |s| - 1)
    && forall i :: 0 <= i < |s| ==> s[i].prev == At(s, i - 1) && s[i].next == At(s, i + 1)
  }

  /** `s` is a bucket's chain from `first` on, linked both ways. */
  ghost predicate Chain(s: seq<Handle>, first: Handle?)
    reads s`hhPrev, s`hhNext
  {
    && Distinct(s)
    && first == At(s, 0)
    && forall i :: 0 <= i < |s| ==> s[i].hhPrev == At(s, i - 1) && s[i].hhNext == At(s, i + 1)
  }

  method AppAppend(ghost s: seq<Handle>, head: Handle, tail: Handle, x: Handle)
    requires AppList(s, head, tail) && x !in s
    modifies x`prev, x`next, tail`next
    ensures AppList(s + [x], head, x)
  {
    hide Distinct, At;
    DistinctMore(s, x);
    AtEnds(s, x);
    x.next := null;
    x.prev := tail;
    tail.next := x;
    forall i | 0 <= i < |s + [x]|
      ensures (s + [x])[i].prev == At(s + [x], i - 1) && (s + [x])[i].next == At(s + [x], i + 1)
    {
      AtMore(s, x, i);
      if i < |s| { Apart(s, i, |s| - 1); }
    }
  }

  lemma DistinctMore<T>(s: seq<T>, x: T)
    requires Distinct(s) && x !in s
    ensures Distinct(s + [x])
  {}

  lemma AtEnds(s: seq<Handle>, x: Handle)
    ensures At(s + [x], |s|) == x && (s != [] ==> At(s + [x], 0) == At(s, 0))
    ensures if s == [] then At(s, 0) == null else At(s, |s| - 1) == s[|s| - 1]
  {}

  /** The neighbours of position `i` once `x` is behind the others. */
  lemma AtMore(s: seq<Handle>, x: Handle, i: nat)
    requires i <= |s|
    ensures At(s + [x], i - 1) == At(s, i - 1)
    ensures At(s + [x], i + 1) == if i + 1 < |s| then At(s, i + 1) else if i + 1 == |s| then x else null
    ensures (s + [x])[i] == if i < |s| then s[i] else x
  {}

  /** s without its element number `k`. */
  function Without<T>(s: seq<T>, k: nat): (r: seq<T>)
    requires k < |s|
    ensures |r| == |s| - 1
  {
    s[..k] + s[k + 1..]
  }

  lemma WithoutIsDistinct<T>(s: seq<T>, k: nat)
    requires Distinct(s) && k < |s|
    ensures Distinct(Without(s, k))
    ensures forall i :: 0 <= i < |s| - 1 ==> Without(s, k)[i] == if i < k then s[i] else s[i + 1]
    ensures forall x :: x in Without(s, k) <==> x in s && x != s[k]
  {
    var t := Without(s, k);
    assert forall i :: 0 <= i < |t| ==> t[i] == if i < k then s[i] else s[i + 1];
    forall x
      ensures x in t <==> x in s && x != s[k]
    {
      if x in s && x != s[k] {
        var i :| 0 <= i < |s| && s[i] == x;
        assert t[if i < k then i else i - 1] == x;
      }
    }
  }

  /** The neighbour before (after) position `i` once element `k` is bypassed. */
  function Before(s: seq<Handle>, k: nat, i: nat): Handle? {
    if i == k + 1 then At(s, k - 1) else At(s, i - 1)
  }

  function After(s: seq<Handle>, k: nat, i: nat): Handle? {
    if i + 1 == k then At(s, k + 1) else At(s, i + 1)
  }

  lemma WithoutNeighbours(s: seq<Handle>, k: nat, i: nat)
    requires k < |s| && i < |s| - 1
    ensures var t, j := Without(s, k), if i < k then i else i + 1;
            t[i] == s[j] && At(t, i - 1) == Before(s, k, j) && At(t, i + 1) == After(s, k, j)
  {}

  lemma WithoutEnds(s: seq<Handle>, k: nat)
    requires k < |s|
    ensures var t := Without(s, k);
            && At(t, 0) == At(s, if k == 0 then 1 else 0)
            && At(t, |t| - 1) == At(s, if k == |s| - 1 then k - 1 else |s| - 1)
  {}

  lemma AppBypassed(s: seq<Handle>, k: nat, head: Handle?, tail: Handle?)
    requires Distinct(s) && k < |s|
    requires forall i :: 0 <= i < |s| && i != k ==> s[i].prev == Before(s, k, i) && s[i].next == After(s, k, i)
    requires head == At(s, if k == 0 then 1 else 0)
    requires tail == At(s, if k == |s| - 1 then k - 1 else |s| - 1)
    ensures AppList(Without(s, k), head, tail)
  {
    hide Distinct, Without, At, Before, After;
    WithoutIsDistinct(s, k);
    WithoutEnds(s, k);
    var t := Without(s, k);
    forall i | 0 <= i < |t|
      ensures t[i].prev == At(t, i - 1) && t[i].next == At(t, i + 1)
    {
      WithoutNeighbours(s, k, i);
    }
  }

  lemma AppListAt(s: seq<Handle>, head: Handle?, tail: Handle?, k: nat)
    requires AppList(s, head, tail) && k < |s|
    ensures Distinct(s)
    ensures s[k].prev == At(s, k - 1) && s[k].next == At(s, k + 1)
  {
    hide Distinct;
  }

  /** Which end an item is, and what the ends are without it. */
  lemma AppListEnds(s: seq<Handle>, head: Handle?, tail: Handle?, k: nat)
    requires AppList(s, head, tail) && k < |s|
    ensures s[k] == tail <==> k == |s| - 1
    ensures At(s, k - 1) == null <==> k == 0
    ensures head == At(s, 0) && tail == At(s, |s| - 1)
  {}

  lemma Apart(s: seq<Handle>, i: nat, j: int)
    requires Distinct(s) && i < |s|
    ensures i == j <==> s[i] == At(s, j)
  {}

  method AppRemove(ghost s: seq<Handle>, head: Handle, tail: Handle, x: Handle, ghost k: nat)
    returns (head': Handle?, tail': Handle?)
    requires AppList(s, head, tail) && k < |s| && s[k] == x
    modifies s`prev, s`next
    ensures AppList(Without(s, k), head', tail')
  {
    hide Without, AppList, Distinct, At;
    forall i | 0 <= i < |s|
      ensures s[i].prev == At(s, i - 1) && s[i].next == At(s, i + 1)
    {
      AppListAt(s, head, tail, i);
    }
    AppListAt(s, head, tail, k);
    AppListEnds(s, head, tail, k);
    InList(s, k);
    head', tail' := head, tail;
    if x == tail {
      tail' := x.prev;
    }
    if x.prev != null {
      x.prev.next := x.next;
    } else {
      head' := x.next;
    }
    if x.next != null {
      x.next.prev := x.prev;
    }
    forall i | 0 <= i < |s| && i != k
      ensures s[i].prev == Before(s, k, i) && s[i].next == After(s, k, i)
    {
      Apart(s, i, k - 1);
      Apart(s, i, k + 1);
    }
    AppBypassed(s, k, head', tail');
  }

  lemma InList(s: seq<Handle>, k: nat)
    requires k < |s|
    ensures At(s, k - 1) != null ==> At(s, k - 1) in s && At(s, k - 1) == s[k - 1]
    ensures At(s, k + 1) != null ==> At(s, k + 1) in s && At(s, k + 1) == s[k + 1]
  {}

  method ChainPrepend(ghost s: seq<Handle>, first: Handle?, x: Handle)
    requires Chain(s, first) && x !in s
    modifies x`hhPrev, x`hhNext, (if first == null then {} else {first})`hhPrev
    ensures Chain([x] + s, x)
  {
    x.hhNext := first;
    x.hhPrev := null;
    if first != null {
      first.hhPrev := x;
    }
  }

  lemma ChainBypassed(s: seq<Handle>, k: nat, first: Handle?)
    requires Distinct(s) && k < |s|
    requires forall i :: 0 <= i < |s| && i != k ==> s[i].hhPrev == Before(s, k, i) && s[i].hhNext == After(s, k, i)
    requires first == At(s, if k == 0 then 1 else 0)
    ensures Chain(Without(s, k), first)
  {
    hide Distinct, Without, At, Before, After;
    WithoutIsDistinct(s, k);
    WithoutEnds(s, k);
    var t := Without(s, k);
    forall i | 0 <= i < |t|
      ensures t[i].hhPrev == At(t, i - 1) && t[i].hhNext == At(t, i + 1)
    {
      WithoutNeighbours(s, k, i);
    }
  }

  method ChainRemove(ghost s: seq<Handle>, first: Handle?, x: Handle, ghost k: nat) returns (first': Handle?)
    requires Chain(s, first) && k < |s| && s[k] == x
    modifies s`hhPrev, s`hhNext
    ensures Chain(Without(s, k), first')
  {
    hide Without;
    first' := first;
    if first == x {
      first' := x.hhNext;
    }
    if x.hhPrev != null {
      x.hhPrev.hhNext := x.hhNext;
    }
    if x.hhNext != null {
      x.hhNext.hhPrev := x.hhPrev;
    }
    ChainBypassed(s, k, first');
  }
}
