/** The walk of upki-mirror/src/bin/mozilla-crlite.rs from the full filter along its deltas. */
module Mirror {
  import opened ByteStrings

  datatype Channel = Default | Compat
  datatype Item = Item(id: string, parent: Option<string>, incremental: bool, channel: Channel)

  /** Which item has a given parent; of several with the same parent, the last. */
  function ByParent(data: seq<Item>): map<string, nat> {
    if data == [] then map[] else
      var last := data[|data| - 1];
      if last.parent.Some? then ByParent(data[..|data| - 1])[last.parent.value := |data| - 1]
      else ByParent(data[..|data| - 1])
  }

  predicate IsRoot(it: Item) { !it.incremental && it.parent.None? && it.channel.Default? }

  function FindRoot(data: seq<Item>, from: nat): (r: Option<nat>)
    requires from <= |data|
    ensures r.Some? ==> from <= r.value < |data| && IsRoot(data[r.value])
    ensures r.Some? ==> forall i :: from <= i < r.value ==> !IsRoot(data[i])
    ensures r.None? ==> forall i :: from <= i < |data| ==> !IsRoot(data[i])
    decreases |data| - from
  {
    if from == |data| then None else if IsRoot(data[from]) then Some(from) else FindRoot(data, from + 1)
  }

  lemma {:induction false} ByParentIs(data: seq<Item>, id: string)
    ensures id in ByParent(data) ==> ByParent(data)[id] < |data| && data[ByParent(data)[id]].parent == Some(id)
    ensures id !in ByParent(data) ==> forall i :: 0 <= i < |data| ==> data[i].parent != Some(id)
  {
    if data != [] {
      ByParentIs(data[..|data| - 1], id);
    }
  }

  /** Of several items with one parent the map holds the last. */
  lemma {:induction false} ByParentLast(data: seq<Item>, id: string)
    ensures id in ByParent(data) ==> forall j :: ByParent(data)[id] < j < |data| ==> data[j].parent != Some(id)
  {
    if data != [] {
      ByParentLast(data[..|data| - 1], id);
      ByParentIs(data[..|data| - 1], id);
    }
  }

  /** The root is the first item that is a full filter, has no parent, and is on the default channel. */
  lemma RootExactly(data: seq<Item>, i: nat)
    ensures FindRoot(data, 0) == Some(i) <==>
      i < |data| && !data[i].incremental && data[i].parent == None && data[i].channel == Default &&
      forall j :: 0 <= j < i ==> data[j].incremental || data[j].parent != None || data[j].channel != Default
  {
  }

  /** The item visited after `n` steps, if the walk gets that far. */
  function VisitedAt(data: seq<Item>, n: nat): Option<nat> {
    if n == 0 then FindRoot(data, 0) else
      match VisitedAt(data, n - 1)
      case None => None
      case Some(i) => if i < |data| && data[i].id in ByParent(data) then Some(ByParent(data)[data[i].id]) else None
  }

  ghost predicate Visits(data: seq<Item>, n: nat) {
    VisitedAt(data, n).Some?
  }

  /** No two of the first |data| + 1 items visited have the same id. */
  ghost predicate NoIdTwice(data: seq<Item>) {
    forall i, j :: 0 <= i < j <= |data| && Visits(data, i) && Visits(data, j) ==> IdAt(data, i) != IdAt(data, j)
  }

  ghost function IdAt(data: seq<Item>, n: nat): string
    requires Visits(data, n)
  {
    VisitedInRange(data, n);
    data[VisitedAt(data, n).value].id
  }

  lemma {:induction false} VisitedInRange(data: seq<Item>, n: nat)
    ensures Visits(data, n) ==> VisitedAt(data, n).value < |data|
  {
    if n > 0 && Visits(data, n) {
      VisitedInRange(data, n - 1);
      ByParentIs(data, data[VisitedAt(data, n - 1).value].id);
    }
  }

  lemma {:induction false} VisitedBefore(data: seq<Item>, k: nat, n: nat)
    requires k <= n && Visits(data, n)
    ensures Visits(data, k)
    decreases n
  {
    if k < n {
      VisitedBefore(data, k, n - 1);
    }
  }

  ghost function FirstVisits(data: seq<Item>, n: nat): (chain: seq<nat>)
    requires forall k :: 0 <= k < n ==> Visits(data, k)
    ensures |chain| == n && forall k :: 0 <= k < n ==> VisitedAt(data, k) == Some(chain[k])
  {
    if n == 0 then [] else
      assert Visits(data, n - 1);
      FirstVisits(data, n - 1) + [VisitedAt(data, n - 1).value]
  }

  /** What comes after a visit depends on the id visited alone: the walk goes round. */
  lemma {:induction false} SameIdSameRest(data: seq<Item>, i: nat, j: nat, k: nat)
    requires Visits(data, i) && Visits(data, j) && IdAt(data, i) == IdAt(data, j) && k > 0
    ensures VisitedAt(data, i + k) == VisitedAt(data, j + k)
  {
    hide ByParent;
    VisitedInRange(data, i);
    VisitedInRange(data, j);
    if k > 1 {
      SameIdSameRest(data, i, j, k - 1);
    }
  }

  lemma {:induction false} GoesRound(data: seq<Item>, i: nat, j: nat, n: nat)
    requires i < j && Visits(data, i) && Visits(data, j) && IdAt(data, i) == IdAt(data, j)
    ensures Visits(data, n)
  {
    if n <= j {
      VisitedBefore(data, n, j);
    } else {
      GoesRound(data, i, j, n - (j - i));
      SameIdSameRest(data, i, j, n - j);
    }
  }

  /** Items with different ids are different items, so there are at most |data| of them. */
  lemma VisitsFit(data: seq<Item>, chain: seq<nat>)
    requires NoIdTwice(data) && |chain| <= |data| + 1
    requires forall k :: 0 <= k < |chain| ==> VisitedAt(data, k) == Some(chain[k])
    ensures DistinctBelow(chain, |data|) && |chain| <= |data|
  {
    forall i | 0 <= i < |chain|
      ensures Visits(data, i) && chain[i] < |data| && IdAt(data, i) == data[chain[i]].id
    {
      VisitedInRange(data, i);
    }
    forall i, j | 0 <= i < j < |chain|
      ensures chain[i] != chain[j]
    {
      assert IdAt(data, i) != IdAt(data, j);
    }
    AtMost(chain, |data|);
  }

  /** The walk ends if and only if no two of the first |data| + 1 items it visits have the same id. */
  lemma WalkEndsExactly(data: seq<Item>)
    ensures (exists n: nat :: !Visits(data, n)) <==> NoIdTwice(data)
  {
    hide VisitedAt;
    if n: nat :| !Visits(data, n) {
      forall i, j | 0 <= i < j <= |data| && Visits(data, i) && Visits(data, j)
        ensures IdAt(data, i) != IdAt(data, j)
      {
        if IdAt(data, i) == IdAt(data, j) {
          GoesRound(data, i, j, n);
        }
      }
    } else {
      assert forall n: nat :: Visits(data, n);
      if NoIdTwice(data) {
        VisitsFit(data, FirstVisits(data, |data| + 1));
      }
    }
  }

  /** From item `i` the walk goes to the last item whose parent is the id of `i`, and ends if there is none. */
  lemma NextExactly(data: seq<Item>, n: nat, i: nat)
    requires VisitedAt(data, n) == Some(i) && i < |data|
    ensures VisitedAt(data, n + 1) == None <==> forall j :: 0 <= j < |data| ==> data[j].parent != Some(data[i].id)
    ensures forall j :: VisitedAt(data, n + 1) == Some(j) <==>
      0 <= j < |data| && data[j].parent == Some(data[i].id) &&
      forall l :: j < l < |data| ==> data[l].parent != Some(data[i].id)
  {
    ByParentIs(data, data[i].id);
    ByParentLast(data, data[i].id);
    hide ByParent, FindRoot;
  }

  ghost predicate UniqueIds(data: seq<Item>) {
    forall i, j :: 0 <= i < j < |data| ==> data[i].id != data[j].id
  }

  /** Each item's parent is its predecessor's id, and the first is a root. */
  ghost predicate IsChain(data: seq<Item>, chain: seq<nat>) {
    (forall k :: 0 <= k < |chain| ==> chain[k] < |data|) &&
    (chain != [] ==> IsRoot(data[chain[0]])) &&
    (forall k :: 0 < k < |chain| ==> data[chain[k]].parent == Some(data[chain[k - 1]].id))
  }

  /** A cycle among the records cannot be entered from a root: the way in would be a second item
      with the same parent, and so a second predecessor with the same id. */
  lemma {:induction false} NoRepeat(data: seq<Item>, chain: seq<nat>, i: nat, j: nat)
    requires UniqueIds(data) && IsChain(data, chain) && i < j < |chain|
    ensures chain[i] != chain[j]
  {
    assert data[chain[j]].parent == Some(data[chain[j - 1]].id);
    if i > 0 {
      NoRepeat(data, chain, i - 1, j - 1);
      assert data[chain[i]].parent == Some(data[chain[i - 1]].id);
    }
  }

  /** So unique ids suffice. */
  lemma UniqueIdsEnd(data: seq<Item>)
    requires UniqueIds(data)
    ensures NoIdTwice(data)
  {
    hide VisitedAt;
    forall i, j | 0 <= i < j <= |data| && Visits(data, i) && Visits(data, j)
      ensures IdAt(data, i) != IdAt(data, j)
    {
      forall k | 0 <= k <= j
        ensures Visits(data, k)
      {
        VisitedBefore(data, k, j);
      }
      var chain := FirstVisits(data, j + 1);
      VisitsAreChain(data, chain);
      NoRepeat(data, chain, i, j);
      assert chain[i] != chain[j];
    }
  }

  lemma VisitsAreChain(data: seq<Item>, chain: seq<nat>)
    requires forall k :: 0 <= k < |chain| ==> VisitedAt(data, k) == Some(chain[k])
    ensures IsChain(data, chain)
  {
    hide ByParent, FindRoot, IsRoot;
    forall k | 0 <= k < |chain|
      ensures chain[k] < |data| && (k > 0 ==> data[chain[k]].parent == Some(data[chain[k - 1]].id))
    {
      VisitedInRange(data, k);
      if k > 0 {
        VisitedInRange(data, k - 1);
        ByParentIs(data, data[chain[k - 1]].id);
      }
    }
    if chain != [] {
      assert VisitedAt(data, 0) == FindRoot(data, 0);
    }
  }

  /** The walk, on the record lists on which it ends. It visits no item twice, follows parents from a
      root, and its last item is nobody's parent. */
  method Walk(data: seq<Item>) returns (downloadPlan: seq<nat>)
    requires NoIdTwice(data)
    ensures IsChain(data, downloadPlan) && DistinctBelow(downloadPlan, |data|)
    ensures downloadPlan == [] <==> forall i :: 0 <= i < |data| ==> !IsRoot(data[i])
    ensures downloadPlan != [] ==>
      forall i :: 0 <= i < |data| ==> data[i].parent != Some(data[downloadPlan[|downloadPlan| - 1]].id)
    ensures forall k :: 0 <= k < |downloadPlan| ==> VisitedAt(data, k) == Some(downloadPlan[k])
    ensures VisitedAt(data, |downloadPlan|) == None
  {
    hide ByParent, FindRoot, IsRoot, NoIdTwice, IsChain, VisitedAt, DistinctBelow;
    StartsAtRoot(data);
    var byParent := ByParent(data);
    var next := FindRoot(data, 0);
    downloadPlan := [];
    while next.Some?
      invariant next == VisitedAt(data, |downloadPlan|)
      invariant forall k :: 0 <= k < |downloadPlan| ==> VisitedAt(data, k) == Some(downloadPlan[k])
      invariant |downloadPlan| <= |data|
      decreases |data| - |downloadPlan|
    {
      var item := next.value;
      ghost var visited := downloadPlan + [item];
      VisitsFit(data, visited);
      VisitedInRange(data, |downloadPlan|);
      assert visited[|downloadPlan|] == item;
      Onward(data, |downloadPlan|, item);
      next := if data[item].id in byParent then Some(byParent[data[item].id]) else None;
      downloadPlan := downloadPlan + [item];
    }
    VisitsFit(data, downloadPlan);
    VisitsAreChain(data, downloadPlan);
    WalkStops(data, downloadPlan);
  }

  lemma StartsAtRoot(data: seq<Item>)
    ensures VisitedAt(data, 0) == FindRoot(data, 0)
  {
  }

  lemma Onward(data: seq<Item>, n: nat, i: nat)
    requires VisitedAt(data, n) == Some(i) && i < |data|
    ensures VisitedAt(data, n + 1) ==
      if data[i].id in ByParent(data) then Some(ByParent(data)[data[i].id]) else None
  {
    hide ByParent, FindRoot;
  }

  lemma WalkStops(data: seq<Item>, chain: seq<nat>)
    requires IsChain(data, chain) && VisitedAt(data, |chain|) == None
    requires forall k :: 0 <= k < |chain| ==> VisitedAt(data, k) == Some(chain[k])
    ensures chain == [] <==> forall i :: 0 <= i < |data| ==> !IsRoot(data[i])
    ensures chain != [] ==> forall i :: 0 <= i < |data| ==> data[i].parent != Some(data[chain[|chain| - 1]].id)
  {
    hide ByParent, IsRoot;
    if chain != [] {
      assert VisitedAt(data, |chain| - 1) == Some(chain[|chain| - 1]);
      ByParentIs(data, data[chain[|chain| - 1]].id);
    }
  }

  /** A list on which it does not end: two records with one id, the second its own parent. */
  lemma NeverEnds(n: nat)
    ensures Visits([Item("a", None, false, Default), Item("a", Some("a"), true, Default)], n)
  {
    var data := [Item("a", None, false, Default), Item("a", Some("a"), true, Default)];
    assert data[..1] == [data[0]] && data[..1][..0] == [];
    assert ByParent(data[..1]) == map[];
    assert ByParent(data) == map["a" := 1];
    assert VisitedAt(data, 0) == Some(0) && VisitedAt(data, 1) == Some(1);
    GoesRound(data, 0, 1, n);
  }
}
