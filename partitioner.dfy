/**
  `distributeItems`: every agent of the roster gets one slice of the parsed
  items. With n items and k agents, base = n / k and rem = n % k; agent i's
  slice starts at i * base and holds base items, one more for the first rem
  agents. The start does not add the extra items of the agents before, so
  when rem > 0 neighbouring slices overlap and the end of the list is never
  handed out; when rem == 0 the slices tile the list exactly.
*/
module Partitioner {
  import opened JsBuiltins

  /** `{ agentName, items }`: one agent's share. */
  datatype Assignment<T> = Assignment(agentName: string, items: seq<T>)

  /** `startIndex = index * itemsPerAgent`. */
  function GroupStart(i: nat, n: nat, k: nat): nat
    requires k >= 1
  {
    i * (n / k)
  }

  /** `endIndex = startIndex + itemsPerAgent + (index < remainingItems ? 1 : 0)`. */
  function GroupEnd(i: nat, n: nat, k: nat): nat
    requires k >= 1
  {
    GroupStart(i, n, k) + n / k + (if i < n % k then 1 else 0)
  }

  /** n is base * k plus the remainder. */
  lemma DivSplit(n: nat, k: nat)
    requires k >= 1
    ensures n == k * (n / k) + n % k && n % k < k
  {
  }

  /** x <= y scales to x * b <= y * b. */
  lemma MulMono(x: nat, y: nat, b: nat)
    requires x <= y
    ensures x * b <= y * b
  {
    assert y * b == x * b + (y - x) * b;
  }

  /** No slice reaches past the end of the list, so `slice` never truncates. */
  lemma GroupEndBounded(i: nat, n: nat, k: nat)
    requires k >= 1 && i < k
    ensures GroupStart(i, n, k) <= GroupEnd(i, n, k) <= n
  {
    var b, m := n / k, n % k;
    DivSplit(n, k);
    MulMono(i + 1, k, b);
    assert GroupEnd(i, n, k) == (i + 1) * b + (if i < m then 1 else 0);
  }

  lemma AllEndsBounded(n: nat, k: nat)
    requires k >= 1
    ensures forall i: nat :: i < k ==> GroupEnd(i, n, k) <= n
  {
    forall i: nat | i < k ensures GroupEnd(i, n, k) <= n {
      GroupEndBounded(i, n, k);
    }
  }

  /**
    `agents.map((agentName, index) => ({ agentName, items: items.slice(startIndex, endIndex) }))`:
    one assignment per agent, in roster order, agent i holding the items from
    GroupStart(i) up to GroupEnd(i). An empty roster maps to no shares.
  */
  function DistributeItems<T>(items: seq<T>, agents: seq<string>): (r: seq<Assignment<T>>)
    ensures |r| == |agents|
    ensures forall i :: 0 <= i < |r| ==> r[i].agentName == agents[i]
    ensures forall i :: 0 <= i < |r| ==>
      GroupEnd(i, |items|, |agents|) <= |items| &&
      r[i].items == items[GroupStart(i, |items|, |agents|)..GroupEnd(i, |items|, |agents|)]
  {
    var n, k := |items|, |agents|;
    if k == 0 then []
    else
      AllEndsBounded(n, k);
      seq(k, i requires 0 <= i < k =>
        Assignment(agents[i], Slice(items, GroupStart(i, n, k), GroupEnd(i, n, k))))
  }

  // ---------------------------------------------------------------------------
  // Sizes
  // ---------------------------------------------------------------------------

  /** Agent i gets base + 1 items when i < rem, and base items otherwise. */
  lemma GroupSizes<T>(items: seq<T>, agents: seq<string>)
    requires |agents| >= 1
    ensures var r, n, k := DistributeItems(items, agents), |items|, |agents|;
      forall i :: 0 <= i < k ==> |r[i].items| == n / k + (if i < n % k then 1 else 0)
  {
  }

  /** Shares differ in size by at most one, and the larger ones come first. */
  lemma Balanced<T>(items: seq<T>, agents: seq<string>)
    requires |agents| >= 1
    ensures var r := DistributeItems(items, agents);
      forall i, j :: 0 <= i < j < |r| ==> |r[j].items| <= |r[i].items| <= |r[j].items| + 1
  {
    GroupSizes(items, agents);
  }

  /** The number of items handed out, counting an item once per share that holds it. */
  function TotalAssigned<T>(r: seq<Assignment<T>>): nat {
    if r == [] then 0 else TotalAssigned(r[..|r| - 1]) + |r[|r| - 1].items|
  }

  lemma PrefixStep(j: nat, b: nat, m: nat)
    requires j >= 1
    ensures (j - 1) * b + (if j - 1 < m then j - 1 else m) + b + (if j - 1 < m then 1 else 0)
      == j * b + (if j < m then j else m)
  {
    MulSucc(j - 1, b);
  }

  /** Shares of base + 1 items for the first m agents and base after: the first j hold j * base + min(j, m). */
  lemma {:induction false} TotalOfSizes<T>(r: seq<Assignment<T>>, b: nat, m: nat, j: nat)
    requires j <= |r|
    requires forall i :: 0 <= i < |r| ==> |r[i].items| == b + (if i < m then 1 else 0)
    ensures TotalAssigned(r[..j]) == j * b + (if j < m then j else m)
  {
    if j > 0 {
      TotalOfSizes(r, b, m, j - 1);
      assert r[..j][..j - 1] == r[..j - 1];
      assert TotalAssigned(r[..j]) == TotalAssigned(r[..j - 1]) + |r[j - 1].items|;
      PrefixStep(j, b, m);
    }
  }

  /** The share sizes add up to the number of items, although the shares do not cover the items. */
  lemma TotalIsItemCount<T>(items: seq<T>, agents: seq<string>)
    requires |agents| >= 1
    ensures TotalAssigned(DistributeItems(items, agents)) == |items|
  {
    var r, n, k := DistributeItems(items, agents), |items|, |agents|;
    GroupSizes(items, agents);
    TotalOfSizes(r, n / k, n % k, k);
    assert r[..k] == r;
    DivSplit(n, k);
  }

  // ---------------------------------------------------------------------------
  // Coverage
  // ---------------------------------------------------------------------------

  /** The shares' items, one share after another. */
  function Flatten<T>(r: seq<Assignment<T>>): seq<T> {
    if r == [] then [] else Flatten(r[..|r| - 1]) + r[|r| - 1].items
  }

  /** (j + 1) * b == j * b + b. */
  lemma MulSucc(j: nat, b: nat)
    ensures (j + 1) * b == j * b + b
  {
  }

  /** Shares that are consecutive slices from index 0 flatten to the items up to where they stop. */
  lemma {:induction false} FlattenTiles<T>(r: seq<Assignment<T>>, items: seq<T>, bounds: seq<nat>, j: nat)
    requires |bounds| == |r| + 1 && bounds[0] == 0 && j <= |r|
    requires forall i :: 0 <= i < |bounds| ==> bounds[i] <= |items|
    requires forall i :: 0 <= i < |r| ==> bounds[i] <= bounds[i + 1] && r[i].items == items[bounds[i]..bounds[i + 1]]
    ensures Flatten(r[..j]) == items[..bounds[j]]
  {
    if j > 0 {
      FlattenTiles(r, items, bounds, j - 1);
      assert r[..j][..j - 1] == r[..j - 1];
      assert items[..bounds[j]] == items[..bounds[j - 1]] + items[bounds[j - 1]..bounds[j]];
    }
  }

  /** When the agents divide the items evenly, the shares in order are the list itself. */
  lemma EvenSplitIsPartition<T>(items: seq<T>, agents: seq<string>)
    requires |agents| >= 1 && |items| % |agents| == 0
    ensures Flatten(DistributeItems(items, agents)) == items
  {
    var r, n, k := DistributeItems(items, agents), |items|, |agents|;
    var b := n / k;
    DivSplit(n, k);
    var bounds: seq<nat> := seq(k + 1, i requires 0 <= i <= k => i * b);
    forall i | 0 <= i < |bounds| ensures bounds[i] <= n {
      MulMono(i, k, b);
    }
    forall i | 0 <= i < k ensures bounds[i] <= bounds[i + 1] && r[i].items == items[bounds[i]..bounds[i + 1]] {
      MulSucc(i, b);
      assert GroupStart(i, n, k) == bounds[i] && GroupEnd(i, n, k) == bounds[i + 1];
    }
    FlattenTiles(r, items, bounds, k);
    assert r[..k] == r;
    assert items[..bounds[k]] == items;
  }

  /** Index j of the list lies in some agent's share. */
  predicate Assigned(j: nat, n: nat, k: nat)
    requires k >= 1
  {
    exists i: nat :: i < k && GroupStart(i, n, k) <= j < GroupEnd(i, n, k)
  }

  /** How far the shares reach when the agents do not divide the items evenly. */
  function Reach(n: nat, k: nat): nat
    requires k >= 1
  {
    if n / k == 0 then 1 else n - n % k
  }

  /**
    With a remainder, no share reaches past Reach: with at least as many
    items as agents the last rem items go to nobody, and with fewer items than
    agents only the first item is handed out. Either way some item is lost
    once there are two or more.
  */
  lemma RemainderLosesTail(n: nat, k: nat)
    requires k >= 1 && n % k > 0
    ensures forall i: nat :: i < k ==> GroupEnd(i, n, k) <= Reach(n, k)
    ensures forall j: nat :: Reach(n, k) <= j < n ==> !Assigned(j, n, k)
    ensures n >= 2 ==> Reach(n, k) < n
  {
    var b, m := n / k, n % k;
    DivSplit(n, k);
    forall i: nat | i < k ensures GroupEnd(i, n, k) <= Reach(n, k) {
      if b == 0 {
        assert GroupStart(i, n, k) == 0;
      } else if i < m {
        MulMono(i + 1, k - 1, b);
        assert GroupEnd(i, n, k) == (i + 1) * b + 1;
        MulSucc(k - 1, b);
      } else {
        MulMono(i + 1, k, b);
      }
    }
  }

  /**
    With a remainder and at least two items, the first two agents share an
    item: item `base` ends the first share and starts the second.
  */
  lemma RemainderOverlaps<T>(items: seq<T>, agents: seq<string>)
    requires |agents| >= 1 && |items| % |agents| > 0 && |items| >= 2
    ensures |agents| >= 2
    ensures GroupStart(1, |items|, |agents|) < GroupEnd(0, |items|, |agents|)
    ensures var r, b := DistributeItems(items, agents), |items| / |agents|;
      b < |items| && b < |r[0].items| && 0 < |r[1].items| &&
      r[0].items[b] == items[b] && r[1].items[0] == items[b]
  {
    var r, n, k := DistributeItems(items, agents), |items|, |agents|;
    var b, m := n / k, n % k;
    DivSplit(n, k);
    assert k >= 2;
    assert GroupStart(0, n, k) == 0 && GroupEnd(0, n, k) == b + 1;
    assert GroupStart(1, n, k) == b && GroupEnd(1, n, k) > b;
    assert r[0].items == items[0..b + 1];
    assert r[1].items == items[b..GroupEnd(1, n, k)];
  }

  /** Seven items over three agents: [a0 a1 a2], [a2 a3], [a4 a5]; a6 goes to nobody. */
  lemma SevenOverThree<T>(items: seq<T>, agents: seq<string>)
    requires |items| == 7 && |agents| == 3
    ensures var r := DistributeItems(items, agents);
      r[0].items == items[0..3] && r[1].items == items[2..4] && r[2].items == items[4..6]
  {
    assert 7 / 3 == 2 && 7 % 3 == 1;
  }
}
