/** The skip list of price levels (internal/orderbook/orderbook.go). */
module PriceTrees {
  import opened Core
  import opened Orders
  import opened SkipLists
  import opened Sequences

  const MAX_LEVEL := 16

  // ---- Node heights ----

  function NextRandom(state: uint64): uint64 {
    (state * 1103515245 + 12345) % 0x1_0000_0000_0000_0000
  }

  /** Height drawn from a generator state, counting from `level`, and the state it leaves. */
  function DrawLevel(state: uint64, level: nat): (nat, uint64)
    requires level <= MAX_LEVEL
    decreases MAX_LEVEL - level
  {
    if level == MAX_LEVEL then (level, state)
    else if NextRandom(state) % 2 == 1 then DrawLevel(NextRandom(state), level + 1)
    else (level, NextRandom(state))
  }

  /** The n-th number that the generator gives after a state. */
  function Nth(state: uint64, n: nat): uint64
    decreases n
  {
    if n == 0 then state else Nth(NextRandom(state), n - 1)
  }

  /** A height is the number of odd draws before the first even one, and at most 16. */
  lemma {:induction false} HeightIsOddRun(state: uint64, level: nat)
    requires level <= 16
    ensures var (top, next) := DrawLevel(state, level);
            && level <= top <= 16
            && (forall i :: 0 < i <= top - level ==> Nth(state, i) % 2 == 1)
            && (top < 16 ==> Nth(state, top - level + 1) % 2 == 0)
            && next == Nth(state, if top < 16 then top - level + 1 else 16 - level)
    decreases 16 - level
  {
    hide NextRandom;
    var (top, _) := DrawLevel(state, level);
    assert Nth(state, 1) == NextRandom(state) by { assert Nth(NextRandom(state), 0) == NextRandom(state); }
    if level < 16 && NextRandom(state) % 2 == 1 {
      HeightIsOddRun(NextRandom(state), level + 1);
      forall i | 0 < i <= top - level ensures Nth(state, i) % 2 == 1 {
        assert Nth(state, i) == Nth(NextRandom(state), i - 1);
      }
    }
  }

  /** The states the generator passes through between draws of heights, from seed 1. */
  predicate Seeded(state: uint64) {
    state == 1 || state % 2 == 0
  }

  lemma SameParity(x: int, m: int, y: int)
    requires x == 2 * m + y
    ensures x % 2 == y % 2
  {
  }

  /** The low bit of the generator alternates. */
  lemma NextParity(state: uint64)
    ensures NextRandom(state) % 2 == (state + 1) % 2
  {
    hide NextRandom;
    var q := NextQuotient(state);
    var x := state * 1103515245 + 12345;
    SameParity(x, 0x8000_0000_0000_0000 * q, NextRandom(state));
    SameParity(x, state * 551757622 + 6172, state + 1);
  }

  lemma NextQuotient(state: uint64) returns (q: int)
    ensures state * 1103515245 + 12345 == 2 * (0x8000_0000_0000_0000 * q) + NextRandom(state)
  {
    q := (state * 1103515245 + 12345) / 0x1_0000_0000_0000_0000;
  }

  /** From seed 1 the first height is 0 and every later one is 1, within two draws each. */
  lemma SeededDraw(state: uint64)
    requires Seeded(state)
    ensures var (level, next) := DrawLevel(state, 0);
            && level == (if state == 1 then 0 else 1) && next != 1 && Seeded(next)
            && next == if level == 0 then NextRandom(state) else NextRandom(NextRandom(state))
  {
    hide NextRandom;
    NextParity(state);
    NextParity(NextRandom(state));
  }

  /** The first n heights drawn from a state, whichever trees draw them. */
  function Heights(state: uint64, n: nat): (hs: seq<nat>)
    ensures |hs| == n
    decreases n
  {
    if n == 0 then [] else [DrawLevel(state, 0).0] + Heights(DrawLevel(state, 0).1, n - 1)
  }

  lemma {:induction false} SeedHeights(state: uint64, n: nat, k: nat)
    requires Seeded(state) && k < n
    ensures Heights(state, n)[k] == if state == 1 && k == 0 then 0 else 1
    decreases n
  {
    hide DrawLevel, NextRandom;
    SeededDraw(state);
    if k > 0 { SeedHeights(DrawLevel(state, 0).1, n - 1, k - 1); }
  }

  /** The package-wide generator that every tree draws from. */
  class Rng {
    var state: uint64

    constructor ()
      ensures state == 1
    {
      state := 1;
    }

    method FastRandom() returns (r: uint64)
      modifies this
      ensures r == state == NextRandom(old(state))
      ensures state == (old(state) * 1103515245 + 12345) % 0x1_0000_0000_0000_0000
    {
      state := NextRandom(state);
      r := state;
    }

    method RandomLevel() returns (level: nat)
      modifies this
      ensures level <= MAX_LEVEL
      ensures (level, state) == DrawLevel(old(state), 0)
      ensures forall i :: 0 < i <= level ==> Nth(old(state), i) % 2 == 1
      ensures level < 16 ==> Nth(old(state), level + 1) % 2 == 0
    {
      HeightIsOddRun(state, 0);
      level := 0;
      while level < MAX_LEVEL
        invariant level <= MAX_LEVEL
        invariant DrawLevel(old(state), 0) == DrawLevel(state, level)
      {
        var r := FastRandom();
        if r % 2 != 1 { return; }
        level := level + 1;
      }
    }
  }

  /** A node's forward slice has a fixed length, one more than its height. */
  class PriceNode {
    const price: int32
    const level: PriceLevel?
    ghost const height: nat
    ghost const home: Home
    var forward: seq<PriceNode?>

    constructor (price: int32, level: PriceLevel?, height: nat, ghost home: Home)
      ensures this.price == price && this.level == level && this.height == height && this.home == home
      ensures |forward| == height + 1 && forall i :: 0 <= i <= height ==> forward[i] == null
    {
      this.price, this.level, this.height, this.home := price, level, height, home;
      this.forward := seq(height + 1, _ => null);
    }
  }

  /** comparePrice: does price `a` come first in the tree? */
  predicate Before(ascending: bool, a: int32, b: int32) {
    if ascending then a < b else a > b
  }

  /** The mathematical content of a tree: its nodes in chain order with the header first, their
      heights, and the price-to-level map they stand for. `pos` and `owner` invert the chain and the
      map, which is how distinctness is stated. */
  datatype Shape = Shape(nodes: seq<PriceNode>, hs: seq<nat>, pos: map<int32, nat>,
                         levels: map<int32, PriceLevel>, owner: map<PriceLevel, int32>)

  ghost function NodeAt(nodes: seq<PriceNode>, q: nat): PriceNode? {
    if q < |nodes| then nodes[q] else null
  }

  ghost predicate HeightsOf(nodes: seq<PriceNode>, hs: seq<nat>) {
    && |hs| == |nodes| > 0 && hs[0] == MAX_LEVEL
    && (forall p :: 0 <= p < |hs| ==> hs[p] <= MAX_LEVEL)
    && (forall p :: 1 <= p < |nodes| ==> nodes[p] != nodes[0])
  }

  /** The nodes after the header are, position by position, the prices of `pos`. */
  ghost predicate Positioned(nodes: seq<PriceNode>, pos: map<int32, nat>) {
    && (forall p :: 1 <= p < |nodes| ==> nodes[p].price in pos && pos[nodes[p].price] == p)
    && (forall x :: x in pos ==> 1 <= pos[x] < |nodes| && nodes[pos[x]].price == x)
  }

  ghost predicate Sorted(nodes: seq<PriceNode>, ascending: bool) {
    forall p, q {:trigger nodes[p].price, nodes[q].price} ::
      1 <= p < q < |nodes| ==> Before(ascending, nodes[p].price, nodes[q].price)
  }

  ghost predicate Represents(nodes: seq<PriceNode>, levels: map<int32, PriceLevel>) {
    forall p :: 1 <= p < |nodes| ==> nodes[p].price in levels && levels[nodes[p].price] == nodes[p].level
  }

  ghost predicate Injective(levels: map<int32, PriceLevel>, owner: map<PriceLevel, int32>) {
    forall x :: x in levels ==> levels[x] in owner && owner[levels[x]] == x
  }

  /** A strictly sorted chain that is exactly a finite injective map from prices to levels. */
  ghost predicate Chain(s: Shape, ascending: bool) {
    && HeightsOf(s.nodes, s.hs)
    && Positioned(s.nodes, s.pos)
    && Sorted(s.nodes, ascending)
    && Represents(s.nodes, s.levels) && s.levels.Keys == s.pos.Keys
    && Injective(s.levels, s.owner)
  }

  ghost predicate Sized(nodes: seq<PriceNode>, hs: seq<nat>)
    requires |hs| == |nodes|
    reads Elements(nodes)
  {
    forall p :: 0 <= p < |nodes| ==> |nodes[p].forward| == hs[p] + 1
  }

  /** Every forward pointer reaches the next node tall enough for its level, or nil. */
  ghost predicate Threaded(nodes: seq<PriceNode>, hs: seq<nat>)
    requires |hs| == |nodes|
    reads Elements(nodes)
  {
    && Sized(nodes, hs)
    && forall p, i :: 0 <= p < |nodes| && 0 <= i <= hs[p] ==>
         nodes[p].forward[i] == NodeAt(nodes, NextTall(hs, p, i))
  }

  /** `maxLevel` is the height of the tallest node, or 0. */
  ghost predicate Tallest(hs: seq<nat>, maxLevel: nat) {
    && maxLevel <= MAX_LEVEL
    && (forall p :: 1 <= p < |hs| ==> hs[p] <= maxLevel)
    && (maxLevel > 0 ==> exists p :: 1 <= p < |hs| && hs[p] == maxLevel)
  }

  /** Position at which a price is, or would be, in the chain. */
  ghost predicate IsRank(nodes: seq<PriceNode>, ascending: bool, price: int32, k: nat) {
    && 1 <= k <= |nodes|
    && (forall p :: 1 <= p < k ==> Before(ascending, nodes[p].price, price))
    && (forall p :: k <= p < |nodes| ==> !Before(ascending, nodes[p].price, price))
  }

  lemma {:induction false} RankExists(s: Shape, ascending: bool, price: int32) returns (k: nat)
    requires Chain(s, ascending)
    ensures IsRank(s.nodes, ascending, price, k)
    ensures price in s.levels <==> k < |s.nodes| && s.nodes[k].price == price
  {
    k := 1;
    while k < |s.nodes| && Before(ascending, s.nodes[k].price, price)
      invariant 1 <= k <= |s.nodes|
      invariant forall p :: 1 <= p < k ==> Before(ascending, s.nodes[p].price, price)
    {
      k := k + 1;
    }
    if price in s.levels { assert s.nodes[s.pos[price]].price == price; }
  }

  /** The node at a price's rank is the first of the chain that does not come before the price. */
  lemma RankNode(s: Shape, ascending: bool, price: int32, k: nat)
    requires Chain(s, ascending) && IsRank(s.nodes, ascending, price, k)
    ensures k == |s.nodes| ==> forall x :: x in s.levels ==> Before(ascending, x, price)
    ensures k < |s.nodes| ==>
              var first := s.nodes[k].price;
              && first in s.levels && !Before(ascending, first, price)
              && forall x :: x in s.levels && x != first && !Before(ascending, x, price) ==> Before(ascending, first, x)
  {
    forall x | x in s.levels
      ensures Before(ascending, x, price)
        || (k < |s.nodes| && (x == s.nodes[k].price || Before(ascending, s.nodes[k].price, x)))
    {
      assert s.nodes[s.pos[x]].price == x;
    }
  }

  /** The search path recorded by insert and remove: the last node before `k` on every level. */
  ghost predicate IsPath(s: Shape, k: nat, update: seq<PriceNode>)
    requires HeightsOf(s.nodes, s.hs)
  {
    && 0 < k <= |s.nodes| && |update| == MAX_LEVEL + 1
    && forall j :: 0 <= j <= MAX_LEVEL ==> update[j] == s.nodes[PrevTall(s.hs, k, j)]
  }

  // ---- Splicing a node in ----

  ghost function InsertedShape(s: Shape, k: nat, node: PriceNode, h: nat): Shape
    requires 0 < k <= |s.nodes| && |s.hs| == |s.nodes| && node.level != null
  {
    Shape(Inserted(s.nodes, k, node), Inserted(s.hs, k, h),
          (map x | x in s.pos :: Shifted(s.pos[x], k))[node.price := k],
          s.levels[node.price := node.level], s.owner[node.level := node.price])
  }

  lemma InsertedPositioned(nodes: seq<PriceNode>, pos: map<int32, nat>, node: PriceNode, k: nat)
    requires Positioned(nodes, pos) && 0 < k <= |nodes| && node.price !in pos
    ensures Positioned(Inserted(nodes, k, node), (map x | x in pos :: Shifted(pos[x], k))[node.price := k])
  {
    var ns := Inserted(nodes, k, node);
    assert forall p :: 0 <= p < k ==> ns[p] == nodes[p];
    assert forall p :: k < p < |ns| ==> ns[p] == nodes[p - 1];
  }

  lemma InsertedSorted(nodes: seq<PriceNode>, ascending: bool, node: PriceNode, k: nat)
    requires Sorted(nodes, ascending) && IsRank(nodes, ascending, node.price, k)
    requires forall p :: 1 <= p < |nodes| ==> nodes[p].price != node.price
    ensures Sorted(Inserted(nodes, k, node), ascending)
  {
    var ns := Inserted(nodes, k, node);
    assert forall p :: 0 <= p < k ==> ns[p] == nodes[p];
    assert forall p :: k < p < |ns| ==> ns[p] == nodes[p - 1];
  }

  lemma InsertedRepresents(nodes: seq<PriceNode>, levels: map<int32, PriceLevel>, node: PriceNode, k: nat)
    requires Represents(nodes, levels) && 0 < k <= |nodes| && node.price !in levels && node.level != null
    ensures Represents(Inserted(nodes, k, node), levels[node.price := node.level])
  {
    var ns := Inserted(nodes, k, node);
    assert forall p :: 0 <= p < k ==> ns[p] == nodes[p];
    assert forall p :: k < p < |ns| ==> ns[p] == nodes[p - 1];
  }

  lemma InsertedHeights(nodes: seq<PriceNode>, hs: seq<nat>, node: PriceNode, k: nat, h: nat)
    requires HeightsOf(nodes, hs) && 0 < k <= |nodes| && h <= MAX_LEVEL && node != nodes[0]
    ensures HeightsOf(Inserted(nodes, k, node), Inserted(hs, k, h))
  {
    var ns, gs := Inserted(nodes, k, node), Inserted(hs, k, h);
    assert forall p :: 0 <= p < k ==> ns[p] == nodes[p] && gs[p] == hs[p];
    assert forall p :: k < p < |ns| ==> ns[p] == nodes[p - 1] && gs[p] == hs[p - 1];
  }

  lemma InsertedInjective(levels: map<int32, PriceLevel>, owner: map<PriceLevel, int32>,
                          price: int32, level: PriceLevel)
    requires Injective(levels, owner) && forall x :: x in levels ==> levels[x] != level
    ensures Injective(levels[price := level], owner[level := price])
  {
  }

  lemma InsertedChain(s: Shape, ascending: bool, node: PriceNode, k: nat, h: nat)
    requires Chain(s, ascending) && IsRank(s.nodes, ascending, node.price, k) && node.price !in s.levels
    requires node.level != null && forall x :: x in s.levels ==> s.levels[x] != node.level
    requires h <= MAX_LEVEL && node != s.nodes[0]
    ensures Chain(InsertedShape(s, k, node, h), ascending)
  {
    InsertedHeights(s.nodes, s.hs, node, k, h);
    InsertedInjective(s.levels, s.owner, node.price, node.level);
    InsertedPositioned(s.nodes, s.pos, node, k);
    InsertedSorted(s.nodes, ascending, node, k);
    InsertedRepresents(s.nodes, s.levels, node, k);
  }

  lemma InsertedTallest(hs: seq<nat>, maxLevel: nat, k: nat, h: nat)
    requires Tallest(hs, maxLevel) && 0 < k <= |hs| && h <= MAX_LEVEL
    ensures Tallest(Inserted(hs, k, h), if h > maxLevel then h else maxLevel)
  {
    var gs := Inserted(hs, k, h);
    assert gs[k] == h;
    if maxLevel > 0 {
      var p :| 1 <= p < |hs| && hs[p] == maxLevel;
      assert gs[Shifted(p, k)] == maxLevel;
    }
  }

  /** Level-i target of node `p` once the levels below `done` run through a new node at `k`. */
  ghost function SplicedTarget(nodes: seq<PriceNode>, hs: seq<nat>, k: nat, node: PriceNode,
                               done: nat, p: nat, i: nat): PriceNode?
    requires 0 < k <= |hs| && p < |hs| && hs[0] >= i
  {
    if i < done && p == PrevTall(hs, k, i) then node else NodeAt(nodes, NextTall(hs, p, i))
  }

  ghost predicate Splicing(nodes: seq<PriceNode>, hs: seq<nat>, k: nat, node: PriceNode, done: nat)
    requires HeightsOf(nodes, hs) && 0 < k <= |hs|
    reads Elements(nodes)
  {
    && Sized(nodes, hs)
    && forall p, i :: 0 <= p < |nodes| && 0 <= i <= hs[p] ==>
         nodes[p].forward[i] == SplicedTarget(nodes, hs, k, node, done, p, i)
  }

  lemma SplicedTargetIsNext(nodes: seq<PriceNode>, hs: seq<nat>, k: nat, node: PriceNode, h: nat, p: nat, i: nat)
    requires |nodes| == |hs| && 0 < k <= |hs| && p < |hs| && i <= hs[p] && i <= hs[0]
    ensures Shifted(p, k) < |Inserted(hs, k, h)|
    ensures SplicedTarget(nodes, hs, k, node, h + 1, p, i) ==
              NodeAt(Inserted(nodes, k, node), NextTall(Inserted(hs, k, h), Shifted(p, k), i))
  {
    NextTallInserted(hs, k, h, p, i);
    if p < k { CrossingIsPrevTall(hs, k, i, p); }
  }

  lemma NewTargetIsNext(nodes: seq<PriceNode>, hs: seq<nat>, k: nat, node: PriceNode, h: nat, i: nat)
    requires |nodes| == |hs| && 0 < k <= |hs| && i <= h && i <= hs[0]
    ensures NodeAt(nodes, NextTall(hs, PrevTall(hs, k, i), i)) ==
              NodeAt(Inserted(nodes, k, node), NextTall(Inserted(hs, k, h), k, i))
  {
    NextTallOfInserted(hs, k, h, i);
    CrossingIsPrevTall(hs, k, i, PrevTall(hs, k, i));
  }

  lemma SplicedThreaded(nodes: seq<PriceNode>, hs: seq<nat>, k: nat, node: PriceNode, h: nat)
    requires HeightsOf(nodes, hs) && 0 < k <= |hs| && h <= MAX_LEVEL && |node.forward| == h + 1
    requires Splicing(nodes, hs, k, node, h + 1)
    requires forall i :: 0 <= i <= h ==> node.forward[i] == NodeAt(nodes, NextTall(hs, PrevTall(hs, k, i), i))
    ensures Threaded(Inserted(nodes, k, node), Inserted(hs, k, h))
  {
    var ns, gs := Inserted(nodes, k, node), Inserted(hs, k, h);
    forall p' | 0 <= p' < |ns|
      ensures |ns[p'].forward| == gs[p'] + 1
      ensures forall i :: 0 <= i <= gs[p'] ==> ns[p'].forward[i] == NodeAt(ns, NextTall(gs, p', i))
    {
      if p' == k {
        forall i | 0 <= i <= h ensures node.forward[i] == NodeAt(ns, NextTall(gs, k, i)) {
          NewTargetIsNext(nodes, hs, k, node, h, i);
        }
      } else {
        var p := if p' < k then p' else p' - 1;
        assert ns[p'] == nodes[p] && gs[p'] == hs[p];
        forall i | 0 <= i <= hs[p] ensures nodes[p].forward[i] == NodeAt(ns, NextTall(gs, p', i)) {
          SplicedTargetIsNext(nodes, hs, k, node, h, p, i);
        }
      }
    }
  }

  /** Level i of the pointer updates in `insert`. */
  method SpliceAt(ghost nodes: seq<PriceNode>, ghost hs: seq<nat>, ghost k: nat,
                  node: PriceNode, i: nat, prev: PriceNode)
    requires HeightsOf(nodes, hs) && 0 < k <= |nodes| && i <= MAX_LEVEL && i < |node.forward|
    requires (forall p, q :: 0 <= p < q < |nodes| ==> nodes[p] != nodes[q])
    requires forall p :: 0 <= p < |nodes| ==> nodes[p] != node
    requires prev == nodes[PrevTall(hs, k, i)]
    requires Splicing(nodes, hs, k, node, i)
    modifies node, prev
    ensures Splicing(nodes, hs, k, node, i + 1)
    ensures |node.forward| == old(|node.forward|)
    ensures node.forward[i] == NodeAt(nodes, NextTall(hs, PrevTall(hs, k, i), i))
    ensures forall j :: 0 <= j < |node.forward| && j != i ==> node.forward[j] == old(node.forward[j])
  {
    ghost var c := PrevTall(hs, k, i);
    assert prev.forward[i] == SplicedTarget(nodes, hs, k, node, i, c, i);
    node.forward := node.forward[i := prev.forward[i]];
    prev.forward := prev.forward[i := node];
    forall p, j | 0 <= p < |nodes| && 0 <= j <= hs[p]
      ensures nodes[p].forward[j] == SplicedTarget(nodes, hs, k, node, i + 1, p, j)
    {
      assert old(nodes[p].forward[j]) == SplicedTarget(nodes, hs, k, node, i, p, j);
    }
  }

  lemma PositionedDistinct(nodes: seq<PriceNode>, hs: seq<nat>, pos: map<int32, nat>)
    requires HeightsOf(nodes, hs) && Positioned(nodes, pos)
    ensures forall p, q :: 0 <= p < q < |nodes| ==> nodes[p] != nodes[q]
  {
    forall p, q | 0 <= p < q < |nodes| ensures nodes[p] != nodes[q] {
      if p > 0 { assert pos[nodes[p].price] == p && pos[nodes[q].price] == q; }
    }
  }

  /** The pointer updates of `insert`, level by level. */
  method SpliceAll(ghost nodes: seq<PriceNode>, ghost hs: seq<nat>, ghost k: nat,
                   node: PriceNode, h: nat, update: seq<PriceNode>)
    requires HeightsOf(nodes, hs) && Threaded(nodes, hs) && 0 < k <= |nodes|
    requires (forall p, q :: 0 <= p < q < |nodes| ==> nodes[p] != nodes[q])
    requires forall p :: 0 <= p < |nodes| ==> nodes[p] != node
    requires |node.forward| == h + 1 && h <= MAX_LEVEL
    requires |update| == MAX_LEVEL + 1 && forall j :: 0 <= j <= MAX_LEVEL ==> update[j] == nodes[PrevTall(hs, k, j)]
    modifies node, Elements(nodes)
    ensures Threaded(Inserted(nodes, k, node), Inserted(hs, k, h))
  {
    var i := 0;
    while i <= h
      invariant 0 <= i <= h + 1
      invariant |node.forward| == h + 1
      invariant Splicing(nodes, hs, k, node, i)
      invariant forall j :: 0 <= j < i ==> node.forward[j] == NodeAt(nodes, NextTall(hs, PrevTall(hs, k, j), j))
    {
      SpliceAt(nodes, hs, k, node, i, update[i]);
      i := i + 1;
    }
    SplicedThreaded(nodes, hs, k, node, h);
  }

  /** `insert` once the height is drawn: any height up to MAX_LEVEL will do. */
  method Splice(ghost s: Shape, ghost ascending: bool, ghost maxLevel: nat, ghost k: nat,
                node: PriceNode, h: nat, update: seq<PriceNode>) returns (ghost t: Shape)
    requires Chain(s, ascending) && Tallest(s.hs, maxLevel) && Threaded(s.nodes, s.hs)
    requires IsRank(s.nodes, ascending, node.price, k) && node.price !in s.levels
    requires node.level != null && forall x :: x in s.levels ==> s.levels[x] != node.level
    requires |node.forward| == h + 1 && h <= MAX_LEVEL
    requires forall p :: 0 <= p < |s.nodes| ==> s.nodes[p] != node
    requires IsPath(s, k, update)
    modifies node, Elements(s.nodes)
    ensures Chain(t, ascending) && Threaded(t.nodes, t.hs) && t.nodes[0] == s.nodes[0]
    ensures t.levels == s.levels[node.price := node.level]
    ensures Tallest(t.hs, if h > maxLevel then h else maxLevel)
    ensures forall n :: n in t.nodes <==> n in s.nodes || n == node
  {
    PositionedDistinct(s.nodes, s.hs, s.pos);
    SpliceAll(s.nodes, s.hs, k, node, h, update);
    t := InsertedShape(s, k, node, h);
    InsertedChain(s, ascending, node, k, h);
    InsertedTallest(s.hs, maxLevel, k, h);
    InsertedMembers(s.nodes, k, node);
  }

  // ---- Splicing a node out ----

  ghost function RemovedPos(pos: map<int32, nat>, price: int32, k: nat): map<int32, nat>
    requires k > 0
  {
    map x | x in pos && x != price :: if pos[x] < k then pos[x] else pos[x] - 1
  }

  ghost function RemovedShape(s: Shape, k: nat): Shape
    requires 0 < k < |s.nodes| && |s.hs| == |s.nodes|
  {
    var price := s.nodes[k].price;
    Shape(Removed(s.nodes, k), Removed(s.hs, k), RemovedPos(s.pos, price, k), s.levels - {price}, s.owner)
  }

  lemma RemovedPositioned(nodes: seq<PriceNode>, pos: map<int32, nat>, k: nat)
    requires Positioned(nodes, pos) && 0 < k < |nodes|
    ensures Positioned(Removed(nodes, k), RemovedPos(pos, nodes[k].price, k))
  {
    var ns, price := Removed(nodes, k), nodes[k].price;
    var np := RemovedPos(pos, price, k);
    assert price in pos && pos[price] == k;
    forall x | x in np ensures 1 <= np[x] < |ns| && ns[np[x]].price == x {
      assert nodes[pos[x]].price == x && pos[x] != k;
    }
    forall p | 1 <= p < |ns| ensures ns[p].price in np && np[ns[p].price] == p {
      var q := if p < k then p else p + 1;
      assert ns[p] == nodes[q] && pos[nodes[q].price] == q;
    }
  }

  lemma RemovedSorted(nodes: seq<PriceNode>, ascending: bool, k: nat)
    requires Sorted(nodes, ascending) && 0 < k < |nodes|
    ensures Sorted(Removed(nodes, k), ascending)
  {
    var ns := Removed(nodes, k);
    assert forall p :: 0 <= p < k ==> ns[p] == nodes[p];
    assert forall p :: k <= p < |ns| ==> ns[p] == nodes[p + 1];
  }

  lemma RemovedRepresents(nodes: seq<PriceNode>, pos: map<int32, nat>, levels: map<int32, PriceLevel>, k: nat)
    requires Positioned(nodes, pos) && Represents(nodes, levels) && 0 < k < |nodes|
    ensures Represents(Removed(nodes, k), levels - {nodes[k].price})
  {
    var ns := Removed(nodes, k);
    assert forall p :: 0 <= p < k ==> ns[p] == nodes[p];
    assert forall p :: k <= p < |ns| ==> ns[p] == nodes[p + 1];
  }

  lemma RemovedBelow(hs: seq<nat>, k: nat, maxLevel: nat)
    requires 0 < k < |hs| && forall p :: 1 <= p < |hs| ==> hs[p] <= maxLevel
    ensures forall p :: 1 <= p < |Removed(hs, k)| ==> Removed(hs, k)[p] <= maxLevel
  {
  }

  lemma RemovedHeights(nodes: seq<PriceNode>, hs: seq<nat>, k: nat)
    requires HeightsOf(nodes, hs) && 0 < k < |nodes|
    ensures HeightsOf(Removed(nodes, k), Removed(hs, k))
    ensures forall n :: n in Removed(nodes, k) ==> n in nodes
  {
    var ns, gs := Removed(nodes, k), Removed(hs, k);
    assert forall p :: 0 <= p < k ==> ns[p] == nodes[p] && gs[p] == hs[p];
    assert forall p :: k <= p < |ns| ==> ns[p] == nodes[p + 1] && gs[p] == hs[p + 1];
  }

  lemma RemovedChain(s: Shape, ascending: bool, k: nat)
    requires Chain(s, ascending) && 0 < k < |s.nodes|
    ensures Chain(RemovedShape(s, k), ascending)
  {
    RemovedPositioned(s.nodes, s.pos, k);
    RemovedSorted(s.nodes, ascending, k);
    RemovedRepresents(s.nodes, s.pos, s.levels, k);
    RemovedHeights(s.nodes, s.hs, k);
    assert s.nodes[k].price in s.pos;
  }

  /** Level-i target of node `p` once the levels below `done` bypass the node at `k`. */
  ghost function BypassTarget(nodes: seq<PriceNode>, hs: seq<nat>, k: nat, done: nat, p: nat, i: nat): PriceNode?
    requires k < |hs| && p < |hs|
  {
    var q := NextTall(hs, p, i);
    NodeAt(nodes, if q == k && i < done then NextTall(hs, k, i) else q)
  }

  ghost predicate Bypassing(nodes: seq<PriceNode>, hs: seq<nat>, k: nat, done: nat)
    requires |nodes| == |hs| && k < |nodes|
    reads Elements(nodes)
  {
    && Sized(nodes, hs)
    && forall p, i :: 0 <= p < |nodes| && 0 <= i <= hs[p] ==>
         nodes[p].forward[i] == BypassTarget(nodes, hs, k, done, p, i)
  }

  lemma BypassTargetIsNext(nodes: seq<PriceNode>, hs: seq<nat>, k: nat, p: nat, i: nat)
    requires |nodes| == |hs| && 0 < k < |hs| && p < |hs| && p != k && i <= hs[p]
    ensures 0 <= Closed(p, k) < |Removed(hs, k)|
    ensures BypassTarget(nodes, hs, k, hs[k] + 1, p, i) ==
              NodeAt(Removed(nodes, k), NextTall(Removed(hs, k), Closed(p, k), i))
  {
    NextTallRemoved(hs, k, p, i);
  }

  lemma BypassedThreaded(nodes: seq<PriceNode>, hs: seq<nat>, k: nat)
    requires |nodes| == |hs| && 0 < k < |nodes| && Bypassing(nodes, hs, k, hs[k] + 1)
    ensures Threaded(Removed(nodes, k), Removed(hs, k))
  {
    hide Bypassing, NextTall;
    var ns, gs := Removed(nodes, k), Removed(hs, k);
    forall q | 0 <= q < |ns|
      ensures |ns[q].forward| == gs[q] + 1
      ensures forall i :: 0 <= i <= gs[q] ==> ns[q].forward[i] == NodeAt(ns, NextTall(gs, q, i))
    {
      BypassedAt(nodes, hs, k, q);
    }
  }

  lemma BypassedAt(nodes: seq<PriceNode>, hs: seq<nat>, k: nat, q: nat)
    requires |nodes| == |hs| && 0 < k < |nodes| && Bypassing(nodes, hs, k, hs[k] + 1) && q < |nodes| - 1
    ensures var ns, gs := Removed(nodes, k), Removed(hs, k);
            && |ns| == |gs| == |nodes| - 1 && |ns[q].forward| == gs[q] + 1
            && forall i :: 0 <= i <= gs[q] ==> ns[q].forward[i] == NodeAt(ns, NextTall(gs, q, i))
  {
    var ns, gs := Removed(nodes, k), Removed(hs, k);
    var p := if q < k then q else q + 1;
    assert ns[q] == nodes[p] && gs[q] == hs[p];
    forall i | 0 <= i <= hs[p] ensures nodes[p].forward[i] == NodeAt(ns, NextTall(gs, q, i)) {
      BypassTargetIsNext(nodes, hs, k, p, i);
    }
  }

  /** Level i of the pointer updates in `remove`. */
  method BypassAt(ghost nodes: seq<PriceNode>, ghost hs: seq<nat>, ghost k: nat,
                  target: PriceNode, i: nat, prev: PriceNode)
    requires HeightsOf(nodes, hs) && 0 < k < |nodes| && target == nodes[k] && i <= MAX_LEVEL
    requires (forall p, q :: 0 <= p < q < |nodes| ==> nodes[p] != nodes[q])
    requires prev == nodes[PrevTall(hs, k, i)]
    requires NextTall(hs, PrevTall(hs, k, i), i) == k
    requires Bypassing(nodes, hs, k, i)
    modifies prev
    ensures Bypassing(nodes, hs, k, i + 1)
  {
    ghost var c := PrevTall(hs, k, i);
    assert target.forward[i] == BypassTarget(nodes, hs, k, i, k, i);
    prev.forward := prev.forward[i := target.forward[i]];
    forall p, j | 0 <= p < |nodes| && 0 <= j <= hs[p]
      ensures nodes[p].forward[j] == BypassTarget(nodes, hs, k, i + 1, p, j)
    {
      assert old(nodes[p].forward[j]) == BypassTarget(nodes, hs, k, i, p, j);
      if p < k { CrossingIsPrevTall(hs, k, j, p); }
    }
  }

  /** The loop test of `remove` at level i holds exactly while the target reaches that level. */
  lemma BypassGuard(nodes: seq<PriceNode>, hs: seq<nat>, pos: map<int32, nat>, k: nat, i: nat)
    requires HeightsOf(nodes, hs) && Positioned(nodes, pos) && 0 < k < |nodes| && i <= MAX_LEVEL
    requires Bypassing(nodes, hs, k, i)
    ensures var c := PrevTall(hs, k, i);
            i < |nodes[c].forward| &&
            (nodes[c].forward[i] == nodes[k] <==> hs[k] >= i) && (hs[k] >= i ==> NextTall(hs, c, i) == k)
  {
    var c := PrevTall(hs, k, i);
    CrossingIsPrevTall(hs, k, i, c);
    assert nodes[c].forward[i] == BypassTarget(nodes, hs, k, i, c, i);
    PositionedDistinct(nodes, hs, pos);
  }

  /** The pointer updates of `remove`: level by level until the target is no longer next. */
  method BypassAll(ghost nodes: seq<PriceNode>, ghost hs: seq<nat>, ghost pos: map<int32, nat>, ghost k: nat,
                   target: PriceNode, maxLevel: nat, update: seq<PriceNode>)
    requires HeightsOf(nodes, hs) && Positioned(nodes, pos)
    requires 0 < k < |nodes| && Bypassing(nodes, hs, k, 0) && target == nodes[k] && hs[k] <= maxLevel <= MAX_LEVEL
    requires |update| == MAX_LEVEL + 1 && forall j :: 0 <= j <= MAX_LEVEL ==> update[j] == nodes[PrevTall(hs, k, j)]
    modifies Elements(nodes)
    ensures Bypassing(nodes, hs, k, hs[k] + 1)
  {
    PositionedDistinct(nodes, hs, pos);
    BypassGuard(nodes, hs, pos, k, 0);
    var i := 0;
    while i <= maxLevel && update[i].forward[i] == target
      invariant 0 <= i <= hs[k] + 1
      invariant Bypassing(nodes, hs, k, i)
      invariant i <= maxLevel ==> i < |update[i].forward| && (update[i].forward[i] == target <==> hs[k] >= i)
      invariant i <= hs[k] ==> NextTall(hs, PrevTall(hs, k, i), i) == k
    {
      BypassAt(nodes, hs, k, target, i, update[i]);
      i := i + 1;
      if i <= maxLevel { BypassGuard(nodes, hs, pos, k, i); }
    }
  }

  method Bypass(ghost s: Shape, ghost ascending: bool, ghost k: nat, header: PriceNode,
                target: PriceNode, maxLevel: nat, update: seq<PriceNode>) returns (ghost t: Shape, top: nat)
    requires Chain(s, ascending) && Tallest(s.hs, maxLevel) && Threaded(s.nodes, s.hs)
    requires 0 < k < |s.nodes| && target == s.nodes[k] && header == s.nodes[0] && IsPath(s, k, update)
    modifies Elements(s.nodes)
    ensures Chain(t, ascending) && Threaded(t.nodes, t.hs) && t.nodes[0] == s.nodes[0]
    ensures t.levels == s.levels - {target.price}
    ensures Tallest(t.hs, top) && top <= maxLevel
    ensures forall n :: n in t.nodes ==> n in s.nodes
  {
    BypassAll(s.nodes, s.hs, s.pos, k, target, maxLevel, update);
    BypassedThreaded(s.nodes, s.hs, k);
    RemovedChain(s, ascending, k);
    RemovedHeights(s.nodes, s.hs, k);
    RemovedBelow(s.hs, k, maxLevel);
    t := RemovedShape(s, k);
    top := Shrink(t.nodes, t.hs, header, maxLevel);
  }

  /** The loop that lowers maxLevel past the empty chains. */
  method Shrink(ghost nodes: seq<PriceNode>, ghost hs: seq<nat>, header: PriceNode, maxLevel: nat) returns (top: nat)
    requires HeightsOf(nodes, hs) && nodes[0] == header && Threaded(nodes, hs)
    requires maxLevel <= MAX_LEVEL && forall p :: 1 <= p < |hs| ==> hs[p] <= maxLevel
    ensures Tallest(hs, top) && top <= maxLevel && Threaded(nodes, hs)
  {
    top := maxLevel;
    while top > 0 && header.forward[top] == null
      invariant top <= maxLevel && forall p :: 1 <= p < |hs| ==> hs[p] <= top
    {
      assert header.forward[top] == NodeAt(nodes, NextTall(hs, 0, top));
      top := top - 1;
    }
    if top > 0 {
      assert header.forward[top] == NodeAt(nodes, NextTall(hs, 0, top));
      assert hs[NextTall(hs, 0, top)] == top;
    }
  }

  class PriceTree {
    const header: PriceNode
    const ascending: bool
    ghost const home: Home
    var maxLevel: nat
    var pool: set<PriceLevel>
    ghost var shape: Shape

    ghost predicate Valid()
      reads this, Elements(shape.nodes)
    {
      Sound() && Owned()
    }

    /** The skip list proper. */
    ghost predicate Sound()
      reads this, Elements(shape.nodes)
    {
      && Chain(shape, ascending) && shape.nodes[0] == header
      && Threaded(shape.nodes, shape.hs)
      && Tallest(shape.hs, maxLevel)
    }

    /** Nodes and levels belong to this tree, and no level in use is pooled. */
    ghost predicate Owned()
      reads this
    {
      && home.ascending == ascending
      && (forall n :: n in shape.nodes ==> n.home == home)
      && (forall x :: x in shape.levels ==> shape.levels[x].home == home && shape.levels[x] !in pool)
      && (forall l :: l in pool ==> l.home == home)
    }

    ghost function Levels(): map<int32, PriceLevel>
      reads this
    {
      shape.levels
    }

    ghost function Nodes(): seq<PriceNode>
      reads this
    {
      shape.nodes
    }

    ghost function NodeSet(): set<PriceNode>
      reads this
    {
      Elements(shape.nodes)
    }

    constructor (ascending: bool, ghost token: uint32)
      ensures Valid() && home.token == token && this.ascending == ascending
      ensures Levels() == map[] && pool == {} && maxLevel == 0 && |header.forward| == 17
      ensures fresh(NodeSet())
    {
      header := new PriceNode(0, null, MAX_LEVEL, Home(token, ascending));
      this.ascending, this.home := ascending, Home(token, ascending);
      maxLevel := 0;
      pool := {};
      shape := Shape([header], [MAX_LEVEL], map[], map[], map[]);
      new;
      forall i | 0 <= i <= MAX_LEVEL ensures NextTall(shape.hs, 0, i) == 1 {
        NextTallUnique(shape.hs, 0, i, 1);
      }
    }

    /** One level of the search: walk right while the next node is still before the price. */
    method Walk(start: PriceNode, i: nat, price: int32, ghost k: nat, ghost c: nat)
      returns (current: PriceNode, ghost d: nat)
      requires Valid() && IsRank(Nodes(), ascending, price, k)
      requires c < k && Nodes()[c] == start && i <= shape.hs[c]
      ensures d < k && Nodes()[d] == current && i <= shape.hs[d]
      ensures d == PrevTall(shape.hs, k, i)
    {
      current, d := start, c;
      while current.forward[i] != null && Before(ascending, current.forward[i].price, price)
        invariant d < k && Nodes()[d] == current && i <= shape.hs[d]
        decreases k - d
      {
        assert current.forward[i] == NodeAt(Nodes(), NextTall(shape.hs, d, i));
        d := NextTall(shape.hs, d, i);
        current := current.forward[i];
      }
      assert current.forward[i] == NodeAt(Nodes(), NextTall(shape.hs, d, i));
      CrossingIsPrevTall(shape.hs, k, i, d);
    }

    /** Search from the top, recording the last node before the price on every level; levels above
        `maxLevel` hold no node but the header. */
    method Predecessors(price: int32, ghost k: nat) returns (update: seq<PriceNode>)
      requires Valid() && IsRank(Nodes(), ascending, price, k)
      ensures IsPath(shape, k, update)
    {
      update := seq(MAX_LEVEL + 1, _ => header);
      var current: PriceNode, i: int := header, maxLevel;
      ghost var c: nat := 0;
      forall j | maxLevel < j <= MAX_LEVEL ensures PrevTall(shape.hs, k, j) == 0 {
        PrevTallUnique(shape.hs, k, j, 0);
      }
      while i >= 0
        invariant -1 <= i <= maxLevel
        invariant c < k && Nodes()[c] == current && i <= shape.hs[c]
        invariant |update| == MAX_LEVEL + 1
        invariant forall j :: i < j <= MAX_LEVEL ==> update[j] == Nodes()[PrevTall(shape.hs, k, j)]
        decreases i
      {
        current, c := Walk(current, i, price, k, c);
        update := update[i := current];
        i := i - 1;
      }
    }

    method Find(price: int32) returns (node: PriceNode?)
      requires Valid()
      ensures price in Levels() <==> node != null && node.price == price
      ensures price in Levels() ==> node.level == Levels()[price]
      ensures node == null ==> forall x :: x in Levels() ==> Before(ascending, x, price)
      ensures node != null ==> node.price in Levels() && !Before(ascending, node.price, price)
      ensures node != null ==> forall x :: x in Levels() && x != node.price && !Before(ascending, x, price) ==>
                Before(ascending, node.price, x)
    {
      hide Sorted, Positioned, Injective;
      ghost var k := RankExists(shape, ascending, price);
      var current: PriceNode, i: int := header, maxLevel;
      ghost var c: nat := 0;
      while i >= 0
        invariant -1 <= i <= maxLevel
        invariant c < k && Nodes()[c] == current && i <= shape.hs[c]
        invariant i < 0 ==> c == k - 1
        decreases i
      {
        current, c := Walk(current, i, price, k, c);
        if i == 0 { PrevTallUnique(shape.hs, k, 0, k - 1); }
        i := i - 1;
      }
      NextTallUnique(shape.hs, c, 0, k);
      node := current.forward[0];
      assert node == NodeAt(Nodes(), k);
      RankNode(shape, ascending, price, k);
    }

    method InsertNode(price: int32, level: PriceLevel, newLevel: nat, update: seq<PriceNode>, ghost k: nat)
      requires Valid() && price !in Levels() && level !in pool && level.home == home && newLevel <= MAX_LEVEL
      requires forall x :: x in Levels() ==> Levels()[x] != level
      requires IsRank(Nodes(), ascending, price, k) && IsPath(shape, k, update)
      modifies this, NodeSet()
      ensures Valid() && Levels() == old(Levels())[price := level] && pool == old(pool)
      ensures maxLevel == if newLevel > old(maxLevel) then newLevel else old(maxLevel)
      ensures fresh(NodeSet() - old(NodeSet()))
    {
      hide Sorted, Positioned, Represents, Injective, Threaded, Tallest, IsRank, IsPath;
      var node := new PriceNode(price, level, newLevel, home);
      var tallest := if newLevel > maxLevel then newLevel else maxLevel;
      ghost var t := Splice(shape, ascending, maxLevel, k, node, newLevel, update);
      Adopt(t, tallest, pool);
    }

    /** Takes over a reshaped chain. */
    method Adopt(ghost t: Shape, top: nat, pooled: set<PriceLevel>)
      requires Chain(t, ascending) && t.nodes[0] == header && Threaded(t.nodes, t.hs) && Tallest(t.hs, top)
      modifies this
      ensures Sound() && shape == t && pool == pooled && maxLevel == top
    {
      maxLevel, shape, pool := top, t, pooled;
      assert forall n :: n in t.nodes ==> n.forward == old(n.forward);
    }

    method Insert(price: int32, level: PriceLevel, rng: Rng)
      requires Valid() && price !in Levels() && level !in pool && level.home == home
      requires forall x :: x in Levels() ==> Levels()[x] != level
      modifies this, NodeSet(), rng
      ensures Valid() && Levels() == old(Levels())[price := level] && pool == old(pool)
      ensures old(maxLevel) <= 1 && Seeded(old(rng.state)) ==> maxLevel <= 1 && Seeded(rng.state)
      ensures fresh(NodeSet() - old(NodeSet()))
    {
      hide Sorted, Positioned, Represents, Injective, Threaded, Tallest;
      ghost var k := RankExists(shape, ascending, price);
      var update := Predecessors(price, k);
      if Seeded(rng.state) { SeededDraw(rng.state); }
      var newLevel := rng.RandomLevel();
      InsertNode(price, level, newLevel, update, k);
    }

    /** sync.Pool Get: any pooled level, or a new one; the pool may also have lost items. */
    method TakePooled() returns (level: PriceLevel)
      modifies this`pool
      requires forall l :: l in pool ==> l.home == home
      ensures (fresh(level) || level in old(pool)) && level.home == home
      ensures level !in pool && pool <= old(pool)
    {
      var dropped: set<PriceLevel> := *;
      pool := pool - dropped;
      if * {
        level := new PriceLevel(home);
      } else if pool != {} {
        level :| level in pool;
        pool := pool - {level};
      } else {
        level := new PriceLevel(home);
      }
    }

    method GetOrCreate(price: int32, rng: Rng) returns (level: PriceLevel)
      requires Valid()
      modifies this, NodeSet(), rng, pool
      ensures Valid() && pool <= old(pool)
      ensures price in old(Levels()) ==>
                level == old(Levels())[price] && Levels() == old(Levels()) && unchanged(old(pool))
      ensures price !in old(Levels()) ==>
                && (fresh(level) || level in old(pool))
                && Levels() == old(Levels())[price := level]
                && level.Price == price && level.TotalQty == 0 && level.OrderCount == 0
                && level.FirstOrder == null && level.LastOrder == null
      ensures fresh(NodeSet() - old(NodeSet()))
      ensures old(maxLevel) <= 1 && Seeded(old(rng.state)) ==> maxLevel <= 1 && Seeded(rng.state)
    {
      hide Sorted, Positioned, Represents, Threaded, Tallest, Chain, Injective;
      var node := Find(price);
      if node != null && node.price == price {
        return node.level;
      }
      level := AddLevel(price, rng);
    }

    /** A pooled or new level, emptied and inserted at a price that has none. */
    method AddLevel(price: int32, rng: Rng) returns (level: PriceLevel)
      requires Valid() && price !in Levels()
      modifies this, NodeSet(), rng, pool
      ensures Valid() && pool <= old(pool) && (fresh(level) || level in old(pool))
      ensures Levels() == old(Levels())[price := level]
      ensures level.Price == price && level.TotalQty == 0 && level.OrderCount == 0
      ensures level.FirstOrder == null && level.LastOrder == null
      ensures fresh(NodeSet() - old(NodeSet()))
      ensures old(maxLevel) <= 1 && Seeded(old(rng.state)) ==> maxLevel <= 1 && Seeded(rng.state)
    {
      hide Sorted, Positioned, Represents, Threaded, Tallest;
      level := TakePooled();
      level.Reset(price);
      Insert(price, level, rng);
    }

    /** The head of the bottom chain is the best key of the tree, present whenever any key is. */
    method First() returns (node: PriceNode?)
      requires Valid()
      ensures node == null <==> Levels() == map[]
      ensures node != null ==> node.price in Levels() && Levels()[node.price] == node.level
      ensures node != null ==> forall x :: x in Levels() && x != node.price ==> Before(ascending, node.price, x)
    {
      NextTallUnique(shape.hs, 0, 0, 1);
      node := header.forward[0];
      assert node == NodeAt(Nodes(), 1);
      forall x | x in Levels() ensures node != null && (x == node.price || Before(ascending, node.price, x)) {
        assert Nodes()[shape.pos[x]].price == x;
      }
      if node != null { assert Nodes()[1].price in Levels(); }
    }

    /** The highest key of a bid tree; its level may be empty, but no key is better. */
    method GetBestBid() returns (level: PriceLevel?)
      requires Valid()
      ensures level == null <==> ascending || Levels() == map[]
      ensures level != null ==> exists best ::
                best in Levels() && Levels()[best] == level && forall x :: x in Levels() ==> x <= best
    {
      if ascending { return null; }
      var node := First();
      level := if node != null then node.level else null;
    }

    /** The lowest key of an ask tree; its level may be empty, but no key is better. */
    method GetBestAsk() returns (level: PriceLevel?)
      requires Valid()
      ensures level == null <==> !ascending || Levels() == map[]
      ensures level != null ==> exists best ::
                best in Levels() && Levels()[best] == level && forall x :: x in Levels() ==> best <= x
    {
      if !ascending { return null; }
      var node := First();
      level := if node != null then node.level else null;
    }

    /** Unlinks the price's node, if there is one, and pools its level without looking whether
        orders still hang on it. */
    method Remove(price: int32)
      requires Valid()
      modifies this, NodeSet()
      ensures Valid() && Levels() == old(Levels()) - {price}
      ensures pool == if price in old(Levels()) then old(pool) + {old(Levels())[price]} else old(pool)
      ensures NodeSet() <= old(NodeSet()) && maxLevel <= old(maxLevel)
    {
      hide Sorted, Positioned, Injective, Tallest;
      ghost var k := RankExists(shape, ascending, price);
      var update := Predecessors(price, k);
      PrevTallUnique(shape.hs, k, 0, k - 1);
      NextTallUnique(shape.hs, k - 1, 0, k);
      var target := update[0].forward[0];
      assert target == NodeAt(Nodes(), k);
      if target == null || target.price != price { return; }
      Unlink(target, update, k);
    }

    lemma NodeLevel(k: nat)
      requires Valid() && 0 < k < |Nodes()|
      ensures var n := Nodes()[k];
              n.price in Levels() && Levels()[n.price] == n.level &&
              forall x :: x in Levels() && x != n.price ==> Levels()[x] != n.level
    {
    }

    method Unlink(target: PriceNode, update: seq<PriceNode>, ghost k: nat)
      requires Valid() && 0 < k < |Nodes()| && target == Nodes()[k] && IsPath(shape, k, update)
      modifies this, NodeSet()
      ensures Valid() && Levels() == old(Levels()) - {target.price}
      ensures target.level != null && pool == old(pool) + {target.level}
      ensures NodeSet() <= old(NodeSet()) && maxLevel <= old(maxLevel)
    {
      hide Chain, Threaded, Tallest, IsPath;
      ghost var before := shape.levels;
      NodeLevel(k);
      ghost var t; var top; t, top := Bypass(shape, ascending, k, header, target, maxLevel, update);
      Adopt(t, top, pool + {target.level});
    }
  }
}
