/** The shape of a skip list, read off the heights of its nodes alone: which later node a forward
    pointer reaches, and how that changes when a node enters or leaves. */
module SkipLists {

  /** First position after `p` whose node is at least `i` high, or the length when there is none:
      where the level-i chain goes from `p`. */
  ghost function NextTall(hs: seq<nat>, p: nat, i: nat): (q: nat)
    requires p < |hs|
    ensures p < q <= |hs|
    ensures q < |hs| ==> hs[q] >= i
    ensures forall x :: p < x < q ==> hs[x] < i
    decreases |hs| - p
  {
    if p + 1 == |hs| || hs[p + 1] >= i then p + 1 else NextTall(hs, p + 1, i)
  }

  /** Last position before `k` whose node is at least `i` high; the header is high enough. */
  ghost function PrevTall(hs: seq<nat>, k: nat, i: nat): (c: nat)
    requires 0 < k <= |hs| && hs[0] >= i
    ensures c < k && hs[c] >= i
    ensures forall x :: c < x < k ==> hs[x] < i
  {
    if hs[k - 1] >= i then k - 1 else PrevTall(hs, k - 1, i)
  }

  lemma NextTallUnique(hs: seq<nat>, p: nat, i: nat, q: nat)
    requires p < q <= |hs| && (q < |hs| ==> hs[q] >= i)
    requires forall x :: p < x < q ==> hs[x] < i
    ensures NextTall(hs, p, i) == q
  {
    var r := NextTall(hs, p, i);
  }

  lemma PrevTallUnique(hs: seq<nat>, k: nat, i: nat, c: nat)
    requires c < k <= |hs| && hs[0] >= i && hs[c] >= i
    requires forall x :: c < x < k ==> hs[x] < i
    ensures PrevTall(hs, k, i) == c
  {
    var d := PrevTall(hs, k, i);
  }

  /** Among the nodes before `k`, only the last tall one has its level-i pointer crossing `k`. */
  lemma CrossingIsPrevTall(hs: seq<nat>, k: nat, i: nat, p: nat)
    requires p < k <= |hs| && hs[0] >= i && hs[p] >= i
    ensures NextTall(hs, p, i) >= k <==> p == PrevTall(hs, k, i)
  {
    var c := PrevTall(hs, k, i);
    var q := NextTall(hs, p, i);
    if q >= k {
      PrevTallUnique(hs, k, i, p);
    } else {
    }
  }

  // ---- Insertion ----

  ghost function Inserted<T>(s: seq<T>, k: nat, x: T): seq<T>
    requires k <= |s|
  {
    s[..k] + [x] + s[k..]
  }

  /** Where position `p` of a sequence lands once something is inserted at `k`. */
  ghost function Shifted(p: nat, k: nat): nat {
    if p < k then p else p + 1
  }

  lemma InsertedMembers<T>(s: seq<T>, k: nat, x: T)
    requires k <= |s|
    ensures forall y :: y in Inserted(s, k, x) <==> y in s || y == x
  {
    assert s == s[..k] + s[k..];
  }

  /** Old pointers after an insertion at `k`: those that crossed `k` stop at the new node when it is
      high enough; every other pointer keeps its target. */
  lemma NextTallInserted(hs: seq<nat>, k: nat, h: nat, p: nat, i: nat)
    requires 0 < k <= |hs| && p < |hs|
    ensures var q := NextTall(hs, p, i);
            Shifted(p, k) < |Inserted(hs, k, h)| &&
            NextTall(Inserted(hs, k, h), Shifted(p, k), i) ==
              if p < k && q >= k && h >= i then k else Shifted(q, k)
  {
    var q := NextTall(hs, p, i);
    var gs := Inserted(hs, k, h);
    var r := if p < k && q >= k && h >= i then k else Shifted(q, k);
    forall x | Shifted(p, k) < x < r ensures gs[x] < i {
      if x != k { assert gs[x] == hs[if x < k then x else x - 1]; }
    }
    NextTallUnique(gs, Shifted(p, k), i, r);
  }

  /** The new node's own pointers take over from the pointers that crossed its place. */
  lemma NextTallOfInserted(hs: seq<nat>, k: nat, h: nat, i: nat)
    requires 0 < k <= |hs| && hs[0] >= i
    ensures NextTall(Inserted(hs, k, h), k, i) == Shifted(NextTall(hs, PrevTall(hs, k, i), i), k)
  {
    var gs := Inserted(hs, k, h);
    var c := PrevTall(hs, k, i);
    var q := NextTall(hs, c, i);
    CrossingIsPrevTall(hs, k, i, c);
    forall x | k < x < q + 1 ensures gs[x] < i {
      assert gs[x] == hs[x - 1];
    }
    NextTallUnique(gs, k, i, q + 1);
  }

  // ---- Removal ----

  ghost function Removed<T>(s: seq<T>, k: nat): seq<T>
    requires k < |s|
  {
    s[..k] + s[k + 1..]
  }

  /** Where position `p` lands once position `k` is removed. */
  ghost function Closed(p: nat, k: nat): int {
    if p <= k then p else p - 1
  }

  /** Pointers after the removal of node `k`: those that reached it take over its own pointer. */
  lemma NextTallRemoved(hs: seq<nat>, k: nat, p: nat, i: nat)
    requires 0 < k < |hs| && p < |hs| && p != k
    ensures var q := NextTall(hs, p, i);
            0 <= Closed(p, k) < |Removed(hs, k)| &&
            NextTall(Removed(hs, k), Closed(p, k), i) ==
              Closed(if q == k then NextTall(hs, k, i) else q, k)
  {
    var q := NextTall(hs, p, i);
    var gs := Removed(hs, k);
    var r := Closed(if q == k then NextTall(hs, k, i) else q, k);
    forall x | Closed(p, k) < x < r ensures gs[x] < i {
      assert gs[x] == hs[if x < k then x else x + 1];
    }
    NextTallUnique(gs, Closed(p, k), i, r);
  }
}
