/** Conservation of quantity, with hypotheses and result stated on the messages alone: the index knows what
    the messages say (module Views), and a queue is no longer than the run that filled it. */
module Feeds {
  import opened Core
  import opened Sequences
  import opened Books
  import opened BookInvariants
  import opened Actions
  import opened Views
  import opened Totals

  const RUN_LIMIT: nat := 0x8000_0000

  /** The int32 arithmetic of the handlers stays in int32. */
  ghost predicate ActFits(v: map<uint64, Entry>, a: Act) {
    match a
    case Revise(r) => r.id in v ==> Fits32(r.qty - v[r.id].qty)
    case Take(id, q) => id != 0 && id in v ==> Fits32(v[id].qty - q)
    case Return(r) => r.id != 0 && r.id in v ==> Fits32(v[r.id].qty + r.qty)
    case _ => true
  }

  ghost predicate FeedFits(v: map<uint64, Entry>, mask: nat, acts: seq<Act>)
    decreases |acts|
  {
    acts == [] || (ActFits(v, acts[0]) && FeedFits(ViewStep(v, mask, acts[0]), mask, acts[1..]))
  }

  /** What an act adds to the quantity on the book: added, plus the change of a modification, plus restored,
      minus cancelled, minus what a fill can take. */
  ghost function ActFlow(v: map<uint64, Entry>, a: Act): int {
    match a
    case Add(r) => r.qty
    case Revise(r) => if r.id in v then r.qty - v[r.id].qty else r.qty
    case Drop(id) => if id in v then -v[id].qty else 0
    case Take(id, q) => if id != 0 && id in v then -Min(v[id].qty, q) else 0
    case Return(r) => if r.id != 0 then r.qty else 0
  }

  ghost function FeedFlow(v: map<uint64, Entry>, mask: nat, acts: seq<Act>): int
    decreases |acts|
  {
    if acts == [] then 0 else ActFlow(v, acts[0]) + FeedFlow(ViewStep(v, mask, acts[0]), mask, acts[1..])
  }

  // ---- Queues are no longer than runs ----

  ghost predicate ShortQueues<K>(b: Book<K>, n: nat) {
    forall key :: |Fifo(b, key)| <= n
  }

  lemma {:induction false} WithoutShorter<K>(s: seq<K>, k: K)
    ensures |Without(s, k)| <= |s|
  {
    if s != [] { WithoutShorter(s[1..], k); }
  }

  lemma QueuesGrow<K>(b: Book<K>, s: Step<K>, n: nat)
    requires WellFormed(b) && Unused(b, s.h) && ShortQueues(b, n)
    ensures ShortQueues(Apply(b, s), n + 1)
  {
    hide WellFormed, Apply, Fifo, Without, Unused;
    forall key ensures |Fifo(Apply(b, s), key)| <= n + 1 {
      QueueDiscipline(b, s, key);
      TurnLength(Fifo(b, key), Fifo(Apply(b, s), key));
    }
  }

  lemma TurnLength<K>(f: seq<K>, g: seq<K>)
    requires InTurn(f, g)
    ensures |g| <= |f| + 1
  {
    hide Without;
    if g != f && !(|g| == |f| + 1) {
      var o :| o in f && g == Without(f, o);
      WithoutShorter(f, o);
    }
  }

  // ---- Totals of short queues are small ----

  lemma {:induction false} SumBounded<K>(s: seq<K>, m: map<K, int>)
    requires forall k :: k in m ==> Fits32(m[k])
    ensures -0x8000_0000 * |s| <= SumBy(s, m) <= 0x8000_0000 * |s|
  {
    if s != [] { SumBounded(s[..|s| - 1], m); }
  }

  lemma TotalBounded<K>(b: Book<K>, key: Key, n: nat)
    requires Exact(b) && ShortQueues(b, n) && n < RUN_LIMIT
    ensures -0x4000_0000_0000_0000 <= TotalAt(b, key) <= 0x4000_0000_0000_0000
  {
    SumBounded(Fifo(b, key), Quantities(b.recs));
    assert TotalAt(b, key) == QtyAt(b, key) && |Fifo(b, key)| <= n;
  }

  /** While queues are short, only the int32 arithmetic can overflow. */
  lemma StepFitsShort<K>(b: Book<K>, s: Step<K>, n: nat)
    requires WellFormed(b) && Exact(b) && ShortQueues(b, n) && n < RUN_LIMIT && ActFits(View(b), s.act)
    ensures StepFits(b, s)
  {
    hide Placed, Totalled, Bucketed, Exact, ShortQueues, TotalAt, View;
    ViewKeys(b);
    forall key ensures -0x4000_0000_0000_0000 <= TotalAt(b, key) <= 0x4000_0000_0000_0000 { TotalBounded(b, key, n); }
  }

  lemma FlowKnown<K>(b: Book<K>, a: Act)
    requires Indexed(b)
    ensures Flow(b, a) == ActFlow(View(b), a)
  {
    hide View;
    ViewKeys(b);
  }

  /** A served run of at most 2^31 acts overflows nothing if its int32 arithmetic does not, and what it adds
      and takes is what the acts say. */
  lemma {:induction false} FeedOverflowsNothing<K>(b: Book<K>, steps: seq<Step<K>>, acts: seq<Act>, n: nat)
    requires WellFormed(b) && Exact(b) && ServedAll(b, steps) && Enacts(steps, acts)
    requires ShortQueues(b, n) && n + |acts| <= RUN_LIMIT && FeedFits(View(b), b.mask, acts)
    ensures NothingOverflows(b, steps) && Flows(b, steps) == FeedFlow(View(b), b.mask, acts)
    decreases |steps|
  {
    hide WellFormed, Indexed, Exact, ShortQueues, Apply, Served, View, ViewStep, ActFits, ActFlow, Flow, StepFits;
    if steps != [] {
      var c := Apply(b, steps[0]);
      WellIndexed(b);
      ApplyUnused(b, steps[0]);
      ApplyWellFormed(b, steps[0]);
      ApplyMask(b, steps[0]);
      StepView(b, steps[0]);
      StepFitsShort(b, steps[0], n);
      StepExact(b, steps[0]);
      QueuesGrow(b, steps[0], n);
      FlowKnown(b, acts[0]);
      FeedOverflowsNothing(c, steps[1..], acts[1..], n + 1);
    }
  }

  /** A queue is no longer than it was plus the run. */
  lemma {:induction false} RunShort<K>(b: Book<K>, steps: seq<Step<K>>, n: nat)
    requires WellFormed(b) && ServedAll(b, steps) && ShortQueues(b, n)
    ensures ShortQueues(Run(b, steps), n + |steps|)
    decreases |steps|
  {
    hide WellFormed, ShortQueues, Apply, Served;
    if steps != [] {
      ApplyUnused(b, steps[0]);
      ApplyWellFormed(b, steps[0]);
      QueuesGrow(b, steps[0], n);
      RunShort(Apply(b, steps[0]), steps[1..], n + 1);
    }
  }

  /** With exact totals and queues shorter than 2^31 only the one difference of a fill can overflow. */
  lemma FillFitsShort<K>(b: Book<K>, id: uint64, qty: int32, n: nat)
    requires WellFormed(b) && Exact(b) && ShortQueues(b, n) && n < RUN_LIMIT
    requires id in b.index ==> Fits32(b.recs[b.index[id]].qty - qty)
    ensures FillFits(b, id, qty)
  {
    hide Placed, Totalled, Bucketed, Exact, ShortQueues, TotalAt;
    if id in b.index { TotalBounded(b, KeyOf(b.recs[b.index[id]]), n); }
  }

  lemma EmptyShort<K>(mask: nat)
    ensures ShortQueues(Empty<K>(mask), 0) && View(Empty<K>(mask)) == map[]
  {
  }

  /** From an empty book: level totals are the sums of their orders, and together what the messages added less
      what they took. */
  lemma FeedConserves<K>(mask: nat, steps: seq<Step<K>>, acts: seq<Act>)
    requires ServedAll(Empty<K>(mask), steps) && Enacts(steps, acts)
    requires |acts| <= RUN_LIMIT && FeedFits(map[], mask, acts)
    ensures var c := Run(Empty<K>(mask), steps);
            Exact(c) && GrandTotal(c) == FeedFlow(map[], mask, acts)
  {
    hide WellFormed, Exact, ShortQueues, View, FeedFits, FeedFlow, Run, Flows, RunFits, GrandTotal;
    EmptyWellFormed<K>(mask);
    EmptyExact<K>(mask);
    EmptyShort<K>(mask);
    FeedOverflowsNothing(Empty<K>(mask), steps, acts, 0);
    RunConserves(Empty<K>(mask), steps);
  }

  /** The totals are exact now and after each of the steps. */
  ghost predicate AlwaysExact<K>(b: Book<K>, steps: seq<Step<K>>)
    decreases |steps|
  {
    Exact(b) && (steps == [] || AlwaysExact(Apply(b, steps[0]), steps[1..]))
  }

  lemma ActFitsBack<K>(b: Book<K>, s: Step<K>)
    requires Indexed(b) && StepFits(b, s)
    ensures ActFits(View(b), s.act)
  {
    hide View, TotalAt;
    ViewKeys(b);
  }

  /** Level totals are the sums of their orders throughout a run if and only if the int32 arithmetic of the
      handlers never leaves int32: a condition on the messages alone. */
  lemma {:induction false} AlwaysExactIff<K>(b: Book<K>, steps: seq<Step<K>>, acts: seq<Act>, n: nat)
    requires WellFormed(b) && Exact(b) && ServedAll(b, steps) && Enacts(steps, acts)
    requires ShortQueues(b, n) && n + |acts| <= RUN_LIMIT
    ensures AlwaysExact(b, steps) <==> FeedFits(View(b), b.mask, acts)
    decreases |steps|
  {
    hide WellFormed, Indexed, Exact, ShortQueues, Apply, Served, View, ViewStep, ActFits, StepFits;
    if steps != [] {
      var c := Apply(b, steps[0]);
      WellIndexed(b);
      ApplyUnused(b, steps[0]);
      ApplyWellFormed(b, steps[0]);
      ApplyMask(b, steps[0]);
      StepView(b, steps[0]);
      StepExact(b, steps[0]);
      if ActFits(View(b), acts[0]) { StepFitsShort(b, steps[0], n); }
      if StepFits(b, steps[0]) { ActFitsBack(b, steps[0]); }
      QueuesGrow(b, steps[0], n);
      if Exact(c) {
        AlwaysExactIff(c, steps[1..], acts[1..], n + 1);
      } else {
        assert !AlwaysExact(c, steps[1..]);
      }
    }
  }

  // ---- Quantities stay non-negative ----

  /** The message carries a quantity that is not negative. */
  predicate Mild(a: Act) {
    match a
    case Add(r) => r.qty >= 0
    case Revise(r) => r.qty >= 0
    case Return(r) => r.qty >= 0
    case Take(_, q) => q >= 0
    case Drop(_) => true
  }

  ghost predicate MildFeed(acts: seq<Act>) {
    forall i :: 0 <= i < |acts| ==> Mild(acts[i])
  }

  lemma EmptyNonNegative<K>(mask: nat)
    ensures NonNegative(Empty<K>(mask))
  {
  }

  lemma StepNonNegative<K>(b: Book<K>, s: Step<K>)
    requires Indexed(b) && NonNegative(b) && Mild(s.act) && ActFits(View(b), s.act)
    ensures NonNegative(Apply(b, s))
  {
    hide View, HasRoom, Wrap64;
    ViewKeys(b);
  }

  lemma {:induction false} RunNonNegative<K>(b: Book<K>, steps: seq<Step<K>>, acts: seq<Act>)
    requires WellFormed(b) && NonNegative(b) && ServedAll(b, steps) && Enacts(steps, acts)
    requires MildFeed(acts) && FeedFits(View(b), b.mask, acts)
    ensures NonNegative(Run(b, steps))
    decreases |steps|
  {
    hide WellFormed, Indexed, Apply, Served, View, ViewStep, ActFits, NonNegative, Mild;
    if steps != [] {
      WellIndexed(b);
      ApplyUnused(b, steps[0]);
      ApplyWellFormed(b, steps[0]);
      ApplyMask(b, steps[0]);
      StepView(b, steps[0]);
      StepNonNegative(b, steps[0]);
      RunNonNegative(Apply(b, steps[0]), steps[1..], acts[1..]);
    }
  }
}
