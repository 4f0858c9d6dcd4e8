/** What messages make of a book, whatever objects the allocator hands out: the relation between the book before
    some acts and the book after them. */
module Outcomes {
  import opened Core
  import opened Sequences
  import opened Books
  import opened Actions
  import opened Views

  /** Served steps that carry out the acts lead from one book to the other. */
  ghost predicate Makes<K>(b: Book<K>, steps: seq<Step<K>>, acts: seq<Act>, c: Book<K>) {
    Enacts(steps, acts) && ServedAll(b, steps) && c == Run(b, steps)
  }

  /** The acts that a message asks of one contract. */
  function ActsFor(msg: RawMessage, token: uint32): seq<Act> {
    if TokenOf(msg) == Some(token) then ActsOf(msg) else []
  }

  /** A message leads from one book of a token to the other; a message to another token leaves it alone. */
  ghost predicate Applied<K>(msg: RawMessage, token: uint32, b: Book<K>, steps: seq<Step<K>>, c: Book<K>) {
    if TokenOf(msg) == Some(token) then Makes(b, steps, ActsOf(msg), c) else c == b
  }

  function ActsForAll(msgs: seq<RawMessage>, token: uint32): seq<Act> {
    if msgs == [] then [] else ActsForAll(msgs[..|msgs| - 1], token) + ActsFor(msgs[|msgs| - 1], token)
  }

  // ---- What the messages ask of each token ----

  ghost function ActsSoFar(feed: map<uint32, seq<Act>>, token: uint32): seq<Act> {
    if token in feed then feed[token] else []
  }

  /** The acts asked of each contract once a message has been handled. */
  ghost function Fed(feed: map<uint32, seq<Act>>, msg: RawMessage): map<uint32, seq<Act>> {
    match TokenOf(msg)
    case None => feed
    case Some(token) => feed[token := ActsSoFar(feed, token) + ActsOf(msg)]
  }

  ghost function FedAll(feed: map<uint32, seq<Act>>, msgs: seq<RawMessage>): map<uint32, seq<Act>> {
    if msgs == [] then feed else Fed(FedAll(feed, msgs[..|msgs| - 1]), msgs[|msgs| - 1])
  }

  /** The acts filed under a token are those of the messages to it, in order. */
  lemma {:induction false} FedAllIs(msgs: seq<RawMessage>, token: uint32)
    ensures ActsSoFar(FedAll(map[], msgs), token) == ActsForAll(msgs, token)
  {
    if msgs != [] { FedAllIs(msgs[..|msgs| - 1], token); }
  }

  // ---- Composition ----

  lemma MakesNothing<K>(b: Book<K>)
    ensures Makes(b, [], [], b)
  {
  }

  lemma RunOne<K>(b: Book<K>, s: Step<K>)
    ensures Run(b, [s]) == Apply(b, s) && (ServedAll(b, [s]) <==> Served(b, s))
  {
    hide Served, Apply;
    assert Run(Apply(b, s), [s][1..]) == Apply(b, s) && ServedAll(Apply(b, s), [s][1..]);
  }

  lemma MakesStep<K>(b: Book<K>, s: Step<K>)
    requires Served(b, s)
    ensures Makes(b, [s], [s.act], Apply(b, s))
  {
    hide Served, Apply;
    RunOne(b, s);
  }

  lemma MakesConcat<K>(b: Book<K>, s: seq<Step<K>>, acts: seq<Act>, c: Book<K>,
                       t: seq<Step<K>>, more: seq<Act>, d: Book<K>)
    requires Makes(b, s, acts, c) && Makes(c, t, more, d)
    ensures Makes(b, s + t, acts + more, d)
  {
    hide Run, ServedAll;
    RunConcat(b, s, t);
  }

  /** Another message after some. */
  lemma AppliedNext<K>(b: Book<K>, s: seq<Step<K>>, msgs: seq<RawMessage>, token: uint32, c: Book<K>,
                       msg: RawMessage, t: seq<Step<K>>, d: Book<K>)
    requires Makes(b, s, ActsForAll(msgs, token), c) && Applied(msg, token, c, t, d)
    ensures Makes(b, if TokenOf(msg) == Some(token) then s + t else s, ActsForAll(msgs + [msg], token), d)
  {
    hide Makes, TokenOf;
    assert (msgs + [msg])[..|msgs|] == msgs;
    var acts := ActsForAll(msgs, token);
    if TokenOf(msg) == Some(token) {
      MakesConcat(b, s, acts, c, t, ActsOf(msg), d);
    } else {
      assert acts + [] == acts;
    }
  }

  // ---- What every outcome has in common ----

  /** Acts reach only the orders they name. */
  lemma {:induction false} OutcomeOthers<K>(b: Book<K>, steps: seq<Step<K>>, acts: seq<Act>, c: Book<K>, k: K)
    requires WellFormed(b) && Makes(b, steps, acts, c) && k in b.recs
    requires forall i :: 0 <= i < |acts| ==> IdNamed(acts[i]) != b.recs[k].id
    ensures k in c.recs && c.recs[k] == b.recs[k]
    decreases |acts|
  {
    hide WellFormed, Served, Apply;
    if acts != [] {
      ApplyUnused(b, steps[0]);
      ApplyWellFormed(b, steps[0]);
      OthersUntouched(b, steps[0], k);
      OutcomeOthers(Apply(b, steps[0]), steps[1..], acts[1..], c, k);
    }
  }

  /** `x` waits in the queue, and `y` behind it if it waits there too. */
  ghost predicate Ahead<K>(f: seq<K>, x: K, y: K) {
    f != [] && (f[0] == x || (f[0] != y && Ahead(f[1..], x, y)))
  }

  lemma {:induction false} AheadWithout<K>(f: seq<K>, o: K, x: K, y: K)
    requires NoDuplicates(f) && Ahead(f, x, y) && x in Without(f, o)
    ensures Ahead(Without(f, o), x, y)
  {
    if f[0] != o && f[0] != x { AheadWithout(f[1..], o, x, y); }
  }

  lemma {:induction false} AheadAppend<K>(f: seq<K>, k: K, x: K, y: K)
    requires Ahead(f, x, y)
    ensures Ahead(f + [k], x, y)
  {
    assert (f + [k])[1..] == f[1..] + [k];
    if f[0] != x { AheadAppend(f[1..], k, x, y); }
  }

  lemma TurnKeeps<K>(f: seq<K>, g: seq<K>, x: K, y: K)
    requires InTurn(f, g) && NoDuplicates(f) && Ahead(f, x, y) && x in g
    ensures Ahead(g, x, y)
  {
    hide Ahead, Without;
    if g != f {
      if |g| == |f| + 1 && g == f + [g[|f|]] {
        AheadAppend(f, g[|f|], x, y);
      } else {
        var o :| o in f && g == Without(f, o);
        AheadWithout(f, o, x, y);
      }
    }
  }

  /** First come, first served, over any number of messages: an order that no message names keeps its place ahead of
      every order behind it and every order that comes later. */
  lemma {:induction false} NoneOvertakes<K>(b: Book<K>, steps: seq<Step<K>>, acts: seq<Act>, c: Book<K>, x: K, y: K)
    requires WellFormed(b) && Makes(b, steps, acts, c) && x in b.recs
    requires forall i :: 0 <= i < |acts| ==> IdNamed(acts[i]) != b.recs[x].id
    requires Ahead(Fifo(b, KeyOf(b.recs[x])), x, y)
    ensures x in c.recs && c.recs[x] == b.recs[x] && Ahead(Fifo(c, KeyOf(b.recs[x])), x, y)
    decreases |acts|
  {
    hide WellFormed, Served, Apply, Ahead, InTurn, Fifo;
    if acts != [] {
      var d, key := Apply(b, steps[0]), KeyOf(b.recs[x]);
      ApplyUnused(b, steps[0]);
      ApplyWellFormed(b, steps[0]);
      OthersUntouched(b, steps[0], x);
      QueueDiscipline(b, steps[0], key);
      QueuedOnce(b, key);
      QueuedOnce(d, key);
      TurnKeeps(Fifo(b, key), Fifo(d, key), x, y);
      NoneOvertakes(d, steps[1..], acts[1..], c, x, y);
    }
  }

  lemma QueuedOnce<K>(b: Book<K>, key: Key)
    requires WellFormed(b)
    ensures NoDuplicates(Fifo(b, key))
    ensures forall k :: k in b.recs && KeyOf(b.recs[k]) == key ==> k in Fifo(b, key)
  {
  }

  /** A modification of a known order, at its old price and at another one. */
  lemma OutcomeOfRevise<K>(b: Book<K>, steps: seq<Step<K>>, r: Rec, c: Book<K>)
    requires WellFormed(b) && r.id in b.index && Makes(b, steps, [Revise(r)], c)
    ensures b.index[r.id] in b.recs
    ensures var k := b.index[r.id];
            var was, now := b.recs[k], b.recs[k].(price := r.price, qty := r.qty);
            && c.index == b.index && c.recs == b.recs[k := now]
            && (was.price == r.price ==> forall key :: Fifo(c, key) == Fifo(b, key))
            && (was.price != r.price ==>
                  && Fifo(c, KeyOf(now)) == Fifo(b, KeyOf(now)) + [k]
                  && Fifo(c, KeyOf(was)) == Without(Fifo(b, KeyOf(was)), k)
                  && forall key :: key != KeyOf(was) && key != KeyOf(now) ==> Fifo(c, key) == Fifo(b, key))
  {
    hide Served, Apply, Placed, Totalled, Bucketed, Fifo;
    assert steps == [Step(Revise(r), steps[0].h)];
    RunOne(b, steps[0]);
    ReviseRules(b, r, steps[0].h);
  }
}
