/**
 A run is determined by the namespace it starts from and by how its conditions
 come out: what a term does can be told in only one way.
 */
module AmlRuns {
  import opened AmlNamespace

  /** What a run ends in: the nodes, how it ended and how many conditions were asked. */
  datatype End = End(now: seq<Node>, out: Outcome, to: nat)

  ghost predicate DoesTo(truth: Answers, was: seq<Node>, scope: nat, term: Term, e: End, depth: nat, from: nat)
    requires Ordered(was)
  {
    Does(truth, was, scope, term, e.now, e.out, depth, from, e.to)
  }

  ghost predicate BlockTo(truth: Answers, was: seq<Node>, scope: nat, terms: seq<Term>, e: End, depth: nat, from: nat) {
    Block(truth, was, scope, terms, e.now, e.out, depth, from, e.to)
  }

  ghost predicate InsideTo(truth: Answers, was: seq<Node>, node: nat, body: seq<Term>, e: End, depth: nat, from: nat) {
    Inside(truth, was, node, body, e.now, e.out, depth, from, e.to)
  }

  /** A term has one effect. */
  lemma {:induction false} DoesOnce(truth: Answers, was: seq<Node>, scope: nat, term: Term, e: End, e': End, depth: nat,
                                    from: nat)
    requires Ordered(was)
    requires DoesTo(truth, was, scope, term, e, depth, from) && DoesTo(truth, was, scope, term, e', depth, from)
    ensures e == e'
    decreases 2 * Left(depth) + 1, term, 0
  {
    hide Block, Inside, Within, Turns, Called;
    match term {
      case Scope(path, body) =>
        match Opened(was, scope, path) {
          case Some(node) => InsideOnce(truth, was, node, body, e, e', depth, from);
          case None => WithinOnce(truth, Put(was, scope, path, Object), body, e, e', depth, from);
        }
      case Device(path, body) => WithinOnce(truth, Put(was, scope, path, Object), body, e, e', depth, from);
      case Call(path) =>
        var node := Meant(was, scope, path);
        if node.Some? && node.value < |was| && was[node.value].kind.Method? {
          CalledOnce(truth, was, node.value, e, e', depth, from);
        }
      case Branch(body, other) =>
        BlockOnce(truth, was, scope, if truth(from) then body else other, e, e', depth, from + 1);
      case Loop(body) => LoopOnce(truth, was, scope, body, e, e', depth, from);
      case _ =>
    }
  }

  lemma {:induction false} WithinOnce(truth: Answers, made: Effect, body: seq<Term>, e: End, e': End, depth: nat, from: nat)
    requires Within(truth, made, body, e.now, e.out, depth, from, e.to)
    requires Within(truth, made, body, e'.now, e'.out, depth, from, e'.to)
    ensures e == e'
    decreases 2 * Left(depth) + 1, body, 3
  {
    hide Inside;
    if made.out == Done {
      InsideOnce(truth, made.nodes, made.at, body, e, e', depth, from);
    }
  }

  lemma {:induction false} InsideOnce(truth: Answers, was: seq<Node>, node: nat, body: seq<Term>, e: End, e': End,
                                      depth: nat, from: nat)
    requires InsideTo(truth, was, node, body, e, depth, from) && InsideTo(truth, was, node, body, e', depth, from)
    ensures e == e'
    decreases 2 * Left(depth) + 1, body, 2
  {
    hide Block;
    var d := if BlockTo(truth, was, node, body, e, depth, from) then e else e.(out := Failed);
    var d' := if BlockTo(truth, was, node, body, e', depth, from) then e' else e'.(out := Failed);
    BlockOnce(truth, was, node, body, d, d', depth, from);
  }

  lemma {:induction false} CalledOnce(truth: Answers, was: seq<Node>, node: nat, e: End, e': End, depth: nat, from: nat)
    requires node < |was| && was[node].kind.Method?
    requires Called(truth, was, node, e.now, e.out, depth, from, e.to)
    requires Called(truth, was, node, e'.now, e'.out, depth, from, e'.to)
    ensures e == e'
    decreases 2 * Left(depth)
  {
    hide Block;
    if depth < MAX_DEPTH {
      var below := depth + 1;
      var body := was[node].kind.body;
      var end, inner :|
        && Block(truth, was, node, body, end, inner, below, from, e.to) && |was| <= |end| && e.now == end[..|was|]
        && e.out == (if inner == Done || inner == Returned then Done else if inner == Lost then Lost else Failed);
      var end', inner' :|
        && Block(truth, was, node, body, end', inner', below, from, e'.to) && |was| <= |end'| && e'.now == end'[..|was|]
        && e'.out == (if inner' == Done || inner' == Returned then Done else if inner' == Lost then Lost else Failed);
      BlockOnce(truth, was, node, body, End(end, inner, e.to), End(end', inner', e'.to), below, from);
    }
  }

  lemma {:induction false} BlockOnce(truth: Answers, was: seq<Node>, scope: nat, terms: seq<Term>, e: End, e': End,
                                     depth: nat, from: nat)
    requires BlockTo(truth, was, scope, terms, e, depth, from) && BlockTo(truth, was, scope, terms, e', depth, from)
    ensures e == e'
    decreases 2 * Left(depth) + 1, terms, 1
  {
    hide Does;
    var trail, asks :|
      && Trail(truth, trail, asks, scope, terms, e.out, depth) && trail[0] == was && trail[|trail| - 1] == e.now
      && asks[0] == from && asks[|trail| - 1] == e.to;
    var trail', asks' :|
      && Trail(truth, trail', asks', scope, terms, e'.out, depth) && trail'[0] == was && trail'[|trail'| - 1] == e'.now
      && asks'[0] == from && asks'[|trail'| - 1] == e'.to;
    var n := if |trail| <= |trail'| then |trail| - 1 else |trail'| - 1;
    TrailOnce(truth, trail, asks, e.out, trail', asks', e'.out, scope, terms, depth, n);
  }

  /** Two trails from one start agree as far as both go, and one does not end before the other. */
  lemma {:induction false} TrailOnce(truth: Answers, trail: seq<seq<Node>>, asks: seq<nat>, out: Outcome,
                                     trail': seq<seq<Node>>, asks': seq<nat>, out': Outcome,
                                     scope: nat, terms: seq<Term>, depth: nat, n: nat)
    requires Trail(truth, trail, asks, scope, terms, out, depth) && Trail(truth, trail', asks', scope, terms, out', depth)
    requires trail[0] == trail'[0] && asks[0] == asks'[0] && n < |trail| && n < |trail'|
    ensures trail[n] == trail'[n] && asks[n] == asks'[n]
    ensures n > 0 ==> (if n + 1 < |trail| then Done else out) == (if n + 1 < |trail'| then Done else out')
    decreases 2 * Left(depth) + 1, terms, 0, n
  {
    hide Does;
    if n > 0 {
      TrailOnce(truth, trail, asks, out, trail', asks', out', scope, terms, depth, n - 1);
      var e := End(trail[n], if n + 1 < |trail| then Done else out, asks[n]);
      var e' := End(trail'[n], if n + 1 < |trail'| then Done else out', asks'[n]);
      DoesOnce(truth, trail[n - 1], scope, terms[n - 1], e, e', depth, asks[n - 1]);
    }
  }

  lemma TurnAsked(truth: Answers, turns: seq<seq<Node>>, asks: seq<nat>, ends: seq<Outcome>, out: Outcome, scope: nat,
                  body: seq<Term>, depth: nat, n: nat)
    requires Turns(truth, turns, asks, ends, scope, body, out, depth) && n < |ends|
    ensures truth(asks[n]) && (n > 0 ==> GoesOn(ends[n - 1]))
  {
    hide Block;
    assert Turn(truth, turns[n], turns[n + 1], asks[n], asks[n + 1], ends[n], scope, body, depth);
  }

  lemma LoopRun(truth: Answers, was: seq<Node>, scope: nat, body: seq<Term>, e: End, depth: nat, from: nat)
    returns (turns: seq<seq<Node>>, asks: seq<nat>, ends: seq<Outcome>)
    requires Ordered(was) && DoesTo(truth, was, scope, Loop(body), e, depth, from)
    ensures Turns(truth, turns, asks, ends, scope, body, e.out, depth) && turns[0] == was && turns[|ends|] == e.now
    ensures asks[0] == from && e.to == LoopAsked(asks, ends)
  {
    hide Turn;
    turns, asks, ends :|
      && Turns(truth, turns, asks, ends, scope, body, e.out, depth) && turns[0] == was && turns[|ends|] == e.now
      && asks[0] == from && e.to == LoopAsked(asks, ends);
  }

  lemma {:induction false} LoopOnce(truth: Answers, was: seq<Node>, scope: nat, body: seq<Term>, e: End, e': End,
                                    depth: nat, from: nat)
    requires Ordered(was)
    requires DoesTo(truth, was, scope, Loop(body), e, depth, from) && DoesTo(truth, was, scope, Loop(body), e', depth, from)
    ensures e == e'
    decreases 2 * Left(depth) + 1, body, 3
  {
    hide Turn, Does;
    var turns, asks, ends := LoopRun(truth, was, scope, body, e, depth, from);
    var turns', asks', ends' := LoopRun(truth, was, scope, body, e', depth, from);
    var n := if |ends| <= |ends'| then |ends| else |ends'|;
    TurnsOnce(truth, turns, asks, ends, e.out, turns', asks', ends', e'.out, scope, body, depth, n);
    if |ends| < |ends'| {
      TurnAsked(truth, turns', asks', ends', e'.out, scope, body, depth, n);
    } else if |ends'| < |ends| {
      TurnAsked(truth, turns, asks, ends, e.out, scope, body, depth, n);
    }
  }

  /** Two runs of a loop from one start agree as far as both go. */
  lemma {:induction false} TurnsOnce(truth: Answers, turns: seq<seq<Node>>, asks: seq<nat>, ends: seq<Outcome>, out: Outcome,
                                     turns': seq<seq<Node>>, asks': seq<nat>, ends': seq<Outcome>, out': Outcome,
                                     scope: nat, body: seq<Term>, depth: nat, n: nat)
    requires Turns(truth, turns, asks, ends, scope, body, out, depth)
    requires Turns(truth, turns', asks', ends', scope, body, out', depth)
    requires turns[0] == turns'[0] && asks[0] == asks'[0] && n <= |ends| && n <= |ends'|
    ensures turns[n] == turns'[n] && asks[n] == asks'[n]
    ensures n > 0 ==> ends[n - 1] == ends'[n - 1]
    decreases 2 * Left(depth) + 1, body, 2, n
  {
    hide Block;
    if n > 0 {
      TurnsOnce(truth, turns, asks, ends, out, turns', asks', ends', out', scope, body, depth, n - 1);
      var m := n - 1;
      assert Turn(truth, turns[m], turns[m + 1], asks[m], asks[m + 1], ends[m], scope, body, depth);
      assert Turn(truth, turns'[m], turns'[m + 1], asks'[m], asks'[m + 1], ends'[m], scope, body, depth);
      var e, e' := End(turns[n], ends[m], asks[n]), End(turns'[n], ends'[m], asks'[n]);
      BlockOnce(truth, turns[m], scope, body, e, e', depth, asks[m] + 1);
    }
  }
}
