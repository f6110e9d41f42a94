/**
 The AML namespace: nodes with a name and a parent, names looked up through the
 enclosing scopes, and nodes created by a method dropped when it returns.
 */
module AmlNamespace {
  import opened Options

  const MAX_NODES: nat := 12288
  const MAX_DEPTH: nat := 24
  const MAX_LOOPS: nat := 4_000_000
  const ROOT: nat := 0

  type Name = string

  /** A node is a method with a body, an alias of another node, or any other object. */
  datatype Kind = Object | Method(body: seq<Term>) | Alias(target: nat)

  datatype Node = Node(name: Name, parent: Option<nat>, kind: Kind)

  /** A path: from the root, or up some scopes from the current one, then down by names. */
  datatype Path = Path(root: bool, up: nat, segments: seq<Name>)

  /** The terms that reach the namespace; values are left open, and so is how conditions come out. */
  datatype Term =
    | Define(path: Path)
    | DefineMethod(path: Path, body: seq<Term>)
    | MakeAlias(source: Path, path: Path)
    | Scope(path: Path, body: seq<Term>)
    | Device(path: Path, body: seq<Term>)
    | Call(path: Path)
    | Branch(body: seq<Term>, other: seq<Term>)
    | Loop(body: seq<Term>)
    | Break
    | Continue
    | Return
    | Fail

  /** A term that makes no alias, nor defines a method that does. */
  predicate Plain(term: Term) {
    match term
    case MakeAlias(_, _) => false
    case DefineMethod(_, body) => forall i :: 0 <= i < |body| ==> Plain(body[i])
    case Scope(_, body) => forall i :: 0 <= i < |body| ==> Plain(body[i])
    case Device(_, body) => forall i :: 0 <= i < |body| ==> Plain(body[i])
    case Branch(body, other) =>
      (forall i :: 0 <= i < |body| ==> Plain(body[i])) && (forall i :: 0 <= i < |other| ==> Plain(other[i]))
    case Loop(body) => forall i :: 0 <= i < |body| ==> Plain(body[i])
    case _ => true
  }

  predicate AllPlain(terms: seq<Term>) {
    forall i :: 0 <= i < |terms| ==> Plain(terms[i])
  }

  /** A term that makes aliases only outside the methods it defines. */
  predicate Tame(term: Term) {
    match term
    case DefineMethod(_, body) => AllPlain(body)
    case Scope(_, body) => forall i :: 0 <= i < |body| ==> Tame(body[i])
    case Device(_, body) => forall i :: 0 <= i < |body| ==> Tame(body[i])
    case Branch(body, other) =>
      (forall i :: 0 <= i < |body| ==> Tame(body[i])) && (forall i :: 0 <= i < |other| ==> Tame(other[i]))
    case Loop(body) => forall i :: 0 <= i < |body| ==> Tame(body[i])
    case _ => true
  }

  predicate AllTame(terms: seq<Term>) {
    forall i :: 0 <= i < |terms| ==> Tame(terms[i])
  }

  lemma {:induction false} PlainIsTame(term: Term)
    ensures Plain(term) ==> Tame(term)
  {
    match term
    case Scope(_, body) => AllPlainIsTame(body);
    case Device(_, body) => AllPlainIsTame(body);
    case Branch(body, other) =>
      AllPlainIsTame(body);
      AllPlainIsTame(other);
    case Loop(body) => AllPlainIsTame(body);
    case _ =>
  }

  lemma {:induction false} AllPlainIsTame(terms: seq<Term>)
    ensures AllPlain(terms) ==> AllTame(terms)
  {
    forall i | 0 <= i < |terms| ensures Plain(terms[i]) ==> Tame(terms[i]) {
      PlainIsTame(terms[i]);
    }
  }

  // ------------------------------------------------------------------ the nodes

  predicate Is(nodes: seq<Node>, i: nat, parent: nat, name: Name) {
    i < |nodes| && nodes[i].parent == Some(parent) && nodes[i].name == name
  }

  /** The root comes first and alone has no parent; no two nodes share a parent and a name. */
  ghost predicate NamesOk(nodes: seq<Node>) {
    && 1 <= |nodes| <= MAX_NODES
    && (forall i :: 0 <= i < |nodes| ==> (nodes[i].parent.None? <==> i == ROOT))
    && (forall i, j :: 0 <= i < j < |nodes| ==> nodes[i].parent != nodes[j].parent || nodes[i].name != nodes[j].name)
  }

  /** Every parent has a lower index than its child. */
  ghost predicate Ordered(nodes: seq<Node>) {
    forall i :: 0 <= i < |nodes| && nodes[i].parent.Some? ==> nodes[i].parent.value < i
  }

  /** Every alias names a node with a lower index than its own. */
  ghost predicate AliasesDown(nodes: seq<Node>) {
    forall i :: 0 <= i < |nodes| && nodes[i].kind.Alias? ==> nodes[i].kind.target < i
  }

  /** No method makes an alias. */
  ghost predicate PlainNodes(nodes: seq<Node>) {
    forall i :: 0 <= i < |nodes| && nodes[i].kind.Method? ==> AllPlain(nodes[i].kind.body)
  }

  /** Every alias names a node there is. */
  ghost predicate AliasesLive(nodes: seq<Node>) {
    forall i :: 0 <= i < |nodes| && nodes[i].kind.Alias? ==> nodes[i].kind.target < |nodes|
  }

  /** No alias dangles, and no method can leave one that does. */
  ghost predicate Tidy(nodes: seq<Node>) {
    PlainNodes(nodes) && AliasesLive(nodes)
  }

  /** Every alias in `now` was that alias in `was`. */
  ghost predicate NoNewAlias(was: seq<Node>, now: seq<Node>) {
    forall i :: 0 <= i < |now| && now[i].kind.Alias? ==> i < |was| && was[i].kind == now[i].kind
  }

  /** The nodes of `a` have kept their names and parents, and more may follow. */
  ghost predicate SameNames(a: seq<Node>, b: seq<Node>) {
    |a| <= |b| && forall i :: 0 <= i < |a| ==> a[i].name == b[i].name && a[i].parent == b[i].parent
  }

  /** The parent of a node; a slot past the live nodes is free and has none. */
  function Parent(nodes: seq<Node>, i: nat): Option<nat> {
    if i < |nodes| then nodes[i].parent else None
  }

  /** The scope `k` levels out. */
  function Up(nodes: seq<Node>, scope: nat, k: nat): Option<nat>
    decreases k
  {
    if k == 0 then Some(scope)
    else
      match Parent(nodes, scope)
      case Some(p) => Up(nodes, p, k - 1)
      case None => None
  }

  /** The scope `k` levels out, or the root. */
  function Climb(nodes: seq<Node>, scope: nat, k: nat): nat
    decreases k
  {
    if k == 0 then scope
    else
      match Parent(nodes, scope)
      case Some(p) => Climb(nodes, p, k - 1)
      case None => Climb(nodes, ROOT, k - 1)
  }

  /** The first child of `parent` with that name, from node `i` on. */
  function Kid(nodes: seq<Node>, parent: nat, name: Name, i: nat): (r: Option<nat>)
    requires i <= |nodes|
    ensures r.Some? ==> i <= r.value && Is(nodes, r.value, parent, name)
    ensures r.None? ==> forall j :: i <= j ==> !Is(nodes, j, parent, name)
    decreases |nodes| - i
  {
    if i == |nodes| then None
    else if Is(nodes, i, parent, name) then Some(i)
    else Kid(nodes, parent, name, i + 1)
  }

  /** Where an alias leads in so many steps. */
  function Deref(nodes: seq<Node>, node: nat, steps: nat): nat
    decreases steps
  {
    if steps == 0 || node >= |nodes| || !nodes[node].kind.Alias? then node
    else Deref(nodes, nodes[node].kind.target, steps - 1)
  }

  /** The node reached by going down name by name, through aliases or not. */
  function Down(nodes: seq<Node>, start: nat, names: seq<Name>, deref: bool): Option<nat>
    decreases |names|
  {
    if names == [] then Some(start)
    else
      match Kid(nodes, if deref then Deref(nodes, start, 8) else start, names[0], 0)
      case None => None
      case Some(next) => Down(nodes, next, names[1..], deref)
  }

  /** The node a path starts from. */
  function Start(nodes: seq<Node>, scope: nat, path: Path): nat {
    if path.root then ROOT else Climb(nodes, scope, path.up)
  }

  /** A bare name sought in the scope and in those around it. */
  function Sought(nodes: seq<Node>, scope: nat, name: Name): Option<nat>
    requires Ordered(nodes)
    decreases scope
  {
    var kid := Kid(nodes, scope, name, 0);
    if kid.Some? || Parent(nodes, scope).None? then kid
    else Sought(nodes, Parent(nodes, scope).value, name)
  }

  /** What a path means in an expression. */
  function Meant(nodes: seq<Node>, scope: nat, path: Path): Option<nat>
    requires Ordered(nodes)
  {
    if path.segments == [] then Some(Start(nodes, scope, path))
    else
      var first := if path.root || path.up > 0
                   then Kid(nodes, Start(nodes, scope, path), path.segments[0], 0)
                   else Sought(nodes, scope, path.segments[0]);
      if first.None? then None
      else
        match Down(nodes, first.value, path.segments[1..], true)
        case None => None
        case Some(last) => Some(Deref(nodes, last, 8))
  }

  /** The scope a path opens: the one it leads to, or what it means; none if it is to be created. */
  function Opened(nodes: seq<Node>, scope: nat, path: Path): Option<nat>
    requires Ordered(nodes)
  {
    var exact := Down(nodes, Start(nodes, scope, path), path.segments, false);
    if exact.Some? then exact else Meant(nodes, scope, path)
  }

  /** Where a name is found: as a child of the nearest enclosing scope that has one. */
  ghost predicate Nearest(nodes: seq<Node>, scope: nat, name: Name, k: nat, found: nat) {
    && Up(nodes, scope, k).Some?
    && Is(nodes, found, Up(nodes, scope, k).value, name)
    && forall j: nat, i: nat :: j < k && Up(nodes, scope, j).Some? ==> !Is(nodes, i, Up(nodes, scope, j).value, name)
  }

  ghost predicate Nowhere(nodes: seq<Node>, scope: nat, name: Name) {
    forall j: nat, i: nat :: Up(nodes, scope, j).Some? ==> !Is(nodes, i, Up(nodes, scope, j).value, name)
  }

  /** What `Add` makes of the nodes: the child given another kind, or a new last node. */
  ghost predicate Added(was: seq<Node>, now: seq<Node>, parent: nat, name: Name, kind: Kind, at: nat) {
    if at < |was| then Is(was, at, parent, name) && now == was[at := was[at].(kind := kind)]
    else
      && at == |was|
      && (forall i :: !Is(was, i, parent, name))
      && now == was + [Node(name, Some(parent), kind)]
  }

  // ------------------------------------------------------------ what a term does

  /** The nodes after a step, how it ended, and the node it was about. */
  datatype Effect = Effect(nodes: seq<Node>, out: Outcome, at: nat)

  /** Going down from `parent` to where the last name belongs; missing scopes are created on the way. */
  function Place(nodes: seq<Node>, parent: nat, names: seq<Name>): Effect
    decreases |names|
  {
    if |names| <= 1 then Effect(nodes, Done, parent)
    else
      match Kid(nodes, parent, names[0], 0)
      case Some(next) => Place(nodes, next, names[1..])
      case None =>
        if |nodes| >= MAX_NODES then Effect(nodes, Failed, parent)
        else
          var more := nodes + [Node(names[0], Some(parent), Object)];
          if parent < |nodes| then Place(more, |nodes|, names[1..]) else Effect(more, Lost, parent)
  }

  /** An object under a path: the one there is given another kind, or a new last one. */
  function Put(nodes: seq<Node>, scope: nat, path: Path, kind: Kind): Effect {
    if path.segments == [] then Effect(nodes, Failed, ROOT)
    else
      var place := Place(nodes, Start(nodes, scope, path), path.segments);
      if place.out != Done then place
      else
        var was, name := place.nodes, path.segments[|path.segments| - 1];
        match Kid(was, place.at, name, 0)
        case Some(at) => Effect(was[at := was[at].(kind := kind)], Done, at)
        case None =>
          if |was| >= MAX_NODES then Effect(was, Failed, ROOT)
          else Effect(was + [Node(name, Some(place.at), kind)], if place.at < |was| then Done else Lost, |was|)
  }

  /** How many calls deeper a run may still go. */
  function Left(depth: nat): nat {
    if depth <= MAX_DEPTH then MAX_DEPTH - depth else 0
  }

  /** How the conditions of a run come out, in the order in which they are asked. */
  type Answers = nat -> bool

  /**
   What a term does in a scope, `depth` calls deep, when the conditions asked
   in it are those from `from` to `to`.
   */
  ghost predicate Does(truth: Answers, was: seq<Node>, scope: nat, term: Term, now: seq<Node>, out: Outcome, depth: nat,
                       from: nat, to: nat)
    requires Ordered(was)
    decreases 2 * Left(depth) + 1, term, 0
  {
    match term
    case Define(path) => var e := Put(was, scope, path, Object); now == e.nodes && out == e.out && to == from
    case DefineMethod(path, body) => var e := Put(was, scope, path, Method(body)); now == e.nodes && out == e.out && to == from
    case MakeAlias(source, path) =>
      to == from &&
      (match Meant(was, scope, source)
       case None => now == was && out == Failed
       case Some(target) => var e := Put(was, scope, path, Alias(target)); now == e.nodes && out == e.out)
    case Scope(path, body) =>
      (match Opened(was, scope, path)
       case Some(node) => Inside(truth, was, node, body, now, out, depth, from, to)
       case None => Within(truth, Put(was, scope, path, Object), body, now, out, depth, from, to))
    case Device(path, body) => Within(truth, Put(was, scope, path, Object), body, now, out, depth, from, to)
    case Call(path) =>
      (match Meant(was, scope, path)
       case None => now == was && out == Failed && to == from
       case Some(node) =>
         if node < |was| && was[node].kind.Method? then Called(truth, was, node, now, out, depth, from, to)
         else now == was && out == Done && to == from)
    case Branch(body, other) =>
      if truth(from) then Block(truth, was, scope, body, now, out, depth, from + 1, to)
      else Block(truth, was, scope, other, now, out, depth, from + 1, to)
    case Loop(body) =>
      exists turns, asks, ends ::
        && Turns(truth, turns, asks, ends, scope, body, out, depth) && turns[0] == was && turns[|ends|] == now
        && asks[0] == from && to == LoopAsked(asks, ends)
    case Break => now == was && out == Broke && to == from
    case Continue => now == was && out == Continued && to == from
    case Return => now == was && out == Returned && to == from
    case Fail => now == was && out == Failed && to == from
  }

  /**
   The nodes before and after each term of a block, up to the first that does
   not simply end, and how many conditions had been asked by then.
   */
  ghost predicate Trail(truth: Answers, trail: seq<seq<Node>>, asks: seq<nat>, scope: nat, terms: seq<Term>, out: Outcome,
                        depth: nat)
    decreases 2 * Left(depth) + 1, terms, 0
  {
    && 1 <= |trail| == |asks| <= |terms| + 1
    && (out == Done ==> |trail| == |terms| + 1)
    && (out != Done ==> |trail| > 1)
    && (forall i :: 0 <= i < |trail| - 1 ==>
          && Ordered(trail[i])
          && Does(truth, trail[i], scope, terms[i], trail[i + 1], if i + 2 < |trail| then Done else out, depth,
                  asks[i], asks[i + 1]))
  }

  /** Some run of a block leads from the one to the other. */
  ghost predicate Block(truth: Answers, was: seq<Node>, scope: nat, terms: seq<Term>, now: seq<Node>, out: Outcome,
                        depth: nat, from: nat, to: nat)
    decreases 2 * Left(depth) + 1, terms, 1
  {
    exists trail, asks ::
      && Trail(truth, trail, asks, scope, terms, out, depth) && trail[0] == was && trail[|trail| - 1] == now
      && asks[0] == from && asks[|trail| - 1] == to
  }

  /** The body of a scope: while a table loads, a failure in it is made good. */
  ghost predicate Inside(truth: Answers, was: seq<Node>, node: nat, body: seq<Term>, now: seq<Node>, out: Outcome,
                         depth: nat, from: nat, to: nat)
    decreases 2 * Left(depth) + 1, body, 2
  {
    if depth == 0 && out == Done
    then
      || Block(truth, was, node, body, now, Done, depth, from, to)
      || Block(truth, was, node, body, now, Failed, depth, from, to)
    else Block(truth, was, node, body, now, out, depth, from, to) && !(depth == 0 && out == Failed)
  }

  /** The body of a scope just made, or nothing if it could not be. */
  ghost predicate Within(truth: Answers, made: Effect, body: seq<Term>, now: seq<Node>, out: Outcome, depth: nat,
                         from: nat, to: nat)
    decreases 2 * Left(depth) + 1, body, 3
  {
    if made.out == Done then Inside(truth, made.nodes, made.at, body, now, out, depth, from, to)
    else now == made.nodes && out == made.out && to == from
  }

  /** A call: the body runs one level deeper, and the nodes it made are gone when it returns. */
  ghost predicate Called(truth: Answers, was: seq<Node>, node: nat, now: seq<Node>, out: Outcome, depth: nat,
                         from: nat, to: nat)
    requires node < |was| && was[node].kind.Method?
    decreases 2 * Left(depth)
  {
    if depth >= MAX_DEPTH then now == was && out == Failed && to == from
    else
      var below := depth + 1;
      exists end, inner ::
        && Block(truth, was, node, was[node].kind.body, end, inner, below, from, to)
        && |was| <= |end| && now == end[..|was|]
        && out == (if inner == Done || inner == Returned then Done else if inner == Lost then Lost else Failed)
  }

  /** A turn that goes on to the next. */
  predicate GoesOn(end: Outcome) {
    end == Done || end == Continued
  }

  /** The turns of a loop, one after the other, each asked for; how each ended, and what that means for the loop. */
  ghost predicate Turns(truth: Answers, turns: seq<seq<Node>>, asks: seq<nat>, ends: seq<Outcome>, scope: nat,
                        body: seq<Term>, out: Outcome, depth: nat)
    decreases 2 * Left(depth) + 1, body, 3
  {
    && |turns| == |asks| == |ends| + 1 <= MAX_LOOPS + 2
    && (forall i :: 0 <= i < |ends| ==> Turn(truth, turns[i], turns[i + 1], asks[i], asks[i + 1], ends[i], scope, body, depth))
    && (forall i :: 0 <= i < |ends| - 1 ==> GoesOn(ends[i]))
    && if ends != [] && !GoesOn(ends[|ends| - 1])
       then out == (if ends[|ends| - 1] == Broke then Done else ends[|ends| - 1])
       else if |ends| > MAX_LOOPS then out == Failed
       else out == Done && !truth(asks[|ends|])
  }

  ghost predicate Turn(truth: Answers, was: seq<Node>, now: seq<Node>, from: nat, to: nat, end: Outcome, scope: nat,
                       body: seq<Term>, depth: nat)
    decreases 2 * Left(depth) + 1, body, 2
  {
    truth(from) && Block(truth, was, scope, body, now, end, depth, from + 1, to)
  }

  /** The condition that ends a loop is asked too. */
  function LoopAsked(asks: seq<nat>, ends: seq<Outcome>): nat
    requires |asks| == |ends| + 1
  {
    if (ends == [] || GoesOn(ends[|ends| - 1])) && |ends| <= MAX_LOOPS then asks[|ends|] + 1 else asks[|ends|]
  }

  lemma AddedKeeps(was: seq<Node>, now: seq<Node>, parent: nat, name: Name, kind: Kind, at: nat)
    requires NamesOk(was) && Added(was, now, parent, name, kind, at) && |now| <= MAX_NODES
    ensures NamesOk(now) && SameNames(was, now) && at < |now| && now[at].kind == kind
    ensures PlainNodes(was) && (kind.Method? ==> AllPlain(kind.body)) ==> PlainNodes(now)
  {
    if at == |was| {
      forall i | 0 <= i < |was| ensures was[i].parent != Some(parent) || was[i].name != name {
        assert !Is(was, i, parent, name);
      }
    }
  }

  /** A node is above its parent exactly when it is not a new one below a free slot. */
  lemma AddedOrder(was: seq<Node>, now: seq<Node>, parent: nat, name: Name, kind: Kind, at: nat)
    requires Ordered(was) && Added(was, now, parent, name, kind, at)
    ensures Ordered(now) <==> at < |was| || parent < |was|
  {
    if at == |was| {
      assert now[at].parent == Some(parent);
    }
  }

  /** Aliases keep pointing down exactly when the new kind is not an alias of the node itself or of a later one. */
  lemma AddedAliases(was: seq<Node>, now: seq<Node>, parent: nat, name: Name, kind: Kind, at: nat)
    requires AliasesDown(was) && Added(was, now, parent, name, kind, at)
    ensures AliasesDown(now) <==> (kind.Alias? ==> kind.target < at)
  {
    assert now[at].kind == kind;
  }

  // -------------------------------------------------------------------- running

  /**
   How a term ends. `Lost` is where the model stops following a run: a node has
   just been created below a free slot, and from then on a search need not end.
   */
  datatype Outcome = Done | Returned | Broke | Continued | Failed | Lost

  /**
   What every piece of a run keeps. `raised` says that a name which existed was
   made an alias of a node no older than itself.
   */
  ghost predicate Ran(was: seq<Node>, now: seq<Node>, scope: nat, out: Outcome, raised: bool) {
    && NamesOk(now)
    && SameNames(was, now)
    && (out != Lost ==> Ordered(now))
    && (AliasesDown(was) && scope < |was| && !raised ==> AliasesDown(now) && out != Lost)
  }

  lemma TrailOn(truth: Answers, trail: seq<seq<Node>>, asks: seq<nat>, scope: nat, terms: seq<Term>, i: nat,
                now: seq<Node>, to: nat, out: Outcome, depth: nat)
    requires i < |terms| && Trail(truth, trail, asks, scope, terms[..i], Done, depth) && Ordered(trail[i])
    requires Does(truth, trail[i], scope, terms[i], now, out, depth, asks[i], to)
    ensures Trail(truth, trail + [now], asks + [to], scope, terms, out, depth) || out == Done
    ensures out == Done ==> Trail(truth, trail + [now], asks + [to], scope, terms[..i + 1], Done, depth)
  {
    hide Does, Ordered;
  }

  /** The trail of a block, however it ended. */
  ghost predicate Traced(truth: Answers, trail: seq<seq<Node>>, asks: seq<nat>, scope: nat, terms: seq<Term>, depth: nat) {
    exists out :: Trail(truth, trail, asks, scope, terms, out, depth)
  }

  lemma TracedBy(truth: Answers, trail: seq<seq<Node>>, asks: seq<nat>, scope: nat, terms: seq<Term>, out: Outcome, depth: nat)
    requires Trail(truth, trail, asks, scope, terms, out, depth)
    ensures Traced(truth, trail, asks, scope, terms, depth)
  {
    hide Trail;
  }

  lemma BlockOf(truth: Answers, trail: seq<seq<Node>>, asks: seq<nat>, scope: nat, terms: seq<Term>, out: Outcome, depth: nat)
    requires Trail(truth, trail, asks, scope, terms, out, depth)
    ensures |trail| == |asks| > 0
    ensures Block(truth, trail[0], scope, terms, trail[|trail| - 1], out, depth, asks[0], asks[|trail| - 1])
  {
    hide Does;
  }

  lemma LoopEnds(truth: Answers, turns: seq<seq<Node>>, asks: seq<nat>, ends: seq<Outcome>, scope: nat, body: seq<Term>,
                 out: Outcome, depth: nat)
    requires Turns(truth, turns, asks, ends, scope, body, out, depth) && Ordered(turns[0])
    ensures Does(truth, turns[0], scope, Loop(body), turns[|ends|], out, depth, asks[0], LoopAsked(asks, ends))
  {
    hide Turn;
  }

  /** The turns of a loop that goes on. */
  ghost predicate Going(truth: Answers, turns: seq<seq<Node>>, asks: seq<nat>, ends: seq<Outcome>, scope: nat,
                        body: seq<Term>, depth: nat)
  {
    && |turns| == |asks| == |ends| + 1
    && (forall i :: 0 <= i < |ends| ==> Turn(truth, turns[i], turns[i + 1], asks[i], asks[i + 1], ends[i], scope, body, depth))
    && (forall i :: 0 <= i < |ends| ==> GoesOn(ends[i]))
  }

  lemma GoesAgain(truth: Answers, turns: seq<seq<Node>>, asks: seq<nat>, ends: seq<Outcome>, now: seq<Node>, to: nat,
                  end: Outcome, scope: nat, body: seq<Term>, depth: nat)
    requires Going(truth, turns, asks, ends, scope, body, depth) && GoesOn(end)
    requires Turn(truth, turns[|ends|], now, asks[|ends|], to, end, scope, body, depth)
    ensures Going(truth, turns + [now], asks + [to], ends + [end], scope, body, depth)
  {
    hide Turn;
  }

  /** A turn that does not go on is the last. */
  lemma LoopLeft(truth: Answers, turns: seq<seq<Node>>, asks: seq<nat>, ends: seq<Outcome>, now: seq<Node>, to: nat,
                 end: Outcome, scope: nat, body: seq<Term>, depth: nat)
    requires Going(truth, turns, asks, ends, scope, body, depth) && !GoesOn(end) && |ends| <= MAX_LOOPS && Ordered(turns[0])
    requires Turn(truth, turns[|ends|], now, asks[|ends|], to, end, scope, body, depth)
    ensures Does(truth, turns[0], scope, Loop(body), now, if end == Broke then Done else end, depth, asks[0], to)
  {
    hide Turn, Does;
    LoopEnds(truth, turns + [now], asks + [to], ends + [end], scope, body, if end == Broke then Done else end, depth);
  }

  /** A loop that goes on ends when its condition does not hold, or after too many turns. */
  lemma LoopOver(truth: Answers, turns: seq<seq<Node>>, asks: seq<nat>, ends: seq<Outcome>, scope: nat, body: seq<Term>,
                 depth: nat)
    requires Going(truth, turns, asks, ends, scope, body, depth) && |ends| <= MAX_LOOPS + 1 && Ordered(turns[0])
    requires |ends| <= MAX_LOOPS ==> !truth(asks[|ends|])
    ensures Does(truth, turns[0], scope, Loop(body), turns[|ends|], if |ends| <= MAX_LOOPS then Done else Failed, depth,
                 asks[0], if |ends| <= MAX_LOOPS then asks[|ends|] + 1 else asks[|ends|])
  {
    hide Turn, Does;
    LoopEnds(truth, turns, asks, ends, scope, body, if |ends| <= MAX_LOOPS then Done else Failed, depth);
  }

  lemma OneTurn(truth: Answers, was: seq<Node>, now: seq<Node>, to: nat, end: Outcome, scope: nat, body: seq<Term>, depth: nat,
                from: nat)
    requires truth(from) && Block(truth, was, scope, body, now, end, depth, from + 1, to)
    ensures Turn(truth, was, now, from, to, end, scope, body, depth)
  {
  }

  lemma NotCalled(truth: Answers, was: seq<Node>, node: nat, depth: nat, from: nat)
    requires node < |was| && was[node].kind.Method? && depth >= MAX_DEPTH
    ensures Called(truth, was, node, was, Failed, depth, from, from)
  {
  }

  lemma CallEnds(truth: Answers, was: seq<Node>, node: nat, end: seq<Node>, inner: Outcome, now: seq<Node>, out: Outcome,
                 depth: nat, from: nat, to: nat)
    requires node < |was| && was[node].kind.Method? && depth < MAX_DEPTH
    requires Block(truth, was, node, was[node].kind.body, end, inner, depth + 1, from, to)
    requires |was| <= |end| && now == end[..|was|]
    requires out == if inner == Done || inner == Returned then Done else if inner == Lost then Lost else Failed
    ensures Called(truth, was, node, now, out, depth, from, to)
  {
    hide Block;
  }

  /** What a piece of a run without aliases, and one with aliases outside methods only, does to the aliases. */
  ghost predicate Keeps(was: seq<Node>, now: seq<Node>, scope: nat, out: Outcome, tame: bool, plain: bool) {
    && |was| <= |now|
    && (plain && PlainNodes(was) ==> PlainNodes(now) && NoNewAlias(was, now))
    && (tame && Tidy(was) && scope < |was| ==> Tidy(now) && out != Lost)
  }

  lemma KeepsOn(a: seq<Node>, b: seq<Node>, c: seq<Node>, scope: nat, out: Outcome, tame: bool, plain: bool)
    requires Keeps(a, b, scope, Done, tame, plain) && Keeps(b, c, scope, out, tame, plain)
    ensures Keeps(a, c, scope, out, tame, plain)
  {
    hide PlainNodes, AliasesLive;
  }

  /** What one term of a block keeps, as far as the block is concerned. */
  lemma KeepsTerm(was: seq<Node>, now: seq<Node>, scope: nat, out: Outcome, terms: seq<Term>, i: nat)
    requires i < |terms| && Keeps(was, now, scope, out, Tame(terms[i]), Plain(terms[i]))
    ensures Keeps(was, now, scope, out, AllTame(terms), AllPlain(terms))
  {
    hide PlainNodes, AliasesLive;
  }

  lemma NoAliasNew(nodes: seq<Node>)
    ensures NoNewAlias(nodes, nodes)
  {
  }

  lemma KeepsLess(was: seq<Node>, now: seq<Node>, scope: nat, out: Outcome, tame: bool, plain: bool, t: bool, p: bool)
    requires Keeps(was, now, scope, out, tame, plain) && (t ==> tame) && (p ==> plain)
    ensures Keeps(was, now, scope, out, t, p)
  {
    hide PlainNodes, AliasesLive;
  }

  /** An alias of what a name means, live when the nodes are tidy and the scope is. */
  lemma KeepsAlias(was: seq<Node>, now: seq<Node>, scope: nat, out: Outcome, live: bool)
    requires Keeps(was, now, scope, out, live, false) && (Tidy(was) && scope < |was| ==> live)
    ensures Keeps(was, now, scope, out, true, false)
  {
    hide PlainNodes, AliasesLive;
  }

  lemma KeepsCall(was: seq<Node>, now: seq<Node>, scope: nat, out: Outcome)
    requires |was| == |now| && (PlainNodes(was) ==> PlainNodes(now) && NoNewAlias(was, now))
    requires Tidy(was) ==> Tidy(now) && out != Lost
    ensures Keeps(was, now, scope, out, true, true)
  {
    hide PlainNodes, AliasesLive;
  }

  /** A body run in another scope, live when the nodes are tidy and this one is. */
  lemma KeepsElsewhere(was: seq<Node>, now: seq<Node>, scope: nat, inner: nat, out: Outcome, tame: bool, plain: bool)
    requires Keeps(was, now, inner, out, tame, plain) && (Tidy(was) && scope < |was| ==> inner < |was|)
    ensures Keeps(was, now, scope, out, tame, plain)
  {
    hide PlainNodes, AliasesLive;
  }

  /** A body run in a scope just created. */
  lemma KeepsInside(a: seq<Node>, b: seq<Node>, c: seq<Node>, scope: nat, inner: nat, out: Outcome, tame: bool, plain: bool)
    requires Keeps(a, b, scope, Done, tame, plain) && Keeps(b, c, inner, out, tame, plain)
    requires scope < |a| ==> inner < |b|
    ensures Keeps(a, c, scope, out, tame, plain)
  {
    hide PlainNodes, AliasesLive;
  }

  lemma KeepsAs(was: seq<Node>, now: seq<Node>, scope: nat, out: Outcome, as': Outcome, tame: bool, plain: bool)
    requires Keeps(was, now, scope, out, tame, plain)
    ensures as' != Lost ==> Keeps(was, now, scope, as', tame, plain)
  {
    hide PlainNodes, AliasesLive;
  }

  lemma KeepsNothing(nodes: seq<Node>, scope: nat)
    ensures forall out, tame, plain | out != Lost :: Keeps(nodes, nodes, scope, out, tame, plain)
  {
  }

  lemma RanOn(a: seq<Node>, b: seq<Node>, c: seq<Node>, scope: nat, out: Outcome, r1: bool, r2: bool)
    requires Ran(a, b, scope, Done, r1) && Ran(b, c, scope, out, r2)
    ensures Ran(a, c, scope, out, r1 || r2)
  {
  }

  lemma RanAdd(was: seq<Node>, now: seq<Node>, scope: nat, parent: nat, name: Name, kind: Kind, at: nat)
    requires NamesOk(was) && Ordered(was) && Added(was, now, parent, name, kind, at) && |now| <= MAX_NODES
    requires parent < |was| || parent == scope
    ensures at < |now| && now[at].kind == kind
    ensures PlainNodes(was) && (kind.Method? ==> AllPlain(kind.body)) ==> PlainNodes(now)
    ensures Ran(was, now, scope, if at < |was| || parent < |was| then Done else Lost, kind.Alias? && kind.target >= at)
  {
    AddedKeeps(was, now, parent, name, kind, at);
    AddedOrder(was, now, parent, name, kind, at);
    if AliasesDown(was) {
      AddedAliases(was, now, parent, name, kind, at);
    }
  }

  // ------------------------------------------------- what is created is found

  lemma {:induction false} KidStays(a: seq<Node>, b: seq<Node>, parent: nat, name: Name, i: nat)
    requires SameNames(a, b) && i <= |a| && Kid(a, parent, name, i).Some?
    ensures Kid(b, parent, name, i) == Kid(a, parent, name, i)
    decreases |a| - i
  {
    if !Is(a, i, parent, name) {
      KidStays(a, b, parent, name, i + 1);
    }
  }

  lemma {:induction false} DownStays(a: seq<Node>, b: seq<Node>, start: nat, names: seq<Name>)
    requires SameNames(a, b) && Down(a, start, names, false).Some?
    ensures Down(b, start, names, false) == Down(a, start, names, false)
    decreases |names|
  {
    if names != [] {
      KidStays(a, b, start, names[0], 0);
      DownStays(a, b, Kid(a, start, names[0], 0).value, names[1..]);
    }
  }

  lemma KidIs(nodes: seq<Node>, parent: nat, name: Name, i: nat)
    requires NamesOk(nodes) && Is(nodes, i, parent, name)
    ensures Kid(nodes, parent, name, 0) == Some(i)
  {
    var r := Kid(nodes, parent, name, 0);
    assert r.Some? && Is(nodes, r.value, parent, name);
  }

  lemma KidAppended(nodes: seq<Node>, node: Node, parent: nat)
    requires NamesOk(nodes) && |nodes| < MAX_NODES && node.parent == Some(parent)
    requires Kid(nodes, parent, node.name, 0).None?
    ensures NamesOk(nodes + [node]) && SameNames(nodes, nodes + [node])
    ensures Kid(nodes + [node], parent, node.name, 0) == Some(|nodes|)
  {
    AddedKeeps(nodes, nodes + [node], parent, node.name, node.kind, |nodes|);
    KidIs(nodes + [node], parent, node.name, |nodes|);
  }

  lemma {:induction false} PlaceFound(nodes: seq<Node>, parent: nat, names: seq<Name>)
    requires NamesOk(nodes) && names != []
    ensures var e := Place(nodes, parent, names);
            && NamesOk(e.nodes) && SameNames(nodes, e.nodes)
            && (e.out == Done ==> Down(e.nodes, parent, names[..|names| - 1], false) == Some(e.at))
    decreases |names|
  {
    hide NamesOk;
    var e := Place(nodes, parent, names);
    if |names| > 1 {
      var rest := names[1..];
      assert names[..|names| - 1][1..] == rest[..|rest| - 1];
      var kid := Kid(nodes, parent, names[0], 0);
      if kid.Some? {
        PlaceFound(nodes, kid.value, rest);
        KidStays(nodes, e.nodes, parent, names[0], 0);
      } else if |nodes| < MAX_NODES {
        KidAppended(nodes, Node(names[0], Some(parent), Object), parent);
        if parent < |nodes| {
          var more := nodes + [Node(names[0], Some(parent), Object)];
          PlaceFound(more, |nodes|, rest);
          KidStays(more, e.nodes, parent, names[0], 0);
        }
      }
    }
  }

  lemma {:induction false} DownLast(nodes: seq<Node>, start: nat, names: seq<Name>)
    requires names != [] && Down(nodes, start, names[..|names| - 1], false).Some?
    ensures Down(nodes, start, names, false) ==
            Kid(nodes, Down(nodes, start, names[..|names| - 1], false).value, names[|names| - 1], 0)
    decreases |names|
  {
    if |names| > 1 {
      var rest := names[1..];
      assert names[..|names| - 1][1..] == rest[..|rest| - 1];
      DownLast(nodes, Kid(nodes, start, names[0], 0).value, rest);
    }
  }

  /** An object created, or given another kind, is the one its path leads to, and no node lost its name or place. */
  lemma PutFound(nodes: seq<Node>, scope: nat, path: Path, kind: Kind)
    requires NamesOk(nodes)
    ensures var e := Put(nodes, scope, path, kind);
            && NamesOk(e.nodes) && SameNames(nodes, e.nodes)
            && (e.out == Done ==>
                  && Down(e.nodes, Start(nodes, scope, path), path.segments, false) == Some(e.at)
                  && e.at < |e.nodes| && e.nodes[e.at].kind == kind)
  {
    if path.segments != [] {
      var start, names := Start(nodes, scope, path), path.segments;
      PlaceFound(nodes, start, names);
      var place := Place(nodes, start, names);
      var name := names[|names| - 1];
      var e := Put(nodes, scope, path, kind);
      if place.out == Done && (Kid(place.nodes, place.at, name, 0).Some? || |place.nodes| < MAX_NODES) {
        AddedKeeps(place.nodes, e.nodes, place.at, name, kind, e.at);
        KidIs(e.nodes, place.at, name, e.at);
        DownStays(place.nodes, e.nodes, start, names[..|names| - 1]);
        DownLast(e.nodes, start, names);
      }
    }
  }

  // ------------------------------------------------------- no dangling aliases

  lemma {:induction false} DerefLive(nodes: seq<Node>, node: nat, steps: nat)
    requires AliasesLive(nodes) && node < |nodes|
    ensures Deref(nodes, node, steps) < |nodes|
    decreases steps
  {
    if steps > 0 && nodes[node].kind.Alias? {
      DerefLive(nodes, nodes[node].kind.target, steps - 1);
    }
  }

  lemma {:induction false} ClimbLive(nodes: seq<Node>, scope: nat, k: nat)
    requires NamesOk(nodes) && Ordered(nodes) && scope < |nodes|
    ensures Climb(nodes, scope, k) < |nodes|
    decreases k
  {
    if k > 0 {
      ClimbLive(nodes, if nodes[scope].parent.Some? then nodes[scope].parent.value else ROOT, k - 1);
    }
  }

  lemma {:induction false} DownLive(nodes: seq<Node>, start: nat, names: seq<Name>, deref: bool)
    requires start < |nodes|
    ensures Down(nodes, start, names, deref).Some? ==> Down(nodes, start, names, deref).value < |nodes|
    decreases |names|
  {
    if names != [] {
      var kid := Kid(nodes, if deref then Deref(nodes, start, 8) else start, names[0], 0);
      if kid.Some? {
        DownLive(nodes, kid.value, names[1..], deref);
      }
    }
  }

  lemma {:induction false} SoughtLive(nodes: seq<Node>, scope: nat, name: Name)
    requires Ordered(nodes)
    ensures Sought(nodes, scope, name).Some? ==> Sought(nodes, scope, name).value < |nodes|
    decreases scope
  {
    if Kid(nodes, scope, name, 0).None? && Parent(nodes, scope).Some? {
      SoughtLive(nodes, Parent(nodes, scope).value, name);
    }
  }

  /** With every alias live, whatever a name means is a live node. */
  lemma MeantLive(nodes: seq<Node>, scope: nat, path: Path)
    requires NamesOk(nodes) && Ordered(nodes) && AliasesLive(nodes) && scope < |nodes|
    ensures Start(nodes, scope, path) < |nodes|
    ensures Meant(nodes, scope, path).Some? ==> Meant(nodes, scope, path).value < |nodes|
    ensures Opened(nodes, scope, path).Some? ==> Opened(nodes, scope, path).value < |nodes|
  {
    hide NamesOk, Ordered, AliasesLive, Climb, Sought, Down, Deref, Kid;
    ClimbLive(nodes, scope, path.up);
    RootLive(nodes);
    var start := Start(nodes, scope, path);
    DownLive(nodes, start, path.segments, false);
    if path.segments != [] {
      SoughtLive(nodes, scope, path.segments[0]);
      var first := if path.root || path.up > 0 then Kid(nodes, start, path.segments[0], 0)
                   else Sought(nodes, scope, path.segments[0]);
      if first.Some? {
        DownLive(nodes, first.value, path.segments[1..], true);
        var last := Down(nodes, first.value, path.segments[1..], true);
        if last.Some? {
          DerefLive(nodes, last.value, 8);
        }
      }
    }
  }

  lemma RootLive(nodes: seq<Node>)
    requires NamesOk(nodes)
    ensures ROOT < |nodes|
  {
  }

  lemma {:induction false} PlaceTidy(nodes: seq<Node>, parent: nat, names: seq<Name>)
    requires parent < |nodes|
    ensures var e := Place(nodes, parent, names);
            && |nodes| <= |e.nodes| && e.at < |e.nodes| && e.out != Lost && NoNewAlias(nodes, e.nodes)
            && (PlainNodes(nodes) ==> PlainNodes(e.nodes)) && (AliasesLive(nodes) ==> AliasesLive(e.nodes))
    decreases |names|
  {
    if |names| > 1 {
      var kid := Kid(nodes, parent, names[0], 0);
      if kid.Some? {
        PlaceTidy(nodes, kid.value, names[1..]);
      } else if |nodes| < MAX_NODES {
        PlaceTidy(nodes + [Node(names[0], Some(parent), Object)], |nodes|, names[1..]);
      }
    }
  }

  lemma SetKindKeeps(nodes: seq<Node>, scope: nat, at: nat, kind: Kind)
    requires at < |nodes|
    ensures var plain := kind.Method? ==> AllPlain(kind.body);
            Keeps(nodes, nodes[at := nodes[at].(kind := kind)], scope, Done,
                  plain && (kind.Alias? ==> kind.target < |nodes|), plain && !kind.Alias?)
  {
  }

  /** Creating a node: what it takes for no alias to dangle, and when there is none more. */
  lemma PutTidy(nodes: seq<Node>, scope: nat, path: Path, kind: Kind)
    requires NamesOk(nodes) && Ordered(nodes)
    ensures var e := Put(nodes, scope, path, kind);
            var plain := kind.Method? ==> AllPlain(kind.body);
            && Keeps(nodes, e.nodes, scope, e.out, plain && (kind.Alias? ==> kind.target < |nodes|), plain && !kind.Alias?)
            && (scope < |nodes| && e.out == Done ==> e.at < |e.nodes|)
  {
    hide NamesOk, Ordered, Climb, Place, Keeps, AllPlain;
    var plain := kind.Method? ==> AllPlain(kind.body);
    var tame := plain && (kind.Alias? ==> kind.target < |nodes|);
    KeepsNothing(nodes, scope);
    if path.segments != [] {
      PlaceKeeps(nodes, scope, path);
      var place := Place(nodes, Start(nodes, scope, path), path.segments);
      KeepsLess(nodes, place.nodes, scope, place.out, true, true, tame, plain && !kind.Alias?);
      if place.out == Done {
        var e, name := Put(nodes, scope, path, kind), path.segments[|path.segments| - 1];
        var kid := Kid(place.nodes, place.at, name, 0);
        KeepsNothing(place.nodes, scope);
        var later := plain && (kind.Alias? ==> kind.target < |place.nodes|);
        if kid.Some? {
          SetKindKeeps(place.nodes, scope, kid.value, kind);
          KeepsLess(place.nodes, e.nodes, scope, Done, later, plain && !kind.Alias?, tame, plain && !kind.Alias?);
        } else if |place.nodes| < MAX_NODES {
          KeepsFrom(nodes, place.nodes, scope, Node(name, Some(place.at), kind), place.at, e.out, tame, plain && !kind.Alias?);
          return;
        }
        KeepsOn(nodes, place.nodes, e.nodes, scope, e.out, tame, plain && !kind.Alias?);
      }
    }
  }

  /** A node appended below a live one, or below the free slot that the scope itself is. */
  lemma KeepsFrom(a: seq<Node>, b: seq<Node>, scope: nat, node: Node, parent: nat, out: Outcome, tame: bool, plain: bool)
    requires Keeps(a, b, scope, Done, tame, plain) && (scope < |a| ==> parent < |b|)
    requires out == if parent < |b| then Done else Lost
    requires tame || plain ==> (node.kind.Method? ==> AllPlain(node.kind.body))
    requires (tame ==> (node.kind.Alias? ==> node.kind.target < |a|)) && (plain ==> !node.kind.Alias?)
    ensures Keeps(a, b + [node], scope, out, tame, plain)
  {
  }

  lemma PlaceKeeps(nodes: seq<Node>, scope: nat, path: Path)
    requires NamesOk(nodes) && Ordered(nodes)
    ensures var e := Place(nodes, Start(nodes, scope, path), path.segments);
            && Keeps(nodes, e.nodes, scope, e.out, true, true) && |nodes| <= |e.nodes|
            && (scope < |nodes| ==> e.at < |e.nodes|)
  {
    hide NamesOk, Ordered, Climb, Place;
    var start := Start(nodes, scope, path);
    if scope < |nodes| {
      ClimbLive(nodes, scope, path.up);
      RootLive(nodes);
      PlaceTidy(nodes, start, path.segments);
    } else {
      PlaceGrows(nodes, start, path.segments);
    }
  }

  lemma {:induction false} PlaceGrows(nodes: seq<Node>, parent: nat, names: seq<Name>)
    ensures var e := Place(nodes, parent, names);
            |nodes| <= |e.nodes| && NoNewAlias(nodes, e.nodes) && (PlainNodes(nodes) ==> PlainNodes(e.nodes))
    decreases |names|
  {
    if |names| > 1 {
      var kid := Kid(nodes, parent, names[0], 0);
      if kid.Some? {
        PlaceGrows(nodes, kid.value, names[1..]);
      } else if |nodes| < MAX_NODES && parent < |nodes| {
        PlaceGrows(nodes + [Node(names[0], Some(parent), Object)], |nodes|, names[1..]);
      }
    }
  }

  /** A method that makes no alias leaves, when it returns, none that dangles. */
  lemma KeepsReturns(was: seq<Node>, now: seq<Node>, node: nat, out: Outcome)
    requires node < |was| && Keeps(was, now, node, out, true, true)
    ensures PlainNodes(was) ==> PlainNodes(now[..|was|]) && NoNewAlias(was, now[..|was|])
    ensures Tidy(was) ==> Tidy(now[..|was|]) && out != Lost
  {
  }

  // -------------------------------------------------------------- the namespace

  class Namespace {
    var nodes: seq<Node>
    var depth: nat
    /** How conditions come out, and how many have been asked. */
    const truth: Answers
    var asked: nat

    constructor (start: seq<Node>, answers: Answers)
      ensures nodes == start && depth == asked == 0 && truth == answers
    {
      nodes, depth, truth, asked := start, 0, answers, 0;
    }

    /** How the next condition comes out. */
    method Ask() returns (taken: bool)
      modifies this`asked
      ensures taken == truth(old(asked)) && asked == old(asked) + 1
    {
      taken := truth(asked);
      asked := asked + 1;
    }

    /** The child of `parent` with that name. */
    method Child(parent: nat, name: Name) returns (r: Option<nat>)
      ensures r == Kid(nodes, parent, name, 0)
    {
      for i := 0 to |nodes|
        invariant Kid(nodes, parent, name, 0) == Kid(nodes, parent, name, i)
      {
        if nodes[i].parent == Some(parent) && nodes[i].name == name {
          return Some(i);
        }
      }
      r := None;
    }

    method Add(parent: nat, name: Name, kind: Kind) returns (r: Option<nat>)
      requires NamesOk(nodes)
      modifies `nodes
      ensures NamesOk(nodes) && SameNames(old(nodes), nodes)
      ensures r.Some? ==> Added(old(nodes), nodes, parent, name, kind, r.value)
      ensures r.None? ==> nodes == old(nodes) && |nodes| == MAX_NODES && forall i :: !Is(nodes, i, parent, name)
    {
      var existing := Child(parent, name);
      if existing.Some? {
        nodes := nodes[existing.value := nodes[existing.value].(kind := kind)];
        AddedKeeps(old(nodes), nodes, parent, name, kind, existing.value);
        return existing;
      }
      if |nodes| == MAX_NODES {
        return None;
      }
      r := Some(|nodes|);
      nodes := nodes + [Node(name, Some(parent), kind)];
      AddedKeeps(old(nodes), nodes, parent, name, kind, r.value);
    }

    method TruncateNodes(mark: nat)
      requires |nodes| >= 1
      modifies `nodes
      ensures nodes == old(nodes)[..if mark == 0 then 1 else if mark <= |old(nodes)| then mark else |old(nodes)|]
    {
      var kept := if mark <= |nodes| then mark else |nodes|;
      nodes := nodes[..if kept >= 1 then kept else 1];
    }

    /** Follows an alias, eight steps at most. */
    method DerefAlias(start: nat) returns (node: nat)
      ensures node == Deref(nodes, start, 8)
      ensures node == start || (start < |nodes| && nodes[start].kind.Alias?)
      ensures start < |nodes| && AliasesDown(nodes) ==> node <= start
    {
      node := start;
      for step := 0 to 8
        invariant Deref(nodes, node, 8 - step) == Deref(nodes, start, 8)
        invariant node == start || (start < |nodes| && nodes[start].kind.Alias?)
        invariant start < |nodes| && AliasesDown(nodes) ==> node <= start
      {
        if node >= |nodes| || !nodes[node].kind.Alias? {
          break;
        }
        node := nodes[node].kind.target;
      }
    }

    /** The node a path starts from; going up stops at the root. */
    method WalkPrefix(scope: nat, path: Path) returns (node: nat)
      requires NamesOk(nodes) && Ordered(nodes)
      ensures node == Start(nodes, scope, path)
      ensures node < |nodes| || node == scope
    {
      node := if path.root then ROOT else scope;
      if !path.root {
        for step := 0 to path.up
          invariant Climb(nodes, node, path.up - step) == Climb(nodes, scope, path.up)
          invariant node < |nodes| || node == scope
        {
          var parent := Parent(nodes, node);
          node := if parent.None? then ROOT else parent.value;
        }
      }
    }

    /** Looks a bare name up in the scope and then in each enclosing one. */
    method Search(scope: nat, name: Name) returns (r: Option<nat>, ghost k: nat)
      requires Ordered(nodes)
      ensures r == Sought(nodes, scope, name)
      ensures r.Some? ==> Nearest(nodes, scope, name, k, r.value)
      ensures r.None? ==> Nowhere(nodes, scope, name)
    {
      var search := scope;
      k := 0;
      while true
        invariant Up(nodes, scope, k) == Some(search)
        invariant Sought(nodes, scope, name) == Sought(nodes, search, name)
        invariant forall j: nat, i: nat :: j < k && Up(nodes, scope, j).Some? ==> !Is(nodes, i, Up(nodes, scope, j).value, name)
        decreases search
      {
        r := Child(search, name);
        if r.Some? {
          return;
        }
        var parent := Parent(nodes, search);
        UpStep(nodes, scope, k);
        if parent.None? {
          UpEnds(nodes, scope, k);
          return;
        }
        search := parent.value;
        k := k + 1;
      }
    }

    /** The child a path leads to, segment by segment, each step through an alias if `deref`. */
    method Descend(start: nat, names: seq<Name>, deref: bool) returns (r: Option<nat>)
      ensures r == Down(nodes, start, names, deref)
      ensures r.Some? && names != [] ==>
                r.value < |nodes| && nodes[r.value].parent.Some? && nodes[r.value].name == names[|names| - 1]
    {
      var node: nat := start;
      for i := 0 to |names|
        invariant Down(nodes, node, names[i..], deref) == Down(nodes, start, names, deref)
        invariant i == 0 ==> node == start
        invariant i > 0 ==> node < |nodes| && nodes[node].parent.Some? && nodes[node].name == names[i - 1]
      {
        var from := node;
        if deref {
          from := DerefAlias(node);
        }
        var next := Child(from, names[i]);
        if next.None? {
          return None;
        }
        node := next.value;
      }
      r := Some(node);
    }

    /** The node a name means in an expression; it is live when no alias points up. */
    method Resolve(scope: nat, path: Path) returns (r: Option<nat>)
      requires NamesOk(nodes) && Ordered(nodes)
      ensures r == Meant(nodes, scope, path)
      ensures r.Some? && AliasesDown(nodes) ==> r.value < |nodes| || r.value == scope
      ensures !path.root && path.up == 0 && |path.segments| == 1 ==>
                if r.None? then Nowhere(nodes, scope, path.segments[0])
                else exists k: nat, i: nat :: Nearest(nodes, scope, path.segments[0], k, i)
                                  && (nodes[i].kind.Alias? || r.value == i)
    {
      var start := WalkPrefix(scope, path);
      if path.segments == [] {
        return Some(start);
      }
      var first;
      ghost var k := 0;
      if !path.root && path.up == 0 {
        first, k := Search(scope, path.segments[0]);
      } else {
        first := Child(start, path.segments[0]);
      }
      if first.None? {
        return None;
      }
      var last := Descend(first.value, path.segments[1..], true);
      if last.None? {
        return None;
      }
      var node := DerefAlias(last.value);
      r := Some(node);
    }

    method ResolveExact(scope: nat, path: Path) returns (r: Option<nat>)
      requires NamesOk(nodes) && Ordered(nodes)
      ensures r == Down(nodes, Start(nodes, scope, path), path.segments, false)
      ensures r.Some? ==> r.value < |nodes| || r.value == scope
    {
      var start := WalkPrefix(scope, path);
      r := Descend(start, path.segments, false);
    }

    /** The scope a new object belongs to, and its name; missing scopes on the way are created. */
    method CreationPoint(scope: nat, path: Path) returns (out: Outcome, parent: nat, name: Name)
      requires NamesOk(nodes) && Ordered(nodes)
      modifies `nodes
      ensures path.segments != [] ==>
                Effect(nodes, out, parent) == Place(old(nodes), Start(old(nodes), scope, path), path.segments)
      ensures path.segments == [] ==> nodes == old(nodes) && out == Failed
      ensures Ran(old(nodes), nodes, scope, out, false)
      ensures out in {Done, Failed, Lost}
      ensures out == Done ==> parent < |nodes| || parent == scope
      ensures out == Done ==> path.segments != [] && name == path.segments[|path.segments| - 1]
      ensures PlainNodes(old(nodes)) ==> PlainNodes(nodes)
    {
      hide NamesOk, Ordered, AliasesDown, SameNames, Added;
      RanNothing(nodes, scope);
      parent, name := ROOT, "";
      if path.segments == [] {
        return Failed, parent, name;
      }
      parent := WalkPrefix(scope, path);
      for i := 0 to |path.segments| - 1
        invariant Place(nodes, parent, path.segments[i..]) == Place(old(nodes), Start(old(nodes), scope, path), path.segments)
        invariant Ran(old(nodes), nodes, scope, Done, false)
        invariant PlainNodes(old(nodes)) ==> PlainNodes(nodes)
        invariant parent < |nodes| || parent == scope
      {
        var found := Child(parent, path.segments[i]);
        if found.None? {
          ghost var was := nodes;
          var live := parent < |nodes|;
          found := Add(parent, path.segments[i], Object);
          if found.None? {
            return Failed, parent, name;
          }
          RanAdd(was, nodes, scope, parent, path.segments[i], Object, found.value);
          out := if live then Done else Lost;
          RanOn(old(nodes), was, nodes, scope, out, false, false);
          if out == Lost {
            return;
          }
        }
        parent := found.value;
      }
      name := path.segments[|path.segments| - 1];
      out := Done;
    }

    method DefineNode(scope: nat, path: Path, kind: Kind) returns (out: Outcome, at: nat, ghost raised: bool)
      requires NamesOk(nodes) && Ordered(nodes)
      modifies `nodes
      ensures Effect(nodes, out, at) == Put(old(nodes), scope, path, kind)
      ensures Ran(old(nodes), nodes, scope, out, raised)
      ensures out in {Done, Failed, Lost}
      ensures raised ==> at < |nodes| && nodes[at].kind == kind && kind.Alias? && kind.target >= at
      ensures out == Done ==>
                && at < |nodes| && nodes[at].kind == kind
                && path.segments != [] && nodes[at].name == path.segments[|path.segments| - 1]
      ensures PlainNodes(old(nodes)) && (kind.Method? ==> AllPlain(kind.body)) ==> PlainNodes(nodes)
    {
      hide NamesOk, Ordered, AliasesDown, SameNames;
      var parent, name;
      at, raised := ROOT, false;
      out, parent, name := CreationPoint(scope, path);
      if out != Done {
        at := if path.segments == [] then ROOT else parent;
        return;
      }
      ghost var was := nodes;
      var count := |nodes|;
      var added := Add(parent, name, kind);
      if added.None? {
        return Failed, ROOT, false;
      }
      at := added.value;
      raised := kind.Alias? && kind.target >= at;
      out := if at < count || parent < count then Done else Lost;
      RanAdd(was, nodes, scope, parent, name, kind, at);
      RanOn(old(nodes), was, nodes, scope, out, false, raised);
    }

    /** Runs terms in a scope, up to the first that does not simply end. */
    method ExecBlock(scope: nat, terms: seq<Term>)
      returns (out: Outcome, ghost raised: bool, ghost trail: seq<seq<Node>>, ghost asks: seq<nat>)
      requires NamesOk(nodes) && Ordered(nodes) && depth <= MAX_DEPTH
      modifies this
      ensures Trail(truth, trail, asks, scope, terms, out, depth) && trail[0] == old(nodes) && trail[|trail| - 1] == nodes
      ensures asks[0] == old(asked) && asks[|trail| - 1] == asked
      ensures Ran(old(nodes), nodes, scope, out, raised) && depth == old(depth)
      ensures PlainNodes(old(nodes)) && AllPlain(terms) ==> PlainNodes(nodes) && !raised
      ensures Keeps(old(nodes), nodes, scope, out, AllTame(terms), AllPlain(terms))
      decreases 2 * (MAX_DEPTH - depth) + 1, terms, 0
    {
      hide NamesOk, AliasesDown, SameNames, Keeps;
      RanNothing(nodes, scope);
      KeepsNothing(nodes, scope);
      out, raised, trail, asks := Done, false, [nodes], [asked];
      for i := 0 to |terms|
        invariant Trail(truth, trail, asks, scope, terms[..i], Done, depth) && trail[0] == old(nodes) && trail[i] == nodes
        invariant asks[0] == old(asked) && asks[i] == asked
        invariant out == Done && Ran(old(nodes), nodes, scope, Done, raised) && depth == old(depth)
        invariant PlainNodes(old(nodes)) && AllPlain(terms) ==> PlainNodes(nodes) && !raised
        invariant Keeps(old(nodes), nodes, scope, Done, AllTame(terms), AllPlain(terms))
      {
        ghost var was, before := nodes, raised;
        ghost var up;
        out, up := ExecTerm(scope, terms[i]);
        KeepsTerm(was, nodes, scope, out, terms, i);
        KeepsOn(old(nodes), was, nodes, scope, out, AllTame(terms), AllPlain(terms));
        RanOn(old(nodes), was, nodes, scope, out, before, up);
        raised := raised || up;
        TrailOn(truth, trail, asks, scope, terms, i, nodes, asked, out, depth);
        trail, asks := trail + [nodes], asks + [asked];
        if out != Done {
          return;
        }
      }
      assert terms[..|terms|] == terms;
    }

    /** Runs the body of a scope. While a table loads, a failure inside costs only that body. */
    method ExecBody(ghost outer: nat, scope: nat, terms: seq<Term>)
      returns (out: Outcome, ghost raised: bool, ghost trail: seq<seq<Node>>, ghost asks: seq<nat>)
      requires NamesOk(nodes) && Ordered(nodes) && depth <= MAX_DEPTH
      requires scope < |nodes| || !AliasesDown(nodes) || outer >= |nodes|
      modifies this
      ensures |trail| > 0 && trail[0] == old(nodes) && trail[|trail| - 1] == nodes
      ensures Inside(truth, old(nodes), scope, terms, nodes, out, depth, old(asked), asked)
      ensures || Trail(truth, trail, asks, scope, terms, out, depth)
              || (depth == 0 && out == Done && Trail(truth, trail, asks, scope, terms, Failed, depth))
      ensures Ran(old(nodes), nodes, outer, out, raised) && depth == old(depth)
      ensures PlainNodes(old(nodes)) && AllPlain(terms) ==> PlainNodes(nodes) && !raised
      ensures Keeps(old(nodes), nodes, scope, out, AllTame(terms), AllPlain(terms))
      decreases 2 * (MAX_DEPTH - depth) + 1, terms, 1
    {
      hide NamesOk, Ordered, SameNames, PlainNodes, AliasesLive, NoNewAlias, Trail, Block;
      out, raised, trail, asks := ExecBlock(scope, terms);
      BlockOf(truth, trail, asks, scope, terms, out, depth);
      if out == Failed && depth == 0 {
        out := Done;
      }
    }

    /** Calls a method: its body runs one level deeper, and the nodes it created are dropped. */
    method CallMethod(node: nat)
      returns (out: Outcome, ghost raised: bool, ghost trail: seq<seq<Node>>, ghost asks: seq<nat>)
      requires NamesOk(nodes) && Ordered(nodes) && depth <= MAX_DEPTH
      modifies this
      ensures if depth < MAX_DEPTH && node < |old(nodes)| && old(nodes)[node].kind.Method?
              then
                && |trail| > 0 && trail[0] == old(nodes)
                && |trail[|trail| - 1]| >= |nodes| && nodes == trail[|trail| - 1][..|nodes|]
                && Traced(truth, trail, asks, node, old(nodes)[node].kind.body, depth + 1)
              else out == Failed && nodes == old(nodes)
      ensures node < |old(nodes)| && old(nodes)[node].kind.Method? ==>
        Called(truth, old(nodes), node, nodes, out, depth, old(asked), asked)
      ensures depth == old(depth) && |nodes| == |old(nodes)|
      ensures out in {Done, Failed, Lost}
      ensures NamesOk(nodes) && Ordered(nodes) && SameNames(old(nodes), nodes)
      ensures AliasesDown(old(nodes)) && !raised ==> AliasesDown(nodes) && out != Lost
      ensures PlainNodes(old(nodes)) ==> PlainNodes(nodes) && !raised && NoNewAlias(old(nodes), nodes)
      ensures Tidy(old(nodes)) ==> Tidy(nodes) && out != Lost
      decreases 2 * (MAX_DEPTH - depth)
    {
      hide NamesOk, Ordered, AliasesDown, SameNames, Keeps, NoNewAlias, AliasesLive, Trail, Traced, Block, Called;
      NoAliasNew(nodes);
      raised, trail, asks := false, [], [];
      RanNothing(nodes, ROOT);
      if depth >= MAX_DEPTH {
        if node < |nodes| && nodes[node].kind.Method? {
          NotCalled(truth, nodes, node, depth, asked);
        }
        return Failed, false, [], [];
      }
      if node >= |nodes| || !nodes[node].kind.Method? {
        return Failed, false, [], [];
      }
      var mark := |nodes|;
      depth := depth + 1;
      AllPlainIsTame(nodes[node].kind.body);
      ghost var plain := AllPlain(nodes[node].kind.body);
      ghost var body := nodes[node].kind.body;
      out, raised, trail, asks := ExecBlock(node, nodes[node].kind.body);
      BlockOf(truth, trail, asks, node, body, out, depth);
      depth := depth - 1;
      ghost var end, inner := nodes, out;
      TracedBy(truth, trail, asks, node, body, inner, depth + 1);
      RanReturns(old(nodes), nodes, node, out, raised);
      if plain {
        KeepsReturns(old(nodes), nodes, node, out);
      }
      TruncateNodes(mark);
      match out {
        case Done | Returned => out := Done;
        case Broke | Continued | Failed => out := Failed;
        case Lost =>
      }
      CallEnds(truth, old(nodes), node, end, inner, nodes, out, depth, old(asked), asked);
    }

    /** Opens a scope that exists, or that an enclosing scope names, or a new one. */
    method ExecScope(scope: nat, path: Path, body: seq<Term>)
      returns (out: Outcome, ghost raised: bool, ghost trail: seq<seq<Node>>, ghost asks: seq<nat>)
      requires NamesOk(nodes) && Ordered(nodes) && depth <= MAX_DEPTH
      modifies this
      ensures var target := Opened(old(nodes), scope, path);
              target.Some? ==>
                && |trail| > 0 && trail[0] == old(nodes) && trail[|trail| - 1] == nodes
                && (Trail(truth, trail, asks, target.value, body, out, depth) ||
                    (depth == 0 && out == Done && Trail(truth, trail, asks, target.value, body, Failed, depth)))
      ensures Does(truth, old(nodes), scope, Scope(path, body), nodes, out, depth, old(asked), asked)
      ensures Ran(old(nodes), nodes, scope, out, raised) && depth == old(depth)
      ensures PlainNodes(old(nodes)) && AllPlain(body) ==> PlainNodes(nodes) && !raised
      ensures Keeps(old(nodes), nodes, scope, out, AllTame(body), AllPlain(body))
      decreases 2 * (MAX_DEPTH - depth) + 1, body, 2
    {
      hide NamesOk, Ordered, AliasesDown, SameNames, Keeps, AliasesLive, PlainNodes, Trail, Put, Meant, Down, Inside;
      if Tidy(nodes) && scope < |nodes| {
        MeantLive(nodes, scope, path);
      }
      var node := ResolveExact(scope, path);
      if node.None? {
        node := Resolve(scope, path);
      }
      if node.Some? {
        out, raised, trail, asks := ExecBody(scope, node.value, body);
        KeepsElsewhere(old(nodes), nodes, scope, node.value, out, AllTame(body), AllPlain(body));
        return;
      }
      var at;
      trail, asks := [], [];
      PutTidy(nodes, scope, path, Object);
      out, at, raised := DefineNode(scope, path, Object);
      KeepsLess(old(nodes), nodes, scope, out, true, true, AllTame(body), AllPlain(body));
      if out == Done {
        ghost var was := nodes;
        out, raised, trail, asks := ExecBody(scope, at, body);
        RanOn(old(nodes), was, nodes, scope, out, false, raised);
        KeepsInside(old(nodes), was, nodes, scope, at, out, AllTame(body), AllPlain(body));
      }
    }

    /** Makes a node, or another kind of the one there is, and runs the body in it. */
    method ExecDevice(scope: nat, path: Path, body: seq<Term>) returns (out: Outcome, ghost raised: bool)
      requires NamesOk(nodes) && Ordered(nodes) && depth <= MAX_DEPTH
      modifies this
      ensures Does(truth, old(nodes), scope, Device(path, body), nodes, out, depth, old(asked), asked)
      ensures Ran(old(nodes), nodes, scope, out, raised) && depth == old(depth)
      ensures PlainNodes(old(nodes)) && AllPlain(body) ==> PlainNodes(nodes) && !raised
      ensures Keeps(old(nodes), nodes, scope, out, AllTame(body), AllPlain(body))
      decreases 2 * (MAX_DEPTH - depth) + 1, body, 2
    {
      hide NamesOk, Ordered, AliasesDown, SameNames, Keeps, PlainNodes, AliasesLive, NoNewAlias, Inside, Trail, Put;
      var at;
      ghost var up, trail, asks;
      raised := false;
      PutTidy(nodes, scope, path, Object);
      out, at, up := DefineNode(scope, path, Object);
      KeepsLess(old(nodes), nodes, scope, out, true, true, AllTame(body), AllPlain(body));
      if out == Done {
        ghost var was := nodes;
        out, raised, trail, asks := ExecBody(scope, at, body);
        RanOn(old(nodes), was, nodes, scope, out, false, raised);
        KeepsInside(old(nodes), was, nodes, scope, at, out, AllTame(body), AllPlain(body));
      }
    }

    /** Calls what a path means, if that is a method. */
    method ExecCall(scope: nat, path: Path) returns (out: Outcome, ghost raised: bool)
      requires NamesOk(nodes) && Ordered(nodes) && depth <= MAX_DEPTH
      modifies this
      ensures Does(truth, old(nodes), scope, Call(path), nodes, out, depth, old(asked), asked)
      ensures Ran(old(nodes), nodes, scope, out, raised) && depth == old(depth)
      ensures PlainNodes(old(nodes)) ==> PlainNodes(nodes) && !raised
      ensures Keeps(old(nodes), nodes, scope, out, true, true)
      decreases 2 * (MAX_DEPTH - depth) + 1, path, 0
    {
      hide NamesOk, Ordered, AliasesDown, SameNames, Keeps, PlainNodes, AliasesLive, NoNewAlias, Called, Trail, Meant;
      raised := false;
      ghost var trail, asks;
      RanNothing(nodes, scope);
      KeepsNothing(nodes, scope);
      var node := Resolve(scope, path);
      if node.None? {
        return Failed, false;
      }
      if node.value < |nodes| && nodes[node.value].kind.Method? {
        out, raised, trail, asks := CallMethod(node.value);
        KeepsCall(old(nodes), nodes, scope, out);
      } else {
        out := Done;
      }
    }

    /** Makes a name mean what another means. */
    method ExecAlias(scope: nat, source: Path, path: Path) returns (out: Outcome, ghost raised: bool)
      requires NamesOk(nodes) && Ordered(nodes) && depth <= MAX_DEPTH
      modifies this
      ensures Does(truth, old(nodes), scope, MakeAlias(source, path), nodes, out, depth, old(asked), asked)
      ensures Ran(old(nodes), nodes, scope, out, raised) && depth == old(depth)
      ensures Keeps(old(nodes), nodes, scope, out, true, false)
    {
      hide NamesOk, Ordered, AliasesDown, SameNames, Keeps, PlainNodes, AliasesLive, NoNewAlias, Put, Meant;
      RanNothing(nodes, scope);
      KeepsNothing(nodes, scope);
      if Tidy(nodes) && scope < |nodes| {
        MeantLive(nodes, scope, source);
      }
      var target := Resolve(scope, source);
      if target.None? {
        return Failed, false;
      }
      var at;
      PutTidy(nodes, scope, path, Alias(target.value));
      out, at, raised := DefineNode(scope, path, Alias(target.value));
      KeepsAlias(old(nodes), nodes, scope, out, target.value < |old(nodes)|);
    }

    /** A loop: any number of turns, up to the limit. */
    method ExecLoop(scope: nat, body: seq<Term>) returns (out: Outcome, ghost raised: bool)
      requires NamesOk(nodes) && Ordered(nodes) && depth <= MAX_DEPTH
      modifies this
      ensures Does(truth, old(nodes), scope, Loop(body), nodes, out, depth, old(asked), asked)
      ensures Ran(old(nodes), nodes, scope, out, raised) && depth == old(depth)
      ensures PlainNodes(old(nodes)) && AllPlain(body) ==> PlainNodes(nodes) && !raised
      ensures Keeps(old(nodes), nodes, scope, out, AllTame(body), AllPlain(body))
      decreases 2 * (MAX_DEPTH - depth) + 1, body, 1
    {
      hide NamesOk, AliasesDown, SameNames, Keeps, Turn, Does, Block, PlainNodes;
      ghost var turns, counts, ends: seq<Outcome> := [nodes], [asked], [];
      RanNothing(nodes, scope);
      KeepsNothing(nodes, scope);
      raised := false;
      var loops := 0;
      while loops <= MAX_LOOPS
        invariant |ends| == loops <= MAX_LOOPS + 1 && Going(truth, turns, counts, ends, scope, body, depth)
        invariant turns[0] == old(nodes) && turns[loops] == nodes && counts[0] == old(asked) && counts[loops] == asked
        invariant Ran(old(nodes), nodes, scope, Done, raised) && depth == old(depth)
        invariant PlainNodes(old(nodes)) && AllPlain(body) ==> PlainNodes(nodes) && !raised
        invariant Keeps(old(nodes), nodes, scope, Done, AllTame(body), AllPlain(body))
      {
        ghost var was, before := nodes, raised;
        var goes := Ask();
        if !goes {
          LoopOver(truth, turns, counts, ends, scope, body, depth);
          return Done, raised;
        }
        ghost var up, trail, asks;
        out, up, trail, asks := ExecBlock(scope, body);
        BlockOf(truth, trail, asks, scope, body, out, depth);
        OneTurn(truth, was, nodes, asked, out, scope, body, depth, counts[loops]);
        raised := raised || up;
        RanOn(old(nodes), was, nodes, scope, out, before, up);
        KeepsOn(old(nodes), was, nodes, scope, out, AllTame(body), AllPlain(body));
        KeepsAs(old(nodes), nodes, scope, out, Done, AllTame(body), AllPlain(body));
        if out in {Returned, Failed, Lost} {
          LoopLeft(truth, turns, counts, ends, nodes, asked, out, scope, body, depth);
          return;
        }
        if out == Broke {
          LoopLeft(truth, turns, counts, ends, nodes, asked, out, scope, body, depth);
          return Done, raised;
        }
        GoesAgain(truth, turns, counts, ends, nodes, asked, out, scope, body, depth);
        turns, counts, ends := turns + [nodes], counts + [asked], ends + [out];
        loops := loops + 1;
      }
      LoopOver(truth, turns, counts, ends, scope, body, depth);
      KeepsAs(old(nodes), nodes, scope, Done, Failed, AllTame(body), AllPlain(body));
      out := Failed;
    }

    /** The condition picks one of the two blocks. */
    method ExecIf(scope: nat, term: Term) returns (out: Outcome, ghost raised: bool)
      requires NamesOk(nodes) && Ordered(nodes) && depth <= MAX_DEPTH && term.Branch?
      modifies this
      ensures Does(truth, old(nodes), scope, term, nodes, out, depth, old(asked), asked)
      ensures Ran(old(nodes), nodes, scope, out, raised) && depth == old(depth)
      ensures PlainNodes(old(nodes)) && Plain(term) ==> PlainNodes(nodes) && !raised
      ensures Keeps(old(nodes), nodes, scope, out, Tame(term), Plain(term))
      decreases 2 * (MAX_DEPTH - depth) + 1, term, 0
    {
      hide NamesOk, Ordered, AliasesDown, SameNames, Keeps, PlainNodes, Trail, Block;
      var taken := Ask();
      var body := if taken then term.body else term.other;
      ghost var trail, asks;
      out, raised, trail, asks := ExecBlock(scope, body);
      BlockOf(truth, trail, asks, scope, body, out, depth);
      KeepsLess(old(nodes), nodes, scope, out, AllTame(body), AllPlain(body), Tame(term), Plain(term));
    }

    method ExecTerm(scope: nat, term: Term) returns (out: Outcome, ghost raised: bool)
      requires NamesOk(nodes) && Ordered(nodes) && depth <= MAX_DEPTH
      modifies this
      ensures Does(truth, old(nodes), scope, term, nodes, out, depth, old(asked), asked)
      ensures Ran(old(nodes), nodes, scope, out, raised) && depth == old(depth)
      ensures PlainNodes(old(nodes)) && Plain(term) ==> PlainNodes(nodes) && !raised
      ensures Keeps(old(nodes), nodes, scope, out, Tame(term), Plain(term))
      decreases 2 * (MAX_DEPTH - depth) + 1, term, 1
    {
      hide NamesOk, Ordered, AliasesDown, SameNames, Keeps, PlainNodes, AliasesLive, NoNewAlias, Trail, Put, Meant,
        Opened, Block, Inside, Called, Turns, Ran;
      raised := false;
      RanNothing(nodes, scope);
      KeepsNothing(nodes, scope);
      ghost var tame, plain := Tame(term), Plain(term);
      ghost var trail, asks;
      match term
      case Break => out := Broke;
      case Continue => out := Continued;
      case Return => out := Returned;
      case Fail => out := Failed;
      case Define(path) =>
        var at;
        PutTidy(nodes, scope, path, Object);
        out, at, raised := DefineNode(scope, path, Object);
        KeepsLess(old(nodes), nodes, scope, out, true, true, tame, plain);
      case DefineMethod(path, body) =>
        var at;
        PutTidy(nodes, scope, path, Method(body));
        out, at, raised := DefineNode(scope, path, Method(body));
        KeepsLess(old(nodes), nodes, scope, out, AllPlain(body), AllPlain(body), tame, plain);
      case MakeAlias(source, path) =>
        out, raised := ExecAlias(scope, source, path);
      case Scope(path, body) =>
        out, raised, trail, asks := ExecScope(scope, path, body);
        KeepsLess(old(nodes), nodes, scope, out, AllTame(body), AllPlain(body), tame, plain);
      case Device(path, body) =>
        out, raised := ExecDevice(scope, path, body);
        KeepsLess(old(nodes), nodes, scope, out, AllTame(body), AllPlain(body), tame, plain);
      case Call(path) =>
        out, raised := ExecCall(scope, path);
      case Branch(body, other) =>
        out, raised := ExecIf(scope, term);
      case Loop(body) =>
        out, raised := ExecLoop(scope, body);
        KeepsLess(old(nodes), nodes, scope, out, AllTame(body), AllPlain(body), tame, plain);
    }
  }

  lemma {:induction false} OwnParent(nodes: seq<Node>, i: nat, k: nat)
    requires Parent(nodes, i) == Some(i)
    ensures Up(nodes, i, k) == Some(i)
    decreases k
  {
    if k > 0 {
      OwnParent(nodes, i, k - 1);
    }
  }

  function Bare(name: Name): Path {
    Path(false, 0, [name])
  }

  function FromRoot(name: Name): Path {
    Path(true, 0, [name])
  }

  /** A root with an object, a scope, and a method that creates `TTTT` and makes the object an alias of it. */
  function BeforeCall(): seq<Node> {
    [Node("ROOT", None, Object), Node("AAAA", Some(ROOT), Object),
     Node("MMMM", Some(ROOT), Method([Define(FromRoot("TTTT")), MakeAlias(FromRoot("TTTT"), FromRoot("AAAA"))])),
     Node("SSSS", Some(ROOT), Object)]
  }

  /** What is left of that after the call. */
  function AfterCall(): seq<Node> {
    BeforeCall()[1 := Node("AAAA", Some(ROOT), Alias(4))]
  }

  lemma BeforeCallOk()
    ensures NamesOk(BeforeCall()) && Ordered(BeforeCall()) && AliasesDown(BeforeCall())
    ensures NamesOk(AfterCall()) && Ordered(AfterCall())
  {
    assert "AAAA"[0] == 'A' && "MMMM"[0] == 'M' && "SSSS"[0] == 'S';
  }

  /** What the method's body does. */
  lemma BodyDoes()
    ensures var mid := BeforeCall() + [Node("TTTT", Some(ROOT), Object)];
            && Ordered(BeforeCall()) && Ordered(mid)
            && Put(BeforeCall(), 2, FromRoot("TTTT"), Object) == Effect(mid, Done, 4)
            && Meant(mid, 2, FromRoot("TTTT")) == Some(4)
            && Put(mid, 2, FromRoot("AAAA"), Alias(4)) == Effect(AfterCall() + [mid[4]], Done, 1)
  {
    BeforeCallOk();
    var was := BeforeCall();
    var mid := was + [Node("TTTT", Some(ROOT), Object)];
    assert "AAAA"[0] == 'A' && "MMMM"[0] == 'M' && "SSSS"[0] == 'S' && "TTTT"[0] == 'T';
    assert Kid(was, ROOT, "TTTT", 0) == None;
    KidIs(mid, ROOT, "TTTT", 4);
    KidIs(mid, ROOT, "AAAA", 1);
  }

  lemma CallTrail(truth: Answers, trail: seq<seq<Node>>, asks: seq<nat>, out: Outcome)
    requires Trail(truth, trail, asks, 2, BeforeCall()[2].kind.body, out, 1) && trail[0] == BeforeCall()
    ensures |trail| == 3 && trail[2] == AfterCall() + [Node("TTTT", Some(ROOT), Object)]
  {
    hide Put, Meant, Ordered;
    BodyDoes();
    var body := BeforeCall()[2].kind.body;
    assert Does(truth, trail[0], 2, body[0], trail[1], if |trail| > 2 then Done else out, 1, asks[0], asks[1]);
    assert |trail| > 2;
    assert Does(truth, trail[1], 2, body[1], trail[2], out, 1, asks[1], asks[2]);
  }

  lemma ScopeTrail(truth: Answers, trail: seq<seq<Node>>, asks: seq<nat>, out: Outcome)
    requires Trail(truth, trail, asks, 4, [Define(Bare("YYYY"))], out, 0) && trail[0] == AfterCall()
    ensures |trail| == 2 && trail[1] == AfterCall() + [Node("YYYY", Some(4), Object)] && out == Lost
  {
    hide Put, Ordered;
    AliasOpens();
    assert Does(truth, trail[0], 4, [Define(Bare("YYYY"))][0], trail[1], out, 0, asks[0], asks[1]);
  }

  /** From the second scope the alias is found, and leads to the slot that is free again. */
  lemma AliasOpens()
    ensures Ordered(AfterCall()) && Opened(AfterCall(), 3, Bare("AAAA")) == Some(4)
    ensures var e := Put(AfterCall(), 4, Bare("YYYY"), Object);
            e.out == Lost && e.nodes == AfterCall() + [Node("YYYY", Some(4), Object)]
  {
    BeforeCallOk();
    var was := AfterCall();
    assert Kid(was, 3, "AAAA", 0) == None;
    KidIs(was, ROOT, "AAAA", 1);
    assert Kid(was, 4, "YYYY", 0) == None;
  }

  /**
   An order that is lost in a run. The method is called and returns; `AAAA` is
   then opened from within the second scope; the node created in it is its own
   parent, and a search from it never ends.
   */
  method AliasOutlives(truth: Answers) returns (ns: Namespace, out: Outcome)
    ensures out == Lost && ns.nodes == AfterCall() + [Node("YYYY", Some(4), Object)]
    ensures NamesOk(ns.nodes) && !Ordered(ns.nodes) && forall k: nat :: Up(ns.nodes, 4, k) == Some(4)
  {
    hide NamesOk, AliasesDown, SameNames, Opened, Trail, PlainNodes, Does, Called, Keeps, AliasesLive, NoNewAlias;
    BeforeCallOk();
    ns := new Namespace(BeforeCall(), truth);
    ghost var raised, trail, asks;
    out, raised, trail, asks := ns.CallMethod(2);
    ghost var inner :| Trail(truth, trail, asks, 2, BeforeCall()[2].kind.body, inner, 1);
    CallTrail(truth, trail, asks, inner);
    assert ns.nodes == AfterCall();
    AliasOpens();
    out, raised, trail, asks := ns.ExecScope(3, Bare("AAAA"), [Define(Bare("YYYY"))]);
    ScopeTrail(truth, trail, asks, if Trail(truth, trail, asks, 4, [Define(Bare("YYYY"))], out, 0) then out else Failed);
    assert ns.nodes[4].parent == Some(4);
    forall k: nat ensures Up(ns.nodes, 4, k) == Some(4) {
      OwnParent(ns.nodes, 4, k);
    }
  }

  /** Dropping the nodes a method created gives back the names and parents there were. */
  lemma RanReturns(was: seq<Node>, now: seq<Node>, node: nat, out: Outcome, raised: bool)
    requires NamesOk(was) && Ordered(was) && node < |was| && Ran(was, now, node, out, raised)
    ensures 1 <= |was| <= |now|
    ensures var kept := now[..|was|];
            && NamesOk(kept) && Ordered(kept) && SameNames(was, kept)
            && (AliasesDown(was) && !raised ==> AliasesDown(kept))
            && (PlainNodes(now) ==> PlainNodes(kept))
  {
  }

  lemma RanNothing(nodes: seq<Node>, scope: nat)
    requires NamesOk(nodes) && Ordered(nodes)
    ensures SameNames(nodes, nodes)
    ensures forall out | out != Lost :: Ran(nodes, nodes, scope, out, false)
  {
  }

  lemma {:induction false} UpStep(nodes: seq<Node>, scope: nat, k: nat)
    requires Up(nodes, scope, k).Some?
    ensures Up(nodes, scope, k + 1) == Parent(nodes, Up(nodes, scope, k).value)
    decreases k
  {
    if k > 0 {
      UpStep(nodes, Parent(nodes, scope).value, k - 1);
    }
  }

  lemma {:induction false} UpEnds(nodes: seq<Node>, scope: nat, k: nat)
    requires Up(nodes, scope, k).Some? && Parent(nodes, Up(nodes, scope, k).value).None?
    ensures forall j :: j > k ==> Up(nodes, scope, j).None?
    decreases k
  {
    if k > 0 {
      UpEnds(nodes, Parent(nodes, scope).value, k - 1);
      forall j | j > k ensures Up(nodes, scope, j).None? {
        assert Up(nodes, scope, j) == Up(nodes, Parent(nodes, scope).value, j - 1);
      }
    }
  }
}
