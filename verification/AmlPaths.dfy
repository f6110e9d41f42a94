/**
 What paths, aliases and definitions of the AML namespace mean, as relations
 between nodes; and that the functions the interpreter is proved against agree.
 */
module AmlPaths {
  import opened Options
  import opened AmlNamespace

  // ------------------------------------------------------------------ aliases

  /** Each node but the last is an alias of the next; the last is none, or the ninth. */
  ghost predicate Leads(nodes: seq<Node>, chain: seq<nat>, steps: nat) {
    && 1 <= |chain| <= steps + 1
    && (forall i :: 0 <= i < |chain| - 1 ==> chain[i] < |nodes| && nodes[chain[i]].kind == Alias(chain[i + 1]))
    && var last := chain[|chain| - 1]; |chain| == steps + 1 || last >= |nodes| || !nodes[last].kind.Alias?
  }

  lemma {:induction false} DerefLeads(nodes: seq<Node>, node: nat, steps: nat) returns (chain: seq<nat>)
    ensures Leads(nodes, chain, steps) && chain[0] == node && chain[|chain| - 1] == Deref(nodes, node, steps)
    decreases steps
  {
    if steps == 0 || node >= |nodes| || !nodes[node].kind.Alias? {
      chain := [node];
    } else {
      var rest := DerefLeads(nodes, nodes[node].kind.target, steps - 1);
      chain := [node] + rest;
      assert chain[|chain| - 1] == rest[|rest| - 1];
    }
  }

  /** Every such chain ends where dereferencing does. */
  lemma {:induction false} DerefIs(nodes: seq<Node>, chain: seq<nat>, steps: nat)
    requires Leads(nodes, chain, steps)
    ensures chain[|chain| - 1] == Deref(nodes, chain[0], steps)
    decreases steps
  {
    if |chain| > 1 {
      var rest := chain[1..];
      assert forall i :: 0 <= i < |rest| ==> rest[i] == chain[i + 1];
      DerefIs(nodes, rest, steps - 1);
    }
  }

  // -------------------------------------------------------------------- paths

  /** From the root, or so many scopes out, and no further than the root. */
  lemma StartIs(nodes: seq<Node>, scope: nat, path: Path)
    requires NamesOk(nodes)
    ensures Start(nodes, scope, path) ==
      if path.root then 0 else if Up(nodes, scope, path.up).Some? then Up(nodes, scope, path.up).value else 0
  {
    hide NamesOk;
    ClimbIs(nodes, scope, path.up);
  }

  lemma {:induction false} ClimbIs(nodes: seq<Node>, scope: nat, k: nat)
    requires NamesOk(nodes)
    ensures Climb(nodes, scope, k) == if Up(nodes, scope, k).Some? then Up(nodes, scope, k).value else ROOT
    decreases k
  {
    if k > 0 {
      var p := Parent(nodes, scope);
      ClimbIs(nodes, if p.Some? then p.value else ROOT, k - 1);
    }
  }

  /** Each node visited is the child, by the next name, of the one before, or of what that is an alias of. */
  ghost predicate Visits(nodes: seq<Node>, names: seq<Name>, visited: seq<nat>, through: bool) {
    && |visited| == |names| + 1
    && forall i :: 0 <= i < |names| ==>
         Is(nodes, visited[i + 1], if through then Deref(nodes, visited[i], 8) else visited[i], names[i])
  }

  lemma {:induction false} DownVisits(nodes: seq<Node>, start: nat, names: seq<Name>, through: bool) returns (visited: seq<nat>)
    requires Down(nodes, start, names, through).Some?
    ensures Visits(nodes, names, visited, through)
    ensures visited[0] == start && Down(nodes, start, names, through) == Some(visited[|names|])
    decreases |names|
  {
    hide Deref;
    if names == [] {
      visited := [start];
    } else {
      var from := if through then Deref(nodes, start, 8) else start;
      var next := Kid(nodes, from, names[0], 0).value;
      var rest := DownVisits(nodes, next, names[1..], through);
      visited := [start] + rest;
      assert visited[|names|] == rest[|names| - 1];
    }
  }

  /** Going down by names: there is at most one way, and it is the one taken. */
  lemma {:induction false} DownIs(nodes: seq<Node>, names: seq<Name>, visited: seq<nat>, through: bool)
    requires NamesOk(nodes) && Visits(nodes, names, visited, through)
    ensures Down(nodes, visited[0], names, through) == Some(visited[|names|])
    decreases |names|
  {
    hide Deref, NamesOk, Is, Kid;
    if names != [] {
      var from := if through then Deref(nodes, visited[0], 8) else visited[0];
      KidIs(nodes, from, names[0], visited[1]);
      var rest := visited[1..];
      assert forall i :: 0 <= i < |rest| ==> rest[i] == visited[i + 1];
      DownIs(nodes, names[1..], rest, through);
    }
  }

  /** A bare name is found at the nearest enclosing scope that has it. */
  lemma {:induction false} SoughtNearest(nodes: seq<Node>, scope: nat, name: Name) returns (k: nat)
    requires Ordered(nodes) && Sought(nodes, scope, name).Some?
    ensures Nearest(nodes, scope, name, k, Sought(nodes, scope, name).value)
    decreases scope
  {
    k := 0;
    if Kid(nodes, scope, name, 0).None? {
      var p := Parent(nodes, scope).value;
      var n := SoughtNearest(nodes, p, name);
      k := n + 1;
      forall j: nat, i: nat | j < k && Up(nodes, scope, j).Some? ensures !Is(nodes, i, Up(nodes, scope, j).value, name) {
        if j > 0 {
          assert Up(nodes, scope, j) == Up(nodes, p, j - 1);
        }
      }
      assert Up(nodes, scope, k) == Up(nodes, p, n);
    }
  }

  lemma {:induction false} SoughtIs(nodes: seq<Node>, scope: nat, name: Name, k: nat, found: nat)
    requires NamesOk(nodes) && Ordered(nodes) && Nearest(nodes, scope, name, k, found)
    ensures Sought(nodes, scope, name) == Some(found)
    decreases k
  {
    if k == 0 {
      KidIs(nodes, scope, name, found);
    } else {
      var p := Parent(nodes, scope).value;
      var kid := Kid(nodes, scope, name, 0);
      assert Up(nodes, scope, 0) == Some(scope);
      assert kid.None?;
      forall j: nat, i: nat | j < k - 1 && Up(nodes, p, j).Some? ensures !Is(nodes, i, Up(nodes, p, j).value, name) {
        assert Up(nodes, scope, j + 1) == Up(nodes, p, j);
      }
      SoughtIs(nodes, p, name, k - 1, found);
    }
  }

  /** The first node of a path: a child of where the path starts, or the nearest of that name. */
  ghost predicate Begins(nodes: seq<Node>, scope: nat, path: Path, first: nat)
    requires path.segments != []
  {
    if path.root || path.up > 0 then Is(nodes, first, Start(nodes, scope, path), path.segments[0])
    else exists k: nat :: Nearest(nodes, scope, path.segments[0], k, first)
  }

  /** What a path means: its first node, then down by names through aliases, and through one at the end. */
  ghost predicate Means(nodes: seq<Node>, scope: nat, path: Path, visited: seq<nat>, target: nat)
    requires path.segments != []
  {
    && Visits(nodes, path.segments[1..], visited, true)
    && Begins(nodes, scope, path, visited[0]) && target == Deref(nodes, visited[|visited| - 1], 8)
  }

  /** A path means a node exactly when there is such a way to it. */
  lemma MeantIs(nodes: seq<Node>, scope: nat, path: Path, target: nat)
    requires NamesOk(nodes) && Ordered(nodes) && path.segments != []
    ensures Meant(nodes, scope, path) == Some(target) <==> exists visited :: Means(nodes, scope, path, visited, target)
  {
    hide NamesOk, Ordered, Deref, Kid, Is, Sought, Start, Down, Nearest, Visits;
    var name, rest := path.segments[0], path.segments[1..];
    if Meant(nodes, scope, path) == Some(target) {
      var first;
      if path.root || path.up > 0 {
        first := Kid(nodes, Start(nodes, scope, path), name, 0).value;
      } else {
        first := Sought(nodes, scope, name).value;
        var k := SoughtNearest(nodes, scope, name);
      }
      var visited := DownVisits(nodes, first, rest, true);
      VisitsMany(nodes, rest, visited);
      assert Means(nodes, scope, path, visited, target);
    }
    if visited :| Means(nodes, scope, path, visited, target) {
      VisitsMany(nodes, rest, visited);
      var first := visited[0];
      if path.root || path.up > 0 {
        KidIs(nodes, Start(nodes, scope, path), name, first);
      } else {
        var k: nat :| Nearest(nodes, scope, name, k, first);
        SoughtIs(nodes, scope, name, k, first);
      }
      DownIs(nodes, rest, visited, true);
    }
  }

  lemma VisitsMany(nodes: seq<Node>, names: seq<Name>, visited: seq<nat>)
    requires Visits(nodes, names, visited, true)
    ensures |visited| == |names| + 1
  {
  }

  // -------------------------------------------------------------- definitions

  lemma {:induction false} PlaceElse(nodes: seq<Node>, parent: nat, names: seq<Name>)
    ensures var e := Place(nodes, parent, names);
            && |nodes| <= |e.nodes| <= |nodes| + |names| && e.nodes[..|nodes|] == nodes
            && forall i :: |nodes| <= i < |e.nodes| ==> e.nodes[i].kind == Object && e.nodes[i].name in names
    decreases |names|
  {
    hide Kid;
    if |names| > 1 {
      var kid := Kid(nodes, parent, names[0], 0);
      if kid.Some? {
        PlaceElse(nodes, kid.value, names[1..]);
      } else if |nodes| < MAX_NODES && parent < |nodes| {
        var more := nodes + [Node(names[0], Some(parent), Object)];
        PlaceElse(more, |nodes|, names[1..]);
        var e := Place(nodes, parent, names);
        assert e.nodes[..|nodes|] == e.nodes[..|more|][..|nodes|];
        forall i | |nodes| <= i < |e.nodes| ensures e.nodes[i].kind == Object && e.nodes[i].name in names {
          if i == |nodes| {
            assert e.nodes[i] == e.nodes[..|more|][i];
          }
        }
      }
    }
  }

  /** Defining a name touches no other node there was, and every node it makes on the way is a plain scope. */
  lemma PutElse(nodes: seq<Node>, scope: nat, path: Path, kind: Kind)
    ensures var e := Put(nodes, scope, path, kind);
            && |nodes| <= |e.nodes| <= |nodes| + |path.segments|
            && (forall i :: 0 <= i < |nodes| && !(e.out == Done && i == e.at) ==> e.nodes[i] == nodes[i])
            && (e.out == Done ==> forall i :: |nodes| <= i < |e.nodes| && i != e.at ==> e.nodes[i].kind == Object)
  {
    hide Kid, Start;
    if path.segments != [] {
      var names := path.segments;
      PlaceElse(nodes, Start(nodes, scope, path), names);
      PlaceFewer(nodes, Start(nodes, scope, path), names);
      var place := Place(nodes, Start(nodes, scope, path), names);
      forall i | 0 <= i < |nodes| ensures place.nodes[i] == nodes[i] {
        assert place.nodes[..|nodes|][i] == nodes[i];
      }
    }
  }

  /** There is one scope fewer than there are names to be made. */
  lemma {:induction false} PlaceFewer(nodes: seq<Node>, parent: nat, names: seq<Name>)
    requires names != []
    ensures |Place(nodes, parent, names).nodes| < |nodes| + |names|
    decreases |names|
  {
    hide Kid;
    if |names| > 1 {
      var kid := Kid(nodes, parent, names[0], 0);
      if kid.Some? {
        PlaceFewer(nodes, kid.value, names[1..]);
      } else if |nodes| < MAX_NODES && parent < |nodes| {
        PlaceFewer(nodes + [Node(names[0], Some(parent), Object)], |nodes|, names[1..]);
      }
    }
  }

  /** A device: its path leads to an object in which the body has run. */
  lemma DeviceMade(truth: Answers, was: seq<Node>, scope: nat, path: Path, body: seq<Term>, now: seq<Node>, out: Outcome,
                   depth: nat, from: nat, to: nat)
    requires NamesOk(was) && Ordered(was) && Does(truth, was, scope, Device(path, body), now, out, depth, from, to)
    requires Put(was, scope, path, Object).out == Done
    ensures exists made: seq<Node>, at: nat ::
      && SameNames(was, made) && Down(made, Start(was, scope, path), path.segments, false) == Some(at)
      && at < |made| && made[at].kind == Object && Inside(truth, made, at, body, now, out, depth, from, to)
  {
    hide NamesOk, Inside, Down, Start, SameNames;
    PutFound(was, scope, path, Object);
  }
}
