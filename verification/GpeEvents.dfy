/**
 General-purpose events: the interrupt handler masks what fired and notes it,
 `Poll` later runs the firmware's handlers and unmasks. Hardware raises events
 at any moment, and interrupts come between any two steps of `Poll`.
 */
module GpeEvents {
  import opened Options

  const WORDS := 4
  const STORM_LIMIT := 4000

  /** One for a true condition. */
  function One(b: bool): nat {
    if b then 1 else 0
  }

  class Gpe {
    /** Events that have a handler, and those whose handler is level-triggered. */
    const handled: set<nat>
    const level: set<nat>
    /** The events of each register byte. */
    const bytes: seq<set<nat>>

    /** The enable and status registers. */
    var enabled: set<nat>
    var status: set<nat>
    /** Fired, waiting for `Poll`. */
    var pending: set<nat>
    /** Taken by `Poll`, not run yet; and the one whose handler runs. */
    var queue: set<nat>
    var running: Option<nat>
    var spurious: nat
    var shutOff: bool

    /** Edges raised since the event's handler last began. */
    ghost var owed: set<nat>
    /** How often each event was masked, and how often its handler began. */
    ghost var masked: map<nat, nat>
    ghost var entered: map<nat, nat>
    /** What hardware raised, and whose handlers began, each in order. */
    ghost var raises: seq<set<nat>>
    ghost var order: seq<nat>
    /** The events in `Poll`'s hands when the line was first shut off, and those enabled again since. */
    ghost var left: set<nat>
    ghost var again: set<nat>
    /** How many interrupts found nothing active. */
    ghost var unhandled: nat

    /** In how many of the places an event can be it is. */
    ghost function Places(e: nat): nat
      reads `enabled, `pending, `queue, `running
    {
      One(e in enabled) + One(e in pending) + One(e in queue) + One(running == Some(e))
    }

    /**
     A handled event is in one place: enabled, pending, queued or running; only
     shutting the line off takes it out of the first. Each masking leads to one
     run of its handler, or will. An edge whose handler has not begun since is
     still on record.
     */
    ghost predicate EventOk(e: nat)
      reads `enabled, `pending, `queue, `running, `shutOff, `status, `owed, `masked, `entered
    {
      && (e in handled ==>
            && Places(e) <= 1 && (!shutOff ==> Places(e) == 1)
            && e < 64 * WORDS && e in masked && e in entered
            && masked[e] == entered[e] + One(e in pending || e in queue))
      && (e !in handled ==> Places(e) == 0 && e !in owed)
      && (e in owed ==> e !in level && (e in status || e in pending || e in queue))
    }

    /** The events in `Poll`'s hands. */
    ghost function InHand(): set<nat>
      reads `pending, `queue, `running
    {
      pending + queue + if running.Some? then {running.value} else {}
    }

    /** Once the line is shut off, no event but those left then is enabled, and each of these is or will be. */
    ghost predicate ShutOk()
      reads `enabled, `pending, `queue, `running, `shutOff, `left, `again
    {
      shutOff ==> enabled <= again && InHand() + again == left
    }

    ghost predicate Valid()
      reads `enabled, `pending, `queue, `running, `shutOff, `status, `owed, `masked, `entered, `left, `again
    {
      (forall e: nat :: EventOk(e)) && ShutOk()
    }

    /** `spurious` counts, in 32 bits, the interrupts that found nothing; the line is off only after a storm of them. */
    ghost predicate Counted()
      reads `spurious, `unhandled, `shutOff
    {
      spurious == unhandled % 0x1_0000_0000 && (shutOff ==> unhandled > 4000)
    }

    /** Everything off and stale status cleared, then the handled events enabled. */
    constructor (events: set<nat>, levels: set<nat>, registers: seq<set<nat>>)
      requires forall e :: e in events ==> e < 64 * WORDS
      ensures Valid() && enabled == handled == events && level == levels && bytes == registers && !shutOff
      ensures status == pending == queue == {} && running == None && raises == [] && order == []
      ensures spurious == unhandled == 0 && Counted()
    {
      handled, level, bytes := events, levels, registers;
      enabled, status, pending, queue, running := events, {}, {}, {}, None;
      spurious, shutOff := 0, false;
      owed := {};
      masked := map e | e in events :: 0;
      entered := map e | e in events :: 0;
      raises, order, left, again, unhandled := [], [], {}, {}, 0;
    }

    /** Hardware sets status bits; for a handled edge event that is an edge to be served. */
    method Raise(events: set<nat>)
      requires Valid()
      modifies this`status, this`owed, this`raises
      ensures Valid() && raises == old(raises) + [events]
      ensures status == old(status) + events
      ensures owed == old(owed) + (events * handled - level)
    {
      status, raises := status + events, raises + [events];
      owed := owed + (events * handled - level);
      forall e: nat ensures EventOk(e) {
        assert old(EventOk(e));
      }
    }

    /** Any events at all may be raised here. */
    method Hardware()
      requires Valid()
      modifies this`status, this`owed, this`raises
      ensures Valid() && old(status) <= status && old(owed) <= owed
      ensures exists events :: raises == old(raises) + [events] && status == old(status) + events
    {
      var events: set<nat> :| true;
      Raise(events);
    }

    /** One register byte: what is enabled and active is masked and noted, and edges are acknowledged. */
    method HandleByte(group: set<nat>) returns (active: set<nat>)
      requires Valid()
      modifies this`enabled, this`status, this`pending, this`owed, this`masked, this`raises
      ensures Valid() && old(owed) <= owed
      ensures active <= group * old(enabled) && enabled == old(enabled) - active && pending == old(pending) + active
      ensures group * old(enabled) * old(status) <= active
      ensures old(status) - (active - level) <= status && status !! active - level
    {
      var on := enabled * group;
      Hardware();
      active := status * on;
      Hardware();
      if active == {} {
        return;
      }
      Mask(active);
      Hardware();
      Acknowledge(active - level);
    }

    /** Takes events from the enable register to the pending words. */
    method Mask(active: set<nat>)
      requires Valid() && active <= enabled
      modifies this`enabled, this`pending, this`masked
      ensures Valid() && enabled == old(enabled) - active && pending == old(pending) + active
      ensures forall e :: e in handled ==> e in masked && e in old(masked) && masked[e] == old(masked)[e] + One(e in active)
    {
      assert forall e :: e in handled ==> EventOk(e);
      enabled := enabled - active;
      pending := pending + active;
      masked := map e | e in handled :: masked[e] + One(e in active);
      forall e: nat ensures EventOk(e) {
        assert old(EventOk(e));
      }
    }

    /** Clears the status of edges that are already pending. */
    method Acknowledge(edges: set<nat>)
      requires Valid() && edges <= pending
      modifies this`status
      ensures Valid() && status == old(status) - edges
    {
      status := status - edges;
      forall e: nat ensures EventOk(e) {
        assert old(EventOk(e));
      }
    }

    /**
     The interrupt handler. `fired` is what it found active: that leaves the
     enable register for the pending words, and nothing else does. The line is
     shut off exactly when nothing was active and that has been so 4000 times.
     */
    method HandleInterrupt() returns (ghost fired: set<nat>)
      requires Valid()
      modifies this`enabled, this`status, this`pending, this`owed, this`masked, this`spurious, this`shutOff,
        this`raises, this`left, this`again, this`unhandled
      ensures Valid() && old(pending) <= pending && old(owed) <= owed
      ensures old(shutOff) ==> shutOff && left == old(left) && again == old(again)
      ensures forall g, e :: g in bytes && e in g && e in old(enabled) && e in old(status) ==> e in fired
      ensures fired <= old(enabled) && pending == old(pending) + fired
      ensures unhandled == old(unhandled) + One(fired == {}) && (old(Counted()) ==> Counted())
      ensures spurious == if fired == {} then (old(spurious) + 1) % 0x1_0000_0000 else old(spurious)
      ensures shutOff && !old(shutOff) <==> !old(shutOff) && fired == {} && old(spurious) >= 4000
      ensures shutOff && !old(shutOff) ==> left == old(InHand()) && again == {}
      ensures enabled == if fired == {} && old(spurious) >= 4000 then {} else old(enabled) - fired
    {
      hide Valid, Gpe.ShutOk;
      var any;
      any, fired := HandleBytes();
      if !any {
        var before := spurious;
        spurious, unhandled := (spurious + 1) % 0x1_0000_0000, unhandled + 1;
        if before >= STORM_LIMIT {
          ShutOff();
        }
      }
    }

    /** Every register byte in turn. */
    method HandleBytes() returns (any: bool, ghost fired: set<nat>)
      requires Valid()
      modifies this`enabled, this`status, this`pending, this`owed, this`masked, this`raises
      ensures Valid() && old(owed) <= owed && (any <==> fired != {})
      ensures forall g, e :: g in bytes && e in g && e in old(enabled) && e in old(status) ==> e in fired
      ensures fired <= old(enabled) && enabled == old(enabled) - fired && pending == old(pending) + fired
    {
      hide Valid;
      fired, any := {}, false;
      for k := 0 to |bytes|
        invariant Valid() && old(owed) <= owed && (any <==> fired != {})
        invariant fired <= old(enabled) && enabled == old(enabled) - fired && pending == old(pending) + fired
        invariant old(status) <= status + fired
        invariant forall j, e :: 0 <= j < k && e in bytes[j] && e in old(enabled) && e in old(status) ==> e in fired
      {
        var active := HandleByte(bytes[k]);
        fired := fired + active;
        if active != {} {
          any := true;
        }
      }
    }

    /** Stops every source from raising the interrupt, until `Poll` enables what it has in hand. */
    method ShutOff()
      requires Valid()
      modifies this`enabled, this`shutOff, this`left, this`again
      ensures Valid() && shutOff && enabled == {}
      ensures !old(shutOff) ==> left == old(InHand()) && again == {}
      ensures old(shutOff) ==> left == old(left) && again == old(again)
    {
      if !shutOff {
        left, again := InHand(), {};
      }
      shutOff := true;
      enabled := {};
      forall e: nat ensures EventOk(e) {
        assert old(EventOk(e));
      }
    }

    /** Hardware and interrupts between two steps of `Poll`, as many as there may be. */
    method Interlude()
      requires Valid()
      modifies this`enabled, this`status, this`pending, this`owed, this`masked, this`spurious, this`shutOff,
        this`raises, this`left, this`again, this`unhandled
      ensures Valid() && old(pending) <= pending && old(owed) <= owed
      ensures old(shutOff) ==> shutOff && left == old(left) && again == old(again)
      ensures old(Counted()) ==> Counted()
    {
      hide Valid, Counted;
      var times: nat :| true;
      for n := 0 to times
        invariant Valid() && old(pending) <= pending && old(owed) <= owed && (old(Counted()) ==> Counted())
        invariant old(shutOff) ==> shutOff && left == old(left) && again == old(again)
      {
        var interrupt := *;
        if interrupt {
          ghost var fired := HandleInterrupt();
        } else {
          Hardware();
        }
      }
    }

    // ------------------------------------------------------------------- poll

    /** Takes all pending events of one word. */
    method Take(word: nat)
      requires Valid() && queue == {}
      modifies this`pending, this`queue
      ensures Valid() && queue == (set e | e in old(pending) && e / 64 == word) && pending == old(pending) - queue
    {
      queue := set e | e in pending && e / 64 == word;
      pending := pending - queue;
      forall e: nat ensures EventOk(e) {
        assert old(EventOk(e));
      }
    }

    /** The handler of a queued event begins: it serves every edge so far. */
    method Begin(e: nat)
      requires Valid() && e in queue && running == None
      modifies this`queue, this`running, this`entered, this`owed, this`order
      ensures Valid() && queue == old(queue) - {e} && running == Some(e) && owed == old(owed) - {e}
      ensures entered.Keys == old(entered).Keys && e in entered && e in old(entered)
      ensures entered == old(entered)[e := old(entered)[e] + 1] && order == old(order) + [e]
    {
      assert EventOk(e);
      queue := queue - {e};
      running := Some(e);
      owed := owed - {e};
      entered, order := entered[e := entered[e] + 1], order + [e];
      forall f: nat ensures EventOk(f) {
        assert old(EventOk(f));
      }
    }

    /**
     Once the handler is done a level event is acknowledged, an edge event is
     not, and either kind is unmasked, whether or not the line is shut off.
     */
    method Reenable(e: nat)
      requires Valid() && running == Some(e)
      modifies this`status, this`enabled, this`running, this`owed, this`raises, this`again
      ensures Valid() && running == None && enabled == old(enabled) + {e} && old(owed) <= owed
      ensures again == if shutOff then old(again) + {e} else old(again)
      ensures e !in level ==> status == old(status) && raises == old(raises)
      ensures e in level ==> exists events :: raises == old(raises) + [events] && status == old(status) - {e} + events
    {
      if e in level {
        AcknowledgeLevel(e);
        Hardware();
      }
      Unmask(e);
    }

    /** Clears the status of a level event whose handler is done. */
    method AcknowledgeLevel(e: nat)
      requires Valid() && running == Some(e) && e in level
      modifies this`status
      ensures Valid() && status == old(status) - {e}
    {
      status := status - {e};
      forall f: nat ensures EventOk(f) {
        assert old(EventOk(f));
      }
    }

    method Unmask(e: nat)
      requires Valid() && running == Some(e)
      modifies this`enabled, this`running, this`again
      ensures Valid() && running == None && enabled == old(enabled) + {e}
      ensures again == if shutOff then old(again) + {e} else old(again)
    {
      enabled := enabled + {e};
      running := None;
      again := if shutOff then again + {e} else again;
      forall f: nat ensures EventOk(f) {
        assert old(EventOk(f));
      }
    }

    lemma Known()
      requires Valid()
      ensures forall e :: e in handled ==> e in entered && e < 64 * WORDS
      ensures pending <= handled && queue <= handled
    {
      forall e | e in handled ensures e in entered && e < 64 * WORDS { assert EventOk(e); }
      forall e | e in pending ensures e in handled { assert EventOk(e); }
      forall e | e in queue ensures e in handled { assert EventOk(e); }
    }

    /** Runs the handler of one queued event. */
    method RunOne(e: nat)
      requires Valid() && running == None && e in queue
      modifies this
      ensures Valid() && running == None && queue == old(queue) - {e} && old(pending) <= pending
      ensures e in old(entered) && entered == old(entered)[e := old(entered)[e] + 1] && order == old(order) + [e]
      ensures old(shutOff) ==> shutOff && left == old(left) && again == old(again) + {e}
      ensures old(Counted()) ==> Counted()
    {
      hide Valid, Counted;
      Begin(e);
      Interlude();
      Reenable(e);
      Interlude();
    }

    /** Runs the queued handlers of one word, lowest number first. */
    method RunWord(word: nat)
      requires Valid() && running == None && forall e :: e in queue ==> e / 64 == word
      modifies this
      ensures Valid() && queue == {} && running == None && old(pending) <= pending
      ensures forall e :: e in handled ==>
        e in entered && e in old(entered) && entered[e] == old(entered)[e] + One(e in old(queue))
      ensures old(order) <= order && Ascends(order[|old(order)|..], old(queue))
      ensures old(shutOff) ==> shutOff && left == old(left) && old(again) + old(queue) <= again
      ensures old(Counted()) ==> Counted()
    {
      hide Valid, Ascends, Counted;
      Known();
      ghost var ran: seq<nat> := [];
      AscendsNone();
      assert queue - queue == {};
      for bit := 0 to 64
        invariant Valid() && running == None && old(pending) <= pending && (old(Counted()) ==> Counted())
        invariant queue == set e | e in old(queue) && e % 64 >= bit
        invariant forall e :: e in handled ==>
          e in entered && e in old(entered) && entered[e] == old(entered)[e] + One(e in old(queue) && e % 64 < bit)
        invariant order == old(order) + ran && Ascends(ran, old(queue) - queue)
        invariant forall k :: 0 <= k < |ran| ==> ran[k] < word * 64 + bit
        invariant old(shutOff) ==> shutOff && left == old(left) && old(again) + (old(queue) - queue) <= again
      {
        var number := word * 64 + bit;
        if number in queue {
          ghost var before := queue;
          RunOne(number);
          AscendsMore(ran, old(queue) - before, number);
          ran := ran + [number];
          assert old(queue) - queue == old(queue) - before + {number};
        }
      }
      assert old(queue) - queue == old(queue);
      assert order[|old(order)|..] == ran;
    }

    /**
     Runs the handlers of all events that have fired. Every event pending when
     it is called has its handler entered; interrupts may come at any point.
     If the line has been shut off, every event then in hand has been enabled
     again by the time it returns, and no other.
     */
    method Poll()
      requires Valid() && queue == {} && running == None
      modifies this
      ensures Valid() && queue == {} && running == None
      ensures forall e :: e in old(pending) ==> e in entered && e in old(entered) && entered[e] > old(entered)[e]
      ensures old(shutOff) ==> shutOff && left == old(left) && again == left
      ensures old(Counted()) ==> Counted()
    {
      hide Valid, Counted;
      ghost var first := pending;
      Known();
      InHandNow();
      for word := 0 to WORDS
        invariant Valid() && queue == {} && running == None && (old(Counted()) ==> Counted())
        invariant forall e :: e in handled ==> e in entered && e in old(entered) && entered[e] >= old(entered)[e]
        invariant forall e :: e in first ==> e in handled && (e in pending || entered[e] > old(entered)[e])
        invariant forall e :: e in first && e / 64 < word ==> entered[e] > old(entered)[e]
        invariant old(shutOff) ==> shutOff && left == old(left) && left <= first + again
        invariant old(shutOff) ==> forall e :: e in first ==> e in pending || e in again
        invariant old(shutOff) ==> forall e :: e in first && e / 64 < word ==> e in again
      {
        PollWord(word);
      }
      InHandNow();
    }

    /** Takes the events of one word and runs their handlers. */
    method PollWord(word: nat)
      requires Valid() && queue == {} && running == None
      modifies this
      ensures Valid() && queue == {} && running == None
      ensures forall e :: e in handled ==>
        e in entered && e in old(entered) && entered[e] >= old(entered)[e] + One(e in old(pending) && e / 64 == word)
      ensures forall e :: e in old(pending) && e / 64 != word ==> e in pending
      ensures old(shutOff) ==>
        shutOff && left == old(left) && old(again) <= again && forall e :: e in old(pending) && e / 64 == word ==> e in again
      ensures old(Counted()) ==> Counted()
    {
      hide Valid, Counted;
      Known();
      Interlude();
      Take(word);
      Interlude();
      RunWord(word);
    }

    /**
     A line shut off between two polls: whatever happens until the next one is
     over, exactly the events pending at the shut-off have been enabled again.
     So none is, then or ever, exactly when none was pending.
     */
    method OffUntilPolled()
      requires Valid() && !shutOff && queue == {} && running == None
      modifies this
      ensures Valid() && queue == {} && running == None && shutOff
      ensures left == again == old(pending)
      ensures old(pending) == {} ==> enabled == {} && pending == {}
    {
      hide Valid;
      assert InHand() == pending;
      ShutOff();
      Interlude();
      Poll();
      NeverAgain();
    }

    /** With nothing in hand at the shut-off, nothing is enabled, pending, queued or running after it. */
    lemma NeverAgain()
      requires Valid() && shutOff
      ensures left == {} ==> enabled == {} && InHand() == {}
    {
    }

    lemma InHandNow()
      requires Valid() && queue == {} && running == None
      ensures shutOff ==> again <= left <= pending + again && enabled <= again
    {
    }
  }

  /** Each of the events once, in ascending order. */
  ghost predicate Ascends(order: seq<nat>, events: set<nat>) {
    && (forall j, k :: 0 <= j < k < |order| ==> order[j] < order[k])
    && forall e :: e in order <==> e in events
  }

  lemma AscendsNone()
    ensures Ascends([], {})
  {
  }

  lemma AscendsMore(order: seq<nat>, events: set<nat>, e: nat)
    requires Ascends(order, events) && forall k :: 0 <= k < |order| ==> order[k] < e
    ensures Ascends(order + [e], events + {e})
  {
  }

  /** With nothing enabled, the first 4001 interrupts find nothing, and the last of them shuts the line off. */
  method Storm(g: Gpe)
    requires g.Valid() && g.enabled == {} && !g.shutOff && g.spurious == g.unhandled == 0
    modifies g
    ensures g.Valid() && g.Counted() && g.shutOff && g.enabled == {} && g.left == old(g.InHand()) && g.again == {}
    ensures g.pending == old(g.pending) && g.queue == old(g.queue) && g.running == old(g.running)
    ensures g.unhandled == 4001
  {
    hide Gpe.Valid;
    var n := 0;
    while n < 4001
      invariant n <= 4001 && g.Valid() && g.Counted() && g.enabled == {}
      invariant g.pending == old(g.pending) && g.queue == old(g.queue) && g.running == old(g.running)
      invariant g.spurious == g.unhandled == n && (g.shutOff <==> n == 4001)
      invariant g.shutOff ==> g.left == old(g.InHand()) && g.again == {}
    {
      ghost var more := g.HandleInterrupt();
      n := n + 1;
    }
  }

  /**
   A line that is shut off while an event is pending has that event enabled
   again: the event fires, and then 4001 interrupts find nothing.
   */
  method OnAgain(e: nat) returns (g: Gpe)
    requires e < 64
    ensures fresh(g) && g.Valid() && g.Counted() && g.shutOff && g.enabled == {e} && g.left == g.again == {e}
  {
    hide Gpe.Valid, Gpe.Counted;
    g := FiredOnce(e);
    Storm(g);
    Serve(g, e);
  }

  /** One event with a handler, which has fired. */
  method FiredOnce(e: nat) returns (g: Gpe)
    requires e < 64
    ensures fresh(g) && g.Valid() && !g.shutOff && g.spurious == g.unhandled == 0
    ensures g.level == {} && g.enabled == {} && g.pending == {e} && g.queue == {} && g.running == None
  {
    hide Gpe.Valid;
    g := new Gpe({e}, {}, [{e}]);
    g.Raise({e});
    ghost var fired := g.HandleInterrupt();
    assert {e} in g.bytes && fired == {e};
  }

  /** The handler of the one event pending runs, and nothing happens meanwhile. */
  method Serve(g: Gpe, e: nat)
    requires g.Valid() && g.Counted() && g.shutOff && g.level == {} && g.left == {e} && g.again == g.enabled == {} && e < 64
    requires g.pending == {e} && g.queue == {} && g.running == None
    modifies g
    ensures g.Valid() && g.Counted() && g.shutOff && g.enabled == g.left == g.again == {e}
  {
    hide Gpe.Valid;
    g.Take(0);
    assert g.queue == {e};
    g.Begin(e);
    g.Reenable(e);
  }
}
