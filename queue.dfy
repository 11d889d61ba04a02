/** The keyboard-focus queue itself: its state is updated in place once per
    frame, and each operation is proved against the frame specification. */
module Input {
  import opened KeyOps
  import opened Resolution
  import opened FrameModel

  /** The per-listener event sink, seen through the calls made on it. */
  class HandlerEvents {
    /** Every call made on the sink, oldest first. */
    var log: seq<SinkCall>

    constructor ()
      ensures log == [] && Pending() == map[]
    {
      log := [];
    }

    /** Delivers one event to a listener. */
    method Add(k: Key, e: Event)
      modifies this
      ensures log == old(log) + [AddCall(k, e)]
    {
      log := log + [AddCall(k, e)];
    }

    /** Replaces the pending events of a listener. */
    method Set(k: Key, es: seq<Event>)
      modifies this
      ensures log == old(log) + [SetCall(k, es)]
    {
      log := log + [SetCall(k, es)];
    }

    /** The events pending per listener. */
    function Pending(): map<Key, seq<Event>>
      reads this
    {
      Apply(map[], log)
    }
  }

  /** The queue: the focused listener, the registry of live handlers with their
      liveness flags, the op reader (the decoded ops and a cursor into them) and
      the last text-input directive. */
  class KeyQueue {
    var focus: Option<Key>
    var handlers: map<Key, bool>
    var ops: seq<Op>
    var cursor: nat
    var state: TextInputState

    /** The cursor stays within the ops, and the focus is none or registered. */
    ghost predicate Valid()
      reads this
    {
      cursor <= |ops| && (focus.Some? ==> focus.value in handlers)
    }

    /** The state the queue carries across frames. */
    function Abstract(): QueueState
      reads this
    {
      QueueState(focus, handlers, state)
    }

    constructor ()
      ensures Valid()
      ensures focus == None && handlers == map[] && state == TextInputKeep
      ensures ops == [] && cursor == 0
    {
      focus := None;
      handlers := map[];
      ops := [];
      cursor := 0;
      state := TextInputKeep;
    }

    /** The text-input directive the last frame determined. */
    method InputState() returns (s: TextInputState)
      ensures s == state
    {
      s := state;
    }

    /** Runs one frame over the declarations `root`. */
    method Frame(root: seq<Op>, events: HandlerEvents)
      modifies this, events
      ensures Abstract() == NextFrame(old(Abstract()), root).next
      ensures events.log == old(events.log) + NextFrame(old(Abstract()), root).calls
      ensures ops == root && cursor == Resolve(root, old(focus)).end
      ensures Valid()
    {
      ghost var s := Abstract();
      ghost var log0 := events.log;
      Deactivate();
      ops, cursor := root, 0;
      var win, pri, hiding := ResolveFocus(events);
      ghost var out := Resolve(root, s.focus);
      ghost var h1 := handlers;
      var lost := Prune();
      ghost var kept := focus;
      var cleared := ChangeFocus(win, events);
      hiding := hiding || lost || cleared;
      NextFrameState(s, root, win, pri, h1, kept, out.acc.hiding || lost);
      NextFrameLog(s, root, kept, log0, events.log);
      SetDirective(pri, hiding);
      FocusIsLive(s, root);
      assert old(focus) == s.focus && old(handlers) == s.handlers && old(state) == s.state;
    }

    /** Records the text-input directive of a frame whose winner has priority
        `pri` and which asked for the input to hide when `hiding` is set. */
    method SetDirective(pri: Priority, hiding: bool)
      modifies this`state
      ensures state == Directive(pri, hiding)
      ensures state == TextInputOpen <==> pri == PriNewFocus
      ensures state == TextInputClose <==> pri != PriNewFocus && hiding
    {
      if pri == PriNewFocus {
        state := TextInputOpen;
      } else if hiding {
        state := TextInputClose;
      } else {
        state := TextInputKeep;
      }
    }

    /** Moves the focus to `win`, notifying the listener losing it and then the
        one gaining it; `cleared` tells that the focus moved to none. */
    method ChangeFocus(win: Option<Key>, events: HandlerEvents) returns (cleared: bool)
      modifies this`focus, events
      ensures focus == win
      ensures events.log == old(events.log) + FocusCalls(old(focus), win)
      ensures cleared == (win != old(focus) && win.None?)
    {
      cleared := false;
      if win != focus {
        if focus.Some? {
          events.Add(focus.value, FocusEvent(false));
        }
        focus := win;
        if focus.Some? {
          events.Add(focus.value, FocusEvent(true));
        } else {
          cleared := true;
        }
      }
    }

    /** Clears the liveness flag of every registered handler. */
    method Deactivate()
      modifies this`handlers
      ensures handlers == Deactivated(old(handlers))
    {
      var keys := handlers.Keys;
      while keys != {}
        invariant keys <= handlers.Keys == old(handlers).Keys
        invariant forall k :: k in handlers ==> (handlers[k] ==> k in keys)
        decreases keys
      {
        var k :| k in keys;
        handlers := handlers[k := false];
        keys := keys - {k};
      }
    }

    /** Deletes every handler still inactive; when that deletes the focused
        listener, the focus is cleared and `lost` is set. */
    method Prune() returns (lost: bool)
      modifies this`handlers, this`focus
      ensures handlers == Live(old(handlers))
      ensures lost == Pruned(old(focus), old(handlers))
      ensures focus == if lost then None else old(focus)
    {
      ghost var h := handlers;
      ghost var pruned := Pruned(focus, h);
      ghost var f0 := focus;
      lost := false;
      var pending := handlers.Keys;
      while pending != {}
        invariant pending <= h.Keys
        invariant handlers.Keys <= h.Keys
        invariant forall k :: k in h ==> (k in handlers <==> k in pending || h[k])
        invariant forall k :: k in handlers ==> handlers[k] == h[k]
        invariant focus == if pruned && f0.value !in pending then None else f0
        invariant lost == (pruned && f0.value !in pending)
        decreases pending
      {
        var k :| k in pending;
        if !handlers[k] {
          handlers := handlers - {k};
          if focus == Some(k) {
            focus := None;
            lost := true;
          }
        }
        pending := pending - {k};
      }
      LiveExactly(h, handlers);
    }

    /** Forwards an input event to the focused listener, if there is one. */
    method Push(e: Event, events: HandlerEvents)
      modifies events
      ensures events.log == old(events.log) + (if focus.Some? then [AddCall(focus.value, e)] else [])
      ensures focus.Some? ==> events.Pending() == Deliver(old(events.Pending()), AddCall(focus.value, e))
      ensures focus.None? ==> events.Pending() == old(events.Pending())
    {
      if focus.Some? {
        ApplyLast(map[], events.log, AddCall(focus.value, e));
        events.Add(focus.value, e);
      }
    }

    /** Lets the declaration `h` compete with the running winner `k0` of priority
        `pri0`: its priority follows the focus request and the current focus, and
        it takes over when that priority replaces the winner's. */
    method Compete(h: HandlerOp, k0: Option<Key>, pri0: Priority) returns (k: Option<Key>, pri: Priority)
      ensures Winner(k, pri) == Better(Winner(k0, pri0), Candidate(h, focus))
    {
      var newPri;
      if h.focus {
        newPri := PriNewFocus;
      } else if Some(h.key) == focus {
        newPri := PriCurrentFocus;
      } else {
        newPri := PriDefault;
      }
      k, pri := k0, pri0;
      if Replaces(newPri, pri) {
        k, pri := Some(h.key), newPri;
      }
    }

    /** Marks the listener of `h` active, registering it first and resetting its
        events to a single focus-lost event when it is not registered yet: the
        registry and the sink calls of the declarations `visited` extend by `h`. */
    method Visit(h: HandlerOp, events: HandlerEvents, ghost h0: map<Key, bool>,
                 ghost log0: seq<SinkCall>, ghost visited: seq<HandlerOp>)
      requires handlers == Register(h0, visited)
      requires events.log == log0 + ResetCalls(h0.Keys, visited)
      modifies this`handlers, events
      ensures handlers == Register(h0, visited + [h])
      ensures events.log == log0 + ResetCalls(h0.Keys, visited + [h])
    {
      RegisterStep(h0, log0, visited, h, handlers, events.log);
      if h.key !in handlers {
        handlers := handlers[h.key := false];
        events.Set(h.key, [FocusEvent(false)]);
      }
      handlers := handlers[h.key := true];
    }

    /** Takes in the listener declaration `h` just read from the ops: a level
        resolved from `start` up to before `h` with the running winner `k0` of
        priority `pri0` is resolved past `h`, and `h` is registered. */
    method Enter(h: HandlerOp, events: HandlerEvents, k0: Option<Key>, pri0: Priority,
                 ghost start: nat, ghost hiding: bool, ghost h0: map<Key, bool>,
                 ghost log0: seq<SinkCall>, ghost visited: seq<HandlerOp>)
      returns (k: Option<Key>, pri: Priority)
      requires start < cursor <= |ops| && ops[cursor - 1] == KeyHandler(h)
      requires Level(ops, start, focus, Initial) == Level(ops, cursor - 1, focus, Acc(Winner(k0, pri0), hiding, visited))
      requires handlers == Register(h0, visited)
      requires events.log == log0 + ResetCalls(h0.Keys, visited)
      modifies this`handlers, events
      ensures Level(ops, start, focus, Initial) == Level(ops, cursor, focus, Acc(Winner(k, pri), hiding, visited + [h]))
      ensures handlers == Register(h0, visited + [h])
      ensures events.log == log0 + ResetCalls(h0.Keys, visited + [h])
    {
      k, pri := Compete(h, k0, pri0);
      LevelHandlerAdvance(ops, start, cursor - 1, focus, Winner(k0, pri0), hiding, visited, h, Winner(k, pri));
      Visit(h, events, h0, log0, visited);
    }

    /** Resolves the nested scope opened by the `Push` just read from the ops and
        merges it into the running level: the winner by the tie-break, the hide
        flag by disjunction, and the scope's declarations `inner` after `visited`. */
    method Nest(events: HandlerEvents, k0: Option<Key>, pri0: Priority, hiding0: bool,
                ghost start: nat, ghost h0: map<Key, bool>, ghost log0: seq<SinkCall>,
                ghost visited: seq<HandlerOp>)
      returns (k: Option<Key>, pri: Priority, hiding: bool, ghost inner: seq<HandlerOp>)
      requires start < cursor <= |ops| && ops[cursor - 1].Push?
      requires Level(ops, start, focus, Initial) == Level(ops, cursor - 1, focus, Acc(Winner(k0, pri0), hiding0, visited))
      requires handlers == Register(h0, visited)
      requires events.log == log0 + ResetCalls(h0.Keys, visited)
      modifies this`cursor, this`handlers, events
      ensures old(cursor) <= cursor <= |ops|
      ensures Level(ops, start, focus, Initial) == Level(ops, cursor, focus, Acc(Winner(k, pri), hiding, visited + inner))
      ensures handlers == Register(h0, visited + inner)
      ensures events.log == log0 + ResetCalls(h0.Keys, visited + inner)
      decreases |ops| - cursor, 1
    {
      ghost var out := Level(ops, cursor, focus, Initial);
      LevelScopeAdvance(ops, start, cursor - 1, focus, Acc(Winner(k0, pri0), hiding0, visited), out);
      assert handlers.Keys == h0.Keys + KeysOf(visited);
      var newK, newPri, h := ResolveFocus(events);
      k, pri, hiding := k0, pri0, hiding0 || h;
      if Replaces(newPri, pri) {
        k, pri := newK, newPri;
      }
      inner := out.acc.visited;
      RegisterAppend(h0, visited, inner);
      LogAppend(log0, h0.Keys, visited, inner);
    }

    /** Resolves one level of the declarations from the cursor: the winner, its
        priority and the hide flag, registering every listener it visits and
        resetting the events of those it registers. */
    method ResolveFocus(events: HandlerEvents) returns (k: Option<Key>, pri: Priority, hiding: bool)
      requires cursor <= |ops|
      modifies this`cursor, this`handlers, events
      ensures var out := Level(ops, old(cursor), focus, Initial);
              && Winner(k, pri) == out.acc.win && hiding == out.acc.hiding
              && cursor == out.end
              && handlers == Register(old(handlers), out.acc.visited)
              && events.log == old(events.log) + ResetCalls(old(handlers).Keys, out.acc.visited)
      decreases |ops| - cursor, 0
    {
      ghost var start := cursor;
      ghost var h0 := handlers;
      ghost var log0 := events.log;
      ghost var visited: seq<HandlerOp> := [];
      k, pri, hiding := None, PriNone, false;
      while cursor < |ops|
        invariant start <= cursor <= |ops|
        invariant Level(ops, start, focus, Initial) == Level(ops, cursor, focus, Acc(Winner(k, pri), hiding, visited))
        invariant handlers == Register(h0, visited)
        invariant events.log == log0 + ResetCalls(h0.Keys, visited)
        decreases |ops| - cursor
      {
        var op := ops[cursor];
        cursor := cursor + 1;
        match op
        case KeyHandler(h) =>
          k, pri := Enter(h, events, k, pri, start, hiding, h0, log0, visited);
          visited := visited + [h];
        case HideInput =>
          hiding := true;
        case Push =>
          ghost var inner;
          k, pri, hiding, inner := Nest(events, k, pri, hiding, start, h0, log0, visited);
          visited := visited + inner;
        case Pop =>
          break;
        case Other =>
      }
    }
  }
}
