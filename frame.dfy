/** One frame of the keyboard-focus queue as a specification: liveness reset,
    resolution, pruning of the handler registry, focus-change notifications and
    the text-input directive, over the queue's state as a value. */
module FrameModel {
  import opened KeyOps
  import opened Resolution

  /** The state the queue carries across frames. */
  datatype QueueState = QueueState(focus: Option<Key>, handlers: map<Key, bool>, state: TextInputState)

  /** The state after a frame and the calls the frame made on the event sink, in order. */
  datatype FrameOutcome = FrameOutcome(next: QueueState, calls: seq<SinkCall>)

  /** The identities named by a sequence of declarations. */
  function KeysOf(vs: seq<HandlerOp>): set<Key>
  {
    set i | 0 <= i < |vs| :: vs[i].key
  }

  /** The registry with every liveness flag cleared. */
  function Deactivated(h: map<Key, bool>): (r: map<Key, bool>)
    ensures r.Keys == h.Keys
    ensures forall k :: k in r ==> !r[k]
  {
    map k | k in h :: false
  }

  /** The registry after the resolution pass marked the declarations `vs`, in order,
      active: a listener not registered yet is inserted. */
  function Register(h: map<Key, bool>, vs: seq<HandlerOp>): (r: map<Key, bool>)
    ensures r.Keys == h.Keys + KeysOf(vs)
    ensures forall k :: k in r ==> (r[k] <==> k in KeysOf(vs) || h[k])
    decreases |vs|
  {
    if vs == [] then h
    else
      var init := vs[..|vs| - 1];
      assert forall i :: 0 <= i < |init| ==> init[i] == vs[i];
      assert KeysOf(vs) == KeysOf(init) + {vs[|vs| - 1].key};
      Register(h, init)[vs[|vs| - 1].key := true]
  }

  /** The event-sink calls of the resolution pass: each declaration whose listener
      is neither in `known` nor declared earlier has its events reset to a single
      focus-lost event. */
  function ResetCalls(known: set<Key>, vs: seq<HandlerOp>): (r: seq<SinkCall>)
    ensures |r| <= |vs|
    decreases |vs|
  {
    if vs == [] then []
    else
      var init := vs[..|vs| - 1];
      var k := vs[|vs| - 1].key;
      var before := ResetCalls(known, init);
      if k in known || k in KeysOf(init) then before
      else before + [SetCall(k, [FocusEvent(false)])]
  }

  /** Each reset of a resolution pass `Set`s a declared listener not in `known` to
      a single focus-lost event, no listener is reset twice, and every declared
      listener not in `known` is reset. */
  lemma {:induction false} ResetCallsShape(known: set<Key>, vs: seq<HandlerOp>)
    ensures var r := ResetCalls(known, vs);
            && (forall i :: 0 <= i < |r| ==>
                  r[i] == SetCall(r[i].key, [FocusEvent(false)]) && r[i].key in KeysOf(vs) && r[i].key !in known)
            && (forall i, j :: 0 <= i < j < |r| ==> r[i].key != r[j].key)
            && (forall k :: k in KeysOf(vs) && k !in known ==> exists i :: 0 <= i < |r| && r[i].key == k)
    decreases |vs|
  {
    if vs != [] {
      var init := vs[..|vs| - 1];
      var k := vs[|vs| - 1].key;
      assert forall i :: 0 <= i < |init| ==> init[i] == vs[i];
      assert KeysOf(vs) == KeysOf(init) + {k};
      ResetCallsShape(known, init);
      var before := ResetCalls(known, init);
      if !(k in known || k in KeysOf(init)) {
        var r := before + [SetCall(k, [FocusEvent(false)])];
        assert r[|before|].key == k;
        assert forall i :: 0 <= i < |before| ==> r[i] == before[i];
      }
    }
  }

  /** The registry with every entry still inactive deleted. */
  function Live(h: map<Key, bool>): (r: map<Key, bool>)
    ensures r.Keys == set k | k in h && h[k]
    ensures forall k :: k in r ==> r[k]
  {
    map k | k in h && h[k] :: h[k]
  }

  /** A registry holding exactly the active entries of `h`, unchanged, is `Live(h)`. */
  lemma LiveExactly(h: map<Key, bool>, m: map<Key, bool>)
    requires m.Keys <= h.Keys
    requires forall k :: k in h ==> (k in m <==> h[k])
    requires forall k :: k in m ==> m[k] == h[k]
    ensures m == Live(h)
  {
    assert m.Keys == Live(h).Keys;
    forall k | k in m
      ensures m[k] == Live(h)[k]
    {
    }
  }

  /** Whether pruning deletes the focused listener. */
  predicate Pruned(focus: Option<Key>, h: map<Key, bool>): (b: bool)
    ensures b <==> focus.Some? && focus.value in h && focus.value !in Live(h)
  {
    focus.Some? && focus.value in h && !h[focus.value]
  }

  /** The notifications of a focus change from `was` to `now`: focus lost, then gained. */
  function FocusCalls(was: Option<Key>, now: Option<Key>): (r: seq<SinkCall>)
    ensures forall j :: 0 <= j < |r| ==> r[j].AddCall?
  {
    if was == now then []
    else
      (if was.Some? then [AddCall(was.value, FocusEvent(false))] else [])
      + (if now.Some? then [AddCall(now.value, FocusEvent(true))] else [])
  }

  /** The directive: open for a new focus request, else close when asked to hide. */
  function Directive(pri: Priority, hiding: bool): (d: TextInputState)
    ensures d == TextInputOpen <==> pri == PriNewFocus
    ensures d == TextInputClose <==> pri != PriNewFocus && hiding
    ensures d == TextInputKeep <==> pri != PriNewFocus && !hiding
  {
    if pri == PriNewFocus then TextInputOpen
    else if hiding then TextInputClose
    else TextInputKeep
  }

  /** One frame over the declarations `root`, from the state `s`. */
  function NextFrame(s: QueueState, root: seq<Op>): (r: FrameOutcome)
    ensures r.next.handlers.Keys == KeysOf(Resolve(root, s.focus).acc.visited)
    ensures forall k :: k in r.next.handlers ==> r.next.handlers[k]
    ensures r.next.state == TextInputOpen <==> Resolve(root, s.focus).acc.win.pri == PriNewFocus
  {
    var h0 := Deactivated(s.handlers);
    var out := Resolve(root, s.focus);
    var h1 := Register(h0, out.acc.visited);
    var pruned := Pruned(s.focus, h1);
    var f1 := if pruned then None else s.focus;
    var w := out.acc.win.key;
    var hiding := out.acc.hiding || pruned || (w != f1 && w.None?);
    FrameOutcome(QueueState(w, Live(h1), Directive(out.acc.win.pri, hiding)),
                 ResetCalls(h0.Keys, out.acc.visited) + FocusCalls(f1, w))
  }

  /** A frame's next state assembled from its stages: the resolution results, the
      registry after the resolution pass, the focus and hide flag after pruning. */
  lemma NextFrameState(s: QueueState, root: seq<Op>, win: Option<Key>, pri: Priority,
                       h1: map<Key, bool>, kept: Option<Key>, hiding: bool)
    requires var out := Resolve(root, s.focus);
             && win == out.acc.win.key && pri == out.acc.win.pri
             && h1 == Register(Deactivated(s.handlers), out.acc.visited)
             && kept == (if Pruned(s.focus, h1) then None else s.focus)
             && hiding == (out.acc.hiding || Pruned(s.focus, h1))
    ensures NextFrame(s, root).next == QueueState(win, Live(h1), Directive(pri, hiding || (win != kept && win.None?)))
  {
  }

  /** A frame's sink calls appended to a log, assembled from its stages. */
  lemma NextFrameLog(s: QueueState, root: seq<Op>, kept: Option<Key>, log0: seq<SinkCall>, log: seq<SinkCall>)
    requires var out := Resolve(root, s.focus);
             && kept == (if Pruned(s.focus, Register(Deactivated(s.handlers), out.acc.visited)) then None else s.focus)
             && log == log0 + ResetCalls(Deactivated(s.handlers).Keys, out.acc.visited) + FocusCalls(kept, out.acc.win.key)
    ensures log == log0 + NextFrame(s, root).calls
  {
  }

  /** The listener declarations a frame visits: those of the ops its resolution consumed. */
  function FrameDecls(s: QueueState, root: seq<Op>): seq<HandlerOp>
  {
    HandlersOf(root[..Resolve(root, s.focus).end])
  }

  // ---------------------------------------------------------------------------
  // Registering declarations in pieces

  /** The identities of two runs of declarations are those of each. */
  lemma KeysOfAppend(a: seq<HandlerOp>, b: seq<HandlerOp>)
    ensures KeysOf(a + b) == KeysOf(a) + KeysOf(b)
  {
    var ab := a + b;
    assert forall i :: 0 <= i < |a| ==> ab[i] == a[i];
    assert forall i :: 0 <= i < |b| ==> ab[|a| + i] == b[i];
    forall k | k in KeysOf(ab) ensures k in KeysOf(a) + KeysOf(b) {
      var i :| 0 <= i < |ab| && ab[i].key == k;
      if i >= |a| {
        assert b[i - |a|].key == k;
      }
    }
  }

  /** Registering one more declaration marks its listener active. */
  lemma RegisterLast(h: map<Key, bool>, vs: seq<HandlerOp>, x: HandlerOp)
    ensures Register(h, vs + [x]) == Register(h, vs)[x.key := true]
  {
    assert (vs + [x])[..|vs|] == vs;
  }

  /** One more declaration resets the events of its listener when it is new. */
  lemma ResetCallsLast(known: set<Key>, vs: seq<HandlerOp>, x: HandlerOp)
    ensures ResetCalls(known, vs + [x]) ==
              ResetCalls(known, vs) +
              (if x.key in known || x.key in KeysOf(vs) then [] else [SetCall(x.key, [FocusEvent(false)])])
  {
    assert (vs + [x])[..|vs|] == vs;
  }

  /** Registering two runs of declarations one after the other is registering both. */
  lemma RegisterAppend(h: map<Key, bool>, a: seq<HandlerOp>, b: seq<HandlerOp>)
    ensures Register(Register(h, a), b) == Register(h, a + b)
  {
    KeysOfAppend(a, b);
    var r1 := Register(Register(h, a), b);
    var r2 := Register(h, a + b);
    assert r1.Keys == r2.Keys;
    forall k | k in r1 ensures r1[k] == r2[k] {
    }
  }

  /** The resets of two runs of declarations: those of the first, then those of
      the second for the listeners neither known nor in the first. */
  lemma {:induction false} ResetCallsAppend(known: set<Key>, a: seq<HandlerOp>, b: seq<HandlerOp>)
    ensures ResetCalls(known, a + b) == ResetCalls(known, a) + ResetCalls(known + KeysOf(a), b)
    decreases |b|
  {
    if b == [] {
      assert a + b == a;
    } else {
      var init := b[..|b| - 1];
      var k := b[|b| - 1].key;
      assert (a + b)[..|a + b| - 1] == a + init;
      assert (a + b)[|a + b| - 1].key == k;
      ResetCallsAppend(known, a, init);
      KeysOfAppend(a, init);
    }
  }

  /** One more declaration, registered and logged the way the resolution pass
      does it: a listener not yet in the registry gets its events reset. */
  lemma RegisterStep(h0: map<Key, bool>, log0: seq<SinkCall>, vs: seq<HandlerOp>, x: HandlerOp,
                     h: map<Key, bool>, log: seq<SinkCall>)
    requires h == Register(h0, vs) && log == log0 + ResetCalls(h0.Keys, vs)
    ensures h[x.key := true] == Register(h0, vs + [x])
    ensures h[x.key := false][x.key := true] == Register(h0, vs + [x])
    ensures x.key in h ==> log == log0 + ResetCalls(h0.Keys, vs + [x])
    ensures x.key !in h ==> log + [SetCall(x.key, [FocusEvent(false)])] == log0 + ResetCalls(h0.Keys, vs + [x])
  {
    RegisterLast(h0, vs, x);
    ResetCallsLast(h0.Keys, vs, x);
    UpdateTwice(h, x.key);
  }

  /** Inserting an entry inactive and then activating it is activating it. */
  lemma UpdateTwice(h: map<Key, bool>, k: Key)
    ensures h[k := false][k := true] == h[k := true]
  {
    var m := h[k := false][k := true];
    assert m.Keys == h[k := true].Keys;
    forall j | j in m
      ensures m[j] == h[k := true][j]
    {
    }
  }

  /** A log extended by the resets of two runs of declarations, one after the
      other, is the log extended by the resets of both. */
  lemma LogAppend(log: seq<SinkCall>, known: set<Key>, a: seq<HandlerOp>, b: seq<HandlerOp>)
    ensures log + ResetCalls(known, a) + ResetCalls(known + KeysOf(a), b) == log + ResetCalls(known, a + b)
  {
    ResetCallsAppend(known, a, b);
  }

  // ---------------------------------------------------------------------------
  // Resolution at frame level

  /** The frame visits exactly the listener declarations of the ops it consumed. */
  lemma FrameVisits(s: QueueState, root: seq<Op>)
    ensures Resolve(root, s.focus).acc.visited == FrameDecls(s, root)
  {
    LevelVisits(root, 0, s.focus, Initial);
    assert root[0..Resolve(root, s.focus).end] == root[..Resolve(root, s.focus).end];
  }

  /** The frame's winner is the tie-break winner of the declarations it visited:
      none when there is none, otherwise one of the highest priority, the latest
      among focus requests and the earliest among the others. */
  lemma FrameWinner(s: QueueState, root: seq<Op>)
    ensures var vs := FrameDecls(s, root);
            var w := Resolve(root, s.focus).acc.win;
            && w == PickAll(NoWinner, s.focus, vs)
            && (vs == [] <==> w.key == None)
            && Rank(w.pri) == MaxRank(s.focus, vs)
            && (vs != [] ==> exists i :: 0 <= i < |vs| && w == Candidate(vs[i], s.focus) && Chosen(s.focus, vs, i))
  {
    LevelWinnerIsFlat(root, 0, s.focus, Initial);
    assert root[0..Resolve(root, s.focus).end] == root[..Resolve(root, s.focus).end];
    PickAllWinner(s.focus, FrameDecls(s, root));
  }

  /** The winner, when there is one, is a listener the frame declared. */
  lemma WinnerDeclared(s: QueueState, root: seq<Op>)
    ensures var w := Resolve(root, s.focus).acc.win;
            w.key.Some? ==> w.key.value in KeysOf(FrameDecls(s, root))
  {
    FrameWinner(s, root);
  }

  /** The winning priority is a new focus request exactly when some declaration
      the frame visited requests focus. */
  lemma WinnerRequestsFocus(s: QueueState, root: seq<Op>)
    ensures var vs := FrameDecls(s, root);
            Resolve(root, s.focus).acc.win.pri == PriNewFocus <==> exists i :: 0 <= i < |vs| && vs[i].focus
  {
    var vs := FrameDecls(s, root);
    FrameWinner(s, root);
    if exists i :: 0 <= i < |vs| && vs[i].focus {
      var i :| 0 <= i < |vs| && vs[i].focus;
      assert Rank(PriorityOf(vs[i], s.focus)) == 3;
    }
  }

  // ---------------------------------------------------------------------------
  // The registry

  /** After a frame the registry holds exactly the listeners the frame declared,
      all of them active. */
  lemma RegistryAfterFrame(s: QueueState, root: seq<Op>)
    ensures var next := NextFrame(s, root).next;
            && next.handlers.Keys == KeysOf(FrameDecls(s, root))
            && forall k :: k in next.handlers ==> next.handlers[k]
  {
    FrameVisits(s, root);
  }

  /** After a frame the focus is none or a listener in the registry. */
  lemma FocusIsLive(s: QueueState, root: seq<Op>)
    ensures var next := NextFrame(s, root).next;
            next.focus.Some? ==> next.focus.value in next.handlers
  {
    FrameVisits(s, root);
    WinnerDeclared(s, root);
    ResetCallsShape(s.handlers.Keys, Resolve(root, s.focus).acc.visited);
  }

  /** What pruning does to the focus: the focused listener is deleted exactly
      when it was registered and the frame did not declare it. */
  lemma PrunedIff(s: QueueState, root: seq<Op>)
    ensures var out := Resolve(root, s.focus);
            (Pruned(s.focus, Register(Deactivated(s.handlers), out.acc.visited))
             <==> s.focus.Some? && s.focus.value in s.handlers && s.focus.value !in KeysOf(out.acc.visited))
  {
  }

  /** The sink calls of a frame: the resets of the resolution pass, then the
      focus-change notifications. */
  lemma FrameCalls(s: QueueState, root: seq<Op>)
    ensures var out := Resolve(root, s.focus);
            var kept := if s.focus.Some? && s.focus.value in s.handlers && s.focus.value !in KeysOf(out.acc.visited)
                        then None else s.focus;
            && NextFrame(s, root).calls == ResetCalls(s.handlers.Keys, out.acc.visited) + FocusCalls(kept, out.acc.win.key)
            && NextFrame(s, root).next.focus == out.acc.win.key
  {
    PrunedIff(s, root);
  }

  /** The reset discipline of a frame's sink calls: every `Set` resets one of
      `newKeys` to a single focus-lost event, every one of `newKeys` is reset, none
      twice, and every `Set` comes before every `Add`. */
  ghost predicate ResetsFirst(calls: seq<SinkCall>, newKeys: set<Key>)
  {
    && (forall i :: 0 <= i < |calls| && calls[i].SetCall? ==>
          calls[i] == SetCall(calls[i].key, [FocusEvent(false)]) && calls[i].key in newKeys)
    && (forall k :: k in newKeys ==> exists i :: 0 <= i < |calls| && calls[i] == SetCall(k, [FocusEvent(false)]))
    && (forall i, j :: 0 <= i < j < |calls| && calls[i].SetCall? && calls[j].SetCall? ==> calls[i].key != calls[j].key)
    && (forall i, j :: 0 <= i < |calls| && 0 <= j < |calls| && calls[i].SetCall? && calls[j].AddCall? ==> i < j)
  }

  /** Followed by focus notifications, the resets of a resolution pass keep the
      reset discipline for the listeners neither known nor repeated. */
  lemma ResetsThenAdds(known: set<Key>, vs: seq<HandlerOp>, adds: seq<SinkCall>, calls: seq<SinkCall>)
    requires forall j :: 0 <= j < |adds| ==> adds[j].AddCall?
    requires calls == ResetCalls(known, vs) + adds
    ensures ResetsFirst(calls, KeysOf(vs) - known)
  {
    var resets := ResetCalls(known, vs);
    ResetCallsShape(known, vs);
    var n := |resets|;
    assert forall i :: 0 <= i < n ==> calls[i] == resets[i];
    assert forall i :: n <= i < |calls| ==> calls[i].AddCall? by {
      forall i | n <= i < |calls| ensures calls[i].AddCall? {
        assert calls[i] == adds[i - n];
      }
    }
  }

  /** The resolution pass resets the events of each newly declared listener exactly
      once, with a single focus-lost event, and of no other listener; these calls
      come before every focus-change notification. */
  lemma FirstAppearance(s: QueueState, root: seq<Op>)
    ensures ResetsFirst(NextFrame(s, root).calls, KeysOf(FrameDecls(s, root)) - s.handlers.Keys)
  {
    var out := Resolve(root, s.focus);
    var kept := if s.focus.Some? && s.focus.value in s.handlers && s.focus.value !in KeysOf(out.acc.visited)
                then None else s.focus;
    FrameVisits(s, root);
    FrameCalls(s, root);
    ResetsThenAdds(s.handlers.Keys, out.acc.visited, FocusCalls(kept, out.acc.win.key), NextFrame(s, root).calls);
  }

  // ---------------------------------------------------------------------------
  // Focus changes

  /** A focused listener the frame does not declare is pruned: it loses focus
      without a focus-lost notification (no sink call names it at all), and the
      directive closes the text input unless a new focus is requested. */
  lemma PrunedFocusIsSilent(s: QueueState, root: seq<Op>, f: Key)
    requires s.focus == Some(f) && f in s.handlers
    requires f !in KeysOf(FrameDecls(s, root))
    ensures var r := NextFrame(s, root);
            && r.next.focus != Some(f)
            && f !in r.next.handlers
            && (forall i :: 0 <= i < |r.calls| ==> r.calls[i].key != f)
            && r.next.state != TextInputKeep
  {
    FrameVisits(s, root);
    WinnerDeclared(s, root);
    ResetCallsShape(s.handlers.Keys, Resolve(root, s.focus).acc.visited);
  }

  /** The focus after a frame is the frame's winner. When it differs from the
      focus that survived pruning, the old focus (if any) is notified of the loss
      and then the new one (if any) of the gain; otherwise no focus notification
      is sent. */
  lemma FocusChange(s: QueueState, root: seq<Op>)
    ensures var r := NextFrame(s, root);
            var out := Resolve(root, s.focus);
            var resets := ResetCalls(s.handlers.Keys, out.acc.visited);
            var kept := if s.focus.Some? && s.focus.value in s.handlers && s.focus.value !in KeysOf(out.acc.visited)
                        then None else s.focus;
            && r.next.focus == out.acc.win.key
            && r.calls[..|resets|] == resets
            && (r.next.focus == kept ==> r.calls == resets)
            && (r.next.focus != kept ==>
                  r.calls[|resets|..] ==
                    (if kept.Some? then [AddCall(kept.value, FocusEvent(false))] else [])
                    + (if r.next.focus.Some? then [AddCall(r.next.focus.value, FocusEvent(true))] else []))
  {
    FrameCalls(s, root);
    var out := Resolve(root, s.focus);
    var kept := if s.focus.Some? && s.focus.value in s.handlers && s.focus.value !in KeysOf(out.acc.visited)
                then None else s.focus;
    var resets := ResetCalls(s.handlers.Keys, out.acc.visited);
    var adds := FocusCalls(kept, out.acc.win.key);
    assert (resets + adds)[..|resets|] == resets;
    assert (resets + adds)[|resets|..] == adds;
  }

  /** The directive is open exactly when the winner requested focus; otherwise it
      closes exactly when a hide-input request was consumed, the focused listener
      was pruned, or the focus changed to none; otherwise it is kept. */
  lemma DirectiveAfterFrame(s: QueueState, root: seq<Op>)
    ensures var r := NextFrame(s, root);
            var out := Resolve(root, s.focus);
            var vs := FrameDecls(s, root);
            var pruned := s.focus.Some? && s.focus.value in s.handlers && s.focus.value !in KeysOf(vs);
            var kept := if pruned then None else s.focus;
            var hiding := HideInput in root[..out.end] || pruned || (r.next.focus != kept && r.next.focus.None?);
            && (r.next.state == TextInputOpen <==> exists i :: 0 <= i < |vs| && vs[i].focus)
            && (r.next.state == TextInputClose <==> !(exists i :: 0 <= i < |vs| && vs[i].focus) && hiding)
            && (r.next.state == TextInputKeep <==> !(exists i :: 0 <= i < |vs| && vs[i].focus) && !hiding)
  {
    FrameVisits(s, root);
    WinnerRequestsFocus(s, root);
    LevelHides(root, 0, s.focus, Initial);
    assert root[0..Resolve(root, s.focus).end] == root[..Resolve(root, s.focus).end];
  }

  // ---------------------------------------------------------------------------
  // Steady state

  /** A frame consumes the same ops whatever the queue's state. */
  lemma FrameDeclsIndependent(s: QueueState, s2: QueueState, root: seq<Op>)
    ensures FrameDecls(s2, root) == FrameDecls(s, root)
  {
    LevelEndIndependent(root, 0, s.focus, Initial, s2.focus, Initial);
  }

  /** Resetting only listeners that are already known resets none. */
  lemma {:induction false} NoResetsForKnown(known: set<Key>, vs: seq<HandlerOp>)
    requires KeysOf(vs) <= known
    ensures ResetCalls(known, vs) == []
    decreases |vs|
  {
    if vs != [] {
      var init := vs[..|vs| - 1];
      assert forall i :: 0 <= i < |init| ==> init[i] == vs[i];
      assert KeysOf(init) <= KeysOf(vs);
      assert vs[|vs| - 1].key in KeysOf(vs);
      NoResetsForKnown(known, init);
    }
  }

  /** Running the same declarations again after a frame changes neither the focus
      nor the registry and makes no sink call; the directive then opens exactly
      for a focus request and otherwise closes exactly for a consumed hide-input
      request. */
  lemma FrameIsStable(s: QueueState, root: seq<Op>)
    ensures var r1 := NextFrame(s, root);
            var r2 := NextFrame(r1.next, root);
            var vs := FrameDecls(s, root);
            && r2.calls == []
            && r2.next.focus == r1.next.focus
            && r2.next.handlers == r1.next.handlers
            && r2.next.state == (if exists i :: 0 <= i < |vs| && vs[i].focus then TextInputOpen
                                 else if HideInput in root[..Resolve(root, s.focus).end] then TextInputClose
                                 else TextInputKeep)
  {
    StableCalls(s, root);
    StableRegistry(s, root);
    StableDirective(s, root);
  }

  /** The second frame keeps the focus and makes no sink call. */
  lemma StableCalls(s: QueueState, root: seq<Op>)
    ensures var s1 := NextFrame(s, root).next;
            NextFrame(s1, root).calls == [] && NextFrame(s1, root).next.focus == s1.focus
  {
    var s1 := NextFrame(s, root).next;
    var vs := FrameDecls(s, root);
    FrameDeclsIndependent(s, s1, root);
    FrameVisits(s1, root);
    RegistryAfterFrame(s, root);
    FocusIsLive(s, root);
    NoResetsForKnown(s1.handlers.Keys, vs);
    StableWinner(s, root);
    FrameCalls(s1, root);
  }

  /** The second frame leaves the registry as the first left it. */
  lemma StableRegistry(s: QueueState, root: seq<Op>)
    ensures var s1 := NextFrame(s, root).next;
            NextFrame(s1, root).next.handlers == s1.handlers
  {
    var s1 := NextFrame(s, root).next;
    FrameDeclsIndependent(s, s1, root);
    RegistryAfterFrame(s, root);
    RegistryAfterFrame(s1, root);
    var h2 := NextFrame(s1, root).next.handlers;
    assert h2.Keys == s1.handlers.Keys;
    forall k | k in h2
      ensures h2[k] == s1.handlers[k]
    {
    }
  }

  /** The second frame's directive depends only on focus requests and hide-input
      requests: nothing is pruned and the focus does not change. */
  lemma StableDirective(s: QueueState, root: seq<Op>)
    ensures var s1 := NextFrame(s, root).next;
            var vs := FrameDecls(s, root);
            NextFrame(s1, root).next.state ==
              (if exists i :: 0 <= i < |vs| && vs[i].focus then TextInputOpen
               else if HideInput in root[..Resolve(root, s.focus).end] then TextInputClose
               else TextInputKeep)
  {
    var s1 := NextFrame(s, root).next;
    FrameDeclsIndependent(s, s1, root);
    RegistryAfterFrame(s, root);
    FocusIsLive(s, root);
    StableCalls(s, root);
    DirectiveAfterFrame(s1, root);
    StableHides(s, root);
  }

  /** The second frame's winner is the first frame's. */
  lemma StableWinner(s: QueueState, root: seq<Op>)
    ensures var s1 := NextFrame(s, root).next;
            Resolve(root, s1.focus).acc.win.key == s1.focus
  {
    var s1 := NextFrame(s, root).next;
    FrameDeclsIndependent(s, s1, root);
    FrameWinner(s, root);
    FrameWinner(s1, root);
    WinnerStable(s.focus, FrameDecls(s, root));
  }

  /** Both frames consume the same hide-input requests. */
  lemma StableHides(s: QueueState, root: seq<Op>)
    ensures var s1 := NextFrame(s, root).next;
            Resolve(root, s1.focus).end == Resolve(root, s.focus).end
  {
    LevelEndIndependent(root, 0, s.focus, Initial, NextFrame(s, root).next.focus, Initial);
  }

  // ---------------------------------------------------------------------------
  // Pending events

  /** The resets leave every new listener with a single pending focus-lost event. */
  lemma {:induction false} ResetsPending(p: map<Key, seq<Event>>, known: set<Key>, vs: seq<HandlerOp>, k: Key)
    requires k in KeysOf(vs) && k !in known
    ensures var q := Apply(p, ResetCalls(known, vs));
            k in q && q[k] == [FocusEvent(false)]
    decreases |vs|
  {
    var init := vs[..|vs| - 1];
    var x := vs[|vs| - 1];
    assert vs == init + [x];
    assert forall i :: 0 <= i < |init| ==> init[i] == vs[i];
    assert KeysOf(vs) == KeysOf(init) + {x.key};
    ResetCallsLast(known, init, x);
    if x.key in known || x.key in KeysOf(init) {
      ResetsPending(p, known, init, k);
    } else {
      ApplyLast(p, ResetCalls(known, init), SetCall(x.key, [FocusEvent(false)]));
      if x.key != k {
        ResetsPending(p, known, init, k);
      }
    }
  }

  /** The focus notifications add a focus-gained event for the new focus, and
      nothing for a listener that was not the kept focus. */
  lemma FocusCallsPending(q: map<Key, seq<Event>>, kept: Option<Key>, w: Option<Key>, k: Key)
    requires kept != Some(k) && k in q
    ensures var q' := Apply(q, FocusCalls(kept, w));
            k in q' && q'[k] == q[k] + (if w == Some(k) then [FocusEvent(true)] else [])
  {
    var lost: seq<SinkCall> := if kept.Some? then [AddCall(kept.value, FocusEvent(false))] else [];
    var gained: seq<SinkCall> := if w.Some? then [AddCall(w.value, FocusEvent(true))] else [];
    if kept != w {
      assert FocusCalls(kept, w) == lost + gained;
      ApplyAppend(q, lost, gained);
      ApplyOthers(q, lost, k);
      if w.Some? {
        ApplyLast(Apply(q, lost), [], gained[0]);
        assert [] + [gained[0]] == gained;
      }
    }
  }

  /** After its first frame a new listener has exactly a focus-lost event pending,
      followed by a focus-gained event when it won the focus. */
  lemma NewListenerPending(s: QueueState, root: seq<Op>, p: map<Key, seq<Event>>, k: Key)
    requires s.focus.Some? ==> s.focus.value in s.handlers
    requires k in KeysOf(FrameDecls(s, root)) && k !in s.handlers
    ensures var r := NextFrame(s, root);
            var q := Apply(p, r.calls);
            k in q && q[k] == [FocusEvent(false)] + (if r.next.focus == Some(k) then [FocusEvent(true)] else [])
  {
    var out := Resolve(root, s.focus);
    FrameVisits(s, root);
    FrameCalls(s, root);
    var kept := if s.focus.Some? && s.focus.value in s.handlers && s.focus.value !in KeysOf(out.acc.visited)
                then None else s.focus;
    var resets := ResetCalls(s.handlers.Keys, out.acc.visited);
    ApplyAppend(p, resets, FocusCalls(kept, out.acc.win.key));
    ResetsPending(p, s.handlers.Keys, out.acc.visited, k);
    FocusCallsPending(Apply(p, resets), kept, out.acc.win.key, k);
  }
}
