/** The worked examples of the focus rules: concrete frames over two distinct
    listeners `a` and `b`. */
module Scenarios {
  import opened KeyOps
  import opened Resolution
  import opened FrameModel

  /** The state of a queue that has not run a frame yet. */
  function Fresh(): (s: QueueState)
    ensures s.focus == None && s.handlers == map[] && s.state == TextInputKeep
  {
    QueueState(None, map[], TextInputKeep)
  }

  /** Resolving a single listener that does not ask for focus, with no focus. */
  lemma ResolveSingle(a: Key)
    ensures var h := HandlerOp(a, false);
            Resolve([KeyHandler(h)], None) == Outcome(Acc(Winner(Some(a), PriDefault), false, [h]), 1)
  {
    var h := HandlerOp(a, false);
    var acc := Acc(Winner(Some(a), PriDefault), false, [h]);
    assert [] + [h] == [h];
    assert Level([KeyHandler(h)], 1, None, acc) == Outcome(acc, 1);
  }

  /** A single listener that does not ask for focus wins at default priority and
      the directive keeps the text input. */
  lemma SingleListener(a: Key)
    ensures var r := NextFrame(Fresh(), [KeyHandler(HandlerOp(a, false))]);
            && Resolve([KeyHandler(HandlerOp(a, false))], None).acc.win == Winner(Some(a), PriDefault)
            && r.next.focus == Some(a)
            && r.next.state == TextInputKeep
  {
    ResolveSingle(a);
  }

  /** The new listener is reset, then told it gained focus. */
  lemma SingleListenerCalls(a: Key)
    ensures NextFrame(Fresh(), [KeyHandler(HandlerOp(a, false))]).calls
            == [SetCall(a, [FocusEvent(false)]), AddCall(a, FocusEvent(true))]
  {
    var h := HandlerOp(a, false);
    ResolveSingle(a);
    FrameCalls(Fresh(), [KeyHandler(h)]);
    ResetSingle(h);
  }

  /** A first-seen listener is reset exactly once. */
  lemma ResetSingle(h: HandlerOp)
    ensures ResetCalls({}, [h]) == [SetCall(h.key, [FocusEvent(false)])]
  {
    ResetCallsLast({}, [], h);
    assert [] + [h] == [h];
  }

  /** A later focus request beats an earlier default listener and opens the text input. */
  lemma RequestBeatsDefault(a: Key, b: Key)
    requires a != b
    ensures var root := [KeyHandler(HandlerOp(a, false)), KeyHandler(HandlerOp(b, true))];
            var r := NextFrame(Fresh(), root);
            && Resolve(root, None).acc.win == Winner(Some(b), PriNewFocus)
            && r.next.focus == Some(b)
            && r.next.state == TextInputOpen
  {
    var ha, hb := HandlerOp(a, false), HandlerOp(b, true);
    var root := [KeyHandler(ha), KeyHandler(hb)];
    var acc1 := Acc(Winner(Some(a), PriDefault), false, [ha]);
    assert [] + [ha] == [ha] && [ha] + [hb] == [ha, hb];
    var acc2 := Acc(Winner(Some(b), PriNewFocus), false, [ha, hb]);
    assert Level(root, 2, None, acc2) == Outcome(acc2, 2);
    assert Level(root, 1, None, acc1) == Outcome(acc2, 2);
    assert Resolve(root, None) == Outcome(acc2, 2);
  }

  /** Of two default listeners the first declared wins. */
  lemma EarliestDefault(a: Key, b: Key)
    requires a != b
    ensures Resolve([KeyHandler(HandlerOp(a, false)), KeyHandler(HandlerOp(b, false))], None).acc.win
            == Winner(Some(a), PriDefault)
  {
    var ha, hb := HandlerOp(a, false), HandlerOp(b, false);
    var root := [KeyHandler(ha), KeyHandler(hb)];
    var acc1 := Acc(Winner(Some(a), PriDefault), false, [ha]);
    assert [] + [ha] == [ha] && [ha] + [hb] == [ha, hb];
    var acc2 := Acc(Winner(Some(a), PriDefault), false, [ha, hb]);
    assert Level(root, 2, None, acc2) == Outcome(acc2, 2);
    assert Level(root, 1, None, acc1) == Outcome(acc2, 2);
  }

  /** Of two focus requests the last declared wins. */
  lemma LatestRequest(a: Key, b: Key)
    requires a != b
    ensures Resolve([KeyHandler(HandlerOp(a, true)), KeyHandler(HandlerOp(b, true))], None).acc.win
            == Winner(Some(b), PriNewFocus)
  {
    var ha, hb := HandlerOp(a, true), HandlerOp(b, true);
    var root := [KeyHandler(ha), KeyHandler(hb)];
    var acc1 := Acc(Winner(Some(a), PriNewFocus), false, [ha]);
    assert [] + [ha] == [ha] && [ha] + [hb] == [ha, hb];
    var acc2 := Acc(Winner(Some(b), PriNewFocus), false, [ha, hb]);
    assert Level(root, 2, None, acc2) == Outcome(acc2, 2);
    assert Level(root, 1, None, acc1) == Outcome(acc2, 2);
  }

  /** A focus request inside a nested scope still beats a default listener
      declared after the scope. */
  lemma NestedRequest(a: Key, b: Key)
    requires a != b
    ensures Resolve([Push, KeyHandler(HandlerOp(b, true)), Pop, KeyHandler(HandlerOp(a, false))], None).acc.win
            == Winner(Some(b), PriNewFocus)
  {
    var ha, hb := HandlerOp(a, false), HandlerOp(b, true);
    var root := [Push, KeyHandler(hb), Pop, KeyHandler(ha)];
    var inner := Acc(Winner(Some(b), PriNewFocus), false, [hb]);
    assert [] + [hb] == [hb] && [hb] + [ha] == [hb, ha];
    assert Level(root, 2, None, inner) == Outcome(inner, 3);
    assert Level(root, 1, None, Initial) == Outcome(inner, 3);
    var after := Acc(Winner(Some(b), PriNewFocus), false, [hb, ha]);
    assert Level(root, 4, None, after) == Outcome(after, 4);
    assert Level(root, 3, None, Merge(Initial, inner)) == Outcome(after, 4);
  }

  /** A listener that requested focus and then disappears is pruned: the focus
      becomes none without a focus-lost event and the text input closes. */
  lemma FocusedListenerVanishes(a: Key)
    ensures var r1 := NextFrame(Fresh(), [KeyHandler(HandlerOp(a, true))]);
            var r2 := NextFrame(r1.next, []);
            && r1.next.focus == Some(a) && r1.next.state == TextInputOpen
            && r2.next.focus == None && r2.next.handlers == map[]
            && r2.calls == [] && r2.next.state == TextInputClose
  {
    var h := HandlerOp(a, true);
    var root := [KeyHandler(h)];
    var acc := Acc(Winner(Some(a), PriNewFocus), false, [h]);
    assert [] + [h] == [h];
    assert Level(root, 1, None, acc) == Outcome(acc, 1);
    assert Resolve(root, None) == Outcome(acc, 1);
    assert [h][0].key == a;
    assert KeysOf([h]) == {a};
    var r1 := NextFrame(Fresh(), root);
    assert r1.next.handlers == map[a := true];
    assert Deactivated(map[a := true]) == map[a := false];
    assert Resolve([], Some(a)) == Outcome(Initial, 0);
    assert KeysOf([]) == {};
    assert Live(map[a := false]) == map[];
  }

  /** A hide-input request closes the text input even when the focused listener
      keeps the focus at current-focus priority. */
  lemma HideKeepsFocusButCloses(a: Key)
    ensures var s := QueueState(Some(a), map[a := true], TextInputKeep);
            var root := [HideInput, KeyHandler(HandlerOp(a, false))];
            var r := NextFrame(s, root);
            && Resolve(root, Some(a)).acc.win == Winner(Some(a), PriCurrentFocus)
            && r.next.focus == Some(a)
            && r.calls == []
            && r.next.state == TextInputClose
  {
    var h := HandlerOp(a, false);
    var root := [HideInput, KeyHandler(h)];
    var acc := Acc(Winner(Some(a), PriCurrentFocus), true, [h]);
    assert [] + [h] == [h];
    assert Level(root, 2, Some(a), acc) == Outcome(acc, 2);
    assert Level(root, 1, Some(a), Initial.(hiding := true)) == Outcome(acc, 2);
    assert Resolve(root, Some(a)) == Outcome(acc, 2);
    assert [h][0].key == a;
    assert KeysOf([h]) == {a};
    assert Deactivated(map[a := true]) == map[a := false];
    NoResetsForKnown({a}, [h]);
    FrameCalls(QueueState(Some(a), map[a := true], TextInputKeep), root);
  }

  /** Declarations after the `Pop` that ends the top level are never read. */
  lemma PopEndsFrame(a: Key, b: Key)
    requires a != b
    ensures var r := NextFrame(Fresh(), [KeyHandler(HandlerOp(a, false)), Pop, KeyHandler(HandlerOp(b, true))]);
            && r.next.focus == Some(a)
            && r.next.handlers.Keys == {a}
            && r.next.state == TextInputKeep
  {
    var h := HandlerOp(a, false);
    var root := [KeyHandler(h), Pop, KeyHandler(HandlerOp(b, true))];
    var acc := Acc(Winner(Some(a), PriDefault), false, [h]);
    assert [] + [h] == [h];
    assert Level(root, 1, None, acc) == Outcome(acc, 2);
    assert Resolve(root, None) == Outcome(acc, 2);
    assert [h][0].key == a;
    assert KeysOf([h]) == {a};
  }
}
