/** The focus resolver as a specification: a walk over the decoded op stream
    that picks the winning listener, the hiding flag, and the listener
    declarations it visits, descending into nested `Push`/`Pop` scopes. */
module Resolution {
  import opened KeyOps

  /** The running winner of a resolution pass: a listener (or none) and its priority. */
  datatype Winner = Winner(key: Option<Key>, pri: Priority)

  /** The winner before any declaration has been seen. */
  const NoWinner := Winner(None, PriNone)

  /** The state one level of the walk accumulates. */
  datatype Acc = Acc(win: Winner, hiding: bool, visited: seq<HandlerOp>)

  /** The state a level starts from. */
  const Initial := Acc(NoWinner, false, [])

  /** What one level returns: its accumulated state and the cursor after it. */
  datatype Outcome = Outcome(acc: Acc, end: nat)

  /** The tie-break step: the challenger replaces the running winner exactly when
      its priority replaces the winner's. */
  function Better(w: Winner, c: Winner): (r: Winner)
    ensures r == w || r == c
    ensures Rank(r.pri) >= Rank(w.pri) && Rank(r.pri) >= Rank(c.pri)
    ensures c.pri == PriNone ==> r == w
    ensures w.pri == PriNone && c.pri != PriNone ==> r == c
  {
    if Replaces(c.pri, w.pri) then c else w
  }

  /** The candidate a listener declaration puts forward. */
  function Candidate(h: HandlerOp, prev: Option<Key>): Winner
  {
    Winner(Some(h.key), PriorityOf(h, prev))
  }

  /** One level of resolution over `ops` from the cursor `pos`, given the focus
      `prev` held at the start of the frame. A `Push` resolves the enclosed level
      from a fresh state and merges its winner by the same tie-break and its hiding
      flag by disjunction; a `Pop` ends the level; the end of the stream ends every
      level; every other op type is skipped. The outcome's `end` is the cursor
      after the level. */
  function Level(ops: seq<Op>, pos: nat, prev: Option<Key>, acc: Acc): (out: Outcome)
    requires pos <= |ops|
    ensures pos <= out.end <= |ops|
    decreases |ops| - pos
  {
    if pos == |ops| then Outcome(acc, pos)
    else
      match ops[pos]
      case KeyHandler(h) =>
        Level(ops, pos + 1, prev, Acc(Better(acc.win, Candidate(h, prev)), acc.hiding, acc.visited + [h]))
      case HideInput =>
        Level(ops, pos + 1, prev, acc.(hiding := true))
      case Push =>
        var inner := Level(ops, pos + 1, prev, Initial);
        Level(ops, inner.end, prev, Merge(acc, inner.acc))
      case Pop =>
        Outcome(acc, pos + 1)
      case Other =>
        Level(ops, pos + 1, prev, acc)
  }

  /** How an enclosing level takes in what a nested scope accumulated. */
  function Merge(acc: Acc, inner: Acc): (r: Acc)
    ensures Rank(r.win.pri) == if Rank(acc.win.pri) >= Rank(inner.win.pri) then Rank(acc.win.pri) else Rank(inner.win.pri)
    ensures inner.win.pri == PriNone ==> r.win == acc.win
    ensures r.hiding <==> acc.hiding || inner.hiding
    ensures r.visited == acc.visited + inner.visited
  {
    Acc(Better(acc.win, inner.win), acc.hiding || inner.hiding, acc.visited + inner.visited)
  }

  /** The whole resolution pass of a frame: it visits the listener declarations of
      the ops it consumes, picks their flat tie-break winner and hides exactly
      when those ops hold a hide-input request. */
  function Resolve(root: seq<Op>, prev: Option<Key>): (out: Outcome)
    ensures out.end <= |root|
    ensures out.acc.visited == HandlersOf(root[..out.end])
    ensures out.acc.win == PickAll(NoWinner, prev, HandlersOf(root[..out.end]))
    ensures out.acc.hiding <==> HideInput in root[..out.end]
  {
    var r := Level(root, 0, prev, Initial);
    LevelVisits(root, 0, prev, Initial);
    LevelWinnerIsFlat(root, 0, prev, Initial);
    LevelHides(root, 0, prev, Initial);
    assert root[0..r.end] == root[..r.end];
    r
  }

  /** Reference definition of the winner: a flat left-to-right scan over listener
      declarations with the tie-break step. */
  function PickAll(w: Winner, prev: Option<Key>, vs: seq<HandlerOp>): Winner
    decreases |vs|
  {
    if vs == [] then w else PickAll(Better(w, Candidate(vs[0], prev)), prev, vs[1..])
  }

  /** The listener declarations among `ops`, in order. */
  function HandlersOf(ops: seq<Op>): (hs: seq<HandlerOp>)
    ensures |hs| <= |ops|
    decreases |ops|
  {
    if ops == [] then []
    else if ops[0].KeyHandler? then [ops[0].handler] + HandlersOf(ops[1..])
    else HandlersOf(ops[1..])
  }

  /** One listener declaration advances a level by the tie-break step. */
  lemma LevelHandlerStep(ops: seq<Op>, pos: nat, prev: Option<Key>, acc: Acc, h: HandlerOp)
    requires pos < |ops| && ops[pos] == KeyHandler(h)
    ensures Level(ops, pos, prev, acc)
            == Level(ops, pos + 1, prev, Acc(Better(acc.win, Candidate(h, prev)), acc.hiding, acc.visited + [h]))
  {
  }

  /** The loop form of `LevelHandlerStep`: a level that has reached `pos` with
      the running winner `w0` reaches `pos + 1` with the winner `w1` the
      declaration there yields. */
  lemma LevelHandlerAdvance(ops: seq<Op>, start: nat, pos: nat, prev: Option<Key>, w0: Winner,
                            hiding: bool, visited: seq<HandlerOp>, h: HandlerOp, w1: Winner)
    requires start <= pos < |ops| && ops[pos] == KeyHandler(h)
    requires Level(ops, start, prev, Initial) == Level(ops, pos, prev, Acc(w0, hiding, visited))
    requires w1 == Better(w0, Candidate(h, prev))
    ensures Level(ops, start, prev, Initial) == Level(ops, pos + 1, prev, Acc(w1, hiding, visited + [h]))
  {
    LevelHandlerStep(ops, pos, prev, Acc(w0, hiding, visited), h);
  }

  /** The loop form of a nested scope: a level that has reached the `Push` at
      `pos` continues where the scope it opens ends, with the scope merged in. */
  lemma LevelScopeAdvance(ops: seq<Op>, start: nat, pos: nat, prev: Option<Key>, acc: Acc, inner: Outcome)
    requires start <= pos < |ops| && ops[pos].Push?
    requires Level(ops, start, prev, Initial) == Level(ops, pos, prev, acc)
    requires inner == Level(ops, pos + 1, prev, Initial)
    ensures Level(ops, start, prev, Initial) == Level(ops, inner.end, prev, Merge(acc, inner.acc))
  {
  }

  // ---------------------------------------------------------------------------
  // The tie-break step

  /** `Replaces` orders priorities strictly, except that two focus requests
      replace each other. */
  lemma ReplacesOrder(p: Priority, q: Priority)
    ensures Replaces(p, q) ==> Rank(p) >= Rank(q)
    ensures Replaces(p, q) && Replaces(q, p) <==> p == q == PriNewFocus
    ensures p != q ==> Replaces(p, q) != Replaces(q, p)
    ensures !Replaces(PriNone, q)
  {
  }

  /** The tie-break step is associative, so a scope's winner can be merged whole. */
  lemma BetterAssociative(a: Winner, b: Winner, c: Winner)
    ensures Better(Better(a, b), c) == Better(a, Better(b, c))
  {
  }

  /** Merging a scope's winner into a running winner is the same as scanning the
      scope's declarations from that running winner. */
  lemma {:induction false} PickAllFrom(a: Winner, b: Winner, prev: Option<Key>, vs: seq<HandlerOp>)
    ensures PickAll(Better(a, b), prev, vs) == Better(a, PickAll(b, prev, vs))
    decreases |vs|
  {
    if vs != [] {
      var c := Candidate(vs[0], prev);
      BetterAssociative(a, b, c);
      PickAllFrom(a, Better(b, c), prev, vs[1..]);
    }
  }

  /** Scanning a concatenation is scanning one part after the other. */
  lemma {:induction false} PickAllAppend(w: Winner, prev: Option<Key>, xs: seq<HandlerOp>, ys: seq<HandlerOp>)
    ensures PickAll(w, prev, xs + ys) == PickAll(PickAll(w, prev, xs), prev, ys)
    decreases |xs|
  {
    if xs != [] {
      var w' := Better(w, Candidate(xs[0], prev));
      assert (xs + ys)[0] == xs[0] && (xs + ys)[1..] == xs[1..] + ys;
      assert PickAll(w, prev, xs + ys) == PickAll(w', prev, xs[1..] + ys);
      assert PickAll(w, prev, xs) == PickAll(w', prev, xs[1..]);
      PickAllAppend(w', prev, xs[1..], ys);
    } else {
      assert xs + ys == ys;
    }
  }

  // ---------------------------------------------------------------------------
  // Nesting

  lemma {:induction false} HandlersOfAppend(xs: seq<Op>, ys: seq<Op>)
    ensures HandlersOf(xs + ys) == HandlersOf(xs) + HandlersOf(ys)
    decreases |xs|
  {
    if xs != [] {
      assert (xs + ys)[0] == xs[0] && (xs + ys)[1..] == xs[1..] + ys;
      HandlersOfAppend(xs[1..], ys);
    } else {
      assert xs + ys == ys;
    }
  }

  /** The listener declarations of a range are those of its two halves. */
  lemma HandlersOfSplit(ops: seq<Op>, a: nat, b: nat, c: nat)
    requires a <= b <= c <= |ops|
    ensures HandlersOf(ops[a..c]) == HandlersOf(ops[a..b]) + HandlersOf(ops[b..c])
  {
    assert ops[a..c] == ops[a..b] + ops[b..c];
    HandlersOfAppend(ops[a..b], ops[b..c]);
  }

  /** The listener declarations of a range that starts with one op. */
  lemma HandlersOfHead(ops: seq<Op>, a: nat, c: nat)
    requires a < c <= |ops|
    ensures HandlersOf(ops[a..c]) == (if ops[a].KeyHandler? then [ops[a].handler] else []) + HandlersOf(ops[a + 1..c])
  {
    assert ops[a..c][0] == ops[a] && ops[a..c][1..] == ops[a + 1..c];
  }

  /** The declarations visited through a nested scope opened at `a` and closed
      before `b`, then through the rest `[b, c)` of the enclosing level, are those
      of the whole range `[a, c)`. */
  lemma VisitsAcrossScope(ops: seq<Op>, a: nat, b: nat, c: nat, before: seq<HandlerOp>, after: seq<HandlerOp>)
    requires a < b <= c <= |ops| && ops[a].Push?
    requires after == (before + HandlersOf(ops[a + 1..b])) + HandlersOf(ops[b..c])
    ensures after == before + HandlersOf(ops[a..c])
  {
    HandlersOfHead(ops, a, c);
    HandlersOfSplit(ops, a + 1, b, c);
  }

  /** Every op a level consumes is processed at some depth: the declarations it
      visits are exactly the listener declarations in the range it consumed. */
  lemma {:induction false} LevelVisits(ops: seq<Op>, pos: nat, prev: Option<Key>, acc: Acc)
    requires pos <= |ops|
    ensures var out := Level(ops, pos, prev, acc);
            out.acc.visited == acc.visited + HandlersOf(ops[pos..out.end])
    decreases |ops| - pos, 1
  {
    var out := Level(ops, pos, prev, acc);
    if pos == |ops| {
      assert ops[pos..out.end] == [];
    } else if ops[pos].Push? {
      LevelVisitsScope(ops, pos, prev, acc);
    } else {
      HandlersOfHead(ops, pos, out.end);
      match ops[pos]
      case KeyHandler(h) =>
        LevelVisits(ops, pos + 1, prev, Acc(Better(acc.win, Candidate(h, prev)), acc.hiding, acc.visited + [h]));
      case HideInput =>
        LevelVisits(ops, pos + 1, prev, acc.(hiding := true));
      case Pop =>
        assert ops[pos + 1..out.end] == [];
      case Other =>
        LevelVisits(ops, pos + 1, prev, acc);
    }
  }

  /** `LevelVisits` for a level that opens a nested scope at `pos`. */
  lemma {:induction false} LevelVisitsScope(ops: seq<Op>, pos: nat, prev: Option<Key>, acc: Acc)
    requires pos < |ops| && ops[pos].Push?
    ensures var out := Level(ops, pos, prev, acc);
            out.acc.visited == acc.visited + HandlersOf(ops[pos..out.end])
    decreases |ops| - pos, 0
  {
    var out := Level(ops, pos, prev, acc);
    var inner := Level(ops, pos + 1, prev, Initial);
    LevelVisits(ops, pos + 1, prev, Initial);
    LevelVisits(ops, inner.end, prev, Merge(acc, inner.acc));
    VisitsAcrossScope(ops, pos, inner.end, out.end, acc.visited, out.acc.visited);
  }

  /** A level's hiding flag is set exactly when the range it consumed holds a
      hiding-input request, at whatever depth. */
  lemma {:induction false} LevelHides(ops: seq<Op>, pos: nat, prev: Option<Key>, acc: Acc)
    requires pos <= |ops|
    ensures var out := Level(ops, pos, prev, acc);
            out.acc.hiding <==> acc.hiding || HideInput in ops[pos..out.end]
    decreases |ops| - pos, 1
  {
    var out := Level(ops, pos, prev, acc);
    if pos == |ops| {
      assert ops[pos..out.end] == [];
    } else if ops[pos].Push? {
      LevelHidesScope(ops, pos, prev, acc);
    } else {
      assert ops[pos..out.end] == [ops[pos]] + ops[pos + 1..out.end];
      match ops[pos]
      case KeyHandler(h) =>
        LevelHides(ops, pos + 1, prev, Acc(Better(acc.win, Candidate(h, prev)), acc.hiding, acc.visited + [h]));
      case HideInput =>
        LevelHides(ops, pos + 1, prev, acc.(hiding := true));
      case Pop =>
        assert ops[pos + 1..out.end] == [];
      case Other =>
        LevelHides(ops, pos + 1, prev, acc);
    }
  }

  /** `LevelHides` for a level that opens a nested scope at `pos`. */
  lemma {:induction false} LevelHidesScope(ops: seq<Op>, pos: nat, prev: Option<Key>, acc: Acc)
    requires pos < |ops| && ops[pos].Push?
    ensures var out := Level(ops, pos, prev, acc);
            out.acc.hiding <==> acc.hiding || HideInput in ops[pos..out.end]
    decreases |ops| - pos, 0
  {
    var out := Level(ops, pos, prev, acc);
    var inner := Level(ops, pos + 1, prev, Initial);
    LevelHides(ops, pos + 1, prev, Initial);
    LevelHides(ops, inner.end, prev, Merge(acc, inner.acc));
    assert ops[pos..out.end] == [ops[pos]] + ops[pos + 1..inner.end] + ops[inner.end..out.end];
  }

  /** Scopes do not change who wins: the winner of a level is the flat scan over
      the listener declarations in the range it consumed, at whatever depth. */
  lemma {:induction false} LevelWinnerIsFlat(ops: seq<Op>, pos: nat, prev: Option<Key>, acc: Acc)
    requires pos <= |ops|
    ensures var out := Level(ops, pos, prev, acc);
            out.acc.win == PickAll(acc.win, prev, HandlersOf(ops[pos..out.end]))
    decreases |ops| - pos, 1
  {
    var out := Level(ops, pos, prev, acc);
    if pos == |ops| {
      assert ops[pos..out.end] == [];
    } else if ops[pos].Push? {
      LevelWinnerIsFlatScope(ops, pos, prev, acc);
    } else {
      HandlersOfHead(ops, pos, out.end);
      match ops[pos]
      case KeyHandler(h) =>
        LevelWinnerIsFlat(ops, pos + 1, prev, Acc(Better(acc.win, Candidate(h, prev)), acc.hiding, acc.visited + [h]));
      case HideInput =>
        LevelWinnerIsFlat(ops, pos + 1, prev, acc.(hiding := true));
      case Pop =>
        assert ops[pos + 1..out.end] == [];
      case Other =>
        LevelWinnerIsFlat(ops, pos + 1, prev, acc);
    }
  }

  /** `LevelWinnerIsFlat` for a level that opens a nested scope at `pos`. */
  lemma {:induction false} LevelWinnerIsFlatScope(ops: seq<Op>, pos: nat, prev: Option<Key>, acc: Acc)
    requires pos < |ops| && ops[pos].Push?
    ensures var out := Level(ops, pos, prev, acc);
            out.acc.win == PickAll(acc.win, prev, HandlersOf(ops[pos..out.end]))
    decreases |ops| - pos, 0
  {
    var out := Level(ops, pos, prev, acc);
    var inner := Level(ops, pos + 1, prev, Initial);
    LevelWinnerIsFlat(ops, pos + 1, prev, Initial);
    LevelWinnerIsFlat(ops, inner.end, prev, Merge(acc, inner.acc));
    HandlersOfHead(ops, pos, out.end);
    HandlersOfSplit(ops, pos + 1, inner.end, out.end);
    var ih := HandlersOf(ops[pos + 1..inner.end]);
    PickAllFrom(acc.win, NoWinner, prev, ih);
    assert Better(acc.win, NoWinner) == acc.win;
    PickAllAppend(acc.win, prev, ih, HandlersOf(ops[inner.end..out.end]));
  }

  /** A level that stops before the end of the stream stopped at a `Pop`, and
      reads nothing after that `Pop`: any stream that agrees up to it gives the
      same outcome. At top level this is a `Pop` ending the resolution. */
  lemma {:induction false} LevelStopsAtPop(ops: seq<Op>, ops': seq<Op>, pos: nat, prev: Option<Key>, acc: Acc)
    requires pos <= |ops|
    requires Level(ops, pos, prev, acc).end < |ops|
    requires Level(ops, pos, prev, acc).end <= |ops'|
    requires ops'[..Level(ops, pos, prev, acc).end] == ops[..Level(ops, pos, prev, acc).end]
    ensures var out := Level(ops, pos, prev, acc);
            && pos < out.end && ops[out.end - 1] == Pop
            && Level(ops', pos, prev, acc) == out
    decreases |ops| - pos, 1
  {
    var out := Level(ops, pos, prev, acc);
    assert ops'[pos] == ops'[..out.end][pos];
    match ops[pos]
    case KeyHandler(h) =>
      LevelStopsAtPop(ops, ops', pos + 1, prev, Acc(Better(acc.win, Candidate(h, prev)), acc.hiding, acc.visited + [h]));
    case HideInput =>
      LevelStopsAtPop(ops, ops', pos + 1, prev, acc.(hiding := true));
    case Push =>
      ScopeStopsAtPop(ops, ops', pos, prev, acc);
    case Pop =>
    case Other =>
      LevelStopsAtPop(ops, ops', pos + 1, prev, acc);
  }

  /** `LevelStopsAtPop` for a level that opens a nested scope at `pos`. */
  lemma {:induction false} ScopeStopsAtPop(ops: seq<Op>, ops': seq<Op>, pos: nat, prev: Option<Key>, acc: Acc)
    requires pos < |ops| && ops[pos].Push?
    requires Level(ops, pos, prev, acc).end < |ops|
    requires Level(ops, pos, prev, acc).end <= |ops'|
    requires ops'[..Level(ops, pos, prev, acc).end] == ops[..Level(ops, pos, prev, acc).end]
    requires ops'[pos] == Push
    ensures var out := Level(ops, pos, prev, acc);
            && pos < out.end && ops[out.end - 1] == Pop
            && Level(ops', pos, prev, acc) == out
    decreases |ops| - pos, 0
  {
    var out := Level(ops, pos, prev, acc);
    var inner := Level(ops, pos + 1, prev, Initial);
    assert ops'[..inner.end] == ops'[..out.end][..inner.end];
    assert ops[..inner.end] == ops[..out.end][..inner.end];
    LevelStopsAtPop(ops, ops', pos + 1, prev, Initial);
    LevelStopsAtPop(ops, ops', inner.end, prev, Merge(acc, inner.acc));
  }

  // ---------------------------------------------------------------------------
  // Who wins

  /** The highest rank among a scan's candidates, or zero for none. */
  function MaxRank(prev: Option<Key>, vs: seq<HandlerOp>): (m: nat)
    ensures m < 4
    ensures forall i :: 0 <= i < |vs| ==> Rank(PriorityOf(vs[i], prev)) <= m
    ensures vs != [] ==> exists i :: 0 <= i < |vs| && Rank(PriorityOf(vs[i], prev)) == m
    ensures vs == [] ==> m == 0
    decreases |vs|
  {
    if vs == [] then 0
    else
      var init := vs[..|vs| - 1];
      var m := MaxRank(prev, init);
      var r := Rank(PriorityOf(vs[|vs| - 1], prev));
      assert forall i :: 0 <= i < |vs| - 1 ==> vs[i] == init[i];
      if r >= m then r else m
  }

  /** Candidate `i` is the tie-break winner of `vs`: its priority is the highest;
      when it requests focus no later declaration does; otherwise no earlier
      candidate has its priority. */
  ghost predicate Chosen(prev: Option<Key>, vs: seq<HandlerOp>, i: int)
    requires 0 <= i < |vs|
  {
    var p := PriorityOf(vs[i], prev);
    && Rank(p) == MaxRank(prev, vs)
    && (p == PriNewFocus ==> forall j :: i < j < |vs| ==> !vs[j].focus)
    && (p != PriNewFocus ==> forall j :: 0 <= j < i ==> PriorityOf(vs[j], prev) != p)
  }

  /** After scanning the first `n` candidates of `vs`, `w` is their tie-break winner. */
  ghost predicate WinnerSoFar(w: Winner, prev: Option<Key>, vs: seq<HandlerOp>, n: nat)
    requires n <= |vs|
  {
    if n == 0 then w == NoWinner
    else exists i :: 0 <= i < n && w == Candidate(vs[i], prev) && Chosen(prev, vs[..n], i)
  }

  /** Extending a prefix by one candidate takes the larger of the two ranks. */
  lemma MaxRankPrefix(prev: Option<Key>, vs: seq<HandlerOp>, n: nat)
    requires n < |vs|
    ensures var r := Rank(PriorityOf(vs[n], prev));
            var m := MaxRank(prev, vs[..n]);
            MaxRank(prev, vs[..n + 1]) == if r >= m then r else m
  {
    assert vs[..n + 1][..n] == vs[..n];
    assert vs[..n + 1][n] == vs[n];
  }

  /** A candidate whose priority replaces the running winner's is the winner of
      the longer prefix. */
  lemma StepReplaces(w: Winner, prev: Option<Key>, vs: seq<HandlerOp>, n: nat)
    requires n < |vs| && WinnerSoFar(w, prev, vs, n)
    requires Replaces(Candidate(vs[n], prev).pri, w.pri)
    ensures Chosen(prev, vs[..n + 1], n)
  {
    MaxRankPrefix(prev, vs, n);
    assert forall j :: 0 <= j < n ==> vs[..n + 1][j] == vs[..n][j] == vs[j];
    if n > 0 {
      var i :| 0 <= i < n && w == Candidate(vs[i], prev) && Chosen(prev, vs[..n], i);
    }
  }

  /** A candidate whose priority does not replace the running winner's leaves the
      running winner the winner of the longer prefix. */
  lemma StepKeeps(w: Winner, prev: Option<Key>, vs: seq<HandlerOp>, n: nat)
    requires n < |vs| && WinnerSoFar(w, prev, vs, n)
    requires !Replaces(Candidate(vs[n], prev).pri, w.pri)
    ensures exists i :: 0 <= i < n && w == Candidate(vs[i], prev) && Chosen(prev, vs[..n + 1], i)
  {
    MaxRankPrefix(prev, vs, n);
    var big, small := vs[..n + 1], vs[..n];
    var i :| 0 <= i < n && w == Candidate(vs[i], prev) && Chosen(prev, small, i);
    var p := PriorityOf(vs[i], prev);
    assert MaxRank(prev, big) == MaxRank(prev, small);
    if p == PriNewFocus {
      forall j | i < j < n + 1
        ensures !big[j].focus
      {
        if j < n {
          assert big[j] == small[j];
        }
      }
    } else {
      forall j | 0 <= j < i
        ensures PriorityOf(big[j], prev) != p
      {
        assert big[j] == small[j];
      }
    }
    assert Chosen(prev, big, i);
  }

  /** Scanning one more candidate keeps `WinnerSoFar`, so the scan ends with the
      tie-break winner of the whole list. */
  lemma {:induction false} PickAllInvariant(w: Winner, prev: Option<Key>, vs: seq<HandlerOp>, n: nat)
    requires n <= |vs|
    requires WinnerSoFar(w, prev, vs, n)
    ensures WinnerSoFar(PickAll(w, prev, vs[n..]), prev, vs, |vs|)
    decreases |vs| - n
  {
    if n < |vs| {
      assert vs[n..][0] == vs[n];
      assert vs[n..][1..] == vs[n + 1..];
      var c := Candidate(vs[n], prev);
      if Replaces(c.pri, w.pri) {
        StepReplaces(w, prev, vs, n);
        assert vs[..n + 1][n] == vs[n];
      } else {
        StepKeeps(w, prev, vs, n);
      }
      PickAllInvariant(Better(w, c), prev, vs, n + 1);
    } else {
      assert vs[n..] == [];
    }
  }

  /** The flat scan from no winner picks a candidate of the highest priority: among
      focus requests the latest, among other candidates of that priority the
      earliest; it has no winner exactly when there is no declaration. */
  lemma PickAllWinner(prev: Option<Key>, vs: seq<HandlerOp>)
    ensures var w := PickAll(NoWinner, prev, vs);
            && (vs == [] <==> w.key == None)
            && Rank(w.pri) == MaxRank(prev, vs)
            && (vs != [] ==> exists i :: 0 <= i < |vs| && w == Candidate(vs[i], prev) && Chosen(prev, vs, i))
  {
    assert vs[0..] == vs;
    assert vs[..|vs|] == vs;
    PickAllInvariant(NoWinner, prev, vs, 0);
  }

  /** With the scan's own winner as the focus, the same declarations pick the same
      listener again: a focus request still wins by position, and otherwise the
      focused listener now outranks every other declaration. */
  lemma WinnerStable(prev: Option<Key>, vs: seq<HandlerOp>)
    ensures var w := PickAll(NoWinner, prev, vs);
            PickAll(NoWinner, w.key, vs).key == w.key
  {
    var w := PickAll(NoWinner, prev, vs);
    var w2 := PickAll(NoWinner, w.key, vs);
    PickAllWinner(prev, vs);
    PickAllWinner(w.key, vs);
    if vs != [] {
      var i :| 0 <= i < |vs| && w == Candidate(vs[i], prev) && Chosen(prev, vs, i);
      var j :| 0 <= j < |vs| && w2 == Candidate(vs[j], w.key) && Chosen(w.key, vs, j);
      if vs[i].focus {
        assert Rank(PriorityOf(vs[i], w.key)) == 3;
        assert vs[j].focus;
        assert i == j;
      } else {
        assert forall n :: 0 <= n < |vs| ==> !vs[n].focus by {
          forall n | 0 <= n < |vs|
            ensures !vs[n].focus
          {
            assert Rank(PriorityOf(vs[n], prev)) <= Rank(PriorityOf(vs[i], prev)) <= 2;
          }
        }
        assert PriorityOf(vs[i], w.key) == PriCurrentFocus;
        assert Rank(PriorityOf(vs[j], w.key)) == 2;
        assert PriorityOf(vs[j], w.key) == PriCurrentFocus;
      }
    }
  }

  /** Where a level stops depends only on the ops, not on the focus or what was
      accumulated. */
  lemma {:induction false} LevelEndIndependent(ops: seq<Op>, pos: nat, p1: Option<Key>, a1: Acc,
                                               p2: Option<Key>, a2: Acc)
    requires pos <= |ops|
    ensures Level(ops, pos, p1, a1).end == Level(ops, pos, p2, a2).end
    decreases |ops| - pos
  {
    if pos < |ops| {
      match ops[pos]
      case KeyHandler(h) =>
        LevelEndIndependent(ops, pos + 1, p1, Acc(Better(a1.win, Candidate(h, p1)), a1.hiding, a1.visited + [h]),
                            p2, Acc(Better(a2.win, Candidate(h, p2)), a2.hiding, a2.visited + [h]));
      case HideInput =>
        LevelEndIndependent(ops, pos + 1, p1, a1.(hiding := true), p2, a2.(hiding := true));
      case Push =>
        var in1 := Level(ops, pos + 1, p1, Initial);
        var in2 := Level(ops, pos + 1, p2, Initial);
        LevelEndIndependent(ops, pos + 1, p1, Initial, p2, Initial);
        LevelEndIndependent(ops, in1.end, p1, Merge(a1, in1.acc), p2, Merge(a2, in2.acc));
      case Pop =>
      case Other =>
        LevelEndIndependent(ops, pos + 1, p1, a1, p2, a2);
    }
  }
}
