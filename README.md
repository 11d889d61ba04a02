# Keyboard-focus queue

A Dafny model of the keyboard-focus queue of the gio user-interface toolkit
(`ui/app/internal/input/key.go`), with proofs about it.

Once per frame the queue walks the widget tree's declaration ops:
- **Listener declarations.** Each names a listener key and says whether it requests focus.
- **Hide-input requests.**
- **Nested scopes.** These are delimited by `Push` and `Pop`.

From these ops the queue:
- picks the single listener that gets the keyboard focus;
- keeps a registry of live listeners;
- tells listeners when they lose or gain focus;
- computes a three-way text-input directive (`Keep`, `Close` or `Open`).

Between frames, `Push` forwards an input event to the focused listener.

The project is in five modules:

- `KeyOps` (`keys.dfy`): the vocabulary. It has:
  - opaque listener keys;
  - the decoded op type, where `Other` stands for every op type the queue ignores;
  - the priorities with their `replaces` rule and the priority of a declaration;
  - the text-input directive;
  - the calls on the event sink and the pending events they leave (`Add` appends, `Set` replaces).
- `Resolution` (`resolution.dfy`): `resolveFocus` as a value-level specification.
  - `Level` walks the op sequence from a cursor. A `Push` recurses and the inner result is merged back. A `Pop` ends the level. `Other` is skipped.
  - `Level` returns the winner, the hide flag, the declarations it visited and the cursor after the level.
  - `PickAll` is an independent reference definition: a flat scan over the listener declarations.
  - The lemmas prove that nesting does not change the winner. They also characterise the winner by its priority and position.
- `FrameModel` (`frame.dfy`): `Frame` as a function `NextFrame` from the queue's state and the ops to the next state and the ordered sink calls. The lemmas prove the promises of the focus queue:
  - the registry after a frame;
  - first-appearance resets;
  - silent pruning of a vanished focus;
  - focus-change notifications;
  - the directive;
  - that re-running the same ops is stable;
  - the events pending for a new listener.
- `Input` (`queue.dfy`): the queue as a class updated in place.
  - The fields are `focus`, `handlers`, the reader (`ops` and `cursor`) and `state`.
  - `HandlerEvents` is the event sink, seen through the log of calls made on it.
  - `Frame`, `resolveFocus` (a recursive method with a cursor loop), `Push` and `InputState` are methods. Each is proved against the functions above.
  - The loop's listener case is the method `Enter` (built from `Compete` and `Visit`). Its nested-scope case is the method `Nest`, which calls `resolveFocus` back.
- `Scenarios` (`scenarios.dfy`): worked frames over concrete declarations.

**Unknown ops and unmatched `Pop`.** The queue raises no fault for either:
- the switch in `resolveFocus` has no default case, so an unknown op is skipped;
- a `Pop` at top level ends the resolution of the frame, and the ops after it are never read.

The model follows the code: `Other` is skipped, and `LevelStopsAtPop` / `PopEndsFrame` state the early end.

## Model

| member | source | states |
|---|---|---|
| KeyOps.Rank | ui/app/internal/input/key.go:26-33 | Ranks are below 4. Only `priNone` has rank 0, and only `priNewFocus` has the top rank 3 |
| KeyOps.Replaces | ui/app/internal/input/key.go:137-140 | None replaces nothing, and every other priority replaces None. Of two equal priorities one replaces the other only when both are NewFocus. NewFocus replaces every priority |
| KeyOps.PriorityOf | ui/app/internal/input/key.go:101-109 | A declaration is NewFocus exactly when it requests focus, CurrentFocus exactly when it does not request focus but names the focus held at the start of the frame, and never None |
| KeyOps.Deliver | ui/app/internal/input/key.go:67-71 | One sink call: `Add` appends to the listener's pending events (a missing list counts as empty), `Set` replaces them, and no other listener changes |
| Resolution.Better | ui/app/internal/input/key.go:111-113 | The tie-break step returns the running winner or the candidate, never ranked below either. A None candidate leaves the running winner. Any real candidate beats a None winner |
| Resolution.Merge | ui/app/internal/input/key.go:124-129 | Merging a scope keeps the higher of the two winners' ranks, and a scope without a winner leaves the running winner. The hide flag is the disjunction, and the visited declarations are concatenated |
| Resolution.Resolve | ui/app/internal/input/key.go:54-55 | A frame's top-level resolution stops within the ops. It visits exactly the listener declarations of the consumed prefix, its winner is the flat scan over them, and it hides exactly when that prefix holds a hide-input request |
| Resolution.Level | ui/app/internal/input/key.go:92-135 | One level of `resolveFocus` from a cursor; the cursor after it stays within the ops |
| Resolution.ReplacesOrder | ui/app/internal/input/key.go:137-140 | `replaces` never lowers the rank. Two priorities replace each other only when both are NewFocus. Otherwise exactly one of two distinct priorities replaces the other. None replaces nothing |
| Resolution.BetterAssociative | ui/app/internal/input/key.go:111-113 | The tie-break step is associative, so a scope's winner can compete whole |
| Resolution.PickAllFrom | ui/app/internal/input/key.go:124-129 | Merging a scope's winner into the running winner equals scanning the scope's declarations from the running winner |
| Resolution.PickAllAppend | ui/app/internal/input/key.go:97-113 | Scanning two runs of declarations is scanning one after the other |
| Resolution.LevelVisits | ui/app/internal/input/key.go:97-133 | The declarations a level visits are exactly the listener declarations in the op range it consumed, at any depth, in order |
| Resolution.LevelVisitsScope | ui/app/internal/input/key.go:124-129 | The same, for a level that opens a nested scope |
| Resolution.LevelHides | ui/app/internal/input/key.go:122-126 | A level's hide flag is set exactly when its consumed range holds a hide-input request, at any depth (the nested flag is ORed upward) |
| Resolution.LevelHidesScope | ui/app/internal/input/key.go:124-126 | The same, for a level that opens a nested scope |
| Resolution.LevelWinnerIsFlat | ui/app/internal/input/key.go:97-133 | Nesting does not change the winner: a level's winner is the flat reference scan over the declarations it consumed |
| Resolution.LevelWinnerIsFlatScope | ui/app/internal/input/key.go:124-129 | The same, for a level that opens a nested scope |
| Resolution.LevelStopsAtPop | ui/app/internal/input/key.go:130-131 | A level that stops before the end of the ops stopped at a `Pop`. Any op sequence that agrees up to that `Pop` gives the same outcome, so nothing after it is read |
| Resolution.ScopeStopsAtPop | ui/app/internal/input/key.go:124-131 | The same, for a level that opens a nested scope |
| Resolution.MaxRank | ui/app/internal/input/key.go:101-113 | The highest priority rank among the candidates, attained by one of them, or 0 for none |
| Resolution.StepReplaces | ui/app/internal/input/key.go:111-113 | A candidate whose priority replaces the running winner's becomes the tie-break winner of the longer prefix |
| Resolution.StepKeeps | ui/app/internal/input/key.go:111-113 | A candidate that does not replace leaves the running winner the tie-break winner of the longer prefix |
| Resolution.PickAllInvariant | ui/app/internal/input/key.go:97-113 | Each scan step keeps the running winner the tie-break winner of the prefix scanned so far |
| Resolution.PickAllWinner | ui/app/internal/input/key.go:101-113 | The scan has no winner exactly when there is no declaration. Otherwise the winner has the highest priority: among focus requests it is the latest, among other candidates of that priority the earliest |
| Resolution.WinnerStable | ui/app/internal/input/key.go:101-113 | Taking the winner as the start-of-frame focus, the same declarations pick the same listener again |
| Resolution.LevelEndIndependent | ui/app/internal/input/key.go:97-133 | Where a level stops depends only on the ops, not on the focus or what was accumulated |
| FrameModel.Deactivated | ui/app/internal/input/key.go:51-53 | Clearing liveness keeps every registered key and makes every entry inactive |
| FrameModel.Register | ui/app/internal/input/key.go:114-121 | After visiting declarations the registry holds the old keys plus the declared ones; an entry is active exactly when declared or already active |
| FrameModel.ResetCalls | ui/app/internal/input/key.go:114-120 | The `Set` calls of a resolution pass: at most one per declaration, each resetting to a single focus-lost event a listener neither registered nor declared earlier (its shape is proved by `ResetCallsShape`) |
| FrameModel.ResetCallsShape | ui/app/internal/input/key.go:114-120 | The resets of a resolution pass: each is `Set` to a single focus-lost event for a declared but unknown listener, no listener is reset twice, and every such listener is reset |
| FrameModel.Pruned | ui/app/internal/input/key.go:56-62 | The focused listener is pruned exactly when it is registered but not among the live entries |
| FrameModel.Directive | ui/app/internal/input/key.go:76-83 | Open exactly for NewFocus priority. Close exactly for hiding without NewFocus. Keep exactly for neither |
| FrameModel.Live | ui/app/internal/input/key.go:56-58 | Pruning keeps exactly the active entries |
| FrameModel.LiveExactly | ui/app/internal/input/key.go:56-64 | A registry holding exactly the active entries, unchanged, is the pruned registry |
| FrameModel.FocusCalls | ui/app/internal/input/key.go:65-75 | Focus notifications are all `Add` calls |
| FrameModel.NextFrame | ui/app/internal/input/key.go:47-84 | After a frame the registry's keys are exactly the declared keys and every entry is active. The directive is Open exactly when the winner requested focus |
| FrameModel.RegisterAppend | ui/app/internal/input/key.go:124-125 | Registering a nested scope's declarations after the enclosing ones is registering both |
| FrameModel.ResetCallsAppend | ui/app/internal/input/key.go:124-125 | Resetting two runs is resetting the first, then the second against the keys known by then |
| FrameModel.RegisterStep | ui/app/internal/input/key.go:114-121 | The in-place registry update and `Set` for one declaration match `Register` and `ResetCalls` extended by that declaration |
| FrameModel.LogAppend | ui/app/internal/input/key.go:124-125 | The sink log across a nested scope is the log of the resets of both parts |
| FrameModel.FrameVisits | ui/app/internal/input/key.go:54-55 | A frame visits exactly the listener declarations in the ops it consumed |
| FrameModel.FrameWinner | ui/app/internal/input/key.go:101-113 | The frame's winner is the reference scan's winner. It is none exactly when nothing is declared. Otherwise it is a tie-break winner of maximal priority |
| FrameModel.WinnerDeclared | ui/app/internal/input/key.go:111-113 | A winner is always a listener the frame declared |
| FrameModel.WinnerRequestsFocus | ui/app/internal/input/key.go:103-104 | The winning priority is NewFocus exactly when some visited declaration requests focus |
| FrameModel.RegistryAfterFrame | ui/app/internal/input/key.go:51-64 | After a frame the registry's keys are exactly the declared keys, and every entry is active |
| FrameModel.FocusIsLive | ui/app/internal/input/key.go:56-75 | After a frame the focus is none or a key in the registry |
| FrameModel.PrunedIff | ui/app/internal/input/key.go:56-62 | The focused listener is pruned exactly when it was registered but not declared this frame |
| FrameModel.FrameCalls | ui/app/internal/input/key.go:65-75 | A frame's sink calls are the resolution resets followed by the focus notifications from the surviving focus to the winner |
| FrameModel.ResetsThenAdds | ui/app/internal/input/key.go:114-120 | Resets followed by `Add` calls keep the reset discipline |
| FrameModel.FirstAppearance | ui/app/internal/input/key.go:114-120 | In a frame's calls every `Set` resets a newly declared listener to a single focus-lost event, every new listener is reset, none twice, and all resets precede every `Add` |
| FrameModel.PrunedFocusIsSilent | ui/app/internal/input/key.go:56-75 | A focused listener not declared this frame loses the focus and its registry entry. No sink call names it, so it gets no focus-lost event. The directive is then not Keep |
| FrameModel.FocusChange | ui/app/internal/input/key.go:65-75 | The focus becomes the winner. If that differs from the surviving focus, the old focus (if any) gets focus-lost, then the winner (if any) gets focus-gained. Otherwise no notification is sent |
| FrameModel.DirectiveAfterFrame | ui/app/internal/input/key.go:59-83 | Open exactly when a visited declaration requests focus. Otherwise Close exactly when a hide-input request was consumed, the focus was pruned, or the focus moved to none. Otherwise Keep |
| FrameModel.FrameDeclsIndependent | ui/app/internal/input/key.go:97-133 | A frame consumes the same ops whatever the queue's state |
| FrameModel.NoResetsForKnown | ui/app/internal/input/key.go:114-120 | Declarations of already registered listeners cause no reset |
| FrameModel.FrameIsStable | ui/app/internal/input/key.go:47-135 | Re-running the same ops after a frame makes no sink call and keeps focus and registry. The directive is Open for a focus request, else Close for a consumed hide-input request, else Keep |
| FrameModel.StableCalls | ui/app/internal/input/key.go:65-75 | The second frame keeps the focus and makes no sink call |
| FrameModel.StableRegistry | ui/app/internal/input/key.go:51-64 | The second frame leaves the registry unchanged |
| FrameModel.StableDirective | ui/app/internal/input/key.go:76-83 | The second frame's directive depends only on focus requests and hide-input requests |
| FrameModel.StableWinner | ui/app/internal/input/key.go:101-113 | The second frame's winner is the focus the first frame set |
| FrameModel.StableHides | ui/app/internal/input/key.go:97-133 | Both frames consume the same ops |
| FrameModel.ResetsPending | ui/app/internal/input/key.go:118-119 | After the resets, every new listener has exactly one focus-lost event pending |
| FrameModel.FocusCallsPending | ui/app/internal/input/key.go:65-75 | Focus notifications add focus-gained to the new focus and nothing to a listener that was not the surviving focus |
| FrameModel.NewListenerPending | ui/app/internal/input/key.go:114-120 | After its first frame a new listener has a focus-lost event pending, followed by focus-gained exactly when it won the focus |
| Input.HandlerEvents.constructor | ui/app/internal/input/key.go:47 | A fresh sink has no calls and no pending events |
| Input.HandlerEvents.Add | ui/app/internal/input/key.go:67 | `Add` records one append call |
| Input.HandlerEvents.Set | ui/app/internal/input/key.go:119 | `Set` records one replace call |
| Input.KeyQueue.constructor | ui/app/internal/input/key.go:15-20 | A fresh queue has no focus, an empty registry, an empty reader and the Keep directive |
| Input.KeyQueue.InputState | ui/app/internal/input/key.go:43-45 | Returns the stored directive unchanged |
| Input.KeyQueue.Frame | ui/app/internal/input/key.go:47-84 | The new state is `NextFrame` of the old one, and the sink receives exactly `NextFrame`'s calls in order. The reader is left on the root ops, with the cursor where the top-level resolution stopped. Afterwards the focus is none or registered |
| Input.KeyQueue.SetDirective | ui/app/internal/input/key.go:76-83 | Open exactly for NewFocus priority, Close exactly for hide without NewFocus, else Keep |
| Input.KeyQueue.ChangeFocus | ui/app/internal/input/key.go:65-75 | The focus becomes the winner and the sink receives the focus-lost, then focus-gained notifications. The hide flag is forced exactly when the focus moves to none |
| Input.KeyQueue.Deactivate | ui/app/internal/input/key.go:51-53 | Every registered entry becomes inactive, and the key set is unchanged |
| Input.KeyQueue.Prune | ui/app/internal/input/key.go:56-64 | The registry becomes its active entries. The focus is cleared, and `lost` set, exactly when the focused listener was deleted |
| Input.KeyQueue.Push | ui/app/internal/input/key.go:86-90 | The event is appended to the focused listener's pending events, and dropped when there is no focus |
| Input.KeyQueue.Compete | ui/app/internal/input/key.go:101-113 | The declaration's priority follows its focus request and the current focus, and the running winner becomes the tie-break of itself and that candidate |
| Input.KeyQueue.Visit | ui/app/internal/input/key.go:114-121 | The registry and the sink log grow from `Register` and `ResetCalls` of the visited declarations to those of the visited declarations plus this one |
| Input.KeyQueue.Enter | ui/app/internal/input/key.go:100-121 | A listener declaration advances the level past itself with the new tie-break winner, and registers and resets it as `Register` and `ResetCalls` say |
| Input.KeyQueue.Nest | ui/app/internal/input/key.go:124-129 | A `Push` advances the level to the end of the nested scope with the scope merged in, and the registry and the log take in the scope's declarations |
| Input.KeyQueue.ResolveFocus | ui/app/internal/input/key.go:92-135 | The winner, priority, hide flag and cursor are those of `Level`. Every visited listener is registered active, and each first-seen one is reset once, as `Register` and `ResetCalls` say |
| Scenarios.Fresh | ui/app/internal/input/key.go:48-50 | The state of a queue that has not run a frame |
| Scenarios.SingleListener | ui/app/internal/input/key.go:101-113 | A lone listener without a focus request wins at default priority and the directive is Keep |
| Scenarios.SingleListenerCalls | ui/app/internal/input/key.go:114-120 | A lone new listener is reset, then told it gained focus |
| Scenarios.RequestBeatsDefault | ui/app/internal/input/key.go:101-113 | A later focus request beats an earlier default listener and opens the text input |
| Scenarios.EarliestDefault | ui/app/internal/input/key.go:137-140 | Of two default listeners the first wins |
| Scenarios.LatestRequest | ui/app/internal/input/key.go:137-140 | Of two focus requests the last wins |
| Scenarios.NestedRequest | ui/app/internal/input/key.go:124-129 | A focus request inside a nested scope beats a default listener after the scope |
| Scenarios.FocusedListenerVanishes | ui/app/internal/input/key.go:56-64 | A focused listener that disappears is pruned: the focus becomes none with no call, and the text input closes |
| Scenarios.HideKeepsFocusButCloses | ui/app/internal/input/key.go:122-123 | A hide-input request closes the text input while the focused listener keeps the focus |
| Scenarios.PopEndsFrame | ui/app/internal/input/key.go:130-131 | Declarations after a top-level `Pop` are never read |

## Left out

- The byte-level op encoding and the `ops.Reader`/`opconst` packages are out of the model. The ops are already decoded into a sequence, and the reader is that sequence with a cursor.
- `decodeKeyHandlerOp` (key.go:142-150) is out of the model. It reads a byte and a type-asserted reference. Its panic cannot be reached, because it is only called for listener ops.
- The internals of `handlerEvents` are not part of this model. The sink is a log of `Add`/`Set` calls. The pending events are derived from the log with `Add` appending and `Set` replacing, which is an assumption about that type.
- Go's map iteration order in the deactivate and prune loops is not modelled. The loops pick keys in an arbitrary order, and their invariants show the order does not matter.
- The lazy creation of a nil `handlers` map (key.go:48-50) is not modelled. The map always exists, and the constructor makes it empty.
- `input.Key` is an opaque type compared only for equality, with nil as `None`. `keyHandler` pointers become a boolean liveness flag per key in a `map`.
- `ui.Ops` and the payload of forwarded input events are opaque.
- No fault is raised for an unknown op or an unmatched `Pop`. The code skips or stops silently, and the model does the same.
- `Input.KeyQueue.Deactivate`, `Input.KeyQueue.Prune`, `Input.KeyQueue.ChangeFocus` and `Input.KeyQueue.SetDirective` split `Frame`'s inline stages into methods. They do what the inline code does, in the same order.
- `Input.KeyQueue.Compete`, `Input.KeyQueue.Visit`, `Input.KeyQueue.Enter` and `Input.KeyQueue.Nest` split the cases of `resolveFocus`'s switch into methods in the same way.
- Input.HandlerEvents.Add: its contract states only the log of calls. The pending events follow from the log through `Apply`, and `KeyQueue.Push` states the effect on them.
