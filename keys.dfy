/** Vocabulary of the keyboard-focus queue: listener identities, the decoded
    declaration ops, listener priorities, the text-input directive and the
    calls the queue makes on the per-handler event sink. */
module KeyOps {

  /** An opaque listener identity, compared only for equality. */
  type Key(==)

  /** The contents of an input event other than a focus change. */
  type Payload

  /** The conventional Some/None wrapper; a nil `input.Key` is `None`. */
  datatype Option<T> = None | Some(value: T)

  /** The events the queue delivers: focus changes, and whatever `Push` forwards. */
  datatype Event = FocusEvent(focus: bool) | InputEvent(payload: Payload)

  /** A decoded key-listener declaration: the listener and whether it asks for focus. */
  datatype HandlerOp = HandlerOp(key: Key, focus: bool)

  /** A decoded declaration op. `Other` stands for every op type the key queue ignores. */
  datatype Op = KeyHandler(handler: HandlerOp) | HideInput | Push | Pop | Other

  /** Listener priorities, in declaration order (an enumeration starting at zero). */
  datatype Priority = PriNone | PriDefault | PriCurrentFocus | PriNewFocus

  /** The numeric value of a priority. */
  function Rank(p: Priority): (n: nat)
    ensures n < 4
    ensures p == PriNone <==> n == 0
    ensures p == PriNewFocus <==> n == 3
  {
    match p
    case PriNone => 0
    case PriDefault => 1
    case PriCurrentFocus => 2
    case PriNewFocus => 3
  }

  /** Whether a candidate of priority `p` takes over from a running winner of
      priority `p2`: when strictly higher, or when both request focus. */
  predicate Replaces(p: Priority, p2: Priority): (b: bool)
    ensures p == PriNone ==> !b
    ensures p2 == PriNone ==> (b <==> p != PriNone)
    ensures p == p2 ==> (b <==> p == PriNewFocus)
    ensures p == PriNewFocus ==> b
  {
    Rank(p) > Rank(p2) || (p == p2 && p == PriNewFocus)
  }

  /** The priority of a listener declaration, given the focus at the start of the frame. */
  function PriorityOf(h: HandlerOp, prev: Option<Key>): (p: Priority)
    ensures p != PriNone
    ensures p == PriNewFocus <==> h.focus
    ensures p == PriCurrentFocus <==> !h.focus && prev == Some(h.key)
  {
    if h.focus then PriNewFocus
    else if prev == Some(h.key) then PriCurrentFocus
    else PriDefault
  }

  /** The three-way text-input directive. */
  datatype TextInputState = TextInputKeep | TextInputClose | TextInputOpen

  /** One call on the event sink: `Add` delivers one event, `Set` replaces the pending list. */
  datatype SinkCall = AddCall(key: Key, event: Event) | SetCall(key: Key, events: seq<Event>)

  /** The pending events per listener after one sink call: `Add` appends to the
      listener's list (an absent list counts as empty), `Set` replaces it. */
  function Deliver(pending: map<Key, seq<Event>>, c: SinkCall): (r: map<Key, seq<Event>>)
    ensures r.Keys == pending.Keys + {c.key}
    ensures c.AddCall? ==> r[c.key] == (if c.key in pending then pending[c.key] else []) + [c.event]
    ensures c.SetCall? ==> r[c.key] == c.events
    ensures forall k :: k in pending && k != c.key ==> r[k] == pending[k]
  {
    match c
    case AddCall(k, e) => pending[k := (if k in pending then pending[k] else []) + [e]]
    case SetCall(k, es) => pending[k := es]
  }

  /** The pending events per listener after a sequence of sink calls, oldest first. */
  function Apply(pending: map<Key, seq<Event>>, calls: seq<SinkCall>): map<Key, seq<Event>>
    decreases |calls|
  {
    if calls == [] then pending
    else Apply(Deliver(pending, calls[0]), calls[1..])
  }

  /** Applying two runs of calls is applying the first, then the second. */
  lemma {:induction false} ApplyAppend(pending: map<Key, seq<Event>>, a: seq<SinkCall>, b: seq<SinkCall>)
    ensures Apply(pending, a + b) == Apply(Apply(pending, a), b)
    decreases |a|
  {
    if a == [] {
      assert a + b == b;
    } else {
      assert (a + b)[0] == a[0];
      assert (a + b)[1..] == a[1..] + b;
      ApplyAppend(Deliver(pending, a[0]), a[1..], b);
    }
  }

  /** Calls that name other listeners leave a listener's pending events alone. */
  lemma {:induction false} ApplyOthers(pending: map<Key, seq<Event>>, calls: seq<SinkCall>, k: Key)
    requires forall i :: 0 <= i < |calls| ==> calls[i].key != k
    ensures k in Apply(pending, calls) <==> k in pending
    ensures k in pending ==> Apply(pending, calls)[k] == pending[k]
    decreases |calls|
  {
    if calls != [] {
      assert forall i :: 0 <= i < |calls| - 1 ==> calls[1..][i] == calls[i + 1];
      ApplyOthers(Deliver(pending, calls[0]), calls[1..], k);
    }
  }

  /** A final sink call decides the listener it names as `Deliver` does. */
  lemma ApplyLast(pending: map<Key, seq<Event>>, calls: seq<SinkCall>, c: SinkCall)
    ensures Apply(pending, calls + [c]) == Deliver(Apply(pending, calls), c)
  {
    ApplyAppend(pending, calls, [c]);
    assert [c][1..] == [];
  }
}
