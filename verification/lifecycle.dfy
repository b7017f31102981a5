/** Whole lifetimes of an `RTCDataChannel` binding: any interleaving of the environment
    changing the native channel, native state notifications, queued state-change handlers
    running, script calls and the peer connection closing. The lemmas here say what holds
    over every such run: teardown happens at most once, the attribute getters report the
    native channel's values at the moment of teardown ever after, and a detached binding
    never reaches into the native channel again. */
module Lifecycle {
  import opened DataChannel

  /** One event in the life of a binding. */
  datatype Op =
    | EnvChange(next: NativeChannel)      // the native channel changes on its own
    | NativeStateChange                   // the native channel calls OnStateChange
    | DeliverStateChange(state: DataState) // the event loop runs a queued HandleStateChange
    | CallSend(value: JsValue)
    | CallClose
    | PeerConnectionClosed
    | CallSetBinaryType(conversion: BinaryTypeConversion)

  /** Performs one event. The native channel only notifies observers that are registered,
      so a state notification reaches a detached binding as nothing at all. */
  function Apply(b: Binding, op: Op): (r: Step)
    ensures r.binding.Attached() ==> b.Attached()
    ensures !b.Attached() ==> r.binding.native.None? && r.binding.cache == b.cache
    ensures !b.Attached() ==> LeavesNativeAlone(r.effects)
    ensures b.Attached() && !r.binding.Attached() ==>
      ReadAttributes(r.binding) == Capture(b.native.value)
    ensures b.stopped ==> r.binding.stopped
  {
    match op
    case EnvChange(n) => Step(EnvStep(b, n), [])
    case NativeStateChange => if b.Attached() then OnStateChange(b) else Step(b, [])
    case DeliverStateChange(s) => HandleStateChange(b, s)
    case CallSend(v) =>
      var outcome := Send(b, v);
      Step(b, if outcome.Sent? then [NativeSend(outcome.buffer)] else [])
    case CallClose => Close(b)
    case PeerConnectionClosed => OnPeerConnectionClosed(b)
    case CallSetBinaryType(c) => Step(SetBinaryType(b, c).binding, [])
  }

  /** Performs the events in order with `step`, collecting their effects. */
  function Fold(b: Binding, ops: seq<Op>, step: (Binding, Op) -> Step): Step
    decreases |ops|
  {
    if |ops| == 0 then Step(b, [])
    else
      var first := step(b, ops[0]);
      var rest := Fold(first.binding, ops[1..], step);
      Step(rest.binding, first.effects + rest.effects)
  }

  /** Performs the events of a binding's life in order, collecting their effects. */
  function Run(b: Binding, ops: seq<Op>): Step {
    Fold(b, ops, Apply)
  }

  /** A non-empty fold is its first event followed by the fold of the rest. */
  lemma FoldCons(b: Binding, op: Op, ops: seq<Op>, step: (Binding, Op) -> Step)
    ensures Fold(b, [op] + ops, step)
         == Step(Fold(step(b, op).binding, ops, step).binding,
                 step(b, op).effects + Fold(step(b, op).binding, ops, step).effects)
  {
    assert ([op] + ops)[0] == op && ([op] + ops)[1..] == ops;
  }

  /** Folding two traces one after the other is folding their concatenation. */
  lemma {:induction false} FoldAppend(b: Binding, xs: seq<Op>, ys: seq<Op>, step: (Binding, Op) -> Step)
    ensures Fold(b, xs + ys, step).binding == Fold(Fold(b, xs, step).binding, ys, step).binding
    ensures Fold(b, xs + ys, step).effects
         == Fold(b, xs, step).effects + Fold(Fold(b, xs, step).binding, ys, step).effects
    decreases |xs|
  {
    if |xs| == 0 {
      assert xs + ys == ys;
    } else {
      var first := step(b, xs[0]);
      assert (xs + ys)[0] == xs[0];
      assert (xs + ys)[1..] == xs[1..] + ys;
      FoldAppend(first.binding, xs[1..], ys, step);
      var mid := Fold(first.binding, xs[1..], step).effects;
      var tail := Fold(Fold(first.binding, xs[1..], step).binding, ys, step).effects;
      assert first.effects + (mid + tail) == (first.effects + mid) + tail;
    }
  }

  // ---------------------------------------------------------------------------------
  // The one-event facts the whole-run lemmas rest on. They are stated for any step
  // function, so that the inductions below need not look inside every operation, and
  // `ApplyIsSound` shows that `Apply` has them.

  /** A step on a detached binding leaves it detached with the same cache, and does not
      reach into the native channel. */
  ghost predicate KeepsDetached(step: (Binding, Op) -> Step) {
    forall b: Binding, op: Op :: !b.Attached() ==>
      && step(b, op).binding.native.None?
      && step(b, op).binding.cache == b.cache
      && LeavesNativeAlone(step(b, op).effects)
  }

  /** No step gives a binding its native channel back. */
  ghost predicate NeverReattaches(step: (Binding, Op) -> Step) {
    forall b: Binding, op: Op :: step(b, op).binding.Attached() ==> b.Attached()
  }

  /** The step that detaches a binding leaves the getters answering what the native
      channel held just before. */
  ghost predicate SnapshotsOnDetach(step: (Binding, Op) -> Step) {
    forall b: Binding, op: Op :: b.Attached() && !step(b, op).binding.Attached() ==>
      ReadAttributes(step(b, op).binding) == Capture(b.native.value)
  }

  /** No step restarts a stopped event loop. */
  ghost predicate KeepsStopped(step: (Binding, Op) -> Step) {
    forall b: Binding, op: Op :: b.stopped ==> step(b, op).binding.stopped
  }

  /** The events other than `send` and setting `binaryType` do what the binding's
      operations do. */
  ghost predicate PerformsOperations(step: (Binding, Op) -> Step) {
    && (forall b: Binding, n: NativeChannel :: step(b, EnvChange(n)) == Step(EnvStep(b, n), []))
    && (forall b: Binding :: step(b, NativeStateChange)
          == if b.Attached() then OnStateChange(b) else Step(b, []))
    && (forall b: Binding, s: DataState :: step(b, DeliverStateChange(s)) == HandleStateChange(b, s))
    && (forall b: Binding :: step(b, CallClose) == Close(b))
    && (forall b: Binding :: step(b, PeerConnectionClosed) == OnPeerConnectionClosed(b))
  }

  ghost predicate Sound(step: (Binding, Op) -> Step) {
    KeepsDetached(step) && NeverReattaches(step) && SnapshotsOnDetach(step)
    && KeepsStopped(step) && PerformsOperations(step)
  }

  /** `Apply` has every one-event fact the whole-run lemmas need. */
  lemma ApplyIsSound()
    ensures Sound(Apply)
  {
    ApplyKeepsDetached();
    ApplyNeverReattaches();
    ApplySnapshotsOnDetach();
    ApplyKeepsStopped();
    ApplyPerformsOperations();
  }

  lemma ApplySnapshotsOnDetach()
    ensures SnapshotsOnDetach(Apply)
  {
    forall b: Binding, op: Op | b.Attached() && !Apply(b, op).binding.Attached()
      ensures ReadAttributes(Apply(b, op).binding) == Capture(b.native.value)
    {
    }
  }

  lemma ApplyKeepsStopped()
    ensures KeepsStopped(Apply)
  {
    forall b: Binding, op: Op | b.stopped
      ensures Apply(b, op).binding.stopped
    {
    }
  }

  lemma ApplyPerformsOperations()
    ensures PerformsOperations(Apply)
  {
    forall b: Binding, n: NativeChannel
      ensures Apply(b, EnvChange(n)) == Step(EnvStep(b, n), [])
    {
    }
    forall b: Binding
      ensures Apply(b, NativeStateChange) == if b.Attached() then OnStateChange(b) else Step(b, [])
    {
    }
    forall b: Binding, s: DataState
      ensures Apply(b, DeliverStateChange(s)) == HandleStateChange(b, s)
    {
    }
    forall b: Binding
      ensures Apply(b, CallClose) == Close(b)
    {
    }
    forall b: Binding
      ensures Apply(b, PeerConnectionClosed) == OnPeerConnectionClosed(b)
    {
    }
  }

  lemma ApplyKeepsDetached()
    ensures KeepsDetached(Apply)
  {
    forall b: Binding, op: Op | !b.Attached()
      ensures Apply(b, op).binding.native.None? && Apply(b, op).binding.cache == b.cache
      ensures LeavesNativeAlone(Apply(b, op).effects)
    {
    }
  }

  lemma ApplyNeverReattaches()
    ensures NeverReattaches(Apply)
  {
    forall b: Binding, op: Op | Apply(b, op).binding.Attached()
      ensures b.Attached()
    {
    }
  }

  // ---------------------------------------------------------------------------------
  // Whole runs

  lemma {:induction false} DetachedIsFinalFold(b: Binding, ops: seq<Op>, step: (Binding, Op) -> Step)
    requires KeepsDetached(step)
    requires !b.Attached()
    ensures !Fold(b, ops, step).binding.Attached()
    ensures Fold(b, ops, step).binding.cache == b.cache
    ensures LeavesNativeAlone(Fold(b, ops, step).effects)
    decreases |ops|
  {
    if |ops| > 0 {
      var first := step(b, ops[0]);
      DetachedIsFinalFold(first.binding, ops[1..], step);
      LeavesNativeAloneAppend(first.effects, Fold(first.binding, ops[1..], step).effects);
    }
  }

  /** Detached is for good: whatever happens afterwards, the binding never gets a native
      channel back, its cache never changes, every getter keeps its answer, `readyState`
      stays `closed`, and the native channel is never called again. */
  lemma DetachedIsFinal(b: Binding, ops: seq<Op>)
    requires !b.Attached()
    ensures !Run(b, ops).binding.Attached()
    ensures Run(b, ops).binding.cache == b.cache
    ensures ReadAttributes(Run(b, ops).binding) == ReadAttributes(b)
    ensures GetReadyState(Run(b, ops).binding) == Closed
    ensures LeavesNativeAlone(Run(b, ops).effects)
  {
    ApplyIsSound();
    DetachedIsFinalFold(b, ops, Apply);
  }

  lemma FrozenAtTeardownFold(b: Binding, ops: seq<Op>, k: nat, step: (Binding, Op) -> Step)
    requires KeepsDetached(step) && SnapshotsOnDetach(step)
    requires k < |ops|
    requires Fold(b, ops[..k], step).binding.Attached()
    requires !Fold(b, ops[..k + 1], step).binding.Attached()
    ensures !Fold(b, ops, step).binding.Attached()
    ensures ReadAttributes(Fold(b, ops, step).binding)
         == Capture(Fold(b, ops[..k], step).binding.native.value)
  {
    var before := Fold(b, ops[..k], step).binding;
    FoldAppend(b, ops[..k], [ops[k]], step);
    assert ops[..k] + [ops[k]] == ops[..k + 1];
    FoldCons(before, ops[k], [], step);
    var after := Fold(b, ops[..k + 1], step).binding;
    assert after == step(before, ops[k]).binding;
    FoldAppend(b, ops[..k + 1], ops[k + 1..], step);
    assert ops[..k + 1] + ops[k + 1..] == ops;
    DetachedIsFinalFold(after, ops[k + 1..], step);
  }

  /** Wherever in a run the binding is torn down, from then on every attribute getter
      answers with exactly the value the native channel had just before that event, and
      `readyState` answers `closed`. */
  lemma FrozenAtTeardown(b: Binding, ops: seq<Op>, k: nat)
    requires k < |ops|
    requires Run(b, ops[..k]).binding.Attached()
    requires !Run(b, ops[..k + 1]).binding.Attached()
    ensures !Run(b, ops).binding.Attached()
    ensures ReadAttributes(Run(b, ops).binding) == Capture(Run(b, ops[..k]).binding.native.value)
    ensures GetReadyState(Run(b, ops).binding) == Closed
  {
    ApplyIsSound();
    FrozenAtTeardownFold(b, ops, k, Apply);
  }

  lemma {:induction false} TeardownPointFold(b: Binding, ops: seq<Op>, step: (Binding, Op) -> Step)
    returns (k: nat)
    requires b.Attached()
    requires !Fold(b, ops, step).binding.Attached()
    ensures k < |ops|
    ensures Fold(b, ops[..k], step).binding.Attached()
    ensures !Fold(b, ops[..k + 1], step).binding.Attached()
    decreases |ops|
  {
    var first := step(b, ops[0]);
    assert ops[..1] == [ops[0]] && ops[..1][1..] == [];
    if !first.binding.Attached() {
      k := 0;
      assert ops[..0] == [];
    } else {
      var j := TeardownPointFold(first.binding, ops[1..], step);
      k := j + 1;
      assert ops[..k][0] == ops[0] && ops[..k][1..] == ops[1..][..j];
      assert ops[..k + 1][0] == ops[0] && ops[..k + 1][1..] == ops[1..][..j + 1];
    }
  }

  /** A run from an attached binding that ends detached has an event that tears it down,
      and from then on the getters answer with the native channel's values from
      just before that event. So the placeholder values the constructor puts in the cache
      are never what a getter reports, at any point of any run. */
  lemma TeardownPoint(b: Binding, ops: seq<Op>) returns (k: nat)
    requires b.Attached()
    requires !Run(b, ops).binding.Attached()
    ensures k < |ops|
    ensures Run(b, ops[..k]).binding.Attached()
    ensures !Run(b, ops[..k + 1]).binding.Attached()
    ensures ReadAttributes(Run(b, ops).binding) == Capture(Run(b, ops[..k]).binding.native.value)
  {
    k := TeardownPointFold(b, ops, Apply);
    FrozenAtTeardown(b, ops, k);
  }

  lemma {:induction false} AttachedReadsLiveFold(b: Binding, ops: seq<Op>, step: (Binding, Op) -> Step)
    requires NeverReattaches(step)
    requires Fold(b, ops, step).binding.Attached()
    ensures b.Attached()
    decreases |ops|
  {
    if |ops| > 0 {
      AttachedReadsLiveFold(step(b, ops[0]).binding, ops[1..], step);
    }
  }

  /** A run that ends attached started attached, and its getters read the live native
      channel, whatever the cache held. */
  lemma AttachedReadsLive(b: Binding, ops: seq<Op>)
    requires Run(b, ops).binding.Attached()
    ensures b.Attached()
    ensures ReadAttributes(Run(b, ops).binding) == Capture(Run(b, ops).binding.native.value)
  {
    ApplyIsSound();
    AttachedReadsLiveFold(b, ops, Apply);
  }

  lemma {:induction false} StoppedIsFinalFold(b: Binding, ops: seq<Op>, step: (Binding, Op) -> Step)
    requires KeepsStopped(step)
    requires b.stopped
    ensures Fold(b, ops, step).binding.stopped
    decreases |ops|
  {
    if |ops| > 0 {
      StoppedIsFinalFold(step(b, ops[0]).binding, ops[1..], step);
    }
  }

  /** Once stopped, a binding stays stopped. */
  lemma StoppedIsFinal(b: Binding, ops: seq<Op>)
    requires b.stopped
    ensures Run(b, ops).binding.stopped
  {
    ApplyIsSound();
    StoppedIsFinalFold(b, ops, Apply);
  }

  /** `n` events of one kind. */
  function Repeat(op: Op, n: nat): (r: seq<Op>)
    ensures |r| == n
    ensures forall i :: 0 <= i < n ==> r[i] == op
  {
    if n == 0 then [] else [op] + Repeat(op, n - 1)
  }

  lemma {:induction false} PeerClosedStopsOnceFold(b: Binding, n: nat, step: (Binding, Op) -> Step)
    requires PerformsOperations(step)
    ensures StopCount(Fold(b, Repeat(PeerConnectionClosed, n), step).effects)
         == (if b.Attached() && n > 0 then 1 else 0)
    ensures n > 0 ==> !Fold(b, Repeat(PeerConnectionClosed, n), step).binding.Attached()
    decreases n
  {
    if n > 0 {
      var first := OnPeerConnectionClosed(b);
      assert Repeat(PeerConnectionClosed, n) == [PeerConnectionClosed] + Repeat(PeerConnectionClosed, n - 1);
      FoldCons(b, PeerConnectionClosed, Repeat(PeerConnectionClosed, n - 1), step);
      PeerClosedStopsOnceFold(first.binding, n - 1, step);
      StopCountAppend(first.effects, Fold(first.binding, Repeat(PeerConnectionClosed, n - 1), step).effects);
    }
  }

  /** However often the peer connection reports that it closed, the binding stops its
      event loop at most once: once if it was attached, never if it was not. */
  lemma PeerClosedStopsOnce(b: Binding, n: nat)
    ensures StopCount(Run(b, Repeat(PeerConnectionClosed, n)).effects)
         == (if b.Attached() && n > 0 then 1 else 0)
    ensures n > 0 ==> !Run(b, Repeat(PeerConnectionClosed, n)).binding.Attached()
  {
    ApplyIsSound();
    PeerClosedStopsOnceFold(b, n, Apply);
  }

  /** The event sequence of a closing handshake. */
  function Handshake(closed: NativeChannel): seq<Op> {
    [CallClose] + ([EnvChange(closed)] + ([NativeStateChange] + [DeliverStateChange(Closed)]))
  }

  /** The same handshake, written as the operations it performs one after the other. */
  function HandshakeSteps(b: Binding, closed: NativeChannel): Step
    requires b.Attached()
  {
    var s1 := Close(b);
    var s3 := OnStateChange(EnvStep(s1.binding, closed));
    var s4 := HandleStateChange(s3.binding, Closed);
    Step(s4.binding, s1.effects + (s3.effects + s4.effects))
  }

  lemma HandshakeFold(b: Binding, closed: NativeChannel, step: (Binding, Op) -> Step)
    requires PerformsOperations(step)
    requires b.Attached()
    ensures Fold(b, Handshake(closed), step) == HandshakeSteps(b, closed)
  {
    var s1 := Close(b);
    var b2 := EnvStep(s1.binding, closed);
    var s3 := OnStateChange(b2);
    var s4 := HandleStateChange(s3.binding, Closed);
    var last := [DeliverStateChange(Closed)];
    FoldCons(s3.binding, DeliverStateChange(Closed), [], step);
    assert [DeliverStateChange(Closed)] + [] == last;
    var f4 := Fold(s3.binding, last, step);
    assert f4 == Step(s4.binding, s4.effects + []);
    FoldCons(b2, NativeStateChange, last, step);
    var f3 := Fold(b2, [NativeStateChange] + last, step);
    assert f3 == Step(s4.binding, s3.effects + f4.effects);
    FoldCons(s1.binding, EnvChange(closed), [NativeStateChange] + last, step);
    var f2 := Fold(s1.binding, [EnvChange(closed)] + ([NativeStateChange] + last), step);
    assert f2 == Step(s4.binding, [] + f3.effects);
    FoldCons(b, CallClose, [EnvChange(closed)] + ([NativeStateChange] + last), step);
    assert s4.effects + [] == s4.effects && [] + f3.effects == f3.effects;
  }

  lemma HandshakeStepsCloseOnce(b: Binding, closed: NativeChannel)
    requires b.Attached() && closed.state == Closed
    ensures var r := HandshakeSteps(b, closed);
      && !r.binding.Attached()
      && r.binding.stopped
      && Callbacks(r.effects) == ["closed"]
      && StopCount(r.effects) == 1
      && ReadAttributes(r.binding) == Capture(closed)
  {
    var s1 := Close(b);
    var s3 := OnStateChange(EnvStep(s1.binding, closed));
    var s4 := HandleStateChange(s3.binding, Closed);
    assert s1.effects == [NativeClose];
    assert s3.effects == [UnregisterObserver, Dispatch(Closed)];
    assert s4.effects == [StateCallback("closed"), StopLoop];
    assert Callbacks(s1.effects) == [] && StopCount(s1.effects) == 0;
    CallbacksAppend(s1.effects, s3.effects + s4.effects);
    CallbacksAppend(s3.effects, s4.effects);
    StopCountAppend(s1.effects, s3.effects + s4.effects);
    StopCountAppend(s3.effects, s4.effects);
  }

  /** A closing handshake as the script sees it: `close` is forwarded, the native channel
      reaches `closed`, its notification detaches the binding, and the queued handler
      announces `closed` once and stops the event loop once. The getters then still answer
      with the channel's values at the moment it closed. */
  lemma CloseHandshake(b: Binding, closed: NativeChannel)
    requires b.Attached() && closed.state == Closed
    ensures var r := Run(b, Handshake(closed));
      && !r.binding.Attached()
      && r.binding.stopped
      && Callbacks(r.effects) == ["closed"]
      && StopCount(r.effects) == 1
      && ReadAttributes(r.binding) == Capture(closed)
  {
    ApplyIsSound();
    HandshakeFold(b, closed, Apply);
    HandshakeStepsCloseOnce(b, closed);
  }
}
