/** The `RTCDataChannel` binding object of src/interfaces/rtc_data_channel.cc.

    The binding wraps a native WebRTC data channel. While it holds the native pointer
    ("attached") every attribute getter asks the native channel; `CleanupInternals` releases
    the pointer exactly once, after copying every attribute into the binding's cache, and from
    then on the getters answer from the cache. The native channel itself (transport,
    buffering, its own state transitions) is an opaque value the environment may replace
    while the binding is attached.

    Every operation is a pure function returning the new binding together with the
    observable effects it had, in order: calls into the native channel, callbacks into the
    script, and stopping the binding's event loop. */
module DataChannel {
  import opened Optional
  import Utf8

  /** `webrtc::DataChannelInterface::DataState`. */
  datatype DataState = Connecting | Open | Closing | Closed

  /** The native channel, as far as the binding can observe it through its accessors. */
  datatype NativeChannel = NativeChannel(
    id: int,
    channelLabel: string,
    protocol: string,
    ordered: bool,
    negotiated: bool,
    maxRetransmits: nat,
    maxRetransmitTime: nat,
    bufferedAmount: nat,
    state: DataState)

  /** The eight attribute values a script can read (other than `readyState`, `priority` and
      `binaryType`). The binding's `_cached_*` fields have exactly this shape. */
  datatype Attributes = Attributes(
    id: int,
    channelLabel: string,
    maxPacketLifeTime: nat,
    maxRetransmits: nat,
    negotiated: bool,
    ordered: bool,
    protocol: string,
    bufferedAmount: nat)

  /** `node_webrtc::BinaryType`. */
  datatype BinaryType = Blob | ArrayBuffer

  /** The binding: the native channel while attached, the attribute cache, the script's
      `binaryType` preference and whether its event loop has been stopped. */
  datatype Binding = Binding(
    native: Option<NativeChannel>,
    cache: Attributes,
    binaryType: BinaryType,
    stopped: bool)
  {
    predicate Attached() {
      native.Some?
    }
  }

  /** `webrtc::DataBuffer`: the bytes handed to the native channel and whether they are
      binary or text. */
  datatype DataBuffer = DataBuffer(data: seq<Utf8.Byte>, binary: bool)

  /** An exception thrown into the script. */
  datatype JsError = TypeError(message: string)

  /** What an operation does outside the binding record, in the order it does it. */
  datatype Effect =
    | UnregisterObserver        // the native channel stops reporting to this binding
    | NativeSend(buffer: DataBuffer)
    | NativeClose
    | Dispatch(state: DataState) // HandleStateChange(state) queued on the event loop
    | StateCallback(value: string) // the script's `onstatechange` called with `value`
    | StopLoop                  // the binding's event loop is stopped

  /** The outcome of an operation: the next binding and the effects, in order. */
  datatype Step = Step(binding: Binding, effects: seq<Effect>)

  /** Whether an effect reaches into the native channel or queues a handler on the
      binding's event loop. */
  predicate TouchesNative(e: Effect) {
    e.UnregisterObserver? || e.NativeSend? || e.NativeClose? || e.Dispatch?
  }

  /** None of `effects` reaches into the native channel or queues a handler. */
  predicate LeavesNativeAlone(effects: seq<Effect>) {
    forall i :: 0 <= i < |effects| ==> !TouchesNative(effects[i])
  }

  lemma LeavesNativeAloneAppend(a: seq<Effect>, b: seq<Effect>)
    requires LeavesNativeAlone(a) && LeavesNativeAlone(b)
    ensures LeavesNativeAlone(a + b)
  {
    forall i | 0 <= i < |a + b|
      ensures !TouchesNative((a + b)[i])
    {
      if i >= |a| {
        assert (a + b)[i] == b[i - |a|];
      }
    }
  }

  /** The `onstatechange` arguments among `effects`, in order. */
  function Callbacks(effects: seq<Effect>): seq<string> {
    if |effects| == 0 then []
    else (if effects[0].StateCallback? then [effects[0].value] else []) + Callbacks(effects[1..])
  }

  /** How many times `effects` stops the event loop. */
  function StopCount(effects: seq<Effect>): nat {
    if |effects| == 0 then 0
    else (if effects[0].StopLoop? then 1 else 0) + StopCount(effects[1..])
  }

  lemma {:induction false} CallbacksAppend(a: seq<Effect>, b: seq<Effect>)
    ensures Callbacks(a + b) == Callbacks(a) + Callbacks(b)
  {
    if |a| > 0 {
      assert (a + b)[1..] == a[1..] + b;
      CallbacksAppend(a[1..], b);
    } else {
      assert a + b == b;
    }
  }

  lemma {:induction false} StopCountAppend(a: seq<Effect>, b: seq<Effect>)
    ensures StopCount(a + b) == StopCount(a) + StopCount(b)
  {
    if |a| > 0 {
      assert (a + b)[1..] == a[1..] + b;
      StopCountAppend(a[1..], b);
    } else {
      assert a + b == b;
    }
  }

  // ---------------------------------------------------------------------------------
  // Reading the native channel

  /** Every attribute the binding caches, read from the native channel's accessors at
      this moment. */
  function Capture(n: NativeChannel): Attributes {
    Attributes(
      n.id, n.channelLabel, n.maxRetransmitTime, n.maxRetransmits,
      n.negotiated, n.ordered, n.protocol, n.bufferedAmount)
  }

  /** The `readyState` string the script sees for a native state. */
  function StateName(s: DataState): string {
    match s
    case Connecting => "connecting"
    case Open => "open"
    case Closing => "closing"
    case Closed => "closed"
  }

  // ---------------------------------------------------------------------------------
  // Getters: each asks the native channel while attached and the cache otherwise

  function GetBufferedAmount(b: Binding): nat {
    if b.Attached() then b.native.value.bufferedAmount else b.cache.bufferedAmount
  }

  function GetId(b: Binding): int {
    if b.Attached() then b.native.value.id else b.cache.id
  }

  function GetLabel(b: Binding): string {
    if b.Attached() then b.native.value.channelLabel else b.cache.channelLabel
  }

  function GetMaxPacketLifeTime(b: Binding): nat {
    if b.Attached() then b.native.value.maxRetransmitTime else b.cache.maxPacketLifeTime
  }

  function GetMaxRetransmits(b: Binding): nat {
    if b.Attached() then b.native.value.maxRetransmits else b.cache.maxRetransmits
  }

  function GetNegotiated(b: Binding): bool {
    if b.Attached() then b.native.value.negotiated else b.cache.negotiated
  }

  function GetOrdered(b: Binding): bool {
    if b.Attached() then b.native.value.ordered else b.cache.ordered
  }

  function GetPriority(b: Binding): string {
    "high"
  }

  function GetProtocol(b: Binding): string {
    if b.Attached() then b.native.value.protocol else b.cache.protocol
  }

  /** Once the native channel is released the binding reports `closed`. */
  function GetReadyState(b: Binding): DataState {
    if b.Attached() then b.native.value.state else Closed
  }

  function GetBinaryType(b: Binding): BinaryType {
    b.binaryType
  }

  /** The answers of the eight attribute getters, gathered into one record. */
  function ReadAttributes(b: Binding): Attributes {
    Attributes(
      GetId(b), GetLabel(b), GetMaxPacketLifeTime(b), GetMaxRetransmits(b),
      GetNegotiated(b), GetOrdered(b), GetProtocol(b), GetBufferedAmount(b))
  }

  /** While attached, the getters answer with the native channel's current values and
      ignore whatever the cache holds. */
  lemma GettersReadLive(b: Binding)
    requires b.Attached()
    ensures ReadAttributes(b) == Capture(b.native.value)
    ensures GetReadyState(b) == b.native.value.state
  {
  }

  // ---------------------------------------------------------------------------------
  // Construction and teardown

  /** The cache's placeholder contents before any teardown. */
  const InitialCache := Attributes(0, "", 0, 0, false, false, "", 0)

  /** The constructor: attached to `n`, `binaryType` "arraybuffer", not stopped. */
  function NewBinding(n: NativeChannel): (b: Binding)
    ensures b.Attached() && !b.stopped
    ensures ReadAttributes(b) == Capture(n) && GetReadyState(b) == n.state
    ensures GetBinaryType(b) == ArrayBuffer
  {
    Binding(Some(n), InitialCache, ArrayBuffer, false)
  }

  /** The environment replaces the native channel's observable state. It can only be seen
      while the binding holds the pointer; afterwards nothing the native does reaches the
      binding. */
  function EnvStep(b: Binding, next: NativeChannel): (r: Binding)
    ensures !b.Attached() ==> r == b
    ensures b.Attached() ==>
      r.Attached() && ReadAttributes(r) == Capture(next) && GetReadyState(r) == next.state
    ensures r.cache == b.cache && r.binaryType == b.binaryType && r.stopped == b.stopped
  {
    if b.Attached() then b.(native := Some(next)) else b
  }

  /** `CleanupInternals`: a no-op once detached; otherwise unregister from the native
      channel, snapshot every attribute into the cache and drop the pointer. */
  function Cleanup(b: Binding): (r: Step)
    ensures !r.binding.Attached() && GetReadyState(r.binding) == Closed
    ensures !b.Attached() ==> r == Step(b, [])
    ensures b.Attached() ==> r.effects == [UnregisterObserver]
    ensures ReadAttributes(r.binding) == ReadAttributes(b)
    ensures r.binding.binaryType == b.binaryType && r.binding.stopped == b.stopped
  {
    match b.native
    case None => Step(b, [])
    case Some(n) => Step(b.(native := None, cache := Capture(n)), [UnregisterObserver])
  }

  /** Teardown is idempotent: a second `CleanupInternals` neither changes the binding nor
      touches the native channel. */
  lemma CleanupTwiceIsOnce(b: Binding)
    ensures Cleanup(Cleanup(b).binding) == Step(Cleanup(b).binding, [])
  {
  }

  /** `OnPeerConnectionClosed`: when attached, detach with snapshot and stop the event
      loop; otherwise nothing. */
  function OnPeerConnectionClosed(b: Binding): (r: Step)
    ensures !r.binding.Attached()
    ensures !b.Attached() ==> r == Step(b, [])
    ensures StopCount(r.effects) == (if b.Attached() then 1 else 0)
    ensures b.Attached() ==> r.binding.stopped
    ensures ReadAttributes(r.binding) == ReadAttributes(b)
    ensures r.binding.binaryType == b.binaryType
    ensures Callbacks(r.effects) == []
    ensures b.Attached() ==> r.effects == [UnregisterObserver, StopLoop]
  {
    if b.Attached() then
      var c := Cleanup(b);
      CallbacksAppend(c.effects, [StopLoop]);
      StopCountAppend(c.effects, [StopLoop]);
      Step(c.binding.(stopped := true), c.effects + [StopLoop])
    else
      Step(b, [])
  }

  // ---------------------------------------------------------------------------------
  // State changes

  /** `OnStateChange`, called by the native channel (so only while attached): on `closed`
      detach with snapshot first, then queue `HandleStateChange` with the state read. */
  function OnStateChange(b: Binding): (r: Step)
    requires b.Attached()
    ensures |r.effects| > 0 && r.effects[|r.effects| - 1] == Dispatch(b.native.value.state)
    ensures r.binding.Attached() <==> b.native.value.state != Closed
    ensures b.native.value.state != Closed ==> r.binding == b
    ensures ReadAttributes(r.binding) == ReadAttributes(b)
    ensures r.binding.stopped == b.stopped && r.binding.binaryType == b.binaryType
    ensures Callbacks(r.effects) == [] && StopCount(r.effects) == 0
    ensures r.effects == (if b.native.value.state == Closed then [UnregisterObserver] else [])
                         + [Dispatch(b.native.value.state)]
  {
    var state := b.native.value.state;
    var c := if state == Closed then Cleanup(b) else Step(b, []);
    CallbacksAppend(c.effects, [Dispatch(state)]);
    StopCountAppend(c.effects, [Dispatch(state)]);
    Step(c.binding, c.effects + [Dispatch(state)])
  }

  /** `HandleStateChange`, run on the event loop: tell the script about `open` and
      `closed` only, and stop the event loop on `closed`. */
  function HandleStateChange(b: Binding, state: DataState): (r: Step)
    ensures Callbacks(r.effects)
         == (if state == Open || state == Closed then [StateName(state)] else [])
    ensures StopCount(r.effects) == (if state == Closed then 1 else 0)
    ensures LeavesNativeAlone(r.effects)
    ensures r.binding.stopped == (b.stopped || state == Closed)
    ensures r.binding.native == b.native && r.binding.cache == b.cache
    ensures r.binding.binaryType == b.binaryType
    ensures r.effects == (if state == Closed then [StateCallback("closed"), StopLoop]
                          else if state == Open then [StateCallback("open")]
                          else [])
  {
    var announced := if state == Closed then [StateCallback("closed")]
                     else if state == Open then [StateCallback("open")]
                     else [];
    CallbacksAppend(announced, [StopLoop]);
    StopCountAppend(announced, [StopLoop]);
    if state == Closed then
      Step(b.(stopped := true), announced + [StopLoop])
    else
      Step(b, announced)
  }

  // ---------------------------------------------------------------------------------
  // send and close

  /** The script value passed to `send`. A typed array or DataView is a window of
      `byteLength` bytes at `byteOffset` into its backing buffer. */
  datatype HostValue =
    | JsString(text: seq<Utf8.Scalar>)
    | JsTypedArray(backing: seq<Utf8.Byte>, byteOffset: nat, byteLength: nat)
    | JsDataView(backing: seq<Utf8.Byte>, byteOffset: nat, byteLength: nat)
    | JsArrayBuffer(bytes: seq<Utf8.Byte>)
    | JsOther // a number, an object, a Blob, a SharedArrayBuffer, ...
  {
    /** The host runtime keeps every view inside its backing buffer. */
    predicate InBounds() {
      (JsTypedArray? || JsDataView?) ==> byteOffset + byteLength <= |backing|
    }
  }

  type JsValue = v: HostValue | v.InBounds() witness JsOther

  /** What `send` did. It always returns `undefined` to the script. */
  datatype SendOutcome =
    | Sent(buffer: DataBuffer)  // the native channel's Send was called with `buffer`
    | NotOpenIgnored            // an InvalidStateError was built but not thrown
    | Threw(error: JsError)

  /** The backing buffer, offset and length `send` copies from for a binary payload;
      None for anything that is neither a string nor binary. */
  function BinarySource(v: JsValue): (r: Option<(seq<Utf8.Byte>, nat, nat)>)
    requires !v.JsString?
    ensures r.Some? ==> r.value.1 + r.value.2 <= |r.value.0|
  {
    match v
    case JsTypedArray(buf, off, len) => Some((buf, off, len))
    case JsDataView(buf, off, len) => Some((buf, off, len))
    case JsArrayBuffer(bytes) => Some((bytes, 0, |bytes|))
    case JsOther => None
  }

  /** `send`: refused silently unless attached to an open channel; a string goes out as its
      UTF-8 bytes marked text; a typed array or DataView as exactly the bytes of its window,
      an ArrayBuffer as all of its bytes, both marked binary; anything else throws. */
  function Send(b: Binding, v: JsValue): (r: SendOutcome)
    ensures r.NotOpenIgnored? <==> GetReadyState(b) != Open
    ensures r.Threw? <==> GetReadyState(b) == Open && v.JsOther?
    ensures r.Threw? ==> r.error == TypeError("Expected a Blob or ArrayBuffer")
    ensures r.Sent? && v.JsString? ==>
      !r.buffer.binary && Utf8.Decode(r.buffer.data) == Some(v.text)
    ensures r.Sent? && (v.JsTypedArray? || v.JsDataView?) ==>
      && r.buffer.binary
      && |r.buffer.data| == v.byteLength
      && forall i :: 0 <= i < v.byteLength ==> r.buffer.data[i] == v.backing[v.byteOffset + i]
    ensures r.Sent? && v.JsArrayBuffer? ==> r.buffer.binary && r.buffer.data == v.bytes
  {
    if !b.Attached() || b.native.value.state != Open then
      NotOpenIgnored
    else if v.JsString? then
      Utf8.DecodeEncode(v.text);
      Sent(DataBuffer(Utf8.Encode(v.text), false))
    else
      match BinarySource(v)
      case None => Threw(TypeError("Expected a Blob or ArrayBuffer"))
      case Some((buf, off, len)) => Sent(DataBuffer(buf[off..off + len], true))
  }

  /** `close`: forwarded to the native channel while attached, otherwise nothing. The
      binding itself does not change: it detaches only when the native channel reports
      `closed`. */
  function Close(b: Binding): (r: Step)
    ensures r.binding == b
    ensures NativeClose in r.effects <==> b.Attached()
    ensures |r.effects| <= 1
    ensures !b.Attached() ==> r.effects == []
  {
    if b.Attached() then Step(b, [NativeClose]) else Step(b, [])
  }

  // ---------------------------------------------------------------------------------
  // binaryType

  /** The result of converting the script's value to a BinaryType; the conversion lives
      in src/enums/node_webrtc/binary_type.h, which is not part of this model. An invalid
      value carries at least one error message. */
  datatype BinaryTypeConversion =
    | Valid(value: BinaryType)
    | Invalid(firstError: string, moreErrors: seq<string>)

  datatype SetOutcome = SetOutcome(binding: Binding, thrown: Option<JsError>)

  /** The `binaryType` setter: a valid value replaces the preference, an invalid one
      throws a TypeError carrying the first conversion error and changes nothing. */
  function SetBinaryType(b: Binding, conversion: BinaryTypeConversion): (r: SetOutcome)
    ensures conversion.Invalid? ==>
      r.binding == b && r.thrown == Some(TypeError(conversion.firstError))
    ensures conversion.Valid? ==>
      r.thrown.None? && GetBinaryType(r.binding) == conversion.value
      && r.binding == b.(binaryType := conversion.value)
  {
    match conversion
    case Invalid(first, _) => SetOutcome(b, Some(TypeError(first)))
    case Valid(t) => SetOutcome(b.(binaryType := t), None)
  }
}
