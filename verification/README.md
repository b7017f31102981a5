# RTCDataChannel binding lifecycle, in Dafny

This project models the `RTCDataChannel` binding object of node-webrtc
(`src/interfaces/rtc_data_channel.cc`). The binding is what a script holds. It wraps a
native WebRTC data channel and forwards calls to it. The model covers the part the
binding itself owns, which is a small sequential state machine:

- **Attached / detached.** A binding starts out holding the native channel.
  `CleanupInternals` releases it exactly once. Just before that, it copies every channel
  attribute (id, label, maxPacketLifeTime, maxRetransmits, negotiated, ordered, protocol,
  bufferedAmount) into the binding's cache.
- **Getters.** While attached, every attribute getter reads the native channel's current
  value. After teardown the getters read the cache, and `readyState` reads `closed`.
- **send.** `send` does nothing unless the binding is attached and the native state is
  `open`; it then builds the InvalidStateError and drops it. Otherwise it sorts the
  payload four ways:
  - a string goes out as its UTF-8 bytes, marked text;
  - a typed array or DataView goes out as exactly the bytes of its window, marked binary;
  - an ArrayBuffer goes out whole, marked binary;
  - anything else throws a TypeError.
- **State notifications.** On `closed`, the native notification first detaches the binding
  and then queues the handler. The handler calls `onstatechange` for `open` and `closed`
  only, and stops the event loop on `closed`.
- **close and peer-connection teardown.** `close` is forwarded only while attached. When
  the peer connection closes, an attached binding is detached and its event loop stopped.
- **binaryType.** A valid value replaces the preference (default `arraybuffer`); an
  invalid one throws and changes nothing.

The native channel is an opaque value (`DataChannel.NativeChannel`). The environment may
replace it while the binding is attached (`DataChannel.EnvStep`). Each operation is a
pure function that returns the next binding plus the ordered list of its effects:
- calls into the native channel;
- queued handlers;
- `onstatechange` callbacks;
- stopping the event loop.

`Lifecycle.Run` folds any sequence of events over a binding. The lemmas in `Lifecycle`
state what holds for every such run.

Files:
- `optional.dfy`: the Option type.
- `utf8.dfy`: UTF-8 encoding of a script string, and its strict decoder. The decoder is
  the partner the encoder is checked against, with round trips in both directions.
- `data_channel.dfy`: the binding record, its getters and its operations.
- `lifecycle.dfy`: events, runs, and the whole-run properties.

The binding is meant to implement the `RTCDataChannel` interface of the W3C WebRTC 1.0
specification. Where the code departs from that specification, the model follows the
code:
- `send` on a channel that is not open neither fails nor throws. It returns `undefined`,
  and the InvalidStateError it builds is discarded. The specification's `send()` throws
  InvalidStateError when `readyState` is not "open". The code marks both places with a
  FIXME (src/interfaces/rtc_data_channel.cc:181 and 221).
- `close` does not itself detach the binding or change its state. The specification's
  `close()` sets `readyState` to "closing" at once. Here `readyState` follows the native
  channel, and detaching waits for the native channel to report `closed`.
- Each `close` while attached is forwarded again. The specification's `close()` does
  nothing once the channel is closing or closed. Here, making a repeated close harmless
  is up to the native channel.

## Model

| member | source | states |
|---|---|---|
| `DataChannel.NewBinding` | src/interfaces/rtc_data_channel.cc:62-93 | A new binding is attached and not stopped, and `binaryType` is `arraybuffer`. Every getter already answers with the native channel's values. `Lifecycle.TeardownPoint` shows the placeholder cache contents are never observable later either. |
| `DataChannel.GettersReadLive` | src/interfaces/rtc_data_channel.cc:236-311 | While attached, the eight attribute getters and `readyState` answer with the native channel's current values, whatever the cache holds. |
| `DataChannel.Cleanup` | src/interfaces/rtc_data_channel.cc:102-116 | After teardown the binding is detached and `readyState` is `closed`. Every attribute getter answers exactly as it did just before teardown. An attached binding unregisters from the native channel once. A detached one is left unchanged with no effect. binaryType and the stopped flag are untouched. |
| `DataChannel.CleanupTwiceIsOnce` | src/interfaces/rtc_data_channel.cc:102-105 | A second teardown changes nothing and calls nothing, so tearing down twice equals tearing down once. |
| `DataChannel.OnPeerConnectionClosed` | src/interfaces/rtc_data_channel.cc:118-123 | The binding ends detached, with its getters' answers unchanged. It stops the event loop exactly once if it was attached and never otherwise. An attached binding produces exactly two effects: first it unregisters from the native channel, then it stops the loop. It never sends, closes or calls back. If it was already detached, the call has no effect. |
| `DataChannel.OnStateChange` | src/interfaces/rtc_data_channel.cc:125-133 | The binding detaches exactly when the native state is `closed`, keeping every getter's answer. Detaching happens before the handler carrying that state is queued, and the queued handler is the last effect. The effects are exactly one unregistration followed by the queued handler on `closed`, and the queued handler alone otherwise. Nothing is sent, closed or called back. Other states leave the binding unchanged. |
| `DataChannel.HandleStateChange` | src/interfaces/rtc_data_channel.cc:135-148 | `onstatechange` is called once with "open" for `open` and once with "closed" for `closed`, and never for the other states. The event loop is stopped exactly on `closed`, and only after the "closed" callback. The native channel is not touched, and the attachment and cache are unchanged. |
| `DataChannel.Send` | src/interfaces/rtc_data_channel.cc:177-227 | Not open, or detached: nothing is sent and nothing is thrown. Open with an unsupported value: throws a TypeError "Expected a Blob or ArrayBuffer" and sends nothing. A string is sent as text whose bytes decode back to that string. A typed array or DataView is sent as binary holding exactly bytes [offset, offset+length) of its buffer. An ArrayBuffer is sent as binary holding all of its bytes. |
| `DataChannel.Close` | src/interfaces/rtc_data_channel.cc:229-234 | The native channel is asked to close exactly when the binding is attached, and that request is the only effect. On a detached binding `close` does nothing at all. The binding itself is never changed. |
| `DataChannel.SetBinaryType` | src/interfaces/rtc_data_channel.cc:319-326 | An invalid value throws a TypeError carrying the first conversion error and leaves the binding unchanged. A valid value is what `binaryType` reads afterwards, and nothing else changes. |
| `Utf8.Encode` | src/interfaces/rtc_data_channel.cc:186-187 | The UTF-8 form of a string has at least as many bytes as the string has characters, and at most four times as many. The exact bytes are fixed by the two round-trip lemmas below. |
| `Utf8.AsciiEncodesToItself` | src/interfaces/rtc_data_channel.cc:186-189 | An ASCII string is sent as exactly its character codes. |
| `Utf8.DecodeEncode` | src/interfaces/rtc_data_channel.cc:185-190 | The bytes sent for a string decode back to that string. |
| `Utf8.EncodeDecode` | src/interfaces/rtc_data_channel.cc:185-190 | Every byte string the strict decoder accepts is the encoding of what it decodes to. So the encoder's outputs are exactly the well-formed UTF-8 strings. |
| `Lifecycle.Apply` | src/interfaces/rtc_data_channel.cc:102-133 | No event reattaches a binding. On a detached binding, no event changes the cache, reaches into the native channel or queues a handler. The event that detaches leaves the getters answering with the native values from just before it. A stopped binding stays stopped. |
| `Lifecycle.DetachedIsFinal` | src/interfaces/rtc_data_channel.cc:236-311 | After teardown, over any later sequence of events: the binding stays detached; the cache and every getter's answer are fixed; `readyState` is `closed`; the native channel is never called again. |
| `Lifecycle.FrozenAtTeardown` | src/interfaces/rtc_data_channel.cc:106-115 | Wherever in a run teardown happens, every getter ever after answers with the native channel's value from just before that event. |
| `Lifecycle.TeardownPoint` | src/interfaces/rtc_data_channel.cc:86-115 | Every run from an attached binding that ends detached has an event that tears it down. From then on, every getter answers with the native values from just before that event. So the constructor's placeholder cache values are never what a getter reports. |
| `Lifecycle.AttachedReadsLive` | src/interfaces/rtc_data_channel.cc:236-304 | A run that ends attached also started attached. Its getters read the live native channel. |
| `Lifecycle.StoppedIsFinal` | src/interfaces/rtc_data_channel.cc:118-148 | No sequence of events restarts a stopped event loop. |
| `Lifecycle.PeerClosedStopsOnce` | src/interfaces/rtc_data_channel.cc:118-123 | Any number of peer-connection-closed reports stop the event loop once if the binding was attached, and never if it was not. The binding ends detached. |
| `Lifecycle.CloseHandshake` | src/interfaces/rtc_data_channel.cc:125-148 | A close handshake runs as follows: `close`, then the native channel reaching `closed`, then its notification, then the queued handler. The binding ends detached and stopped. `onstatechange` is called exactly once, with "closed", and the loop is stopped once. The getters report the channel as it was when it closed. |

## Left out

- Host-runtime glue is not modelled: `Init`, `Create`, `wrap`, `constructor()`, the
  value conversions `CONVERT_OR_THROW_AND_RETURN_NAPI` and `HandleScope`. This includes
  the TypeError thrown when the constructor is called without `new`, and any error
  converting a getter's value to a script value.
- Reference counting on the peer connection factory (`Ref` / `Unref`) and observer
  registration are foreign resource management. Unregistration shows up only as the
  `UnregisterObserver` effect of teardown.
- Event queuing across threads is not modelled (`DataChannelObserver`, `Enqueue`,
  `Dispatch`, `requeue` and the replay of queued events in the constructor). A queued
  handler is an effect. Running a handler is a separate event that may run any handler,
  queued or not, at any time, even after the event loop is stopped. So a stopped,
  detached binding can still call `onstatechange`. The whole-run safety properties do
  not depend on handlers having been queued.
- DataChannel.OnStateChange: requires an attached binding, because src/interfaces/rtc_data_channel.cc:126 dereferences
  the native pointer without a check. This relies on teardown unregistering the observer
  (line 106) before the pointer is cleared, so the native channel no longer notifies.
  Native notifications run on the native library's thread, but the model serialises
  them with script calls: each operation is atomic. The races this hides are not
  represented. One is a teardown between the null test at line 179 and the dereferences
  at lines 180 and 190 in `send`. Another is a getter reading a half-written cache while
  lines 107-115 run.
- `OnMessage` / `HandleMessage` are not modelled. They copy raw memory into a script
  value, and the text path builds the string from an unterminated buffer, so no text
  round trip is claimed for received messages.
- The native data channel's internals are an opaque environment: SCTP transport,
  fragmentation, reliability, buffered-amount accounting and its own state transitions.
  The native channel's own `Send` result is ignored by the binding and not modelled.
- `GetPriority` always answers "high". It is a constant function with no contract.
- `Stop()` is not modelled: its body lives in the asynchronous object wrapper, which is
  not part of this model. Stopping is recorded as the `StopLoop` effect plus the
  `stopped` flag.
- The conversion of a script value to a BinaryType (`From<BinaryType>`) is in
  `src/enums/node_webrtc/binary_type.h`, which is not part of this model. It is an input
  to `DataChannel.SetBinaryType`: valid with a value, or invalid with at least one error.
- DataChannel.Send: a script string is taken as a sequence of Unicode scalar values. The
  host runtime's replacement of unpaired UTF-16 surrogates by U+FFFD before encoding is
  not modelled.
- Integer widths of the native accessors (`int` id, 16-bit retransmit limits, 64-bit
  buffered amount) are not modelled. The binding copies these values unchanged, so
  unbounded integers say the same thing.
