# MyHome: an OpenWebNet-style frame codec and device registry in Dafny

MyHome is an Android app that switches the lights and shutters of a home
automation bus through a controller reached over TCP. Its core is the view
model `MyHomeViewModel`. It keeps the lights and shutters as two ordered lists,
with two id-to-position maps beside them. It encodes user intents as frames of
the form `*who*what*where##` (commands) and `*#who*where##` (status queries),
and sends them in batches over a short-lived command socket. Every text the
controller sends back is decoded: the text is split on `##`, each segment is
matched against `^\*(\d+)\*(\d+)\*(\d+)$`, and each matching frame is routed
on `who` (1 = light, 2 = shutter) to update the device with id `where` to
state `what`.

The project is organised like the program:

- `codec.dfy` (module `Codec`): Kotlin's `Int` as the subset type `Int32`.
  It also holds the decimal rendering of an `Int` inside a string template,
  `toInt` on a digit run (`None` where Kotlin throws because the value does
  not fit), `buildCommand`, `buildStatusCommand`, Kotlin's
  `split("##")`, and the anchored frame pattern with its three groups.
- `registry.dfy` (module `Registry`): the `Light`/`Shutter` record (one
  `Device` datatype, since both data classes have the same fields and
  defaults) and the two catalogs. It also holds the registry invariant
  `Indexed` (every map value is a valid position holding that id, and every
  listed id is a key), the `put` loop that fills a map, and the one-element
  state update.
- `pipeline.dfy` (module `Pipeline`): what `parseResponse` and
  `processResponseQueue` do to the registry, as functions of the registry
  value (`ApplySegment`, `ApplySegments`, `ApplyResponse`, `ApplyQueue`), with
  the round trip, filtering and ordering lemmas.
- `dispatcher.dfy` (module `Dispatcher`): `sendMessages` with the socket
  abstracted as the function from read number to the result of that read.
  It records the operations performed on the socket and the texts handed to
  the response queue.
- `viewmodel.dfy` (module `ViewModel`): the class `MyHomeViewModel`. Its
  fields are the two lists and the two maps. Its methods are the source's
  functions, each proved against the functions above. The file ends with an
  end-to-end scenario: switching light 31 on and consuming the controller's
  acknowledgement and echo.

Behaviour of the code that is easy to misread:

- `toInt` on a digit run of 2^31 or more throws `NumberFormatException`. The
  exception escapes `parseResponse` and ends the single consumer coroutine.
  The model returns an `Outcome` with `alive == false` that carries the
  registry as the exception left it: earlier segments stay applied, and
  nothing later is parsed. `who` is converted first; `where` and `what` are
  converted only for `who` 1 or 2.
- `getShuttersStatus` builds its queries with `who` = 1, the light kind, as
  the code does (`MyHomeViewModel.kt` line 147).
- A negative field renders with a `-`, which `\d` rejects. Such a command
  frame, when echoed, is skipped.
- `updateLightState` indexes the list at the position the map gives. It relies
  on the registry invariant that `getLights` establishes, which the class's
  `Valid()` states. The update methods require `Valid()` and preserve it.
- A read buffer of 32 bytes decodes to the bytes read followed by NUL
  characters up to 32. When those bytes end in `##`, the padding is a segment
  of its own and never matches. Otherwise the NULs join the last segment, which
  then fails the pattern. A read that fills all 32 bytes has no padding.
- Each queued text is the whole buffer and is split on its own. A frame cut
  in two by a read boundary leaves its head at the end of one buffer and its
  tail at the start of the next. After a short read the head is followed by
  NULs and fails the pattern, so the frame is lost. A cut right after the
  third `*` also loses the frame. Only when the head ends a read that filled
  all 32 bytes and the cut falls inside the last field does the head match,
  with a truncated `where`, so the wrong device is updated.

## Model

| member | source | states |
|---|---|---|
| Codec.IntToString | app/src/main/java/com/example/myhome/MyHomeViewModel.kt:324 | an `Int` in a template renders as a non-empty text without `*` or `#`: digits when non-negative, led by `-` when negative |
| Codec.DigitsValueOfDigits | app/src/main/java/com/example/myhome/MyHomeViewModel.kt:324 | reading back the decimal digits of n gives n |
| Codec.ToInt | app/src/main/java/com/example/myhome/MyHomeViewModel.kt:223-225 | `toInt` of a digit run succeeds exactly when its value is below 2^31, and then gives that value, a non-negative `Int` |
| Codec.ToIntOfIntToString | app/src/main/java/com/example/myhome/MyHomeViewModel.kt:223-225 | `toInt` reads back what the template wrote, for every non-negative `Int` |
| Codec.BuildCommand | app/src/main/java/com/example/myhome/MyHomeViewModel.kt:323-328 | a command frame is its `#`-free body followed by exactly one terminator; what the body parses back to is stated by `Codec.MatchCommandBody` and `Pipeline.RoundTrip` |
| Codec.BuildStatusCommand | app/src/main/java/com/example/myhome/MyHomeViewModel.kt:330-335 | a status query starts with `*#` and ends with the terminator |
| Codec.Split | app/src/main/java/com/example/myhome/MyHomeViewModel.kt:211 | Kotlin's `split("##")`: at least one part, the first a prefix of the text; its other properties are `JoinSplit`, `SplitJoin`, `SplitPartsDoNotEndInHash` and `SplitSegmentsHaveNoTerminator` |
| Codec.JoinSplit | app/src/main/java/com/example/myhome/MyHomeViewModel.kt:211 | joining the parts of `split("##")` with `##` gives back the text |
| Codec.SplitSegmentsHaveNoTerminator | app/src/main/java/com/example/myhome/MyHomeViewModel.kt:211 | no part of the split contains `##` |
| Codec.SplitWithoutHash | app/src/main/java/com/example/myhome/MyHomeViewModel.kt:211 | a text without `#` splits into itself alone |
| Codec.SplitAfterPlainSegment | app/src/main/java/com/example/myhome/MyHomeViewModel.kt:211 | a `#`-free segment followed by `##` is cut off as the first part, and the rest is split on its own |
| Codec.SplitPartsDoNotEndInHash | app/src/main/java/com/example/myhome/MyHomeViewModel.kt:211 | the split cuts at the leftmost `##`: no part but the last ends in `#` |
| Codec.SplitHasSplitForm | app/src/main/java/com/example/myhome/MyHomeViewModel.kt:211 | every split has the split form: no part holds `##`, and no part but the last ends in `#` |
| Codec.SplitJoin | app/src/main/java/com/example/myhome/MyHomeViewModel.kt:211 | parts of the split form, joined with `##`, split back into the same parts, so the split is the only such cut of a text |
| Codec.SplitAfterSegment | app/src/main/java/com/example/myhome/MyHomeViewModel.kt:211 | a segment without `##` that does not end in `#`, followed by `##`, is cut off as the first part |
| Codec.MatchFrameIff | app/src/main/java/com/example/myhome/MyHomeViewModel.kt:28 | the pattern accepts a segment with groups g exactly when the segment is `*` g.who `*` g.what `*` g.where with three non-empty ASCII digit runs |
| Codec.MatchFrame | app/src/main/java/com/example/myhome/MyHomeViewModel.kt:28 | an accepted segment starts with `*`, and its three groups are non-empty digit runs |
| Codec.MatchFrameSound | app/src/main/java/com/example/myhome/MyHomeViewModel.kt:217-221 | the groups the destructuring yields are digit runs that rebuild the whole segment |
| Codec.UnmatchedIfLastNotDigit | app/src/main/java/com/example/myhome/MyHomeViewModel.kt:28 | a segment whose last character is not a digit, such as one ending in NUL padding, never matches |
| Codec.MatchCommandBody | app/src/main/java/com/example/myhome/MyHomeViewModel.kt:324 | the body of a built command matches, with the rendered fields as groups, exactly when no field is negative |
| Codec.SplitCommand | app/src/main/java/com/example/myhome/MyHomeViewModel.kt:324 | a built command followed by any text splits into the command body, then the split of that text |
| Codec.SplitStatusCommand | app/src/main/java/com/example/myhome/MyHomeViewModel.kt:331 | a status query splits into its `*#`-prefixed body and a trailing empty part |
| Registry.PutIndices | app/src/main/java/com/example/myhome/MyHomeViewModel.kt:69-71 | after the `put` loop every listed id is a key mapped to the last position holding it, and entries for unlisted ids keep their values |
| Registry.FreshIndexIsIndexed | app/src/main/java/com/example/myhome/MyHomeViewModel.kt:60-72 | a map filled from empty by that loop satisfies the registry invariant |
| Registry.Lookup | app/src/main/java/com/example/myhome/MyHomeViewModel.kt:89-94 | looking an id up finds a device exactly when the id is a key, and the device found has that id and is in the list |
| Registry.SetState | app/src/main/java/com/example/myhome/MyHomeViewModel.kt:88-99 | the update keeps the length, ids, names and dimmable flags and the invariant; only the state at `index[id]` changes, to the new state, and only for a known id |
| Registry.SetStateUnknown | app/src/main/java/com/example/myhome/MyHomeViewModel.kt:91 | an unknown id leaves the list unchanged |
| Registry.LookupAfterSetState | app/src/main/java/com/example/myhome/MyHomeViewModel.kt:94-95 | looked up by id afterwards, the device updated is its `copy(state = newState)` and every other id reads as before |
| Registry.SetStateIdempotent | app/src/main/java/com/example/myhome/MyHomeViewModel.kt:88-99 | applying the same update twice equals applying it once |
| Pipeline.Route | app/src/main/java/com/example/myhome/MyHomeViewModel.kt:223-226 | routing a frame keeps the invariant and changes device states only |
| Pipeline.RouteEffect | app/src/main/java/com/example/myhome/MyHomeViewModel.kt:223-226 | after routing, the device of kind `who` (1 light, 2 shutter) with id `where` has state `what` if registered, and every other device of either kind reads as before |
| Pipeline.ApplySegment | app/src/main/java/com/example/myhome/MyHomeViewModel.kt:217-229 | handling one segment keeps the invariant and changes device states only |
| Pipeline.ApplySegments | app/src/main/java/com/example/myhome/MyHomeViewModel.kt:213-230 | handling the segments in order keeps the invariant and changes device states only; `ApplySegmentsAppend` states its order |
| Pipeline.ApplyResponse | app/src/main/java/com/example/myhome/MyHomeViewModel.kt:209-231 | parsing a text keeps the invariant and changes device states only; the lemmas below say which frames it routes |
| Pipeline.ApplyQueue | app/src/main/java/com/example/myhome/MyHomeViewModel.kt:200-207 | consuming the queue keeps the invariant and changes device states only; `ApplyQueueAppend` states its FIFO order |
| Pipeline.ApplySegmentsAppend | app/src/main/java/com/example/myhome/MyHomeViewModel.kt:213 | segments are handled left to right: a concatenation is its first part, then (if the consumer is still alive) the second |
| Pipeline.ApplyQueueAppend | app/src/main/java/com/example/myhome/MyHomeViewModel.kt:200-207 | queued texts are parsed in FIFO order, each against the result of the earlier ones |
| Pipeline.DeadConsumerAppliesNothing | app/src/main/java/com/example/myhome/MyHomeViewModel.kt:200-207 | once a `toInt` has thrown, nothing queued later is applied |
| Pipeline.ApplyCommandBody | app/src/main/java/com/example/myhome/MyHomeViewModel.kt:217-226 | the body of a built command is routed when no field is negative and skipped otherwise, and the consumer stays alive |
| Pipeline.RoundTrip | app/src/main/java/com/example/myhome/MyHomeViewModel.kt:323-328 | parsing `buildCommand(who, what, where)` for a light or shutter with non-negative fields routes exactly that frame, and the consumer stays alive |
| Pipeline.ParseEncodedThenRest | app/src/main/java/com/example/myhome/MyHomeViewModel.kt:211-226 | a run of built commands followed by any text routes every command in order, then parses the text |
| Pipeline.ParseEncoded | app/src/main/java/com/example/myhome/MyHomeViewModel.kt:211-226 | a text made only of built commands routes them left to right and never stops the consumer |
| Pipeline.TwoFramesInOrder | app/src/main/java/com/example/myhome/MyHomeViewModel.kt:211-230 | `*1*1*31##*2*0*82##` sets light 31 to 1, then shutter 82 to 0 |
| Pipeline.ApplyUnframedText | app/src/main/java/com/example/myhome/MyHomeViewModel.kt:227-229 | a text without `#` that does not start with `*` changes nothing |
| Pipeline.JunkIgnored | app/src/main/java/com/example/myhome/MyHomeViewModel.kt:217-229 | the empty text, a lone `##` and `garbage` change nothing |
| Pipeline.ParsePaddedFrames | app/src/main/java/com/example/myhome/MyHomeViewModel.kt:255 | a read buffer of built commands and NUL padding routes the commands in order and skips the padding |
| Pipeline.OtherKindIgnored | app/src/main/java/com/example/myhome/MyHomeViewModel.kt:223-226 | a frame whose `who` fits an `Int` but is neither 1 nor 2 is skipped, even when its other fields would overflow |
| Pipeline.OverflowStopsParsing | app/src/main/java/com/example/myhome/MyHomeViewModel.kt:223-225 | a frame whose `who` overflows, or a light or shutter frame whose `where` or `what` overflows, stops the consumer with the registry unchanged and nothing after it applied |
| Pipeline.StatusQueryInert | app/src/main/java/com/example/myhome/MyHomeViewModel.kt:330-335 | parsing any status query changes nothing: its `*#` prefix never matches and its trailing part is empty |
| Pipeline.StatusFrameInert | app/src/main/java/com/example/myhome/MyHomeViewModel.kt:217-229 | a frame `*#p*q##` with `#`-free `p` and `q` changes nothing |
| Pipeline.StatusReplyThenRest | app/src/main/java/com/example/myhome/MyHomeViewModel.kt:217-229 | a one-field status reply at the front of a text is skipped and the rest is parsed on its own |
| Pipeline.AckThenRest | app/src/main/java/com/example/myhome/MyHomeViewModel.kt:217-229 | an acknowledgement at the front of a buffer is skipped and what follows it is parsed |
| Pipeline.AckIgnored | app/src/main/java/com/example/myhome/MyHomeViewModel.kt:217-229 | the acknowledgement `*#*1##` and the refusal `*#*0##`, bare or NUL-padded, change nothing |
| Pipeline.FrameSplitAcrossReadsIsLost | app/src/main/java/com/example/myhome/MyHomeViewModel.kt:248-257 | a frame whose read boundary falls right after its third `*` is lost, with or without NUL padding after either half: both halves are skipped |
| Pipeline.FrameCutInsideLastField | app/src/main/java/com/example/myhome/MyHomeViewModel.kt:248-257 | when command frames and then the head of a light or shutter frame, cut inside its last field, fill a buffer with no padding, the frames are routed in order, then the device whose id is the truncated `where` is updated, and the padded tail is skipped |
| Pipeline.FrameCutHeadPaddedIsLost | app/src/main/java/com/example/myhome/MyHomeViewModel.kt:248-257 | when the head of a frame cut inside its last field is followed by NUL padding, the frames before it are routed and the cut frame is lost |
| Pipeline.LightThirtyOneReadAsThree | app/src/main/java/com/example/myhome/MyHomeViewModel.kt:248-257 | two 32-character buffers, the acknowledgement, two dim commands and `*1*1*3`, then `1##` and padding, dim lights 35 and 36 and switch light 3 on, not light 31 |
| Pipeline.ShortReadOfThirtyOneIsLost | app/src/main/java/com/example/myhome/MyHomeViewModel.kt:248-257 | `*1*1*3` padded to 32 characters, then `1##` padded, change nothing |
| Dispatcher.ReceivedBound | app/src/main/java/com/example/myhome/MyHomeViewModel.kt:254-258 | at most one text is enqueued per read, and none when no read returned a byte |
| Dispatcher.Exchange | app/src/main/java/com/example/myhome/MyHomeViewModel.kt:242-259 | frame i is written at position 2i and followed by the socket's read i; the frames written are the commands in order; the non-empty reads are enqueued in order |
| Dispatcher.Drain | app/src/main/java/com/example/myhome/MyHomeViewModel.kt:262-278 | between 1 and 10 consecutive reads, every one before the last non-empty, the last empty unless all 10 were used; the non-empty ones are enqueued in order |
| Dispatcher.SendMessages | app/src/main/java/com/example/myhome/MyHomeViewModel.kt:233-284 | the frames written are exactly the command handshake and then the messages; each is followed by exactly one read; then the drain reads; then the socket is closed; every non-empty read is enqueued in read order |
| Dispatcher.Buffer | app/src/main/java/com/example/myhome/MyHomeViewModel.kt:248-255 | a read of 1 to 32 bytes gives a 32-character text: the bytes read, then NUL padding |
| Dispatcher.BufferText | app/src/main/java/com/example/myhome/MyHomeViewModel.kt:248-255 | the text of such a read is the bytes read followed by `32 - count` NUL characters |
| Dispatcher.Closed | app/src/main/java/com/example/myhome/MyHomeViewModel.kt:266-274 | a read that sees the close returns -1 and a buffer of NULs, which the `bytesRead > 0` test skips |
| Dispatcher.SendOne | app/src/main/java/com/example/myhome/MyHomeViewModel.kt:233-284 | against a socket whose two reads return given results and which then closes, both frames are written, one drain read sees the close, and each of the two reads is enqueued exactly when it returned bytes |
| ViewModel.MyHomeViewModel.constructor | app/src/main/java/com/example/myhome/MyHomeViewModel.kt:38-41 | after `init` the lists are the catalogs, the maps hold exactly their ids, each mapped to its position, and the invariant holds |
| ViewModel.MyHomeViewModel.LoadedIndex | app/src/main/java/com/example/myhome/MyHomeViewModel.kt:69-71 | for a catalog with distinct ids every id is mapped to its own position, and a map filled from empty satisfies the invariant |
| ViewModel.MyHomeViewModel.GetLights | app/src/main/java/com/example/myhome/MyHomeViewModel.kt:60-72 | publishes the light catalog; each light id maps to its position; other keys keep their values; the shutters are untouched |
| ViewModel.MyHomeViewModel.GetShutters | app/src/main/java/com/example/myhome/MyHomeViewModel.kt:74-86 | the same for the shutter catalog |
| ViewModel.MyHomeViewModel.UpdateLightState | app/src/main/java/com/example/myhome/MyHomeViewModel.kt:88-99 | the lights become `SetState` of the old lights, the maps and shutters are unchanged, and the invariant is kept |
| ViewModel.MyHomeViewModel.UpdateShutterState | app/src/main/java/com/example/myhome/MyHomeViewModel.kt:101-112 | the same for the shutters |
| ViewModel.MyHomeViewModel.ChangeLightState | app/src/main/java/com/example/myhome/MyHomeViewModel.kt:114-129 | exactly the local update of `updateLightState`; one batch `[buildCommand(1, newState, id)]` when the id is registered, none otherwise |
| ViewModel.MyHomeViewModel.ChangeShutterState | app/src/main/java/com/example/myhome/MyHomeViewModel.kt:155-170 | the same for shutters, with `who` = 2 |
| ViewModel.MyHomeViewModel.GetLightsStatus | app/src/main/java/com/example/myhome/MyHomeViewModel.kt:131-141 | one status query `*#1*id##` per light, in list order |
| ViewModel.MyHomeViewModel.GetShuttersStatus | app/src/main/java/com/example/myhome/MyHomeViewModel.kt:143-153 | one status query per shutter, in list order, with `who` = 1 |
| ViewModel.MyHomeViewModel.HandleMessage | app/src/main/java/com/example/myhome/MyHomeViewModel.kt:213-230 | the new registry and liveness are those `ApplySegment` gives for the old registry |
| ViewModel.MyHomeViewModel.ParseResponse | app/src/main/java/com/example/myhome/MyHomeViewModel.kt:209-231 | the loop over the split segments ends in the registry and liveness `ApplyResponse` gives for the old registry |
| ViewModel.MyHomeViewModel.ProcessResponseQueue | app/src/main/java/com/example/myhome/MyHomeViewModel.kt:200-207 | the consumer loop over the queued texts ends in the registry and liveness `ApplyQueue` gives for the old registry |
| ViewModel.ConsumeEcho | app/src/main/java/com/example/myhome/MyHomeViewModel.kt:205 | consuming the NUL-padded echo of one non-negative command routes that command and keeps the consumer alive |
| ViewModel.ConsumeAckAndEcho | app/src/main/java/com/example/myhome/MyHomeViewModel.kt:200-207 | consuming the padded acknowledgement of the handshake and then the padded echo of one non-negative command routes that command and keeps the consumer alive |
| ViewModel.SwitchOnScenario | app/src/main/java/com/example/myhome/MyHomeViewModel.kt:114-129 | switching light 31 on writes the command handshake and `*1*1*31##`; once the padded acknowledgement and echo are consumed the consumer is alive, light 31 is `Bureau Centraal` with state 1, and every other light and every shutter is as in the catalogs |

## Left out

- `getSocket`, `monitorOWN` and its monitor handshake: these are network I/O. The monitor read loop enqueues every buffer it reads without testing the byte count (lines 189-195), unlike the command dispatcher, which enqueues a read only when `bytesRead > 0` (lines 254 and 269).
- A read that never returns: on this socket `readAvailable` waits until a byte arrives, and here every read returns, so `SendMessages` always reaches the close.
- Opening, writing to and flushing the sockets: the dispatcher records which frames are written, and a failing connect or write is not modelled.
- Coroutines: `viewModelScope.launch`, the dispatchers, the interleaving of the monitor and the command producers, and the bounded `Channel<String>(10)` with its suspension of producers. Only the single consumer's sequential fold over the queued texts is modelled.
- `delay(50)` in the drain loop, and every `Log` call.
- The decoding of the 32-byte read buffer with the platform charset: a byte is one character. `Dispatcher.SendMessages` accepts any read results; only the scenario builds them with `Dispatcher.Buffer`. Which bytes of a reply longer than 32 bytes land in which read is up to the socket, so the model takes the reads as given. The cut-frame lemmas of `Pipeline` state what parsing the pieces does.
- What Kotlin does with the uncaught exception of a throwing `toInt` after it leaves the consumer: the model only records that the consumer has stopped.
- The commented-out `setupCommandSocket`: it is dead code.
- `MainActivity.kt` and the Compose observability of `mutableStateOf`: the lists are plain fields holding a `seq`.
- `ownHost` and `ownPort`: these are connection parameters with no logic.
- The intents launch `sendMessages` on a coroutine. `ChangeLightState`, `ChangeShutterState`, `GetLightsStatus` and `GetShuttersStatus` return the batches they hand over, and `Dispatcher.SendMessages` models sending one batch.
