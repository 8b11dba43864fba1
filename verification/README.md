# Screen-capture pipeline, modelled in Dafny

This project models the core of `love-screencap`, a Lua module that captures
a monitor or a window. It delivers the frames to Lua at a requested size and
at a capped rate. The pipeline has two sides joined by two channels:

- the **capture worker** (`Capture` in `src/lib.rs`) is called once per
  captured frame. Each call drains the command channel, applies the
  frame-rate gate and sends the frame on the event channel, either at its
  own size or resampled to the requested size;
- the **consumer handle** (`LuaCapture`) turns setter calls into text
  commands. It keeps the values given at creation as mirrors. Its
  `updateRender` drains the events: it keeps the newest frame while running,
  and on "closed" it stops, clears the frame and calls the close callback.

Target lookup (`find_monitor_or_window` in `src/monitor_or_window.rs`)
searches monitors first, then windows.

Files, one module each:

- `basics.dfy`: `Option`, `Result`, the `i32`/`u32`/`usize` types and the
  Rust `as` casts between them, with their wrap-around written out.
- `codec.dfy`: the command payload format. It covers `i32::to_string`,
  `str::parse::<i32>` (optional sign, at least one digit, in range),
  `unwrap_or(0)`, `split('@')` and the `"{w}@{h}"` resolution payload.
- `protocol.dfy`: frames (RGBA bytes plus width and height), commands,
  events, and a channel as a FIFO sequence with `Send` and `TryRecv`.
- `worker.dfy`: the `Capture` class, the pure command semantics
  (`Apply`, `ApplyAll`, `Carried`) and the emission decision (`TargetSize`,
  `EmittedFrame`).
- `targets.dfy`: the target search as a first-match search over two
  sequences.
- `consumer.dfy`: the `LuaCapture` class, the pure drain semantics
  (`Receive`, `ReceiveAll`) and `New` (`lua_new`).
- `scenarios.dfy`: whole-pipeline runs through `New`, the handle and the
  worker.

Three behaviours of the code are easy to misread:

- A "stop" is honoured only when it is the first message of a batch
  (src/lib.rs:73-79). A later "stop" is ignored (see Findings).
- After an honoured "stop", the same call still drains the rest of the
  batch (src/lib.rs:85-97), applies the gate and sends the frame, after
  the "closed" event. Stopping the session does not end the call in which
  it happens.
- The gate is applied only when the frame rate is positive
  (src/lib.rs:100), so any frame rate `<= 0`, not only 0, means "every
  frame".

## Model

| member | source | states |
|---|---|---|
| Basics.U32AsI32 | src/lib.rs:123 | `frame_width as i32` is the i32 congruent to the width modulo 2^32; it is non-negative exactly when the width fits in an i32 |
| Basics.I32AsU32 | src/lib.rs:154-155 | `self.width as u32` is the u32 congruent modulo 2^32, and casting back to i32 gives the original value |
| Basics.I32AsUsize | src/monitor_or_window.rs:11 | `target as usize` sign-extends: unchanged for non-negative ids, above the i32 range for negative ones |
| Basics.UsizeAsI32 | src/monitor_or_window.rs:18 | a window handle cast to i32 keeps its low 32 bits |
| Codec.NatToString | src/lib.rs:188 | decimal rendering is non-empty, all digits, no leading zero, and starts with '0' only for 0 |
| Codec.I32ToString | src/lib.rs:188 | `i32::to_string` output is canonical (no '+', no leading zero, no "-0") and starts with '-' exactly for negative values |
| Codec.ParseI32Accepts | src/lib.rs:63 | what `str::parse::<i32>` accepts: text that parses is an optional sign then digits only, the sign fixes the sign of the value, and an unsigned digit string parses exactly when its value fits, to that value |
| Codec.ParseNegated | src/lib.rs:63 | a '-' followed by digits parses to the negated value whenever it fits |
| Codec.ParseOrZero | src/lib.rs:63 | `unwrap_or(0)` never fails: it yields the parsed value when parsing succeeds, and 0 when parsing failed |
| Codec.ParseToStringRoundTrip | src/lib.rs:188 | every i32 rendered by `to_string` parses back to itself (also through `unwrap_or(0)`), and the rendering is canonical |
| Codec.ToStringParseRoundTrip | src/lib.rs:63 | a canonical numeral that parses is exactly the rendering of its value |
| Codec.NonNumeralReadsAsZero | src/lib.rs:87 | empty text, a lone sign, or any non-digit outside a leading sign fails to parse, and the worker reads it as 0 |
| Codec.OverflowReadsAsZero | src/lib.rs:70 | a digit string whose value exceeds the i32 range is read as 0 |
| Codec.Split | src/lib.rs:65 | `split('@')` yields at least one piece and no piece contains the separator |
| Codec.JoinSplit | src/lib.rs:89 | the pieces joined with the separator give back the payload |
| Codec.SplitJoin | src/lib.rs:89 | splitting separator-free pieces that were joined gives back the pieces |
| Codec.I32ToStringHasNoAt | src/lib.rs:194 | a rendered i32 never contains '@' |
| Codec.EncodeResolution | src/lib.rs:194 | the `"{w}@{h}"` payload splits on '@' into exactly the two renderings of w and h |
| Codec.DecodeReadsFirstTwoPieces | src/lib.rs:65-68 | the worker's resolution reading (`DecodeResolution`) of any '@'-joined payload is the `unwrap_or(0)` values of its first two pieces; further pieces are ignored |
| Codec.ResolutionRoundTrip | src/lib.rs:194 | every `"{w}@{h}"` payload splits into exactly two pieces and decodes to (w, h) |
| Worker.Apply | src/lib.rs:62-72 | each field after one command is the value the command carries for it, else unchanged |
| Worker.ValueComesFromBatch | src/lib.rs:60-98 | after a drain (`ApplyAll`) each field holds its old value or a value some command of the batch carries |
| Worker.LastWriteWins | src/lib.rs:60-98 | after a drain a field holds the value of the last queued command that sets it |
| Worker.UnsetFieldKept | src/lib.rs:85-97 | a field no queued command sets keeps its value |
| Worker.UnknownCommandIsNoOp | src/lib.rs:85-97 | commands other than the four setters change nothing |
| Worker.LaterStopIgnored | src/lib.rs:85-97 | inserting a "stop" at any position but the first changes neither the stop decision nor the resulting settings |
| Worker.StopCountPositive | src/lib.rs:73 | a batch contains a "stop" exactly when its stop count is positive |
| Worker.StopBehindCommandIsLost | src/lib.rs:73-97 | a batch [c, stop] with c not a stop contains one stop, yet the as-written drain does not honour it |
| Worker.TargetSize | src/lib.rs:115-129 | a zero requested dimension means native size; resampling happens exactly when both are non-zero and the requested size (as u32) differs from the source size; the resampled size is the requested one |
| Worker.EmittedFrame | src/lib.rs:115-157 | a native-size emission is the source frame unmodified; whenever resampling is chosen, the result is the resampler's output at the requested size (as u32), so a positive requested size is always honoured |
| Worker.EmittedFrameWellSized | src/lib.rs:130-156 | an emitted frame keeps 4 bytes per pixel when the source and the resampler do |
| Worker.Capture.constructor | src/lib.rs:44-53 | missing width, height and rate default to 0; channels and clock are taken over |
| Worker.Capture.Update | src/lib.rs:62-72 | one setter branch updates the fields as `Apply` says and touches nothing else |
| Worker.Capture.OnFrameArrived | src/lib.rs:55-160 | empties the command queue; settings become `ApplyAll` of the batch; a first "stop" adds exactly one "closed" event and one stop request; then exactly one "frame" event unless the gate drops it; rate `<= 0` never drops and leaves the timestamp unchanged |
| Worker.Capture.Emit | src/lib.rs:100-157 | the gate and send: dropped only when the rate is positive and the interval has not elapsed; the timestamp moves to now only on a gated emission |
| Worker.Capture.OnFrameArrivedHonouringStop | src/lib.rs:85-98 | corrected drain: one "closed" event and one stop request per queued "stop", wherever it stands; otherwise as OnFrameArrived |
| Worker.Capture.OnClosed | src/lib.rs:162-170 | appends exactly one "closed" event with the empty frame |
| Targets.FirstIndexOf | src/monitor_or_window.rs:10-14 | the result is the first position holding the key, or None when no position does |
| Targets.FindMonitorOrWindow | src/monitor_or_window.rs:8-24 | a Monitor result is the first matching monitor; a Window result means no monitor matched and it is the first matching window; None exactly when nothing matches |
| Targets.MonitorMatchIgnoresWindows | src/monitor_or_window.rs:10-16 | when a monitor matches, the result is a Monitor and is the same for any window list |
| Targets.NegativeTargetSkipsSmallMonitors | src/monitor_or_window.rs:11 | a negative id never selects a monitor whose index fits in an i32 |
| Protocol.Channel.constructor | src/lib.rs:283-284 | a new channel holds no messages |
| Protocol.Channel.Send | src/lib.rs:188 | `send` appends the message at the back of the queue |
| Protocol.Channel.TryRecv | src/lib.rs:60 | `try_recv` yields nothing and leaves an empty queue as it is; otherwise it yields the oldest message and removes exactly it |
| Consumer.SetFrameRateCommand | src/lib.rs:188 | the frame-rate command is named "setFrameRate" and its payload parses back to the requested rate |
| Consumer.SetResolutionCommand | src/lib.rs:194 | the resolution command is named "setResolution"; its payload has exactly two pieces and decodes to the requested size |
| Consumer.SetWidthCommand | src/lib.rs:200 | the width command is named "setWidth" and its payload parses back to the requested width |
| Consumer.SetHeightCommand | src/lib.rs:206 | the height command is named "setHeight" and its payload parses back to the requested height |
| Consumer.SetFrameRateCarries | src/lib.rs:187-191 | the command the frame-rate setter sends is readable and sets exactly the frame rate to the requested value |
| Consumer.SetResolutionCarries | src/lib.rs:193-197 | the resolution command is readable and sets exactly width and height to the requested values |
| Consumer.SetWidthCarries | src/lib.rs:199-203 | the width command sets exactly the width |
| Consumer.SetHeightCarries | src/lib.rs:205-209 | the height command sets exactly the height |
| Consumer.ReceiveEffect | src/lib.rs:244-260 | one event (`Receive`): only "closed" stops the handle and invokes the callback; the held frame changes only to the empty frame on "closed" or to the delivered frame on "frame" while running |
| Consumer.ReceiveAllMonotone | src/lib.rs:244-260 | over any stretch of events (`ReceiveAll`), running never comes back, callback calls are only appended, and a stopped handle holds only its old frame or the empty one |
| Consumer.ClosedCountAppend | src/lib.rs:244 | closed events of two consecutive stretches add up |
| Consumer.DrainRunning | src/lib.rs:244-260 | after a drain the handle runs exactly when it ran before and no "closed" was seen: running only goes true to false |
| Consumer.DrainCalls | src/lib.rs:245-254 | the callback is invoked once per "closed" event, and only if registered |
| Consumer.DrainFrame | src/lib.rs:244-260 | after a "closed" the held frame is the empty frame; otherwise, while running, it is the last delivered frame; with no frame event, or when stopped, it is unchanged |
| Consumer.DrainWithOneClose | src/lib.rs:245-254 | a drain with exactly one "closed" ends stopped, empty, with one callback call |
| Consumer.LuaCapture.constructor | src/lib.rs:323-337 | a new handle runs, holds the empty frame, has no callback and keeps the given mirrors |
| Consumer.LuaCapture.SetFrameRate | src/lib.rs:187-191 | appends exactly one command; the handle's fields are unchanged; queued commands stay readable by the worker |
| Consumer.LuaCapture.SetResolution | src/lib.rs:193-197 | appends exactly one `"{w}@{h}"` command; the handle's fields are unchanged |
| Consumer.LuaCapture.SetWidth | src/lib.rs:199-203 | appends exactly one command; the handle's fields are unchanged |
| Consumer.LuaCapture.SetHeight | src/lib.rs:205-209 | appends exactly one command; the handle's fields are unchanged |
| Consumer.LuaCapture.GetFrameRate | src/lib.rs:211-213 | returns the frame-rate mirror, which no setter changes |
| Consumer.LuaCapture.GetResolution | src/lib.rs:215-217 | returns the width and height mirrors |
| Consumer.LuaCapture.GetWidth | src/lib.rs:219-221 | returns the width mirror |
| Consumer.LuaCapture.GetHeight | src/lib.rs:223-225 | returns the height mirror |
| Consumer.LuaCapture.OnClose | src/lib.rs:227-231 | registers the callback, replacing any earlier one; nothing else changes and queued commands stay readable |
| Consumer.LuaCapture.IsRunning | src/lib.rs:233-235 | returns the running flag |
| Consumer.LuaCapture.Stop | src/lib.rs:237-241 | appends exactly one "stop" command; the handle's fields are unchanged |
| Consumer.LuaCapture.UpdateRender | src/lib.rs:243-267 | empties the event queue; running, frame and callback calls become `ReceiveAll` of the events; queued commands stay readable; returns ("",0,0) when asked for no data, else the held frame |
| Consumer.LuaCapture.GetFrame | src/lib.rs:269-271 | returns the held frame without draining |
| Consumer.New | src/lib.rs:275-338 | fails with "Invalid target" exactly when the lookup finds nothing; otherwise handle and worker share two fresh empty channels and start from the same settings, running, with the empty frame |
| Scenarios.NativeSizeDelivery | src/lib.rs:115-122 | with size 0x0 and no rate cap, one frame and one refresh leave the handle running and holding the source frame |
| Scenarios.QueueResolutionThenStop | src/lib.rs:193-197 | after `setResolution(w, h)` and `stop()` on a fresh handle, the worker's queue holds exactly the resolution command followed by the stop command |
| Scenarios.ResolutionThenStopAsWritten | src/lib.rs:85-97 | `setResolution(w, h)` then `stop` before the worker runs: the handle still runs, no stop request is made, the callback never runs |
| Scenarios.ResolutionThenStop | src/lib.rs:73-80 | the same run with the corrected drain: stopped, empty frame, one stop request, callback called once |

## Findings

| source | as written | input that shows it | evidently intended | confidence | as-written member | corrected member |
|---|---|---|---|---|---|---|
| src/lib.rs:85-97 | the `try_iter` loop repeats the four setter branches but not the "stop" branch, so only a "stop" received first in a batch is honoured | `setResolution(100,100)` then `stop()` before the next captured frame: batch [("setResolution","100@100"), ("stop","")] | every queued "stop" sends "closed" and stops the session, wherever it stands in the batch | medium; not executed | Worker.StopBehindCommandIsLost | Worker.Capture.OnFrameArrivedHonouringStop |

`Worker.Capture.OnFrameArrived` keeps the as-written behaviour, because it
models the code as it is. `Scenarios.ResolutionThenStopAsWritten` shows the
lost stop end to end. `Scenarios.ResolutionThenStop` runs the same calls
with the corrected drain.

## Left out

- Rate gate: the f64 test `now - frame_rate_time < 1.0 / frame_rate` is not modelled. Its outcome is the boolean input `elapsed`, and the clock reading is the input `now`.
- Resampling: the Lanczos-3 resize from `fast_image_resize` is the uninterpreted function parameter `resample`. Only its output length is assumed (`ResamplerSized`), and only where a lemma says so.
- Worker.EmittedFrame: says nothing about pixel contents after resampling, because the resampler is uninterpreted.
- Byte transport: the `String::from_utf8_unchecked` conversion is not modelled. Frame data is a byte sequence throughout.
- Lua bindings: argument conversion, the registry and the module table with `version` are not modelled. A callback is its registry key, and a call to it is an entry in `calls`.
- Capture session: `start_free_threaded` and the session itself are not modelled. `capture_control.stop()` is counted in `stopRequests`. Whether the session calls the worker again after a stop, or calls `on_closed`, is up to the caller of the model.
- Target enumeration: `Monitor::enumerate`, `Window::enumerate` and `lua_get_targets` are OS calls. The monitor indices and window handles are inputs.
- Concurrency: threads and `mpsc` are not modelled. Each channel is a FIFO sequence and each operation is one sequential step. A send never fails.
- Panics: these are not modelled: a failed `send(...).unwrap()`, a failed `frame.buffer()`, `NonZeroU32::new(0).unwrap()` for a 0-sized source, allocation failure for wrapped negative sizes, and a close callback that raises an error. In the last case `.call(...).unwrap()` at src/lib.rs:253 panics partway through the drain, while the model's callback always returns normally and is only logged in `calls`. The release-mode panic hook is not modelled either.
- Worker.Capture.OnFrameArrived: requires every queued "setResolution" payload to have a second '@' piece. The source indexes `args[1]` and panics otherwise. The contracts of the handle's setters keep `LuaCapture.Valid` (every queued command is readable), so the handle only ever queues such payloads.
