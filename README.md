# WINATEP client: a Dafny model

This project models the Rust client of WINATEP, a driver that automates a desktop
over a websocket. The driver takes screenshots, searches them for images and text, and
injects keyboard and mouse input. The model covers three parts:

- **The session** (`client.dfy`, module `Client`). One websocket carries the requests, with no
  request ids. Every request is one JSON text frame, and its answer is the next frame read
  back. A `Socket` class holds what was written, what each read returned and what the
  driver still has to deliver. A `Session` class keeps a ghost log of `(request, reply)`
  rounds. Its invariant `Valid()` says the log is exactly what replaying its requests on the
  socket's first state produces. On top of `send` sit:
  - the classification of the received frame (`recv`) and of the decoded reply (`txrx!`);
  - the host and port check of `Session::new`;
  - the token-building input wrappers;
  - a clock-polling `sleep`;
  - the timed `mouse_path`, written as the source's segment loop around its sampling loop.

  The pure half of `mouse_path` lives in `path_math.dfy` (module `PathMath`): segments,
  time shares, samples, and the exact moves a run sends.
- **The wire vocabulary** (`wire_types.dfy`, module `WireTypes`). It holds screens and their
  bounds, server status, and the serde alias and default tables of `Direction`, `Button`,
  `Coordinate`, `Axis`, `Key` and `Token`. Each table is a decoder from the JSON shape it
  reads to an `Option`, plus a canonical encoder. It also holds the request and reply message
  sets.
- **The image search of the Narrative walkthrough** (`narrative.dfy`, module `Narrative`). It
  covers the timed search over one screen or over all screens, the click helper built on it,
  and the choice of the screen the mouse is on.

The driver is whatever the socket's queue of inbound frames holds, so it acts as an oracle.
Every search request is answered by the next frame, and a frame can be a list of matches or
an error. Time is a `Clock` class whose `reading: nat -> real` is fixed in advance. It is
monotone and unbounded, and `ticks` counts how often it was read. So every loop that
polls time terminates, and every result is a function of what the socket and the clock supply.

`wrappers.dfy` holds `Option`, `Result`, `Outcome` and `Unit`.

Some facts about the code that the model keeps:

- The lerp fraction is not clamped, so a segment's last sample lands at or past its end
  (`PathMath.LastSampleAtOrPastEnd`). Nothing makes the last move hit the final waypoint
  exactly.
- The search deadline is checked before each full pass over all (screen, image) pairs, not
  before each request.
- The search-quality parameters are passed through unchecked.
- The message set is the one the client sends and matches on. That includes `FindImage`,
  `DoTypeText`, `FoundImage` and `DidTypeText`, which the wire-types crate's message enums
  (`crates/winatep-wire-types/src/lib.rs:224-249`) lack.
  `GotMouseLocation` carries a `Vec2`. There are no clipboard messages.
- Running out of time yields `CouldNotFindImage`. There is no separate text-search timeout.
- `mouse_path` has no special case for a path of zero length. With two or more waypoints
  that all coincide, it divides each segment's length by a total length of zero.

## Model

| member | source | states |
|---|---|---|
| WireTypes.Screen.Bounds | crates/winatep-wire-types/src/lib.rs:17-26 | the first corner is `(x, y)`; the second is offset from it by exactly `(width, height)`; so min ≤ max in both coordinates |
| WireTypes.ServerStatus.Port | crates/winatep-wire-types/src/lib.rs:42-47 | `Some(p)` exactly for `On { port: p }`, and `None` for `Off` |
| WireTypes.ServerStatus.IsOn | crates/winatep-wire-types/src/lib.rs:49-51 | holds exactly when the status is `On` (`port()` is `Some`) |
| WireTypes.DefaultServerStatus | crates/winatep-wire-types/src/lib.rs:30-33 | the default status is off and has no port |
| WireTypes.DecodeDirection | crates/winatep-wire-types/src/lib.rs:73-92 | only a declared name or alias of a variant decodes, and to that variant |
| WireTypes.EncodeDirection | crates/winatep-wire-types/src/lib.rs:73-92 | the canonical name of every direction decodes back to it |
| WireTypes.DirectionAliasesAccepted | crates/winatep-wire-types/src/lib.rs:75-91 | every one of P/p/Pressed/pressed, R/r/Released/released and C/c/Clicked/clicked, and each variant name, decodes to its variant |
| WireTypes.DirectionAliasesDisjoint | crates/winatep-wire-types/src/lib.rs:73-92 | no string names two directions |
| WireTypes.DecodeButton | crates/winatep-wire-types/src/lib.rs:94-141 | only a declared name or alias decodes, and only to a button the target compiles in (no Back or Forward on macOS) |
| WireTypes.EncodeButton | crates/winatep-wire-types/src/lib.rs:94-141 | the canonical name of a button decodes back to it on every target that has the button |
| WireTypes.ButtonAliasesAccepted | crates/winatep-wire-types/src/lib.rs:96-140 | each of L/l, M/m, R/r, B/b, F/f, SU/su, SD/sd, SL/sl, SR/sr and each variant name decodes to its button where the button exists |
| WireTypes.ButtonAliasesDisjoint | crates/winatep-wire-types/src/lib.rs:94-141 | no string names two buttons |
| WireTypes.DecodeCoordinate | crates/winatep-wire-types/src/lib.rs:147-157 | only Abs/A/a and Rel/R/r decode, each to its own variant |
| WireTypes.EncodeCoordinate | crates/winatep-wire-types/src/lib.rs:147-157 | the canonical name decodes back to the coordinate |
| WireTypes.CoordinateAliasesAccepted | crates/winatep-wire-types/src/lib.rs:148-156 | every declared name of a coordinate decodes to it |
| WireTypes.DecodeAxis | crates/winatep-wire-types/src/lib.rs:163-171 | only Horizontal/H/h and Vertical/V/v decode, each to its own axis |
| WireTypes.EncodeAxis | crates/winatep-wire-types/src/lib.rs:163-171 | the canonical name decodes back to the axis |
| WireTypes.AxisAliasesAccepted | crates/winatep-wire-types/src/lib.rs:164-170 | every declared name of an axis decodes to it |
| WireTypes.DecodeKey | crates/winatep-wire-types/src/key.rs:129-131 | only keys the target compiles in decode, and "ctrl" decodes to `Control` |
| WireTypes.KeyRoundTrip | crates/winatep-wire-types/src/key.rs:592-605 | every key the target has, including `Unicode(c)` and `Other(n)`, decodes back from its canonical encoding |
| WireTypes.DecodeTokenKind | crates/winatep-wire-types/src/lib.rs:173-214 | only a variant name or one of its one-letter aliases decodes, and to that variant's kind |
| WireTypes.TokenKindAliasesAccepted | crates/winatep-wire-types/src/lib.rs:176-212 | T, K, R, B, M, S, L and D, in either case, and the variant names, map to Text, Key, Raw, Button, MoveMouse, Scroll, Location and MainDisplay |
| WireTypes.TokenKindRoundTrip | crates/winatep-wire-types/src/lib.rs:173-214 | the canonical tag of every kind decodes to that kind |
| WireTypes.Trailing | crates/winatep-wire-types/src/lib.rs:182-201 | a `#[serde(default)]` last field that is left out takes its default, and a longer array is rejected |
| WireTypes.DecodeTokenBody | crates/winatep-wire-types/src/lib.rs:173-214 | a decoded body is always a token of the kind its tag named |
| WireTypes.DecodeToken | crates/winatep-wire-types/src/lib.rs:173-214 | a token decodes only from an externally tagged object whose tag names its own variant |
| WireTypes.TokenBodyRoundTrip | crates/winatep-wire-types/src/lib.rs:173-214 | the canonical body of every token the target can represent decodes back to that token |
| WireTypes.TokenRoundTrip | crates/winatep-wire-types/src/lib.rs:173-214 | decoding the canonical encoding of every token the target can represent gives that token |
| WireTypes.KeyDirectionDefaults | crates/winatep-wire-types/src/lib.rs:182 | `Key` with its direction left out, under any alias of its tag, is a `Click` |
| WireTypes.RawDirectionDefaults | crates/winatep-wire-types/src/lib.rs:186 | `Raw` with its direction left out is a `Click` |
| WireTypes.ButtonDirectionDefaults | crates/winatep-wire-types/src/lib.rs:190 | `Button` with its direction left out is a `Click` |
| WireTypes.MoveMouseCoordinateDefaults | crates/winatep-wire-types/src/lib.rs:197 | `MoveMouse` with its coordinate left out is `Abs` |
| WireTypes.ScrollAxisDefaults | crates/winatep-wire-types/src/lib.rs:201 | `Scroll` with its axis left out is `Vertical` |
| Client.Socket.Write | crates/winatep-client/src/lib.rs:154-157 | a write either fails and changes nothing, or appends exactly the one message |
| Client.Socket.Next | crates/winatep-client/src/lib.rs:113-118 | a read takes the head of the inbound queue, or yields the end of the stream when the queue is empty, and logs what it returned |
| Client.Receive | crates/winatep-client/src/lib.rs:112-146 | success exactly for a text or binary frame that decodes, with the decoded message; `End` exactly at the end of the stream; every failure is a receive error |
| Client.ReceiveReportsFrames | crates/winatep-client/src/lib.rs:120-144 | a close frame gives `Closed` with its code and reason, or `ClosedWithoutReason`; any other non-data frame gives `UnexpectedAnswer` carrying it; a data frame that fails to decode gives `Decoding` |
| Client.Session.Recv | crates/winatep-client/src/lib.rs:112-146 | the answer is `Receive` of the next inbound item, and exactly that item is consumed |
| Client.Exchange | crates/winatep-client/src/lib.rs:149-161 | an encoding or write failure reads nothing and leaves the wire unchanged; otherwise exactly one text frame, the encoding, is written and exactly one item read, and the answer is what that read gives |
| Client.Session.Send | crates/winatep-client/src/lib.rs:149-161 | the session logs one more round for the request, and its reply and the new socket are what `Exchange` predicts |
| Client.ReplayCorrelates | crates/winatep-client/src/lib.rs:149-161 | with no request ids, answers match requests by order alone: the `i`-th request is written `i`-th and answered by the `i`-th inbound item, or by the end of the stream |
| Client.TraceIsReplay | crates/winatep-client/src/lib.rs:149-161 | a session's whole log is the replay of its requests from the socket's first state |
| Client.Txrx | crates/winatep-client/src/lib.rs:68-77 | the expected variant gives its payload; the driver's `Error(e)` gives `Driver(e)`; any other reply gives `UnexpectedDriverMessage` with it unchanged; a failed exchange passes its error through |
| Client.InputDoneIffDidInput | crates/winatep-client/src/lib.rs:194 | an input request succeeded exactly when the driver answered `DidInput` |
| Client.Endpoint | crates/winatep-client/src/lib.rs:91-93 | a missing host is reported before the port is checked; succeeds exactly with both present |
| Client.Session.New | crates/winatep-client/src/lib.rs:88-109 | each failing step gives its own error (request, host, port, connect, handshake) in that order, and success is a fresh valid session with an empty log |
| Client.Session.Over | crates/winatep-client/src/lib.rs:108 | a new session over a socket has an empty log and is valid |
| Client.Clock.Now | crates/winatep-client/src/lib.rs:420 | `Instant::now()` returns the next reading of the clock |
| Client.Session.GetScreens | crates/winatep-client/src/lib.rs:164-166 | one `GetScreens` round, whose reply `txrx!` turns into the screen list |
| Client.Session.GetMainScreen | crates/winatep-client/src/lib.rs:169-171 | one `GetMainScreen` round, interpreted by `txrx!` |
| Client.Session.CaptureScreen | crates/winatep-client/src/lib.rs:174-185 | one `CaptureScreen` round for the named screen, interpreted by `txrx!` |
| Client.Session.GetMouseLocation | crates/winatep-client/src/lib.rs:188-190 | one `GetMouseLocation` round, interpreted by `txrx!` |
| Client.Session.Input | crates/winatep-client/src/lib.rs:193-195 | one `DoInput(token)` round, successful exactly on `DidInput` |
| Client.Session.TypeTextRequest | crates/winatep-client/src/lib.rs:198-200 | one `DoTypeText` round, successful exactly on `DidTypeText` |
| Client.Session.FindTextInScreen | crates/winatep-client/src/lib.rs:203-218 | one `FindText` round with the given text, screen and timeout, interpreted by `txrx!` |
| Client.Session.FindImageInScreen | crates/winatep-client/src/lib.rs:221-238 | one `FindImage` round with the given screen, image, quality and filter, interpreted by `txrx!` |
| Client.Session.Sleep | crates/winatep-client/src/lib.rs:245-274 | reads the clock, then polls it until `duration` has elapsed since that first reading: the last poll saw the duration reached and every earlier poll saw less |
| Client.SleptUnique | crates/winatep-client/src/lib.rs:245-274 | the clock alone decides at which reading a sleep ends |
| Client.Session.Pause | crates/winatep-client/src/lib.rs:278-280 | sleeps exactly as `sleep` does for 10 ms |
| Client.Session.KeyDown | crates/winatep-client/src/lib.rs:283-285 | sends exactly `Key(k, Press)` |
| Client.Session.KeyUp | crates/winatep-client/src/lib.rs:288-290 | sends exactly `Key(k, Release)` |
| Client.Session.KeyClick | crates/winatep-client/src/lib.rs:293-295 | sends exactly `Key(k, Click)` |
| Client.Session.TypeText | crates/winatep-client/src/lib.rs:298-300 | sends exactly `Text(text)` as one input token |
| Client.Session.SetMouseLocation | crates/winatep-client/src/lib.rs:304-311 | sends one `MoveMouse` with both coordinates cast to i32 |
| Client.Session.MouseButton | crates/winatep-client/src/lib.rs:313-385 | one button action sends exactly `Button(b, d)` |
| Client.Session.MouseLeftDown | crates/winatep-client/src/lib.rs:314-317 | sends exactly `Button(Left, Press)` |
| Client.Session.MouseLeftUp | crates/winatep-client/src/lib.rs:320-323 | sends exactly `Button(Left, Release)` |
| Client.Session.MouseLeftClick | crates/winatep-client/src/lib.rs:326-329 | sends exactly `Button(Left, Click)` |
| Client.Session.MouseMiddleDown | crates/winatep-client/src/lib.rs:342-345 | sends exactly `Button(Middle, Press)` |
| Client.Session.MouseMiddleUp | crates/winatep-client/src/lib.rs:348-351 | sends exactly `Button(Middle, Release)` |
| Client.Session.MouseMiddleClick | crates/winatep-client/src/lib.rs:354-357 | sends exactly `Button(Middle, Click)` |
| Client.Session.MouseRightDown | crates/winatep-client/src/lib.rs:370-373 | sends exactly `Button(Right, Press)` |
| Client.Session.MouseRightUp | crates/winatep-client/src/lib.rs:376-379 | sends exactly `Button(Right, Release)` |
| Client.Session.MouseRightClick | crates/winatep-client/src/lib.rs:382-385 | sends exactly `Button(Right, Click)` |
| Client.Session.MouseDoubleClick | crates/winatep-client/src/lib.rs:331-339 | at most two `Click` tokens for the same button; a failed first click sends no second one and does not pause; otherwise a pause of at least 10 ms separates them and the second click's outcome is the result |
| Client.Session.MouseLeftDoubleClick | crates/winatep-client/src/lib.rs:332-339 | two left clicks, the second only if the first was done; a failed first click leaves the clock alone, otherwise a pause of at least 10 ms separates them |
| Client.Session.MouseMiddleDoubleClick | crates/winatep-client/src/lib.rs:360-367 | two middle clicks, the second only if the first was done; a failed first click leaves the clock alone, otherwise a pause of at least 10 ms separates them |
| Client.Session.MouseRightDoubleClick | crates/winatep-client/src/lib.rs:388-395 | two right clicks, the second only if the first was done; a failed first click leaves the clock alone, otherwise a pause of at least 10 ms separates them |
| PathMath.AsI32 | crates/winatep-client/src/lib.rs:309 | `as i32` truncates toward zero within range and saturates at the ends of the i32 range |
| PathMath.LerpEnds | crates/winatep-client/src/lib.rs:427 | the fraction 0 gives `from` and 1 gives `to` |
| PathMath.Segments | crates/winatep-client/src/lib.rs:410 | the segments are the consecutive waypoint pairs, one fewer than the waypoints (none for fewer than two) |
| PathMath.TotalDistanceNonnegative | crates/winatep-client/src/lib.rs:411-414 | the total distance is never negative |
| PathMath.TotalDistanceZero | crates/winatep-client/src/lib.rs:411-414 | the total distance is zero exactly when every segment starts where it ends |
| PathMath.PathLengthZeroIffStationary | crates/winatep-client/src/lib.rs:411-417 | a path of two or more waypoints has zero length exactly when all its waypoints coincide, which is when `distance / total_distance` is 0/0 |
| PathMath.Shares | crates/winatep-client/src/lib.rs:416-419 | segment `i` gets `time * (d_i / D)` |
| PathMath.SplineTimesSumToTime | crates/winatep-client/src/lib.rs:416-419 | when `D > 0` the segment times add up to the requested time |
| PathMath.SplineTimesNonnegative | crates/winatep-client/src/lib.rs:418-419 | no segment gets a negative time |
| PathMath.SampledExplicit | crates/winatep-client/src/lib.rs:423-434 | the times a segment read never go back, and every sample but the last was taken because the time before it was still below the segment's time |
| PathMath.SampledPositive | crates/winatep-client/src/lib.rs:424 | a segment samples only when it was given a positive time |
| PathMath.SegmentPlan | crates/winatep-client/src/lib.rs:421-433 | a segment sends one move more than it took samples, and the first is to its exact `from` point |
| PathMath.SegmentStartsAtFrom | crates/winatep-client/src/lib.rs:421-422 | within the moves of a whole path, every segment's moves start with a move to that segment's `from` point |
| PathMath.ZeroLengthSegmentSingleMove | crates/winatep-client/src/lib.rs:416-424 | a zero-length segment of a path with length gets no time and sends exactly its one initial move |
| PathMath.LastSampleAtOrPastEnd | crates/winatep-client/src/lib.rs:424-433 | a segment that sent interpolated samples stopped after one at fraction ≥ 1, so its last move is at or beyond `to` |
| PathMath.SegmentPlanAt | crates/winatep-client/src/lib.rs:424-433 | move `j + 1` of a segment goes to `lerp(from, to, sample_j / spline_time)` |
| PathMath.ReadFromExplicit | crates/winatep-client/src/lib.rs:420-426 | the times of a segment that started at clock tick `t`: the first is reading `t + 1` minus reading `t`, and sample `j` is reading `t + 2 + j` minus reading `t` |
| PathMath.SampleMoveAtReading | crates/winatep-client/src/lib.rs:420-433 | move `j + 1` of a segment that started at tick `t` goes to `lerp(from, to, (reading(t + 2 + j) - reading(t)) / spline_time)` |
| PathMath.RunsReadForward | crates/winatep-client/src/lib.rs:415-434 | every segment of a walk reads the clock at least twice, so the clock moves on by at least twice the number of segments |
| Client.Session.Sample | crates/winatep-client/src/lib.rs:425-433 | one clock reading, then one move to the point that fraction of the segment along |
| Client.Session.SampleStep | crates/winatep-client/src/lib.rs:424-433 | one more sample: the clock is read once, the sample is that reading minus the segment's start reading, and the run and the moves sent grow by it in step |
| Client.Session.SampleLoop | crates/winatep-client/src/lib.rs:424-434 | the moves sent are the plan of the times read, and sample `j` is clock reading `t0 + 2 + j` minus the start reading; on success every move was done and the last sample reached the segment's time; a failed move is the last one sent and is the result |
| Client.Session.PathSegment | crates/winatep-client/src/lib.rs:415-434 | one segment reads the clock at tick `t0`, sends its exact `from` move and then its samples, as `SegmentPlan` of the times read; its first time is reading `t0 + 1` minus reading `t0`, sample `j` is reading `t0 + 2 + j` minus reading `t0`; it ends at tick `t0 + 1` after a failed first move and `t0 + 2 + samples` otherwise; the first failed move ends it |
| Client.Session.WalkSegment | crates/winatep-client/src/lib.rs:415-436 | one more segment extends the walk's log, its runs, the plan they follow, and the clock readings they come from, in step |
| Client.Session.Walk | crates/winatep-client/src/lib.rs:415-436 | the moves sent are `PathPlan` of the runs, and each run's times are read from the clock ticks that follow the previous run's; on success every segment finished and every move was done; a failure is the last move sent; no segments means no requests |
| Client.Session.MousePath | crates/winatep-client/src/lib.rs:403-437 | the requests sent are exactly the path plan of the times the clock showed, read tick by tick from the start, segment after segment; success means every segment ran to its time and every move was done; a failed move ends the walk and is the result; fewer than two waypoints send nothing and read no clock |
| Client.WalkingExplicit | crates/winatep-client/src/lib.rs:403-437 | what `MousePath` promises, spelled out over the log: the plan sent, each segment finished on success, every move but the last done and the last one's error as the result on failure |
| Narrative.AbsolutePointRoundTrip | crates/winatep-client/examples/narrative.rs:172-174 | the conversion `bounds().min + center / scale_factor` loses nothing: converting back gives the match's centre |
| Narrative.ScanError | crates/winatep-client/examples/narrative.rs:180-181 | the search's error is `CouldNotFindImage` exactly when it ran out, and otherwise the client error that stopped it |
| Narrative.ScanOutcome | crates/winatep-client/examples/narrative.rs:170-176 | how a scan ended is decided by its last answer alone: a non-empty list is a hit, an error is a fault with that error, an empty list means it ran out |
| Narrative.ExhaustedMissedAll | crates/winatep-client/examples/narrative.rs:161-178 | a scan that ran out sent every expected request in order, and every one found nothing |
| Narrative.ScannedAppend | crates/winatep-client/examples/narrative.rs:161-162 | a scan that ran out, followed by another scan, is one scan of both request lists |
| Narrative.ScannedWithin | crates/winatep-client/examples/narrative.rs:175 | a scan that stopped early is also a scan of any longer request list, so nothing after the request that stopped it was sent |
| Narrative.RowTake | crates/winatep-client/examples/narrative.rs:162 | the requests for the first `j` images open the screen's row |
| Narrative.PassTake | crates/winatep-client/examples/narrative.rs:196 | the requests for the first `i` screens open every pass |
| Narrative.EmptySearch | crates/winatep-client/examples/narrative.rs:193-197 | with no screens or no images, no search request is ever sent and the search can only run out |
| Narrative.OneScreenPass | crates/winatep-client/examples/narrative.rs:162 | a pass over one screen is that screen's images in order |
| Narrative.ImageStep | crates/winatep-client/examples/narrative.rs:162-176 | one more image: an empty answer continues the row; an error or a match ends the scan of the whole row at that request |
| Narrative.ScreenStep | crates/winatep-client/examples/narrative.rs:196-213 | one more screen: a row that ran out continues the pass; anything else ends the whole pass there |
| Narrative.PassStep | crates/winatep-client/examples/narrative.rs:195-215 | one more pass: the search so far followed by one pass is a search of one more pass, and a pass that did not run out sent something |
| Narrative.ScanScreen | crates/winatep-client/examples/narrative.rs:162-177 | the images of one screen are tried in order, and the first error or non-empty answer ends the loop; a match is the popped rectangle converted on that screen |
| Narrative.ScanPass | crates/winatep-client/examples/narrative.rs:196-214 | screen-major, then image order; the first error or match ends the pass, and a match's screen is the screen `i` in whose row the last request lies |
| Narrative.RowAt | crates/winatep-client/examples/narrative.rs:197-205 | request `j` of a screen's row asks for image `j` on that screen |
| Narrative.PassRequestAt | crates/winatep-client/examples/narrative.rs:196-205 | a request of a pass that lies in the row of screen `i` asks for an image on screen `i` |
| Narrative.LastPassRequest | crates/winatep-client/examples/narrative.rs:195-215 | the last request of a search that stopped in its last pass is that pass's request at the same place |
| Narrative.HitRequest | crates/winatep-client/examples/narrative.rs:196-211 | the request that found the match asked for one of the images on the very screen the search returns |
| Narrative.SearchStep | crates/winatep-client/examples/narrative.rs:195-215 | one whole pass after a check that saw less than the timeout, followed by the next check only when the pass ran out; the search state, its clock readings and the screen of a match advance in step |
| Narrative.SearchScreens | crates/winatep-client/examples/narrative.rs:194-218 | the requests are whole passes in order and the first error or match ends them; a match's screen is the one whose row holds the last request; one reading to start, one check per pass, each seeing less than the timeout, and a search that ran out stopped at one more check that saw the timeout reached |
| Narrative.TimedOutAsSlept | crates/winatep-client/examples/narrative.rs:194-195 | a search that ran out read the clock as a sleep of 15 s would: it stopped at the first check that saw 15 s elapsed |
| Narrative.FindImageInScreenWithTimeout | crates/winatep-client/examples/narrative.rs:154-182 | the timed search over the one screen: the first match's absolute point, the first error, or `CouldNotFindImage` once a check saw 15 s elapsed, with the clock readings of `SearchScreens` |
| Narrative.FindImageWithTimeout | crates/winatep-client/examples/narrative.rs:188-219 | fetches the screens exactly once, before any search request; a failure there ends it without reading the clock; otherwise the timed search over all screens with its clock readings, returning the match with the screen whose row holds the last request |
| Narrative.ClickPathAsWrittenStalls | crates/winatep-client/examples/narrative.rs:229-235 | when the mouse already is on the match, the written path `[current, point]` has no length, so `mouse_path` divides zero by zero |
| Narrative.ClickPathAccepted | crates/winatep-client/examples/narrative.rs:229-235 | away from the match, the written path `[current, point]` has length and the time `distance / 1000` is non-negative, so `mouse_path` accepts it |
| Narrative.OnMatchMovesOnce | crates/winatep-client/examples/narrative.rs:229-236 | with the mouse on the match, the helper sends exactly one move, to the match, and reads no clock |
| Narrative.ClickAndRead | crates/winatep-client/examples/narrative.rs:237-240 | a sleep of at least 100 ms, the left click, then, only if the click was done, a second sleep of at least 100 ms and the mouse read |
| Narrative.MoveToward | crates/winatep-client/examples/narrative.rs:229-236 | one move straight to the match when the mouse is on it; otherwise `mouse_path` along `[current, point]` in `distance / 1000` seconds, with its clock readings and the first failed move as the result |
| Narrative.MoveOnto | crates/winatep-client/examples/narrative.rs:229-236 | exactly one move, to the match, and no clock reading |
| Narrative.MoveAlong | crates/winatep-client/examples/narrative.rs:229-236 | `mouse_path` along `[current, point]` in `distance / 1000` seconds, as `Walking` states it |
| Narrative.MoveAndClick | crates/winatep-client/examples/narrative.rs:229-240 | the moves, then the settles and the click only if every move was done; a failed move ends the helper with its error; the clock ticks of the walk, both settles and the end are those of the trace |
| Narrative.ClickAt | crates/winatep-client/examples/narrative.rs:228-240 | read the mouse, move to the match, settle at least 100 ms, click, settle at least 100 ms, read the mouse; each step once and in order, and any error stops the sequence |
| Narrative.ClickOnImageInScreenWithTimeout | crates/winatep-client/examples/narrative.rs:222-241 | the timed search on the screen with its clock readings, then, only for a match on that screen, the click sequence on the match's point from the tick the search ended; without a match the search's error is the result and nothing more is sent or read |
| Narrative.CurrentScreen | crates/winatep-client/examples/narrative.rs:270-280 | reads the mouse once; the result is the first screen in driver order that contains the mouse, and none exactly when no screen contains it |

## Left out

- `crates/winatep-wire-types/src/key.rs`: the platform catalogue of about 300 key variants
  is abstracted to `Control` (with its "ctrl" alias), `Named(name)` for any catalogued
  variant the target compiles in, and the `Unicode(char)` and `Other(u32)` escape hatches.
- JSON: serde_json is an abstract codec of three functions. Encoding may fail, and decoding a text or
  binary frame may fail. Field order, escaping and number formats are not modelled.
- Networking: parsing the URL, the TCP connect and the TLS/websocket handshake of
  `Session::new` are given outcomes. Only the host-then-port check is modelled, on an
  already-parsed URI.
- The boxed `Other` and `Websocket` source errors are carried as opaque descriptions.
- Async and wakers: the model is sequential. `sleep` is a loop that reads the clock until
  the duration has passed, and it sends no request.
- Floating point: coordinates and durations are reals, with no f32 rounding and no NaN.
  `Vec2::distance` is a parameter required to be non-negative and zero exactly on equal points,
  since Dafny's reals have no square root.
- WireTypes.Screen: its scale factor may be any real except zero, negative ones included. A
  zero factor is not modelled: dividing an `f32` by it gives an infinity or NaN, which the
  model's reals do not have.
- Client.Session.MousePath: with two or more waypoints it requires a path with length and a
  non-negative time. A zero total length makes `distance / total_distance` NaN, and a
  negative time makes a negative duration; `Duration::from_secs_f32` panics on both. With
  fewer than two waypoints nothing is required. Durations too large for `Duration` are not
  modelled.
- PathMath.AsI32: the saturation of `as i32` is modelled; NaN, which `as i32` maps to 0, does
  not arise over reals.
- `BoundingRectangle::center` and `Screen::contains_abs_point` are not part of this model.
  The centre is taken as `(min + max) / 2`. Containment is taken as the half-open box
  between the screen's bounds (`Narrative.ContainsAbsPoint`).
- Narrative.CurrentScreen: the `unwrap` of the walkthrough panics when no screen contains
  the mouse; the model returns `Success(None)` in that case instead.
- Narrative.FindImageInScreenWithTimeout: modelled as the all-screens search over the list
  holding only the given screen. Its loop does the same requests in the same order.
- The walkthrough's script in `run` is left out: image loading, the spotlight and typing
  steps, and the sequence of clicks. So are `draw_bounding_boxes`, `save_image`, `main` and
  `demo.rs`. Only the current-screen loop of `run` is modelled.
- Client.Socket: whether writes fail is fixed when the socket is made (`writeFault`), so a
  socket fails either every write or none. A connection that fails some writes after others
  went through is not modelled.
- Narrative.MoveToward, Narrative.MoveAndClick, Narrative.ClickAt,
  Narrative.ClickOnImageInScreenWithTimeout: with the mouse already on the match they send
  one move to the match, where the code calls `mouse_path` on `[current_mouse, point]` and
  panics (see Findings). Away from the match they call `mouse_path` on the written path, as
  the code does.
- Logging and tracing spans have no effect on the results and are not modelled.
- Clamping the lerp fraction, exact arrival at the final waypoint, and limits on search
  quality are not done by the code, so they are not stated.

## Findings

| source | as written | input that shows it | evidently intended | confidence | as-written member | corrected member |
|---|---|---|---|---|---|---|
| crates/winatep-client/examples/narrative.rs:229-235 | the click helper always moves along `[current_mouse, point]` in `distance / PIXELS_PER_SECOND` seconds | the mouse already rests on the match's centre: `current_mouse == point` gives one segment of length 0, so `mouse_path` computes 0/0 = NaN and `Duration::from_secs_f32(NaN)` panics. The same holds for the move at line 306 | a path of zero length issues exactly one move to its point, so with the mouse on the match the helper sends one move to the match and goes on to the click (`Narrative.OnMatchMovesOnce`) | not executed | Narrative.ClickPathAsWrittenStalls | Narrative.MoveToward |
