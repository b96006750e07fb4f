/**
 * The WINATEP client session: one websocket to the driver, over which every request is a JSON
 * text frame and every request is answered by exactly one frame read back. On top of the
 * request/response core sit thin input helpers, a clock-polling sleep and the timed mouse path.
 *
 * The JSON encoding is abstract (`Codec`), the socket is a queue of inbound frames with a log
 * of what was written (`Socket`), and time is a `Clock` whose readings are given in advance.
 */
module Client {
  import opened Wrappers
  import opened WireTypes
  import opened PathMath

  // ---------------------------------------------------------------------------------------
  // Errors and frames

  /** A websocket transport failure; its contents are not inspected. */
  datatype WsError = WsError(description: string)

  /** A JSON encoding or decoding failure; its contents are not inspected. */
  datatype JsonError = JsonError(description: string)

  /** Everything a session operation can fail with. */
  datatype Error =
    | Websocket(source: WsError)
    | MissingHost
    | MissingPort
    | Driver(msg: string)
    | UnexpectedDriverMessage(outputMessage: OutputMessage)
    | Closed(code: u16, reason: string)
    | ClosedWithoutReason
    | UnexpectedAnswer(answer: Message)
    | End
    | Encoding(encodeSource: JsonError)
    | Decoding(decodeSource: JsonError)
    | Other(otherSource: string)

  datatype CloseFrame = CloseFrame(code: u16, reason: string)

  /** A websocket message as the transport delivers it. */
  datatype Message =
    | Text(text: string)
    | Binary(data: seq<u8>)
    | Ping(payload: seq<u8>)
    | Pong(payload: seq<u8>)
    | Close(frame: Option<CloseFrame>)
    | Frame(raw: seq<u8>)

  /** The frames that carry a reply: text and binary. */
  predicate IsData(m: Message)
  {
    m.Text? || m.Binary?
  }

  /** The JSON encoding of requests and decoding of replies (text or binary frames). */
  datatype Codec = Codec(
    encode: InputMessage -> Result<string, JsonError>,
    decodeText: string -> Result<OutputMessage, JsonError>,
    decodeBinary: seq<u8> -> Result<OutputMessage, JsonError>)

  function Decoded(codec: Codec, m: Message): Result<OutputMessage, JsonError>
    requires IsData(m)
  {
    if m.Text? then codec.decodeText(m.text) else codec.decodeBinary(m.data)
  }

  // ---------------------------------------------------------------------------------------
  // The socket

  /** What one read of the stream yields: the end of the stream, a transport error, or a message. */
  type Read = Option<Result<Message, WsError>>

  /**
   * The observable state of the socket: what was written, what each read returned, what the
   * driver has still to deliver, and whether writes fail.
   */
  datatype Wire = Wire(
    sent: seq<Message>,
    received: seq<Read>,
    pending: seq<Result<Message, WsError>>,
    writeFault: Option<WsError>)

  /** As many reads as writes: no request is left without its answer having been read. */
  predicate Balanced(w: Wire)
  {
    |w.sent| == |w.received|
  }

  /** The next read on a stream with `pending` still to deliver; nothing left is the end of the stream. */
  function NextRead(pending: seq<Result<Message, WsError>>): Read
  {
    if pending == [] then None else Some(pending[0])
  }

  function Rest<T>(s: seq<T>): seq<T>
  {
    if s == [] then [] else s[1..]
  }

  /** The `i`-th read counted from the given queue. */
  function NthRead(pending: seq<Result<Message, WsError>>, i: nat): Read
  {
    if i < |pending| then Some(pending[i]) else None
  }

  /** The first `n` reads counted from the given queue. */
  function Reads(pending: seq<Result<Message, WsError>>, n: nat): (r: seq<Read>)
    ensures |r| == n && forall i :: 0 <= i < n ==> r[i] == NthRead(pending, i)
  {
    seq(n, i requires 0 <= i < n => NthRead(pending, i))
  }

  /** The queue left after `k` reads. */
  function Drop<T>(s: seq<T>, k: nat): seq<T>
  {
    if k <= |s| then s[k..] else []
  }

  class Socket {
    var sent: seq<Message>
    var received: seq<Read>
    var pending: seq<Result<Message, WsError>>
    const writeFault: Option<WsError>

    function State(): Wire
      reads this
    {
      Wire(sent, received, pending, writeFault)
    }

    constructor (pending: seq<Result<Message, WsError>>, writeFault: Option<WsError>)
      ensures State() == Wire([], [], pending, writeFault)
    {
      this.sent := [];
      this.received := [];
      this.pending := pending;
      this.writeFault := writeFault;
    }

    /** Sends one message, or fails without sending anything. */
    method Write(m: Message) returns (r: Outcome<WsError>)
      modifies this
      ensures writeFault.Some? ==> r == Fail(writeFault.value) && State() == old(State())
      ensures writeFault.None? ==> r == Pass && State() == old(State()).(sent := old(sent) + [m])
    {
      if writeFault.Some? {
        r := Fail(writeFault.value);
      } else {
        sent := sent + [m];
        r := Pass;
      }
    }

    /** Reads the next inbound item. */
    method Next() returns (r: Read)
      modifies this
      ensures r == NextRead(old(pending))
      ensures State() == old(State()).(received := old(received) + [r], pending := Rest(old(pending)))
    {
      r := NextRead(pending);
      received := received + [r];
      pending := Rest(pending);
    }
  }

  // ---------------------------------------------------------------------------------------
  // One request, one answer

  /** The errors reading an answer can produce. */
  predicate IsReceiveError(e: Error)
  {
    e.Websocket? || e.Decoding? || e.Closed? || e.ClosedWithoutReason? || e.UnexpectedAnswer? || e.End?
  }

  /**
   * How one read becomes the answer to a request: a data frame is decoded, a close frame
   * reports its code and reason, any other frame is unexpected, and the end of the stream and
   * transport errors are reported as such.
   */
  function Receive(codec: Codec, read: Read): (r: Result<OutputMessage, Error>)
    ensures r.Success? <==> read.Some? && read.value.Success? && IsData(read.value.value) && Decoded(codec, read.value.value).Success?
    ensures r.Success? ==> r.value == Decoded(codec, read.value.value).value
    ensures r == Failure(End) <==> read.None?
    ensures r.Failure? ==> IsReceiveError(r.error)
  {
    match read
    case None => Failure(End)
    case Some(Failure(e)) => Failure(Websocket(e))
    case Some(Success(m)) =>
      match m
      case Text(text) =>
        (match codec.decodeText(text)
         case Success(msg) => Success(msg)
         case Failure(e) => Failure(Decoding(e)))
      case Binary(data) =>
        (match codec.decodeBinary(data)
         case Success(msg) => Success(msg)
         case Failure(e) => Failure(Decoding(e)))
      case Close(Some(CloseFrame(code, reason))) => Failure(Closed(code, reason))
      case Close(None) => Failure(ClosedWithoutReason)
      case _ => Failure(UnexpectedAnswer(m))
  }

  /** Close frames and control frames are reported with exactly what they carried. */
  lemma ReceiveReportsFrames(codec: Codec, m: Message)
    ensures m.Close? && m.frame.Some? ==> Receive(codec, Some(Success(m))) == Failure(Closed(m.frame.value.code, m.frame.value.reason))
    ensures m == Close(None) ==> Receive(codec, Some(Success(m))) == Failure(ClosedWithoutReason)
    ensures !IsData(m) && !m.Close? ==> Receive(codec, Some(Success(m))) == Failure(UnexpectedAnswer(m))
    ensures IsData(m) && Decoded(codec, m).Failure? ==> Receive(codec, Some(Success(m))) == Failure(Decoding(Decoded(codec, m).error))
  {
  }

  /**
   * One round trip on the wire: encode, write one text frame, read one item. When encoding or
   * writing fails, nothing is written and nothing is read.
   */
  function Exchange(codec: Codec, w: Wire, msg: InputMessage): (r: (Result<OutputMessage, Error>, Wire))
    ensures Balanced(w) ==> Balanced(r.1)
    ensures r.1 == w <==> codec.encode(msg).Failure? || w.writeFault.Some?
    ensures codec.encode(msg).Failure? ==> r.0 == Failure(Encoding(codec.encode(msg).error))
    ensures codec.encode(msg).Success? && w.writeFault.Some? ==> r.0 == Failure(Websocket(w.writeFault.value))
    ensures r.1 != w ==>
      && r.1.sent == w.sent + [Message.Text(codec.encode(msg).value)]
      && r.1.received == w.received + [NextRead(w.pending)]
      && r.1.pending == Rest(w.pending)
      && r.1.writeFault == w.writeFault
      && r.0 == Receive(codec, NextRead(w.pending))
  {
    match codec.encode(msg)
    case Failure(e) => (Failure(Encoding(e)), w)
    case Success(text) =>
      if w.writeFault.Some? then (Failure(Websocket(w.writeFault.value)), w)
      else
        var read := NextRead(w.pending);
        (Receive(codec, read), w.(sent := w.sent + [Message.Text(text)], received := w.received + [read], pending := Rest(w.pending)))
  }

  /** A sequence of requests, each sent only once the previous answer has been read. */
  function Replay(codec: Codec, w: Wire, requests: seq<InputMessage>): (r: (seq<Result<OutputMessage, Error>>, Wire))
    ensures |r.0| == |requests|
    ensures Balanced(w) ==> Balanced(r.1)
    decreases |requests|
  {
    if requests == [] then ([], w)
    else
      var n := |requests| - 1;
      var (replies, w1) := Replay(codec, w, requests[..n]);
      var (reply, w2) := Exchange(codec, w1, requests[n]);
      (replies + [reply], w2)
  }

  /** The text frames the given requests encode to. */
  function Frames(codec: Codec, requests: seq<InputMessage>): (r: seq<Message>)
    requires forall i :: 0 <= i < |requests| ==> codec.encode(requests[i]).Success?
    ensures |r| == |requests|
  {
    seq(|requests|, i requires 0 <= i < |requests| => Message.Text(codec.encode(requests[i]).value))
  }

  /**
   * Answers are matched to requests by order alone: when every request encodes and writes
   * succeed, the `i`-th request is written `i`-th and answered by the `i`-th inbound item
   * (the end of the stream once the driver has nothing more to send).
   */
  lemma {:induction false} ReplayCorrelates(codec: Codec, w: Wire, requests: seq<InputMessage>)
    requires w.writeFault.None?
    requires forall i :: 0 <= i < |requests| ==> codec.encode(requests[i]).Success?
    ensures Replay(codec, w, requests).1.sent == w.sent + Frames(codec, requests)
    ensures Replay(codec, w, requests).1.received == w.received + Reads(w.pending, |requests|)
    ensures Replay(codec, w, requests).1.pending == Drop(w.pending, |requests|)
    ensures Replay(codec, w, requests).1.writeFault == w.writeFault
    ensures forall i :: 0 <= i < |requests| ==> Replay(codec, w, requests).0[i] == Receive(codec, NthRead(w.pending, i))
    decreases |requests|
  {
    if requests != [] {
      var n := |requests| - 1;
      ReplayCorrelates(codec, w, requests[..n]);
      var (replies, w1) := Replay(codec, w, requests[..n]);
      assert NextRead(w1.pending) == NthRead(w.pending, n);
      assert Rest(w1.pending) == Drop(w.pending, n + 1);
      assert Frames(codec, requests) == Frames(codec, requests[..n]) + [Message.Text(codec.encode(requests[n]).value)];
      assert Reads(w.pending, n + 1) == Reads(w.pending, n) + [NthRead(w.pending, n)];
    }
  }

  // ---------------------------------------------------------------------------------------
  // Interpreting an answer

  /**
   * `txrx!`: the expected answer gives the result, a driver `Error` answer becomes
   * `Error::Driver` with its message, any other answer is unexpected; a failed exchange
   * passes its error through unchanged.
   */
  function Txrx<T>(reply: Result<OutputMessage, Error>, expected: OutputMessage -> Option<T>): (r: Result<T, Error>)
    ensures reply.Failure? ==> r == Failure(reply.error)
    ensures r.Success? <==> reply.Success? && expected(reply.value).Some?
    ensures r.Success? ==> r.value == expected(reply.value).value
    ensures reply.Success? && expected(reply.value).None? ==>
      r.Failure? && r.error == (if reply.value.Error? then Driver(reply.value.msg) else UnexpectedDriverMessage(reply.value))
  {
    match reply
    case Failure(e) => Failure(e)
    case Success(m) =>
      match expected(m)
      case Some(v) => Success(v)
      case None => if m.Error? then Failure(Driver(m.msg)) else Failure(UnexpectedDriverMessage(m))
  }

  function ScreensOf(m: OutputMessage): Option<seq<Screen>>
  {
    if m.GotScreens? then Some(m.screens) else None
  }

  function MainScreenOf(m: OutputMessage): Option<Screen>
  {
    if m.GotMainScreen? then Some(m.screen) else None
  }

  function CapturedOf(m: OutputMessage): Option<ImageBuffer>
  {
    if m.CapturedScreen? then Some(m.imageBuffer) else None
  }

  function MouseLocationOf(m: OutputMessage): Option<Vec2>
  {
    if m.GotMouseLocation? then Some(m.location) else None
  }

  function DidInputOf(m: OutputMessage): Option<Unit>
  {
    if m.DidInput? then Some(Unit) else None
  }

  function DidTypeTextOf(m: OutputMessage): Option<Unit>
  {
    if m.DidTypeText? then Some(Unit) else None
  }

  function FoundTextOf(m: OutputMessage): Option<seq<BoundingRectangle>>
  {
    if m.FoundText? then Some(m.locations) else None
  }

  function FoundImageOf(m: OutputMessage): Option<seq<BoundingRectangle>>
  {
    if m.FoundImage? then Some(m.locations) else None
  }

  /** An input request succeeded exactly when the driver answered `DidInput`. */
  predicate InputDone(reply: Result<OutputMessage, Error>)
  {
    Txrx(reply, DidInputOf).Success?
  }

  lemma InputDoneIffDidInput(reply: Result<OutputMessage, Error>)
    ensures InputDone(reply) <==> reply == Success(DidInput)
  {
  }

  // ---------------------------------------------------------------------------------------
  // Connecting

  /** The parts of the request URI the client looks at. */
  datatype Uri = Uri(host: Option<string>, port: Option<u16>, path: string)

  /** The address to connect to; a missing host is reported before a missing port. */
  function Endpoint(uri: Uri): (r: Result<(string, u16), Error>)
    ensures uri.host.None? ==> r == Failure(MissingHost)
    ensures uri.host.Some? && uri.port.None? ==> r == Failure(MissingPort)
    ensures r.Success? <==> uri.host.Some? && uri.port.Some?
    ensures r.Success? ==> r.value == (uri.host.value, uri.port.value)
  {
    match uri.host
    case None => Failure(MissingHost)
    case Some(host) =>
      match uri.port
      case None => Failure(MissingPort)
      case Some(port) => Success((host, port))
  }

  // ---------------------------------------------------------------------------------------
  // Time

  ghost predicate Monotone(reading: nat -> real)
  {
    forall i: nat, j: nat :: i <= j ==> reading(i) <= reading(j)
  }

  ghost predicate Reaches(reading: nat -> real, bound: real)
  {
    exists n: nat :: reading(n) >= bound
  }

  /** A reading below another was taken before it. */
  lemma EarlierReading(reading: nat -> real, i: nat, j: nat)
    requires Monotone(reading) && reading(i) < reading(j)
    ensures i < j
  {
  }

  /**
   * A sleep of `duration` whose first reading was tick `from`: it polled until the time
   * elapsed since then reached `duration`, and `to` is the tick after the poll that saw it.
   */
  ghost predicate Slept(reading: nat -> real, from: nat, to: nat, duration: real)
  {
    && from + 2 <= to
    && reading(to - 1) - reading(from) >= duration
    && forall k :: from < k < to - 1 ==> reading(k) - reading(from) < duration
  }

  /** The clock alone decides when a sleep ends. */
  lemma SleptUnique(reading: nat -> real, from: nat, a: nat, b: nat, duration: real)
    requires Slept(reading, from, a, duration) && Slept(reading, from, b, duration)
    ensures a == b
  {
  }

  /** `Instant::now()`: the `ticks`-th read of the clock returns `reading(ticks)`. */
  class Clock {
    const reading: nat -> real
    var ticks: nat

    /** Time never goes back and eventually passes any bound. */
    ghost predicate Valid()
    {
      Monotone(reading) && forall bound: real :: Reaches(reading, bound)
    }

    constructor (reading: nat -> real)
      requires Monotone(reading) && forall bound: real :: Reaches(reading, bound)
      ensures this.reading == reading && ticks == 0 && Valid()
    {
      this.reading := reading;
      this.ticks := 0;
    }

    method Now() returns (t: real)
      modifies this
      ensures ticks == old(ticks) + 1 && t == reading(old(ticks))
    {
      t := reading(ticks);
      ticks := ticks + 1;
    }
  }

  /** The length of a pause between the two clicks of a double click, in seconds (10 ms). */
  const PauseSeconds: real := 0.01

  // ---------------------------------------------------------------------------------------
  // The session

  /** A request and the answer read for it (or the error that prevented one). */
  datatype Round = Round(request: InputMessage, reply: Result<OutputMessage, Error>)

  function Requests(log: seq<Round>): (r: seq<InputMessage>)
    ensures |r| == |log|
  {
    if log == [] then [] else Requests(log[..|log| - 1]) + [log[|log| - 1].request]
  }

  function Replies(log: seq<Round>): (r: seq<Result<OutputMessage, Error>>)
    ensures |r| == |log|
  {
    if log == [] then [] else Replies(log[..|log| - 1]) + [log[|log| - 1].reply]
  }

  lemma {:induction false} RequestsAt(log: seq<Round>, i: nat)
    requires i < |log|
    ensures Requests(log)[i] == log[i].request && Replies(log)[i] == log[i].reply
    decreases |log|
  {
    if i < |log| - 1 {
      RequestsAt(log[..|log| - 1], i);
    }
  }

  /** `after` is `before` with one more round, for request `msg`. */
  ghost predicate Extended(before: seq<Round>, after: seq<Round>, msg: InputMessage)
  {
    |after| == |before| + 1 && after[..|before|] == before && after[|before|].request == msg
  }

  /** The input requests for a sequence of tokens. */
  function Inputs(tokens: seq<Token>): (r: seq<InputMessage>)
    ensures |r| == |tokens|
  {
    if tokens == [] then [] else Inputs(tokens[..|tokens| - 1]) + [DoInput(tokens[|tokens| - 1])]
  }

  lemma {:induction false} InputsAt(tokens: seq<Token>, i: nat)
    requires i < |tokens|
    ensures Inputs(tokens)[i] == DoInput(tokens[i])
    decreases |tokens|
  {
    if i < |tokens| - 1 {
      InputsAt(tokens[..|tokens| - 1], i);
    }
  }

  /** `states[i + 1]` is the socket after exchanging `log[i]` on `states[i]`. */
  ghost predicate Step(codec: Codec, states: seq<Wire>, log: seq<Round>, i: nat)
    requires i < |log| && |states| == |log| + 1
  {
    Exchange(codec, states[i], log[i].request) == (log[i].reply, states[i + 1])
  }

  /** Every round of `log` took the socket from one entry of `states` to the next. */
  ghost predicate Trace(codec: Codec, states: seq<Wire>, log: seq<Round>)
  {
    && |states| == |log| + 1
    && forall i: nat :: i < |log| ==> Step(codec, states, log, i)
  }

  lemma TraceSnoc(codec: Codec, states: seq<Wire>, log: seq<Round>, round: Round, w: Wire)
    requires Trace(codec, states, log)
    requires Exchange(codec, states[|log|], round.request) == (round.reply, w)
    ensures Trace(codec, states + [w], log + [round])
  {
    forall i: nat | i < |log| + 1
      ensures Step(codec, states + [w], log + [round], i)
    {
      if i < |log| {
        assert Step(codec, states, log, i);
      }
    }
  }

  /** A trace is the replay of its requests: the session's log is what `Replay` predicts. */
  lemma {:induction false} TraceIsReplay(codec: Codec, states: seq<Wire>, log: seq<Round>)
    requires Trace(codec, states, log)
    ensures Replay(codec, states[0], Requests(log)) == (Replies(log), states[|log|])
    decreases |log|
  {
    if log != [] {
      var n := |log| - 1;
      var states', log' := states[..n + 1], log[..n];
      forall i: nat | i < n
        ensures Step(codec, states', log', i)
      {
        assert Step(codec, states, log, i);
      }
      assert Step(codec, states, log, n);
      TraceIsReplay(codec, states', log');
      RequestsAt(log, n);
    }
  }

  lemma LogSnoc(log: seq<Round>, round: Round)
    ensures Requests(log + [round]) == Requests(log) + [round.request]
    ensures Replies(log + [round]) == Replies(log) + [round.reply]
  {
    assert (log + [round])[..|log|] == log;
  }

  lemma InputsSnoc(tokens: seq<Token>, t: Token)
    ensures Inputs(tokens + [t]) == Inputs(tokens) + [DoInput(t)]
  {
    assert (tokens + [t])[..|tokens|] == tokens;
  }

  lemma {:induction false} RequestsAppend(a: seq<Round>, b: seq<Round>)
    ensures Requests(a + b) == Requests(a) + Requests(b)
    decreases |b|
  {
    if b != [] {
      var n := |b| - 1;
      RequestsAppend(a, b[..n]);
      assert (a + b)[..|a + b| - 1] == a + b[..n];
      assert (a + b)[|a + b| - 1] == b[n];
      assert Requests(a + b) == Requests(a) + Requests(b[..n]) + [b[n].request];
    } else {
      assert a + b == a;
    }
  }

  lemma {:induction false} InputsAppend(a: seq<Token>, b: seq<Token>)
    ensures Inputs(a + b) == Inputs(a) + Inputs(b)
    decreases |b|
  {
    if b != [] {
      var n := |b| - 1;
      InputsAppend(a, b[..n]);
      assert (a + b)[..|a + b| - 1] == a + b[..n];
      assert (a + b)[|a + b| - 1] == b[n];
      assert Inputs(a + b) == Inputs(a) + Inputs(b[..n]) + [DoInput(b[n])];
    } else {
      assert a + b == a;
    }
  }

  lemma LogSplit(before: seq<Round>, after: seq<Round>)
    requires |before| <= |after| && after[..|before|] == before
    ensures after == before + after[|before|..]
  {
  }

  lemma SuffixOf(log0: seq<Round>, rounds: seq<Round>, log: seq<Round>)
    requires log == log0 + rounds
    ensures log[|log0|..] == rounds && |log0| <= |log| && log[..|log0|] == log0
  {
  }

  /** One more input request extends both the log and the plan it follows by one. */
  lemma AfterInput(log0: seq<Round>, rounds: seq<Round>, before: seq<Round>, after: seq<Round>, tokens: seq<Token>, t: Token)
    requires before == log0 + rounds
    requires Extended(before, after, DoInput(t))
    requires Requests(rounds) == Inputs(tokens)
    ensures after == log0 + (rounds + [after[|before|]])
    ensures Requests(rounds + [after[|before|]]) == Inputs(tokens + [t])
  {
    LogSplit(before, after);
    LogSnoc(rounds, after[|before|]);
    InputsSnoc(tokens, t);
  }

  /** One more sample extends both the log and the segment's plan by one move. */
  lemma AfterSample(log0: seq<Round>, rounds: seq<Round>, before: seq<Round>, after: seq<Round>,
                    seg: (Vec2, Vec2), spline: real, coordinate: Coordinate, samples: seq<real>, s: real)
    requires spline > 0.0
    requires before == log0 + rounds
    requires Requests(rounds) == Inputs(SegmentPlan(seg, spline, coordinate, samples))
    requires Extended(before, after, DoInput(MoveTo(Lerp(seg.0, seg.1, s / spline), coordinate)))
    ensures after == log0 + (rounds + [after[|before|]])
    ensures Requests(rounds + [after[|before|]]) == Inputs(SegmentPlan(seg, spline, coordinate, samples + [s]))
  {
    SegmentPlanSnoc(seg, spline, coordinate, samples, s);
    AfterInput(log0, rounds, before, after, SegmentPlan(seg, spline, coordinate, samples), MoveTo(Lerp(seg.0, seg.1, s / spline), coordinate));
  }

  /** One more segment extends the walk's log, its runs and the plan they follow together. */
  lemma AfterSegment(log0: seq<Round>, rounds: seq<Round>, before: seq<Round>, after: seq<Round>,
                     segs: seq<(Vec2, Vec2)>, splines: seq<real>, coordinate: Coordinate,
                     runs: seq<SegmentRun>, run: SegmentRun)
    requires before == log0 + rounds
    requires |before| < |after| && after[..|before|] == before
    requires |runs| < |segs| == |splines| && RunsFit(segs, splines, runs)
    requires Sampled(run, splines[|runs|]) && (run.samples != [] ==> splines[|runs|] > 0.0)
    requires Requests(rounds) == Inputs(PathPlan(segs, splines, coordinate, runs))
    requires Requests(after[|before|..]) == Inputs(SegmentPlan(segs[|runs|], splines[|runs|], coordinate, run.samples))
    ensures after == log0 + (rounds + after[|before|..])
    ensures |rounds| < |rounds + after[|before|..]| && (rounds + after[|before|..])[..|rounds|] == rounds
    ensures (runs + [run])[..|runs|] == runs && RunsFit(segs, splines, runs + [run])
    ensures Requests(rounds + after[|before|..]) == Inputs(PathPlan(segs, splines, coordinate, runs + [run]))
  {
    var part := after[|before|..];
    LogAppend(log0, rounds, before, after);
    PlanAppend(segs, splines, coordinate, runs, run);
  }

  lemma LogAppend(log0: seq<Round>, rounds: seq<Round>, before: seq<Round>, after: seq<Round>)
    requires before == log0 + rounds
    requires |before| < |after| && after[..|before|] == before
    ensures after == log0 + (rounds + after[|before|..])
    ensures |rounds| < |rounds + after[|before|..]| && (rounds + after[|before|..])[..|rounds|] == rounds
    ensures Requests(rounds + after[|before|..]) == Requests(rounds) + Requests(after[|before|..])
  {
    var part := after[|before|..];
    LogSplit(before, after);
    AppendAssociates(log0, rounds, part);
    RequestsAppend(rounds, part);
    assert (rounds + part)[..|rounds|] == rounds;
  }

  lemma AppendAssociates<T>(a: seq<T>, b: seq<T>, c: seq<T>)
    ensures (a + b) + c == a + (b + c)
  {
  }

  lemma PlanAppend(segs: seq<(Vec2, Vec2)>, splines: seq<real>, coordinate: Coordinate, runs: seq<SegmentRun>, run: SegmentRun)
    requires |runs| < |segs| == |splines| && RunsFit(segs, splines, runs)
    requires Sampled(run, splines[|runs|]) && (run.samples != [] ==> splines[|runs|] > 0.0)
    ensures (runs + [run])[..|runs|] == runs && RunsFit(segs, splines, runs + [run])
    ensures Inputs(PathPlan(segs, splines, coordinate, runs + [run]))
         == Inputs(PathPlan(segs, splines, coordinate, runs)) + Inputs(SegmentPlan(segs[|runs|], splines[|runs|], coordinate, run.samples))
  {
    assert RunsFit(segs, splines, runs + [run]);
    PathPlanSnoc(segs, splines, coordinate, runs, run);
    InputsAppend(PathPlan(segs, splines, coordinate, runs), SegmentPlan(segs[|runs|], splines[|runs|], coordinate, run.samples));
  }

  /** What holds of the rounds counted from 0 holds of the same rounds in the log, counted from `|log0|`. */
  lemma DoneInLog(log0: seq<Round>, rounds: seq<Round>, log: seq<Round>, hi: int)
    requires log == log0 + rounds && hi <= |rounds|
    requires forall k :: 0 <= k < hi ==> InputDone(rounds[k].reply)
    ensures forall k :: |log0| <= k < |log0| + hi ==> InputDone(log[k].reply)
  {
    forall k | |log0| <= k < |log0| + hi
      ensures InputDone(log[k].reply)
    {
      assert log[k] == rounds[k - |log0|];
    }
  }

  // ---------------------------------------------------------------------------------------
  // What the mouse path has done so far

  /**
   * The sampling loop of one segment so far: the samples were taken because `start`, the
   * reading at tick `t0`, was less than `spline` seconds back; they are the elapsed times the
   * clock showed from tick `t0` on, `end` is the next tick, and `rounds` are the moves.
   */
  ghost predicate Sampling(seg: (Vec2, Vec2), spline: real, coordinate: Coordinate, reading: nat -> real, t0: nat,
                           start: real, rounds: seq<Round>, run: SegmentRun, end: nat)
  {
    && Sampled(run, spline) && (run.samples != [] ==> spline > 0.0)
    && start == reading(t0) && end == t0 + RunTicks(run) && ReadFrom(reading, t0, run)
    && Requests(rounds) == Inputs(SegmentPlan(seg, spline, coordinate, run.samples))
  }

  /** Every round in `rounds` before index `hi` was an input the driver did. */
  ghost predicate DoneBefore(rounds: seq<Round>, hi: int)
  {
    forall k :: 0 <= k < hi && k < |rounds| ==> InputDone(rounds[k].reply)
  }

  /**
   * One segment of the walk, as `rounds`: the moves of its plan for `run`, every one done
   * when `r` succeeded, in which case the loop stopped on its own, and all but the last one
   * done otherwise, the last one's answer being `r`. The clock was first read at tick `t` and
   * next unread at `end`: once when the initial move failed, otherwise as `ReadFrom` says.
   */
  ghost predicate SegmentDone(seg: (Vec2, Vec2), spline: real, coordinate: Coordinate, rounds: seq<Round>,
                              reading: nat -> real, t: nat, end: nat, run: SegmentRun, r: Result<Unit, Error>)
  {
    && Sampled(run, spline) && (run.samples != [] ==> spline > 0.0)
    && Requests(rounds) == Inputs(SegmentPlan(seg, spline, coordinate, run.samples))
    && (r.Success? ==> Finished(run, spline) && DoneBefore(rounds, |rounds|))
    && (r.Failure? ==> DoneBefore(rounds, |rounds| - 1) && r == Txrx(rounds[|rounds| - 1].reply, DidInputOf))
    && (if r.Failure? && run.samples == [] then end == t + 1 else end == t + RunTicks(run) && ReadFrom(reading, t, run))
  }

  /**
   * The walk so far, as `rounds`: the moves of the path plan for `runs`, the runs read from
   * the clock from tick `t0` on up to tick `end`, every move done and every segment finished
   * when `r` succeeded, and otherwise the walk stopped at its last move, whose answer is `r`.
   */
  ghost predicate Walking(segs: seq<(Vec2, Vec2)>, splines: seq<real>, coordinate: Coordinate, reading: nat -> real,
                          t0: nat, rounds: seq<Round>, runs: seq<SegmentRun>, end: nat, r: Result<Unit, Error>)
  {
    && RunsFit(segs, splines, runs)
    && Requests(rounds) == Inputs(PathPlan(segs, splines, coordinate, runs))
    && WalkRead(reading, t0, runs, r.Failure?, end)
    && (r.Success? ==> AllFinished(runs, splines) && DoneBefore(rounds, |rounds|))
    && (r.Failure? ==>
          && runs != [] && AllFinished(runs[..|runs| - 1], splines)
          && rounds != [] && DoneBefore(rounds, |rounds| - 1)
          && r == Txrx(rounds[|rounds| - 1].reply, DidInputOf))
  }

  /** The rounds of two parts done before `|a| + hi` when those of `a` and of `b` before `hi` were. */
  lemma DoneConcat(a: seq<Round>, b: seq<Round>, hi: int)
    requires DoneBefore(a, |a|) && DoneBefore(b, hi)
    ensures DoneBefore(a + b, |a| + hi)
  {
    forall k | 0 <= k < |a| + hi && k < |a + b|
      ensures InputDone((a + b)[k].reply)
    {
      if k < |a| {
        assert (a + b)[k] == a[k];
      } else {
        assert (a + b)[k] == b[k - |a|];
      }
    }
  }

  /** A sample whose move was done extends the sampling loop by one. */
  lemma SamplingSnoc(seg: (Vec2, Vec2), spline: real, coordinate: Coordinate, reading: nat -> real, t0: nat, start: real,
                     log0: seq<Round>, rounds: seq<Round>, run: SegmentRun, before: seq<Round>, after: seq<Round>, now: real)
    requires Sampling(seg, spline, coordinate, reading, t0, start, rounds, run, t0 + RunTicks(run))
    requires LastReading(run) <= now - start && LastReading(run) < spline
    requires now == reading(t0 + RunTicks(run))
    requires before == log0 + rounds
    requires Extended(before, after, DoInput(MoveTo(Lerp(seg.0, seg.1, (now - start) / spline), coordinate)))
    ensures spline > 0.0
    ensures after == log0 + (rounds + [after[|before|]])
    ensures Sampling(seg, spline, coordinate, reading, t0, start, rounds + [after[|before|]],
                     SegmentRun(run.first, run.samples + [now - start]), t0 + RunTicks(run) + 1)
    ensures LastReading(SegmentRun(run.first, run.samples + [now - start])) == now - start
  {
    SampledRunSnoc(spline, reading, t0, run, now - start);
    AfterSample(log0, rounds, before, after, seg, spline, coordinate, run.samples, now - start);
  }

  /** The run of `SamplingSnoc`: one more sample, read at the next tick. */
  lemma SampledRunSnoc(spline: real, reading: nat -> real, t0: nat, run: SegmentRun, s: real)
    requires Sampled(run, spline) && LastReading(run) <= s && LastReading(run) < spline
    requires ReadFrom(reading, t0, run) && s == reading(t0 + RunTicks(run)) - reading(t0)
    ensures spline > 0.0
    ensures Sampled(SegmentRun(run.first, run.samples + [s]), spline)
    ensures LastReading(SegmentRun(run.first, run.samples + [s])) == s
    ensures ReadFrom(reading, t0, SegmentRun(run.first, run.samples + [s]))
  {
    SampledNonnegative(run, spline);
    SampledSnoc(run, spline, s);
    ReadFromSnoc(reading, t0, run, s);
  }

  /**
   * `Walking` spelt out over the log it extends from index `at` on: the moves are the path
   * plan of runs that fit the segments and were read from the clock; when the walk succeeded
   * every segment finished and every move was done; otherwise every segment but the last
   * finished, every move but the last was done, and the last one's answer is the result.
   */
  lemma WalkingExplicit(segs: seq<(Vec2, Vec2)>, splines: seq<real>, coordinate: Coordinate, reading: nat -> real, t0: nat,
                        log: seq<Round>, at: nat, runs: seq<SegmentRun>, end: nat, r: Result<Unit, Error>)
    requires at <= |log| && Walking(segs, splines, coordinate, reading, t0, log[at..], runs, end, r)
    ensures RunsFit(segs, splines, runs) && WalkRead(reading, t0, runs, r.Failure?, end)
    ensures Requests(log[at..]) == Inputs(PathPlan(segs, splines, coordinate, runs))
    ensures r.Success? ==>
      && (forall i :: 0 <= i < |runs| ==> Finished(runs[i], splines[i]))
      && forall k :: at <= k < |log| ==> InputDone(log[k].reply)
    ensures r.Failure? ==>
      && at < |log|
      && (forall k :: at <= k < |log| - 1 ==> InputDone(log[k].reply))
      && r == Txrx(log[|log| - 1].reply, DidInputOf)
      && runs != []
      && forall i :: 0 <= i < |runs| - 1 ==> Finished(runs[i], splines[i])
  {
    var rounds := log[at..];
    assert log == log[..at] + rounds;
    if r.Success? {
      AllFinishedEach(runs, splines);
      DoneInLog(log[..at], rounds, log, |rounds|);
    } else {
      AllFinishedEach(runs[..|runs| - 1], splines);
      assert forall i :: 0 <= i < |runs| - 1 ==> runs[..|runs| - 1][i] == runs[i];
      DoneInLog(log[..at], rounds, log, |rounds| - 1);
    }
  }

  /** A sampling loop whose last move failed is a segment that ended with that move's answer. */
  lemma SampleFailed(seg: (Vec2, Vec2), spline: real, coordinate: Coordinate, reading: nat -> real, t0: nat, start: real,
                     done: seq<Round>, last: Round, run: SegmentRun, end: nat, r: Result<Unit, Error>)
    requires Sampling(seg, spline, coordinate, reading, t0, start, done + [last], run, end)
    requires DoneBefore(done, |done|) && run.samples != []
    requires r.Failure? && r == Txrx(last.reply, DidInputOf)
    ensures SegmentDone(seg, spline, coordinate, done + [last], reading, t0, end, run, r)
  {
    assert forall k :: 0 <= k < |done| ==> (done + [last])[k] == done[k];
  }

  /** A sampling loop that saw `spline` elapse, every move done, is a finished segment. */
  lemma SampleFinished(seg: (Vec2, Vec2), spline: real, coordinate: Coordinate, reading: nat -> real, t0: nat, start: real,
                       rounds: seq<Round>, run: SegmentRun, end: nat)
    requires Sampling(seg, spline, coordinate, reading, t0, start, rounds, run, end)
    requires DoneBefore(rounds, |rounds|) && LastReading(run) >= spline
    ensures SegmentDone(seg, spline, coordinate, rounds, reading, t0, end, run, Success(Unit))
  {
  }

  /** One more segment extends the walk: log, runs, plan and clock readings together. */
  lemma WalkingSnoc(segs: seq<(Vec2, Vec2)>, splines: seq<real>, coordinate: Coordinate, reading: nat -> real, t0: nat,
                    log0: seq<Round>, rounds: seq<Round>, runs: seq<SegmentRun>, before: seq<Round>, after: seq<Round>,
                    t: nat, end: nat, run: SegmentRun, r: Result<Unit, Error>)
    requires |runs| < |segs| == |splines|
    requires before == log0 + rounds && |before| < |after| && after[..|before|] == before
    requires Walking(segs, splines, coordinate, reading, t0, rounds, runs, t, Success(Unit))
    requires SegmentDone(segs[|runs|], splines[|runs|], coordinate, after[|before|..], reading, t, end, run, r)
    ensures after == log0 + (rounds + after[|before|..]) && |rounds| < |rounds + after[|before|..]|
    ensures (runs + [run])[..|runs|] == runs
    ensures Walking(segs, splines, coordinate, reading, t0, rounds + after[|before|..], runs + [run], end, r)
  {
    var part := after[|before|..];
    AfterSegment(log0, rounds, before, after, segs, splines, coordinate, runs, run);
    WalkReadSnoc(reading, t0, runs, t, run, r.Failure?, end);
    OutcomeSnoc(splines, rounds, part, runs, run, r);
  }

  /** How the walk ends after one more segment: as that segment ended. */
  lemma OutcomeSnoc(splines: seq<real>, rounds: seq<Round>, part: seq<Round>, runs: seq<SegmentRun>, run: SegmentRun,
                    r: Result<Unit, Error>)
    requires |runs| < |splines| && AllFinished(runs, splines) && DoneBefore(rounds, |rounds|)
    requires r.Success? ==> Finished(run, splines[|runs|]) && DoneBefore(part, |part|)
    requires r.Failure? ==> part != [] && DoneBefore(part, |part| - 1) && r == Txrx(part[|part| - 1].reply, DidInputOf)
    ensures r.Success? ==> AllFinished(runs + [run], splines) && DoneBefore(rounds + part, |rounds + part|)
    ensures r.Failure? ==>
      && AllFinished((runs + [run])[..|runs|], splines)
      && rounds + part != [] && DoneBefore(rounds + part, |rounds + part| - 1)
      && r == Txrx((rounds + part)[|rounds + part| - 1].reply, DidInputOf)
  {
    assert (runs + [run])[..|runs|] == runs;
    if r.Success? {
      DoneConcat(rounds, part, |part|);
    } else {
      DoneConcat(rounds, part, |part| - 1);
      assert (rounds + part)[|rounds + part| - 1] == part[|part| - 1];
    }
  }

  class Session {
    const codec: Codec
    const socket: Socket
    /** The socket as the session found it. */
    ghost const initial: Wire
    /** Every request sent so far with its answer, oldest first. */
    ghost var log: seq<Round>
    /** The socket before the first round and after each round. */
    ghost var states: seq<Wire>

    /** Each logged round is one exchange, from the session's first socket state to its current one. */
    ghost predicate Valid()
      reads this, socket
    {
      Trace(codec, states, log) && states[0] == initial && states[|log|] == socket.State()
    }

    ghost function LastReply(): Result<OutputMessage, Error>
      reads this
      requires log != []
    {
      log[|log| - 1].reply
    }

    constructor Over(codec: Codec, socket: Socket)
      ensures this.codec == codec && this.socket == socket
      ensures initial == socket.State() && log == []
      ensures Valid()
    {
      this.codec := codec;
      this.socket := socket;
      this.initial := socket.State();
      this.log := [];
      this.states := [socket.State()];
    }

    /**
     * `Session::new`: builds the request, checks host and port, connects and shakes hands.
     * Connecting and the handshake are the given outcomes; `socket` is the stream they yield.
     */
    static method New(request: Result<Uri, WsError>, connectFault: Option<string>, handshakeFault: Option<WsError>, codec: Codec, socket: Socket)
      returns (r: Result<Session, Error>)
      ensures r.Success? <==> request.Success? && Endpoint(request.value).Success? && connectFault.None? && handshakeFault.None?
      ensures request.Failure? ==> r.Failure? && r.error == Websocket(request.error)
      ensures request.Success? && Endpoint(request.value).Failure? ==> r.Failure? && r.error == Endpoint(request.value).error
      ensures request.Success? && Endpoint(request.value).Success? && connectFault.Some? ==>
        r.Failure? && r.error == Error.Other(connectFault.value)
      ensures request.Success? && Endpoint(request.value).Success? && connectFault.None? && handshakeFault.Some? ==>
        r.Failure? && r.error == Websocket(handshakeFault.value)
      ensures r.Success? ==> fresh(r.value) && r.value.Valid() && r.value.log == [] && r.value.codec == codec && r.value.socket == socket
    {
      if request.Failure? {
        return Failure(Websocket(request.error));
      }
      var endpoint := Endpoint(request.value);
      if endpoint.Failure? {
        return Failure(endpoint.error);
      }
      if connectFault.Some? {
        return Failure(Error.Other(connectFault.value));
      }
      if handshakeFault.Some? {
        return Failure(Websocket(handshakeFault.value));
      }
      var session := new Session.Over(codec, socket);
      r := Success(session);
    }

    /** `recv`: reads one item and interprets it. */
    method Recv() returns (r: Result<OutputMessage, Error>)
      modifies socket
      ensures r == Receive(codec, NextRead(old(socket.pending)))
      ensures socket.State() == old(socket.State()).(received := old(socket.received) + [NextRead(old(socket.pending))], pending := Rest(old(socket.pending)))
    {
      var read := socket.Next();
      r := Receive(codec, read);
    }

    /** `send`: encodes `msg`, writes it as one text frame and reads the answer. */
    method Send(msg: InputMessage) returns (r: Result<OutputMessage, Error>)
      requires Valid()
      modifies this, socket
      ensures Valid()
      ensures log == old(log) + [Round(msg, r)]
      ensures (r, socket.State()) == Exchange(codec, old(socket.State()), msg)
    {
      var encoded := codec.encode(msg);
      if encoded.Failure? {
        r := Failure(Encoding(encoded.error));
      } else {
        var written := socket.Write(Message.Text(encoded.value));
        if written.Fail? {
          r := Failure(Websocket(written.error));
        } else {
          r := Recv();
        }
      }
      TraceSnoc(codec, states, log, Round(msg, r), socket.State());
      log := log + [Round(msg, r)];
      states := states + [socket.State()];
    }

    method GetScreens() returns (r: Result<seq<Screen>, Error>)
      requires Valid()
      modifies this, socket
      ensures Valid() && Extended(old(log), log, InputMessage.GetScreens)
      ensures r == Txrx(LastReply(), ScreensOf)
    {
      var reply := Send(InputMessage.GetScreens);
      r := Txrx(reply, ScreensOf);
    }

    method GetMainScreen() returns (r: Result<Screen, Error>)
      requires Valid()
      modifies this, socket
      ensures Valid() && Extended(old(log), log, InputMessage.GetMainScreen)
      ensures r == Txrx(LastReply(), MainScreenOf)
    {
      var reply := Send(InputMessage.GetMainScreen);
      r := Txrx(reply, MainScreenOf);
    }

    method CaptureScreen(screenName: string) returns (r: Result<ImageBuffer, Error>)
      requires Valid()
      modifies this, socket
      ensures Valid() && Extended(old(log), log, InputMessage.CaptureScreen(screenName))
      ensures r == Txrx(LastReply(), CapturedOf)
    {
      var reply := Send(InputMessage.CaptureScreen(screenName));
      r := Txrx(reply, CapturedOf);
    }

    method GetMouseLocation() returns (r: Result<Vec2, Error>)
      requires Valid()
      modifies this, socket
      ensures Valid() && Extended(old(log), log, InputMessage.GetMouseLocation)
      ensures r == Txrx(LastReply(), MouseLocationOf)
    {
      var reply := Send(InputMessage.GetMouseLocation);
      r := Txrx(reply, MouseLocationOf);
    }

    method Input(token: Token) returns (r: Result<Unit, Error>)
      requires Valid()
      modifies this, socket
      ensures Valid() && Extended(old(log), log, DoInput(token))
      ensures r == Txrx(LastReply(), DidInputOf)
    {
      var reply := Send(DoInput(token));
      r := Txrx(reply, DidInputOf);
    }

    /** `text`: types the text in one `DoTypeText` request. */
    method TypeTextRequest(text: string) returns (r: Result<Unit, Error>)
      requires Valid()
      modifies this, socket
      ensures Valid() && Extended(old(log), log, DoTypeText(text))
      ensures r == Txrx(LastReply(), DidTypeTextOf)
    {
      var reply := Send(DoTypeText(text));
      r := Txrx(reply, DidTypeTextOf);
    }

    method FindTextInScreen(screenName: string, text: string, timeoutInSeconds: real) returns (r: Result<seq<BoundingRectangle>, Error>)
      requires Valid()
      modifies this, socket
      ensures Valid() && Extended(old(log), log, FindText(text, screenName, timeoutInSeconds))
      ensures r == Txrx(LastReply(), FoundTextOf)
    {
      var reply := Send(FindText(text, screenName, timeoutInSeconds));
      r := Txrx(reply, FoundTextOf);
    }

    method FindImageInScreen(screenName: string, image: ImageBuffer, quality: FindImageQuality, filter: FindImageFilter)
      returns (r: Result<seq<BoundingRectangle>, Error>)
      requires Valid()
      modifies this, socket
      ensures Valid() && Extended(old(log), log, FindImage(screenName, image, quality, filter))
      ensures r == Txrx(LastReply(), FoundImageOf)
    {
      var reply := Send(FindImage(screenName, image, quality, filter));
      r := Txrx(reply, FoundImageOf);
    }

    /**
     * `sleep`: reads the clock once, then polls it until at least `duration` has elapsed
     * since that first reading; every earlier poll saw less than `duration`.
     */
    method Sleep(clock: Clock, duration: real)
      requires clock.Valid() && duration >= 0.0
      modifies clock
      ensures Slept(clock.reading, old(clock.ticks), clock.ticks, duration)
    {
      var instant := clock.Now();
      assert Reaches(clock.reading, instant + duration);
      ghost var deadline: nat :| clock.reading(deadline) >= instant + duration;
      var polled := clock.Now();
      while polled - instant < duration
        invariant clock.ticks >= old(clock.ticks) + 2
        invariant instant == clock.reading(old(clock.ticks)) && polled == clock.reading(clock.ticks - 1)
        invariant forall k :: old(clock.ticks) < k < clock.ticks - 1 ==> clock.reading(k) - instant < duration
        decreases deadline - clock.ticks
      {
        EarlierReading(clock.reading, clock.ticks - 1, deadline);
        polled := clock.Now();
      }
    }

    /** `pause`: sleeps for 10 ms. */
    method Pause(clock: Clock)
      requires clock.Valid()
      modifies clock
      ensures Slept(clock.reading, old(clock.ticks), clock.ticks, PauseSeconds)
    {
      Sleep(clock, PauseSeconds);
    }

    method KeyDown(key: Key) returns (r: Result<Unit, Error>)
      requires Valid()
      modifies this, socket
      ensures Valid() && Extended(old(log), log, DoInput(Token.Key(key, Press)))
      ensures r == Txrx(LastReply(), DidInputOf)
    {
      r := Input(Token.Key(key, Press));
    }

    method KeyUp(key: Key) returns (r: Result<Unit, Error>)
      requires Valid()
      modifies this, socket
      ensures Valid() && Extended(old(log), log, DoInput(Token.Key(key, Release)))
      ensures r == Txrx(LastReply(), DidInputOf)
    {
      r := Input(Token.Key(key, Release));
    }

    method KeyClick(key: Key) returns (r: Result<Unit, Error>)
      requires Valid()
      modifies this, socket
      ensures Valid() && Extended(old(log), log, DoInput(Token.Key(key, Click)))
      ensures r == Txrx(LastReply(), DidInputOf)
    {
      r := Input(Token.Key(key, Click));
    }

    /** `type_text`: types the text as one `Text` input token. */
    method TypeText(text: string) returns (r: Result<Unit, Error>)
      requires Valid()
      modifies this, socket
      ensures Valid() && Extended(old(log), log, DoInput(Token.Text(text)))
      ensures r == Txrx(LastReply(), DidInputOf)
    {
      r := Input(Token.Text(text));
    }

    /** Moves the mouse to `loc`, each coordinate truncated to an i32. */
    method SetMouseLocation(loc: Vec2, coordinate: Coordinate) returns (r: Result<Unit, Error>)
      requires Valid()
      modifies this, socket
      ensures Valid() && Extended(old(log), log, DoInput(MoveTo(loc, coordinate)))
      ensures r == Txrx(LastReply(), DidInputOf)
    {
      r := Input(MoveMouse(AsI32(loc.x), AsI32(loc.y), coordinate));
    }

    /** One button action: the shape of every `mouse_<button>_<down|up|click>`. */
    method MouseButton(button: Button, direction: Direction) returns (r: Result<Unit, Error>)
      requires Valid()
      modifies this, socket
      ensures Valid() && Extended(old(log), log, DoInput(Token.Button(button, direction)))
      ensures r == Txrx(LastReply(), DidInputOf)
    {
      r := Input(Token.Button(button, direction));
    }

    method MouseLeftDown() returns (r: Result<Unit, Error>)
      requires Valid()
      modifies this, socket
      ensures Valid() && Extended(old(log), log, DoInput(Token.Button(Left, Press)))
      ensures r == Txrx(LastReply(), DidInputOf)
    {
      r := MouseButton(Left, Press);
    }

    method MouseLeftUp() returns (r: Result<Unit, Error>)
      requires Valid()
      modifies this, socket
      ensures Valid() && Extended(old(log), log, DoInput(Token.Button(Left, Release)))
      ensures r == Txrx(LastReply(), DidInputOf)
    {
      r := MouseButton(Left, Release);
    }

    method MouseLeftClick() returns (r: Result<Unit, Error>)
      requires Valid()
      modifies this, socket
      ensures Valid() && Extended(old(log), log, DoInput(Token.Button(Left, Click)))
      ensures r == Txrx(LastReply(), DidInputOf)
    {
      r := MouseButton(Left, Click);
    }

    method MouseMiddleDown() returns (r: Result<Unit, Error>)
      requires Valid()
      modifies this, socket
      ensures Valid() && Extended(old(log), log, DoInput(Token.Button(Middle, Press)))
      ensures r == Txrx(LastReply(), DidInputOf)
    {
      r := MouseButton(Middle, Press);
    }

    method MouseMiddleUp() returns (r: Result<Unit, Error>)
      requires Valid()
      modifies this, socket
      ensures Valid() && Extended(old(log), log, DoInput(Token.Button(Middle, Release)))
      ensures r == Txrx(LastReply(), DidInputOf)
    {
      r := MouseButton(Middle, Release);
    }

    method MouseMiddleClick() returns (r: Result<Unit, Error>)
      requires Valid()
      modifies this, socket
      ensures Valid() && Extended(old(log), log, DoInput(Token.Button(Middle, Click)))
      ensures r == Txrx(LastReply(), DidInputOf)
    {
      r := MouseButton(Middle, Click);
    }

    method MouseRightDown() returns (r: Result<Unit, Error>)
      requires Valid()
      modifies this, socket
      ensures Valid() && Extended(old(log), log, DoInput(Token.Button(Right, Press)))
      ensures r == Txrx(LastReply(), DidInputOf)
    {
      r := MouseButton(Right, Press);
    }

    method MouseRightUp() returns (r: Result<Unit, Error>)
      requires Valid()
      modifies this, socket
      ensures Valid() && Extended(old(log), log, DoInput(Token.Button(Right, Release)))
      ensures r == Txrx(LastReply(), DidInputOf)
    {
      r := MouseButton(Right, Release);
    }

    method MouseRightClick() returns (r: Result<Unit, Error>)
      requires Valid()
      modifies this, socket
      ensures Valid() && Extended(old(log), log, DoInput(Token.Button(Right, Click)))
      ensures r == Txrx(LastReply(), DidInputOf)
    {
      r := MouseButton(Right, Click);
    }

    /**
     * Two clicks of `button` with a pause between them, the shape of every
     * `mouse_<button>_double_click`. A failed first click skips the pause and the second
     * click; the result is the first failure, if any.
     */
    method MouseDoubleClick(clock: Clock, button: Button) returns (r: Result<Unit, Error>)
      requires Valid() && clock.Valid()
      modifies this, socket, clock
      ensures Valid()
      ensures |old(log)| < |log| <= |old(log)| + 2 && log[..|old(log)|] == old(log)
      ensures forall k :: |old(log)| <= k < |log| ==> log[k].request == DoInput(Token.Button(button, Click))
      ensures |log| == |old(log)| + 1 ==>
        r == Txrx(log[|old(log)|].reply, DidInputOf) && r.Failure? && clock.ticks == old(clock.ticks)
      ensures |log| == |old(log)| + 2 ==>
        && InputDone(log[|old(log)|].reply)
        && r == Txrx(log[|old(log)| + 1].reply, DidInputOf)
        && Slept(clock.reading, old(clock.ticks), clock.ticks, PauseSeconds)
    {
      ghost var log0 := log;
      var first := MouseButton(button, Click);
      if first.Failure? {
        return first;
      }
      ghost var log1 := log;
      Pause(clock);
      r := MouseButton(button, Click);
      assert log[..|log0|] == log1[..|log0|];
    }

    method MouseLeftDoubleClick(clock: Clock) returns (r: Result<Unit, Error>)
      requires Valid() && clock.Valid()
      modifies this, socket, clock
      ensures Valid()
      ensures |old(log)| < |log| <= |old(log)| + 2 && log[..|old(log)|] == old(log)
      ensures forall k :: |old(log)| <= k < |log| ==> log[k].request == DoInput(Token.Button(Left, Click))
      ensures |log| == |old(log)| + 1 ==>
        r == Txrx(log[|old(log)|].reply, DidInputOf) && r.Failure? && clock.ticks == old(clock.ticks)
      ensures |log| == |old(log)| + 2 ==>
        && InputDone(log[|old(log)|].reply)
        && r == Txrx(log[|old(log)| + 1].reply, DidInputOf)
        && Slept(clock.reading, old(clock.ticks), clock.ticks, PauseSeconds)
    {
      r := MouseDoubleClick(clock, Left);
    }

    method MouseMiddleDoubleClick(clock: Clock) returns (r: Result<Unit, Error>)
      requires Valid() && clock.Valid()
      modifies this, socket, clock
      ensures Valid()
      ensures |old(log)| < |log| <= |old(log)| + 2 && log[..|old(log)|] == old(log)
      ensures forall k :: |old(log)| <= k < |log| ==> log[k].request == DoInput(Token.Button(Middle, Click))
      ensures |log| == |old(log)| + 1 ==>
        r == Txrx(log[|old(log)|].reply, DidInputOf) && r.Failure? && clock.ticks == old(clock.ticks)
      ensures |log| == |old(log)| + 2 ==>
        && InputDone(log[|old(log)|].reply)
        && r == Txrx(log[|old(log)| + 1].reply, DidInputOf)
        && Slept(clock.reading, old(clock.ticks), clock.ticks, PauseSeconds)
    {
      r := MouseDoubleClick(clock, Middle);
    }

    method MouseRightDoubleClick(clock: Clock) returns (r: Result<Unit, Error>)
      requires Valid() && clock.Valid()
      modifies this, socket, clock
      ensures Valid()
      ensures |old(log)| < |log| <= |old(log)| + 2 && log[..|old(log)|] == old(log)
      ensures forall k :: |old(log)| <= k < |log| ==> log[k].request == DoInput(Token.Button(Right, Click))
      ensures |log| == |old(log)| + 1 ==>
        r == Txrx(log[|old(log)|].reply, DidInputOf) && r.Failure? && clock.ticks == old(clock.ticks)
      ensures |log| == |old(log)| + 2 ==>
        && InputDone(log[|old(log)|].reply)
        && r == Txrx(log[|old(log)| + 1].reply, DidInputOf)
        && Slept(clock.reading, old(clock.ticks), clock.ticks, PauseSeconds)
    {
      r := MouseDoubleClick(clock, Right);
    }

    /** One pass of the sampling loop: read the clock, then move to the point that far along the segment. */
    method Sample(clock: Clock, seg: (Vec2, Vec2), spline: real, coordinate: Coordinate, start: real)
      returns (r: Result<Unit, Error>, now: real)
      requires Valid() && spline > 0.0
      modifies this, socket, clock
      ensures Valid()
      ensures clock.ticks == old(clock.ticks) + 1 && now == clock.reading(old(clock.ticks))
      ensures Extended(old(log), log, DoInput(MoveTo(Lerp(seg.0, seg.1, (now - start) / spline), coordinate)))
      ensures r == Txrx(LastReply(), DidInputOf)
    {
      now := clock.Now();
      var percentageDone := (now - start) / spline;
      var position := Lerp(seg.0, seg.1, percentageDone);
      r := Input(MoveMouse(AsI32(position.x), AsI32(position.y), coordinate));
    }

    /** `Sample`, with what it adds to the segment's run and to the log. */
    method SampleStep(clock: Clock, seg: (Vec2, Vec2), spline: real, coordinate: Coordinate, start: real,
                      ghost t0: nat, ghost log0: seq<Round>, ghost rounds: seq<Round>, ghost run: SegmentRun)
      returns (r: Result<Unit, Error>, now: real, ghost rounds': seq<Round>, ghost run': SegmentRun)
      requires Valid() && clock.Valid()
      requires log == log0 + rounds
      requires Sampling(seg, spline, coordinate, clock.reading, t0, start, rounds, run, clock.ticks) && LastReading(run) < spline
      modifies this, socket, clock
      ensures Valid() && log == log0 + rounds' && |rounds'| == |rounds| + 1 && rounds' == rounds + [rounds'[|rounds|]]
      ensures clock.ticks == old(clock.ticks) + 1 && now == clock.reading(old(clock.ticks)) && LastReading(run') == now - start
      ensures Sampling(seg, spline, coordinate, clock.reading, t0, start, rounds', run', clock.ticks)
      ensures run' == SegmentRun(run.first, run.samples + [now - start])
      ensures r == Txrx(rounds'[|rounds|].reply, DidInputOf)
    {
      ghost var before := log;
      r, now := Sample(clock, seg, spline, coordinate, start);
      SamplingSnoc(seg, spline, coordinate, clock.reading, t0, start, log0, rounds, run, before, log, now);
      rounds' := rounds + [log[|before|]];
      run' := SegmentRun(run.first, run.samples + [now - start]);
    }

    /**
     * One segment of `mouse_path`: a move to `seg.0`, then, while less than `spline` seconds
     * have elapsed since the segment started, one move per clock reading to the point that
     * fraction of the segment along. Any failed move ends the segment at once. The run holds
     * exactly the elapsed times the clock showed, the segment's start being its first reading.
     */
    method PathSegment(clock: Clock, seg: (Vec2, Vec2), spline: real, coordinate: Coordinate)
      returns (r: Result<Unit, Error>, ghost run: SegmentRun)
      requires Valid() && clock.Valid()
      modifies this, socket, clock
      ensures Valid()
      ensures |old(log)| < |log| && log[..|old(log)|] == old(log)
      ensures SegmentDone(seg, spline, coordinate, log[|old(log)|..], clock.reading, old(clock.ticks), clock.ticks, run, r)
    {
      ghost var log0 := log;
      ghost var t0 := clock.ticks;
      var from := seg.0;
      var start := clock.Now();
      var moved := Input(MoveTo(from, coordinate));
      ghost var rounds := [log[|log0|]];
      AfterInput(log0, [], log0, log, [], MoveTo(from, coordinate));
      assert SegmentPlan(seg, spline, coordinate, []) == [] + [MoveTo(from, coordinate)];
      SuffixOf(log0, rounds, log);
      if moved.Failure? {
        run := SegmentRun(0.0, []);
        r := moved;
        return;
      }
      var now := clock.Now();
      r, rounds, run := SampleLoop(clock, seg, spline, coordinate, start, now, t0, log0, rounds, SegmentRun(now - start, []));
      SuffixOf(log0, rounds, log);
    }

    /**
     * The sampling loop of one segment of `mouse_path`, entered with the clock read at `now`:
     * it stops once `spline` seconds have elapsed since `start`, or at the first failed move.
     */
    method SampleLoop(clock: Clock, seg: (Vec2, Vec2), spline: real, coordinate: Coordinate, start: real, now: real,
                      ghost t0: nat, ghost log0: seq<Round>, ghost rounds: seq<Round>, ghost run: SegmentRun)
      returns (r: Result<Unit, Error>, ghost rounds': seq<Round>, ghost run': SegmentRun)
      requires Valid() && clock.Valid()
      requires log == log0 + rounds && rounds != []
      requires Sampling(seg, spline, coordinate, clock.reading, t0, start, rounds, run, clock.ticks)
      requires now == clock.reading(clock.ticks - 1) && run.samples == []
      requires DoneBefore(rounds, |rounds|)
      modifies this, socket, clock
      ensures Valid()
      ensures log == log0 + rounds'
      ensures SegmentDone(seg, spline, coordinate, rounds', clock.reading, t0, clock.ticks, run', r)
    {
      var now := now;
      rounds', run' := rounds, run;
      assert Reaches(clock.reading, start + spline);
      ghost var deadline: nat :| clock.reading(deadline) >= start + spline;
      while now - start < spline
        invariant Valid()
        invariant log == log0 + rounds'
        invariant Sampling(seg, spline, coordinate, clock.reading, t0, start, rounds', run', clock.ticks)
        invariant now == clock.reading(clock.ticks - 1) && now - start == LastReading(run')
        invariant DoneBefore(rounds', |rounds'|)
        decreases deadline - clock.ticks
      {
        EarlierReading(clock.reading, clock.ticks - 1, deadline);
        ghost var rounds0 := rounds';
        var sent;
        sent, now, rounds', run' := SampleStep(clock, seg, spline, coordinate, start, t0, log0, rounds', run');
        ghost var last := rounds'[|rounds0|];
        if sent.Failure? {
          SampleFailed(seg, spline, coordinate, clock.reading, t0, start, rounds0, last, run', clock.ticks, sent);
          return sent, rounds', run';
        }
        DoneConcat(rounds0, [last], 1);
      }
      SampleFinished(seg, spline, coordinate, clock.reading, t0, start, rounds', run', clock.ticks);
      r := Success(Unit);
    }

    /** One segment of `mouse_path`, with what it adds to the walk's runs and to the log. */
    method WalkSegment(clock: Clock, segs: seq<(Vec2, Vec2)>, i: nat, ghost splines: seq<real>, spline: real,
                       coordinate: Coordinate, ghost t0: nat, ghost log0: seq<Round>, ghost rounds: seq<Round>,
                       ghost runs: seq<SegmentRun>)
      returns (r: Result<Unit, Error>, ghost rounds': seq<Round>, ghost runs': seq<SegmentRun>)
      requires Valid() && clock.Valid()
      requires i == |runs| < |segs| == |splines| && spline == splines[i]
      requires log == log0 + rounds
      requires Walking(segs, splines, coordinate, clock.reading, t0, rounds, runs, clock.ticks, Success(Unit))
      modifies this, socket, clock
      ensures Valid()
      ensures |rounds| < |rounds'| && log == log0 + rounds'
      ensures |runs'| == |runs| + 1 && runs'[..|runs|] == runs
      ensures Walking(segs, splines, coordinate, clock.reading, t0, rounds', runs', clock.ticks, r)
    {
      ghost var before := log;
      ghost var t := clock.ticks;
      ghost var run;
      r, run := PathSegment(clock, segs[i], spline, coordinate);
      WalkingSnoc(segs, splines, coordinate, clock.reading, t0, log0, rounds, runs, before, log, t, clock.ticks, run, r);
      rounds' := rounds + log[|before|..];
      runs' := runs + [run];
    }

    /**
     * `mouse_path`: walks the path segment by segment, giving each segment the share of `time`
     * its length is of the whole path's length. The moves sent are exactly `PathPlan` of the
     * runs, and the runs are exactly what the clock showed, segment after segment from the
     * clock's current tick on; the first failed move ends the walk and is the result
     * (`WalkingExplicit` spells this out).
     */
    method MousePath(clock: Clock, dist: Metric, path: seq<Vec2>, coordinate: Coordinate, time: real)
      returns (r: Result<Unit, Error>, ghost runs: seq<SegmentRun>)
      requires Valid() && clock.Valid() && IsDistance(dist)
      requires |path| < 2 || (time >= 0.0 && TotalDistance(dist, Segments(path)) > 0.0)
      modifies this, socket, clock
      ensures Valid()
      ensures |old(log)| <= |log| && log[..|old(log)|] == old(log)
      ensures Walking(Segments(path), SplineTimes(dist, Segments(path), time), coordinate, clock.reading, old(clock.ticks),
                      log[|old(log)|..], runs, clock.ticks, r)
      ensures r.Success? ==> |runs| == |Segments(path)|
      ensures |path| < 2 ==> r.Success? && log == old(log) && clock.ticks == old(clock.ticks)
    {
      ghost var log0 := log;
      var segs := Segments(path);
      var totalDistance := TotalDistance(dist, segs);
      ghost var splines := SplineTimes(dist, segs, time);
      ghost var rounds;
      r, rounds, runs := Walk(clock, dist, segs, totalDistance, time, coordinate, splines, log0);
      SuffixOf(log0, rounds, log);
    }

    /** The segment loop of `mouse_path`, over segments whose times are already known. */
    method Walk(clock: Clock, dist: Metric, segs: seq<(Vec2, Vec2)>, totalDistance: real, time: real,
                coordinate: Coordinate, ghost splines: seq<real>, ghost log0: seq<Round>)
      returns (r: Result<Unit, Error>, ghost rounds: seq<Round>, ghost runs: seq<SegmentRun>)
      requires Valid() && clock.Valid() && log == log0
      requires segs != [] ==> totalDistance != 0.0
      requires |splines| == |segs| && forall i :: 0 <= i < |segs| ==> splines[i] == SplineTime(dist, segs[i], time, totalDistance)
      modifies this, socket, clock
      ensures Valid() && log == log0 + rounds
      ensures Walking(segs, splines, coordinate, clock.reading, old(clock.ticks), rounds, runs, clock.ticks, r)
      ensures r.Success? ==> |runs| == |segs|
      ensures segs == [] ==> r.Success? && rounds == []
    {
      ghost var t0 := clock.ticks;
      rounds, runs := [], [];
      for i := 0 to |segs|
        invariant Valid()
        invariant log == log0 + rounds
        invariant |runs| == i
        invariant Walking(segs, splines, coordinate, clock.reading, t0, rounds, runs, clock.ticks, Success(Unit))
      {
        var splineTime := SplineTime(dist, segs[i], time, totalDistance);
        var sent;
        sent, rounds, runs := WalkSegment(clock, segs, i, splines, splineTime, coordinate, t0, log0, rounds, runs);
        if sent.Failure? {
          return sent, rounds, runs;
        }
      }
      r := Success(Unit);
    }
  }
}
