/**
 * The image-search helpers of the Narrative Select+Edit walkthrough: searching screens for
 * any of a set of images until a deadline, clicking on what was found, and picking the screen
 * the mouse is on.
 *
 * The driver's answers come through the session's socket and the deadline through a `Clock`,
 * so every search below is a function of what the socket and the clock supply.
 */
module Narrative {
  import opened Wrappers
  import opened WireTypes
  import opened PathMath
  import opened Client

  /** The example's error: a client error, or no match before the deadline. */
  datatype Error = ClientError(source: Client.Error) | CouldNotFindImage

  /** Speed of the cursor in the click helper, in logical pixels per second. */
  const PixelsPerSecond: real := 1000.0

  /** Time to wait before giving up on an image search, in seconds. */
  const TimeoutSeconds: real := 15.0

  /** The pause in the click helper after moving and after clicking, in seconds. */
  const SettleSeconds: real := 0.1

  // ---------------------------------------------------------------------------------------
  // Turning a match into a point

  /**
   * The absolute logical point of a match found on `screen`: the match's centre, in the
   * screen's physical pixels, scaled to logical pixels and offset by the screen's origin.
   */
  function AbsolutePoint(screen: Screen, rect: BoundingRectangle): Vec2
  {
    screen.Bounds().0.Plus(rect.Center().DividedBy(screen.scaleFactor))
  }

  /** Back from an absolute logical point to the physical pixels of `screen`. */
  function ScreenPixels(screen: Screen, p: Vec2): Vec2
  {
    p.Minus(screen.Bounds().0).Times(screen.scaleFactor)
  }

  /** The conversion loses nothing: the point lands back on the match's centre. */
  lemma AbsolutePointRoundTrip(screen: Screen, rect: BoundingRectangle)
    ensures ScreenPixels(screen, AbsolutePoint(screen, rect)) == rect.Center()
  {
    var c, k := rect.Center(), screen.scaleFactor;
    assert c.x / k * k == c.x;
    assert c.y / k * k == c.y;
  }

  /** `Vec::pop`: the match the search takes is the last one the driver listed. */
  function Pop(locations: seq<BoundingRectangle>): BoundingRectangle
    requires locations != []
  {
    locations[|locations| - 1]
  }

  // ---------------------------------------------------------------------------------------
  // What a search sends and what it concludes

  /** The request for one (screen, image) pair. */
  function SearchRequest(screen: Screen, img: ImageBuffer): InputMessage
  {
    FindImage(screen.name, img, FindImageQuality.Standard, FindImageFilter.Standard)
  }

  /** The requests for one screen, one per image, in order. */
  function Row(screen: Screen, imgs: seq<ImageBuffer>): (r: seq<InputMessage>)
    ensures |r| == |imgs|
    decreases |imgs|
  {
    if imgs == [] then [] else Row(screen, imgs[..|imgs| - 1]) + [SearchRequest(screen, imgs[|imgs| - 1])]
  }

  /** The requests of one full pass: screen by screen, and within a screen image by image. */
  function PassRequests(screens: seq<Screen>, imgs: seq<ImageBuffer>): (r: seq<InputMessage>)
    decreases |screens|
  {
    if screens == [] then [] else PassRequests(screens[..|screens| - 1], imgs) + Row(screens[|screens| - 1], imgs)
  }

  /** `n` full passes, one after the other. */
  function Repeat(pass: seq<InputMessage>, n: nat): seq<InputMessage>
  {
    if n == 0 then [] else Repeat(pass, n - 1) + pass
  }

  /** What a search request's answer means: an error, or the (possibly empty) list of matches. */
  function Answer(round: Round): Result<seq<BoundingRectangle>, Client.Error>
  {
    Txrx(round.reply, FoundImageOf)
  }

  /** A request that found nothing and failed in no way. */
  predicate Miss(round: Round)
  {
    Answer(round) == Success([])
  }

  /** How a scan of (screen, image) pairs ends. */
  datatype Scan = Hit(point: Vec2, screen: Screen) | Fault(error: Client.Error) | Exhausted

  /**
   * `rounds` is a scan of the requests `expected` that ended with `scan`: the requests sent
   * are the first ones of `expected`, in order; each but the last found nothing; and the
   * last one found something (the point is then its popped match on the screen it searched),
   * failed, or was the last of `expected` and found nothing either.
   */
  ghost predicate Scanned(rounds: seq<Round>, expected: seq<InputMessage>, scan: Scan)
  {
    && Requests(rounds) <= expected
    && (forall k :: 0 <= k < |rounds| - 1 ==> Miss(rounds[k]))
    && match scan
       case Exhausted => Requests(rounds) == expected && (rounds != [] ==> Miss(rounds[|rounds| - 1]))
       case Fault(e) => rounds != [] && Answer(rounds[|rounds| - 1]) == Failure(e)
       case Hit(point, screen) =>
         && rounds != []
         && rounds[|rounds| - 1].request.FindImage?
         && rounds[|rounds| - 1].request.screenName == screen.name
         && Answer(rounds[|rounds| - 1]).Success?
         && Answer(rounds[|rounds| - 1]).value != []
         && point == AbsolutePoint(screen, Pop(Answer(rounds[|rounds| - 1]).value))
  }

  /** The error a search returns when its scan ended without a match. */
  function ScanError(scan: Scan): (e: Error)
    requires !scan.Hit?
    ensures e == CouldNotFindImage <==> scan.Exhausted?
    ensures e.ClientError? ==> scan == Fault(e.source)
  {
    match scan
    case Fault(e) => ClientError(e)
    case Exhausted => CouldNotFindImage
  }

  /** `From<winatep_client::Error>`: a client result as the example's result. */
  function Lift<T>(r: Result<T, Client.Error>): Result<T, Error>
  {
    match r
    case Success(v) => Success(v)
    case Failure(e) => Failure(ClientError(e))
  }

  lemma RowSnoc(screen: Screen, imgs: seq<ImageBuffer>, j: nat)
    requires j < |imgs|
    ensures Row(screen, imgs[..j + 1]) == Row(screen, imgs[..j]) + [SearchRequest(screen, imgs[j])]
  {
    assert imgs[..j + 1][..j] == imgs[..j];
  }

  lemma PassSnoc(screens: seq<Screen>, imgs: seq<ImageBuffer>, i: nat)
    requires i < |screens|
    ensures PassRequests(screens[..i + 1], imgs) == PassRequests(screens[..i], imgs) + Row(screens[i], imgs)
  {
    assert screens[..i + 1][..i] == screens[..i];
  }

  /** A scan that ran `expected` out, followed by another scan, is a scan of both. */
  lemma {:induction false} ScannedAppend(a: seq<Round>, ea: seq<InputMessage>, b: seq<Round>, eb: seq<InputMessage>, scan: Scan)
    requires Scanned(a, ea, Exhausted) && Scanned(b, eb, scan)
    ensures Scanned(a + b, ea + eb, scan)
  {
    RequestsAppend(a, b);
    assert forall k :: 0 <= k < |a| ==> (a + b)[k] == a[k];
    assert forall k :: 0 <= k < |b| ==> (a + b)[|a| + k] == b[k];
    if b == [] {
      assert a + b == a;
      assert Requests(b) == [];
    }
  }

  /** The empty scan of nothing. */
  lemma ScannedNothing(expected: seq<InputMessage>)
    requires expected == []
    ensures Scanned([], expected, Exhausted)
  {
  }

  /** One more request that found nothing extends a scan that has not run out. */
  lemma ScannedMiss(rounds: seq<Round>, expected: seq<InputMessage>, round: Round)
    requires Scanned(rounds, expected, Exhausted) && Miss(round)
    ensures Scanned(rounds + [round], expected + [round.request], Exhausted)
  {
    LogSnoc(rounds, round);
    assert forall k :: 0 <= k < |rounds| ==> (rounds + [round])[k] == rounds[k];
  }

  /** One more request that failed or found something ends a scan. */
  lemma ScannedStop(rounds: seq<Round>, expected: seq<InputMessage>, rest: seq<InputMessage>, round: Round, scan: Scan)
    requires Scanned(rounds, expected, Exhausted) && rest != [] && round.request == rest[0]
    requires scan.Fault? ==> Answer(round) == Failure(scan.error)
    requires scan.Hit? ==>
      && round.request.FindImage? && round.request.screenName == scan.screen.name
      && Answer(round).Success? && Answer(round).value != []
      && scan.point == AbsolutePoint(scan.screen, Pop(Answer(round).value))
    requires !scan.Exhausted?
    ensures Scanned(rounds + [round], expected + rest, scan)
  {
    LogSnoc(rounds, round);
    assert forall k :: 0 <= k < |rounds| ==> (rounds + [round])[k] == rounds[k];
    assert expected + rest == (expected + [rest[0]]) + rest[1..];
  }


  /** A scan that stopped early is also a scan of any longer list of requests. */
  lemma ScannedWithin(rounds: seq<Round>, expected: seq<InputMessage>, longer: seq<InputMessage>, scan: Scan)
    requires Scanned(rounds, expected, scan) && !scan.Exhausted? && expected <= longer
    ensures Scanned(rounds, longer, scan)
  {
  }

  /**
   * How a scan ended is decided by the answer to its last request alone: a match, an error,
   * or nothing found.
   */
  lemma ScanOutcome(rounds: seq<Round>, expected: seq<InputMessage>, scan: Scan)
    requires Scanned(rounds, expected, scan) && rounds != []
    ensures scan.Hit? <==> Answer(rounds[|rounds| - 1]).Success? && Answer(rounds[|rounds| - 1]).value != []
    ensures scan.Fault? <==> Answer(rounds[|rounds| - 1]).Failure?
    ensures scan.Exhausted? <==> Miss(rounds[|rounds| - 1])
    ensures scan.Fault? ==> scan.error == Answer(rounds[|rounds| - 1]).error
  {
  }

  /** A scan that ran out sent every expected request, and every one of them found nothing. */
  lemma ExhaustedMissedAll(rounds: seq<Round>, expected: seq<InputMessage>)
    requires Scanned(rounds, expected, Exhausted)
    ensures Requests(rounds) == expected && |rounds| == |expected|
    ensures forall k :: 0 <= k < |rounds| ==> Miss(rounds[k]) && rounds[k].request == expected[k]
  {
    forall k | 0 <= k < |rounds|
      ensures rounds[k].request == expected[k]
    {
      RequestsAt(rounds, k);
    }
  }

  /** The requests for the first `j` images are the first `j` requests of the row. */
  lemma {:induction false} RowTake(screen: Screen, imgs: seq<ImageBuffer>, j: nat)
    requires j <= |imgs|
    ensures Row(screen, imgs[..j]) == Row(screen, imgs)[..j]
    decreases |imgs| - j
  {
    if j < |imgs| {
      RowTake(screen, imgs, j + 1);
      RowSnoc(screen, imgs, j);
    } else {
      assert imgs[..j] == imgs;
    }
  }

  /** The requests for the first `i` screens begin every pass over all of them. */
  lemma {:induction false} PassTake(screens: seq<Screen>, imgs: seq<ImageBuffer>, i: nat)
    requires i <= |screens|
    ensures PassRequests(screens[..i], imgs) <= PassRequests(screens, imgs)
    decreases |screens| - i
  {
    if i < |screens| {
      PassTake(screens, imgs, i + 1);
      PassSnoc(screens, imgs, i);
    } else {
      assert screens[..i] == screens;
    }
  }

  /** With no screens or no images nothing is ever sent, and every search runs out. */
  lemma EmptySearch(screens: seq<Screen>, imgs: seq<ImageBuffer>, n: nat, rounds: seq<Round>, scan: Scan)
    requires screens == [] || imgs == []
    requires Scanned(rounds, Repeat(PassRequests(screens, imgs), n), scan)
    ensures rounds == [] && scan.Exhausted?
  {
    EmptyPass(screens, imgs);
    EmptyRepeat(n);
  }

  lemma {:induction false} EmptyPass(screens: seq<Screen>, imgs: seq<ImageBuffer>)
    requires screens == [] || imgs == []
    ensures PassRequests(screens, imgs) == []
    decreases |screens|
  {
    if screens != [] {
      EmptyPass(screens[..|screens| - 1], imgs);
    }
  }

  lemma {:induction false} EmptyRepeat(n: nat)
    ensures Repeat([], n) == []
  {
    if n > 0 {
      EmptyRepeat(n - 1);
    }
  }

  /** A pass over one screen is that screen's row. */
  lemma OneScreenPass(screen: Screen, imgs: seq<ImageBuffer>)
    ensures PassRequests([screen], imgs) == Row(screen, imgs)
  {
    assert [screen][..0] == [];
  }

  /** How the answer to the request for one image decides the scan of a screen. */
  function StepScan(screen: Screen, answer: Result<seq<BoundingRectangle>, Client.Error>): Scan
  {
    match answer
    case Failure(e) => Fault(e)
    case Success(locations) => if locations == [] then Exhausted else Hit(AbsolutePoint(screen, Pop(locations)), screen)
  }

  /** One more image of a row: a miss continues the scan, anything else ends it for the whole row. */
  lemma ImageStep(screen: Screen, imgs: seq<ImageBuffer>, j: nat, rounds: seq<Round>, round: Round)
    requires j < |imgs| && Scanned(rounds, Row(screen, imgs[..j]), Exhausted)
    requires round.request == SearchRequest(screen, imgs[j])
    ensures StepScan(screen, Answer(round)).Exhausted? ==> Scanned(rounds + [round], Row(screen, imgs[..j + 1]), Exhausted)
    ensures !StepScan(screen, Answer(round)).Exhausted? ==> Scanned(rounds + [round], Row(screen, imgs), StepScan(screen, Answer(round)))
  {
    var scan := StepScan(screen, Answer(round));
    RowSnoc(screen, imgs, j);
    if scan.Exhausted? {
      ScannedMiss(rounds, Row(screen, imgs[..j]), round);
    } else {
      ScannedStop(rounds, Row(screen, imgs[..j]), [SearchRequest(screen, imgs[j])], round, scan);
      RowTake(screen, imgs, j + 1);
      ScannedWithin(rounds + [round], Row(screen, imgs[..j + 1]), Row(screen, imgs), scan);
    }
  }

  /** One more screen of a pass: a scan of its row that ran out continues the pass, anything else ends it. */
  lemma ScreenStep(screens: seq<Screen>, imgs: seq<ImageBuffer>, i: nat, rounds: seq<Round>, rs: seq<Round>, scan: Scan)
    requires i < |screens| && Scanned(rounds, PassRequests(screens[..i], imgs), Exhausted)
    requires Scanned(rs, Row(screens[i], imgs), scan)
    ensures scan.Exhausted? ==> Scanned(rounds + rs, PassRequests(screens[..i + 1], imgs), Exhausted)
    ensures !scan.Exhausted? ==> Scanned(rounds + rs, PassRequests(screens, imgs), scan)
  {
    ScannedAppend(rounds, PassRequests(screens[..i], imgs), rs, Row(screens[i], imgs), scan);
    PassSnoc(screens, imgs, i);
    if !scan.Exhausted? {
      PassTake(screens, imgs, i + 1);
      ScannedWithin(rounds + rs, PassRequests(screens[..i + 1], imgs), PassRequests(screens, imgs), scan);
    }
  }

  /** One more pass: a pass that ran out leaves the search going, anything else ends the search. */
  lemma PassStep(pass: seq<InputMessage>, n: nat, rounds: seq<Round>, rs: seq<Round>, scan: Scan)
    requires Scanned(rounds, Repeat(pass, n), Exhausted) && Scanned(rs, pass, scan)
    ensures Scanned(rounds + rs, Repeat(pass, n + 1), scan)
    ensures !scan.Exhausted? ==> |Repeat(pass, n)| < |rounds + rs|
  {
    ScannedAppend(rounds, Repeat(pass, n), rs, pass, scan);
  }

  /** After one more request, the log is the log before with that request's round added. */
  lemma Grew(log0: seq<Round>, rounds: seq<Round>, before: seq<Round>, after: seq<Round>, msg: InputMessage)
    requires before == log0 + rounds && Extended(before, after, msg)
    ensures after == log0 + (rounds + [after[|before|]])
  {
    LogSplit(before, after);
    assert after[|before|..] == [after[|before|]];
    AppendAssociates(log0, rounds, [after[|before|]]);
  }

  // ---------------------------------------------------------------------------------------
  // The search loops

  /** The loop over the images on one screen; the first error or match ends it. */
  method ScanScreen(session: Session, screen: Screen, imgs: seq<ImageBuffer>) returns (scan: Scan, ghost rounds: seq<Round>)
    requires session.Valid()
    modifies session, session.socket
    ensures session.Valid() && session.log == old(session.log) + rounds
    ensures Scanned(rounds, Row(screen, imgs), scan)
    ensures scan.Hit? ==> scan.screen == screen
  {
    ghost var log0 := session.log;
    rounds := [];
    for j := 0 to |imgs|
      invariant session.Valid() && session.log == log0 + rounds
      invariant Scanned(rounds, Row(screen, imgs[..j]), Exhausted)
    {
      ghost var before := session.log;
      var locations := session.FindImageInScreen(screen.name, imgs[j], FindImageQuality.Standard, FindImageFilter.Standard);
      ghost var round := session.log[|before|];
      Grew(log0, rounds, before, session.log, SearchRequest(screen, imgs[j]));
      if locations.Failure? {
        scan := Fault(locations.error);
      } else if locations.value != [] {
        var rect := locations.value[|locations.value| - 1];
        var relativeToScreenPixels := rect.Center();
        var relativeToScreenLogical := relativeToScreenPixels.DividedBy(screen.scaleFactor);
        var abs := screen.Bounds().0.Plus(relativeToScreenLogical);
        scan := Hit(abs, screen);
      } else {
        scan := Exhausted;
      }
      assert scan == StepScan(screen, Answer(round));
      ImageStep(screen, imgs, j, rounds, round);
      rounds := rounds + [round];
      if !scan.Exhausted? {
        return;
      }
    }
    assert imgs[..|imgs|] == imgs;
    scan := Exhausted;
  }

  /**
   * The search was on `screen`, screen `i` of `screens`, when it sent its `n`-th request: of
   * the pass that began after request `before`, that request lies in the row of screen `i`.
   */
  ghost predicate HitIn(screens: seq<Screen>, imgs: seq<ImageBuffer>, before: nat, n: nat, i: nat, screen: Screen)
  {
    && i < |screens| && screens[i] == screen
    && before + |PassRequests(screens[..i], imgs)| < n <= before + |PassRequests(screens[..i + 1], imgs)|
  }

  /** A row scan that found a match, after the rows of the screens before, found it on its own screen. */
  lemma HitInPass(screens: seq<Screen>, imgs: seq<ImageBuffer>, i: nat, rounds: seq<Round>, rs: seq<Round>, scan: Scan)
    requires i < |screens| && Scanned(rounds, PassRequests(screens[..i], imgs), Exhausted)
    requires Scanned(rs, Row(screens[i], imgs), scan) && scan.Hit?
    ensures HitIn(screens, imgs, 0, |rounds + rs|, i, screens[i])
  {
    PassSnoc(screens, imgs, i);
    assert |Requests(rs)| <= |Row(screens[i], imgs)|;
  }

  /** `HitIn` counts from where the pass began. */
  lemma HitInShift(screens: seq<Screen>, imgs: seq<ImageBuffer>, before: nat, n: nat, i: nat, screen: Screen, m: nat)
    requires HitIn(screens, imgs, before, n, i, screen)
    ensures HitIn(screens, imgs, before + m, n + m, i, screen)
  {
  }

  /** Request `j` of a row asks about image `j` on the row's screen. */
  lemma RowAt(screen: Screen, imgs: seq<ImageBuffer>, j: nat)
    requires j < |imgs|
    ensures Row(screen, imgs)[j] == SearchRequest(screen, imgs[j])
  {
    RowTake(screen, imgs, j + 1);
    RowSnoc(screen, imgs, j);
  }

  /** Request `m` of a pass, when it lies in the row of screen `i`, asks about an image on screen `i`. */
  lemma PassRequestAt(screens: seq<Screen>, imgs: seq<ImageBuffer>, i: nat, m: nat)
    requires i < |screens| && |PassRequests(screens[..i], imgs)| <= m < |PassRequests(screens[..i + 1], imgs)|
    ensures m < |PassRequests(screens, imgs)| && m - |PassRequests(screens[..i], imgs)| < |imgs|
    ensures PassRequests(screens, imgs)[m] == SearchRequest(screens[i], imgs[m - |PassRequests(screens[..i], imgs)|])
  {
    PassTake(screens, imgs, i + 1);
    PassSnoc(screens, imgs, i);
    RowAt(screens[i], imgs, m - |PassRequests(screens[..i], imgs)|);
  }

  /** The last request of a scan that stopped in its last pass is that pass's request at the same place. */
  lemma LastPassRequest(rounds: seq<Round>, pass: seq<InputMessage>, passes: nat)
    requires Requests(rounds) <= Repeat(pass, passes) && passes >= 1 && |Repeat(pass, passes - 1)| < |rounds|
    ensures |rounds| - 1 - |Repeat(pass, passes - 1)| < |pass|
    ensures rounds[|rounds| - 1].request == pass[|rounds| - 1 - |Repeat(pass, passes - 1)|]
  {
    RequestsAt(rounds, |rounds| - 1);
    assert Repeat(pass, passes) == Repeat(pass, passes - 1) + pass;
  }

  /**
   * The request that found a match asked for one of the images on the very screen the search
   * reports: the screen is not only one of the same name.
   */
  lemma HitRequest(screens: seq<Screen>, imgs: seq<ImageBuffer>, passes: nat, rounds: seq<Round>, i: nat, screen: Screen)
    requires passes >= 1 && Requests(rounds) <= Repeat(PassRequests(screens, imgs), passes)
    requires HitIn(screens, imgs, |Repeat(PassRequests(screens, imgs), passes - 1)|, |rounds|, i, screen)
    ensures rounds != []
    ensures exists j :: 0 <= j < |imgs| && rounds[|rounds| - 1].request == SearchRequest(screen, imgs[j])
  {
    var pass := PassRequests(screens, imgs);
    var m := |rounds| - 1 - |Repeat(pass, passes - 1)|;
    LastPassRequest(rounds, pass, passes);
    PassRequestAt(screens, imgs, i, m);
    var j := m - |PassRequests(screens[..i], imgs)|;
    assert rounds[|rounds| - 1].request == SearchRequest(screen, imgs[j]);
  }

  /** One pass of the search: the loop over the screens, each screen's images in turn. */
  method ScanPass(session: Session, screens: seq<Screen>, imgs: seq<ImageBuffer>) returns (scan: Scan, ghost rounds: seq<Round>, ghost index: nat)
    requires session.Valid()
    modifies session, session.socket
    ensures session.Valid() && session.log == old(session.log) + rounds
    ensures Scanned(rounds, PassRequests(screens, imgs), scan)
    ensures scan.Hit? ==> HitIn(screens, imgs, 0, |rounds|, index, scan.screen)
  {
    ghost var log0 := session.log;
    rounds, index := [], 0;
    for i := 0 to |screens|
      invariant session.Valid() && session.log == log0 + rounds
      invariant Scanned(rounds, PassRequests(screens[..i], imgs), Exhausted)
    {
      var s;
      ghost var rs;
      s, rs := ScanScreen(session, screens[i], imgs);
      ScreenStep(screens, imgs, i, rounds, rs, s);
      if s.Hit? {
        HitInPass(screens, imgs, i, rounds, rs, s);
      }
      AppendAssociates(log0, rounds, rs);
      rounds := rounds + rs;
      if !s.Exhausted? {
        return s, rounds, i;
      }
    }
    assert screens[..|screens|] == screens;
    scan := Exhausted;
  }

  /** Every time check of the first `n` passes, clock readings `t0 + 1` to `t0 + n`, saw less than the timeout. */
  ghost predicate InTime(reading: nat -> real, t0: nat, n: nat)
  {
    forall k :: t0 < k <= t0 + n ==> reading(k) - reading(t0) < TimeoutSeconds
  }

  lemma InTimeSnoc(reading: nat -> real, t0: nat, n: nat)
    requires InTime(reading, t0, n) && reading(t0 + n + 1) - reading(t0) < TimeoutSeconds
    ensures InTime(reading, t0, n + 1)
  {
  }

  /**
   * The clock readings of a timed search of `passes` passes that ended with `scan`, from tick
   * `t0` to just before tick `end`: the start, then one check before each pass, each of which
   * saw less than the timeout, and for a search that ran out one last check that saw it reached.
   */
  ghost predicate TimedSearch(reading: nat -> real, t0: nat, passes: nat, scan: Scan, end: nat)
  {
    && end == t0 + 1 + passes + (if scan.Exhausted? then 1 else 0)
    && InTime(reading, t0, passes)
    && (scan.Exhausted? ==> reading(end - 1) - reading(t0) >= TimeoutSeconds)
  }

  /** A search that ran out waited on the clock as a sleep of `TimeoutSeconds` would have. */
  lemma TimedOutAsSlept(reading: nat -> real, t0: nat, passes: nat, end: nat)
    requires TimedSearch(reading, t0, passes, Exhausted, end)
    ensures Slept(reading, t0, end, TimeoutSeconds)
  {
  }

  /** `rounds` are the first `passes` passes of a search, the last one ending with `scan`. */
  ghost predicate Searched(rounds: seq<Round>, pass: seq<InputMessage>, passes: nat, scan: Scan)
  {
    Scanned(rounds, Repeat(pass, passes), scan)
  }

  /**
   * The timed search started at clock tick `t0`, which read `start`, and has run `passes`
   * passes, the last ending with `scan`: the rounds so far, the screen of a match, and the
   * clock, whose last check, just before tick `ticks`, read `elapsed` if the last pass ran out.
   */
  ghost predicate Searching(screens: seq<Screen>, imgs: seq<ImageBuffer>, reading: nat -> real, t0: nat, start: real,
                            rounds: seq<Round>, passes: nat, scan: Scan, index: nat, ticks: nat, elapsed: real)
  {
    var pass := PassRequests(screens, imgs);
    && Searched(rounds, pass, passes, scan)
    && (!scan.Exhausted? ==> passes >= 1 && |Repeat(pass, passes - 1)| < |rounds|)
    && (scan.Hit? ==> passes >= 1 && HitIn(screens, imgs, |Repeat(pass, passes - 1)|, |rounds|, index, scan.screen))
    && ticks == t0 + 1 + passes + (if scan.Exhausted? then 1 else 0)
    && start == reading(t0)
    && (scan.Exhausted? ==> elapsed == reading(ticks - 1) - start)
    && InTime(reading, t0, passes)
  }

  /** One pass of the timed search, begun after a check that saw less than the timeout, and the check after it. */
  method SearchStep(session: Session, clock: Clock, screens: seq<Screen>, imgs: seq<ImageBuffer>, start: real, elapsed: real,
                    ghost log0: seq<Round>, ghost t0: nat, ghost passes: nat, ghost rounds: seq<Round>)
    returns (scan: Scan, elapsed': real, ghost rounds': seq<Round>, ghost index: nat)
    requires session.Valid() && session.log == log0 + rounds
    requires Searching(screens, imgs, clock.reading, t0, start, rounds, passes, Exhausted, 0, clock.ticks, elapsed)
    requires elapsed < TimeoutSeconds
    modifies session, session.socket, clock
    ensures session.Valid() && session.log == log0 + rounds'
    ensures Searching(screens, imgs, clock.reading, t0, start, rounds', passes + 1, scan, index, clock.ticks, elapsed')
    ensures clock.ticks == old(clock.ticks) + (if scan.Exhausted? then 1 else 0)
  {
    ghost var pass := PassRequests(screens, imgs);
    InTimeSnoc(clock.reading, t0, passes);
    ghost var rs;
    scan, rs, index := ScanPass(session, screens, imgs);
    PassStep(pass, passes, rounds, rs, scan);
    if scan.Hit? {
      HitInShift(screens, imgs, 0, |rs|, index, scan.screen, |rounds|);
    }
    AppendAssociates(log0, rounds, rs);
    rounds' := rounds + rs;
    elapsed' := 0.0;
    if scan.Exhausted? {
      var now := clock.Now();
      elapsed' := now - start;
    }
  }

  /**
   * The timed search: reads the clock once to start, then before each pass checks how much
   * time has passed, and gives up once that is `TimeoutSeconds` or more. The `k`-th check is
   * clock reading `old(clock.ticks) + k`; each pass followed a check that saw less than the
   * timeout, and a search that ran out stopped at a check that saw the timeout reached.
   */
  method SearchScreens(session: Session, clock: Clock, screens: seq<Screen>, imgs: seq<ImageBuffer>)
    returns (scan: Scan, ghost passes: nat, ghost rounds: seq<Round>, ghost index: nat)
    requires session.Valid() && clock.Valid()
    modifies session, session.socket, clock
    ensures session.Valid() && session.log == old(session.log) + rounds
    ensures Scanned(rounds, Repeat(PassRequests(screens, imgs), passes), scan)
    ensures !scan.Exhausted? ==> passes >= 1 && |Repeat(PassRequests(screens, imgs), passes - 1)| < |rounds|
    ensures scan.Hit? ==> passes >= 1 && HitIn(screens, imgs, |Repeat(PassRequests(screens, imgs), passes - 1)|, |rounds|, index, scan.screen)
    ensures TimedSearch(clock.reading, old(clock.ticks), passes, scan, clock.ticks)
  {
    ghost var log0 := session.log;
    ghost var t0 := clock.ticks;
    var start := clock.Now();
    assert Reaches(clock.reading, start + TimeoutSeconds);
    ghost var deadline: nat :| clock.reading(deadline) >= start + TimeoutSeconds;
    var now := clock.Now();
    var elapsed := now - start;
    passes, rounds, index := 0, [], 0;
    scan := Exhausted;
    while scan.Exhausted? && elapsed < TimeoutSeconds
      invariant session.Valid() && session.log == log0 + rounds
      invariant Searching(screens, imgs, clock.reading, t0, start, rounds, passes, scan, index, clock.ticks, elapsed)
      decreases deadline - clock.ticks, if scan.Exhausted? then 1 else 0
    {
      EarlierReading(clock.reading, clock.ticks - 1, deadline);
      scan, elapsed, rounds, index := SearchStep(session, clock, screens, imgs, start, elapsed, log0, t0, passes, rounds);
      passes := passes + 1;
    }
  }

  /**
   * `find_image_in_screen_with_timeout`: the timed search over the one screen given. Its
   * result is the first match's centre in absolute logical coordinates, the first error
   * met, or `CouldNotFindImage` once the time is up.
   */
  method FindImageInScreenWithTimeout(session: Session, clock: Clock, screen: Screen, imgs: seq<ImageBuffer>)
    returns (r: Result<Vec2, Error>, ghost passes: nat, ghost rounds: seq<Round>, ghost scan: Scan)
    requires session.Valid() && clock.Valid()
    modifies session, session.socket, clock
    ensures session.Valid() && session.log == old(session.log) + rounds
    ensures Scanned(rounds, Repeat(Row(screen, imgs), passes), scan)
    ensures scan.Hit? ==> scan.screen == screen
    ensures r.Success? <==> scan.Hit?
    ensures r.Success? ==> r.value == scan.point
    ensures r.Failure? ==> r.error == ScanError(scan)
    ensures TimedSearch(clock.reading, old(clock.ticks), passes, scan, clock.ticks)
  {
    var s;
    ghost var index;
    s, passes, rounds, index := SearchScreens(session, clock, [screen], imgs);
    OneScreenPass(screen, imgs);
    scan := s;
    if s.Hit? {
      r := Success(s.point);
    } else {
      r := Failure(ScanError(s));
    }
  }

  /**
   * `find_image_with_timeout`: asks for the screens once, then runs the timed search over all
   * of them. Its result is the first match with the screen it was found on.
   */
  method FindImageWithTimeout(session: Session, clock: Clock, imgs: seq<ImageBuffer>)
    returns (r: Result<(Vec2, Screen), Error>, ghost screens: seq<Screen>, ghost passes: nat, ghost rounds: seq<Round>,
             ghost scan: Scan, ghost index: nat)
    requires session.Valid() && clock.Valid()
    modifies session, session.socket, clock
    ensures session.Valid() && |session.log| > |old(session.log)| && session.log[..|old(session.log)|] == old(session.log)
    ensures session.log[|old(session.log)|].request == InputMessage.GetScreens
    ensures Txrx(session.log[|old(session.log)|].reply, ScreensOf).Failure? ==>
      && |session.log| == |old(session.log)| + 1 && clock.ticks == old(clock.ticks)
      && r == Failure(ClientError(Txrx(session.log[|old(session.log)|].reply, ScreensOf).error))
    ensures Txrx(session.log[|old(session.log)|].reply, ScreensOf).Success? ==>
      && Txrx(session.log[|old(session.log)|].reply, ScreensOf).value == screens
      && session.log[|old(session.log)| + 1..] == rounds
      && Scanned(rounds, Repeat(PassRequests(screens, imgs), passes), scan)
      && TimedSearch(clock.reading, old(clock.ticks), passes, scan, clock.ticks)
      && (r.Success? <==> scan.Hit?)
      && (r.Success? ==>
            && r.value == (scan.point, scan.screen) && passes >= 1
            && HitIn(screens, imgs, |Repeat(PassRequests(screens, imgs), passes - 1)|, |rounds|, index, scan.screen))
      && (r.Failure? ==> r.error == ScanError(scan))
  {
    var found := session.GetScreens();
    ghost var log1 := session.log;
    if found.Failure? {
      r := Failure(ClientError(found.error));
      screens, passes, rounds, scan, index := [], 0, [], Exhausted, 0;
      return;
    }
    assert |log1| == |old(session.log)| + 1;
    var all := found.value;
    var s;
    s, passes, rounds, index := SearchScreens(session, clock, all, imgs);
    SuffixOf(log1, rounds, session.log);
    screens, scan := all, s;
    if s.Hit? {
      r := Success((s.point, s.screen));
    } else {
      r := Failure(ScanError(s));
    }
  }

  // ---------------------------------------------------------------------------------------
  // Clicking on a match

  /** The path the click helper moves the mouse along, as written: from the mouse to the match. */
  function ClickPathAsWritten(current: Vec2, point: Vec2): seq<Vec2>
  {
    [current, point]
  }

  /**
   * When the mouse already rests on the match, the path as written has two waypoints and no
   * length, so `mouse_path` divides a zero segment length by a zero total length.
   */
  lemma ClickPathAsWrittenStalls(dist: Metric, p: Vec2)
    requires IsDistance(dist)
    ensures !(|ClickPathAsWritten(p, p)| < 2 || TotalDistance(dist, Segments(ClickPathAsWritten(p, p))) > 0.0)
  {
    PathLengthZeroIffStationary(dist, ClickPathAsWritten(p, p));
  }

  /**
   * Away from the match, the path as written has length, so `mouse_path` accepts it with the
   * time the helper gives it.
   */
  lemma ClickPathAccepted(dist: Metric, current: Vec2, point: Vec2)
    requires IsDistance(dist) && dist(current, point) != 0.0
    ensures dist(current, point) / PixelsPerSecond >= 0.0
    ensures TotalDistance(dist, Segments(ClickPathAsWritten(current, point))) > 0.0
  {
    var path := ClickPathAsWritten(current, point);
    PathLengthZeroIffStationary(dist, path);
    TotalDistanceNonnegative(dist, Segments(path));
    assert path[1] != path[0];
  }

  /**
   * The moves from `log[at]` on, and the clock ticks from `t` to just before `end`, of the
   * click helper going from `current` to `point` with result `moving`: one move straight to
   * the point when the mouse is already there, and otherwise `mouse_path` along the written
   * path in `distance / PixelsPerSecond` seconds, with one segment run when it succeeded.
   */
  ghost predicate Walked(dist: Metric, current: Vec2, point: Vec2, log: seq<Round>, at: nat, runs: seq<SegmentRun>,
                         moving: Result<Unit, Client.Error>, reading: nat -> real, t: nat, end: nat)
  {
    && at <= |log|
    && if dist(current, point) == 0.0 then
         && |log| == at + 1 && log[at].request == DoInput(MoveTo(point, Abs))
         && moving == Txrx(log[at].reply, DidInputOf) && runs == [] && end == t
       else
         var segs := Segments(ClickPathAsWritten(current, point));
         && Walking(segs, SplineTimes(dist, segs, dist(current, point) / PixelsPerSecond), Abs, reading, t, log[at..], runs, end, moving)
         && (moving.Success? ==> |runs| == 1)
  }

  /** With the mouse on the match, the helper moves it once, to the match, and reads no clock doing so. */
  lemma OnMatchMovesOnce(dist: Metric, p: Vec2, log: seq<Round>, at: nat, runs: seq<SegmentRun>,
                         moving: Result<Unit, Client.Error>, reading: nat -> real, t: nat, end: nat)
    requires IsDistance(dist) && Walked(dist, p, p, log, at, runs, moving, reading, t, end)
    ensures Requests(log[at..]) == [DoInput(MoveTo(p, Abs))] && end == t
    ensures moving.Success? <==> InputDone(log[at].reply)
  {
    assert log[at..] == [log[at]];
    assert Requests([log[at]]) == Requests([log[at]][..0]) + [log[at].request];
  }

  /**
   * What the click helper did after its first mouse read: `moved` move requests, the move's
   * result `moving` and its segment runs `runs`, and the clock ticks at which the walk, the
   * settle after it, the settle after the click and the whole helper began (`end`: ended).
   */
  datatype ClickTrace = ClickTrace(moved: nat, moving: Result<Unit, Client.Error>, runs: seq<SegmentRun>,
                                   walk: nat, settle: nat, click: nat, end: nat)

  /**
   * The click at `log[at]` and what follows it: a settle of `SettleSeconds` from tick `settle`
   * to `click` came before it, and if it was done, a second settle to `end` and one more mouse
   * read give the result.
   */
  ghost predicate Clicked(log: seq<Round>, at: nat, r: Result<Vec2, Error>, reading: nat -> real, settle: nat, click: nat, end: nat)
  {
    && Slept(reading, settle, click, SettleSeconds)
    && at < |log| && log[at].request == DoInput(Token.Button(Left, Click))
    && if InputDone(log[at].reply) then
         && |log| == at + 2 && log[at + 1].request == InputMessage.GetMouseLocation
         && r == Lift(Txrx(log[at + 1].reply, MouseLocationOf))
         && Slept(reading, click, end, SettleSeconds)
       else
         |log| == at + 1 && r == Failure(ClientError(Txrx(log[at].reply, DidInputOf).error)) && end == click
  }

  /**
   * The moves from `log[at]` on take the mouse from `current` to `point`; a failed move ends
   * the log with its error, and otherwise the settles and the click follow.
   */
  ghost predicate MovedAndClicked(dist: Metric, current: Vec2, point: Vec2, log: seq<Round>, at: nat,
                                  r: Result<Vec2, Error>, reading: nat -> real, trace: ClickTrace)
  {
    && at + trace.moved <= |log|
    && Walked(dist, current, point, log[..at + trace.moved], at, trace.runs, trace.moving, reading, trace.walk, trace.settle)
    && if trace.moving.Failure? then
         && |log| == at + trace.moved && r == Failure(ClientError(trace.moving.error))
         && trace.click == trace.settle && trace.end == trace.settle
       else
         Clicked(log, at + trace.moved, r, reading, trace.settle, trace.click, trace.end)
  }

  /** The rounds of a click on `point` from `log[at]` on: a mouse read, then the moves and the click. */
  ghost predicate ClickRounds(dist: Metric, point: Vec2, log: seq<Round>, at: nat, r: Result<Vec2, Error>,
                              reading: nat -> real, trace: ClickTrace)
  {
    && at < |log| && log[at].request == InputMessage.GetMouseLocation
    && match Txrx(log[at].reply, MouseLocationOf)
       case Failure(e) => |log| == at + 1 && r == Failure(ClientError(e)) && trace.end == trace.walk
       case Success(current) => MovedAndClicked(dist, current, point, log, at + 1, r, reading, trace)
  }

  /** The end of the click helper: settle, left-click, settle, and read the mouse if the click was done. */
  method ClickAndRead(session: Session, clock: Clock) returns (r: Result<Vec2, Error>, ghost click: nat)
    requires session.Valid() && clock.Valid()
    modifies session, session.socket, clock
    ensures session.Valid() && |old(session.log)| <= |session.log| && session.log[..|old(session.log)|] == old(session.log)
    ensures Clicked(session.log, |old(session.log)|, r, clock.reading, old(clock.ticks), click, clock.ticks)
  {
    ghost var l0 := session.log;
    session.Sleep(clock, SettleSeconds);
    click := clock.ticks;
    var clicking := session.MouseLeftClick();
    if clicking.Failure? {
      r := Failure(ClientError(clicking.error));
      return;
    }
    ghost var l1 := session.log;
    session.Sleep(clock, SettleSeconds);
    var location := session.GetMouseLocation();
    assert session.log[..|l0|] == l1[..|l0|];
    r := Lift(location);
  }

  /**
   * The move of the click helper: one move to `point` when the mouse is already there, and
   * otherwise along the written path to `point` at `PixelsPerSecond`.
   */
  method MoveToward(session: Session, clock: Clock, dist: Metric, current: Vec2, point: Vec2)
    returns (moving: Result<Unit, Client.Error>, ghost runs: seq<SegmentRun>)
    requires session.Valid() && clock.Valid() && IsDistance(dist)
    modifies session, session.socket, clock
    ensures session.Valid() && |old(session.log)| <= |session.log| && session.log[..|old(session.log)|] == old(session.log)
    ensures Walked(dist, current, point, session.log, |old(session.log)|, runs, moving, clock.reading, old(clock.ticks), clock.ticks)
  {
    var distance := dist(current, point);
    if distance == 0.0 {
      moving, runs := MoveOnto(session, clock, dist, current, point);
    } else {
      moving, runs := MoveAlong(session, clock, dist, current, point, distance);
    }
  }

  /** The move when the mouse already rests on the match: one move, straight to it. */
  method MoveOnto(session: Session, clock: Clock, dist: Metric, current: Vec2, point: Vec2)
    returns (moving: Result<Unit, Client.Error>, ghost runs: seq<SegmentRun>)
    requires session.Valid() && dist(current, point) == 0.0
    modifies session, session.socket
    ensures session.Valid() && |old(session.log)| <= |session.log| && session.log[..|old(session.log)|] == old(session.log)
    ensures Walked(dist, current, point, session.log, |old(session.log)|, runs, moving, clock.reading, clock.ticks, clock.ticks)
  {
    ghost var before := session.log;
    moving := session.SetMouseLocation(point, Abs);
    runs := [];
    WalkedOnMatch(dist, current, point, before, session.log, runs, moving, clock.reading, clock.ticks);
  }

  /** The move when the mouse is away from the match: `mouse_path` along the written path at `PixelsPerSecond`. */
  method MoveAlong(session: Session, clock: Clock, dist: Metric, current: Vec2, point: Vec2, distance: real)
    returns (moving: Result<Unit, Client.Error>, ghost runs: seq<SegmentRun>)
    requires session.Valid() && clock.Valid() && IsDistance(dist) && distance == dist(current, point) && distance != 0.0
    modifies session, session.socket, clock
    ensures session.Valid() && |old(session.log)| <= |session.log| && session.log[..|old(session.log)|] == old(session.log)
    ensures Walked(dist, current, point, session.log, |old(session.log)|, runs, moving, clock.reading, old(clock.ticks), clock.ticks)
  {
    ghost var before := session.log;
    ClickPathAccepted(dist, current, point);
    var path := ClickPathAsWritten(current, point);
    moving, runs := session.MousePath(clock, dist, path, Abs, distance / PixelsPerSecond);
    WalkedAlong(dist, current, point, path, session.log, |before|, runs, moving, clock.reading, old(clock.ticks), clock.ticks);
  }

  /** One move to the match, with the mouse already on it, is the helper's whole walk. */
  lemma WalkedOnMatch(dist: Metric, current: Vec2, point: Vec2, before: seq<Round>, log: seq<Round>, runs: seq<SegmentRun>,
                      moving: Result<Unit, Client.Error>, reading: nat -> real, t: nat)
    requires dist(current, point) == 0.0 && Extended(before, log, DoInput(MoveTo(point, Abs)))
    requires moving == Txrx(log[|before|].reply, DidInputOf) && runs == []
    ensures Walked(dist, current, point, log, |before|, runs, moving, reading, t, t)
  {
  }

  /** `mouse_path` along the written path, with the mouse away from the match, is the helper's walk. */
  lemma WalkedAlong(dist: Metric, current: Vec2, point: Vec2, path: seq<Vec2>, log: seq<Round>, at: nat, runs: seq<SegmentRun>,
                    moving: Result<Unit, Client.Error>, reading: nat -> real, t: nat, end: nat)
    requires dist(current, point) != 0.0 && path == ClickPathAsWritten(current, point) && at <= |log|
    requires Walking(Segments(path), SplineTimes(dist, Segments(path), dist(current, point) / PixelsPerSecond), Abs, reading, t, log[at..], runs, end, moving)
    requires moving.Success? ==> |runs| == |Segments(path)|
    ensures Walked(dist, current, point, log, at, runs, moving, reading, t, end)
  {
  }

  /** The middle of the click helper: move from `current` to `point`, then click if every move was done. */
  method MoveAndClick(session: Session, clock: Clock, dist: Metric, current: Vec2, point: Vec2)
    returns (r: Result<Vec2, Error>, ghost trace: ClickTrace)
    requires session.Valid() && clock.Valid() && IsDistance(dist)
    modifies session, session.socket, clock
    ensures session.Valid() && |old(session.log)| <= |session.log| && session.log[..|old(session.log)|] == old(session.log)
    ensures MovedAndClicked(dist, current, point, session.log, |old(session.log)|, r, clock.reading, trace)
    ensures trace.walk == old(clock.ticks) && trace.end == clock.ticks
  {
    ghost var l1, t1 := session.log, clock.ticks;
    var moving;
    ghost var runs;
    moving, runs := MoveToward(session, clock, dist, current, point);
    ghost var l2, t2 := session.log, clock.ticks;
    if moving.Failure? {
      r := Failure(ClientError(moving.error));
      trace := ClickTrace(|l2| - |l1|, moving, runs, t1, t2, t2, t2);
      MoveFailed(dist, current, point, l2, |l1|, r, clock.reading, trace);
      return;
    }
    ghost var click;
    r, click := ClickAndRead(session, clock);
    trace := ClickTrace(|l2| - |l1|, moving, runs, t1, t2, click, clock.ticks);
    MovedThenClicked(dist, current, point, l2, session.log, |l1|, r, clock.reading, trace);
  }

  /** A walk whose last move failed ends the click helper with that move's error. */
  lemma MoveFailed(dist: Metric, current: Vec2, point: Vec2, log: seq<Round>, at: nat,
                   r: Result<Vec2, Error>, reading: nat -> real, trace: ClickTrace)
    requires at + trace.moved == |log|
    requires Walked(dist, current, point, log, at, trace.runs, trace.moving, reading, trace.walk, trace.settle)
    requires trace.moving.Failure? && r == Failure(ClientError(trace.moving.error))
    requires trace.click == trace.settle && trace.end == trace.settle
    ensures MovedAndClicked(dist, current, point, log, at, r, reading, trace)
  {
    assert log[..at + trace.moved] == log;
  }

  /** A walk whose every move was done, followed by the settles and the click, is the click helper's middle. */
  lemma MovedThenClicked(dist: Metric, current: Vec2, point: Vec2, walked: seq<Round>, log: seq<Round>, at: nat,
                         r: Result<Vec2, Error>, reading: nat -> real, trace: ClickTrace)
    requires at + trace.moved == |walked| <= |log| && log[..|walked|] == walked
    requires Walked(dist, current, point, walked, at, trace.runs, trace.moving, reading, trace.walk, trace.settle)
    requires trace.moving.Success? && Clicked(log, |walked|, r, reading, trace.settle, trace.click, trace.end)
    ensures MovedAndClicked(dist, current, point, log, at, r, reading, trace)
  {
  }

  /**
   * The steps of the click helper after the search: read the mouse, move it to `point` at
   * `PixelsPerSecond`, settle, left-click, settle, read the mouse again; each error ends it.
   */
  method ClickAt(session: Session, clock: Clock, dist: Metric, point: Vec2)
    returns (r: Result<Vec2, Error>, ghost trace: ClickTrace)
    requires session.Valid() && clock.Valid() && IsDistance(dist)
    modifies session, session.socket, clock
    ensures session.Valid() && |old(session.log)| <= |session.log| && session.log[..|old(session.log)|] == old(session.log)
    ensures ClickRounds(dist, point, session.log, |old(session.log)|, r, clock.reading, trace)
    ensures trace.walk == old(clock.ticks) && trace.end == clock.ticks
  {
    ghost var l0 := session.log;
    var currentMouse := session.GetMouseLocation();
    ghost var l1 := session.log;
    if currentMouse.Failure? {
      r := Failure(ClientError(currentMouse.error));
      trace := ClickTrace(0, Success(Unit), [], clock.ticks, clock.ticks, clock.ticks, clock.ticks);
      MouseReadFailed(dist, point, l0, session.log, r, clock.reading, trace);
      return;
    }
    r, trace := MoveAndClick(session, clock, dist, currentMouse.value, point);
    ReadThenMoved(dist, point, l1, session.log, |l0|, currentMouse.value, r, clock.reading, trace);
    assert session.log[..|l0|] == l1[..|l0|];
  }

  /** A mouse read that failed ends the click helper with its error. */
  lemma MouseReadFailed(dist: Metric, point: Vec2, before: seq<Round>, log: seq<Round>,
                        r: Result<Vec2, Error>, reading: nat -> real, trace: ClickTrace)
    requires Extended(before, log, InputMessage.GetMouseLocation)
    requires Txrx(log[|before|].reply, MouseLocationOf).Failure?
    requires r == Failure(ClientError(Txrx(log[|before|].reply, MouseLocationOf).error)) && trace.end == trace.walk
    ensures ClickRounds(dist, point, log, |before|, r, reading, trace)
  {
  }

  /** A mouse read that succeeded, followed by the moves and the click, is the click helper after the search. */
  lemma ReadThenMoved(dist: Metric, point: Vec2, read: seq<Round>, log: seq<Round>, at: nat, current: Vec2,
                      r: Result<Vec2, Error>, reading: nat -> real, trace: ClickTrace)
    requires |read| == at + 1 && read[at].request == InputMessage.GetMouseLocation
    requires Txrx(read[at].reply, MouseLocationOf) == Success(current)
    requires |read| <= |log| && log[..|read|] == read
    requires MovedAndClicked(dist, current, point, log, at + 1, r, reading, trace)
    ensures ClickRounds(dist, point, log, at, r, reading, trace)
  {
    assert log[at] == read[at];
  }

  /**
   * `click_on_image_in_screen_with_timeout`: the timed search on `screen`, then the click on
   * the match; the result is where the mouse is after the click.
   */
  method ClickOnImageInScreenWithTimeout(session: Session, clock: Clock, dist: Metric, screen: Screen, imgs: seq<ImageBuffer>)
    returns (r: Result<Vec2, Error>, ghost passes: nat, ghost search: seq<Round>, ghost scan: Scan,
             ghost searched: nat, ghost clickAt: nat, ghost trace: ClickTrace)
    requires session.Valid() && clock.Valid() && IsDistance(dist)
    modifies session, session.socket, clock
    ensures session.Valid() && |old(session.log)| + |search| <= |session.log|
    ensures session.log[..|old(session.log)| + |search|] == old(session.log) + search
    ensures Scanned(search, Repeat(Row(screen, imgs), passes), scan)
    ensures TimedSearch(clock.reading, old(clock.ticks), passes, scan, searched)
    ensures !scan.Hit? ==> |session.log| == |old(session.log)| + |search| && r == Failure(ScanError(scan)) && clock.ticks == searched
    ensures scan.Hit? ==>
      && scan.screen == screen
      && clickAt == |old(session.log)| + |search|
      && ClickRounds(dist, scan.point, session.log, clickAt, r, clock.reading, trace)
      && trace.walk == searched && trace.end == clock.ticks
  {
    var found;
    found, passes, search, scan := FindImageInScreenWithTimeout(session, clock, screen, imgs);
    searched := clock.ticks;
    clickAt := |session.log|;
    if found.Failure? {
      r := Failure(found.error);
      trace := ClickTrace(0, Success(Unit), [], searched, searched, searched, searched);
      return;
    }
    clickAt := |session.log|;
    assert found.value == scan.point;
    r, trace := ClickAt(session, clock, dist, found.value);
  }

  // ---------------------------------------------------------------------------------------
  // The screen the mouse is on

  /**
   * Whether an absolute logical point lies on `screen`: inside its bounds, the left and top
   * edges included and the right and bottom edges excluded.
   */
  predicate ContainsAbsPoint(screen: Screen, p: Vec2)
  {
    var (lo, hi) := screen.Bounds();
    lo.x <= p.x < hi.x && lo.y <= p.y < hi.y
  }

  /**
   * The screen the mouse is on: reads the mouse, then takes the first screen that contains
   * it. `Success(None)` is the case the walkthrough's `unwrap` cannot handle.
   */
  method CurrentScreen(session: Session, screens: seq<Screen>) returns (r: Result<Option<Screen>, Error>)
    requires session.Valid()
    modifies session, session.socket
    ensures session.Valid() && Extended(old(session.log), session.log, InputMessage.GetMouseLocation)
    ensures Txrx(session.LastReply(), MouseLocationOf).Failure? ==>
      r == Failure(ClientError(Txrx(session.LastReply(), MouseLocationOf).error))
    ensures Txrx(session.LastReply(), MouseLocationOf).Success? ==>
      var p := Txrx(session.LastReply(), MouseLocationOf).value;
      && r.Success?
      && (r.value.None? <==> forall i :: 0 <= i < |screens| ==> !ContainsAbsPoint(screens[i], p))
      && (r.value.Some? ==>
            exists i :: 0 <= i < |screens| && screens[i] == r.value.value && ContainsAbsPoint(screens[i], p)
              && (forall j :: 0 <= j < i ==> !ContainsAbsPoint(screens[j], p)))
  {
    var foundScreen: Option<Screen> := None;
    var currentMouse := session.GetMouseLocation();
    if currentMouse.Failure? {
      return Failure(ClientError(currentMouse.error));
    }
    var p := currentMouse.value;
    for i := 0 to |screens|
      invariant forall j :: 0 <= j < i ==> !ContainsAbsPoint(screens[j], p)
    {
      if ContainsAbsPoint(screens[i], p) {
        foundScreen := Some(screens[i]);
        return Success(foundScreen);
      }
    }
    r := Success(foundScreen);
  }
}
