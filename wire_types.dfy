/**
 * The wire vocabulary shared by the driver and the client: screens, server status, image
 * buffers, the input token language with its serde alias tables, bounding rectangles and the
 * request/response message sets.
 *
 * serde's derived enum deserialisers are modelled as functions from the JSON shape they read
 * to an `Option`: a string for a unit variant, a one-key object `{tag: body}` (here `JVariant`)
 * for a variant with fields.
 */
module WireTypes {
  import opened Wrappers

  newtype u8 = x: int | 0 <= x < 0x100
  newtype u16 = x: int | 0 <= x < 0x1_0000
  newtype u32 = x: int | 0 <= x < 0x1_0000_0000
  newtype i32 = x: int | -0x8000_0000 <= x < 0x8000_0000

  /** glam's `Vec2`; its f32 components are modelled as reals. */
  datatype Vec2 = Vec2(x: real, y: real) {
    function Plus(o: Vec2): Vec2 { Vec2(x + o.x, y + o.y) }
    function Minus(o: Vec2): Vec2 { Vec2(x - o.x, y - o.y) }
    function Times(k: real): Vec2 { Vec2(x * k, y * k) }
    function DividedBy(k: real): Vec2
      requires k != 0.0
    {
      Vec2(x / k, y / k)
    }
  }

  /** A screen's scale factor: any real the conversions can divide by. */
  type ScaleFactor = r: real | r != 0.0 witness 1.0

  /** An operating system screen or monitor, in physical pixels. */
  datatype Screen = Screen(name: string, x: nat, y: nat, width: nat, height: nat, scaleFactor: ScaleFactor) {

    /** The top-left and the bottom-right corner of the screen. */
    function Bounds(): (r: (Vec2, Vec2))
      ensures r.0 == Vec2(x as real, y as real)
      ensures r.0.x <= r.1.x && r.0.y <= r.1.y
      ensures r.1.Minus(r.0) == Vec2(width as real, height as real)
    {
      var x, y, width, height := x as real, y as real, width as real, height as real;
      (Vec2(x, y), Vec2(x + width, y + height))
    }
  }

  /** A server status; `Off` is the default. The handle is not serialised. */
  datatype ServerStatus<T> = Off | On(handle: T, port: u32) {

    function Port(): (r: Option<u32>)
      ensures r.Some? <==> On?
      ensures On? ==> r == Some(port)
    {
      match this
      case On(_, port) => Some(port)
      case Off => None
    }

    predicate IsOn()
      ensures IsOn() <==> On?
    {
      Port().Some?
    }
  }

  /** `ServerStatus::default()`: a server that is off and has no port. */
  function DefaultServerStatus<T>(): (s: ServerStatus<T>)
    ensures !s.IsOn() && s.Port() == None
  {
    Off
  }

  /** An RGB8 image; the length of the buffer is not checked against the size. */
  datatype ImageBuffer = ImageBuffer(width: u32, height: u32, buffer: seq<u8>)

  /** The target the wire types are compiled for: some variants exist only on some of them. */
  datatype Os = Windows | MacOS | OtherUnix

  // ---------------------------------------------------------------------------------------
  // Direction

  /** The direction of a key or button; `Click` is a press followed by a release. */
  datatype Direction = Press | Release | Click

  const DefaultDirection: Direction := Click

  /** The variant name followed by the aliases declared for it. */
  function DirectionAliases(d: Direction): seq<string>
  {
    match d
    case Press => ["Press", "P", "p", "Pressed", "pressed"]
    case Release => ["Release", "R", "r", "Released", "released"]
    case Click => ["Click", "C", "c", "Clicked", "clicked"]
  }

  function DecodeDirection(s: string): (r: Option<Direction>)
    ensures r.Some? ==> s in DirectionAliases(r.value)
  {
    match s
    case "Press" | "P" | "p" | "Pressed" | "pressed" => Some(Press)
    case "Release" | "R" | "r" | "Released" | "released" => Some(Release)
    case "Click" | "C" | "c" | "Clicked" | "clicked" => Some(Click)
    case _ => None
  }

  function EncodeDirection(d: Direction): (s: string)
    ensures DecodeDirection(s) == Some(d)
  {
    match d
    case Press => "Press"
    case Release => "Release"
    case Click => "Click"
  }
  /** Every declared name of a variant decodes to that variant. */
  lemma DirectionAliasesAccepted(d: Direction)
    ensures forall a :: a in DirectionAliases(d) ==> DecodeDirection(a) == Some(d)
  {
    var names := DirectionAliases(d);
    assert names == [names[0], names[1], names[2]] + names[3..];
  }

  /** No string names two directions, so decoding is well defined. */
  lemma DirectionAliasesDisjoint(d1: Direction, d2: Direction, s: string)
    requires s in DirectionAliases(d1) && s in DirectionAliases(d2)
    ensures d1 == d2
  {
    DirectionAliasesAccepted(d1);
    DirectionAliasesAccepted(d2);
  }


  // ---------------------------------------------------------------------------------------
  // Button

  datatype Button = Left | Middle | Right | Back | Forward | ScrollUp | ScrollDown | ScrollLeft | ScrollRight

  const DefaultButton: Button := Left

  /** The 4th and 5th mouse buttons are not compiled in on macOS. */
  predicate ButtonAvailable(os: Os, b: Button)
  {
    (b.Back? || b.Forward?) ==> os != MacOS
  }

  function ButtonAliases(b: Button): seq<string>
  {
    match b
    case Left => ["Left", "L", "l"]
    case Middle => ["Middle", "M", "m"]
    case Right => ["Right", "R", "r"]
    case Back => ["Back", "B", "b"]
    case Forward => ["Forward", "F", "f"]
    case ScrollUp => ["ScrollUp", "SU", "su"]
    case ScrollDown => ["ScrollDown", "SD", "sd"]
    case ScrollLeft => ["ScrollLeft", "SL", "sl"]
    case ScrollRight => ["ScrollRight", "SR", "sr"]
  }

  function DecodeButton(os: Os, s: string): (r: Option<Button>)
    ensures r.Some? ==> s in ButtonAliases(r.value) && ButtonAvailable(os, r.value)
  {
    match s
    case "Left" | "L" | "l" => Some(Left)
    case "Middle" | "M" | "m" => Some(Middle)
    case "Right" | "R" | "r" => Some(Right)
    case "Back" | "B" | "b" => if os != MacOS then Some(Back) else None
    case "Forward" | "F" | "f" => if os != MacOS then Some(Forward) else None
    case "ScrollUp" | "SU" | "su" => Some(ScrollUp)
    case "ScrollDown" | "SD" | "sd" => Some(ScrollDown)
    case "ScrollLeft" | "SL" | "sl" => Some(ScrollLeft)
    case "ScrollRight" | "SR" | "sr" => Some(ScrollRight)
    case _ => None
  }

  function EncodeButton(b: Button): (s: string)
    ensures forall os :: ButtonAvailable(os, b) ==> DecodeButton(os, s) == Some(b)
  {
    ButtonAliases(b)[0]
  }
  /** Every declared name of a variant decodes to that variant. */
  lemma ButtonAliasesAccepted(os: Os, b: Button)
    requires ButtonAvailable(os, b)
    ensures forall i :: 0 <= i < |ButtonAliases(b)| ==> DecodeButton(os, ButtonAliases(b)[i]) == Some(b)
  {
    match b
    case Left =>
    case Middle =>
    case Right =>
    case Back =>
    case Forward =>
    case ScrollUp =>
    case ScrollDown =>
    case ScrollLeft =>
    case ScrollRight =>
  }

  /** No string names two buttons, on any target. */
  lemma ButtonAliasesDisjoint(b1: Button, b2: Button, s: string)
    requires s in ButtonAliases(b1) && s in ButtonAliases(b2)
    ensures b1 == b2
  {
    ButtonAliasesAccepted(Windows, b1);
    ButtonAliasesAccepted(Windows, b2);
  }


  // ---------------------------------------------------------------------------------------
  // Coordinate and Axis

  /** Whether a move is absolute or relative to the current mouse position. */
  datatype Coordinate = Abs | Rel

  const DefaultCoordinate: Coordinate := Abs

  function CoordinateAliases(c: Coordinate): seq<string>
  {
    match c
    case Abs => ["Abs", "A", "a"]
    case Rel => ["Rel", "R", "r"]
  }

  function DecodeCoordinate(s: string): (r: Option<Coordinate>)
    ensures r.Some? ==> s in CoordinateAliases(r.value)
  {
    match s
    case "Abs" | "A" | "a" => Some(Abs)
    case "Rel" | "R" | "r" => Some(Rel)
    case _ => None
  }

  function EncodeCoordinate(c: Coordinate): (s: string)
    ensures DecodeCoordinate(s) == Some(c)
  {
    CoordinateAliases(c)[0]
  }

  /** Every declared name of a variant decodes to that variant. */
  lemma CoordinateAliasesAccepted(c: Coordinate)
    ensures forall a :: a in CoordinateAliases(c) ==> DecodeCoordinate(a) == Some(c)
  {
    var names := CoordinateAliases(c);
    assert names == [names[0], names[1], names[2]];
  }


  /** The axis of a scroll. */
  datatype Axis = Horizontal | Vertical

  const DefaultAxis: Axis := Vertical

  function AxisAliases(a: Axis): seq<string>
  {
    match a
    case Horizontal => ["Horizontal", "H", "h"]
    case Vertical => ["Vertical", "V", "v"]
  }

  function DecodeAxis(s: string): (r: Option<Axis>)
    ensures r.Some? ==> s in AxisAliases(r.value)
  {
    match s
    case "Horizontal" | "H" | "h" => Some(Horizontal)
    case "Vertical" | "V" | "v" => Some(Vertical)
    case _ => None
  }

  function EncodeAxis(a: Axis): (s: string)
    ensures DecodeAxis(s) == Some(a)
  {
    AxisAliases(a)[0]
  }

  /** Every declared name of a variant decodes to that variant. */
  lemma AxisAliasesAccepted(axis: Axis)
    ensures forall a :: a in AxisAliases(axis) ==> DecodeAxis(a) == Some(axis)
  {
    var names := AxisAliases(axis);
    assert names == [names[0], names[1], names[2]];
  }


  // ---------------------------------------------------------------------------------------
  // JSON shapes and keys

  /** The JSON shapes the token deserialiser reads; `JVariant(tag, body)` is the object `{tag: body}`. */
  datatype Json = JNumber(num: int) | JString(str: string) | JArray(items: seq<Json>) | JVariant(tag: string, body: Json)

  /**
   * A keyboard key. The platform catalogue of unit variants is abstracted: `Control` (which
   * has the extra alias "ctrl") and `Named(name)` for any other variant the target compiles in,
   * plus the two escape hatches `Unicode(char)` and `Other(u32)`.
   */
  datatype Key = Control | Named(name: string) | Unicode(ch: char) | Other(code: u32)

  function UnicodeAliases(): seq<string>
  {
    ["Unicode", "uni", "Uni", "Char", "char"]
  }

  /** A compilation target: its OS and the names of the unit key variants it compiles in. */
  datatype Target = Target(os: Os, keyNames: set<string>)

  /** The catalogue names are variant names, so none is a name or alias of Control, Unicode or Other. */
  predicate TargetWellFormed(t: Target)
  {
    && "Control" !in t.keyNames
    && "ctrl" !in t.keyNames
    && "Other" !in t.keyNames
    && forall a :: a in UnicodeAliases() ==> a !in t.keyNames
  }

  predicate KeyAvailable(t: Target, k: Key)
  {
    k.Named? ==> k.name in t.keyNames
  }

  function DecodeKey(t: Target, j: Json): (r: Option<Key>)
    requires TargetWellFormed(t)
    ensures r.Some? ==> KeyAvailable(t, r.value)
    ensures j == JString("ctrl") ==> r == Some(Control)
  {
    match j
    case JString(s) =>
      if s == "Control" || s == "ctrl" then Some(Control)
      else if s in t.keyNames then Some(Named(s))
      else None
    case JVariant(tag, body) =>
      if tag in UnicodeAliases() then
        (if body.JString? && |body.str| == 1 then Some(Unicode(body.str[0])) else None)
      else if tag == "Other" then
        (if body.JNumber? && 0 <= body.num < 0x1_0000_0000 then Some(Key.Other(body.num as u32)) else None)
      else None
    case _ => None
  }

  function EncodeKey(k: Key): Json
  {
    match k
    case Control => JString("Control")
    case Named(name) => JString(name)
    case Unicode(c) => JVariant("Unicode", JString([c]))
    case Other(code) => JVariant("Other", JNumber(code as int))
  }

  lemma KeyRoundTrip(t: Target, k: Key)
    requires TargetWellFormed(t) && KeyAvailable(t, k)
    ensures DecodeKey(t, EncodeKey(k)) == Some(k)
  {
  }

  // ---------------------------------------------------------------------------------------
  // Token

  /** One atomic input action. `Location` and `MainDisplay` are assertions checked by the driver. */
  datatype Token =
    | Text(text: string)
    | Key(key: Key, direction: Direction)
    | Raw(keycode: u16, direction: Direction)
    | Button(button: Button, direction: Direction)
    | MoveMouse(x: i32, y: i32, coordinate: Coordinate)
    | Scroll(amount: i32, axis: Axis)
    | Location(x: i32, y: i32)
    | MainDisplay(x: i32, y: i32)

  /** The variant of a token, which is what its JSON tag names. */
  datatype TokenKind = TextKind | KeyKind | RawKind | ButtonKind | MoveMouseKind | ScrollKind | LocationKind | MainDisplayKind

  function KindOf(t: Token): TokenKind
  {
    match t
    case Text(_) => TextKind
    case Key(_, _) => KeyKind
    case Raw(_, _) => RawKind
    case Button(_, _) => ButtonKind
    case MoveMouse(_, _, _) => MoveMouseKind
    case Scroll(_, _) => ScrollKind
    case Location(_, _) => LocationKind
    case MainDisplay(_, _) => MainDisplayKind
  }

  function TokenKindAliases(k: TokenKind): seq<string>
  {
    match k
    case TextKind => ["Text", "T", "t"]
    case KeyKind => ["Key", "K", "k"]
    case RawKind => ["Raw", "R", "r"]
    case ButtonKind => ["Button", "B", "b"]
    case MoveMouseKind => ["MoveMouse", "M", "m"]
    case ScrollKind => ["Scroll", "S", "s"]
    case LocationKind => ["Location", "L", "l"]
    case MainDisplayKind => ["MainDisplay", "D", "d"]
  }

  function DecodeTokenKind(s: string): (r: Option<TokenKind>)
    ensures r.Some? ==> s in TokenKindAliases(r.value)
  {
    match s
    case "Text" | "T" | "t" => Some(TextKind)
    case "Key" | "K" | "k" => Some(KeyKind)
    case "Raw" | "R" | "r" => Some(RawKind)
    case "Button" | "B" | "b" => Some(ButtonKind)
    case "MoveMouse" | "M" | "m" => Some(MoveMouseKind)
    case "Scroll" | "S" | "s" => Some(ScrollKind)
    case "Location" | "L" | "l" => Some(LocationKind)
    case "MainDisplay" | "D" | "d" => Some(MainDisplayKind)
    case _ => None
  }
  /** Every declared name of a variant decodes to that variant. */
  lemma TokenKindAliasesAccepted(k: TokenKind)
    ensures forall i :: 0 <= i < |TokenKindAliases(k)| ==> DecodeTokenKind(TokenKindAliases(k)[i]) == Some(k)
  {
    match k
    case TextKind =>
    case KeyKind =>
    case RawKind =>
    case ButtonKind =>
    case MoveMouseKind =>
    case ScrollKind =>
    case LocationKind =>
    case MainDisplayKind =>
  }


  function DecodeU16(j: Json): Option<u16>
  {
    if j.JNumber? && 0 <= j.num < 0x1_0000 then Some(j.num as u16) else None
  }

  function DecodeI32(j: Json): Option<i32>
  {
    if j.JNumber? && -0x8000_0000 <= j.num < 0x8000_0000 then Some(j.num as i32) else None
  }

  function DecodeString<T>(decode: string -> Option<T>, j: Json): Option<T>
  {
    if j.JString? then decode(j.str) else None
  }

  /**
   * The last field of a tuple variant marked `#[serde(default)]`: the array holds `n` leading
   * fields and then either nothing (the default is used) or one more field; anything longer is
   * rejected.
   */
  function Trailing<T>(items: seq<Json>, n: nat, decode: Json -> Option<T>, default: T): (r: Option<T>)
    requires n <= |items|
    ensures |items| == n ==> r == Some(default)
    ensures |items| > n + 1 ==> r == None
  {
    if |items| == n then Some(default)
    else if |items| == n + 1 then decode(items[n])
    else None
  }

  function DecodeTokenBody(t: Target, kind: TokenKind, body: Json): (r: Option<Token>)
    requires TargetWellFormed(t)
    ensures r.Some? ==> KindOf(r.value) == kind
  {
    match kind
    case TextKind =>
      if body.JString? then Some(Token.Text(body.str)) else None
    case KeyKind =>
      if body.JArray? && 1 <= |body.items| then
        var k, d := DecodeKey(t, body.items[0]), Trailing(body.items, 1, j => DecodeString(DecodeDirection, j), DefaultDirection);
        if k.Some? && d.Some? then Some(Token.Key(k.value, d.value)) else None
      else None
    case RawKind =>
      if body.JArray? && 1 <= |body.items| then
        var c, d := DecodeU16(body.items[0]), Trailing(body.items, 1, j => DecodeString(DecodeDirection, j), DefaultDirection);
        if c.Some? && d.Some? then Some(Raw(c.value, d.value)) else None
      else None
    case ButtonKind =>
      if body.JArray? && 1 <= |body.items| then
        var b, d := DecodeString(s => DecodeButton(t.os, s), body.items[0]),
                    Trailing(body.items, 1, j => DecodeString(DecodeDirection, j), DefaultDirection);
        if b.Some? && d.Some? then Some(Token.Button(b.value, d.value)) else None
      else None
    case MoveMouseKind =>
      if body.JArray? && 2 <= |body.items| then
        var x, y := DecodeI32(body.items[0]), DecodeI32(body.items[1]);
        var c := Trailing(body.items, 2, j => DecodeString(DecodeCoordinate, j), DefaultCoordinate);
        if x.Some? && y.Some? && c.Some? then Some(MoveMouse(x.value, y.value, c.value)) else None
      else None
    case ScrollKind =>
      if body.JArray? && 1 <= |body.items| then
        var n, a := DecodeI32(body.items[0]), Trailing(body.items, 1, j => DecodeString(DecodeAxis, j), DefaultAxis);
        if n.Some? && a.Some? then Some(Scroll(n.value, a.value)) else None
      else None
    case LocationKind =>
      if body.JArray? && |body.items| == 2 then
        var x, y := DecodeI32(body.items[0]), DecodeI32(body.items[1]);
        if x.Some? && y.Some? then Some(Location(x.value, y.value)) else None
      else None
    case MainDisplayKind =>
      if body.JArray? && |body.items| == 2 then
        var x, y := DecodeI32(body.items[0]), DecodeI32(body.items[1]);
        if x.Some? && y.Some? then Some(MainDisplay(x.value, y.value)) else None
      else None
  }

  /** Deserialise a token from its externally tagged JSON form. */
  function DecodeToken(t: Target, j: Json): (r: Option<Token>)
    requires TargetWellFormed(t)
    ensures r.Some? ==> j.JVariant? && j.tag in TokenKindAliases(KindOf(r.value))
  {
    match j
    case JVariant(tag, body) =>
      (match DecodeTokenKind(tag)
       case Some(kind) => DecodeTokenBody(t, kind, body)
       case None => None)
    case _ => None
  }

  /** Serialise a token in canonical form: variant names, every field written out. */
  function EncodeToken(token: Token): Json
  {
    match token
    case Text(s) => JVariant("Text", JString(s))
    case Key(k, d) => JVariant("Key", JArray([EncodeKey(k), JString(EncodeDirection(d))]))
    case Raw(c, d) => JVariant("Raw", JArray([JNumber(c as int), JString(EncodeDirection(d))]))
    case Button(b, d) => JVariant("Button", JArray([JString(EncodeButton(b)), JString(EncodeDirection(d))]))
    case MoveMouse(x, y, c) => JVariant("MoveMouse", JArray([JNumber(x as int), JNumber(y as int), JString(EncodeCoordinate(c))]))
    case Scroll(n, a) => JVariant("Scroll", JArray([JNumber(n as int), JString(EncodeAxis(a))]))
    case Location(x, y) => JVariant("Location", JArray([JNumber(x as int), JNumber(y as int)]))
    case MainDisplay(x, y) => JVariant("MainDisplay", JArray([JNumber(x as int), JNumber(y as int)]))
  }

  /** The values a target can represent: catalogued keys it compiles in, buttons it has. */
  predicate TokenAvailable(t: Target, token: Token)
  {
    && (token.Key? ==> KeyAvailable(t, token.key))
    && (token.Button? ==> ButtonAvailable(t.os, token.button))
  }

  /** The canonical name of every kind decodes to that kind. */
  lemma TokenKindRoundTrip(kind: TokenKind)
    ensures DecodeTokenKind(TokenKindAliases(kind)[0]) == Some(kind)
  {
  }

  /** The canonical body of every representable token decodes to that token. */
  lemma TokenBodyRoundTrip(t: Target, token: Token)
    requires TargetWellFormed(t) && TokenAvailable(t, token)
    ensures DecodeTokenBody(t, KindOf(token), EncodeToken(token).body) == Some(token)
  {
    match token
    case Key(k, d) => KeyRoundTrip(t, k);
    case _ =>
  }

  /** Decoding the canonical encoding of a representable token gives the token back. */
  lemma TokenRoundTrip(t: Target, token: Token)
    requires TargetWellFormed(t) && TokenAvailable(t, token)
    ensures DecodeToken(t, EncodeToken(token)) == Some(token)
  {
    TokenKindRoundTrip(KindOf(token));
    TokenBodyRoundTrip(t, token);
  }

  /** `Key` with its direction left out presses and releases the key. */
  lemma KeyDirectionDefaults(t: Target, tag: string, j: Json)
    requires TargetWellFormed(t)
    requires tag in TokenKindAliases(KeyKind) && DecodeKey(t, j).Some?
    ensures DecodeToken(t, JVariant(tag, JArray([j]))) == Some(Token.Key(DecodeKey(t, j).value, Click))
  {
    TokenKindAliasesAccepted(KeyKind);
  }

  /** `Raw` with its direction left out presses and releases the key code. */
  lemma RawDirectionDefaults(t: Target, tag: string, code: u16)
    requires TargetWellFormed(t)
    requires tag in TokenKindAliases(RawKind)
    ensures DecodeToken(t, JVariant(tag, JArray([JNumber(code as int)]))) == Some(Raw(code, Click))
  {
    TokenKindAliasesAccepted(RawKind);
  }

  /** `Button` with its direction left out presses and releases the button. */
  lemma ButtonDirectionDefaults(t: Target, tag: string, b: Button)
    requires TargetWellFormed(t)
    requires tag in TokenKindAliases(ButtonKind) && ButtonAvailable(t.os, b)
    ensures DecodeToken(t, JVariant(tag, JArray([JString(EncodeButton(b))]))) == Some(Token.Button(b, Click))
  {
    TokenKindAliasesAccepted(ButtonKind);
  }

  /** `MoveMouse` with its coordinate left out is an absolute move. */
  lemma MoveMouseCoordinateDefaults(t: Target, tag: string, x: i32, y: i32)
    requires TargetWellFormed(t)
    requires tag in TokenKindAliases(MoveMouseKind)
    ensures DecodeToken(t, JVariant(tag, JArray([JNumber(x as int), JNumber(y as int)]))) == Some(MoveMouse(x, y, Abs))
  {
    TokenKindAliasesAccepted(MoveMouseKind);
  }

  /** `Scroll` with its axis left out scrolls vertically. */
  lemma ScrollAxisDefaults(t: Target, tag: string, n: i32)
    requires TargetWellFormed(t)
    requires tag in TokenKindAliases(ScrollKind)
    ensures DecodeToken(t, JVariant(tag, JArray([JNumber(n as int)]))) == Some(Scroll(n, Vertical))
  {
    TokenKindAliasesAccepted(ScrollKind);
  }

  // ---------------------------------------------------------------------------------------
  // Rectangles and messages

  /** A match location, in the physical pixels of the screen that was searched. */
  datatype BoundingRectangle = BoundingRectangle(min: (real, real), max: (real, real)) {

    /**
     * The midpoint of the rectangle. The rectangle type's own `center` is not part of this
     * model; it is taken as `(min + max) / 2`.
     */
    function Center(): Vec2
    {
      Vec2((min.0 + max.0) / 2.0, (min.1 + max.1) / 2.0)
    }
  }

  /** Tuning parameters of an image search; only the `Standard` values are used by the client. */
  datatype FindImageQuality = Standard
  datatype FindImageFilter = Standard

  /** The requests the client sends. */
  datatype InputMessage =
    | GetScreens
    | GetMainScreen
    | CaptureScreen(name: string)
    | GetMouseLocation
    | DoInput(token: Token)
    | DoTypeText(text: string)
    | FindText(text: string, screenName: string, timeoutInSeconds: real)
    | FindImage(screenName: string, image: ImageBuffer, quality: FindImageQuality, filter: FindImageFilter)

  /** The responses the client matches on; `Error` may answer any request. */
  datatype OutputMessage =
    | GotScreens(screens: seq<Screen>)
    | GotMainScreen(screen: Screen)
    | CapturedScreen(imageBuffer: ImageBuffer)
    | GotMouseLocation(location: Vec2)
    | DidInput
    | DidTypeText
    | FoundText(locations: seq<BoundingRectangle>)
    | FoundImage(locations: seq<BoundingRectangle>)
    | Error(msg: string)
}
