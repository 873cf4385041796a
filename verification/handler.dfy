/**
  The checks the `/colors` handler `combineColors` of main.go makes on a
  decoded request before it combines the colours, as a pure validator, and
  the handler's outcome as a value instead of an HTTP response.

  The per-element hex check is `strconv.ParseInt(color[1:], 16, 64)`, which
  accepts a leading `+` or `-`: `#+12345` and `#-F0000` pass validation.
*/
module Handler {
  import opened Wrappers
  import opened Strconv
  import opened Color
  import opened Names
  import opened Combine

  /** The three rejections made after the body has been decoded. */
  datatype ValidationError = NoColors | InvalidFormat | InvalidHex

  /** The message `http.Error` sends, with status 400, for each rejection;
      `http.Error` writes it followed by a newline. */
  function Message(e: ValidationError): string {
    match e
    case NoColors => "No colors provided"
    case InvalidFormat => "Invalid color format"
    case InvalidHex => "Invalid hex color code"
  }

  /** Seven bytes, the first of them `#`. */
  predicate HasColorShape(s: string) {
    |s| == 7 && s[0] == '#'
  }

  /** What the checks accept, stated without the parser: `#` and six hex
      digits, or `#`, a sign and five hex digits. */
  predicate IsAcceptedColor(s: string) {
    HasColorShape(s) && IsSignedHex(s[1..])
  }

  /** The two checks made on one element, in the handler's order. */
  function CheckColor(s: string): (r: Option<ValidationError>)
    ensures r.None? ==> |s| == 7
    ensures r != Some(NoColors)
  {
    if |s| != 7 || s[0] != '#' then Some(InvalidFormat)
    else if ParseInt(s[1..], 64).status != Ok then Some(InvalidHex)
    else None
  }

  /** The loop over the elements: the first element that fails decides. */
  function CheckEach(colors: seq<string>): (r: Option<ValidationError>)
    ensures r.None? ==> forall i | 0 <= i < |colors| :: |colors[i]| == 7
    ensures r != Some(NoColors)
  {
    if |colors| == 0 then None
    else
      match CheckColor(colors[0])
      case Some(e) => Some(e)
      case None => CheckEach(colors[1..])
  }

  /** The validation of main.go:82-97: an empty list is rejected first,
      then each element in turn. */
  function Validate(colors: seq<string>): (r: Option<ValidationError>)
    ensures r.None? ==> |colors| > 0 && forall i | 0 <= i < |colors| :: |colors[i]| == 7
  {
    if |colors| == 0 then Some(NoColors) else CheckEach(colors)
  }

  // ---------------------------------------------------------------------
  // What validation accepts and rejects
  // ---------------------------------------------------------------------

  /** One element is rejected as badly formed exactly when it is not seven
      bytes starting with `#`, and as bad hex exactly when it has that shape
      but is not an optionally signed hex numeral. */
  lemma CheckColorSpec(s: string)
    ensures CheckColor(s) == Some(InvalidFormat) <==> !HasColorShape(s)
    ensures CheckColor(s) == Some(InvalidHex) <==> HasColorShape(s) && !IsSignedHex(s[1..])
    ensures CheckColor(s) == None <==> IsAcceptedColor(s)
  {
    if HasColorShape(s) {
      ParseInt64Accepts(s[1..]);
    }
  }

  lemma {:induction false} CheckEachAccepts(colors: seq<string>)
    ensures CheckEach(colors) == None <==> forall i | 0 <= i < |colors| :: IsAcceptedColor(colors[i])
  {
    if |colors| > 0 {
      CheckColorSpec(colors[0]);
      CheckEachAccepts(colors[1..]);
      assert forall i | 1 <= i < |colors| :: colors[i] == colors[1..][i - 1];
    }
  }

  /** A request passes validation exactly when it is non-empty and every
      element is accepted. */
  lemma ValidateAccepts(colors: seq<string>)
    ensures Validate(colors) == None
        <==> |colors| > 0 && forall i | 0 <= i < |colors| :: IsAcceptedColor(colors[i])
  {
    CheckEachAccepts(colors);
  }

  /** The empty list, and only the empty list, is rejected with `NoColors`,
      whatever else is wrong with a request. */
  lemma ValidateNoColors(colors: seq<string>)
    ensures Validate(colors) == Some(NoColors) <==> |colors| == 0
  {
  }

  lemma {:induction false} CheckEachFirstFailure(colors: seq<string>, i: nat)
    requires i < |colors|
    requires forall j | 0 <= j < i :: IsAcceptedColor(colors[j])
    requires !IsAcceptedColor(colors[i])
    ensures CheckEach(colors) == CheckColor(colors[i])
  {
    CheckColorSpec(colors[0]);
    if i > 0 {
      assert forall j | 0 <= j < i - 1 :: colors[1..][j] == colors[j + 1];
      CheckEachFirstFailure(colors[1..], i - 1);
    }
  }

  /** In a non-empty list the first element that is not accepted decides
      the error, and for that element the shape check comes before the hex
      check. */
  lemma ValidateFirstFailure(colors: seq<string>, i: nat)
    requires i < |colors|
    requires forall j | 0 <= j < i :: IsAcceptedColor(colors[j])
    requires !IsAcceptedColor(colors[i])
    ensures Validate(colors) == Some(if HasColorShape(colors[i]) then InvalidHex else InvalidFormat)
  {
    CheckEachFirstFailure(colors, i);
    CheckColorSpec(colors[i]);
  }

  // ---------------------------------------------------------------------
  // The handler
  // ---------------------------------------------------------------------

  /** The JSON object the handler writes on success. */
  datatype Response = Response(combinedColor: string, colorName: string)

  /** `combineColors` from the decoded request on: validation, then
      `combineHexColors` with the palette visited in `order`. A rejection
      carries the error whose `Message` the handler sends. */
  method CombineColors(colors: seq<string>, order: seq<Entry>) returns (r: Result<Response, ValidationError>)
    requires IsIterationOrder(order)
    ensures r.Failure? <==> Validate(colors).Some?
    ensures r.Failure? ==> r.error == Validate(colors).value
    ensures r.Success? ==> (
              && Validate(colors) == None
              && r.value.combinedColor == RgbToHex(Mean(colors))
              && IsClosestName(Mean(colors), r.value.colorName))
    ensures r.Success? && (forall i | 0 <= i < |colors| :: IsPureHexColor(colors[i])) ==>
              IsCanonicalColor(r.value.combinedColor)
  {
    var err := Validate(colors);
    if err.Some? {
      return Failure(err.value);
    }
    var hexes: seq<HexString> := colors;
    var combinedColor, colorName := CombineHexColors(hexes, order);
    if forall i | 0 <= i < |colors| :: IsPureHexColor(colors[i]) {
      PureHexMean(hexes);
    }
    r := Success(Response(combinedColor, colorName));
  }
}
