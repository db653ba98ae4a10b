# ChromaStudio colour and gradient core in Dafny

ChromaStudio is a single-page colour and gradient picker. All of its logic
lives in `app.js`. This project models the part of that file that computes
things, and proves properties of the model:

- **ColorCodec**: `hexToRgb` and `rgbToHex`. This covers the 3-digit short
  form, the 24-bit value split with shifts and masks, and `toString(16)` with
  `padStart(2, '0')`. The writer is modelled for every integer, including
  negative and oversized channels.
- **Inputs**: the gates applied to user input.
  - the `^[0-9a-fA-F]{6}$` test on the trimmed hex fields;
  - angle normalisation `((v % 360) + 360) % 360`, using JavaScript's
    truncating `%`;
  - the 0..100 clamp of a rounded percentage.
- **Stops**: the stop record and the list operations on it.
  - the stable ascending sort by position;
  - lookup by id (`find`);
  - the `filter` that removes a stop;
  - ids of the form `stop_<n>` minted from the counter.
- **Interpolation**: `interpolateColorAtPos`.
  - a method with the bracket-finding loop, proved against a function;
  - exact rational interpolation, with `Math.round(x)` written as
    `floor(x + 1/2)`;
  - the zero-width shortcut;
  - the first/last fallback when no pair encloses the position.
- **Css**: the string builders.
  - `buildGradientCss`, `buildLinearForTrack`, `buildSingleColorCss`,
    `buildColorValue`;
  - `(opacity / 100).toFixed(2)` for integer opacities;
  - the CSS snippet table of `applyPreview`;
  - the 70-character info bar.
- **Studio**: the global `state` object as a class. Its methods are the
  handlers that change it:
  - add a stop on a track click, remove the active stop, sort, select;
  - edit the active stop's colour, hex text, position and opacity;
  - drag a stop;
  - the single colour, hex field and opacity;
  - the angle field and wheel;
  - the three mode switches;
  - `applyPreview`'s CSS output.

  `Valid()` is the store invariant, kept by every handler:
  - at least two stops;
  - sorted by position;
  - unique ids, each `stop_k` with `1 <= k <= stopCounter`;
  - hex colours;
  - positions and opacities in 0..100.

Numbers are unbounded integers. Colours and CSS are strings. The sort is a
function over sequences. Every handler states its whole new state through a
specification function, and lemmas about those functions state what the
source promises.

## Model

| member | source | states |
|---|---|---|
| Text.IntToString | app.js:372 | a number in a template literal: its decimal digits, behind '-' when negative |
| Text.ParseNatToString | app.js:372 | the decimal text of a number reads back as that number |
| Text.NatToStringInjective | app.js:372 | different numbers are written differently |
| Text.Trim | app.js:117 | `trim()`: the result neither starts nor ends with white space, and text without white space is returned unchanged; that exactly the white space at both ends is cut is `TrimRemovesOnlyWhiteSpace` |
| Text.TrimRemovesOnlyWhiteSpace | app.js:117 | `trim()` gives the slice of the text after its leading white space; everything cut off on either side is white space, and the result neither starts nor ends with white space |
| ColorCodec.StripHash | app.js:571 | `replace('#', '')`: text without '#' is unchanged, a leading '#' is dropped, and the text loses one character exactly when it holds a '#'; which one is `StripHashIsReplaceFirst` |
| ColorCodec.StripHashIsReplaceFirst | app.js:571 | `replace('#', '')` leaves text without '#' unchanged; otherwise, for the index k of the first '#', it gives the text before k followed by the text after k |
| ColorCodec.Expand3 | app.js:572 | the short form doubles each of its three digits |
| ColorCodec.SixDigitValue | app.js:573 | `parseInt(hex, 16)` of six digits is 65536·r + 256·g + b for the three digit pairs |
| ColorCodec.SplitBytes | app.js:574-578 | `>> 16 & 255`, `>> 8 & 255` and `& 255` recover the three bytes of that value |
| ColorCodec.HexToRgb | app.js:570-579 | every channel is a byte and equals the value of its digit pair in the six-digit form |
| ColorCodec.ShortFormChannels | app.js:572-578 | for a 3-digit colour each channel is 17 times its digit |
| ColorCodec.PadStart2 | app.js:582 | `padStart(2, '0')` is at least two long, ends with the text and is padded with '0' |
| ColorCodec.ByteHex | app.js:582 | a byte is written as two lower-case digits, high nibble first |
| ColorCodec.ChannelHex | app.js:582 | `toString(16).padStart(2, '0')` is at least two characters; `ByteHex` gives them for a byte and `ChannelHexOfNonByte` for any other integer |
| ColorCodec.RgbToHex | app.js:581-583 | '#' and the three channel texts; its promises are `RgbToHexRoundTrip`, `HexToRgbRoundTrip`, `RgbToHexOnlyBytes` and `ChannelHexOfNonByte` |
| ColorCodec.RgbToHexRoundTrip | app.js:570-583 | for bytes `rgbToHex` gives '#' and six lower-case digits, and `hexToRgb` returns the same channels |
| ColorCodec.HexToRgbRoundTrip | app.js:570-583 | `rgbToHex(hexToRgb(hex))` is '#' and the lower-cased six-digit form of hex |
| ColorCodec.ChannelHexOfNonByte | app.js:582 | a channel outside 0..255 is written with more than two characters or a leading '-' |
| ColorCodec.RgbToHexOnlyBytes | app.js:581-583 | `rgbToHex` yields a hex colour only when all three channels are bytes |
| Inputs.HexInputIsColor | app.js:117-119 | text that passes the six-digit pattern becomes, behind '#', a hex colour whose digits are that text |
| Inputs.JsRem | app.js:329 | `%` truncates: the remainder is smaller than the divisor in size, takes the dividend's sign, and differs from the dividend by a multiple of the divisor |
| Inputs.NormalizeAngle | app.js:329 | the normalised angle lies in [0, 360) and is the mathematical remainder mod 360 |
| Inputs.NormalizeAngleIdempotent | app.js:329 | normalising twice is normalising once |
| Inputs.NormalizeAngleKeepsRange | app.js:329 | an angle already in [0, 360) is unchanged |
| Inputs.ClampPosition | app.js:289 | `max(0, min(100, p))` lies in 0..100, keeps p in range, and maps below to 0 and above to 100 |
| Stops.Insert | app.js:216 | one insertion step of the sort adds exactly x to the list |
| Stops.InsertKeepsSorted | app.js:216 | inserting into a sorted list keeps it sorted |
| Stops.SortByPosition | app.js:215-217 | the sort is a permutation of the list in non-decreasing position order |
| Stops.SortIsStable | app.js:215-217 | the stops at each position keep their relative order |
| Stops.InsertStable | app.js:216 | an insertion step puts x after every stop at its position |
| Stops.SortSortedIsIdentity | app.js:215-217 | sorting a sorted list changes nothing |
| Stops.SortKeepsIdsUnique | app.js:215-217 | sorting keeps the ids unique |
| Stops.PushThenSort | app.js:295-296 | pushing onto a sorted list and sorting inserts the stop after every stop at or before its position |
| Stops.PushFreshKeepsIdsUnique | app.js:295 | pushing a stop whose id is new keeps the ids unique |
| Stops.UpdateKeepsIdsUnique | app.js:138 | changing the fields of a found stop, but not its id, keeps the ids unique |
| Stops.FindStop | app.js:177-179 | `find` by id returns the first index holding the id, and none exactly when no stop holds it |
| Stops.FindUniqueId | app.js:177-179 | with unique ids, the lookup of a stop's id finds that stop |
| Stops.WithoutId | app.js:208 | `filter(s => s.id !== id)`; its promises are `WithoutIdAppend`, `WithoutAbsentId`, `WithoutIdRemovesOne` and `RemoveAtKeepsOrder` |
| Stops.WithoutIdAppend | app.js:208 | `filter` distributes over concatenation |
| Stops.WithoutAbsentId | app.js:208 | filtering out an id no stop holds changes nothing |
| Stops.WithoutIdRemovesOne | app.js:208 | with unique ids, filtering out the id at i removes exactly stop i and keeps the rest in order |
| Stops.RemoveAtKeepsOrder | app.js:208 | removing one stop keeps the list sorted, keeps the ids unique and adds no stop |
| Stops.IdNumberOfStopId | app.js:291 | the id `'stop_' + n` reads back as n |
| Stops.FreshStopId | app.js:290-291 | an id minted from a counter above every existing id number differs from all existing ids |
| Interpolation.FirstBracketFrom | app.js:306-312 | the first index from i whose pair of neighbours encloses pct, or none when no pair does |
| Interpolation.Bracket | app.js:304-312 | the chosen pair is two indices of the list in order; which pair is `BracketIsFirstEnclosing`, and that it encloses a position within the span is `BracketEncloses` |
| Interpolation.BracketIsFirstEnclosing | app.js:304-312 | the pair the scan settles on is (k, k + 1) for the first k whose neighbours enclose the position, and the first and last stops when no pair does |
| Interpolation.ScanBracket | app.js:304-312 | the loop with its `break` ends on the pair `Bracket` names |
| Interpolation.InterpolateColorAtPos | app.js:302-322 | the handler's result is `InterpolatedColor` of the stops and the position |
| Interpolation.RoundDiv | app.js:318-320 | `Math.round(n / d)`: 2n lies in [d(2q - 1), d(2q + 1)) |
| Interpolation.RoundDivExact | app.js:318-320 | rounding an exact quotient gives it back |
| Interpolation.RoundDivBetween | app.js:318-320 | rounding a quotient between two integers stays between them |
| Interpolation.LerpChannel | app.js:318-320 | one channel at the position; its promises are `LerpBetween`, `LerpAtLeft` and `LerpAtRight` |
| Interpolation.ColorBetween | app.js:313-321 | the colour between two stops; its promises are `ColorBetweenStaysBetween`, `ColorAtRightStop`, `ZeroWidthBracketKeepsColorText` and `ClampedBetweenAgrees` |
| Interpolation.InterpolatedColor | app.js:302-322 | `interpolateColorAtPos`; its promises are `InterpolationStaysBetween`, `InterpolationAtStop`, `ClampedAgreesWhenHex`, and on the finding's input `ExtrapolationLeavesByteRange` |
| Interpolation.LerpBetween | app.js:315-320 | inside the bracket each interpolated channel lies between the two stops' channels |
| Interpolation.LerpAtLeft | app.js:315-320 | at the left stop's position a channel equals the left channel |
| Interpolation.LerpAtRight | app.js:315-320 | at the right stop's position a channel equals the right channel |
| Interpolation.FirstBracketIs | app.js:306-312 | the scan stops at the first enclosing pair |
| Interpolation.EnclosingPairExists | app.js:306-312 | in a sorted list, a position within the span is enclosed by some pair of neighbours |
| Interpolation.BracketEncloses | app.js:304-312 | for a position within the span, the chosen pair encloses it |
| Interpolation.ColorBetweenStaysBetween | app.js:313-321 | between two enclosing stops the colour is a hex colour whose channels lie between theirs |
| Interpolation.InterpolationStaysBetween | app.js:302-322 | within the span the result is a hex colour whose every channel lies between the bracketing stops' channels |
| Interpolation.ColorAtFirstStop | app.js:302-322 | at the first stop's position the result has that stop's channels |
| Interpolation.LaterStopBracket | app.js:304-312 | when a later stop k is the first at its position, the scan settles on the pair (k - 1, k) |
| Interpolation.ColorAtRightStop | app.js:313-321 | at the right stop's position, two stops at different positions give the right stop's channels |
| Interpolation.ColorAtLaterStop | app.js:302-322 | at the position of a later stop, the first one there, the result has that stop's channels |
| Interpolation.SortedColorAtStop | app.js:302-322 | on a sorted list, at a position held by a stop the result has the channels of the first stop there |
| Interpolation.InterpolationAtStop | app.js:302-322 | at a position held by a stop the result has the channels of the first stop there |
| Interpolation.ZeroWidthFirstPair | app.js:306-314 | when two stops share the first position, the scan settles on a zero-width pair |
| Interpolation.SortedStartsAtLowest | app.js:303 | when no stop lies below p, the sorted copy starts with the first stop at p |
| Interpolation.ZeroWidthBracketKeepsColorText | app.js:313-314 | a zero-width bracket returns the left colour's text as it is, without re-encoding it |
| Interpolation.ExtrapolationChannels | app.js:302-322 | black at 50 and red at 100, at position 0, extrapolate to channels (-255, 0, 0) |
| Interpolation.MinusRedText | app.js:581-583 | `rgbToHex(-255, 0, 0)` is "#-ff0000", which is not a hex colour |
| Interpolation.ExtrapolationLeavesByteRange | app.js:302-322 | the same input makes `interpolateColorAtPos` return "#-ff0000" |
| Interpolation.ClampByte | app.js:318-320 | the corrected channel is a byte, equal to the channel when that is one, else 0 or 255 |
| Interpolation.ColorBetweenClamped | app.js:313-321 | the corrected colour between two stops is always a hex colour |
| Interpolation.InterpolatedColorClamped | app.js:302-322 | the corrected interpolation is a hex colour at every position |
| Interpolation.ProposeStopColor | app.js:302-322 | the corrected scan returns `InterpolatedColorClamped` and a hex colour |
| Interpolation.ClampedBetweenAgrees | app.js:313-321 | the correction changes a colour exactly when the written one is not a hex colour |
| Interpolation.ClampedAgreesWhenHex | app.js:302-322 | corrected and written interpolation agree exactly when the written one is a hex colour |
| Interpolation.ClampedAgreesWithinSpan | app.js:302-322 | within the stop span the correction changes nothing |
| Interpolation.ClampedExtrapolationIsBlack | app.js:302-322 | on the input of the finding, the corrected colour is black |
| Css.SortKeepsRenderable | app.js:368 | the sorted copy still has hex colours and opacities in 0..100 |
| Css.Alpha | app.js:370 | `(o / 100).toFixed(2)` is a digit, '.', two digits, whose value read back is o hundredths |
| Css.AlphaInjective | app.js:370 | different opacities give different alpha texts |
| Css.StopPart | app.js:369-373 | one stop's part; `StopPartInjective` says it determines the stop's channels, opacity and position, and `IndigoPart` and `PurplePart` spell two out |
| Css.StopPartInjective | app.js:369-373 | a part determines its stop: two stops whose parts are equal have the same channels, opacity and position |
| Css.GradientParts | app.js:368-373 | the parts of the sorted copy joined by ", "; its promises are `GradientCssOfSortedCopy` and `TwoSortedParts` |
| Css.BuildGradientCss | app.js:367-378 | `buildGradientCss`; its promises are `RadialIgnoresAngle`, `GradientCssOfSortedCopy`, `TrackSharesGradientParts`, `LinearOfTwo` and `DefaultGradientExample` |
| Css.BuildLinearForTrack | app.js:248-256 | `buildLinearForTrack`; `TrackSharesGradientParts` says it is the linear gradient with the `to right` head |
| Css.BuildSingleColorCss | app.js:380-387 | `buildSingleColorCss`; its promises are `OpaqueSingleColorIsStored`, `TranslucentSingleColor` and `SingleColorExamples` |
| Css.BuildColorValue | app.js:389-391 | the gradient in mode "gradient", the flat colour otherwise; what each mode ignores is `ColorValueIgnoresGradientState` and `ColorValueIgnoresSingleState` |
| Css.ColorValueIgnoresGradientState | app.js:389-391 | in any mode but "gradient" the colour value does not depend on the stops, the gradient type or the angle |
| Css.ColorValueIgnoresSingleState | app.js:389-391 | in mode "gradient" the colour value does not depend on the single colour or its opacity |
| Css.OpaqueSingleColorIsStored | app.js:380-387 | at full opacity the flat colour is the stored colour text, unchanged |
| Css.TranslucentSingleColor | app.js:380-387 | below full opacity the flat colour starts with `rgba(`, ends with `, ` and the alpha of the opacity and `)`, and differs from the stored text |
| Css.CssSnippet | app.js:405-482 | the switch of `applyPreview`; its promises are `SnippetFramesValue` and `BackgroundModesAgree` |
| Css.SnippetFramesValue | app.js:405-481 | every known preview mode wraps the colour value between a fixed head and tail; an unknown mode gives "" |
| Css.BackgroundModesAgree | app.js:406-430 | "bg", "button-bg" and "card" give the same snippet: `background:` for a gradient, `background-color:` otherwise |
| Css.InfobarText | app.js:487 | the value when at most 70 long, otherwise its first 70 characters and '…' |
| Css.RadialIgnoresAngle | app.js:374-376 | the radial gradient does not depend on the angle |
| Css.GradientCssOfSortedCopy | app.js:367-378 | the gradient of an already sorted copy is the same gradient |
| Css.TrackSharesGradientParts | app.js:248-256 | the track is the linear gradient with its head `linear-gradient(<angle>deg, ` replaced by `linear-gradient(to right, `; the rest is shared |
| Css.TwoSortedParts | app.js:368-373 | two stops in order give their two parts joined by ", " |
| Css.LinearOfTwo | app.js:367-378 | the linear gradient of two ordered stops spelled out |
| Css.IndigoPart | app.js:369-373 | the initial first stop's part is `rgba(99,102,241,1.00) 0%` |
| Css.PurplePart | app.js:369-373 | the initial second stop's part is `rgba(168,85,247,1.00) 100%` |
| Css.DefaultGradientExample | app.js:367-378 | the initial stops at 90 degrees give the linear gradient of those two parts |
| Css.SingleColorExamples | app.js:380-387 | the initial colour at half opacity is `rgba(99, 102, 241, 0.50)`; at full opacity it is the hex as stored |
| Studio.StoreStopsRenderable | app.js:17-22 | the store's stops can be interpolated and written as CSS |
| Studio.MintedIdIsFresh | app.js:290-291 | the id minted from the next counter value belongs to no stop |
| Studio.AddKeepsInvariant | app.js:290-296 | pushing a well formed stop with the minted id, then sorting, keeps the store invariant for the new counter |
| Studio.NewStopKeepsInvariant | app.js:290-296 | the list the click handler leaves keeps the store invariant for the new counter |
| Studio.AddedStopFacts | app.js:290-296 | the new id is fresh; the list grows by one, by the new stop only; the new stop goes after every stop at its position; its id finds it |
| Studio.FoundById | app.js:177-179 | with unique ids, a stop of the list is the one its id finds |
| Studio.InitialIds | app.js:18-22 | the initial ids are stop_1 and stop_2, within the counter 2 |
| Studio.TwoStopsInvariant | app.js:17-22 | two well formed stops in order with different ids make a valid store |
| Studio.InitialStoreValid | app.js:6-26 | the initial stops satisfy the store invariant |
| Studio.RemoveKeepsInvariant | app.js:206-208 | removing one of more than two stops keeps the invariant |
| Studio.FilterKeepsInvariant | app.js:206-208 | with more than two stops, the filter removes exactly the stop the id finds, or nothing, and keeps the invariant |
| Studio.MoveKeepsInvariant | app.js:158-166 | moving one stop to a position in 0..100 and sorting keeps the invariant |
| Studio.ReplaceKeepsInvariant | app.js:135-174 | changing the colour or opacity of one stop, keeping its id and position, keeps the invariant |
| Studio.Studio.constructor | app.js:6-26 | the initial state, and it is valid |
| Studio.Studio.ActiveIndex | app.js:177-179 | `getActiveStop`: the index of the first stop with the active id, none exactly when no stop has it |
| Studio.Studio.SelectStop | app.js:181-184 | the active id is set even when no stop carries it |
| Studio.Studio.SortStops | app.js:215-217 | the stops become the stable sort of the old stops; on a valid store, which is sorted already, the stops are unchanged and `Valid()` still holds |
| Studio.Studio.AddStopAt | app.js:284-300 | the counter grows by one; the active id is the minted one; the new stop at the clamped position, with the corrected colour, is pushed and the list sorted |
| Studio.Studio.AddStop | app.js:290-296 | the counter grows by one; the active id is `'stop_' + counter`; the stops are the old stops with the new opaque stop pushed and sorted |
| Studio.Studio.RemoveActiveStop | app.js:206-213 | refused at two stops or fewer; otherwise the active stop is removed, the rest keep their order, and the first stop left becomes active |
| Studio.Studio.MoveStop | app.js:158-166 | the stop with the id gets the new position and the list is re-sorted; an unknown id changes nothing |
| Studio.Studio.SetActivePosition | app.js:158-166 | the position slider moves the active stop and re-sorts |
| Studio.Studio.DragStopTo | app.js:259-267 | dragging moves the stop to the clamped percentage and re-sorts |
| Studio.Studio.UpdateActive | app.js:135-174 | the active stop is replaced when there is one; otherwise nothing changes |
| Studio.Studio.SetActiveColor | app.js:136-144 | the colour picker changes only the active stop's colour |
| Studio.Studio.EditActiveHex | app.js:146-157 | the hex field sets the active stop's colour to '#' and the trimmed text exactly when the text is six hex digits; otherwise nothing changes |
| Studio.Studio.SetActiveOpacity | app.js:168-174 | the opacity slider changes only the active stop's opacity |
| Studio.Studio.SetSingleColor | app.js:109-114 | the single colour becomes the picker's value |
| Studio.Studio.EditSingleHex | app.js:116-124 | the single colour becomes '#' and the trimmed text exactly when the text is six hex digits; otherwise it is unchanged |
| Studio.Studio.SetSingleOpacity | app.js:126-130 | the single opacity becomes the slider's value |
| Studio.Studio.EditAngle | app.js:327-334 | a number is normalised into [0, 360); NaN leaves the angle unchanged |
| Studio.Studio.DragAngle | app.js:351-353 | the wheel's rounded angle is normalised into [0, 360) |
| Studio.Studio.SetMode | app.js:74-75 | the mode becomes the given value |
| Studio.Studio.SetGradientType | app.js:83-84 | the gradient type becomes the given value |
| Studio.Studio.SetPreviewMode | app.js:91-92 | the preview mode becomes the given value |
| Studio.Studio.ApplyPreview | app.js:394-487 | lastCss is the snippet for the preview mode and the colour value; the info bar text is returned |

## Left out

- The DOM is not modelled. This covers element lookups, class toggles, swatch and input
  updates, HTML templates in `applyPreview`, stop-dot rendering and `init`. These are
  presentation only; `applyPreview` keeps just its snippet table.
- Fullscreen cloning, clipboard copy, toast timers, theme toggle with `localStorage`, and
  slider fill styling are not modelled. They are browser I/O and cosmetic.
- The mouse and touch geometry is not modelled: `getBoundingClientRect`, the `clientX` division, and
  `Math.atan2` with `Math.round` on the wheel. These are floating point. The handlers take the
  already rounded integer (`DragStopTo`, `AddStopAt`, `DragAngle`).
- Studio.Studio.EditAngle: takes parseInt's result as an option (none for NaN). Parsing the field text is not modelled.
- Floating point rounding in `interpolateColorAtPos` is not modelled. t is an exact rational, so
  results at exact half-way points may differ from IEEE doubles.
- `parseInt` on malformed hex is not modelled (NaN, partial prefix parse). `HexToRgb` requires a
  hex colour. The picker values and the gated text fields only ever supply hex colours. In the
  model every stored colour is one, because `AddStopAt` uses the corrected interpolation (see
  Findings). The application as written can also store "#-ff0000".
- Studio.Studio.SetActivePosition: requires 0..100, the slider's range. The range is set in
  `index.html`, which is not part of this model. SetActiveOpacity, SetSingleOpacity and AddStop require it likewise.
- Studio.Studio.SetActiveColor: requires a hex colour, which is what a colour picker delivers. SetSingleColor likewise.
- Studio.Studio.MoveStop: re-sorts in the same step instead of calling `SortStops`. The new state is the same.
- Studio.Studio.ApplyPreview: does not restate `Valid()`. `Valid()` does not read `lastCss`, so
  the modifies frame carries it over.
- Studio.Studio.DragStopTo: the drag handler holds the stop object itself, while the model finds the
  stop by id. Ids are unique, so it is the same stop.
- The handlers do not call `renderGradientTrack` or `applyPreview` at their end. `renderGradientTrack`
  only redraws. `applyPreview` also assigns `lastCss` (app.js:485), and the application calls it
  after every edit. In the model each handler leaves `lastCss` unchanged, and only a separate
  `ApplyPreview` call brings it up to date. The copy action recomputes the snippet before
  reading it (app.js:545-546), so the stale value is never shown.
- Studio.Studio.AddStopAt: uses the corrected interpolation (see Findings). The handler as
  written can store a colour that is not a hex colour.

## Findings

| source | as written | input that shows it | evidently intended | confidence | as-written member | corrected member |
|---|---|---|---|---|---|---|
| app.js:302-322 | outside the first..last span the scan falls back to the first and last stops and extrapolates with t < 0 or t > 1; the channels leave 0..255 and `rgbToHex` writes a sign or a third digit | stops black at 50 and red at 100; a click on the track at 0 gives the red channel -255 and the colour "#-ff0000", which the new stop then stores | channels kept within 0..255, so the proposed colour is a hex colour | high; not executed | Interpolation.ExtrapolationLeavesByteRange | Interpolation.InterpolatedColorClamped |
