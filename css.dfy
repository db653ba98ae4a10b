/** The CSS the application writes: the gradient value over the sorted stops,
    the flat colour value, the snippet for each preview mode and the text of
    the info bar. All of them are pure functions of the studio state. */
module Css {
  import opened Text
  import opened ColorCodec
  import opened Stops

  /** A stop the CSS writers can render: a hex colour and an opacity in 0..100. */
  predicate Renderable(y: Stop) {
    IsHexColor(y.color) && 0 <= y.opacity <= 100
  }

  predicate AllRenderable(stops: seq<Stop>) {
    forall y :: y in stops ==> Renderable(y)
  }

  lemma SortKeepsRenderable(stops: seq<Stop>)
    requires AllRenderable(stops)
    ensures AllRenderable(SortByPosition(stops))
  {
    forall y | y in SortByPosition(stops) ensures Renderable(y) {
      assert y in multiset(stops);
    }
  }

  /** (opacity / 100).toFixed(2) for an integer opacity in 0..100: one integer
      digit, a point and two decimals that together denote opacity / 100. */
  function Alpha(opacity: int): (a: string)
    requires 0 <= opacity <= 100
    ensures |a| == 4 && a[1] == '.' && IsDigit(a[0]) && IsDigit(a[2]) && IsDigit(a[3])
    ensures 100 * DigitValue(a[0]) + 10 * DigitValue(a[2]) + DigitValue(a[3]) == opacity
  {
    NatToString(opacity / 100) + "." + [DigitChar(opacity % 100 / 10), DigitChar(opacity % 10)]
  }

  /** Distinct opacities are written differently. */
  lemma AlphaInjective(x: int, y: int)
    requires 0 <= x <= 100 && 0 <= y <= 100 && Alpha(x) == Alpha(y)
    ensures x == y
  {
    var a, b := Alpha(x), Alpha(y);
    assert a[0] == b[0] && a[2] == b[2] && a[3] == b[3];
  }

  /** One gradient part: `rgba(r,g,b,a) p%`, without spaces inside the brackets. */
  function StopPart(y: Stop): string
    requires Renderable(y)
  {
    var c := HexToRgb(y.color);
    "rgba(" + IntToString(c.r) + "," + IntToString(c.g) + "," + IntToString(c.b) + ","
      + Alpha(y.opacity) + ") " + IntToString(y.position) + "%"
  }

  /** sorted.map(...): one part per stop, in the order given. */
  function StopParts(s: seq<Stop>): (parts: seq<string>)
    requires AllRenderable(s)
    ensures |parts| == |s| && forall i :: 0 <= i < |s| ==> parts[i] == StopPart(s[i])
  {
    seq(|s|, i requires 0 <= i < |s| => StopPart(s[i]))
  }

  /** A part names its stop's channels, opacity and position unambiguously:
      two stops written alike agree on all three. */
  lemma StopPartInjective(x: Stop, y: Stop)
    requires Renderable(x) && Renderable(y) && StopPart(x) == StopPart(y)
    ensures HexToRgb(x.color) == HexToRgb(y.color)
    ensures x.opacity == y.opacity && x.position == y.position
  {
    var cx, cy := HexToRgb(x.color), HexToRgb(y.color);
    var rX, gX, bX, aX, pX := IntToString(cx.r), IntToString(cx.g), IntToString(cx.b),
                              Alpha(x.opacity), IntToString(x.position);
    var rY, gY, bY, aY, pY := IntToString(cy.r), IntToString(cy.g), IntToString(cy.b),
                              Alpha(y.opacity), IntToString(y.position);
    var uX := PartAfterHead(rX, gX, bX, aX, pX, StopPart(x));
    var uY := PartAfterHead(rY, gY, bY, aY, pY, StopPart(y));
    SplitAtJoin("rgba(", uX);
    SplitAtJoin("rgba(", uY);
    IntToStringLacks(cx.r, ','); IntToStringLacks(cy.r, ',');
    IntToStringLacks(cx.g, ','); IntToStringLacks(cy.g, ',');
    IntToStringLacks(cx.b, ','); IntToStringLacks(cy.b, ',');
    var tX, tY := aX + (") " + (pX + "%")), aY + (") " + (pY + "%"));
    var bpX, bpY := bX + ("," + tX), bY + ("," + tY);
    var gpX, gpY := gX + ("," + bpX), gY + ("," + bpY);
    ReadField(rX, gpX, rY, gpY);
    ReadField(gX, bpX, gY, bpY);
    ReadField(bX, tX, bY, tY);
    SameLengthCut(aX, ") " + (pX + "%"), aY, ") " + (pY + "%"));
    SameLengthCut(") ", pX + "%", ") ", pY + "%");
    SameLengthCut(pX, "%", pY, "%");
    IntToStringInjective(cx.r, cy.r);
    IntToStringInjective(cx.g, cy.g);
    IntToStringInjective(cx.b, cy.b);
    IntToStringInjective(x.position, y.position);
    AlphaInjective(x.opacity, y.opacity);
  }

  /** A part regrouped to the right: what follows its "rgba(" head. */
  lemma PartAfterHead(r: string, g: string, b: string, a: string, p: string, v: string)
      returns (u: string)
    requires v == "rgba(" + r + "," + g + "," + b + "," + a + ") " + p + "%"
    ensures u == r + ("," + (g + ("," + (b + ("," + (a + (") " + (p + "%"))))))))
    ensures v == "rgba(" + u
  {
    u := r + ("," + (g + ("," + (b + ("," + (a + (") " + (p + "%"))))))));
  }

  /** Two texts that each start with a field free of ',' and then a ',' agree
      on the field and on what follows the ','. */
  lemma ReadField(f1: string, r1: string, f2: string, r2: string)
    requires ',' !in f1 && ',' !in f2
    requires f1 + ("," + r1) == f2 + ("," + r2)
    ensures f1 == f2 && r1 == r2
  {
    var t1, t2 := f1 + ("," + r1), f2 + ("," + r2);
    assert t1[|f1|] == ',' && t2[|f2|] == ',';
    assert forall i :: 0 <= i < |f1| ==> t1[i] != ',';
    assert forall i :: 0 <= i < |f2| ==> t2[i] != ',';
    SameLengthCut(f1, "," + r1, f2, "," + r2);
    SameLengthCut(",", r1, ",", r2);
  }

  /** Two joins whose first halves have the same length agree half by half. */
  lemma SameLengthCut(a1: string, b1: string, a2: string, b2: string)
    requires |a1| == |a2| && a1 + b1 == a2 + b2
    ensures a1 == a2 && b1 == b2
  {
    SplitAtJoin(a1, b1);
    SplitAtJoin(a2, b2);
  }

  /** The stop list of every gradient: the parts of a sorted copy, joined by ", ". */
  function GradientParts(stops: seq<Stop>): string
    requires AllRenderable(stops)
  {
    SortKeepsRenderable(stops);
    Join(StopParts(SortByPosition(stops)), ", ")
  }

  /** buildGradientCss: a radial gradient for the type "radial", a linear one at
      the angle for every other type. */
  function BuildGradientCss(stops: seq<Stop>, gradientType: string, angle: int): string
    requires AllRenderable(stops)
  {
    if gradientType == "radial" then "radial-gradient(circle, " + GradientParts(stops) + ")"
    else "linear-gradient(" + IntToString(angle) + "deg, " + GradientParts(stops) + ")"
  }

  /** buildLinearForTrack: the same parts, always left to right. */
  function BuildLinearForTrack(stops: seq<Stop>): string
    requires AllRenderable(stops)
  {
    "linear-gradient(to right, " + GradientParts(stops) + ")"
  }

  /** buildSingleColorCss: below full opacity, `rgba(r, g, b, a)` with spaces;
      at full opacity the stored colour text itself. */
  function BuildSingleColorCss(color: string, opacity: int): string
    requires IsHexColor(color) && 0 <= opacity <= 100
  {
    var c := HexToRgb(color);
    if opacity < 100 then
      "rgba(" + IntToString(c.r) + ", " + IntToString(c.g) + ", " + IntToString(c.b) + ", "
        + Alpha(opacity) + ")"
    else color
  }

  /** buildColorValue: the gradient in mode "gradient", the flat colour otherwise. */
  function BuildColorValue(mode: string, gradientType: string, angle: int, stops: seq<Stop>,
                           singleColor: string, singleOpacity: int): (v: string)
    requires mode == "gradient" ==> AllRenderable(stops)
    requires mode != "gradient" ==> IsHexColor(singleColor) && 0 <= singleOpacity <= 100
    ensures mode == "gradient" ==> v == BuildGradientCss(stops, gradientType, angle)
    ensures mode != "gradient" ==> v == BuildSingleColorCss(singleColor, singleOpacity)
  {
    if mode == "gradient" then BuildGradientCss(stops, gradientType, angle)
    else BuildSingleColorCss(singleColor, singleOpacity)
  }

  // The snippet applyPreview shows and copies for each preview mode.

  predicate IsPreviewMode(m: string) {
    m == "bg" || m == "button-bg" || m == "text" || m == "border" || m == "card"
  }

  function CssSnippet(previewMode: string, colorVal: string, isGrad: bool): string
  {
    match previewMode
    case "bg" => if isGrad then "background: " + colorVal + ";" else "background-color: " + colorVal + ";"
    case "button-bg" => if isGrad then "background: " + colorVal + ";" else "background-color: " + colorVal + ";"
    case "text" =>
      if isGrad then "background: " + colorVal + ";\n-webkit-background-clip: text;\n-webkit-text-fill-color: transparent;"
      else "color: " + colorVal + ";"
    case "border" =>
      if isGrad then "border: 3px solid transparent;\nborder-image: " + colorVal + " 1;"
      else "border: 3px solid " + colorVal + ";"
    case "card" => if isGrad then "background: " + colorVal + ";" else "background-color: " + colorVal + ";"
    case _ => ""
  }

  /** The declaration text before the value, per mode and kind of value. */
  function SnippetHead(previewMode: string, isGrad: bool): string
    requires IsPreviewMode(previewMode)
  {
    if previewMode == "text" then (if isGrad then "background: " else "color: ")
    else if previewMode == "border" then
      (if isGrad then "border: 3px solid transparent;\nborder-image: " else "border: 3px solid ")
    else if isGrad then "background: " else "background-color: "
  }

  /** The declaration text after the value, per mode and kind of value. */
  function SnippetTail(previewMode: string, isGrad: bool): string
    requires IsPreviewMode(previewMode)
  {
    if previewMode == "text" && isGrad then ";\n-webkit-background-clip: text;\n-webkit-text-fill-color: transparent;"
    else if previewMode == "border" && isGrad then " 1;"
    else ";"
  }

  /** In every known preview mode the snippet is the colour value, written
      once and unaltered, between a head and a tail that depend only on the
      mode and on whether the value is a gradient; an unknown mode gives "". */
  lemma SnippetFramesValue(previewMode: string, colorVal: string, isGrad: bool)
    ensures IsPreviewMode(previewMode) ==>
      CssSnippet(previewMode, colorVal, isGrad)
        == SnippetHead(previewMode, isGrad) + colorVal + SnippetTail(previewMode, isGrad)
    ensures !IsPreviewMode(previewMode) ==> CssSnippet(previewMode, colorVal, isGrad) == ""
  {
  }

  /** The three background modes write the same declaration; a flat colour is
      written as background-color, a gradient as background. */
  lemma BackgroundModesAgree(colorVal: string, isGrad: bool)
    ensures CssSnippet("bg", colorVal, isGrad) == CssSnippet("button-bg", colorVal, isGrad)
      == CssSnippet("card", colorVal, isGrad)
    ensures CssSnippet("bg", colorVal, isGrad)
      == (if isGrad then "background: " else "background-color: ") + colorVal + ";"
  {
  }

  /** The info bar: the first 70 characters of the value, and an ellipsis
      when anything was cut off. */
  function InfobarText(colorVal: string): (t: string)
    ensures |colorVal| <= 70 ==> t == colorVal
    ensures |colorVal| > 70 ==> |t| == 71 && t[..70] == colorVal[..70] && t[70] == '\U{2026}'
  {
    if |colorVal| > 70 then colorVal[..70] + "\U{2026}" else colorVal
  }

  // Properties of the writers.

  /** The radial gradient does not depend on the angle. */
  lemma RadialIgnoresAngle(stops: seq<Stop>, a1: int, a2: int)
    requires AllRenderable(stops)
    ensures BuildGradientCss(stops, "radial", a1) == BuildGradientCss(stops, "radial", a2)
  {
  }

  /** The writers sort a copy first, so the order the stops are kept in does not
      matter once they are sorted: writing a sorted copy gives the same text. */
  lemma GradientCssOfSortedCopy(stops: seq<Stop>, gradientType: string, angle: int)
    requires AllRenderable(stops)
    ensures AllRenderable(SortByPosition(stops))
    ensures BuildGradientCss(SortByPosition(stops), gradientType, angle)
      == BuildGradientCss(stops, gradientType, angle)
  {
    SortKeepsRenderable(stops);
    SortSortedIsIdentity(SortByPosition(stops));
  }

  /** The track preview is the linear gradient with its angle head
      `linear-gradient(<angle>deg, ` replaced by `linear-gradient(to right, `:
      everything after the head, the parts and the closing bracket, is shared. */
  lemma TrackSharesGradientParts(stops: seq<Stop>, gradientType: string, angle: int)
    requires AllRenderable(stops) && gradientType != "radial"
    ensures var g := BuildGradientCss(stops, gradientType, angle);
      var head := "linear-gradient(" + IntToString(angle) + "deg, ";
      |head| <= |g| && g[..|head|] == head
      && BuildLinearForTrack(stops) == "linear-gradient(to right, " + g[|head|..]
  {
    var head := "linear-gradient(" + IntToString(angle) + "deg, ";
    var parts := GradientParts(stops);
    AppendRegroup(head, parts, ")");
    SplitAtJoin(head, parts + ")");
    AppendRegroup("linear-gradient(to right, ", parts, ")");
  }

  /** (a + b) + c regrouped as a + (b + c). */
  lemma AppendRegroup(a: string, b: string, c: string)
    ensures a + b + c == a + (b + c)
  {
  }

  /** The two halves of a concatenation are recovered by slicing at the seam. */
  lemma SplitAtJoin(a: string, b: string)
    ensures (a + b)[..|a|] == a && (a + b)[|a|..] == b
  {
  }

  /** The flat colour written as a value: in any mode but "gradient" the stops,
      the gradient type and the angle play no part. */
  lemma ColorValueIgnoresGradientState(mode: string, singleColor: string, singleOpacity: int,
                                       t1: string, a1: int, s1: seq<Stop>,
                                       t2: string, a2: int, s2: seq<Stop>)
    requires mode != "gradient" && IsHexColor(singleColor) && 0 <= singleOpacity <= 100
    ensures BuildColorValue(mode, t1, a1, s1, singleColor, singleOpacity)
      == BuildColorValue(mode, t2, a2, s2, singleColor, singleOpacity)
  {
  }

  /** The gradient written as a value: in mode "gradient" the single colour and
      its opacity play no part. */
  lemma ColorValueIgnoresSingleState(gradientType: string, angle: int, stops: seq<Stop>,
                                     c1: string, o1: int, c2: string, o2: int)
    requires AllRenderable(stops)
    ensures BuildColorValue("gradient", gradientType, angle, stops, c1, o1)
      == BuildColorValue("gradient", gradientType, angle, stops, c2, o2)
  {
  }

  /** At full opacity the flat colour is the stored text, unchanged. */
  lemma OpaqueSingleColorIsStored(color: string)
    requires IsHexColor(color)
    ensures BuildSingleColorCss(color, 100) == color
  {
  }

  /** Below full opacity the flat colour is an rgba() value ending in the alpha
      of the opacity, so it never equals the stored hex text. */
  lemma TranslucentSingleColor(color: string, opacity: int)
    requires IsHexColor(color) && 0 <= opacity < 100
    ensures var v := BuildSingleColorCss(color, opacity);
      var tail := ", " + Alpha(opacity) + ")";
      |v| > 5 + |tail| && v[..5] == "rgba(" && v[|v| - |tail|..] == tail
    ensures BuildSingleColorCss(color, opacity) != color
  {
    var c := HexToRgb(color);
    RgbaShape(IntToString(c.r), IntToString(c.g), IntToString(c.b), Alpha(opacity),
              BuildSingleColorCss(color, opacity));
    HexColorStart(color);
  }

  /** The spaced rgba() text of the flat colour, between its fixed head and its alpha tail. */
  lemma RgbaShape(r: string, g: string, b: string, a: string, v: string)
    requires v == "rgba(" + r + ", " + g + ", " + b + ", " + a + ")"
    ensures var tail := ", " + a + ")";
      |v| > 5 + |tail| && v[..5] == "rgba(" && v[|v| - |tail|..] == tail && v[0] == 'r'
  {
    var front := "rgba(" + r + ", " + g + ", " + b;
    var tail := ", " + a + ")";
    RgbaRegroup(front, a);
    SplitAtJoin(front, tail);
    assert front[..5] == "rgba(";
  }

  lemma RgbaRegroup(front: string, a: string)
    ensures front + ", " + a + ")" == front + (", " + a + ")")
  {
  }

  /** Two parts, in the given order, are joined by one ", ". */
  lemma JoinTwo(a: string, b: string)
    ensures Join([a, b], ", ") == a + ", " + b
  {
    assert [a, b][1..] == [b];
  }

  // The worked examples of the two default colours.

  lemma IndigoChannels()
    ensures IsHexColor("#6366f1") && HexToRgb("#6366f1") == Rgb(99, 102, 241)
  {
    HashSix("6366f1");
  }

  lemma PurpleChannels()
    ensures IsHexColor("#a855f7") && HexToRgb("#a855f7") == Rgb(168, 85, 247)
  {
    HashSix("a855f7");
  }

  lemma IndigoText()
    ensures IntToString(99) == "99" && IntToString(102) == "102" && IntToString(241) == "241"
  {
    assert NatToString(10) == NatToString(1) + "0";
    assert NatToString(24) == NatToString(2) + "4";
  }

  lemma PurpleText()
    ensures IntToString(168) == "168" && IntToString(85) == "85" && IntToString(247) == "247"
  {
    assert NatToString(16) == NatToString(1) + "6";
    assert NatToString(24) == NatToString(2) + "4";
  }

  /** A stop's part spelled out from its channels. */
  lemma StopPartText(y: Stop, c: Rgb, r: string, g: string, b: string, a: string, p: string)
    requires Renderable(y) && HexToRgb(y.color) == c
    requires IntToString(c.r) == r && IntToString(c.g) == g && IntToString(c.b) == b
    requires Alpha(y.opacity) == a && IntToString(y.position) == p
    ensures StopPart(y) == "rgba(" + r + "," + g + "," + b + "," + a + ") " + p + "%"
  {
  }

  lemma FullAlpha()
    ensures Alpha(100) == "1.00"
  {
  }

  lemma IndigoPart()
    ensures Renderable(Stop("stop_1", "#6366f1", 0, 100))
    ensures StopPart(Stop("stop_1", "#6366f1", 0, 100)) == "rgba(99,102,241,1.00) 0%"
  {
    IndigoChannels();
    IndigoText();
    FullAlpha();
    StopPartText(Stop("stop_1", "#6366f1", 0, 100), Rgb(99, 102, 241), "99", "102", "241", "1.00", "0");
    IndigoPartText();
  }

  lemma IndigoPartText()
    ensures "rgba(" + "99" + "," + "102" + "," + "241" + "," + "1.00" + ") " + "0" + "%"
      == "rgba(99,102,241,1.00) 0%"
  {
  }

  lemma PurplePart()
    ensures Renderable(Stop("stop_2", "#a855f7", 100, 100))
    ensures StopPart(Stop("stop_2", "#a855f7", 100, 100)) == "rgba(168,85,247,1.00) 100%"
  {
    PurpleChannels();
    PurpleText();
    FullAlpha();
    HundredText();
    StopPartText(Stop("stop_2", "#a855f7", 100, 100), Rgb(168, 85, 247), "168", "85", "247", "1.00", "100");
    PurplePartText();
  }

  lemma HundredText()
    ensures IntToString(100) == "100"
  {
    assert NatToString(10) == NatToString(1) + "0";
  }

  lemma PurplePartText()
    ensures "rgba(" + "168" + "," + "85" + "," + "247" + "," + "1.00" + ") " + "100" + "%"
      == "rgba(168,85,247,1.00) 100%"
  {
  }

  /** Two renderable stops already in order are written in that order, one ", " apart. */
  lemma TwoSortedParts(a: Stop, b: Stop)
    requires Renderable(a) && Renderable(b) && a.position <= b.position
    ensures AllRenderable([a, b]) && GradientParts([a, b]) == StopPart(a) + ", " + StopPart(b)
  {
    assert AllRenderable([a, b]);
    SortSortedIsIdentity([a, b]);
    TwoParts(a, b);
    JoinTwo(StopPart(a), StopPart(b));
  }

  lemma TwoParts(a: Stop, b: Stop)
    requires Renderable(a) && Renderable(b)
    ensures AllRenderable([a, b]) && StopParts([a, b]) == [StopPart(a), StopPart(b)]
  {
    TwoRenderable(a, b);
    var p := StopParts([a, b]);
    assert p[0] == StopPart(a) && p[1] == StopPart(b);
    PairOf(p, StopPart(a), StopPart(b));
  }

  lemma TwoRenderable(a: Stop, b: Stop)
    requires Renderable(a) && Renderable(b)
    ensures AllRenderable([a, b])
  {
    var s := [a, b];
    assert forall y :: y in s ==> y == a || y == b;
  }

  lemma PairOf(p: seq<string>, x: string, y: string)
    requires |p| == 2 && p[0] == x && p[1] == y
    ensures p == [x, y]
  {
  }

  /** A linear gradient over two stops already in order. */
  lemma LinearOfTwo(a: Stop, b: Stop, angle: int)
    requires Renderable(a) && Renderable(b) && a.position <= b.position
    ensures AllRenderable([a, b])
    ensures BuildGradientCss([a, b], "linear", angle)
      == "linear-gradient(" + IntToString(angle) + "deg, " + (StopPart(a) + ", " + StopPart(b)) + ")"
  {
    TwoSortedParts(a, b);
  }

  /** The default two stops at 90 degrees. */
  lemma DefaultGradientExample()
    ensures var stops := [Stop("stop_1", "#6366f1", 0, 100), Stop("stop_2", "#a855f7", 100, 100)];
      AllRenderable(stops)
      && BuildGradientCss(stops, "linear", 90)
        == "linear-gradient(90deg, " + ("rgba(99,102,241,1.00) 0%" + ", " + "rgba(168,85,247,1.00) 100%") + ")"
  {
    var a, b := Stop("stop_1", "#6366f1", 0, 100), Stop("stop_2", "#a855f7", 100, 100);
    IndigoPart();
    PurplePart();
    LinearOfTwo(a, b, 90);
    NinetyText();
    LinearHead90();
  }

  lemma LinearHead90()
    ensures "linear-gradient(" + "90" + "deg, " == "linear-gradient(90deg, "
  {
  }

  lemma NinetyText()
    ensures IntToString(90) == "90"
  {
    assert NatToString(90) == NatToString(9) + [DigitChar(0)];
  }

  /** The default flat colour at half and at full opacity. */
  lemma SingleColorExamples()
    ensures IsHexColor("#6366f1")
    ensures BuildSingleColorCss("#6366f1", 50) == "rgba(99, 102, 241, 0.50)"
    ensures BuildSingleColorCss("#6366f1", 100) == "#6366f1"
  {
    IndigoChannels();
    IndigoText();
    assert Alpha(50) == "0.50";
    HalfIndigoText();
  }

  lemma HalfIndigoText()
    ensures "rgba(" + "99" + ", " + "102" + ", " + "241" + ", " + "0.50" + ")" == "rgba(99, 102, 241, 0.50)"
  {
  }
}
