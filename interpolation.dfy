/** The colour interpolateColorAtPos proposes for a new stop: the stops are
    sorted by position, the first pair of neighbours enclosing the position is
    found (the first and last stops when none does), and each channel is
    interpolated linearly and rounded with Math.round. Arithmetic is exact:
    t is a rational number and Math.round(x) is the floor of x + 1/2. */
module Interpolation {
  import opened Wrappers
  import opened ColorCodec
  import opened Stops

  /** The stops of the list carry colours hexToRgb can read. */
  predicate AllColorsValid(stops: seq<Stop>) {
    forall y :: y in stops ==> IsHexColor(y.color)
  }

  /** Stops i and i + 1 enclose the position pct. */
  predicate Encloses(s: seq<Stop>, pct: int, i: nat)
    requires i + 1 < |s|
  {
    s[i].position <= pct && s[i + 1].position >= pct
  }

  /** The scan of interpolateColorAtPos from index i on: the first enclosing pair. */
  function FirstBracketFrom(s: seq<Stop>, pct: int, i: nat): (r: Option<nat>)
    ensures r.Some? ==> i <= r.value && r.value + 1 < |s| && Encloses(s, pct, r.value)
    ensures r.Some? ==> forall k :: i <= k < r.value ==> !Encloses(s, pct, k)
    ensures r.None? ==> forall k :: i <= k && k + 1 < |s| ==> !Encloses(s, pct, k)
    decreases |s| - i
  {
    if i + 1 >= |s| then None
    else if Encloses(s, pct, i) then Some(i)
    else FirstBracketFrom(s, pct, i + 1)
  }

  /** The indices of the left and right stops the scan settles on. */
  function Bracket(s: seq<Stop>, pct: int): (b: (nat, nat))
    requires |s| > 0
    ensures b.0 <= b.1 < |s|
  {
    match FirstBracketFrom(s, pct, 0)
    case Some(i) => (i, i + 1)
    case None => (0, |s| - 1)
  }

  /** The pair the scan settles on: the first pair of neighbours enclosing
      pct, and the first and last stops when no pair does. */
  lemma BracketIsFirstEnclosing(s: seq<Stop>, pct: int)
    requires |s| > 0
    ensures forall k: nat ::
      (k + 1 < |s| && Encloses(s, pct, k) && forall j: nat :: j < k ==> !Encloses(s, pct, j))
        ==> Bracket(s, pct) == (k, k + 1)
    ensures (forall k: nat :: k + 1 < |s| ==> !Encloses(s, pct, k)) ==> Bracket(s, pct) == (0, |s| - 1)
  {
  }

  /** Math.round(n / d) for d > 0: the integer nearest n / d, halves rounded up. */
  function RoundDiv(n: int, d: int): (q: int)
    requires d > 0
    ensures d * (2 * q - 1) <= 2 * n < d * (2 * q + 1)
  {
    var q := (2 * n + d) / (2 * d);
    assert 2 * d * q <= 2 * n + d < 2 * d * q + 2 * d;
    q
  }

  /** One channel at pct, between a left stop at lp with value lc and a right
      stop at rp with value rc: Math.round(lc + (rc - lc) * t) with
      t = (pct - lp) / (rp - lp). */
  function LerpChannel(lc: int, rc: int, lp: int, rp: int, pct: int): int
    requires lp < rp
  {
    RoundDiv(lc * (rp - lp) + (rc - lc) * (pct - lp), rp - lp)
  }

  /** The colour between two stops: the left colour itself when both sit at the
      same position, otherwise each channel interpolated and written by rgbToHex. */
  function ColorBetween(left: Stop, right: Stop, pct: int): string
    requires left.position <= right.position
    requires IsHexColor(left.color) && IsHexColor(right.color)
  {
    var range := right.position - left.position;
    if range == 0 then left.color
    else
      var lc := HexToRgb(left.color);
      var rc := HexToRgb(right.color);
      RgbToHex(LerpChannel(lc.r, rc.r, left.position, right.position, pct),
               LerpChannel(lc.g, rc.g, left.position, right.position, pct),
               LerpChannel(lc.b, rc.b, left.position, right.position, pct))
  }

  /** interpolateColorAtPos as a function of the stop list and the position. */
  function InterpolatedColor(stops: seq<Stop>, pct: int): string
    requires |stops| > 0 && AllColorsValid(stops)
  {
    var sorted := SortByPosition(stops);
    var (li, ri) := Bracket(sorted, pct);
    assert sorted[li] in multiset(stops) && sorted[ri] in multiset(stops);
    ColorBetween(sorted[li], sorted[ri], pct)
  }

  /** The loop of interpolateColorAtPos over the sorted copy: the first pair of
      neighbours enclosing pct, or the first and last stops when none does. */
  method ScanBracket(sorted: seq<Stop>, pct: int) returns (left: Stop, right: Stop)
    requires |sorted| > 0
    ensures left == sorted[Bracket(sorted, pct).0] && right == sorted[Bracket(sorted, pct).1]
  {
    left := sorted[0];
    right := sorted[|sorted| - 1];
    var i := 0;
    while i < |sorted| - 1
      invariant 0 <= i <= |sorted| - 1
      invariant FirstBracketFrom(sorted, pct, 0) == FirstBracketFrom(sorted, pct, i)
      invariant left == sorted[0] && right == sorted[|sorted| - 1]
    {
      if sorted[i].position <= pct && sorted[i + 1].position >= pct {
        left := sorted[i];
        right := sorted[i + 1];
        break;
      }
      i := i + 1;
    }
  }

  /** interpolateColorAtPos as written: sorts a copy of the stops, scans it and
      interpolates between the pair it settles on. */
  method InterpolateColorAtPos(stops: seq<Stop>, pct: int) returns (color: string)
    requires |stops| > 0 && AllColorsValid(stops)
    ensures color == InterpolatedColor(stops, pct)
  {
    var sorted := SortByPosition(stops);
    var left, right := ScanBracket(sorted, pct);
    assert left in multiset(stops) && right in multiset(stops);
    color := ColorBetween(left, right, pct);
  }

  // The corrected interpolation: channels kept to bytes.

  /** Math.max(0, Math.min(255, v)). */
  function ClampByte(v: int): (b: int)
    ensures IsByte(b)
    ensures IsByte(v) ==> b == v
    ensures v < 0 ==> b == 0
    ensures v > 255 ==> b == 255
  {
    if v < 0 then 0 else if v > 255 then 255 else v
  }

  /** ColorBetween with every interpolated channel clamped to 0..255 before it
      is written: always a hex colour. */
  function ColorBetweenClamped(left: Stop, right: Stop, pct: int): (c: string)
    requires left.position <= right.position
    requires IsHexColor(left.color) && IsHexColor(right.color)
    ensures IsHexColor(c)
  {
    var range := right.position - left.position;
    if range == 0 then left.color
    else
      var lc := HexToRgb(left.color);
      var rc := HexToRgb(right.color);
      var r := ClampByte(LerpChannel(lc.r, rc.r, left.position, right.position, pct));
      var g := ClampByte(LerpChannel(lc.g, rc.g, left.position, right.position, pct));
      var b := ClampByte(LerpChannel(lc.b, rc.b, left.position, right.position, pct));
      RgbToHexRoundTrip(r, g, b);
      RgbToHex(r, g, b)
  }

  /** The corrected proposal for a new stop's colour: a hex colour at every position. */
  function InterpolatedColorClamped(stops: seq<Stop>, pct: int): (c: string)
    requires |stops| > 0 && AllColorsValid(stops)
    ensures IsHexColor(c)
  {
    var sorted := SortByPosition(stops);
    var (li, ri) := Bracket(sorted, pct);
    assert sorted[li] in multiset(stops) && sorted[ri] in multiset(stops);
    ColorBetweenClamped(sorted[li], sorted[ri], pct)
  }

  /** The corrected interpolateColorAtPos: the same scan, channels clamped. */
  method ProposeStopColor(stops: seq<Stop>, pct: int) returns (color: string)
    requires |stops| > 0 && AllColorsValid(stops)
    ensures color == InterpolatedColorClamped(stops, pct) && IsHexColor(color)
  {
    var sorted := SortByPosition(stops);
    var left, right := ScanBracket(sorted, pct);
    assert left in multiset(stops) && right in multiset(stops);
    color := ColorBetweenClamped(left, right, pct);
  }

  // Arithmetic facts about the rounding.

  lemma MulLeCancel(d: int, a: int, b: int)
    requires d > 0 && d * a <= d * b
    ensures a <= b
  {
  }

  lemma MulLtCancel(d: int, a: int, b: int)
    requires d > 0 && d * a < d * b
    ensures a < b
  {
  }

  /** Rounding a value that is already an integer gives that integer. */
  lemma RoundDivExact(c: int, d: int)
    requires d > 0
    ensures RoundDiv(c * d, d) == c
  {
    var q := RoundDiv(c * d, d);
    assert d * (2 * q - 1) <= d * (2 * c) < d * (2 * q + 1);
    MulLeCancel(d, 2 * q - 1, 2 * c);
    MulLtCancel(d, 2 * c, 2 * q + 1);
  }

  /** Rounding keeps a value between two integers between them. */
  lemma RoundDivBetween(n: int, d: int, lo: int, hi: int)
    requires d > 0 && d * lo <= n <= d * hi
    ensures lo <= RoundDiv(n, d) <= hi
  {
    var q := RoundDiv(n, d);
    assert d * (2 * q - 1) <= d * (2 * hi);
    MulLeCancel(d, 2 * q - 1, 2 * hi);
    assert d * (2 * lo) < d * (2 * q + 1);
    MulLtCancel(d, 2 * lo, 2 * q + 1);
  }

  predicate ChannelBetween(v: int, a: int, b: int) {
    (a <= v <= b) || (b <= v <= a)
  }

  predicate RgbBetween(c: Rgb, a: Rgb, b: Rgb) {
    ChannelBetween(c.r, a.r, b.r) && ChannelBetween(c.g, a.g, b.g) && ChannelBetween(c.b, a.b, b.b)
  }

  lemma ScaleBetween(a: int, t: int, d: int)
    requires a >= 0 && 0 <= t <= d
    ensures 0 <= a * t <= a * d
  {
  }

  /** The numerator of a rising channel lies between lc * d and rc * d. */
  lemma RisingNumerator(lc: int, rc: int, d: int, t: int)
    requires lc <= rc && 0 <= t <= d
    ensures d * lc <= lc * d + (rc - lc) * t <= d * rc
  {
    ScaleBetween(rc - lc, t, d);
    assert (rc - lc) * d == d * rc - d * lc;
  }

  /** The numerator of a falling channel lies between rc * d and lc * d. */
  lemma FallingNumerator(lc: int, rc: int, d: int, t: int)
    requires rc < lc && 0 <= t <= d
    ensures d * rc <= lc * d + (rc - lc) * t <= d * lc
  {
    ScaleBetween(lc - rc, t, d);
    assert (lc - rc) * d == d * lc - d * rc;
    assert (rc - lc) * t == -((lc - rc) * t);
  }

  /** Inside the bracket, t lies in [0, 1] and the channel stays between its ends. */
  lemma LerpBetween(lc: int, rc: int, lp: int, rp: int, pct: int)
    requires lp < rp && lp <= pct <= rp
    ensures ChannelBetween(LerpChannel(lc, rc, lp, rp, pct), lc, rc)
  {
    var d, t := rp - lp, pct - lp;
    if lc <= rc {
      RisingNumerator(lc, rc, d, t);
      RoundDivBetween(lc * d + (rc - lc) * t, d, lc, rc);
    } else {
      FallingNumerator(lc, rc, d, t);
      RoundDivBetween(lc * d + (rc - lc) * t, d, rc, lc);
    }
  }

  /** At the left stop's position the channel is the left value. */
  lemma LerpAtLeft(lc: int, rc: int, lp: int, rp: int)
    requires lp < rp
    ensures LerpChannel(lc, rc, lp, rp, lp) == lc
  {
    RoundDivExact(lc, rp - lp);
  }

  /** At the right stop's position the channel is the right value. */
  lemma LerpAtRight(lc: int, rc: int, lp: int, rp: int)
    requires lp < rp
    ensures LerpChannel(lc, rc, lp, rp, rp) == rc
  {
    var d := rp - lp;
    assert lc * d + (rc - lc) * d == rc * d;
    RoundDivExact(rc, d);
  }

  /** Sorting keeps every colour a hex colour. */
  lemma SortKeepsColorsValid(stops: seq<Stop>)
    requires AllColorsValid(stops)
    ensures AllColorsValid(SortByPosition(stops))
  {
    var s := SortByPosition(stops);
    forall y | y in s ensures IsHexColor(y.color) {
      assert y in multiset(stops);
    }
  }

  /** The proposed colour is the colour between the two stops of the bracket
      in the sorted list. */
  lemma InterpolatedIsBetweenBracket(stops: seq<Stop>, pct: int)
    requires |stops| > 0 && AllColorsValid(stops)
    ensures var s := SortByPosition(stops);
      AllColorsValid(s)
      && InterpolatedColor(stops, pct) == ColorBetween(s[Bracket(s, pct).0], s[Bracket(s, pct).1], pct)
  {
    SortKeepsColorsValid(stops);
  }

  lemma ClampedIsBetweenBracket(stops: seq<Stop>, pct: int)
    requires |stops| > 0 && AllColorsValid(stops)
    ensures var s := SortByPosition(stops);
      AllColorsValid(s)
      && InterpolatedColorClamped(stops, pct) == ColorBetweenClamped(s[Bracket(s, pct).0], s[Bracket(s, pct).1], pct)
  {
    SortKeepsColorsValid(stops);
  }

  // The bracket the scan finds.

  lemma {:induction false} FirstBracketIs(s: seq<Stop>, pct: int, i: nat, m: nat)
    requires i <= m && m + 1 < |s| && Encloses(s, pct, m)
    requires forall j :: i <= j < m ==> !Encloses(s, pct, j)
    ensures FirstBracketFrom(s, pct, i) == Some(m)
    decreases m - i
  {
    if i < m {
      FirstBracketIs(s, pct, i + 1, m);
    }
  }

  lemma {:induction false} EnclosingPairExists(s: seq<Stop>, pct: int, i: nat)
    requires SortedByPosition(s) && i + 1 < |s|
    requires s[i].position <= pct <= s[|s| - 1].position
    ensures FirstBracketFrom(s, pct, i).Some?
    decreases |s| - i
  {
    if !Encloses(s, pct, i) {
      EnclosingPairExists(s, pct, i + 1);
    }
  }

  /** For a position within the span of the stops, the scan finds a pair of
      neighbours that encloses it. */
  lemma BracketEncloses(s: seq<Stop>, pct: int)
    requires |s| > 0 && SortedByPosition(s)
    requires s[0].position <= pct <= s[|s| - 1].position
    ensures s[Bracket(s, pct).0].position <= pct <= s[Bracket(s, pct).1].position
  {
    if |s| > 1 {
      EnclosingPairExists(s, pct, 0);
    }
  }

  /** Between two stops that enclose pct, every channel of the colour lies
      between the stops' channels, and the colour is a hex colour again. */
  lemma ColorBetweenStaysBetween(left: Stop, right: Stop, pct: int)
    requires left.position <= pct <= right.position
    requires IsHexColor(left.color) && IsHexColor(right.color)
    ensures var c := ColorBetween(left, right, pct);
      IsHexColor(c) && RgbBetween(HexToRgb(c), HexToRgb(left.color), HexToRgb(right.color))
  {
    if left.position < right.position {
      var lc, rc := HexToRgb(left.color), HexToRgb(right.color);
      var lp, rp := left.position, right.position;
      var r := LerpChannel(lc.r, rc.r, lp, rp, pct);
      var g := LerpChannel(lc.g, rc.g, lp, rp, pct);
      var b := LerpChannel(lc.b, rc.b, lp, rp, pct);
      LerpBetween(lc.r, rc.r, lp, rp, pct);
      LerpBetween(lc.g, rc.g, lp, rp, pct);
      LerpBetween(lc.b, rc.b, lp, rp, pct);
      assert ColorBetween(left, right, pct) == RgbToHex(r, g, b);
      RgbToHexRoundTrip(r, g, b);
    }
  }

  /** For a position between the first and the last stop, the proposed colour
      is a hex colour and each of its channels lies between the channels of the
      two neighbouring stops that enclose the position. */
  lemma InterpolationStaysBetween(stops: seq<Stop>, pct: int)
    requires |stops| > 0 && AllColorsValid(stops)
    requires SortByPosition(stops)[0].position <= pct <= SortByPosition(stops)[|stops| - 1].position
    ensures var s := SortByPosition(stops);
      var b := Bracket(s, pct);
      var c := InterpolatedColor(stops, pct);
      s[b.0].position <= pct <= s[b.1].position
      && IsHexColor(c) && IsHexColor(s[b.0].color) && IsHexColor(s[b.1].color)
      && RgbBetween(HexToRgb(c), HexToRgb(s[b.0].color), HexToRgb(s[b.1].color))
  {
    var s := SortByPosition(stops);
    InterpolatedIsBetweenBracket(stops, pct);
    BracketEncloses(s, pct);
    var b := Bracket(s, pct);
    assert s[b.0] in s && s[b.1] in s;
    ColorBetweenStaysBetween(s[b.0], s[b.1], pct);
  }

  /** At the position of the first sorted stop, the colour has that stop's channels. */
  lemma ColorAtFirstStop(s: seq<Stop>, p: int)
    requires |s| > 0 && SortedByPosition(s) && AllColorsValid(s) && s[0].position == p
    ensures var (li, ri) := Bracket(s, p);
      var c := ColorBetween(s[li], s[ri], p);
      IsHexColor(c) && HexToRgb(c) == HexToRgb(s[0].color)
  {
    if |s| > 1 {
      assert Encloses(s, p, 0);
      assert Bracket(s, p) == (0, 1);
      assert s[1] in s;
      if s[1].position > p {
        var lc, rc := HexToRgb(s[0].color), HexToRgb(s[1].color);
        LerpAtLeft(lc.r, rc.r, p, s[1].position);
        LerpAtLeft(lc.g, rc.g, p, s[1].position);
        LerpAtLeft(lc.b, rc.b, p, s[1].position);
        RgbToHexRoundTrip(lc.r, lc.g, lc.b);
      }
    }
    assert s[0] in s;
  }

  /** At the position of a later stop k, the first of its position, the scan
      stops at the pair (k - 1, k) and the colour has stop k's channels. */
  lemma ColorAtLaterStop(s: seq<Stop>, p: int, k: nat)
    requires 0 < k < |s| && SortedByPosition(s) && AllColorsValid(s)
    requires s[k].position == p && forall j :: 0 <= j < k ==> s[j].position != p
    ensures var b := Bracket(s, p);
      var c := ColorBetween(s[b.0], s[b.1], p);
      IsHexColor(c) && HexToRgb(c) == HexToRgb(s[k].color)
  {
    LaterStopBracket(s, p, k);
    var b := Bracket(s, p);
    assert s[b.0] in s && s[b.1] in s && s[b.1] == s[k];
    ColorAtRightStop(s[b.0], s[b.1], p);
  }

  /** The scan settles on the pair (k - 1, k) when stop k is the first at p. */
  lemma LaterStopBracket(s: seq<Stop>, p: int, k: nat)
    requires 0 < k < |s| && SortedByPosition(s)
    requires s[k].position == p && forall j :: 0 <= j < k ==> s[j].position != p
    ensures Bracket(s, p) == (k - 1, k) && s[k - 1].position < p
  {
    assert s[k - 1].position < p;
    forall j | 0 <= j < k - 1
      ensures !Encloses(s, p, j)
    {
      assert s[j + 1].position <= s[k - 1].position;
    }
    FirstBracketIs(s, p, 0, k - 1);
  }

  /** At the right stop's position, the colour between two stops at different
      positions has the right stop's channels. */
  lemma ColorAtRightStop(left: Stop, right: Stop, p: int)
    requires left.position < right.position == p
    requires IsHexColor(left.color) && IsHexColor(right.color)
    ensures var c := ColorBetween(left, right, p);
      IsHexColor(c) && HexToRgb(c) == HexToRgb(right.color)
  {
    var lc, rc := HexToRgb(left.color), HexToRgb(right.color);
    var lp := left.position;
    LerpAtRight(lc.r, rc.r, lp, p);
    LerpAtRight(lc.g, rc.g, lp, p);
    LerpAtRight(lc.b, rc.b, lp, p);
    RgbToHexRoundTrip(rc.r, rc.g, rc.b);
  }

  /** At the position of a stop, the colour between the bracket stops of the
      sorted list has the channels of the first stop sorted there. */
  lemma SortedColorAtStop(s: seq<Stop>, p: int)
    requires SortedByPosition(s) && AllColorsValid(s) && |AtPosition(s, p)| > 0
    ensures var b := Bracket(s, p);
      var c := ColorBetween(s[b.0], s[b.1], p);
      var y := AtPosition(s, p)[0];
      IsHexColor(c) && IsHexColor(y.color) && HexToRgb(c) == HexToRgb(y.color)
  {
    AtPositionMembers(s, p);
    var y := AtPosition(s, p)[0];
    assert y in s;
    var k := FirstAt(s, p).value;
    FirstAtPosition(s, p, k);
    if k == 0 {
      ColorAtFirstStop(s, p);
    } else {
      ColorAtLaterStop(s, p, k);
    }
  }

  /** At the position of a stop, the proposed colour has the channels of the
      first stop (in list order) at that position: exactly the stop's own
      channels when it is alone there. */
  lemma InterpolationAtStop(stops: seq<Stop>, p: int)
    requires |stops| > 0 && AllColorsValid(stops) && |AtPosition(stops, p)| > 0
    ensures var c := InterpolatedColor(stops, p);
      var y := AtPosition(stops, p)[0];
      IsHexColor(c) && IsHexColor(y.color) && HexToRgb(c) == HexToRgb(y.color)
  {
    var s := SortByPosition(stops);
    SortIsStable(stops, p);
    InterpolatedIsBetweenBracket(stops, p);
    SortedColorAtStop(s, p);
  }

  /** Two stops at the lowest position p of a sorted list: the scan stops at
      the first pair, which has zero width. */
  lemma ZeroWidthFirstPair(s: seq<Stop>, p: int)
    requires SortedByPosition(s) && |AtPosition(s, p)| >= 2
    requires |s| > 0 && s[0].position == p
    ensures |s| > 1 && Bracket(s, p) == (0, 1) && s[1].position == p
  {
    if forall j :: 1 <= j < |s| ==> s[j].position != p {
      AtPositionAtMostFirst(s, p);
    }
    var j :| 1 <= j < |s| && s[j].position == p;
    assert s[1].position <= s[j].position;
    assert Encloses(s, p, 0);
  }

  /** When two or more stops share the lowest position, the scan meets a pair
      of zero width there and returns the first one's colour text as it is,
      without re-encoding it. */
  lemma ZeroWidthBracketKeepsColorText(stops: seq<Stop>, p: int)
    requires |stops| > 0 && AllColorsValid(stops) && |AtPosition(stops, p)| >= 2
    requires forall y :: y in stops ==> p <= y.position
    ensures InterpolatedColor(stops, p) == AtPosition(stops, p)[0].color
  {
    var s := SortByPosition(stops);
    SortedStartsAtLowest(stops, p);
    SortIsStable(stops, p);
    ZeroWidthFirstPair(s, p);
    InterpolatedIsBetweenBracket(stops, p);
  }

  /** When no stop lies below p and some stop sits at p, sorting puts the
      first stop at p in front. */
  lemma SortedStartsAtLowest(stops: seq<Stop>, p: int)
    requires |AtPosition(stops, p)| > 0
    requires forall y :: y in stops ==> p <= y.position
    ensures var s := SortByPosition(stops);
      |s| > 0 && s[0].position == p && AtPosition(stops, p)[0] == s[0]
  {
    var s := SortByPosition(stops);
    SortIsStable(stops, p);
    AtPositionMembers(s, p);
    var y := AtPosition(s, p)[0];
    assert y in s;
    assert s[0] in multiset(stops);
    assert s[0].position <= y.position;
    FirstAtPosition(s, p, 0);
  }

  /** The text rgbToHex writes for a red channel of -255. */
  lemma MinusRedText()
    ensures RgbToHex(-255, 0, 0) == "#-ff0000" && !IsHexColor("#-ff0000")
  {
    assert LowerHexDigit(15) == 'f' && LowerHexDigit(0) == '0';
    assert NatHex(15) == "f";
    assert NatHex(255) == NatHex(15) + "f";
    assert JsHex(-255) == "-ff";
    assert ChannelHex(-255) == "-ff";
    assert ChannelHex(0) == "00";
    var h := "#-ff0000";
    assert StripHash(h) == h[1..];
  }

  lemma BlackAndRed()
    ensures IsHexColor("#000000") && HexToRgb("#000000") == Rgb(0, 0, 0)
    ensures IsHexColor("#ff0000") && HexToRgb("#ff0000") == Rgb(255, 0, 0)
  {
    BlackChannels();
    RedChannels();
  }

  lemma BlackChannels()
    ensures IsHexColor("#000000") && HexToRgb("#000000") == Rgb(0, 0, 0)
  {
    HashSix("000000");
  }

  lemma RedChannels()
    ensures IsHexColor("#ff0000") && HexToRgb("#ff0000") == Rgb(255, 0, 0)
  {
    HashSix("ff0000");
  }

  lemma ExampleStopsValid()
    ensures AllColorsValid([Stop("stop_1", "#000000", 50, 100), Stop("stop_2", "#ff0000", 100, 100)])
  {
    var black, red := Stop("stop_1", "#000000", 50, 100), Stop("stop_2", "#ff0000", 100, 100);
    BlackAndRed();
    TwoColorsValid(black, red);
  }

  lemma TwoColorsValid(a: Stop, b: Stop)
    requires IsHexColor(a.color) && IsHexColor(b.color)
    ensures AllColorsValid([a, b])
  {
    assert forall y :: y in [a, b] ==> y == a || y == b;
  }

  /** With black at 50 and red at 100, a click at 0 falls before both stops:
      the scan finds no pair and settles on the first and the last. */
  lemma ExampleBracket()
    ensures var stops := [Stop("stop_1", "#000000", 50, 100), Stop("stop_2", "#ff0000", 100, 100)];
      SortByPosition(stops) == stops && Bracket(stops, 0) == (0, 1)
  {
    var stops := [Stop("stop_1", "#000000", 50, 100), Stop("stop_2", "#ff0000", 100, 100)];
    SortSortedIsIdentity(stops);
    assert !Encloses(stops, 0, 0);
  }

  /** t = -1 for a click at 0: the red channel goes from 0 to -255. */
  lemma ExampleLerp()
    ensures LerpChannel(0, 255, 50, 100, 0) == -255 && LerpChannel(0, 0, 50, 100, 0) == 0
  {
    assert RoundDiv(-12750, 50) == (-25500 + 50) / 100 == -255;
    assert RoundDiv(0, 50) == 50 / 100 == 0;
  }

  lemma ExampleColorBetween()
    ensures ColorBetween(Stop("stop_1", "#000000", 50, 100), Stop("stop_2", "#ff0000", 100, 100), 0)
      == RgbToHex(-255, 0, 0)
  {
    var black, red := Stop("stop_1", "#000000", 50, 100), Stop("stop_2", "#ff0000", 100, 100);
    BlackAndRed();
    assert HexToRgb(black.color) == Rgb(0, 0, 0) && HexToRgb(red.color) == Rgb(255, 0, 0);
    assert ColorBetween(black, red, 0) == RgbToHex(LerpChannel(0, 255, 50, 100, 0),
      LerpChannel(0, 0, 50, 100, 0), LerpChannel(0, 0, 50, 100, 0));
    ExampleLerp();
  }

  /** Black at 50 and red at 100: a click at 0 interpolates with t = -1. */
  lemma ExtrapolationChannels()
    ensures var stops := [Stop("stop_1", "#000000", 50, 100), Stop("stop_2", "#ff0000", 100, 100)];
      AllColorsValid(stops) && InterpolatedColor(stops, 0) == RgbToHex(-255, 0, 0)
  {
    var stops := [Stop("stop_1", "#000000", 50, 100), Stop("stop_2", "#ff0000", 100, 100)];
    ExampleStopsValid();
    ExampleBracket();
    InterpolatedIsBetweenBracket(stops, 0);
    ExampleColorBetween();
  }

  /** Outside the span of the stops the code extrapolates: with a black stop at
      50 and a red one at 100, a click at 0 gives t = -1, a red channel of -255
      and colour text that is no hex colour at all. */
  lemma ExtrapolationLeavesByteRange()
    ensures var stops := [Stop("stop_1", "#000000", 50, 100), Stop("stop_2", "#ff0000", 100, 100)];
      AllColorsValid(stops)
      && InterpolatedColor(stops, 0) == "#-ff0000" && !IsHexColor("#-ff0000")
  {
    ExtrapolationChannels();
    MinusRedText();
  }

  // The corrected interpolation against the code as written.

  /** Between two stops, clamping changes nothing exactly when the code as
      written already yields a hex colour. */
  lemma ClampedBetweenAgrees(left: Stop, right: Stop, pct: int)
    requires left.position <= right.position
    requires IsHexColor(left.color) && IsHexColor(right.color)
    ensures ColorBetweenClamped(left, right, pct) == ColorBetween(left, right, pct)
      <==> IsHexColor(ColorBetween(left, right, pct))
  {
    if left.position < right.position && IsHexColor(ColorBetween(left, right, pct)) {
      var lc, rc := HexToRgb(left.color), HexToRgb(right.color);
      var lp, rp := left.position, right.position;
      RgbToHexOnlyBytes(LerpChannel(lc.r, rc.r, lp, rp, pct), LerpChannel(lc.g, rc.g, lp, rp, pct),
                        LerpChannel(lc.b, rc.b, lp, rp, pct));
    }
  }

  /** The corrected proposal equals the one written exactly when the one
      written is a hex colour. */
  lemma ClampedAgreesWhenHex(stops: seq<Stop>, pct: int)
    requires |stops| > 0 && AllColorsValid(stops)
    ensures InterpolatedColorClamped(stops, pct) == InterpolatedColor(stops, pct)
      <==> IsHexColor(InterpolatedColor(stops, pct))
  {
    var s := SortByPosition(stops);
    InterpolatedIsBetweenBracket(stops, pct);
    var b := Bracket(s, pct);
    assert s[b.0] in s && s[b.1] in s;
    ClampedBetweenAgrees(s[b.0], s[b.1], pct);
  }

  /** Within the span of the stops the correction changes nothing. */
  lemma ClampedAgreesWithinSpan(stops: seq<Stop>, pct: int)
    requires |stops| > 0 && AllColorsValid(stops)
    requires SortByPosition(stops)[0].position <= pct <= SortByPosition(stops)[|stops| - 1].position
    ensures InterpolatedColorClamped(stops, pct) == InterpolatedColor(stops, pct)
  {
    InterpolationStaysBetween(stops, pct);
    ClampedAgreesWhenHex(stops, pct);
  }

  lemma ExampleClampedBetween()
    ensures ColorBetweenClamped(Stop("stop_1", "#000000", 50, 100), Stop("stop_2", "#ff0000", 100, 100), 0)
      == RgbToHex(0, 0, 0)
  {
    var black, red := Stop("stop_1", "#000000", 50, 100), Stop("stop_2", "#ff0000", 100, 100);
    BlackAndRed();
    assert HexToRgb(black.color) == Rgb(0, 0, 0) && HexToRgb(red.color) == Rgb(255, 0, 0);
    assert ColorBetweenClamped(black, red, 0) == RgbToHex(ClampByte(LerpChannel(0, 255, 50, 100, 0)),
      ClampByte(LerpChannel(0, 0, 50, 100, 0)), ClampByte(LerpChannel(0, 0, 50, 100, 0)));
    ExampleLerp();
  }

  /** On the example that leaves the byte range, the correction gives the
      colour of the first stop's channels clamped: black. */
  lemma ClampedExtrapolationIsBlack()
    ensures var stops := [Stop("stop_1", "#000000", 50, 100), Stop("stop_2", "#ff0000", 100, 100)];
      AllColorsValid(stops) && HexToRgb(InterpolatedColorClamped(stops, 0)) == Rgb(0, 0, 0)
  {
    var stops := [Stop("stop_1", "#000000", 50, 100), Stop("stop_2", "#ff0000", 100, 100)];
    ExampleStopsValid();
    ExampleBracket();
    ClampedIsBetweenBracket(stops, 0);
    ExampleClampedBetween();
    RgbToHexRoundTrip(0, 0, 0);
  }
}
