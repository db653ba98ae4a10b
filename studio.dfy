/** The editor's state object and the handlers that change it: the gradient
    stop store (add on a click of the track, remove the active stop, sort,
    select, edit the active stop's fields, drag a stop), the single colour,
    the angle and the three mode flags, and applyPreview's CSS output. The
    page elements the handlers also update are not modelled. */
module Studio {
  import opened Wrappers
  import opened Text
  import opened ColorCodec
  import opened Inputs
  import opened Stops
  import opened Interpolation
  import opened Css

  /** A stop as the store keeps it: a hex colour, position and opacity in
      percent, and an id minted from a counter value between 1 and counter. */
  predicate WellFormedStop(y: Stop, counter: int) {
    IsHexColor(y.color) && 0 <= y.position <= 100 && 0 <= y.opacity <= 100
    && IdNumber(y.id).Some? && 1 <= IdNumber(y.id).value <= counter
  }

  /** The invariant of the stop store: at least two stops, sorted by position,
      with unique ids and every stop well formed for the counter. */
  predicate StoreInvariant(stops: seq<Stop>, counter: int) {
    |stops| >= 2 && SortedByPosition(stops) && UniqueIds(stops)
    && forall y :: y in stops ==> WellFormedStop(y, counter)
  }

  lemma StoreStopsRenderable(stops: seq<Stop>, counter: int)
    requires StoreInvariant(stops, counter)
    ensures AllColorsValid(stops) && AllRenderable(stops)
  {
  }

  /** The id minted from the next counter value belongs to no stop of the store. */
  lemma MintedIdIsFresh(stops: seq<Stop>, counter: nat, x: Stop)
    requires StoreInvariant(stops, counter)
    requires x.id == StopId(counter + 1)
    ensures forall y :: y in stops ==> y.id != x.id
  {
    IdNumberOfStopId(counter + 1);
    forall y | y in stops ensures y.id != x.id {
      FreshStopId(y.id, counter + 1);
    }
  }

  /** Sorting in a new stop minted from the next counter value keeps the invariant. */
  lemma AddKeepsInvariant(stops: seq<Stop>, counter: nat, x: Stop)
    requires StoreInvariant(stops, counter)
    requires x.id == StopId(counter + 1) && IsHexColor(x.color)
    requires 0 <= x.position <= 100 && 0 <= x.opacity <= 100
    ensures StoreInvariant(SortByPosition(stops + [x]), counter + 1)
  {
    IdNumberOfStopId(counter + 1);
    MintedIdIsFresh(stops, counter, x);
    PushFreshKeepsIdsUnique(stops, x);
    SortKeepsIdsUnique(stops + [x]);
    var t := SortByPosition(stops + [x]);
    forall y | y in t ensures WellFormedStop(y, counter + 1) {
      assert y in multiset(stops + [x]);
      assert y in stops + [x];
      if y != x {
        assert y in stops;
      }
    }
  }

  /** after is before with x sorted in: behind every stop at or before x's
      position, and found first by its id. */
  predicate Placed(before: seq<Stop>, after: seq<Stop>, x: Stop) {
    after == Insert(before, x)
    && |after| == |before| + 1 && multiset(after) == multiset(before) + multiset{x}
    && AtPosition(after, x.position) == AtPosition(before, x.position) + [x]
    && FindStop(after, x.id).Some? && after[FindStop(after, x.id).value] == x
  }

  /** The stop the click handler mints: the next counter value's id, the
      given colour and position, fully opaque. */
  function NewStop(counter: nat, color: string, pct: int): Stop {
    Stop(StopId(counter + 1), color, pct, 100)
  }

  /** The list the click handler leaves: the new stop pushed, then sorted. */
  function WithNewStop(stops: seq<Stop>, counter: nat, color: string, pct: int): seq<Stop> {
    SortByPosition(stops + [NewStop(counter, color, pct)])
  }

  lemma NewStopKeepsInvariant(stops: seq<Stop>, counter: nat, color: string, pct: int)
    requires StoreInvariant(stops, counter) && IsHexColor(color) && 0 <= pct <= 100
    ensures StoreInvariant(WithNewStop(stops, counter, color, pct), counter + 1)
  {
    AddKeepsInvariant(stops, counter, NewStop(counter, color, pct));
  }

  /** Everything the click handler promises about the list it leaves behind:
      the new id is fresh, and the new stop goes in after every stop at or
      before its position and is the one its id finds. */
  lemma AddedStopFacts(stops: seq<Stop>, counter: nat, color: string, pct: int)
    requires StoreInvariant(stops, counter) && IsHexColor(color) && 0 <= pct <= 100
    ensures var x := NewStop(counter, color, pct);
      (forall y :: y in stops ==> y.id != x.id)
      && Placed(stops, WithNewStop(stops, counter, color, pct), x)
  {
    var x := NewStop(counter, color, pct);
    MintedIdIsFresh(stops, counter, x);
    AddKeepsInvariant(stops, counter, x);
    PushThenSort(stops, x);
    FoundById(WithNewStop(stops, counter, color, pct), x);
  }

  /** A stop of a list with unique ids is the one its id finds. */
  lemma FoundById(t: seq<Stop>, x: Stop)
    requires UniqueIds(t) && x in multiset(t)
    ensures FindStop(t, x.id).Some? && t[FindStop(t, x.id).value] == x
  {
    var k :| 0 <= k < |t| && t[k] == x;
    FindUniqueId(t, k);
  }

  lemma InitialIds()
    ensures IdNumber("stop_1") == Some(1) && IdNumber("stop_2") == Some(2)
  {
    assert StopId(1) == "stop_1" && StopId(2) == "stop_2";
    IdNumberOfStopId(1);
    IdNumberOfStopId(2);
  }

  /** Two well formed stops in order, with different ids, make a valid store. */
  lemma TwoStopsInvariant(a: Stop, b: Stop, counter: int)
    requires WellFormedStop(a, counter) && WellFormedStop(b, counter)
    requires a.position <= b.position && a.id != b.id
    ensures StoreInvariant([a, b], counter)
  {
    var s := [a, b];
    assert forall y :: y in s ==> y == a || y == b;
  }

  /** The two stops the editor starts with keep the store invariant. */
  lemma InitialStoreValid()
    ensures IsHexColor("#6366f1")
    ensures StoreInvariant([Stop("stop_1", "#6366f1", 0, 100), Stop("stop_2", "#a855f7", 100, 100)], 2)
  {
    var a, b := Stop("stop_1", "#6366f1", 0, 100), Stop("stop_2", "#a855f7", 100, 100);
    IndigoChannels();
    PurpleChannels();
    InitialIds();
    assert a.id[5] != b.id[5];
    TwoStopsInvariant(a, b, 2);
  }

  /** Removing the stop at i from more than two keeps the invariant. */
  lemma RemoveKeepsInvariant(stops: seq<Stop>, counter: int, i: nat)
    requires StoreInvariant(stops, counter) && |stops| > 2 && i < |stops|
    ensures StoreInvariant(stops[..i] + stops[i + 1..], counter)
  {
    RemoveAtKeepsOrder(stops, i);
  }

  /** Filtering an id out of a store of more than two stops drops exactly the
      stop the id finds, or nothing, and keeps the invariant. */
  lemma FilterKeepsInvariant(stops: seq<Stop>, counter: int, id: string)
    requires StoreInvariant(stops, counter) && |stops| > 2
    ensures StoreInvariant(WithoutId(stops, id), counter)
    ensures FindStop(stops, id).Some? ==>
      var i := FindStop(stops, id).value;
      WithoutId(stops, id) == stops[..i] + stops[i + 1..]
    ensures FindStop(stops, id).None? ==> WithoutId(stops, id) == stops
  {
    match FindStop(stops, id) {
      case Some(i) =>
        WithoutIdRemovesOne(stops, i);
        RemoveKeepsInvariant(stops, counter, i);
      case None =>
        WithoutAbsentId(stops, id);
    }
  }

  /** Moving the stop at i to a position in 0..100 and sorting keeps the invariant. */
  lemma MoveKeepsInvariant(stops: seq<Stop>, counter: int, i: nat, pos: int)
    requires StoreInvariant(stops, counter) && i < |stops| && 0 <= pos <= 100
    ensures StoreInvariant(SortByPosition(stops[i := stops[i].(position := pos)]), counter)
  {
    var s := stops[i := stops[i].(position := pos)];
    assert stops[i] in stops;
    UpdateKeepsIdsUnique(stops, i, s[i]);
    SortKeepsIdsUnique(s);
    assert forall y :: y in s ==> WellFormedStop(y, counter) by {
      forall y | y in s ensures WellFormedStop(y, counter) {
        var k :| 0 <= k < |s| && s[k] == y;
        if k != i {
          assert s[k] == stops[k];
        }
      }
    }
    var t := SortByPosition(s);
    forall y | y in t ensures WellFormedStop(y, counter) {
      assert y in multiset(s);
    }
  }

  /** Replacing the stop at i by a well formed stop with the same id and
      position keeps the invariant. */
  lemma ReplaceKeepsInvariant(stops: seq<Stop>, counter: int, i: nat, y: Stop)
    requires StoreInvariant(stops, counter) && i < |stops| && WellFormedStop(y, counter)
    requires y.id == stops[i].id && y.position == stops[i].position
    ensures StoreInvariant(stops[i := y], counter)
  {
    UpdateKeepsIdsUnique(stops, i, y);
    var s := stops[i := y];
    assert forall j :: 0 <= j < |s| ==> s[j].position == stops[j].position;
    forall z | z in s ensures WellFormedStop(z, counter) {
      var k :| 0 <= k < |s| && s[k] == z;
      if k != i {
        assert s[k] == stops[k];
      }
    }
  }

  class Studio {
    var mode: string
    var gradientType: string
    var angle: int
    var previewMode: string
    var singleColor: string
    var singleOpacity: int
    var stops: seq<Stop>
    var activeStopId: string
    var stopCounter: nat
    var lastCss: string

    /** At least two stops, sorted by position, with unique ids all minted from
        the counter; a readable single colour; an opacity and an angle in range. */
    predicate Valid()
      reads this`stops, this`stopCounter, this`singleColor, this`singleOpacity, this`angle
    {
      StoreInvariant(stops, stopCounter)
      && IsHexColor(singleColor) && 0 <= singleOpacity <= 100
      && 0 <= angle < 360
    }

    /** The initial state object. */
    constructor ()
      ensures Valid()
      ensures mode == "single" && gradientType == "linear" && angle == 90 && previewMode == "bg"
      ensures singleColor == "#6366f1" && singleOpacity == 100
      ensures stops == [Stop("stop_1", "#6366f1", 0, 100), Stop("stop_2", "#a855f7", 100, 100)]
      ensures activeStopId == "stop_1" && stopCounter == 2 && lastCss == ""
    {
      mode := "single";
      gradientType := "linear";
      angle := 90;
      previewMode := "bg";
      singleColor := "#6366f1";
      singleOpacity := 100;
      stops := [Stop("stop_1", "#6366f1", 0, 100), Stop("stop_2", "#a855f7", 100, 100)];
      activeStopId := "stop_1";
      stopCounter := 2;
      lastCss := "";
      new;
      InitialStoreValid();
    }

    /** getActiveStop: the index of the first stop carrying the active id, if any. */
    function ActiveIndex(): (r: Option<nat>)
      reads this
      ensures r.Some? ==> r.value < |stops| && stops[r.value].id == activeStopId
      ensures r.None? <==> forall j :: 0 <= j < |stops| ==> stops[j].id != activeStopId
    {
      FindStop(stops, activeStopId)
    }

    /** selectStop: the id is recorded even when no stop carries it. */
    method SelectStop(id: string)
      modifies this`activeStopId
      ensures activeStopId == id
    {
      activeStopId := id;
    }

    /** sortStops: the stable sort in place. A valid store is sorted already,
        so on it the sort changes nothing and the invariant holds after it. */
    method SortStops()
      modifies this`stops
      ensures stops == SortByPosition(old(stops))
      ensures old(Valid()) ==> Valid() && stops == old(stops)
    {
      if Valid() {
        SortSortedIsIdentity(stops);
      }
      stops := SortByPosition(stops);
    }

    /** The click on the track: clamp the position, propose a colour for it,
        then add the stop. */
    method AddStopAt(raw: int)
      requires Valid()
      modifies this`stops, this`stopCounter, this`activeStopId
      ensures Valid()
      ensures stopCounter == old(stopCounter) + 1
      ensures activeStopId == StopId(stopCounter)
      ensures stops == WithNewStop(old(stops), old(stopCounter),
        InterpolatedColorClamped(old(stops), ClampPosition(raw)), ClampPosition(raw))
    {
      var pct := ClampPosition(raw);
      StoreStopsRenderable(stops, stopCounter);
      var color := ProposeStopColor(stops, pct);
      AddStop(color, pct);
    }

    /** The rest of the click handler: the counter moves on, the new stop is
        pushed and the list sorted, and the new stop becomes the active one. */
    method AddStop(color: string, pct: int)
      requires Valid() && IsHexColor(color) && 0 <= pct <= 100
      modifies this`stops, this`stopCounter, this`activeStopId
      ensures Valid()
      ensures stopCounter == old(stopCounter) + 1
      ensures activeStopId == StopId(stopCounter)
      ensures stops == WithNewStop(old(stops), old(stopCounter), color, pct)
    {
      NewStopKeepsInvariant(stops, stopCounter, color, pct);
      stops := WithNewStop(stops, stopCounter, color, pct);
      stopCounter := stopCounter + 1;
      activeStopId := StopId(stopCounter);
    }

    /** removeActiveStop: refused with two stops or fewer; otherwise the active
        stop is filtered out and the first stop left becomes active. */
    method RemoveActiveStop()
      requires Valid()
      modifies this`stops, this`activeStopId
      ensures Valid()
      ensures |old(stops)| <= 2 ==> stops == old(stops) && activeStopId == old(activeStopId)
      ensures |old(stops)| > 2 ==>
        stops == WithoutId(old(stops), old(activeStopId)) && activeStopId == stops[0].id
      ensures |old(stops)| > 2 && FindStop(old(stops), old(activeStopId)).Some? ==>
        var i := FindStop(old(stops), old(activeStopId)).value;
        stops == old(stops)[..i] + old(stops)[i + 1..]
      ensures |old(stops)| > 2 && FindStop(old(stops), old(activeStopId)).None? ==> stops == old(stops)
    {
      if |stops| <= 2 {
        return;
      }
      FilterKeepsInvariant(stops, stopCounter, activeStopId);
      stops := WithoutId(stops, activeStopId);
      SelectStop(stops[0].id);
    }

    /** Moves the stop carrying id to pos and sorts; nothing happens when no
        stop carries it. */
    method MoveStop(id: string, pos: int)
      requires Valid() && 0 <= pos <= 100
      modifies this`stops
      ensures Valid()
      ensures FindStop(old(stops), id).None? ==> stops == old(stops)
      ensures FindStop(old(stops), id).Some? ==>
        var i := FindStop(old(stops), id).value;
        stops == SortByPosition(old(stops)[i := old(stops)[i].(position := pos)])
    {
      match FindStop(stops, id) {
        case None =>
        case Some(i) =>
          var moved := stops[i := stops[i].(position := pos)];
          MoveKeepsInvariant(stops, stopCounter, i, pos);
          stops := SortByPosition(moved);
      }
    }

    /** The position slider on the active stop (its range is 0..100). */
    method SetActivePosition(pos: int)
      requires Valid() && 0 <= pos <= 100
      modifies this`stops
      ensures Valid()
      ensures old(ActiveIndex()).None? ==> stops == old(stops)
      ensures old(ActiveIndex()).Some? ==>
        var i := old(ActiveIndex()).value;
        stops == SortByPosition(old(stops)[i := old(stops)[i].(position := pos)])
    {
      MoveStop(activeStopId, pos);
    }

    /** Dragging the dot of the stop carrying id: the rounded percentage clamped. */
    method DragStopTo(id: string, raw: int)
      requires Valid()
      modifies this`stops
      ensures Valid()
      ensures FindStop(old(stops), id).None? ==> stops == old(stops)
      ensures FindStop(old(stops), id).Some? ==>
        var i := FindStop(old(stops), id).value;
        stops == SortByPosition(old(stops)[i := old(stops)[i].(position := ClampPosition(raw))])
    {
      MoveStop(id, ClampPosition(raw));
    }

    /** Replaces the active stop by y when there is an active stop; y keeps its id. */
    method UpdateActive(y: Stop)
      requires Valid() && WellFormedStop(y, stopCounter)
      requires ActiveIndex().Some? ==>
        y.id == stops[ActiveIndex().value].id && y.position == stops[ActiveIndex().value].position
      modifies this`stops
      ensures Valid()
      ensures old(ActiveIndex()).None? ==> stops == old(stops)
      ensures old(ActiveIndex()).Some? ==> stops == old(stops)[old(ActiveIndex()).value := y]
    {
      match ActiveIndex() {
        case None =>
        case Some(i) =>
          ReplaceKeepsInvariant(stops, stopCounter, i, y);
          stops := stops[i := y];
      }
    }

    /** The colour picker on the active stop (its value is always a hex colour). */
    method SetActiveColor(color: string)
      requires Valid() && IsHexColor(color)
      modifies this`stops
      ensures Valid()
      ensures old(ActiveIndex()).None? ==> stops == old(stops)
      ensures old(ActiveIndex()).Some? ==>
        var i := old(ActiveIndex()).value;
        stops == old(stops)[i := old(stops)[i].(color := color)]
    {
      match ActiveIndex() {
        case None =>
        case Some(i) =>
          assert stops[i] in stops;
          UpdateActive(stops[i].(color := color));
      }
    }

    /** The hex field of the active stop: the trimmed text is applied behind '#'
        only when it is six hex digits. */
    method EditActiveHex(text: string)
      requires Valid()
      modifies this`stops
      ensures Valid()
      ensures !IsHexInput(Trim(text)) || old(ActiveIndex()).None? ==> stops == old(stops)
      ensures IsHexInput(Trim(text)) && old(ActiveIndex()).Some? ==>
        var i := old(ActiveIndex()).value;
        stops == old(stops)[i := old(stops)[i].(color := "#" + Trim(text))]
    {
      var raw := Trim(text);
      if IsHexInput(raw) {
        HexInputIsColor(raw);
        SetActiveColor("#" + raw);
      }
    }

    /** The opacity slider on the active stop (its range is 0..100). */
    method SetActiveOpacity(opacity: int)
      requires Valid() && 0 <= opacity <= 100
      modifies this`stops
      ensures Valid()
      ensures old(ActiveIndex()).None? ==> stops == old(stops)
      ensures old(ActiveIndex()).Some? ==>
        var i := old(ActiveIndex()).value;
        stops == old(stops)[i := old(stops)[i].(opacity := opacity)]
    {
      match ActiveIndex() {
        case None =>
        case Some(i) =>
          assert stops[i] in stops;
          UpdateActive(stops[i].(opacity := opacity));
      }
    }

    /** The single colour picker (its value is always a hex colour). */
    method SetSingleColor(color: string)
      requires Valid() && IsHexColor(color)
      modifies this`singleColor
      ensures Valid() && singleColor == color
    {
      singleColor := color;
    }

    /** The single hex field: applied behind '#' only when the trimmed text is
        six hex digits. */
    method EditSingleHex(text: string)
      requires Valid()
      modifies this`singleColor
      ensures Valid()
      ensures IsHexInput(Trim(text)) ==> singleColor == "#" + Trim(text)
      ensures !IsHexInput(Trim(text)) ==> singleColor == old(singleColor)
    {
      var raw := Trim(text);
      if IsHexInput(raw) {
        HexInputIsColor(raw);
        singleColor := "#" + raw;
      }
    }

    /** The single opacity slider (its range is 0..100). */
    method SetSingleOpacity(opacity: int)
      requires Valid() && 0 <= opacity <= 100
      modifies this`singleOpacity
      ensures Valid() && singleOpacity == opacity
    {
      singleOpacity := opacity;
    }

    /** The angle field: parseInt's result, None for NaN, which changes nothing. */
    method EditAngle(parsed: Option<int>)
      requires Valid()
      modifies this`angle
      ensures Valid()
      ensures parsed.None? ==> angle == old(angle)
      ensures parsed.Some? ==> angle == parsed.value % 360
    {
      if parsed.Some? {
        angle := NormalizeAngle(parsed.value);
      }
    }

    /** The angle wheel: the rounded angle of the mouse, normalised. */
    method DragAngle(raw: int)
      requires Valid()
      modifies this`angle
      ensures Valid() && angle == raw % 360
    {
      angle := NormalizeAngle(raw);
    }

    method SetMode(m: string)
      requires Valid()
      modifies this`mode
      ensures Valid() && mode == m
    {
      mode := m;
    }

    method SetGradientType(t: string)
      requires Valid()
      modifies this`gradientType
      ensures Valid() && gradientType == t
    {
      gradientType := t;
    }

    method SetPreviewMode(m: string)
      requires Valid()
      modifies this`previewMode
      ensures Valid() && previewMode == m
    {
      previewMode := m;
    }

    /** buildColorValue on the current state. */
    function ColorValue(): string
      reads this`mode, this`gradientType, this`angle, this`stops, this`stopCounter,
        this`singleColor, this`singleOpacity
      requires Valid()
    {
      StoreStopsRenderable(stops, stopCounter);
      BuildColorValue(mode, gradientType, angle, stops, singleColor, singleOpacity)
    }

    /** applyPreview: the snippet for the preview mode becomes the CSS to copy;
        the info bar text is returned. Valid() does not read lastCss, so the
        invariant carries over by the frame of the modifies clause. */
    method ApplyPreview() returns (infobar: string)
      requires Valid()
      modifies this`lastCss
      ensures lastCss == CssSnippet(previewMode, ColorValue(), mode == "gradient")
      ensures infobar == InfobarText(ColorValue())
    {
      var colorVal := ColorValue();
      var isGrad := mode == "gradient";
      lastCss := CssSnippet(previewMode, colorVal, isGrad);
      infobar := InfobarText(colorVal);
    }
  }
}
