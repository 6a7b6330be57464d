/** Properties of the location-selection state machine over single
    operations and over sequences of map taps. */
module HomeTabProperties {
  import opened Wrappers
  import opened Text
  import opened Geo
  import opened HomeTab

  // ---------------------------------------------------------------------
  // Single map taps

  /** A tap with nothing chosen sets only the source position and asks for
      its name. */
  lemma TapInUnsetChoosesSource(s: HomeState, p: Position)
    requires s.status == Unset
    ensures MapClick(s, p).state == s.(source := s.source.(position := Some(p)), status := Source)
    ensures MapClick(s, p).effects == [ReverseGeocodeRequested(SourceSide, Source)]
  {
  }

  /** A tap once the source is chosen sets the destination, asks for its
      name and for a route. */
  lemma TapInSourceChoosesDestination(s: HomeState, p: Position)
    requires s.status == Source
    ensures MapClick(s, p).state ==
      s.(destination := s.destination.(position := Some(p)), status := Destination)
    ensures MapClick(s, p).effects ==
      [ReverseGeocodeRequested(DestinationSide, Destination), RouteRequested]
  {
  }

  /** A tap when only the destination is chosen sets the source, asks for
      its name and for a route. */
  lemma TapWithoutSourceChoosesSource(s: HomeState, p: Position)
    requires s.status == DestinationWithoutSource
    ensures MapClick(s, p).state ==
      s.(source := s.source.(position := Some(p)), status := Destination)
    ensures MapClick(s, p).effects ==
      [ReverseGeocodeRequested(SourceSide, DestinationWithoutSource), RouteRequested]
  {
  }

  /** A tap once both are chosen clears the choice and requests nothing. */
  lemma TapInDestinationClears(s: HomeState, p: Position)
    requires s.status == Destination
    ensures MapClick(s, p) == Step(Cleared(s), [])
  {
  }

  /** Three taps starting with nothing chosen return to the cleared state,
      whatever was tapped. */
  lemma ThreeTapsClear(s: HomeState, a: Position, b: Position, c: Position)
    requires s.status == Unset
    ensures MapClick(MapClick(MapClick(s, a).state, b).state, c).state == Cleared(s)
  {
  }

  // ---------------------------------------------------------------------
  // Sequences of map taps

  /** The state after tapping each of `taps` in turn, with every request
      launched on the way, in order. */
  function Taps(s: HomeState, taps: seq<Position>): (r: Step)
    ensures |taps| == 0 ==> r == Step(s, [])
    decreases |taps|
  {
    if |taps| == 0 then Step(s, [])
    else
      var first := MapClick(s, taps[0]);
      var rest := Taps(first.state, taps[1..]);
      Step(rest.state, first.effects + rest.effects)
  }

  /** The position of a status in the tap cycle Unset, Source, Destination. */
  function Phase(status: PointerStatus): (n: nat)
    requires status != DestinationWithoutSource
    ensures n < 3
  {
    match status
    case Unset => 0
    case Source => 1
    case Destination => 2
  }

  /** The status at a given position of the tap cycle. */
  function CycleStatus(n: nat): (status: PointerStatus)
    requires n < 3
    ensures status != DestinationWithoutSource && Phase(status) == n
  {
    if n == 0 then Unset else if n == 1 then Source else Destination
  }

  /** Taps alone cycle the status Unset, Source, Destination, Unset, ...:
      after n taps it is n steps further round the cycle. */
  lemma {:induction false} TapsCycleStatus(s: HomeState, taps: seq<Position>)
    requires s.status != DestinationWithoutSource
    ensures Taps(s, taps).state.status == CycleStatus((Phase(s.status) + |taps|) % 3)
    decreases |taps|
  {
    if |taps| > 0 {
      var next := MapClick(s, taps[0]).state;
      assert Phase(next.status) == (Phase(s.status) + 1) % 3;
      TapsCycleStatus(next, taps[1..]);
      assert (Phase(next.status) + |taps[1..]|) % 3 == (Phase(s.status) + |taps|) % 3;
    }
  }

  /** Taps never touch the selected field or the swipe flag. */
  lemma {:induction false} TapsKeepFieldAndSwipe(s: HomeState, taps: seq<Position>)
    ensures Taps(s, taps).state.selectedField == s.selectedField
    ensures Taps(s, taps).state.swipeEnabled == s.swipeEnabled
    decreases |taps|
  {
    if |taps| > 0 {
      TapsKeepFieldAndSwipe(MapClick(s, taps[0]).state, taps[1..]);
    }
  }

  // ---------------------------------------------------------------------
  // Preserving the pointer invariant

  /** The initial state and every reset state satisfy the invariant. */
  lemma ResetEstablishesInvariant(s: HomeState)
    ensures PointerInvariant(Initial())
    ensures PointerInvariant(ResetLocationChoice(s))
  {
  }

  /** A tap keeps the invariant, and it requests a route exactly when both
      positions are chosen afterwards. */
  lemma TapKeepsInvariant(s: HomeState, p: Position)
    requires PointerInvariant(s)
    ensures PointerInvariant(MapClick(s, p).state)
    ensures RouteRequested in MapClick(s, p).effects <==> IsLocationChosen(MapClick(s, p).state)
  {
  }

  /** Any number of taps keeps the invariant. */
  lemma {:induction false} TapsKeepInvariant(s: HomeState, taps: seq<Position>)
    requires PointerInvariant(s)
    ensures PointerInvariant(Taps(s, taps).state)
    decreases |taps|
  {
    if |taps| > 0 {
      TapKeepsInvariant(s, taps[0]);
      TapsKeepInvariant(MapClick(s, taps[0]).state, taps[1..]);
    }
  }

  /** Completing a reverse geocode never moves a position, so it keeps the
      invariant. */
  lemma ReverseGeocodeKeepsInvariant(s: HomeState, side: Side, status: PointerStatus,
                                     name: Option<string>, displayName: Option<string>)
    requires PointerInvariant(s)
    ensures PointerInvariant(ApplyReverseGeocode(s, side, status, name, displayName))
  {
  }

  /** The invariant looks only at the status and the two positions. */
  lemma InvariantSeesOnlyPositions(s: HomeState, t: HomeState)
    requires PointerInvariant(s)
    requires t.status == s.status
    requires t.source.position == s.source.position
    requires t.destination.position == s.destination.position
    ensures PointerInvariant(t)
  {
  }

  /** Editing a search text, selecting a field, disabling the swipe and
      either half of a search never move a position or the status, so they
      keep the invariant. The two halves are covered separately, since a tap
      or a result click can land between them. */
  lemma FieldUpdatesKeepInvariant(s: HomeState, side: Side, search: string,
                                  field: PointerStatus, outcome: SearchOutcome)
    requires PointerInvariant(s)
    ensures PointerInvariant(UpdateSearch(s, side, search).state)
    ensures PointerInvariant(UpdateSelectedSearchField(s, field))
    ensures PointerInvariant(SwipeDisabled(s))
    ensures PointerInvariant(BeginSearch(s))
    ensures PointerInvariant(ApplySearchOutcome(s, outcome))
  {
    InvariantSeesOnlyPositions(s, UpdateSearch(s, side, search).state);
    InvariantSeesOnlyPositions(s, UpdateSelectedSearchField(s, field));
    InvariantSeesOnlyPositions(s, SwipeDisabled(s));
    InvariantSeesOnlyPositions(s, BeginSearch(s));
    InvariantSeesOnlyPositions(s, ApplySearchOutcome(s, outcome));
  }

  /** A search result carrying a position keeps the invariant, except in
      status Source when the selected field is not the destination field:
      that branch moves to Destination without choosing a destination. */
  lemma ResultClickKeepsInvariant(s: HomeState, place: DetailedPosition)
    requires PointerInvariant(s)
    requires place.position.Some?
    requires !(s.status == Source && s.selectedField != Destination)
    ensures PointerInvariant(LocationItemClick(s, place).state)
    ensures RouteRequested in LocationItemClick(s, place).effects ==>
      IsLocationChosen(LocationItemClick(s, place).state)
  {
  }

  /** In status Source a result click requests a route and reports the
      destination chosen even when no destination position exists. */
  lemma SourceStatusRequestsRouteWithoutDestination(s: HomeState, place: DetailedPosition)
    requires PointerInvariant(s) && s.status == Source
    requires s.selectedField != Destination
    ensures LocationItemClick(s, place).effects == [RouteRequested]
    ensures LocationItemClick(s, place).state.status == Destination
    ensures LocationItemClick(s, place).state.destination.position.None?
    ensures !PointerInvariant(LocationItemClick(s, place).state)
  {
  }

  // ---------------------------------------------------------------------
  // Search-result clicks

  /** In status Unset or Destination, a click with the source field
      selected chooses the source, and moves to Destination with a route
      request exactly when a destination position exists, else to Source. */
  lemma ResultClickChoosesSource(s: HomeState, place: DetailedPosition)
    requires s.status in {Unset, Destination} && s.selectedField == Source
    ensures LocationItemClick(s, place).state.source == place
    ensures LocationItemClick(s, place).state.sourceSearch == PlaceLabel(place.name, place.displayName)
    ensures LocationItemClick(s, place).state.destination == s.destination
    ensures LocationItemClick(s, place).state ==
      s.(source := place, sourceSearch := PlaceLabel(place.name, place.displayName),
         status := if s.destination.position.Some? then Destination else Source,
         results := Success([]))
    ensures s.destination.position.Some? ==>
      LocationItemClick(s, place).state.status == Destination &&
      LocationItemClick(s, place).effects == [RouteRequested]
    ensures s.destination.position.None? ==>
      LocationItemClick(s, place).state.status == Source &&
      LocationItemClick(s, place).effects == []
  {
  }

  /** The same with the destination field selected, falling back to
      DestinationWithoutSource. */
  lemma ResultClickChoosesDestination(s: HomeState, place: DetailedPosition)
    requires s.status in {Unset, Destination} && s.selectedField == Destination
    ensures LocationItemClick(s, place).state.destination == place
    ensures LocationItemClick(s, place).state.destinationSearch == PlaceLabel(place.name, place.displayName)
    ensures LocationItemClick(s, place).state.source == s.source
    ensures LocationItemClick(s, place).state ==
      s.(destination := place, destinationSearch := PlaceLabel(place.name, place.displayName),
         status := if s.source.position.Some? then Destination else DestinationWithoutSource,
         results := Success([]))
    ensures s.source.position.Some? ==>
      LocationItemClick(s, place).state.status == Destination &&
      LocationItemClick(s, place).effects == [RouteRequested]
    ensures s.source.position.None? ==>
      LocationItemClick(s, place).state.status == DestinationWithoutSource &&
      LocationItemClick(s, place).effects == []
  {
  }

  /** In status Unset or Destination, a click with no field selected
      changes nothing but the results. */
  lemma ResultClickWithoutField(s: HomeState, place: DetailedPosition)
    requires s.status in {Unset, Destination} && s.selectedField !in {Source, Destination}
    ensures LocationItemClick(s, place) == Step(s.(results := Success([])), [])
  {
  }

  /** In status Source every click requests a route and ends in
      Destination, whatever field is selected; the source field takes the
      place into the source, the destination field into the destination,
      and any other field changes no slot. */
  lemma ResultClickInSource(s: HomeState, place: DetailedPosition)
    requires s.status == Source
    ensures LocationItemClick(s, place).effects == [RouteRequested]
    ensures LocationItemClick(s, place).state.status == Destination
    ensures LocationItemClick(s, place).state ==
      (if s.selectedField == Source then
         s.(source := place, sourceSearch := PlaceLabel(place.name, place.displayName))
       else if s.selectedField == Destination then
         s.(destination := place, destinationSearch := PlaceLabel(place.name, place.displayName))
       else s).(status := Destination, results := Success([]))
  {
  }

  /** In status DestinationWithoutSource only a click with the source field
      selected has an effect beyond the results. */
  lemma ResultClickWithoutSource(s: HomeState, place: DetailedPosition)
    requires s.status == DestinationWithoutSource
    ensures s.selectedField == Source ==>
      && LocationItemClick(s, place).state ==
         s.(source := place, sourceSearch := PlaceLabel(place.name, place.displayName),
            status := Destination, results := Success([]))
      && LocationItemClick(s, place).effects == [RouteRequested]
    ensures s.selectedField != Source ==>
      LocationItemClick(s, place) == Step(s.(results := Success([])), [])
  {
  }

  // ---------------------------------------------------------------------
  // Reset

  /** Resetting twice is resetting once, and after a reset no location is
      chosen. */
  lemma ResetIdempotent(s: HomeState)
    ensures ResetLocationChoice(ResetLocationChoice(s)) == ResetLocationChoice(s)
    ensures !IsLocationChosen(ResetLocationChoice(s))
  {
  }
}
