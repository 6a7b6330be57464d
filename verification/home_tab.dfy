/** The location-selection state machine of the home tab's view-model.
    Every public operation of the view-model is a pure function from the
    current state (and its input) to the next state, plus the asynchronous
    requests it launches, in launch order. */
module HomeTab {
  import opened Wrappers
  import opened Text
  import opened Geo

  /** The view-model's pointer status, also used for the selected search
      field. `Unset` is `MapPointerStatus.NONE`. */
  datatype PointerStatus = Unset | Source | Destination | DestinationWithoutSource

  /** The observable state of the forward-geocoding search results. */
  datatype SearchResults =
    | Idle
    | Loading
    | Success(places: seq<DetailedPosition>)
    | Error(message: Option<string>)

  /** Which of the two position slots an operation targets. */
  datatype Side = SourceSide | DestinationSide

  /** A request launched as a background task. */
  datatype Effect =
    /** A driving route between the current source and destination. */
    | RouteRequested
    /** A reverse geocode of the position in `side`, whose label is then
        written as `status` dictates (see `ApplyReverseGeocode`). */
    | ReverseGeocodeRequested(side: Side, status: PointerStatus)
    /** A search text sent to the debounced query pipeline of `side`. */
    | SearchQueued(side: Side, query: string)

  /** The whole state the view-model holds. */
  datatype HomeState = HomeState(
    source: DetailedPosition,
    destination: DetailedPosition,
    sourceSearch: Option<string>,
    destinationSearch: Option<string>,
    results: SearchResults,
    route: seq<Position>,
    status: PointerStatus,
    selectedField: PointerStatus,
    swipeEnabled: bool)

  /** The next state and the requests launched on the way. */
  datatype Step = Step(state: HomeState, effects: seq<Effect>)

  /** The state of a freshly constructed view-model. */
  function Initial(): (s: HomeState)
    ensures s.source.position.None? && s.destination.position.None?
    ensures s.route == [] && s.results == Idle && s.status == Unset
  {
    HomeState(Unchosen, Unchosen, None, None, Idle, [], Unset, Unset, true)
  }

  /** The pointer invariant: the status says which positions are chosen.
      Unset: nothing; Source: only the source; Destination: both;
      DestinationWithoutSource: only the destination. */
  predicate PointerInvariant(s: HomeState) {
    match s.status
    case Unset => s.source.position.None? && s.destination.position.None?
    case Source => s.source.position.Some? && s.destination.position.None?
    case Destination => s.source.position.Some? && s.destination.position.Some?
    case DestinationWithoutSource => s.source.position.None? && s.destination.position.Some?
  }

  /** `isLocationChosen()`: both positions are present. Under the pointer
      invariant that is exactly status Destination. */
  function IsLocationChosen(s: HomeState): (chosen: bool)
    ensures chosen ==> s.source.position.Some? && s.destination.position.Some?
    ensures PointerInvariant(s) ==> (chosen <==> s.status == Destination)
  {
    s.source.position.Some? && s.destination.position.Some?
  }

  /** The clearing done by a map tap in status `Destination`: every choice,
      both search texts, the results and the route go, while the selected
      field and the swipe flag stay. */
  function Cleared(s: HomeState): (r: HomeState)
    ensures r == Initial().(selectedField := s.selectedField, swipeEnabled := s.swipeEnabled)
    ensures !IsLocationChosen(r)
  {
    s.(source := Unchosen, destination := Unchosen,
       sourceSearch := None, destinationSearch := None,
       results := Idle, route := [], status := Unset)
  }

  /** Where a map tap moves the pointer status. */
  function TapTarget(status: PointerStatus): PointerStatus {
    match status
    case Unset => Source
    case Source => Destination
    case Destination => Unset
    case DestinationWithoutSource => Destination
  }

  /** `mapClick(position)`. */
  function MapClick(s: HomeState, p: Position): (r: Step)
    ensures r.state.status == TapTarget(s.status)
    ensures r.state.selectedField == s.selectedField
    ensures r.state.swipeEnabled == s.swipeEnabled
    ensures RouteRequested in r.effects <==> s.status in {Source, DestinationWithoutSource}
    ensures s.status != Destination ==>
      && r.state.results == s.results
      && r.state.route == s.route
      && r.state.sourceSearch == s.sourceSearch
      && r.state.destinationSearch == s.destinationSearch
  {
    match s.status
    case Unset =>
      Step(s.(source := s.source.(position := Some(p)), status := Source),
           [ReverseGeocodeRequested(SourceSide, Source)])
    case Source =>
      Step(s.(destination := s.destination.(position := Some(p)), status := Destination),
           [ReverseGeocodeRequested(DestinationSide, Destination), RouteRequested])
    case Destination =>
      Step(Cleared(s), [])
    case DestinationWithoutSource =>
      Step(s.(source := s.source.(position := Some(p)), status := Destination),
           [ReverseGeocodeRequested(SourceSide, DestinationWithoutSource), RouteRequested])
  }

  /** A search result chosen in status `Unset` or `Destination`: the
      selected field takes the place; a route is requested once the other
      slot holds a position, and otherwise the status records which slot is
      still missing. */
  function ChooseResult(s: HomeState, place: DetailedPosition): (r: Step)
    requires s.status in {Unset, Destination}
    ensures s.selectedField !in {Source, Destination} ==> r == Step(s, [])
    ensures r.effects == [] || r.effects == [RouteRequested]
    ensures r.effects == [RouteRequested] <==>
      ((s.selectedField == Source && s.destination.position.Some?) ||
       (s.selectedField == Destination && s.source.position.Some?))
  {
    var shown := PlaceLabel(place.name, place.displayName);
    match s.selectedField
    case Source =>
      var chosen := s.(source := place, sourceSearch := shown);
      if s.destination.position.Some? then Step(chosen.(status := Destination), [RouteRequested])
      else Step(chosen.(status := Source), [])
    case Destination =>
      var chosen := s.(destination := place, destinationSearch := shown);
      if s.source.position.Some? then Step(chosen.(status := Destination), [RouteRequested])
      else Step(chosen.(status := DestinationWithoutSource), [])
    case _ => Step(s, [])
  }

  /** `locationItemClick(place)`: a search result was tapped. */
  function LocationItemClick(s: HomeState, place: DetailedPosition): (r: Step)
    ensures r.state.results == Success([])
    ensures r.state.route == s.route
    ensures r.state.selectedField == s.selectedField
    ensures r.state.swipeEnabled == s.swipeEnabled
    ensures r.effects == [] || r.effects == [RouteRequested]
    ensures r.state.source != s.source ==> r.state.source == place
    ensures r.state.destination != s.destination ==> r.state.destination == place
  {
    var shown := PlaceLabel(place.name, place.displayName);
    var step := (
      match s.status
      case Unset => ChooseResult(s, place)
      case Destination => ChooseResult(s, place)
      case Source =>
        var chosen := (
          match s.selectedField
          case Source => s.(source := place, sourceSearch := shown)
          case Destination => s.(destination := place, destinationSearch := shown)
          case _ => s);
        Step(chosen.(status := Destination), [RouteRequested])
      case DestinationWithoutSource =>
        if s.selectedField == Source then
          Step(s.(source := place, sourceSearch := shown, status := Destination), [RouteRequested])
        else Step(s, []));
    Step(step.state.(results := Success([])), step.effects)
  }

  /** The completion of a reverse geocode requested for `side` with
      `status`, once the response's `name` and `displayName` are in: the
      slot keeps its coordinates and takes both names; the label then goes
      to the source search text for `Source` and `DestinationWithoutSource`,
      to the destination search text for `Destination`, and nowhere for
      `Unset`. */
  function ApplyReverseGeocode(s: HomeState, side: Side, status: PointerStatus,
                               name: Option<string>, displayName: Option<string>): (r: HomeState)
    ensures side == SourceSide ==>
      && r.source == DetailedPosition(s.source.position, name, displayName)
      && r.destination == s.destination
    ensures side == DestinationSide ==>
      && r.destination == DetailedPosition(s.destination.position, name, displayName)
      && r.source == s.source
    ensures r.sourceSearch ==
      if status in {Source, DestinationWithoutSource} then PlaceLabel(name, displayName) else s.sourceSearch
    ensures r.destinationSearch ==
      if status == Destination then PlaceLabel(name, displayName) else s.destinationSearch
    ensures r.(source := s.source, destination := s.destination,
               sourceSearch := s.sourceSearch, destinationSearch := s.destinationSearch) == s
  {
    var named := (
      match side
      case SourceSide => s.(source := s.source.(name := name, displayName := displayName))
      case DestinationSide => s.(destination := s.destination.(name := name, displayName := displayName)));
    var shown := PlaceLabel(name, displayName);
    match status
    case Unset => named
    case Source => named.(sourceSearch := shown)
    case DestinationWithoutSource => named.(sourceSearch := shown)
    case Destination => named.(destinationSearch := shown)
  }

  /** `geoDecode(location)` as it starts: the results show as loading. */
  function BeginSearch(s: HomeState): (r: HomeState)
    ensures r.results.Loading?
    ensures r.(results := s.results) == s
  {
    s.(results := Loading)
  }

  /** The outcome of a forward-geocoding search: the places found, or the
      failure's message. */
  datatype SearchOutcome = Found(places: seq<DetailedPosition>) | Failed(message: Option<string>)

  /** `geoDecode(location)` as it completes. */
  function ApplySearchOutcome(s: HomeState, outcome: SearchOutcome): (r: HomeState)
    ensures outcome.Found? <==> r.results.Success?
    ensures outcome.Found? ==> r.results.places == outcome.places
    ensures outcome.Failed? ==> r.results == Error(outcome.message)
    ensures r.(results := s.results) == s
  {
    match outcome
    case Found(places) => s.(results := Success(places))
    case Failed(message) => s.(results := Error(message))
  }

  /** `updateSourceSearch(search)` and `updateDestinationSearch(search)`:
      the field shows the text and the text goes to that field's query
      pipeline. */
  function UpdateSearch(s: HomeState, side: Side, search: string): (r: Step)
    ensures side == SourceSide ==> r.state == s.(sourceSearch := Some(search))
    ensures side == DestinationSide ==> r.state == s.(destinationSearch := Some(search))
    ensures r.effects == [SearchQueued(side, search)]
  {
    match side
    case SourceSide => Step(s.(sourceSearch := Some(search)), [SearchQueued(side, search)])
    case DestinationSide => Step(s.(destinationSearch := Some(search)), [SearchQueued(side, search)])
  }

  /** `updateSelectedSearchField(status)`. */
  function UpdateSelectedSearchField(s: HomeState, field: PointerStatus): (r: HomeState)
    ensures r.selectedField == field
    ensures r.(selectedField := s.selectedField) == s
  {
    s.(selectedField := field)
  }

  /** `swipeDisabled()`. */
  function SwipeDisabled(s: HomeState): (r: HomeState)
    ensures !r.swipeEnabled
    ensures r.(swipeEnabled := s.swipeEnabled) == s
  {
    s.(swipeEnabled := false)
  }

  /** `resetLocationChoice()`: every field back to its initial value. */
  function ResetLocationChoice(s: HomeState): (r: HomeState)
    ensures r == Initial()
    ensures !IsLocationChosen(r)
    ensures r.swipeEnabled && r.selectedField == Unset && r.status == Unset
  {
    HomeState(Unchosen, Unchosen, None, None, Idle, [], Unset, Unset, true)
  }
}
