# GoMauris location selection and time picker, modelled in Dafny

GoMauris is a ride-hailing style map application. Its home tab lets the
user choose a source and a destination, either by tapping the map or by
picking a forward-geocoding search result, and then asks a routing service
for a driving route. Its time screen offers hour and minute wheels.

This project models the decision logic of both:

- **The home tab's view-model** (module `HomeTab`). Its whole state
  is one immutable record: the source and destination places, the two
  search texts, the search results (`Idle`, `Loading`, `Success`,
  `Error`), the route, the pointer status, the selected search field and
  the bottom-sheet swipe flag. Every public operation is a pure function
  from the state and its input to the next state and the background requests
  it launches, in launch order: a route request, a reverse geocode of the
  source or destination slot carrying the status that decides where its label
  goes, or a search text queued for the debounced search pipeline. Completing
  a reverse geocode or a forward search is again a pure function of the state
  and the response's contents. The pointer status values are `Unset`
  (`MapPointerStatus.NONE`), `Source`, `Destination` and `DestinationWithoutSource`.
- **Multi-step properties** (module `HomeTabProperties`). Taps cycle the
  status `Unset → Source → Destination → Unset`; three taps from `Unset`
  return to the cleared state; a pointer invariant ties the status to which
  positions are chosen. Map taps keep it and request a route exactly when
  both positions are chosen afterwards. Result clicks keep it too, except
  in one branch: in status `Source` the code requests a route and moves to
  `Destination` without checking that a destination exists. The model keeps
  that behaviour as written, and a lemma exhibits it. Places that come from
  search are assumed to carry a position, as the search service always
  builds them with one.
- **The search-text pipeline** (module `SearchPipeline`): the untimed part
  of each field's query flow: blank texts are dropped, then a text equal to
  the previously issued one is not issued again. The flow operators it
  chains, `distinctUntilChanged` and dropping nulls, are in module `Flows`.
- **Route coordinates** (module `Geo`): a routing response's first route,
  given as GeoJSON `[longitude, latitude]` arrays, becomes the route shown;
  no route leaves the shown route as it was.
- **The wheel picker** (module `WheelPicker`): the selected value is the
  non-spacer visible item whose centre is closest to the viewport centre,
  the first such item on ties, mapped back to `items[index - 1]` or to
  null. Distances are compared doubled, as `|2·offset + size − height|`,
  so the `/ 2f` halves of `getSelectedValue` stay exact in integers. `PickerColumn`
  reports a selection only when it differs from the previous one and is
  not null.
- **Wheel labels** (module `TimeLabels`): hours "00" to "23" and minutes
  "00" to "59", built with the standard library's `toString` and
  `padStart`, modelled in module `Text`.

Behaviour of the code worth noting:

- A search-result click with the source field selected and no destination
  moves to `Source`, not to `DestinationWithoutSource`.
- In status `Source` a result click requests a route even when no
  destination position exists, so after a result click, a route request
  does not imply that both positions exist. After a map tap it does.
- Reverse geocoding and route fetching have no error handling in the
  view-model. Only the forward search turns a failure into an `Error` state.

## Model

| member | source | states |
|---|---|---|
| Text.IsBlank | composeApp/src/commonMain/kotlin/dev/shade/gomauris/viewmodel/HomeTabViewModel.kt:316 | A text is blank exactly when every character is whitespace, so the empty text is blank. |
| Text.PlaceLabel | composeApp/src/commonMain/kotlin/dev/shade/gomauris/viewmodel/HomeTabViewModel.kt:122-123 | The label is the display name when it is present and not blank, otherwise the name, so a non-null label is either the name or non-blank. |
| Text.DecimalString | composeApp/src/commonMain/kotlin/dev/shade/gomauris/ui/screen/RideChooseTimeScreen.kt:174-175 | `toString` of a non-negative value gives digits only, with no leading zero, and reads back as the value. |
| Text.LeadingZerosKeepValue | composeApp/src/commonMain/kotlin/dev/shade/gomauris/ui/screen/RideChooseTimeScreen.kt:174-175 | Zeros put in front of a numeral do not change its value. |
| Text.PadStart | composeApp/src/commonMain/kotlin/dev/shade/gomauris/ui/screen/RideChooseTimeScreen.kt:174-175 | `padStart` keeps the text as the suffix and fills the front with the pad character up to the length, never shortening. |
| HomeTab.Initial | composeApp/src/commonMain/kotlin/dev/shade/gomauris/viewmodel/HomeTabViewModel.kt:44-67 | A fresh view-model has no positions, no route, `Idle` results and status `Unset`. |
| HomeTab.Cleared | composeApp/src/commonMain/kotlin/dev/shade/gomauris/viewmodel/HomeTabViewModel.kt:96-104 | Clearing yields the initial state except for the selected field and swipe flag, which stay as they were; no location is chosen afterwards. |
| HomeTab.IsLocationChosen | composeApp/src/commonMain/kotlin/dev/shade/gomauris/viewmodel/HomeTabViewModel.kt:294-297 | True only when both positions are present. Under the pointer invariant, true exactly in status `Destination`. |
| HomeTab.MapClick | composeApp/src/commonMain/kotlin/dev/shade/gomauris/viewmodel/HomeTabViewModel.kt:81-113 | A tap moves the status one step round the tap cycle. It requests a route exactly in statuses `Source` and `DestinationWithoutSource`. It never changes the selected field or the swipe flag. Outside `Destination` it leaves texts, results and route alone. |
| HomeTab.ChooseResult | composeApp/src/commonMain/kotlin/dev/shade/gomauris/viewmodel/HomeTabViewModel.kt:117-146 | In `Unset`/`Destination`, a click changes nothing without a source or destination field. It requests a route exactly when the selected field's counterpart slot already holds a position. |
| HomeTab.LocationItemClick | composeApp/src/commonMain/kotlin/dev/shade/gomauris/viewmodel/HomeTabViewModel.kt:115-217 | Every result click ends with results `Success([])`. It leaves route, selected field and swipe flag unchanged. It requests at most one route. A slot it changes becomes the clicked place. |
| HomeTab.ApplyReverseGeocode | composeApp/src/commonMain/kotlin/dev/shade/gomauris/viewmodel/HomeTabViewModel.kt:250-261 | The target slot keeps its coordinates and takes both names. The label goes to the source text for `Source`/`DestinationWithoutSource`, to the destination text for `Destination`, and nowhere for `Unset`. Nothing else changes. |
| HomeTab.BeginSearch | composeApp/src/commonMain/kotlin/dev/shade/gomauris/viewmodel/HomeTabViewModel.kt:265-267 | Starting a forward search shows `Loading` and changes nothing else. |
| HomeTab.ApplySearchOutcome | composeApp/src/commonMain/kotlin/dev/shade/gomauris/viewmodel/HomeTabViewModel.kt:268-276 | A search yields `Success` with the places found, or `Error` with the failure's message. Nothing else changes. |
| HomeTab.UpdateSearch | composeApp/src/commonMain/kotlin/dev/shade/gomauris/viewmodel/HomeTabViewModel.kt:280-288 | Typing sets exactly that field's text and queues the same text on that field's pipeline. |
| HomeTab.UpdateSelectedSearchField | composeApp/src/commonMain/kotlin/dev/shade/gomauris/viewmodel/HomeTabViewModel.kt:290-292 | Only the selected field changes, to the given one. |
| HomeTab.SwipeDisabled | composeApp/src/commonMain/kotlin/dev/shade/gomauris/viewmodel/HomeTabViewModel.kt:77-79 | Only the swipe flag changes, to disabled. |
| HomeTab.ResetLocationChoice | composeApp/src/commonMain/kotlin/dev/shade/gomauris/viewmodel/HomeTabViewModel.kt:299-309 | A reset returns every field to its initial value, whatever the state. No location is chosen afterwards, swipe is enabled, and field and status are `Unset`. |
| HomeTabProperties.TapInUnsetChoosesSource | composeApp/src/commonMain/kotlin/dev/shade/gomauris/viewmodel/HomeTabViewModel.kt:83-87 | A tap in `Unset` sets only the source position, requests only the source's reverse geocode and moves to `Source`. |
| HomeTabProperties.TapInSourceChoosesDestination | composeApp/src/commonMain/kotlin/dev/shade/gomauris/viewmodel/HomeTabViewModel.kt:89-94 | A tap in `Source` sets only the destination position, requests its reverse geocode and then a route, and moves to `Destination`. |
| HomeTabProperties.TapWithoutSourceChoosesSource | composeApp/src/commonMain/kotlin/dev/shade/gomauris/viewmodel/HomeTabViewModel.kt:106-111 | A tap in `DestinationWithoutSource` sets the source position, requests its reverse geocode and a route, and moves to `Destination`. |
| HomeTabProperties.TapInDestinationClears | composeApp/src/commonMain/kotlin/dev/shade/gomauris/viewmodel/HomeTabViewModel.kt:96-104 | A tap in `Destination` clears the choice and requests nothing. |
| HomeTabProperties.ThreeTapsClear | composeApp/src/commonMain/kotlin/dev/shade/gomauris/viewmodel/HomeTabViewModel.kt:81-113 | Three taps from `Unset` reach the cleared state of the starting state, whatever positions were tapped. |
| HomeTabProperties.TapsCycleStatus | composeApp/src/commonMain/kotlin/dev/shade/gomauris/viewmodel/HomeTabViewModel.kt:81-113 | After n taps from a status on the cycle, the status is n steps further round `Unset → Source → Destination`. |
| HomeTabProperties.TapsKeepFieldAndSwipe | composeApp/src/commonMain/kotlin/dev/shade/gomauris/viewmodel/HomeTabViewModel.kt:81-113 | No sequence of taps changes the selected field or the swipe flag. |
| HomeTabProperties.ResetEstablishesInvariant | composeApp/src/commonMain/kotlin/dev/shade/gomauris/viewmodel/HomeTabViewModel.kt:299-309 | The initial state and every reset state satisfy the pointer invariant. |
| HomeTabProperties.TapKeepsInvariant | composeApp/src/commonMain/kotlin/dev/shade/gomauris/viewmodel/HomeTabViewModel.kt:81-113 | A tap keeps the pointer invariant. It requests a route exactly when both positions are chosen afterwards. |
| HomeTabProperties.TapsKeepInvariant | composeApp/src/commonMain/kotlin/dev/shade/gomauris/viewmodel/HomeTabViewModel.kt:81-113 | Any sequence of taps keeps the pointer invariant. |
| HomeTabProperties.ReverseGeocodeKeepsInvariant | composeApp/src/commonMain/kotlin/dev/shade/gomauris/viewmodel/HomeTabViewModel.kt:250-252 | Completing a reverse geocode keeps the pointer invariant. |
| HomeTabProperties.FieldUpdatesKeepInvariant | composeApp/src/commonMain/kotlin/dev/shade/gomauris/viewmodel/HomeTabViewModel.kt:265-292 | Text edits, field selection and disabling swipe keep the pointer invariant. So does each half of a forward search, starting it (`Loading`) and applying its outcome, on any state that satisfies the invariant. A tap or result click landing between the halves therefore cannot break it. |
| HomeTabProperties.ResultClickKeepsInvariant | composeApp/src/commonMain/kotlin/dev/shade/gomauris/viewmodel/HomeTabViewModel.kt:115-217 | A click on a result with a position keeps the invariant. A route it requests finds both positions chosen. The one exception is status `Source` without the destination field. |
| HomeTabProperties.SourceStatusRequestsRouteWithoutDestination | composeApp/src/commonMain/kotlin/dev/shade/gomauris/viewmodel/HomeTabViewModel.kt:148-167 | In `Source`, a click without the destination field requests a route and moves to `Destination` while no destination position exists, breaking the invariant. |
| HomeTabProperties.ResultClickChoosesSource | composeApp/src/commonMain/kotlin/dev/shade/gomauris/viewmodel/HomeTabViewModel.kt:120-130 | In `Unset`/`Destination` with the source field, the place and its label become the source. It goes to `Destination` with a route request if a destination position exists, else to `Source` with none. Nothing else changes except the results, which become `Success([])`: the destination and its text are untouched. |
| HomeTabProperties.ResultClickChoosesDestination | composeApp/src/commonMain/kotlin/dev/shade/gomauris/viewmodel/HomeTabViewModel.kt:132-142 | The same with the destination field, falling back to `DestinationWithoutSource` when no source position exists. Nothing else changes except the results, which become `Success([])`: the source and its text are untouched. |
| HomeTabProperties.ResultClickWithoutField | composeApp/src/commonMain/kotlin/dev/shade/gomauris/viewmodel/HomeTabViewModel.kt:118-119 | In `Unset`/`Destination` with no source or destination field selected, only the results change. |
| HomeTabProperties.ResultClickInSource | composeApp/src/commonMain/kotlin/dev/shade/gomauris/viewmodel/HomeTabViewModel.kt:148-167 | In `Source` every click requests a route and ends in `Destination`, whatever field is selected. The source field puts the place and its label into the source, the destination field into the destination, and any other field changes no slot. |
| HomeTabProperties.ResultClickWithoutSource | composeApp/src/commonMain/kotlin/dev/shade/gomauris/viewmodel/HomeTabViewModel.kt:169-183 | In `DestinationWithoutSource` only a source-field click changes the choice: source, label, status `Destination` and a route request. Any other click changes only the results. |
| HomeTabProperties.ResetIdempotent | composeApp/src/commonMain/kotlin/dev/shade/gomauris/viewmodel/HomeTabViewModel.kt:294-309 | Resetting twice equals resetting once, and `isLocationChosen` is false after a reset. |
| Geo.PositionOf | composeApp/src/commonMain/kotlin/dev/shade/gomauris/viewmodel/HomeTabViewModel.kt:236-240 | A coordinate array becomes a position with longitude element 0 and latitude element 1. |
| Geo.ApplyRouteResponse | composeApp/src/commonMain/kotlin/dev/shade/gomauris/viewmodel/HomeTabViewModel.kt:227-241 | No route leaves the route unchanged. Otherwise the first route's geometry becomes the route, with the same length and each position taken from its array. A short array leaves the route unchanged. |
| Geo.RouteDecodesEncodedPath | composeApp/src/commonMain/kotlin/dev/shade/gomauris/viewmodel/HomeTabViewModel.kt:232-241 | A path encoded as `[longitude, latitude]` arrays and received as the first route is shown exactly. |
| Geo.EncodedRouteIsGeometry | composeApp/src/commonMain/kotlin/dev/shade/gomauris/viewmodel/HomeTabViewModel.kt:235-241 | A geometry of plain pairs is recovered exactly by re-encoding the route shown for it. |
| SearchPipeline.DropBlank | composeApp/src/commonMain/kotlin/dev/shade/gomauris/viewmodel/HomeTabViewModel.kt:316 | The filter never grows the sequence, and keeps a leading text that is not blank. |
| SearchPipeline.DropBlankMembers | composeApp/src/commonMain/kotlin/dev/shade/gomauris/viewmodel/HomeTabViewModel.kt:316 | The filter keeps exactly the non-blank texts. |
| SearchPipeline.DropBlankDistributes | composeApp/src/commonMain/kotlin/dev/shade/gomauris/viewmodel/HomeTabViewModel.kt:316 | Filtering a concatenation concatenates the filtered parts, so surviving texts keep their order. |
| Flows.DistinctUntilChanged | composeApp/src/commonMain/kotlin/dev/shade/gomauris/viewmodel/HomeTabViewModel.kt:317 | The output is never longer than the input, and a first value different from the last one emitted is emitted first. |
| Flows.DistinctShape | composeApp/src/commonMain/kotlin/dev/shade/gomauris/viewmodel/HomeTabViewModel.kt:317 | The output has no two equal neighbours, does not start with the last emitted value, and holds only input values. |
| Flows.DistinctAppend | composeApp/src/commonMain/kotlin/dev/shade/gomauris/viewmodel/HomeTabViewModel.kt:317 | Over a concatenation the operator runs part by part, the second part compared with the last value of the first, so input order is kept. |
| Flows.DistinctStep | composeApp/src/commonMain/kotlin/dev/shade/gomauris/viewmodel/HomeTabViewModel.kt:317 | One more value is emitted exactly when it differs from the value just before it. |
| Flows.DistinctKeepsValues | composeApp/src/commonMain/kotlin/dev/shade/gomauris/viewmodel/HomeTabViewModel.kt:317 | Every input value is emitted unless it equals the value emitted just before the input started. |
| Flows.DistinctFixesNoRepeats | composeApp/src/commonMain/kotlin/dev/shade/gomauris/viewmodel/HomeTabViewModel.kt:317 | A sequence without equal neighbours passes unchanged. |
| SearchPipeline.IssuedSearches | composeApp/src/commonMain/kotlin/dev/shade/gomauris/viewmodel/HomeTabViewModel.kt:314-318 | The searches issued are non-blank and never repeat a neighbour. A text is issued iff it reached the pipeline and is not blank. |
| SearchPipeline.IssuedSearchesStep | composeApp/src/commonMain/kotlin/dev/shade/gomauris/viewmodel/HomeTabViewModel.kt:314-318 | One more text is issued exactly when it is not blank and differs from the last non-blank text before it. So searches are issued in input order, once per change of text. |
| SearchPipeline.RepeatIssuedOnceAfterChange | composeApp/src/commonMain/kotlin/dev/shade/gomauris/viewmodel/HomeTabViewModel.kt:314-318 | Two equal texts in a row issue one search. A text issued again after a different one is issued a second time: `[a, b, a]` issues three searches. |
| SearchPipeline.IssuedSearchesIdempotent | composeApp/src/commonMain/kotlin/dev/shade/gomauris/viewmodel/HomeTabViewModel.kt:314-318 | Passing the issued searches through the pipeline again issues the same searches. |
| WheelPicker.MinByOrNull | composeApp/src/commonMain/kotlin/dev/shade/gomauris/ui/screen/RideChooseTimeScreen.kt:493-498 | Null iff no visible item is a non-spacer. Otherwise the chosen item is a candidate with the least doubled centre distance, strictly closer than every candidate before it. |
| WheelPicker.ClosestIsUnique | composeApp/src/commonMain/kotlin/dev/shade/gomauris/ui/screen/RideChooseTimeScreen.kt:495-498 | The closest candidate with first-wins ties is unique. |
| WheelPicker.ItemAt | composeApp/src/commonMain/kotlin/dev/shade/gomauris/ui/screen/RideChooseTimeScreen.kt:500-505 | An index maps to the item there when in range, and to null otherwise. |
| WheelPicker.SelectedValue | composeApp/src/commonMain/kotlin/dev/shade/gomauris/ui/screen/RideChooseTimeScreen.kt:488-507 | Null when the viewport height is not positive, when nothing is visible, or when no candidate exists. Otherwise the value is the closest candidate's `items[index - 1]` or null, and a value is always one of the items. |
| WheelPicker.TrailingSpacerSelectsNothing | composeApp/src/commonMain/kotlin/dev/shade/gomauris/ui/screen/RideChooseTimeScreen.kt:500-505 | When the trailing spacer at index `items.size + 1` is closest, nothing is selected. |
| WheelPicker.SelectedValueIterative | composeApp/src/commonMain/kotlin/dev/shade/gomauris/ui/screen/RideChooseTimeScreen.kt:493-505 | Kotlin's `minByOrNull`, run as a loop that replaces the held candidate only when strictly closer, then mapped back to an item. It selects the same value as the rule for every layout. Both `getSelectedValue` and `PickerColumn` (lines 363-375) use this chain. |
| WheelPicker.Selections | composeApp/src/commonMain/kotlin/dev/shade/gomauris/ui/screen/RideChooseTimeScreen.kt:358-376 | One selection per layout snapshot, in order, each the rule's value for that snapshot. |
| WheelPicker.ReportedSelections | composeApp/src/commonMain/kotlin/dev/shade/gomauris/ui/screen/RideChooseTimeScreen.kt:357-379 | Every reported value is one of the items, and there are never more reports than snapshots. |
| WheelPicker.ReportedStep | composeApp/src/commonMain/kotlin/dev/shade/gomauris/ui/screen/RideChooseTimeScreen.kt:357-379 | One more snapshot reports its selection exactly when it is non-null and differs from the previous snapshot's selection, so reports are the changed non-null selections in snapshot order. |
| WheelPicker.ReportOnlyNonNull | composeApp/src/commonMain/kotlin/dev/shade/gomauris/ui/screen/RideChooseTimeScreen.kt:370-379 | A snapshot produces a report exactly when the rule selects a non-null value, and the report is that value. |
| WheelPicker.SameSelectionReportedOnce | composeApp/src/commonMain/kotlin/dev/shade/gomauris/ui/screen/RideChooseTimeScreen.kt:357-379 | A second snapshot with the same selection as the first adds no report, so a non-null value selected twice in a row is reported once. |
| Flows.Present | composeApp/src/commonMain/kotlin/dev/shade/gomauris/ui/screen/RideChooseTimeScreen.kt:377-379 | Dropping nulls never grows the sequence, and keeps a leading non-null value. |
| Flows.PresentMembers | composeApp/src/commonMain/kotlin/dev/shade/gomauris/ui/screen/RideChooseTimeScreen.kt:377-379 | A value is kept exactly when it occurs non-null in the input. |
| Flows.PresentAppend | composeApp/src/commonMain/kotlin/dev/shade/gomauris/ui/screen/RideChooseTimeScreen.kt:377-379 | Dropping nulls from a concatenation drops them from each part, keeping order. |
| TimeLabels.TwoDigitLabel | composeApp/src/commonMain/kotlin/dev/shade/gomauris/ui/screen/RideChooseTimeScreen.kt:174-175 | A label has at least two characters, exactly two below 100, and reads back as its value. |
| TimeLabels.LabelDigits | composeApp/src/commonMain/kotlin/dev/shade/gomauris/ui/screen/RideChooseTimeScreen.kt:174-175 | For values below 100, the padded decimal label is the tens digit followed by the units digit. |
| TimeLabels.Labels | composeApp/src/commonMain/kotlin/dev/shade/gomauris/ui/screen/RideChooseTimeScreen.kt:174-175 | Label i of the first `count` values is the tens digit of i followed by its units digit. |
| TimeLabels.DigitsReadBack | composeApp/src/commonMain/kotlin/dev/shade/gomauris/ui/screen/RideChooseTimeScreen.kt:174-175 | Two decimal digits written from a value below 100 read back as that value. |
| TimeLabels.LabelsReadBack | composeApp/src/commonMain/kotlin/dev/shade/gomauris/ui/screen/RideChooseTimeScreen.kt:174-175 | Every label is two characters long and reads back as its value. |
| TimeLabels.HourLabels | composeApp/src/commonMain/kotlin/dev/shade/gomauris/ui/screen/RideChooseTimeScreen.kt:174 | Exactly 24 labels; label i is the two digits of i, so "00" to "23", each of length 2. |
| TimeLabels.MinuteLabels | composeApp/src/commonMain/kotlin/dev/shade/gomauris/ui/screen/RideChooseTimeScreen.kt:175 | Exactly 60 labels; label i is the two digits of i, so "00" to "59", each of length 2. |
| TimeLabels.LabelsDistinct | composeApp/src/commonMain/kotlin/dev/shade/gomauris/ui/screen/RideChooseTimeScreen.kt:174-175 | Distinct values get distinct labels. |

## Left out

- HTTP requests and JSON decoding (the reverse geocode, the forward search service and the route fetch): network I/O. Each is a requested effect, and its completion is a function of the response's decoded contents.
- Route requests carry no payload: the request task reads the source and destination when it runs, which is a concurrency matter.
- Coroutines, the search channels, the 600 ms debounce and the last-write-wins races between background tasks: timing and concurrency. Only the untimed filter and dedup stages of the search pipeline are modelled.
- Geo.ApplyRouteResponse: a missing `routes`, `geometry` or `coordinates` key, or a non-numeric coordinate, throws inside the request task. The model takes the response as already decoded and only covers the short-array case, as "route unchanged".
- Text.IsWhitespace: Kotlin's whitespace test is written out as the fixed list of Unicode separators and control characters it accepts; no Unicode database is consulted.
- Floating point: coordinates are opaque reals. Picker distances are exact doubled integers, so float rounding of very large offsets is not modelled.
- WheelPicker.ReportedSelections: the equal-value deduplication of `snapshotFlow` is modelled, but its conflation is not. At runtime it may skip intermediate layouts that were never observed, which depends on frame timing. The model treats every given snapshot as observed.
- The initial snap animation, `lerp`, font sizes and alpha styling are presentation.
- All Compose UI, navigation, theming, fonts, dependency injection, platform HTTP clients and the build script: presentation and platform glue.
