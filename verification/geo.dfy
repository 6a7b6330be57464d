/** Geographic values of the application: positions, places and routes. */
module Geo {
  import opened Wrappers

  /** A map position. Coordinates are opaque here: nothing in the modelled
      core computes with them, it only stores and moves them. */
  datatype Position = Position(latitude: real, longitude: real)

  /** A position with the optional short name and display name that
      geocoding attaches to it; every part may still be null. */
  datatype DetailedPosition = DetailedPosition(
    position: Option<Position>,
    name: Option<string>,
    displayName: Option<string>)

  /** `DetailedPosition(null, null, null)`: a slot with nothing chosen. */
  const Unchosen := DetailedPosition(None, None, None)

  /** One coordinate array of a GeoJSON line string: `[longitude, latitude, ...]`. */
  type CoordinateArray = seq<real>

  /** The geometry of one route in a routing response. */
  type RouteGeometry = seq<CoordinateArray>

  /** Every coordinate array carries at least a longitude and a latitude. */
  predicate WellFormed(geometry: RouteGeometry) {
    forall i :: 0 <= i < |geometry| ==> |geometry[i]| >= 2
  }

  /** `Position(latitude = coord[1], longitude = coord[0])`. */
  function PositionOf(coord: CoordinateArray): (p: Position)
    requires |coord| >= 2
    ensures p.longitude == coord[0] && p.latitude == coord[1]
  {
    Position(coord[1], coord[0])
  }

  /** The route shown after a routing response with the given `routes`
      arrives while `current` is shown. No route leaves `current` as it was;
      otherwise the first route's geometry replaces it, position by position.
      A coordinate array too short to index throws inside the request task
      before anything is written, which also leaves `current` as it was. */
  function ApplyRouteResponse(current: seq<Position>, routes: seq<RouteGeometry>): (r: seq<Position>)
    ensures |routes| == 0 ==> r == current
    ensures |routes| > 0 && WellFormed(routes[0]) ==>
      && |r| == |routes[0]|
      && forall i :: 0 <= i < |r| ==>
           r[i].longitude == routes[0][i][0] && r[i].latitude == routes[0][i][1]
    ensures |routes| > 0 && !WellFormed(routes[0]) ==> r == current
  {
    if |routes| == 0 then current
    else if WellFormed(routes[0]) then
      var geometry := routes[0];
      seq(|geometry|, i requires 0 <= i < |geometry| => PositionOf(geometry[i]))
    else current
  }

  /** The GeoJSON geometry a routing service returns for `path`: each
      position written as `[longitude, latitude]`. */
  function GeoJsonGeometry(path: seq<Position>): (g: RouteGeometry)
    ensures |g| == |path|
    ensures WellFormed(g)
  {
    seq(|path|, i requires 0 <= i < |path| => [path[i].longitude, path[i].latitude])
  }

  /** A route received as GeoJSON is shown as exactly the path that was
      encoded, whatever was shown before and whatever other routes follow. */
  lemma RouteDecodesEncodedPath(current: seq<Position>, path: seq<Position>, others: seq<RouteGeometry>)
    ensures ApplyRouteResponse(current, [GeoJsonGeometry(path)] + others) == path
  {
  }

  /** Conversely, a geometry of plain `[longitude, latitude]` pairs is
      recovered exactly by encoding the route it produced. */
  lemma EncodedRouteIsGeometry(current: seq<Position>, geometry: RouteGeometry, others: seq<RouteGeometry>)
    requires forall i :: 0 <= i < |geometry| ==> |geometry[i]| == 2
    ensures GeoJsonGeometry(ApplyRouteResponse(current, [geometry] + others)) == geometry
  {
    var routes := [geometry] + others;
    assert routes[0] == geometry;
    var g := GeoJsonGeometry(ApplyRouteResponse(current, routes));
    assert |g| == |geometry|;
    forall i | 0 <= i < |geometry| ensures g[i] == geometry[i] {
      assert g[i] == [geometry[i][0], geometry[i][1]];
    }
  }
}
