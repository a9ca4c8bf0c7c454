/**
 * The static map configuration: the campus ring used as the geofence, the
 * rectangle the view is confined to, the initial center and zoom, and the
 * zoom range of the map instance.
 */
module MapConfig {
  import Geofence

  /** Initial view center, as [lat, lng]. */
  const CenterLat: real := 31.4025255
  const CenterLng: real := 74.210633

  const DefaultZoom: int := 16
  const MinZoom: int := 16
  const MaxZoom: int := 19

  /** The campus boundary as (lng, lat) vertices; the last repeats the first. */
  const Ring: seq<Geofence.Vertex> := [
    (74.20550737084938, 31.406192560246453),
    (74.20516020996513, 31.403528648841544),
    (74.20440869754225, 31.401389900285366),
    (74.20432349776945, 31.400924990781533),
    (74.20588784737765, 31.399901350854137),
    (74.20513106726784, 31.39888086586498),
    (74.21717278188575, 31.398691925644158),
    (74.2170621043621, 31.399523259769765),
    (74.21022223337434, 31.405569104645508),
    (74.20867274803769, 31.40570135314968),
    (74.20741102426376, 31.405814708861357),
    (74.20550737084938, 31.406192560246453)
  ]

  datatype Rect = Rect(north: real, south: real, east: real, west: real)

  /** The rectangle the view may not leave (an approximation of the ring). */
  const Bounds := Rect(31.406516, 31.398535, 74.217080, 74.204186)

  /** The ring is closed: its last vertex is its first. */
  lemma RingClosed()
    ensures |Ring| == 12 && Ring[|Ring| - 1] == Ring[0]
  {
  }

  /** Dropping the repeated closing vertex gives the same answer for every point. */
  lemma OpenRingSameAnswer(lat: real, lng: real)
    ensures Geofence.Inside(Ring[..|Ring| - 1], lat, lng) <==> Geofence.Inside(Ring, lat, lng)
  {
    Geofence.DropClosingVertex(Ring, lat, lng);
  }

  /** Apart from the closing repeat, the 11 vertices are pairwise distinct. */
  lemma RingDistinct()
    ensures forall i, j :: 0 <= i < j < |Ring| - 1 ==> Ring[i] != Ring[j]
  {
  }

  lemma BoundsOrdered()
    ensures Bounds.south < Bounds.north && Bounds.west < Bounds.east
  {
  }

  lemma CenterInBounds()
    ensures Bounds.south <= CenterLat <= Bounds.north && Bounds.west <= CenterLng <= Bounds.east
  {
  }

  lemma DefaultZoomInRange()
    ensures MinZoom <= DefaultZoom <= MaxZoom
  {
  }

  /** The rectangle does not contain the whole ring: vertex 7 lies east of it. */
  lemma BoundsMissVertex()
    ensures Ring[6].0 > Bounds.east
  {
  }

  /** The center passes the geofence: exactly one edge (edge 8) crosses its ray. */
  lemma CenterInside()
    ensures Geofence.Inside(Ring, CenterLat, CenterLng)
  {
    var lat, lng := CenterLat, CenterLng;
    assert Geofence.EdgeCrosses(Ring, 8, lat, lng);
    assert forall i :: 0 <= i < |Ring| && i != 8 ==> !Geofence.EdgeCrosses(Ring, i, lat, lng);
    assert Geofence.Crossings(Ring, 8, lat, lng) == 0 by {
      Geofence.NoCrossings(Ring, 8, lat, lng);
    }
    assert Geofence.Crossings(Ring, 9, lat, lng) == 1;
    assert Geofence.Crossings(Ring, 10, lat, lng) == 1;
    assert Geofence.Crossings(Ring, 11, lat, lng) == 1;
    assert Geofence.Crossings(Ring, 12, lat, lng) == 1;
  }

  /** Every point north of the rectangle fails the geofence. */
  lemma NorthOfBoundsOutside(lat: real, lng: real)
    requires lat > Bounds.north
    ensures !Geofence.Inside(Ring, lat, lng)
  {
    Geofence.NorthOfAllIsOutside(Ring, lat, lng);
  }

  /** Every point south of the rectangle fails the geofence. */
  lemma SouthOfBoundsOutside(lat: real, lng: real)
    requires lat < Bounds.south
    ensures !Geofence.Inside(Ring, lat, lng)
  {
    Geofence.SouthOfAllIsOutside(Ring, lat, lng);
  }

  /** Every point at or east of the easternmost vertex fails the geofence. */
  lemma EastOfRingOutside(lat: real, lng: real)
    requires lng >= Ring[6].0
    ensures !Geofence.Inside(Ring, lat, lng)
  {
    Geofence.EastOfAllIsOutside(Ring, lat, lng);
  }

  /** Every point west of the rectangle fails the geofence: the west bound lies west of vertex 4, the westernmost. */
  lemma WestOfBoundsOutside(lat: real, lng: real)
    requires lng < Bounds.west
    ensures !Geofence.Inside(Ring, lat, lng)
  {
    Geofence.WestOfAllIsOutside(Ring, lat, lng);
  }
}
