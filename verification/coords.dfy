/** Coordinate pairs and the swap that turns (lat, lon) lists into
    (lon, lat) lists before a polygon is built from them. */
module Coords {

  /** `change_lat_with_lon`: every pair has its two components exchanged. */
  function SwapLatLon<A, B>(coords: seq<(A, B)>): (swapped: seq<(B, A)>)
    ensures |swapped| == |coords|
    ensures forall i :: 0 <= i < |coords| ==> swapped[i].0 == coords[i].1 && swapped[i].1 == coords[i].0
  {
    if |coords| == 0 then [] else [(coords[0].1, coords[0].0)] + SwapLatLon(coords[1..])
  }

  /** Swapping twice gives back the original list. */
  lemma SwapLatLonInvolution<A, B>(coords: seq<(A, B)>)
    ensures SwapLatLon(SwapLatLon(coords)) == coords
  {
    var twice := SwapLatLon(SwapLatLon(coords));
    assert |twice| == |coords|;
    assert forall i :: 0 <= i < |coords| ==> twice[i] == coords[i];
  }
}
