/** The candidate selection of the program: every station is tried, appended after the
    platforms, and the first one whose minimum spanning tree is shortest is kept. */
module Selector {
  import opened ExtendedReals
  import opened Geometry
  import opened Prim

  /** The sites one candidate is evaluated on: all the platforms, then the station. */
  function Sites(platforms: seq<Point>, station: Point): (all: seq<Point>)
    ensures |all| == |platforms| + 1 && all[..|platforms|] == platforms && all[|platforms|] == station
  {
    platforms + [station]
  }

  /** The length the selector compares for candidate `station`. */
  function CandidateLength(platforms: seq<Point>, station: Point, w: (Point, Point) -> real): (length: real) {
    PrimLength(Sites(platforms, station), w)
  }

  /** Tries every station in order and keeps the first whose length is strictly below the best
      so far, starting from the sentinel and index -1. The result is the lowest index of a
      shortest candidate; -1 and the sentinel are left only when there is no station at all. */
  method BestStation(platforms: seq<Point>, stations: seq<Point>, w: (Point, Point) -> real)
    returns (bestIdx: int, minLength: Extended)
    requires IsDistance(w)
    ensures bestIdx == -1 <==> |stations| == 0
    ensures bestIdx == -1 ==> minLength == Infinity
    ensures bestIdx != -1 ==>
              0 <= bestIdx < |stations| && minLength == Finite(CandidateLength(platforms, stations[bestIdx], w))
    ensures forall i :: 0 <= i < |stations| ==> AtMost(minLength, CandidateLength(platforms, stations[i], w))
    ensures forall i :: 0 <= i < bestIdx ==> Below(minLength, Finite(CandidateLength(platforms, stations[i], w)))
  {
    minLength := Infinity;
    bestIdx := -1;
    for i := 0 to |stations|
      invariant bestIdx == -1 <==> i == 0
      invariant bestIdx == -1 ==> minLength == Infinity
      invariant bestIdx != -1 ==>
                  0 <= bestIdx < i && minLength == Finite(CandidateLength(platforms, stations[bestIdx], w))
      invariant forall k :: 0 <= k < i ==> AtMost(minLength, CandidateLength(platforms, stations[k], w))
      invariant forall k :: 0 <= k < bestIdx ==> Below(minLength, Finite(CandidateLength(platforms, stations[k], w)))
    {
      var all := Sites(platforms, stations[i]);
      var length, _ := MstLength(all, w);
      if Below(Finite(length), minLength) {
        minLength := Finite(length);
        bestIdx := i;
      }
    }
  }

  /** Why a run produces no selection. */
  datatype Error = NoSitesLoaded

  /** The outcome of a run: the chosen station and its total pipeline length. */
  datatype Selection = Selection(index: nat, length: real)

  datatype Result = Ok(selection: Selection) | Err(error: Error)

  /** The core of the program's main: refuse to run without platforms or without stations,
      otherwise select the best station. */
  method Run(platforms: seq<Point>, stations: seq<Point>, w: (Point, Point) -> real) returns (r: Result)
    requires IsDistance(w)
    ensures r.Err? <==> |platforms| == 0 || |stations| == 0
    ensures r.Ok? ==> r.selection.index < |stations|
    ensures r.Ok? ==> r.selection.length == CandidateLength(platforms, stations[r.selection.index], w)
    ensures r.Ok? ==> forall i :: 0 <= i < |stations| ==> r.selection.length <= CandidateLength(platforms, stations[i], w)
    ensures r.Ok? ==> forall i :: 0 <= i < r.selection.index ==> r.selection.length < CandidateLength(platforms, stations[i], w)
  {
    if |platforms| == 0 || |stations| == 0 {
      return Err(NoSitesLoaded);
    }
    var bestIdx, minLength := BestStation(platforms, stations, w);
    r := Ok(Selection(bestIdx, minLength.value));
  }
}
