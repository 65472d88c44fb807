/** The `hotSpot` record of the pipeline: a mutable object and its value snapshot. */
module HotSpots {

  /** The fields of one hotSpot object at one moment. `zoneVal` holds the originating point's
      FID until ranking overwrites it with the rank. */
  datatype Spot = Spot(latitude: real, longitude: real, zoneVal: int, percTime: real,
                       studyLabel: string, nearbyPoints: seq<int>)

  class HotSpot {
    var latitude: real
    var longitude: real
    var zoneVal: int
    var percTime: real
    var studyLabel: string
    var nearbyPoints: seq<int>

    constructor (inLat: real, inLong: real, inZoneVal: int, inPercTime: real,
                 inStudyLabel: string, inNearbyPts: seq<int>)
      ensures Snapshot() == Spot(inLat, inLong, inZoneVal, inPercTime, inStudyLabel, inNearbyPts)
    {
      latitude := inLat;
      longitude := inLong;
      zoneVal := inZoneVal;
      percTime := inPercTime;
      studyLabel := inStudyLabel;
      nearbyPoints := inNearbyPts;
    }

    /** The current field values as a datatype value. */
    function Snapshot(): Spot
      reads this
    {
      Spot(latitude, longitude, zoneVal, percTime, studyLabel, nearbyPoints)
    }

    /** Whether `comparePt` is one of the point ids recorded as nearby. */
    function IsNearby(comparePt: int): (r: bool)
      reads this
      ensures r <==> exists i :: 0 <= i < |nearbyPoints| && nearbyPoints[i] == comparePt
    {
      comparePt in nearbyPoints
    }

    /** Overwrites the zone value; every other field keeps its value. */
    method SetZoneVal(inZoneVal: int)
      modifies this`zoneVal
      ensures Snapshot() == old(Snapshot()).(zoneVal := inZoneVal)
    {
      zoneVal := inZoneVal;
    }
  }

  /** The snapshots of a list of hotSpot objects, in list order. */
  function Snapshots(hs: seq<HotSpot>): (r: seq<Spot>)
    reads set h | h in hs
    ensures |r| == |hs|
    ensures forall i :: 0 <= i < |hs| ==> r[i] == hs[i].Snapshot()
  {
    if hs == [] then [] else Snapshots(hs[..|hs| - 1]) + [hs[|hs| - 1].Snapshot()]
  }

  lemma SnapshotsAppend(hs: seq<HotSpot>, h: HotSpot)
    ensures Snapshots(hs + [h]) == Snapshots(hs) + [h.Snapshot()]
  {
    assert (hs + [h])[..|hs|] == hs;
  }

  /** The snapshots of objects that did not change are the same. */
  twostate lemma SnapshotsFrame(hs: seq<HotSpot>)
    requires forall h :: h in hs ==> unchanged(h)
    ensures Snapshots(hs) == old(Snapshots(hs))
  {
  }
}
