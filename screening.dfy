/** Overlap screening: `getCompareCandidate`, `screenHotspot` and `screenHotspots`. */
module Screening {
  import opened Wrappers
  import opened Lists
  import opened HotSpots

  /** `i` is the first position in list order whose zoneVal equals `zone`. */
  predicate FirstWithZone(all: seq<Spot>, zone: int, i: int)
  {
    0 <= i < |all| && all[i].zoneVal == zone && forall j :: 0 <= j < i ==> all[j].zoneVal != zone
  }

  /** getCompareCandidate: the first hotspot whose zoneVal equals `inOverlap`, or nothing (the
      source returns False). */
  function GetCompareCandidate(inOverlap: int, all: seq<Spot>): (r: Option<Spot>)
    ensures r.None? <==> forall i :: 0 <= i < |all| ==> all[i].zoneVal != inOverlap
    ensures r.Some? ==> exists i :: FirstWithZone(all, inOverlap, i) && r.value == all[i]
  {
    if all == [] then None
    else if all[0].zoneVal == inOverlap then
      assert FirstWithZone(all, inOverlap, 0);
      Some(all[0])
    else
      var r := GetCompareCandidate(inOverlap, all[1..]);
      if r.Some? then
        var i :| FirstWithZone(all[1..], inOverlap, i) && r.value == all[1..][i];
        assert FirstWithZone(all, inOverlap, i + 1);
        r
      else
        r
  }

  /** Reference definition of elimination: some FID in the candidate's own nearby list finds (as
      its first match by zoneVal) a hotspot with a strictly higher percTime. */
  ghost predicate Outscored(c: Spot, all: seq<Spot>)
  {
    exists k, i :: 0 <= k < |c.nearbyPoints| && FirstWithZone(all, c.nearbyPoints[k], i) &&
      all[i].percTime > c.percTime
  }

  /** The loop of screenHotspot over the overlap zones, returning False at the first zone whose
      compare candidate has a strictly higher percTime. */
  function ScreenZones(overlapZones: seq<int>, percTime: real, all: seq<Spot>): bool
  {
    if overlapZones == [] then true
    else
      var compareCandidate := GetCompareCandidate(overlapZones[0], all);
      if compareCandidate.Some? && compareCandidate.value.percTime > percTime then false
      else ScreenZones(overlapZones[1..], percTime, all)
  }

  lemma {:induction false} ScreenZonesMeaning(overlapZones: seq<int>, percTime: real, all: seq<Spot>)
    ensures !ScreenZones(overlapZones, percTime, all) <==>
              exists k, i :: 0 <= k < |overlapZones| && FirstWithZone(all, overlapZones[k], i) &&
                all[i].percTime > percTime
    decreases |overlapZones|
  {
    if overlapZones != [] {
      ScreenZonesMeaning(overlapZones[1..], percTime, all);
      var cc := GetCompareCandidate(overlapZones[0], all);
      if cc.Some? && cc.value.percTime > percTime {
        var i :| FirstWithZone(all, overlapZones[0], i) && cc.value == all[i];
        assert FirstWithZone(all, overlapZones[0], i) && all[i].percTime > percTime;
      } else {
        if exists k, i :: 0 <= k < |overlapZones| && FirstWithZone(all, overlapZones[k], i) &&
             all[i].percTime > percTime {
          var k, i :| 0 <= k < |overlapZones| && FirstWithZone(all, overlapZones[k], i) &&
            all[i].percTime > percTime;
          if k == 0 {
            FirstWithZoneUnique(all, overlapZones[0], i);
            assert false;
          }
          assert FirstWithZone(all, overlapZones[1..][k - 1], i);
        }
        if exists k, i :: 0 <= k < |overlapZones[1..]| && FirstWithZone(all, overlapZones[1..][k], i) &&
             all[i].percTime > percTime {
          var k, i :| 0 <= k < |overlapZones[1..]| && FirstWithZone(all, overlapZones[1..][k], i) &&
            all[i].percTime > percTime;
          assert overlapZones[k + 1] == overlapZones[1..][k];
        }
      }
    }
  }

  /** The first match of a zone, when there is one, is what getCompareCandidate returns. */
  lemma FirstWithZoneUnique(all: seq<Spot>, zone: int, i: int)
    requires FirstWithZone(all, zone, i)
    ensures GetCompareCandidate(zone, all) == Some(all[i])
  {
    var r := GetCompareCandidate(zone, all);
    var j :| FirstWithZone(all, zone, j) && r.value == all[j];
    assert !(j < i) && !(i < j);
  }

  /** screenHotspot: true when no hotspot found through the candidate's own nearby list has a
      strictly higher percTime. */
  function ScreenHotspot(inCandidate: Spot, all: seq<Spot>): (r: bool)
    ensures r <==> !Outscored(inCandidate, all)
  {
    ScreenZonesMeaning(inCandidate.nearbyPoints, inCandidate.percTime, all);
    ScreenZones(inCandidate.nearbyPoints, inCandidate.percTime, all)
  }

  /** screenHotspot in terms of a candidate object's isNearby: the candidate is rejected exactly
      when a hotspot that is the first match for its own zoneVal is nearby the candidate and has a
      strictly higher percTime. */
  lemma RejectedIffHigherNearby(h: HotSpot, all: seq<Spot>)
    ensures !ScreenHotspot(h.Snapshot(), all) <==>
              exists i :: 0 <= i < |all| && FirstWithZone(all, all[i].zoneVal, i) &&
                h.IsNearby(all[i].zoneVal) && all[i].percTime > h.percTime
  {
    var c := h.Snapshot();
    if !ScreenHotspot(c, all) {
      var k, i :| 0 <= k < |c.nearbyPoints| && FirstWithZone(all, c.nearbyPoints[k], i) &&
        all[i].percTime > c.percTime;
      assert h.IsNearby(all[i].zoneVal);
    }
    if exists i :: 0 <= i < |all| && FirstWithZone(all, all[i].zoneVal, i) &&
                   h.IsNearby(all[i].zoneVal) && all[i].percTime > h.percTime {
      var i :| 0 <= i < |all| && FirstWithZone(all, all[i].zoneVal, i) &&
               h.IsNearby(all[i].zoneVal) && all[i].percTime > h.percTime;
      var k :| 0 <= k < |h.nearbyPoints| && h.nearbyPoints[k] == all[i].zoneVal;
      assert FirstWithZone(all, c.nearbyPoints[k], i);
    }
  }

  /** The candidates of `cs` that pass screenHotspot against the whole list `all`, in order. */
  function Keep(cs: seq<Spot>, all: seq<Spot>): seq<Spot>
  {
    if cs == [] then []
    else Keep(cs[..|cs| - 1], all) +
           (if ScreenHotspot(cs[|cs| - 1], all) then [cs[|cs| - 1]] else [])
  }

  /** screenHotspots: one pass, each candidate judged against the full original list. */
  function Survivors(candidates: seq<Spot>): seq<Spot>
  {
    Keep(candidates, candidates)
  }

  lemma KeepMeaning(cs: seq<Spot>, all: seq<Spot>)
    ensures forall x :: x in Keep(cs, all) <==> x in cs && ScreenHotspot(x, all)
    ensures IsSubsequence(Keep(cs, all), cs)
  {
    KeepMembers(cs, all);
    KeepSubsequence(cs, all);
  }

  lemma {:induction false} KeepMembers(cs: seq<Spot>, all: seq<Spot>)
    ensures forall x :: x in Keep(cs, all) <==> x in cs && ScreenHotspot(x, all)
    decreases |cs|
  {
    if cs != [] {
      var init, last := cs[..|cs| - 1], cs[|cs| - 1];
      KeepMembers(init, all);
      assert cs == init + [last];
    }
  }

  lemma {:induction false} KeepSubsequence(cs: seq<Spot>, all: seq<Spot>)
    ensures IsSubsequence(Keep(cs, all), cs)
    decreases |cs|
  {
    if cs != [] {
      var init, last := cs[..|cs| - 1], cs[|cs| - 1];
      KeepSubsequence(init, all);
      var k := Keep(cs, all);
      if ScreenHotspot(last, all) {
        assert k == Keep(init, all) + [last];
        assert k[..|k| - 1] == Keep(init, all) && k[|k| - 1] == last;
      } else {
        assert k == Keep(init, all);
        SubsequenceOfPrefix(Keep(init, all), init, last);
        assert init + [last] == cs;
      }
    }
  }

  /** A candidate survives exactly when it is in the list and screenHotspot against the whole
      original list accepts it; the survivors keep their relative order. */
  lemma SurvivorsMeaning(candidates: seq<Spot>)
    ensures forall x :: x in Survivors(candidates) <==> x in candidates && !Outscored(x, candidates)
    ensures IsSubsequence(Survivors(candidates), candidates)
  {
    KeepMeaning(candidates, candidates);
  }

  /** A candidate is eliminated only by a hotspot whose zoneVal is in its own nearby list and whose
      percTime is strictly higher (so ties, and the candidate itself, never eliminate). */
  lemma EliminatedOnlyByHigherNearby(c: Spot, all: seq<Spot>)
    requires !ScreenHotspot(c, all)
    ensures exists d :: d in all && d.zoneVal in c.nearbyPoints && d.percTime > c.percTime
  {
    var k, i :| 0 <= k < |c.nearbyPoints| && FirstWithZone(all, c.nearbyPoints[k], i) &&
      all[i].percTime > c.percTime;
    assert all[i] in all && all[i].zoneVal in c.nearbyPoints;
  }

  /** A candidate with the largest percTime always survives, so screening never empties a
      non-empty list. */
  lemma {:induction false} MaximumSurvives(candidates: seq<Spot>, m: Spot)
    requires m in candidates
    requires forall x :: x in candidates ==> x.percTime <= m.percTime
    ensures m in Survivors(candidates)
  {
    SurvivorsMeaning(candidates);
  }

  lemma {:induction false} NonEmptySurvivors(candidates: seq<Spot>)
    requires candidates != []
    ensures Survivors(candidates) != []
  {
    var m := MaxOf(candidates);
    MaximumSurvives(candidates, m);
  }

  /** A candidate with the largest percTime. */
  function MaxOf(s: seq<Spot>): (m: Spot)
    requires s != []
    ensures m in s && forall x :: x in s ==> x.percTime <= m.percTime
  {
    if |s| == 1 then s[0]
    else
      var rest := MaxOf(s[1..]);
      assert forall x :: x in s ==> x == s[0] || x in s[1..];
      if s[0].percTime >= rest.percTime then s[0] else rest
  }

  /** The overlap test looks only at the candidate's own list: the other hotspots' nearby lists are
      never consulted, so changing them cannot change whether the candidate passes. */
  lemma OneDirectionOnly(c: Spot, all: seq<Spot>, others: seq<Spot>)
    requires |others| == |all|
    requires forall i :: 0 <= i < |all| ==> others[i] == all[i].(nearbyPoints := others[i].nearbyPoints)
    ensures ScreenHotspot(c, all) == ScreenHotspot(c, others)
  {
    assert forall z, i :: FirstWithZone(all, z, i) <==> FirstWithZone(others, z, i);
  }

  /** For example, a higher-scoring hotspot that lists the candidate, but that the candidate does
      not list, does not eliminate it. */
  lemma OneDirectionExample()
    ensures var a := Spot(0.0, 0.0, 1, 30.0, "P1", []);
            var b := Spot(0.0, 0.0, 2, 50.0, "P1", [1]);
            Survivors([a, b]) == [a, b]
  {
    var a := Spot(0.0, 0.0, 1, 30.0, "P1", []);
    var b := Spot(0.0, 0.0, 2, 50.0, "P1", [1]);
    assert ScreenHotspot(a, [a, b]);
    assert ScreenHotspot(b, [a, b]);
    assert [a, b][..1] == [a] && [a][..0] == [];
    assert Keep([a], [a, b]) == [a];
  }

  /** Screening is one pass: a hotspot that is itself eliminated still eliminates the hotspots it
      outscores. */
  lemma OnePass()
    ensures var a := Spot(0.0, 0.0, 1, 30.0, "P1", [2]);
            var b := Spot(0.0, 0.0, 2, 50.0, "P1", [3]);
            var c := Spot(0.0, 0.0, 3, 70.0, "P1", []);
            Survivors([a, b, c]) == [c]
  {
    var a := Spot(0.0, 0.0, 1, 30.0, "P1", [2]);
    var b := Spot(0.0, 0.0, 2, 50.0, "P1", [3]);
    var c := Spot(0.0, 0.0, 3, 70.0, "P1", []);
    var all := [a, b, c];
    assert FirstWithZone(all, 2, 1);
    assert !ScreenHotspot(a, all);
    assert FirstWithZone(all, 3, 2);
    assert !ScreenHotspot(b, all);
    assert ScreenHotspot(c, all);
    assert all[..2] == [a, b] && [a, b][..1] == [a] && [a][..0] == [];
    assert Keep([a], all) == [];
    assert Keep([a, b], all) == [];
  }

  /** Two candidates with equal percTime both survive, whatever their nearby lists say. */
  lemma TiesBothSurvive(a: Spot, b: Spot)
    requires a.percTime == b.percTime
    ensures Survivors([a, b]) == [a, b]
  {
    var all := [a, b];
    assert forall i :: 0 <= i < |all| ==> all[i].percTime == a.percTime;
    assert ScreenHotspot(a, all) && ScreenHotspot(b, all);
    assert all[..1] == [a] && [a][..0] == [];
    assert Keep([a], all) == [a];
  }

  lemma KeepStep(all: seq<Spot>, i: nat)
    requires i < |all|
    ensures Keep(all[..i + 1], all)
            == Keep(all[..i], all) + (if ScreenHotspot(all[i], all) then [all[i]] else [])
  {
    assert all[..i + 1][..i] == all[..i];
  }

  /** screenHotspots: appends each candidate that passes screenHotspot against the full input. */
  method ScreenHotspots(inCandidates: seq<HotSpot>) returns (finalList: seq<HotSpot>)
    ensures Snapshots(finalList) == Survivors(Snapshots(inCandidates))
    ensures forall h :: h in finalList ==> h in inCandidates
  {
    var all := Snapshots(inCandidates);
    finalList := [];
    for i := 0 to |inCandidates|
      invariant Snapshots(finalList) == Keep(all[..i], all)
      invariant forall h :: h in finalList ==> h in inCandidates
    {
      var candidate := inCandidates[i];
      KeepStep(all, i);
      if ScreenHotspot(candidate.Snapshot(), all) {
        SnapshotsAppend(finalList, candidate);
        finalList := finalList + [candidate];
      }
    }
    assert all[..|inCandidates|] == all;
  }
}
