/** `identifyHotSpots` and the driver loop of `main`. */
module Pipeline {
  import opened Wrappers
  import opened Lists
  import opened Times
  import opened HotSpots
  import opened Scoring
  import opened Screening
  import opened Ranking
  import opened Csv
  import opened Labels

  /** What identifyHotSpots gives back: an exception it raises, the string "null", or the
      ranked hotspot list. */
  datatype Reply = Raised(error: Failure) | NullReply | Spots(hotSpots: seq<HotSpot>)

  /** The participant's rows (the feature layer selected by study label): exactly the rows with
      that label, in cursor order. */
  function Subset(data: seq<PointRow>, id: string): (r: seq<PointRow>)
    ensures forall row :: row in r <==> row in data && row.studyLabel == id
  {
    if data == [] then []
    else
      var init := data[..|data| - 1];
      var last := data[|data| - 1];
      assert data == init + [last];
      Subset(init, id) + (if last.studyLabel == id then [last] else [])
  }

  /** The selection keeps the cursor order of the rows it keeps. */
  lemma {:induction false} SubsetKeepsOrder(data: seq<PointRow>, id: string)
    ensures IsSubsequence(Subset(data, id), data)
    decreases |data|
  {
    if data != [] {
      var init, last := data[..|data| - 1], data[|data| - 1];
      var kept := Subset(init, id);
      SubsetKeepsOrder(init, id);
      assert init + [last] == data;
      if last.studyLabel == id {
        assert Subset(data, id) == kept + [last];
        SubsequenceAppendBoth(kept, init, last);
      } else {
        assert Subset(data, id) == kept;
        SubsequenceOfPrefix(kept, init, last);
      }
    }
  }

  /** A layer whose rows all carry the label is selected whole. */
  lemma {:induction false} SubsetOfOneParticipant(data: seq<PointRow>, id: string)
    requires forall i :: 0 <= i < |data| ==> data[i].studyLabel == id
    ensures Subset(data, id) == data
    decreases |data|
  {
    if data != [] {
      var init := data[..|data| - 1];
      SubsetOfOneParticipant(init, id);
      assert init + [data[|data| - 1]] == data;
    }
  }

  /** The hotspots of one participant: candidates screened, then ranked; or the exception. */
  function ParticipantHotspots(data: seq<PointRow>, id: string, near: int -> seq<int>)
    : Result<seq<Spot>, Failure>
  {
    var rows := Subset(data, id);
    var candidates :- Candidates(rows, near, FidColumn(rows), TimeColumn(rows), SumTimes(rows));
    Success(Ranked(Survivors(candidates)))
  }

  /** identifyHotSpots: selects the participant's rows, computes the total time and the FID and
      time lists, scores every point against its near table, keeps the candidates above the
      cutoff, screens them, ranks the survivors, and returns "null" for an empty result. */
  method IdentifyHotSpots(inData: seq<PointRow>, inID: string, near: int -> seq<int>)
    returns (reply: Reply)
    ensures ParticipantHotspots(inData, inID, near).Failure? ==>
              reply == Raised(ParticipantHotspots(inData, inID, near).error)
    ensures ParticipantHotspots(inData, inID, near) == Success([]) ==> reply == NullReply
    ensures ParticipantHotspots(inData, inID, near).Success? &&
            ParticipantHotspots(inData, inID, near).value != [] ==>
              reply.Spots? && Snapshots(reply.hotSpots) == ParticipantHotspots(inData, inID, near).value
  {
    var tempSubset := Subset(inData, inID);
    var totalTime := CalcTotalTime(tempSubset);
    var fidArray, timeArray := GetRowsAndDTime(tempSubset);
    assert fidArray == FidColumn(tempSubset) && timeArray == TimeColumn(tempSubset);
    var candidates := BuildCandidates(tempSubset, near, fidArray, timeArray, totalTime);
    if candidates.Failure? {
      return Raised(candidates.error);
    }
    var candidateHotSpots := candidates.value;
    var hotSpots := ScreenHotspots(candidateHotSpots);
    assert forall h :: h in hotSpots ==> fresh(h);
    PrioritizeHotspots(hotSpots);
    if |hotSpots| > 0 {
      reply := Spots(hotSpots);
    } else {
      reply := NullReply;
    }
  }

  /** The loop of main over the sorted participant labels: each participant's hotspot list,
      skipping the participants whose result is "null"; the first exception ends the run. */
  function Collect(ids: seq<string>, data: seq<PointRow>, near: int -> seq<int>)
    : Result<seq<seq<Spot>>, Failure>
  {
    if ids == [] then Success([])
    else
      var hotSpotSets :- Collect(ids[..|ids| - 1], data, near);
      var hotSpotSubset :- ParticipantHotspots(data, ids[|ids| - 1], near);
      if hotSpotSubset == [] then Success(hotSpotSets) else Success(hotSpotSets + [hotSpotSubset])
  }

  function LabelsOf(data: seq<PointRow>): (r: seq<string>)
    ensures forall y :: y in r <==> exists row :: row in data && row.studyLabel == y
  {
    if data == [] then []
    else
      var init := data[..|data| - 1];
      assert data == init + [data[|data| - 1]];
      LabelsOf(init) + [data[|data| - 1].studyLabel]
  }

  /** The hotspot lists main passes to writeCSV. */
  function AllHotspots(data: seq<PointRow>, near: int -> seq<int>): Result<seq<seq<Spot>>, Failure>
  {
    Collect(UniqueValues(LabelsOf(data)), data, near)
  }

  lemma {:induction false} CollectFailurePersists(ids: seq<string>, k: nat, data: seq<PointRow>,
                                                  near: int -> seq<int>)
    requires k <= |ids| && Collect(ids[..k], data, near).Failure?
    ensures Collect(ids, data, near) == Collect(ids[..k], data, near)
    decreases |ids|
  {
    if k == |ids| {
      assert ids[..k] == ids;
    } else {
      var init := ids[..|ids| - 1];
      assert init[..k] == ids[..k];
      CollectFailurePersists(init, k, data, near);
    }
  }

  lemma CollectStep(ids: seq<string>, i: nat, data: seq<PointRow>, near: int -> seq<int>)
    requires i < |ids| && Collect(ids[..i], data, near).Success?
    ensures var p := ParticipantHotspots(data, ids[i], near);
            Collect(ids[..i + 1], data, near)
            == if p.Failure? then Failure(p.error)
               else if p.value == [] then Collect(ids[..i], data, near)
               else Success(Collect(ids[..i], data, near).value + [p.value])
  {
    assert ids[..i + 1][..i] == ids[..i];
  }

  /** The loop of main: identifyHotSpots for each label, appending every result that is not
      "null". */
  method CollectHotSpots(uniqueIDs: seq<string>, inData: seq<PointRow>, near: int -> seq<int>)
    returns (r: Result<seq<seq<HotSpot>>, Failure>)
    ensures Collect(uniqueIDs, inData, near).Failure? ==>
              r == Failure(Collect(uniqueIDs, inData, near).error)
    ensures Collect(uniqueIDs, inData, near).Success? ==>
              r.Success? && SnapshotSets(r.value) == Collect(uniqueIDs, inData, near).value
  {
    var hotSpotSets: seq<seq<HotSpot>> := [];
    ghost var sets: seq<seq<Spot>> := [];
    for i := 0 to |uniqueIDs|
      invariant Collect(uniqueIDs[..i], inData, near) == Success(sets)
      invariant SnapshotSets(hotSpotSets) == sets
    {
      CollectStep(uniqueIDs, i, inData, near);
      label BeforeCall:
      var hotSpotSubset := IdentifyHotSpots(inData, uniqueIDs[i], near);
      SnapshotSetsFrame@BeforeCall(hotSpotSets);
      match hotSpotSubset {
        case Raised(e) =>
          CollectFailurePersists(uniqueIDs, i + 1, inData, near);
          return Failure(e);
        case NullReply =>
        case Spots(hs) =>
          SnapshotSetsAppend(hotSpotSets, hs);
          hotSpotSets := hotSpotSets + [hs];
          sets := sets + [Snapshots(hs)];
      }
    }
    assert uniqueIDs[..|uniqueIDs|] == uniqueIDs;
    r := Success(hotSpotSets);
  }

  /** The snapshots of lists whose objects did not change are the same. */
  twostate lemma SnapshotSetsFrame(sets: seq<seq<HotSpot>>)
    requires forall p, h :: p in sets && h in p ==> unchanged(h)
    ensures SnapshotSets(sets) == old(SnapshotSets(sets))
  {
  }

  /** main without the file output and the spatial join: the CSV text written, or the exception
      that ends the run. `str` and `strInt` stand for Python's `str()`. */
  method Run(inData: seq<PointRow>, near: int -> seq<int>, str: real -> string, strInt: int -> string)
    returns (r: Result<string, Failure>)
    ensures AllHotspots(inData, near).Failure? ==> r == Failure(AllHotspots(inData, near).error)
    ensures AllHotspots(inData, near).Success? ==>
              r == Success(CsvText(AllHotspots(inData, near).value, str, strInt))
  {
    var uniqueIDs := UniqueValues(LabelsOf(inData));
    var hotSpotSets := CollectHotSpots(uniqueIDs, inData, near);
    if hotSpotSets.Failure? {
      return Failure(hotSpotSets.error);
    }
    var text := WriteCSV(hotSpotSets.value, str, strInt);
    r := Success(text);
  }

  /** Every returned hotspot belongs to the participant, scored strictly above the cutoff, and
      carries a rank in [0, n); a hotspot with the participant's top score has rank 0. */
  lemma ParticipantHotspotsMeaning(data: seq<PointRow>, id: string, near: int -> seq<int>, k: nat)
    requires ParticipantHotspots(data, id, near).Success?
    requires k < |ParticipantHotspots(data, id, near).value|
    ensures var spots := ParticipantHotspots(data, id, near).value;
            spots[k].studyLabel == id && spots[k].percTime > TIME_CUTOFF &&
            0 <= spots[k].zoneVal < |spots| &&
            ((forall j :: 0 <= j < |spots| ==> spots[j].percTime <= spots[k].percTime) ==>
               spots[k].zoneVal == 0)
  {
    var rows := Subset(data, id);
    var cands := Candidates(rows, near, FidColumn(rows), TimeColumn(rows), SumTimes(rows)).value;
    var survivors := Survivors(cands);
    var spots := Ranked(survivors);
    CandidatesSound(rows, near, FidColumn(rows), TimeColumn(rows), SumTimes(rows));
    SurvivorsMeaning(cands);
    assert survivors[k] in survivors;
    var i :| 0 <= i < |rows| && survivors[k] == CandidateOf(rows[i], survivors[k].percTime, near);
    assert rows[i] in rows;
    RankOrder(survivors, k, k);
    if forall j :: 0 <= j < |spots| ==> spots[j].percTime <= spots[k].percTime {
      MaximumRankZero(survivors, k);
    }
  }

  /** identifyHotSpots answers "null" exactly when no point clears the cutoff. */
  lemma NullExactlyWithoutCandidates(data: seq<PointRow>, id: string, near: int -> seq<int>)
    requires ParticipantHotspots(data, id, near).Success?
    ensures var rows := Subset(data, id);
            ParticipantHotspots(data, id, near).value == [] <==>
              Candidates(rows, near, FidColumn(rows), TimeColumn(rows), SumTimes(rows)).value == []
  {
    var rows := Subset(data, id);
    var cands := Candidates(rows, near, FidColumn(rows), TimeColumn(rows), SumTimes(rows)).value;
    if cands != [] {
      NonEmptySurvivors(cands);
    }
  }

  /** A participant with points and a zero total time makes identifyHotSpots raise; the exception
      is ZeroDivisionError when the first point's own time is a number and its NEAR_FIDs are known. */
  lemma ZeroTotalParticipantRaises(data: seq<PointRow>, id: string, near: int -> seq<int>)
    requires Subset(data, id) != [] && SumTimes(Subset(data, id)) == 0.0
    ensures ParticipantHotspots(data, id, near).Failure?
    ensures var first := Subset(data, id)[0];
            first.time.Num? && (forall f :: f in near(first.fid) ==> f in FidColumn(Subset(data, id))) ==>
              ParticipantHotspots(data, id, near) == Failure(ZeroDivisionError)
  {
    var rows := Subset(data, id);
    ZeroTotalRaises(rows, near, FidColumn(rows), TimeColumn(rows));
  }

  /** main never passes a "null" (empty) participant result on to writeCSV, and collects no more
      lists than there are participant labels. */
  lemma {:induction false} CollectSkipsNull(ids: seq<string>, data: seq<PointRow>,
                                            near: int -> seq<int>)
    requires Collect(ids, data, near).Success?
    ensures |Collect(ids, data, near).value| <= |ids|
    ensures forall p :: p in Collect(ids, data, near).value ==> p != []
    decreases |ids|
  {
    if ids != [] {
      CollectSkipsNull(ids[..|ids| - 1], data, near);
    }
  }
}
