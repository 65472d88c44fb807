/** Candidate scoring: the per-point loop of `identifyHotSpots`. */
module Scoring {
  import opened Wrappers
  import opened Lists
  import opened Times
  import opened HotSpots

  /** Percentage of the participant's time a hotspot must strictly exceed (TIME_CUTOFF). */
  const TIME_CUTOFF: real := 17.0

  /** The exceptions the scoring loop can raise; any of them ends the whole run. */
  datatype Failure =
    | ValueError(missingFid: int)  // `FIDArray.index(f)` for a NEAR_FID that is not in the list
    | TypeError                    // arithmetic on a point's own time when that value is null
    | ZeroDivisionError            // the participant's total time is zero

  /** The inner cursor loop: starting from the point's own (raw) time, add the parsed time of each
      NEAR_FID, found by its first index in the FID list. The own time is used unconverted, so a
      null own time raises at the first addition, or at the division when there is no near row. */
  function AddNearTimes(bufferTime: FieldValue, nearFids: seq<int>, fids: seq<int>,
                        times: seq<real>): Result<real, Failure>
    requires |fids| == |times|
    decreases |nearFids|
  {
    if nearFids == [] then
      if bufferTime.Num? then Success(bufferTime.value) else Failure(TypeError)
    else if nearFids[0] !in fids then Failure(ValueError(nearFids[0]))
    else if bufferTime.Null? then Failure(TypeError)
    else AddNearTimes(Num(bufferTime.value + times[IndexOf(fids, nearFids[0])]), nearFids[1..],
                      fids, times)
  }

  /** Sum of the times of the listed near points; a FID listed twice counts twice. */
  function NearSum(nearFids: seq<int>, fids: seq<int>, times: seq<real>): real
    requires |fids| == |times|
    requires forall f :: f in nearFids ==> f in fids
  {
    if nearFids == [] then 0.0
    else times[IndexOf(fids, nearFids[0])] + NearSum(nearFids[1..], fids, times)
  }

  /** The inner loop succeeds exactly when the own time is a number and every NEAR_FID is in the
      FID list, and then yields the own time plus the near points' times. */
  lemma {:induction false} AddNearTimesMeaning(bufferTime: FieldValue, nearFids: seq<int>,
                                               fids: seq<int>, times: seq<real>)
    requires |fids| == |times|
    ensures AddNearTimes(bufferTime, nearFids, fids, times).Success? <==>
              bufferTime.Num? && forall f :: f in nearFids ==> f in fids
    ensures AddNearTimes(bufferTime, nearFids, fids, times).Success? ==>
              AddNearTimes(bufferTime, nearFids, fids, times).value
                == bufferTime.value + NearSum(nearFids, fids, times)
    decreases |nearFids|
  {
    if nearFids != [] && nearFids[0] in fids && bufferTime.Num? {
      var next := Num(bufferTime.value + times[IndexOf(fids, nearFids[0])]);
      AddNearTimesMeaning(next, nearFids[1..], fids, times);
      assert forall f :: f in nearFids ==> f == nearFids[0] || f in nearFids[1..];
    }
  }

  /** Which exception the inner loop raises. The NEAR_FIDs are looked up in table order, each before
      its time is added. With a null own time the first NEAR_FID decides: ValueError when it is
      unknown, TypeError otherwise (also when there is none, at the division). With a numeric own
      time only ValueError is possible, for the first NEAR_FID missing from the FID list. */
  lemma {:induction false} AddNearTimesFirstError(bufferTime: FieldValue, nearFids: seq<int>,
                                                  fids: seq<int>, times: seq<real>)
    requires |fids| == |times|
    ensures bufferTime.Null? ==>
              AddNearTimes(bufferTime, nearFids, fids, times)
              == if nearFids != [] && nearFids[0] !in fids then Failure(ValueError(nearFids[0]))
                 else Failure(TypeError)
    ensures bufferTime.Num? && AddNearTimes(bufferTime, nearFids, fids, times).Failure? ==>
              exists k :: 0 <= k < |nearFids| && nearFids[k] !in fids &&
                (forall j :: 0 <= j < k ==> nearFids[j] in fids) &&
                AddNearTimes(bufferTime, nearFids, fids, times) == Failure(ValueError(nearFids[k]))
    decreases |nearFids|
  {
    if bufferTime.Num? && nearFids != [] && nearFids[0] in fids {
      var next := Num(bufferTime.value + times[IndexOf(fids, nearFids[0])]);
      AddNearTimesFirstError(next, nearFids[1..], fids, times);
      if AddNearTimes(next, nearFids[1..], fids, times).Failure? {
        var k :| 0 <= k < |nearFids[1..]| && nearFids[1..][k] !in fids &&
          (forall j :: 0 <= j < k ==> nearFids[1..][j] in fids) &&
          AddNearTimes(next, nearFids[1..], fids, times) == Failure(ValueError(nearFids[1..][k]));
        assert forall j :: 1 <= j < k + 1 ==> nearFids[j] == nearFids[1..][j - 1];
        assert nearFids[k + 1] !in fids;
      }
    }
  }

  /** The loop over the near table's rows, accumulating `bufferTime`. */
  method AccumulateBufferTime(ownTime: FieldValue, nearFids: seq<int>, fidArray: seq<int>,
                              timeArray: seq<real>) returns (r: Result<real, Failure>)
    requires |fidArray| == |timeArray|
    ensures r == AddNearTimes(ownTime, nearFids, fidArray, timeArray)
  {
    var bufferTime := ownTime;
    var index := 0;
    while index < |nearFids|
      invariant 0 <= index <= |nearFids|
      invariant AddNearTimes(bufferTime, nearFids[index..], fidArray, timeArray)
                == AddNearTimes(ownTime, nearFids, fidArray, timeArray)
    {
      var f := nearFids[index];
      assert nearFids[index..][1..] == nearFids[index + 1..];
      if f !in fidArray {
        return Failure(ValueError(f));
      }
      var k := IndexOf(fidArray, f);
      if bufferTime.Null? {
        return Failure(TypeError);
      }
      bufferTime := Num(bufferTime.value + timeArray[k]);
      index := index + 1;
    }
    if bufferTime.Null? {
      return Failure(TypeError);
    }
    return Success(bufferTime.value);
  }

  /** `percBufferTime`: the buffer time as a percentage of the participant's total; the division
      is not guarded. */
  function PointScore(row: PointRow, near: int -> seq<int>, fids: seq<int>, times: seq<real>,
                      totalTime: real): Result<real, Failure>
    requires |fids| == |times|
  {
    var bufferTime :- AddNearTimes(row.time, near(row.fid), fids, times);
    if totalTime == 0.0 then Failure(ZeroDivisionError) else Success(bufferTime / totalTime * 100.0)
  }

  /** A point's score is (own time + near times) / total * 100, and scoring fails exactly when the
      own time is null, a NEAR_FID is unknown or the total is zero. */
  lemma ScoreFormula(row: PointRow, near: int -> seq<int>, fids: seq<int>, times: seq<real>,
                     totalTime: real)
    requires |fids| == |times|
    ensures PointScore(row, near, fids, times, totalTime).Success? <==>
              row.time.Num? && (forall f :: f in near(row.fid) ==> f in fids) && totalTime != 0.0
    ensures PointScore(row, near, fids, times, totalTime).Success? ==>
              PointScore(row, near, fids, times, totalTime).value
                == (row.time.value + NearSum(near(row.fid), fids, times)) / totalTime * 100.0
  {
    AddNearTimesMeaning(row.time, near(row.fid), fids, times);
  }

  /** The hotspot created for a point whose score clears the cutoff: its zoneVal is the point's
      FID and its nearby points are the near table's FIDs. */
  function CandidateOf(row: PointRow, percTime: real, near: int -> seq<int>): Spot
  {
    Spot(row.latitude, row.longitude, row.fid, percTime, row.studyLabel, near(row.fid))
  }

  /** The candidate list: points in cursor order, kept when the score is strictly above the
      cutoff; the first point whose scoring raises ends the loop with that exception. */
  function Candidates(rows: seq<PointRow>, near: int -> seq<int>, fids: seq<int>, times: seq<real>,
                      totalTime: real): Result<seq<Spot>, Failure>
    requires |fids| == |times|
  {
    if rows == [] then Success([])
    else
      var candidates :- Candidates(rows[..|rows| - 1], near, fids, times, totalTime);
      var row := rows[|rows| - 1];
      var percBufferTime :- PointScore(row, near, fids, times, totalTime);
      if percBufferTime > TIME_CUTOFF then Success(candidates + [CandidateOf(row, percBufferTime, near)])
      else Success(candidates)
  }

  /** Candidates succeeds exactly when every point scores. */
  lemma {:induction false} CandidatesSucceedIff(rows: seq<PointRow>, near: int -> seq<int>,
                                                fids: seq<int>, times: seq<real>, totalTime: real)
    requires |fids| == |times|
    ensures Candidates(rows, near, fids, times, totalTime).Success? <==>
              forall i :: 0 <= i < |rows| ==> PointScore(rows[i], near, fids, times, totalTime).Success?
    decreases |rows|
  {
    if rows != [] {
      var init := rows[..|rows| - 1];
      CandidatesSucceedIff(init, near, fids, times, totalTime);
      assert forall i :: 0 <= i < |init| ==> init[i] == rows[i];
    }
  }

  /** Each candidate comes from a point, in cursor order, whose score is strictly above the
      cutoff; there are at most as many candidates as points. */
  lemma {:induction false} CandidatesSound(rows: seq<PointRow>, near: int -> seq<int>,
                                           fids: seq<int>, times: seq<real>, totalTime: real)
    requires |fids| == |times|
    requires Candidates(rows, near, fids, times, totalTime).Success?
    ensures var cs := Candidates(rows, near, fids, times, totalTime).value;
            |cs| <= |rows| &&
            forall c :: c in cs ==>
              c.percTime > TIME_CUTOFF &&
              exists i :: 0 <= i < |rows| &&
                PointScore(rows[i], near, fids, times, totalTime) == Success(c.percTime) &&
                c == CandidateOf(rows[i], c.percTime, near)
    decreases |rows|
  {
    if rows != [] {
      var init := rows[..|rows| - 1];
      CandidatesSound(init, near, fids, times, totalTime);
      assert forall i :: 0 <= i < |init| ==> init[i] == rows[i];
    }
  }

  /** Every point whose score is strictly above the cutoff gives a candidate. */
  lemma {:induction false} CandidatesComplete(rows: seq<PointRow>, near: int -> seq<int>,
                                              fids: seq<int>, times: seq<real>, totalTime: real,
                                              i: nat, score: real)
    requires |fids| == |times|
    requires Candidates(rows, near, fids, times, totalTime).Success?
    requires i < |rows| && PointScore(rows[i], near, fids, times, totalTime) == Success(score)
    requires score > TIME_CUTOFF
    ensures CandidateOf(rows[i], score, near) in Candidates(rows, near, fids, times, totalTime).value
    decreases |rows|
  {
    var init := rows[..|rows| - 1];
    if i < |rows| - 1 {
      assert init[i] == rows[i];
      CandidatesComplete(init, near, fids, times, totalTime, i, score);
    }
  }

  /** A zero total with at least one point never gives candidates: the run raises. The exception is
      ZeroDivisionError when the first point's own time is a number and its NEAR_FIDs are all
      known; otherwise that point raises TypeError or ValueError before dividing. */
  lemma ZeroTotalRaises(rows: seq<PointRow>, near: int -> seq<int>, fids: seq<int>, times: seq<real>)
    requires |fids| == |times|
    requires rows != []
    ensures Candidates(rows, near, fids, times, 0.0).Failure?
    ensures rows[0].time.Num? && (forall f :: f in near(rows[0].fid) ==> f in fids) ==>
              Candidates(rows, near, fids, times, 0.0) == Failure(ZeroDivisionError)
  {
    AddNearTimesMeaning(rows[0].time, near(rows[0].fid), fids, times);
    assert rows[..0] == [];
    CandidatesStep(rows, 0, near, fids, times, 0.0);
    CandidatesFailurePersists(rows, 1, near, fids, times, 0.0);
  }
  /** Once a prefix of the points raises, so does the whole loop, with the same exception. */
  lemma {:induction false} CandidatesFailurePersists(rows: seq<PointRow>, k: nat,
                                                     near: int -> seq<int>, fids: seq<int>,
                                                     times: seq<real>, totalTime: real)
    requires |fids| == |times| && k <= |rows|
    requires Candidates(rows[..k], near, fids, times, totalTime).Failure?
    ensures Candidates(rows, near, fids, times, totalTime)
            == Candidates(rows[..k], near, fids, times, totalTime)
    decreases |rows|
  {
    if k == |rows| {
      assert rows[..k] == rows;
    } else {
      var init := rows[..|rows| - 1];
      assert init[..k] == rows[..k];
      CandidatesFailurePersists(init, k, near, fids, times, totalTime);
    }
  }

  /** One more point: the loop so far extended by the point's score, the candidate it adds or
      the exception it raises. */
  lemma CandidatesStep(rows: seq<PointRow>, i: nat, near: int -> seq<int>, fids: seq<int>,
                       times: seq<real>, totalTime: real)
    requires |fids| == |times| && i < |rows|
    requires Candidates(rows[..i], near, fids, times, totalTime).Success?
    ensures var prev := Candidates(rows[..i], near, fids, times, totalTime).value;
            var score := PointScore(rows[i], near, fids, times, totalTime);
            Candidates(rows[..i + 1], near, fids, times, totalTime)
            == if score.Failure? then Failure(score.error)
               else if score.value > TIME_CUTOFF then Success(prev + [CandidateOf(rows[i], score.value, near)])
               else Success(prev)
  {
    assert rows[..i + 1][..i] == rows[..i];
  }

  /** The body of the loop over the points: the point's buffer time from its near table, its
      percentage of the total, and a new hotSpot when that percentage clears the cutoff. */
  method ScorePoint(row: PointRow, near: int -> seq<int>, fidArray: seq<int>, timeArray: seq<real>,
                    totalTime: real) returns (r: Result<Option<HotSpot>, Failure>)
    requires |fidArray| == |timeArray|
    ensures var score := PointScore(row, near, fidArray, timeArray, totalTime);
            (score.Failure? ==> r == Failure(score.error)) &&
            (score.Success? && score.value > TIME_CUTOFF ==>
               r.Success? && r.value.Some? && fresh(r.value.value) &&
               r.value.value.Snapshot() == CandidateOf(row, score.value, near)) &&
            (score.Success? && score.value <= TIME_CUTOFF ==> r == Success(None))
  {
    var bufferTime := AccumulateBufferTime(row.time, near(row.fid), fidArray, timeArray);
    if bufferTime.Failure? {
      return Failure(bufferTime.error);
    }
    if totalTime == 0.0 {
      return Failure(ZeroDivisionError);
    }
    var percBufferTime := bufferTime.value / totalTime * 100.0;
    if percBufferTime > TIME_CUTOFF {
      var h := new HotSpot(row.latitude, row.longitude, row.fid, percBufferTime, row.studyLabel,
                           near(row.fid));
      r := Success(Some(h));
    } else {
      r := Success(None);
    }
  }

  /** The loop over the participant's points: scores each point against its near table and
      creates a hotSpot object for each score strictly above the cutoff. */
  method BuildCandidates(rows: seq<PointRow>, near: int -> seq<int>, fidArray: seq<int>,
                         timeArray: seq<real>, totalTime: real)
    returns (r: Result<seq<HotSpot>, Failure>)
    requires |fidArray| == |timeArray|
    ensures r.Failure? ==> Candidates(rows, near, fidArray, timeArray, totalTime) == Failure(r.error)
    ensures r.Success? ==> Candidates(rows, near, fidArray, timeArray, totalTime)
                           == Success(Snapshots(r.value))
    ensures r.Success? ==> forall h :: h in r.value ==> fresh(h)
  {
    var candidateHotSpots: seq<HotSpot> := [];
    ghost var spots: seq<Spot> := [];
    for i := 0 to |rows|
      invariant Candidates(rows[..i], near, fidArray, timeArray, totalTime) == Success(spots)
      invariant Snapshots(candidateHotSpots) == spots
      invariant forall h :: h in candidateHotSpots ==> fresh(h)
    {
      // the layer "FID = <fid>" holds this point's own row
      CandidatesStep(rows, i, near, fidArray, timeArray, totalTime);
      label BeforePoint:
      var scored := ScorePoint(rows[i], near, fidArray, timeArray, totalTime);
      SnapshotsFrame@BeforePoint(candidateHotSpots);
      match scored {
        case Failure(e) =>
          CandidatesFailurePersists(rows, i + 1, near, fidArray, timeArray, totalTime);
          assert rows[..|rows|] == rows;
          return Failure(e);
        case Success(None) =>
        case Success(Some(h)) =>
          SnapshotsAppend(candidateHotSpots, h);
          candidateHotSpots := candidateHotSpots + [h];
          spots := spots + [h.Snapshot()];
      }
    }
    assert rows[..|rows|] == rows;
    r := Success(candidateHotSpots);
  }
}
