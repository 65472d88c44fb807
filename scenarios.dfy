module Scenarios {
  import opened Wrappers
  import opened Times
  import opened HotSpots
  import opened Scoring
  import opened Screening
  import opened Ranking
  import opened Pipeline
  import opened Lists

  /** Three points of one participant, 100 s each; points 1 and 2 lie within each other's radius. */
  function TriangleRows(): seq<PointRow>
  {
    [PointRow(1, Num(100.0), 1.0, 1.0, "P1"), PointRow(2, Num(100.0), 2.0, 2.0, "P1"),
     PointRow(3, Num(100.0), 3.0, 3.0, "P1")]
  }

  function TriangleNear(fid: int): seq<int>
  {
    if fid == 1 then [2] else if fid == 2 then [1] else []
  }

  function TriangleCandidates(): seq<Spot>
  {
    [Spot(1.0, 1.0, 1, 200.0 / 3.0, "P1", [2]), Spot(2.0, 2.0, 2, 200.0 / 3.0, "P1", [1]),
     Spot(3.0, 3.0, 3, 100.0 / 3.0, "P1", [])]
  }

  lemma TriangleColumns()
    ensures Subset(TriangleRows(), "P1") == TriangleRows()
    ensures FidColumn(TriangleRows()) == [1, 2, 3]
    ensures TimeColumn(TriangleRows()) == [100.0, 100.0, 100.0]
    ensures SumTimes(TriangleRows()) == 300.0
  {
    TriangleSubset();
    var data := TriangleRows();
    var r1, r2 := data[0], data[1];
    assert data[..2] == [r1, r2] && data[..2][..1] == [r1] && [r1][..0] == [];
    assert SumTimes([r1]) == 100.0;
    assert SumTimes([r1, r2]) == 200.0;
  }

  /** All three rows carry the label, so the participant's layer is the whole list. */
  lemma TriangleSubset()
    ensures Subset(TriangleRows(), "P1") == TriangleRows()
  {
    SubsetOfOneParticipant(TriangleRows(), "P1");
  }

  lemma TriangleScores()
    ensures var data, fids, times := TriangleRows(), [1, 2, 3], [100.0, 100.0, 100.0];
            PointScore(data[0], TriangleNear, fids, times, 300.0) == Success(200.0 / 3.0) &&
            PointScore(data[1], TriangleNear, fids, times, 300.0) == Success(200.0 / 3.0) &&
            PointScore(data[2], TriangleNear, fids, times, 300.0) == Success(100.0 / 3.0)
  {
    var fids, times := [1, 2, 3], [100.0, 100.0, 100.0];
    assert IndexOf(fids, 2) == 1 && IndexOf(fids, 1) == 0;
    assert [2][1..] == [] && [1][1..] == [];
    assert AddNearTimes(Num(100.0), [2], fids, times) == AddNearTimes(Num(200.0), [], fids, times);
    assert AddNearTimes(Num(100.0), [1], fids, times) == AddNearTimes(Num(200.0), [], fids, times);
  }

  lemma TriangleScored()
    ensures Candidates(TriangleRows(), TriangleNear, [1, 2, 3], [100.0, 100.0, 100.0], 300.0)
            == Success(TriangleCandidates())
  {
    var data := TriangleRows();
    var fids, times := [1, 2, 3], [100.0, 100.0, 100.0];
    var cs := TriangleCandidates();
    TriangleScores();
    assert 200.0 / 3.0 > TIME_CUTOFF && 100.0 / 3.0 > TIME_CUTOFF;
    assert data[..0] == [] && data[..3] == data;
    assert TriangleNear(1) == [2] && TriangleNear(2) == [1] && TriangleNear(3) == [];
    assert CandidateOf(data[0], 200.0 / 3.0, TriangleNear) == cs[0];
    assert CandidateOf(data[1], 200.0 / 3.0, TriangleNear) == cs[1];
    assert CandidateOf(data[2], 100.0 / 3.0, TriangleNear) == cs[2];
    assert [] + [cs[0]] == [cs[0]] && [cs[0]] + [cs[1]] == [cs[0], cs[1]] && [cs[0], cs[1]] + [cs[2]] == cs;
    CandidatesStep(data, 0, TriangleNear, fids, times, 300.0);
    assert Candidates(data[..1], TriangleNear, fids, times, 300.0) == Success([cs[0]]);
    CandidatesStep(data, 1, TriangleNear, fids, times, 300.0);
    assert Candidates(data[..2], TriangleNear, fids, times, 300.0) == Success([cs[0], cs[1]]);
    CandidatesStep(data, 2, TriangleNear, fids, times, 300.0);
  }

  lemma TriangleEachPasses()
    ensures var cs := TriangleCandidates();
            ScreenHotspot(cs[0], cs) && ScreenHotspot(cs[1], cs) && ScreenHotspot(cs[2], cs)
  {
    var cs := TriangleCandidates();
    assert FirstWithZone(cs, 2, 1) && FirstWithZone(cs, 1, 0);
  }

  lemma TriangleScreened()
    ensures Survivors(TriangleCandidates()) == TriangleCandidates()
  {
    var cs := TriangleCandidates();
    TriangleEachPasses();
    assert cs[..0] == [] && cs[..3] == cs;
    KeepStep(cs, 0);
    KeepStep(cs, 1);
    KeepStep(cs, 2);
  }

  lemma TriangleRanked()
    ensures Ranked(TriangleCandidates())
            == [Spot(1.0, 1.0, 0, 200.0 / 3.0, "P1", [2]), Spot(2.0, 2.0, 0, 200.0 / 3.0, "P1", [1]),
                Spot(3.0, 3.0, 2, 100.0 / 3.0, "P1", [])]
  {
    var cs := TriangleCandidates();
    assert cs == [cs[0], cs[1], cs[2]];
    TiesShareRank(cs[0], cs[1], cs[2]);
  }

  /** End to end: the two tied points both get rank 0 and the third gets rank 2 (ranks are
      counts of strictly larger scores, so no rank 1 is handed out). */
  lemma TiedPointsShareRankZero()
    ensures ParticipantHotspots(TriangleRows(), "P1", TriangleNear)
            == Success([Spot(1.0, 1.0, 0, 200.0 / 3.0, "P1", [2]), Spot(2.0, 2.0, 0, 200.0 / 3.0, "P1", [1]),
                        Spot(3.0, 3.0, 2, 100.0 / 3.0, "P1", [])])
  {
    TriangleColumns();
    TriangleScored();
    TriangleScreened();
    TriangleRanked();
  }
}
