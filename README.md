# Hotspot identification: a Dafny model

This project models the per-participant hotspot pipeline of `hotspots/identifyHotspots.py`.
The script reads sampled GPS points, each with a time attribute (`dTime`) and a participant
label. For every participant it works in these steps:

1. **Time.** It sums the participant's sample time (`calcTotalTime`) and reads the FID and time
   columns (`getRowsAndDTime`). A time value that `float` cannot convert counts as 0.
2. **Scoring.** Each point is scored: its own time plus the times of every point in its near
   table, as a percentage of the total time.
3. **Candidates.** A `hotSpot` object is created for every point whose score is strictly above
   `TIME_CUTOFF` (17).
4. **Screening.** Overlapping candidates are screened (`screenHotspots`, `screenHotspot`,
   `getCompareCandidate`). A candidate is dropped when a point in its own near list is a
   candidate with a strictly higher score.
5. **Ranking.** The survivors are ranked (`prioritizeHotspots`): each survivor's `zoneVal` is
   overwritten with the first index of its score in the scores sorted in descending order.
6. **Result.** The string `"null"` is returned when nothing survives.

`main` then runs this for each distinct participant label, in sorted order (`uniqueValues`). It
skips the `"null"` results and writes the rest as CSV text (`writeCSV`).

Modules, in dependency order:

- `Wrappers`: `Option` and `Result`.
- `Lists`: first index, sum and subsequences.
- `HotSpots`: the `HotSpot` class.
  - The class has the six fields of `hotSpot`.
  - `SetZoneVal` updates the class in place.
  - `Spot` is a value snapshot of its fields.
- `Times`: `calcTotalTime` and `getRowsAndDTime`, each as a loop proved against a sum or column
  function.
- `Scoring`: the scoring loop of `identifyHotSpots`.
  - The exceptions the code can raise are `Result` failures.
  - `BuildCandidates` creates the `HotSpot` objects. It is proved against the value function
    `Candidates`.
- `Screening`: `getCompareCandidate`, `screenHotspot` and `screenHotspots`, stated over snapshots.
  They are checked against a reference definition of elimination, `Outscored`.
- `Ranking`: `prioritizeHotspots`.
  - It sets `zoneVal` on the objects in place.
  - It is proved equal to `Ranked`, where every rank is the count of strictly larger scores.
- `Csv`: the text `writeCSV` produces.
- `Labels`: `uniqueValues`.
- `Pipeline`: `identifyHotSpots` and the loop of `main`.
- `Scenarios`: a worked three-point participant, carried through the whole pipeline.

Inputs that come from ArcGIS in the source are parameters here:

- The participant's point rows come in cursor order, as `PointRow` values (FID, time, latitude,
  longitude, label).
- The near table `GenerateNearTable` builds for a point is a function `near` from FID to the
  `NEAR_FID` list.
- Python's `str()` of a number is a pair of functions `str` / `strInt`.

Numbers are exact reals. A time attribute is `Num(x)` when `float` converts it, and `Null`
otherwise.

### Behaviour of the code worth knowing (the model follows the code)

- **Cutoff.** The file's header comment (line 7) describes hotspots as places where a participant
  spends "more than or equal" to the cutoff percentage of time. The test at line 266 is a strict
  `>`.
- **Own time.** Only the point's own time is read raw (line 244), while the near times come from
  the parsed list. An own time that does not convert makes `bufferTime += …` or the division raise
  `TypeError`; it is not counted as 0.
- **Which exception.** Line 259 goes through a point's NEAR_FIDs in table order. For each one it
  looks up the FID before adding the time (`Scoring.AddNearTimesFirstError`).
  - A NEAR_FID missing from the FID list raises `ValueError` when the loop reaches it.
  - With a null own time, the first NEAR_FID that is found raises `TypeError` at the addition, so
    later NEAR_FIDs are never looked up.
  - With a null own time and no NEAR_FIDs, the division at line 263 raises `TypeError`.
- **Zero total.** The division at line 263 is not guarded, so a participant with points whose
  total time is 0 always raises (`Scoring.ZeroTotalRaises`). The first point decides which
  exception: the `ValueError` or `TypeError` described above if its near loop raises one, and
  `ZeroDivisionError` otherwise.
- **Overlap test.** The test is one-directional (line 326); this is a property of the code, not of
  a comment. It looks only at the candidate's own near list, so a higher-scoring hotspot that lists
  the candidate does not eliminate it if the candidate does not list it back
  (`Screening.OneDirectionOnly`).
- **One pass.** Screening judges against the full candidate list, so an eliminated candidate
  still eliminates others (`Screening.OnePass`). This too is a property of the code.
- **Sorting.** The comment above `prioritizeHotspots` (lines 96-102) says it sorts its input. It
  does not reorder the list; only `zoneVal` changes (`Ranking.PrioritizeHotspots`).
- **Ties.** A property of the code at line 109: tied scores share a rank and the next rank is
  skipped, giving 0, 0, 2 (`Ranking.TiesShareRank`, `Scenarios.TiedPointsShareRankZero`).

## Model

| member | source | states |
|---|---|---|
| HotSpots.HotSpot.constructor | hotspots/identifyHotspots.py:48-54 | the new object holds exactly the six given field values |
| HotSpots.HotSpot.IsNearby | hotspots/identifyHotspots.py:59-62 | true exactly when the compared id occurs in the nearby-points list (its partner is Screening.RejectedIffHigherNearby) |
| HotSpots.HotSpot.SetZoneVal | hotspots/identifyHotspots.py:80-87 | zoneVal takes the new value and every other field keeps its value; no other object changes |
| Times.CalcTotalTime | hotspots/identifyHotspots.py:165-184 | the running sum equals the sum of the convertible time values over all rows, an unconvertible value adding nothing |
| Times.GetRowsAndDTime | hotspots/identifyHotspots.py:195-213 | both lists have one entry per row in cursor order; entry i is row i's FID and row i's time, or the preallocated 0 when the time does not convert |
| Times.TotalIsSumOfTimeList | hotspots/identifyHotspots.py:173-180 | the total of calcTotalTime equals the sum of the time list getRowsAndDTime returns |
| Times.NullTimeAddsNothing | hotspots/identifyHotspots.py:174-177 | inserting a row whose time does not convert leaves the total unchanged and puts 0 in its own slot of the time list, leaving the other entries as they were |
| Scoring.AddNearTimesMeaning | hotspots/identifyHotspots.py:244-262 | the buffer-time loop succeeds exactly when the own time is a number and every NEAR_FID is in the FID list, and then yields the own time plus the listed times (duplicates counted again) |
| Scoring.AccumulateBufferTime | hotspots/identifyHotspots.py:244-263 | the loop equals the reference definition and looks the NEAR_FIDs up in table order. An unknown NEAR_FID, when reached, gives ValueError. With a null own time, the first known NEAR_FID gives TypeError at the addition. With a null own time and no NEAR_FIDs it also gives TypeError: the source raises that one at the division on line 263, and the model raises it at the end of the loop. Otherwise it returns own time plus the near times |
| Scoring.AddNearTimesFirstError | hotspots/identifyHotspots.py:255-263 | with a null own time the result is ValueError when the first NEAR_FID is unknown and TypeError otherwise; with a numeric own time a failure is always ValueError of the first NEAR_FID missing from the FID list |
| Scoring.ScoreFormula | hotspots/identifyHotspots.py:244-263 | a point's score is (own time + near times) / total time * 100; scoring fails exactly when the own time is not a number, a NEAR_FID is unknown or the total is 0 |
| Scoring.ScorePoint | hotspots/identifyHotspots.py:244-270 | one pass of the point loop raises what the score raises, creates a fresh hotSpot with the point's coordinates, FID, score, label and near list when the score is strictly above 17, and creates nothing otherwise |
| Scoring.CandidatesSucceedIff | hotspots/identifyHotspots.py:237-272 | the point loop completes exactly when every point's score can be computed |
| Scoring.CandidatesSound | hotspots/identifyHotspots.py:263-270 | every candidate comes from a point whose score is strictly above 17, carries that score, the point's FID as zoneVal and its near list; there are at most as many candidates as points |
| Scoring.CandidatesComplete | hotspots/identifyHotspots.py:266-270 | every point whose score is strictly above 17 gives a candidate |
| Scoring.ZeroTotalRaises | hotspots/identifyHotspots.py:244-263 | with a zero total time and at least one point the loop raises; the exception is ZeroDivisionError when the first point's own time is a number and all its NEAR_FIDs are known |
| Scoring.CandidatesFailurePersists | hotspots/identifyHotspots.py:237-263 | the first exception among the points is the exception of the whole loop |
| Scoring.BuildCandidates | hotspots/identifyHotspots.py:234-272 | the objects built by the loop are fresh and their snapshots are exactly the candidate list of the reference definition, in point order, or the loop raises the reference definition's exception |
| Screening.GetCompareCandidate | hotspots/identifyHotspots.py:303-307 | nothing is found exactly when no hotspot has that zoneVal; otherwise the result is the first hotspot in list order with that zoneVal |
| Screening.FirstWithZoneUnique | hotspots/identifyHotspots.py:303-307 | the found hotspot is the unique first match |
| Screening.ScreenZonesMeaning | hotspots/identifyHotspots.py:326-330 | the loop over the overlap zones returns False exactly when some zone's first match has a strictly higher percTime |
| Screening.ScreenHotspot | hotspots/identifyHotspots.py:321-330 | a candidate passes exactly when it is not outscored through its own nearby list |
| Screening.EliminatedOnlyByHigherNearby | hotspots/identifyHotspots.py:326-329 | a rejected candidate has a different hotspot, named in its own nearby list, with a strictly higher percTime; ties never eliminate |
| Screening.KeepMeaning | hotspots/identifyHotspots.py:343-345 | the kept candidates are exactly the listed ones that pass, as a subsequence of the list |
| Screening.SurvivorsMeaning | hotspots/identifyHotspots.py:341-346 | a candidate survives exactly when it is in the list and not outscored against the whole original list; survivors keep their order |
| Screening.MaximumSurvives | hotspots/identifyHotspots.py:341-346 | a candidate with the largest percTime always survives |
| Screening.NonEmptySurvivors | hotspots/identifyHotspots.py:341-346 | screening never empties a non-empty candidate list |
| Screening.RejectedIffHigherNearby | hotspots/identifyHotspots.py:321-330 | a candidate object is rejected exactly when some hotspot that is the first match for its own zoneVal is nearby the candidate (isNearby, lines 59-62) and has a strictly higher percTime |
| Screening.OneDirectionOnly | hotspots/identifyHotspots.py:322-329 | for any candidate and list, changing the other hotspots' nearby lists never changes whether the candidate passes: only the candidate's own list is consulted |
| Screening.OneDirectionExample | hotspots/identifyHotspots.py:322-329 | example: a higher-scoring hotspot that lists the candidate, when the candidate does not list it, does not eliminate the candidate |
| Screening.OnePass | hotspots/identifyHotspots.py:343-344 | an eliminated candidate still eliminates the candidates it outscores (scores 30, 50, 70 in a chain leave only 70) |
| Screening.TiesBothSurvive | hotspots/identifyHotspots.py:328 | a candidate list of two tied candidates survives whole, whatever their nearby lists |
| Screening.ScreenHotspots | hotspots/identifyHotspots.py:341-346 | the returned list holds exactly the survivors of the reference definition, in input order, and only objects from the input |
| Ranking.SortDesc | hotspots/identifyHotspots.py:107 | the sorted copy is a permutation of the scores in descending order |
| Ranking.DescendingPermutationUnique | hotspots/identifyHotspots.py:107 | any two descending permutations of the same scores are equal, so the descending sort is determined |
| Ranking.RankIsSortedIndex | hotspots/identifyHotspots.py:109 | a score's first index in the descending copy equals the number of scores strictly greater than it |
| Ranking.Rank | hotspots/identifyHotspots.py:109 | the rank equals the count of strictly greater scores and is below the number of hotspots |
| Ranking.Ranked | hotspots/identifyHotspots.py:103-110 | the ranked list has the same length and order and every field except zoneVal, which becomes the count of strictly larger percTimes |
| Ranking.RankOrder | hotspots/identifyHotspots.py:109 | ranks lie in [0, n); equal scores get equal ranks; a strictly higher score gets a strictly smaller rank |
| Ranking.MaximumRankZero | hotspots/identifyHotspots.py:109 | every hotspot with the maximum percTime gets rank 0 |
| Ranking.TiesShareRank | hotspots/identifyHotspots.py:109 | scores x, x, y with x > y are ranked 0, 0, 2 |
| Ranking.CopyPercents | hotspots/identifyHotspots.py:104-106 | the copied list holds the hotspots' percTimes in list order |
| Ranking.SetRanks | hotspots/identifyHotspots.py:108-109 | after the loop every hotspot's zoneVal is the count of strictly larger scores; only zoneVal fields change |
| Ranking.PrioritizeHotspots | hotspots/identifyHotspots.py:103-110 | the objects' new state is the reference ranking of their old state: no reordering, only zoneVal set to the rank |
| Csv.WriteHeader | hotspots/identifyHotspots.py:125-129 | the header text is the five column names joined by the separator, then a newline |
| Csv.HeaderText | hotspots/identifyHotspots.py:39-43 | the header is exactly "latitude,longitude,percTime,zoneVal,studyLabel" and a newline |
| Csv.WriteLine | hotspots/identifyHotspots.py:137-146 | one hotspot's line is the five fields of the reference layout |
| Csv.LineParts | hotspots/identifyHotspots.py:137-146 | a line is latitude, longitude, percTime, zoneVal and label, separated by commas and ended by a newline |
| Csv.LineShape | hotspots/identifyHotspots.py:137-146 | with fields free of commas and newlines, a line has exactly 4 commas and 1 newline, at its end |
| Csv.WriteParticipant | hotspots/identifyHotspots.py:136-146 | a participant's text is its hotspots' lines in list order |
| Csv.WriteCSV | hotspots/identifyHotspots.py:118-147 | the text is the header followed by every participant's lines, participants in order |
| Csv.LineCount | hotspots/identifyHotspots.py:118-147 | with clean fields the text has 1 + (total number of hotspots) newlines |
| Labels.LessTotal | hotspots/identifyHotspots.py:293 | the string order used by sorted is total |
| Labels.UniqueValues | hotspots/identifyHotspots.py:291-293 | the result is strictly increasing and holds exactly the values that occur in the input |
| Labels.UniqueValuesDistinct | hotspots/identifyHotspots.py:293 | no label appears twice in the result |
| Pipeline.Subset | hotspots/identifyHotspots.py:226-230 | the participant's layer holds exactly the rows with that label |
| Pipeline.SubsetKeepsOrder | hotspots/identifyHotspots.py:226-230 | the layer is an order-preserving subsequence of the input rows, so candidates and CSV rows follow cursor order |
| Pipeline.SubsetOfOneParticipant | hotspots/identifyHotspots.py:226-230 | a list whose rows all carry the label is selected whole |
| Pipeline.IdentifyHotSpots | hotspots/identifyHotspots.py:223-282 | raises what the reference pipeline raises; answers "null" exactly when the screened and ranked list is empty; otherwise returns objects whose snapshots are that list |
| Pipeline.ParticipantHotspotsMeaning | hotspots/identifyHotspots.py:266-280 | every returned hotspot has the participant's label, a score strictly above 17 and a rank in [0, n); one with the top score has rank 0 |
| Pipeline.NullExactlyWithoutCandidates | hotspots/identifyHotspots.py:275-282 | the result is "null" exactly when no point clears the cutoff |
| Pipeline.ZeroTotalParticipantRaises | hotspots/identifyHotspots.py:232-263 | a participant with points and a zero total time makes identifyHotSpots raise, with ZeroDivisionError when the first point's own time is a number and all its NEAR_FIDs are known |
| Pipeline.CollectHotSpots | hotspots/identifyHotspots.py:385-390 | the collected lists are the non-"null" results of the participants in label order, or the first exception |
| Pipeline.CollectSkipsNull | hotspots/identifyHotspots.py:386-390 | no empty list reaches writeCSV, and there are no more lists than labels |
| Pipeline.Run | hotspots/identifyHotspots.py:381-391 | the run yields the first exception, or the CSV text of every participant's hotspots |
| Scenarios.TiedPointsShareRankZero | hotspots/identifyHotspots.py:223-282 | three points of 100 s each, two of them near each other, give scores 200/3, 200/3, 100/3; all survive, ranked 0, 0, 2 |

## Left out

- ArcGIS is not part of this model: the feature layers, cursors, `GetCount` and the geodesic
  radius search of `GenerateNearTable`. The rows and the near table are inputs. Whether the
  table lists the point itself is decided by the near table given.
- Per-point layer selection by `FID = …` assumes FIDs are unique. The point's own row is the row
  being scored, and `CandidateOf` reads its attributes from that row.
- The `str()` rendering of floats and ints is a parameter, not modelled. Python float rounding is
  not modelled either: scores are exact reals.
- File opening, writing and closing in `writeCSV` are not modelled; only the text written is.
  The `print` diagnostics are left out.
- `assignZones` (lines 357-375) is a spatial join and merge carried out entirely by ArcGIS.
- The getters (lines 65-84) are plain field reads. The model reads the fields directly.
- `isNearby` (lines 59-62) is modelled, but the pipeline never calls it: `screenHotspot` does its
  own lookup. `Screening.RejectedIffHigherNearby` states screening in terms of it.
- Participant labels are assumed to be ASCII. The source runs under Python 2, where cursors return
  labels as `unicode`. A non-ASCII label would raise `UnicodeEncodeError` in `str(inID)` (lines
  183 and 276) and when the label is written to the byte stream (line 145). These encoding
  failures are not modelled, and neither is Python 2's code-unit ordering of such labels.
- `setZoneVal` is defined twice (lines 80-81 and 86-87) with the same body. One `SetZoneVal`
  stands for both.
- The time attribute is either a number or a value `float` rejects. A string that `float` would
  parse is not distinguished from a number. In the source such a string is counted in the total and
  the time list. As a point's own raw time, though, it makes `bufferTime += …` (line 259) or the
  division (line 263) raise `TypeError`. The model scores that point as a number instead.
- Python's ordering of labels is modelled as lexicographic order on characters.
- `calcGreenspace/calcGreenExposures.py` and `roads/calcRoad.py` are not part of this model. They
  hand all their work to ArcGIS.
