/** The text layout of `writeCSV`. The `str()` rendering of numbers is a parameter. */
module Csv {
  import opened HotSpots

  /** Output column names, in order. */
  const CSV_DICT: seq<string> := ["latitude", "longitude", "percTime", "zoneVal", "studyLabel"]
  const SEP: string := ","
  const NEW_LINE: string := "\n"

  /** The fields joined by SEP. */
  function Join(fields: seq<string>): string
    requires fields != []
  {
    if |fields| == 1 then fields[0] else Join(fields[..|fields| - 1]) + SEP + fields[|fields| - 1]
  }

  function Header(): string
  {
    Join(CSV_DICT) + NEW_LINE
  }

  /** The five written fields of one hotspot; `str` and `strInt` stand for Python's `str()`. */
  function Fields(h: Spot, str: real -> string, strInt: int -> string): seq<string>
  {
    [str(h.latitude), str(h.longitude), str(h.percTime), strInt(h.zoneVal), h.studyLabel]
  }

  function Line(h: Spot, str: real -> string, strInt: int -> string): string
  {
    Join(Fields(h, str, strInt)) + NEW_LINE
  }

  /** One participant's lines, in list order. */
  function ParticipantLines(spots: seq<Spot>, str: real -> string, strInt: int -> string): string
  {
    if spots == [] then ""
    else ParticipantLines(spots[..|spots| - 1], str, strInt) + Line(spots[|spots| - 1], str, strInt)
  }

  /** All participants' lines, participants in order. */
  function AllLines(sets: seq<seq<Spot>>, str: real -> string, strInt: int -> string): string
  {
    if sets == [] then ""
    else AllLines(sets[..|sets| - 1], str, strInt) + ParticipantLines(sets[|sets| - 1], str, strInt)
  }

  /** The whole file: the header, then one line per hotspot. */
  function CsvText(sets: seq<seq<Spot>>, str: real -> string, strInt: int -> string): string
  {
    Header() + AllLines(sets, str, strInt)
  }

  /** The snapshots of every participant's hotspot list. */
  function SnapshotSets(sets: seq<seq<HotSpot>>): (r: seq<seq<Spot>>)
    reads set p, h | p in sets && h in p :: h
    ensures |r| == |sets| && forall i :: 0 <= i < |sets| ==> r[i] == Snapshots(sets[i])
  {
    if sets == [] then [] else SnapshotSets(sets[..|sets| - 1]) + [Snapshots(sets[|sets| - 1])]
  }

  lemma SnapshotSetsAppend(sets: seq<seq<HotSpot>>, hs: seq<HotSpot>)
    ensures SnapshotSets(sets + [hs]) == SnapshotSets(sets) + [Snapshots(hs)]
  {
    assert (sets + [hs])[..|sets|] == sets;
  }

  /** writeCSV: streams the header, then each participant's hotspots, line by line. */
  method WriteCSV(inAllHotSpots: seq<seq<HotSpot>>, str: real -> string, strInt: int -> string)
    returns (text: string)
    ensures text == CsvText(SnapshotSets(inAllHotSpots), str, strInt)
  {
    text := WriteHeader();
    ghost var sets := SnapshotSets(inAllHotSpots);
    assert sets[..0] == [];
    for i := 0 to |inAllHotSpots|
      invariant text == CsvText(sets[..i], str, strInt)
    {
      var participantLines := WriteParticipant(inAllHotSpots[i], str, strInt);
      assert participantLines == ParticipantLines(sets[i], str, strInt);
      CsvTextPrefix(sets, i, str, strInt);
      text := text + participantLines;
    }
    assert sets[..|inAllHotSpots|] == sets;
  }

  lemma CsvTextPrefix(sets: seq<seq<Spot>>, i: nat, str: real -> string, strInt: int -> string)
    requires i < |sets|
    ensures CsvText(sets[..i + 1], str, strInt)
            == CsvText(sets[..i], str, strInt) + ParticipantLines(sets[i], str, strInt)
  {
    assert sets[..i + 1][..i] == sets[..i];
  }

  /** The inner loop of writeCSV, over one participant's hotspots. */
  method WriteParticipant(participantHotSpots: seq<HotSpot>, str: real -> string,
                          strInt: int -> string) returns (text: string)
    ensures text == ParticipantLines(Snapshots(participantHotSpots), str, strInt)
  {
    ghost var spots := Snapshots(participantHotSpots);
    text := "";
    for j := 0 to |participantHotSpots|
      invariant text == ParticipantLines(spots[..j], str, strInt)
    {
      var line := WriteLine(participantHotSpots[j], str, strInt);
      assert line == Line(spots[j], str, strInt);
      ParticipantLinesPrefix(spots, j, str, strInt);
      text := text + line;
    }
    assert spots[..|participantHotSpots|] == spots;
  }

  lemma ParticipantLinesPrefix(spots: seq<Spot>, j: nat, str: real -> string, strInt: int -> string)
    requires j < |spots|
    ensures ParticipantLines(spots[..j + 1], str, strInt)
            == ParticipantLines(spots[..j], str, strInt) + Line(spots[j], str, strInt)
  {
    assert spots[..j + 1][..j] == spots[..j];
  }

  /** The header part of writeCSV: each name but the last followed by SEP, then the last name
      and NEW_LINE. */
  method WriteHeader() returns (text: string)
    ensures text == Header()
  {
    var names := CSV_DICT;
    text := "";
    for i := 0 to |names| - 1
      invariant i == 0 ==> text == ""
      invariant i > 0 ==> text == Join(names[..i]) + SEP
    {
      assert names[..i + 1][..i] == names[..i];
      text := text + names[i];
      text := text + SEP;
    }
    text := text + names[|names| - 1];
    text := text + NEW_LINE;
    assert names[..|names|] == names;
  }

  /** The writes for one hotspot. */
  method WriteLine(hotSpot: HotSpot, str: real -> string, strInt: int -> string) returns (line: string)
    ensures line == Line(hotSpot.Snapshot(), str, strInt)
  {
    line := str(hotSpot.latitude);
    line := line + SEP;
    line := line + str(hotSpot.longitude);
    line := line + SEP;
    line := line + str(hotSpot.percTime);
    line := line + SEP;
    line := line + strInt(hotSpot.zoneVal);
    line := line + SEP;
    line := line + hotSpot.studyLabel;
    line := line + NEW_LINE;
    LineParts(hotSpot.Snapshot(), str, strInt);
  }

  lemma LineParts(h: Spot, str: real -> string, strInt: int -> string)
    ensures Line(h, str, strInt) ==
              str(h.latitude) + SEP + str(h.longitude) + SEP + str(h.percTime) + SEP +
              strInt(h.zoneVal) + SEP + h.studyLabel + NEW_LINE
  {
    var a, b, c, d, e := str(h.latitude), str(h.longitude), str(h.percTime), strInt(h.zoneVal),
                         h.studyLabel;
    var f5 := Fields(h, str, strInt);
    var f4, f3, f2, f1 := [a, b, c, d], [a, b, c], [a, b], [a];
    assert f5[..4] == f4 && f4[..3] == f3 && f3[..2] == f2 && f2[..1] == f1;
    assert Join(f2) == a + SEP + b;
    assert Join(f3) == a + SEP + b + SEP + c;
    assert Join(f4) == a + SEP + b + SEP + c + SEP + d;
  }

  /** The header is the five column names separated by commas, ending with a newline. */
  lemma HeaderText()
    ensures Header() == "latitude,longitude,percTime,zoneVal,studyLabel\n"
  {
    var f5 := CSV_DICT;
    var f4, f3, f2, f1 := f5[..4], f5[..3], f5[..2], f5[..1];
    assert f4[..3] == f3 && f3[..2] == f2 && f2[..1] == f1;
    assert Join(f1) == "latitude";
    assert Join(f2) == "latitude,longitude";
    assert Join(f3) == "latitude,longitude,percTime";
    assert Join(f4) == "latitude,longitude,percTime,zoneVal";
  }

  /** Number of occurrences of `c` in `s`. */
  function Count(c: char, s: string): nat
  {
    if s == [] then 0 else Count(c, s[..|s| - 1]) + (if s[|s| - 1] == c then 1 else 0)
  }

  lemma {:induction false} CountAppend(c: char, s: string, t: string)
    ensures Count(c, s + t) == Count(c, s) + Count(c, t)
    decreases |t|
  {
    if t == [] {
      assert s + t == s;
    } else {
      assert (s + t)[..|s + t| - 1] == s + t[..|t| - 1];
      CountAppend(c, s, t[..|t| - 1]);
    }
  }

  lemma {:induction false} NoOccurrence(c: char, s: string)
    requires c !in s
    ensures Count(c, s) == 0
    decreases |s|
  {
    if s != [] {
      NoOccurrence(c, s[..|s| - 1]);
    }
  }

  /** Joining fields that contain neither `c` nor the separator adds |fields| - 1 separators
      and no `c`. */
  lemma {:induction false} JoinCounts(fields: seq<string>, c: char)
    requires fields != [] && c != ','
    requires forall k :: 0 <= k < |fields| ==> c !in fields[k] && ',' !in fields[k]
    ensures Count(c, Join(fields)) == 0
    ensures Count(',', Join(fields)) == |fields| - 1
    decreases |fields|
  {
    var last := fields[|fields| - 1];
    NoOccurrence(c, last);
    NoOccurrence(',', last);
    if |fields| > 1 {
      var init := fields[..|fields| - 1];
      JoinCounts(init, c);
      CountAppend(c, Join(init) + SEP, last);
      CountAppend(c, Join(init), SEP);
      CountAppend(',', Join(init) + SEP, last);
      CountAppend(',', Join(init), SEP);
    }
  }

  /** Fields free of commas and newlines (what the rendering of numbers gives, and what a study
      label must be for the file to parse back). */
  ghost predicate CleanFields(str: real -> string, strInt: int -> string, h: Spot)
  {
    '\n' !in str(h.latitude) && ',' !in str(h.latitude) &&
    '\n' !in str(h.longitude) && ',' !in str(h.longitude) &&
    '\n' !in str(h.percTime) && ',' !in str(h.percTime) &&
    '\n' !in strInt(h.zoneVal) && ',' !in strInt(h.zoneVal) &&
    '\n' !in h.studyLabel && ',' !in h.studyLabel
  }

  /** Each hotspot's line has exactly five fields and one newline, at its end. */
  lemma LineShape(h: Spot, str: real -> string, strInt: int -> string)
    requires CleanFields(str, strInt, h)
    ensures Count(',', Line(h, str, strInt)) == 4
    ensures Count('\n', Line(h, str, strInt)) == 1
    ensures Line(h, str, strInt)[|Line(h, str, strInt)| - 1] == '\n'
  {
    var fs := Fields(h, str, strInt);
    JoinCounts(fs, '\n');
    CountAppend(',', Join(fs), NEW_LINE);
    CountAppend('\n', Join(fs), NEW_LINE);
  }

  /** Total number of hotspots over all participants. */
  function TotalSize(sets: seq<seq<Spot>>): nat
  {
    if sets == [] then 0 else TotalSize(sets[..|sets| - 1]) + |sets[|sets| - 1]|
  }

  lemma {:induction false} ParticipantLineCount(spots: seq<Spot>, str: real -> string,
                                                strInt: int -> string)
    requires forall h :: h in spots ==> CleanFields(str, strInt, h)
    ensures Count('\n', ParticipantLines(spots, str, strInt)) == |spots|
    decreases |spots|
  {
    if spots != [] {
      var init := spots[..|spots| - 1];
      assert forall h :: h in init ==> h in spots;
      ParticipantLineCount(init, str, strInt);
      LineShape(spots[|spots| - 1], str, strInt);
      CountAppend('\n', ParticipantLines(init, str, strInt), Line(spots[|spots| - 1], str, strInt));
    }
  }

  lemma {:induction false} AllLinesCount(sets: seq<seq<Spot>>, str: real -> string,
                                         strInt: int -> string)
    requires forall p, h :: p in sets && h in p ==> CleanFields(str, strInt, h)
    ensures Count('\n', AllLines(sets, str, strInt)) == TotalSize(sets)
    decreases |sets|
  {
    if sets != [] {
      var init := sets[..|sets| - 1];
      var last := sets[|sets| - 1];
      assert forall p :: p in init ==> p in sets;
      AllLinesCount(init, str, strInt);
      ParticipantLineCount(last, str, strInt);
      CountAppend('\n', AllLines(init, str, strInt), ParticipantLines(last, str, strInt));
    }
  }

  /** The file has 1 + (number of hotspots) lines: the header and one line per hotspot. */
  lemma LineCount(sets: seq<seq<Spot>>, str: real -> string, strInt: int -> string)
    requires forall p, h :: p in sets && h in p ==> CleanFields(str, strInt, h)
    ensures Count('\n', CsvText(sets, str, strInt)) == 1 + TotalSize(sets)
  {
    AllLinesCount(sets, str, strInt);
    forall k | 0 <= k < |CSV_DICT|
      ensures '\n' !in CSV_DICT[k] && ',' !in CSV_DICT[k]
    {
    }
    JoinCounts(CSV_DICT, '\n');
    CountAppend('\n', Join(CSV_DICT), NEW_LINE);
    CountAppend('\n', Header(), AllLines(sets, str, strInt));
  }
}
