/** Reading the time attribute of a participant's points (`calcTotalTime`, `getRowsAndDTime`). */
module Times {
  import opened Lists

  /** A numeric attribute as a cursor returns it: a number, or null. */
  datatype FieldValue = Num(value: real) | Null

  /** One row of a participant's point layer, in cursor order. */
  datatype PointRow = PointRow(fid: int, time: FieldValue, latitude: real, longitude: real,
                               studyLabel: string)

  /** The time a row contributes: `float(v)`, or 0 when that conversion raises. */
  function TimeOrZero(v: FieldValue): real
  {
    if v.Num? then v.value else 0.0
  }

  /** Total time of the rows: the sum of every convertible time value. */
  function SumTimes(rows: seq<PointRow>): real
  {
    if rows == [] then 0.0 else SumTimes(rows[..|rows| - 1]) + TimeOrZero(rows[|rows| - 1].time)
  }

  /** The FID column, one entry per row. */
  function FidColumn(rows: seq<PointRow>): seq<int>
  {
    seq(|rows|, i requires 0 <= i < |rows| => rows[i].fid)
  }

  /** The parsed time column, one entry per row. */
  function TimeColumn(rows: seq<PointRow>): seq<real>
  {
    seq(|rows|, i requires 0 <= i < |rows| => TimeOrZero(rows[i].time))
  }

  /** calcTotalTime: a running sum over the cursor that skips values `float` cannot convert. */
  method CalcTotalTime(rows: seq<PointRow>) returns (sumVal: real)
    ensures sumVal == SumTimes(rows)
  {
    sumVal := 0.0;
    var numObs := 0;
    while numObs < |rows|
      invariant 0 <= numObs <= |rows|
      invariant sumVal == SumTimes(rows[..numObs])
    {
      assert rows[..numObs + 1][..numObs] == rows[..numObs];
      var row := rows[numObs];
      if row.time.Num? {
        sumVal := sumVal + row.time.value;
      }
      numObs := numObs + 1;
    }
    assert rows[..numObs] == rows;
  }

  /** getRowsAndDTime: fills two lists preallocated with zeros, one entry per row; a time that
      does not convert leaves its zero in place. */
  method GetRowsAndDTime(rows: seq<PointRow>) returns (fidArray: seq<int>, dTimeArray: seq<real>)
    ensures |fidArray| == |dTimeArray| == |rows|
    ensures forall i :: 0 <= i < |rows| ==> fidArray[i] == rows[i].fid
    ensures forall i :: 0 <= i < |rows| ==>
              dTimeArray[i] == TimeOrZero(rows[i].time)
  {
    var numRows := |rows|;
    var fids := new int[numRows](_ => 0);
    var times := new real[numRows](_ => 0.0);
    var index := 0;
    while index < numRows
      invariant 0 <= index <= numRows
      invariant forall k :: 0 <= k < index ==> fids[k] == rows[k].fid
      invariant forall k :: 0 <= k < index ==> times[k] == TimeOrZero(rows[k].time)
      invariant forall k :: index <= k < numRows ==> times[k] == 0.0
    {
      var row := rows[index];
      fids[index] := row.fid;
      if row.time.Num? {
        times[index] := row.time.value;
      }
      index := index + 1;
    }
    fidArray, dTimeArray := fids[..], times[..];
  }

  /** The total of calcTotalTime is the sum of the list getRowsAndDTime returns. */
  lemma {:induction false} TotalIsSumOfTimeList(rows: seq<PointRow>)
    ensures SumTimes(rows) == Sum(TimeColumn(rows))
    decreases |rows|
  {
    if rows != [] {
      var init := rows[..|rows| - 1];
      TotalIsSumOfTimeList(init);
      assert TimeColumn(rows)[..|rows| - 1] == TimeColumn(init);
    }
  }

  lemma {:induction false} SumTimesAppend(a: seq<PointRow>, b: seq<PointRow>)
    ensures SumTimes(a + b) == SumTimes(a) + SumTimes(b)
    decreases |b|
  {
    if b == [] {
      assert a + b == a;
    } else {
      assert (a + b)[..|a + b| - 1] == a + b[..|b| - 1];
      SumTimesAppend(a, b[..|b| - 1]);
    }
  }

  /** A row whose time is null changes neither the total nor any other row's entry. */
  lemma NullTimeAddsNothing(a: seq<PointRow>, r: PointRow, b: seq<PointRow>)
    requires r.time == Null
    ensures SumTimes(a + [r] + b) == SumTimes(a + b)
    ensures TimeColumn(a + [r] + b) == TimeColumn(a) + [0.0] + TimeColumn(b)
  {
    SumTimesAppend(a + [r], b);
    SumTimesAppend(a, [r]);
    SumTimesAppend(a, b);
    assert [r][..0] == [];
  }
}
