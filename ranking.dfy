/** Ranking: `prioritizeHotspots` sets each hotspot's zoneVal to the first index of its percTime
    in the percTimes sorted in descending order. */
module Ranking {
  import opened Lists
  import opened HotSpots

  predicate Descending(s: seq<real>)
  {
    forall i, j :: 0 <= i < j < |s| ==> s[i] >= s[j]
  }

  /** Inserts `x` in front of the first element it is not smaller than. */
  function InsertDesc(x: real, s: seq<real>): (r: seq<real>)
    ensures multiset(r) == multiset(s) + multiset{x}
  {
    if s == [] || x >= s[0] then [x] + s
    else
      assert s == [s[0]] + s[1..];
      [s[0]] + InsertDesc(x, s[1..])
  }

  lemma {:induction false} InsertDescKeepsOrder(x: real, s: seq<real>)
    requires Descending(s)
    ensures Descending(InsertDesc(x, s))
    decreases |s|
  {
    if s == [] || x >= s[0] {
      forall j | 0 <= j < |s|
        ensures x >= s[j]
      {
        assert j == 0 || s[0] >= s[j];
      }
      DescendingCons(x, s);
    } else {
      var rest := InsertDesc(x, s[1..]);
      DescendingTail(s);
      InsertDescKeepsOrder(x, s[1..]);
      forall j | 0 <= j < |rest|
        ensures s[0] >= rest[j]
      {
        assert rest[j] in multiset(rest);
        if rest[j] != x {
          assert rest[j] in multiset(s[1..]);
        }
      }
      DescendingCons(s[0], rest);
    }
  }

  /** Putting an element no smaller than any other in front keeps a list descending. */
  lemma DescendingCons(x: real, s: seq<real>)
    requires Descending(s) && forall j :: 0 <= j < |s| ==> x >= s[j]
    ensures Descending([x] + s)
  {
    var t := [x] + s;
    forall i, j | 0 <= i < j < |t|
      ensures t[i] >= t[j]
    {
      assert t[j] == s[j - 1];
      if i > 0 {
        assert t[i] == s[i - 1];
      }
    }
  }

  /** `sorted(s, reverse = True)`: the elements of `s` in descending order. */
  function SortDesc(s: seq<real>): (r: seq<real>)
    ensures multiset(r) == multiset(s) && Descending(r)
  {
    if s == [] then []
    else
      assert s == [s[0]] + s[1..];
      InsertDescKeepsOrder(s[0], SortDesc(s[1..]));
      InsertDesc(s[0], SortDesc(s[1..]))
  }

  /** The head of a descending list is its largest element. */
  lemma HeadIsLargest(s: seq<real>, x: real)
    requires Descending(s) && x in s
    ensures x <= s[0]
  {
    var k :| 0 <= k < |s| && s[k] == x;
    assert k == 0 || s[0] >= s[k];
  }

  /** There is only one descending arrangement of a multiset, so any descending sort (Python's
      included) gives the list SortDesc gives. */
  lemma {:induction false} DescendingPermutationUnique(a: seq<real>, b: seq<real>)
    requires Descending(a) && Descending(b) && multiset(a) == multiset(b)
    ensures a == b
    decreases |a|
  {
    if a != [] {
      SameHead(a, b);
      TailMultiset(a);
      TailMultiset(b);
      DescendingTail(a);
      DescendingTail(b);
      DescendingPermutationUnique(a[1..], b[1..]);
      assert a == [a[0]] + a[1..] && b == [b[0]] + b[1..];
    }
  }

  /** Two descending arrangements of one multiset start with the same element. */
  lemma SameHead(a: seq<real>, b: seq<real>)
    requires a != [] && Descending(a) && Descending(b) && multiset(a) == multiset(b)
    ensures b != [] && a[0] == b[0]
  {
    assert |b| == |a| by { assert |multiset(a)| == |multiset(b)|; }
    assert a[0] in multiset(b) && b[0] in multiset(a);
    HeadIsLargest(b, a[0]);
    HeadIsLargest(a, b[0]);
  }

  lemma TailMultiset(s: seq<real>)
    requires s != []
    ensures multiset(s[1..]) == multiset(s) - multiset{s[0]}
  {
    assert s == [s[0]] + s[1..];
  }

  lemma DescendingTail(s: seq<real>)
    requires s != [] && Descending(s)
    ensures Descending(s[1..])
  {
    forall i, j | 0 <= i < j < |s| - 1
      ensures s[1..][i] >= s[1..][j]
    {
      assert s[1..][i] == s[i + 1] && s[1..][j] == s[j + 1];
    }
  }

  /** Number of elements of `s` strictly greater than `p`. */
  function CountGreater(s: seq<real>, p: real): nat
  {
    if s == [] then 0 else (if s[0] > p then 1 else 0) + CountGreater(s[1..], p)
  }

  lemma {:induction false} CountGreaterBound(s: seq<real>, p: real)
    ensures CountGreater(s, p) <= |s|
    ensures p in s ==> CountGreater(s, p) < |s|
    decreases |s|
  {
    if s != [] {
      CountGreaterBound(s[1..], p);
    }
  }

  lemma {:induction false} CountGreaterInsert(x: real, s: seq<real>, p: real)
    ensures CountGreater(InsertDesc(x, s), p) == CountGreater(s, p) + (if x > p then 1 else 0)
    decreases |s|
  {
    if s != [] && x < s[0] {
      CountGreaterInsert(x, s[1..], p);
    }
  }

  lemma {:induction false} CountGreaterSort(s: seq<real>, p: real)
    ensures CountGreater(SortDesc(s), p) == CountGreater(s, p)
    decreases |s|
  {
    if s != [] {
      CountGreaterSort(s[1..], p);
      CountGreaterInsert(s[0], SortDesc(s[1..]), p);
    }
  }

  lemma {:induction false} NoneGreater(s: seq<real>, p: real)
    requires forall y :: y in s ==> y <= p
    ensures CountGreater(s, p) == 0
    decreases |s|
  {
    if s != [] {
      assert s[0] in s;
      assert forall y :: y in s[1..] ==> y in s;
      NoneGreater(s[1..], p);
    }
  }

  /** In a descending list the first index of `p` is the number of elements greater than `p`. */
  lemma {:induction false} FirstIndexInDescending(t: seq<real>, p: real)
    requires Descending(t) && p in t
    ensures IndexOf(t, p) == CountGreater(t, p)
    decreases |t|
  {
    if t[0] == p {
      NoneGreater(t[1..], p);
    } else {
      FirstIndexInDescending(t[1..], p);
    }
  }

  /** The rank of a score: `sortedPercents.index(p)`, which is the number of scores in the list
      strictly greater than `p`. */
  function Rank(p: real, percents: seq<real>): (r: nat)
    requires p in percents
    ensures r == CountGreater(percents, p) && r < |percents|
  {
    RankIsSortedIndex(p, percents);
    CountGreaterBound(percents, p);
    IndexOf(SortDesc(percents), p)
  }

  function PercTimes(spots: seq<Spot>): (r: seq<real>)
    ensures |r| == |spots| && forall i :: 0 <= i < |spots| ==> r[i] == spots[i].percTime
  {
    seq(|spots|, i requires 0 <= i < |spots| => spots[i].percTime)
  }

  /** The list after prioritizeHotspots: same length, same order, every field kept except zoneVal,
      which becomes the number of hotspots with a strictly larger percTime. */
  function Ranked(spots: seq<Spot>): (r: seq<Spot>)
    ensures |r| == |spots|
    ensures forall i :: 0 <= i < |spots| ==>
              r[i] == spots[i].(zoneVal := CountGreater(PercTimes(spots), spots[i].percTime))
  {
    var percents := PercTimes(spots);
    seq(|spots|, i requires 0 <= i < |spots| =>
      assert percents[i] in percents;
      spots[i].(zoneVal := Rank(percents[i], percents)))
  }

  /** Ranks lie in [0, n); equal scores share a rank; a strictly higher score gets a strictly
      smaller rank. */
  lemma RankOrder(spots: seq<Spot>, i: nat, j: nat)
    requires i < |spots| && j < |spots|
    ensures 0 <= Ranked(spots)[i].zoneVal < |spots|
    ensures spots[i].percTime == spots[j].percTime ==> Ranked(spots)[i].zoneVal == Ranked(spots)[j].zoneVal
    ensures spots[i].percTime > spots[j].percTime ==> Ranked(spots)[i].zoneVal < Ranked(spots)[j].zoneVal
  {
    var percents := PercTimes(spots);
    assert percents[i] in percents;
    CountGreaterBound(percents, percents[i]);
    if spots[i].percTime > spots[j].percTime {
      CountGreaterStrict(percents, percents[i], percents[j]);
    }
  }

  lemma {:induction false} CountGreaterStrict(s: seq<real>, a: real, b: real)
    requires a > b && a in s
    ensures CountGreater(s, b) > CountGreater(s, a)
    decreases |s|
  {
    if s[0] != a {
      CountGreaterStrict(s[1..], a, b);
    } else {
      CountGreaterMonotone(s[1..], a, b);
    }
  }

  lemma {:induction false} CountGreaterMonotone(s: seq<real>, a: real, b: real)
    requires a >= b
    ensures CountGreater(s, b) >= CountGreater(s, a)
    decreases |s|
  {
    if s != [] {
      CountGreaterMonotone(s[1..], a, b);
    }
  }

  /** Every hotspot with the maximum percTime gets rank 0. */
  lemma MaximumRankZero(spots: seq<Spot>, i: nat)
    requires i < |spots|
    requires forall k :: 0 <= k < |spots| ==> spots[k].percTime <= spots[i].percTime
    ensures Ranked(spots)[i].zoneVal == 0
  {
    NoneGreater(PercTimes(spots), spots[i].percTime);
  }

  /** Tied scores share a rank and the next rank is skipped: scores x, x, y with x > y are
      ranked 0, 0, 2 (so 40, 40, 20 give 0, 0, 2 and no hotspot gets rank 1). */
  lemma TiesShareRank(a: Spot, b: Spot, c: Spot)
    requires a.percTime == b.percTime && b.percTime > c.percTime
    ensures var r := Ranked([a, b, c]);
            r[0].zoneVal == 0 && r[1].zoneVal == 0 && r[2].zoneVal == 2
  {
    var x, y := a.percTime, c.percTime;
    var p := PercTimes([a, b, c]);
    assert p == [x, x, y];
    assert p[1..] == [x, y] && p[1..][1..] == [y] && p[1..][1..][1..] == [];
    assert CountGreater([y], x) == 0 && CountGreater([y], y) == 0;
    assert CountGreater(p, x) == 0;
    assert CountGreater(p, y) == 2;
  }

  /** The first loop of prioritizeHotspots: the percTimes, in list order. */
  method CopyPercents(inHotspots: seq<HotSpot>) returns (nonSortedPercents: seq<real>)
    ensures nonSortedPercents == PercTimes(Snapshots(inHotspots))
  {
    var n := |inHotspots|;
    var percents := new real[n](_ => 0.0);
    for i := 0 to n
      invariant forall k :: 0 <= k < i ==> percents[k] == inHotspots[k].percTime
    {
      percents[i] := inHotspots[i].percTime;
    }
    nonSortedPercents := percents[..];
  }

  /** prioritizeHotspots: sorts a copy of the percTimes in descending order and sets each
      hotspot's zoneVal to the first index of its percTime there. The list itself is not
      reordered. */
  method PrioritizeHotspots(inHotspots: seq<HotSpot>)
    modifies set h | h in inHotspots
    ensures Snapshots(inHotspots) == Ranked(old(Snapshots(inHotspots)))
  {
    var nonSortedPercents := CopyPercents(inHotspots);
    var sortedPercents := SortDesc(nonSortedPercents);
    SortedIndexIsRank(nonSortedPercents);
    SetRanks(inHotspots, nonSortedPercents, sortedPercents);
  }

  /** The second loop of prioritizeHotspots: zoneVal := sortedPercents.index(percTime). A hotspot
      listed twice gets the same value both times, since its percTime is the same. */
  method SetRanks(inHotspots: seq<HotSpot>, nonSortedPercents: seq<real>, sortedPercents: seq<real>)
    requires |nonSortedPercents| == |inHotspots|
    requires forall k :: 0 <= k < |inHotspots| ==> nonSortedPercents[k] == inHotspots[k].percTime
    requires forall k :: 0 <= k < |nonSortedPercents| ==>
               nonSortedPercents[k] in sortedPercents &&
               IndexOf(sortedPercents, nonSortedPercents[k])
               == CountGreater(nonSortedPercents, nonSortedPercents[k])
    modifies inHotspots`zoneVal
    ensures forall h :: h in inHotspots ==> h.zoneVal == CountGreater(nonSortedPercents, h.percTime)
  {
    for i := 0 to |inHotspots|
      invariant forall h :: h in inHotspots[..i] ==>
                  h.zoneVal == CountGreater(nonSortedPercents, h.percTime)
    {
      var p := nonSortedPercents[i];
      inHotspots[i].SetZoneVal(IndexOf(sortedPercents, p));
      assert inHotspots[..i + 1] == inHotspots[..i] + [inHotspots[i]];
    }
    assert inHotspots[..|inHotspots|] == inHotspots;
  }

  /** Every score's first index in the sorted copy is its count of strictly larger scores. */
  lemma SortedIndexIsRank(percents: seq<real>)
    ensures forall k :: 0 <= k < |percents| ==>
              percents[k] in SortDesc(percents) &&
              IndexOf(SortDesc(percents), percents[k]) == CountGreater(percents, percents[k])
  {
    forall k | 0 <= k < |percents|
      ensures percents[k] in SortDesc(percents) &&
              IndexOf(SortDesc(percents), percents[k]) == CountGreater(percents, percents[k])
    {
      RankIsSortedIndex(percents[k], percents);
    }
  }

  lemma RankIsSortedIndex(p: real, percents: seq<real>)
    requires p in percents
    ensures p in SortDesc(percents) && IndexOf(SortDesc(percents), p) == CountGreater(percents, p)
  {
    assert p in multiset(SortDesc(percents));
    FirstIndexInDescending(SortDesc(percents), p);
    CountGreaterSort(percents, p);
  }
}
