/**
 Choice of the mirror axis from the ranked histogram
 (find_coordinate_maxhexbin, mirror_symmetry.py:153-165). The ranked cells
 are scanned in order; a vertical mirror takes the first one, any other
 mirror the first whose θ is neither 0 nor π. When no cell qualifies the
 program falls off the end of the loop and returns None.
 */
module Selection {
  import opened Wrappers
  import opened Voting
  import Sorting

  /** θ = 0 or θ = π: the cell is skipped when the mirror is not vertical. */
  predicate Degenerate(theta: real, pi: real)
  {
    theta == 0.0 || theta == pi
  }

  /**
   The key the scan stops at, if any: always a key of the ranking, never a
   degenerate one for a non-vertical mirror, and nothing for a vertical
   mirror only when the ranking is empty.
   */
  function SelectAxis(sortedVote: seq<Cell>, vertical: bool, pi: real): (axis: Option<Offset>)
    ensures axis.Some? ==> axis.value in KeySeq(sortedVote)
    ensures axis.Some? && !vertical ==> !Degenerate(axis.value.y, pi)
    ensures axis.None? && vertical ==> sortedVote == []
  {
    if sortedVote == [] then None
    else
      assert KeySeq(sortedVote) == [sortedVote[0].key] + KeySeq(sortedVote[1..]);
      if vertical || !Degenerate(sortedVote[0].key.y, pi) then Some(sortedVote[0].key)
      else SelectAxis(sortedVote[1..], vertical, pi)
  }

  /**
   Otherwise the scan returns the key of the first cell whose θ is not
   degenerate, and nothing exactly when every cell is degenerate.
   */
  lemma {:induction false} SelectAxisFirstQualifying(sortedVote: seq<Cell>, pi: real)
    ensures SelectAxis(sortedVote, false, pi) == None <==>
      forall i :: 0 <= i < |sortedVote| ==> Degenerate(sortedVote[i].key.y, pi)
    ensures SelectAxis(sortedVote, false, pi) != None ==>
      exists i :: 0 <= i < |sortedVote| && SelectAxis(sortedVote, false, pi) == Some(sortedVote[i].key)
        && !Degenerate(sortedVote[i].key.y, pi)
        && forall j :: 0 <= j < i ==> Degenerate(sortedVote[j].key.y, pi)
  {
    if sortedVote != [] && Degenerate(sortedVote[0].key.y, pi) {
      var rest := sortedVote[1..];
      SelectAxisFirstQualifying(rest, pi);
      assert forall i :: 0 < i < |sortedVote| ==> sortedVote[i] == rest[i - 1];
      if SelectAxis(rest, false, pi) != None {
        var i :| 0 <= i < |rest| && SelectAxis(rest, false, pi) == Some(rest[i].key)
          && !Degenerate(rest[i].key.y, pi)
          && forall j :: 0 <= j < i ==> Degenerate(rest[j].key.y, pi);
        assert SelectAxis(sortedVote, false, pi) == Some(sortedVote[i + 1].key);
      }
    } else if sortedVote != [] {
      assert SelectAxis(sortedVote, false, pi) == Some(sortedVote[0].key);
    }
  }

  /**
   On the ranking of a histogram, a vertical mirror gets a cell with the most
   votes of all.
   */
  lemma VerticalPicksMostVotes(d: seq<Cell>, pi: real)
    requires d != []
    ensures SelectAxis(RankByVotes(d), true, pi) != None
    ensures exists c :: (c in d && SelectAxis(RankByVotes(d), true, pi) == Some(c.key)
      && forall c' :: c' in d ==> c'.count <= c.count)
  {
    RankedFirstIsMax(d);
    var c := RankByVotes(d)[0];
    assert c in d && SelectAxis(RankByVotes(d), true, pi) == Some(c.key);
  }

  /**
   A horizontal-axis cell with the most votes is passed over for the next one
   when the mirror is not vertical.
   */
  lemma SkipsHorizontalAxis(pi: real)
    requires 3.0 < pi
    ensures SelectAxis([Cell(Offset(10.0, 0.0), 2.0), Cell(Offset(20.0, 1.2), 1.0)], false, pi)
      == Some(Offset(20.0, 1.2))
  {
    var sv := [Cell(Offset(10.0, 0.0), 2.0), Cell(Offset(20.0, 1.2), 1.0)];
    assert sv[1..] == [Cell(Offset(20.0, 1.2), 1.0)];
  }

  /**
   The same scenario from the histogram up: a θ = 0 cell holding two votes and
   a θ = 1.2 cell holding one, ranked and then scanned for a non-vertical axis.
   */
  lemma SkipsHorizontalAxisFromHistogram(pi: real)
    requires 3.0 < pi
    ensures SelectAxis(RankByVotes(Tally([Offset(10.0, 0.0), Offset(20.0, 1.2)], [2.0, 1.0], 2)), false, pi)
      == Some(Offset(20.0, 1.2))
  {
    var offsets, counts := [Offset(10.0, 0.0), Offset(20.0, 1.2)], [2.0, 1.0];
    var d := Tally(offsets, counts, 2);
    assert Tally(offsets, counts, 1) == [Cell(Offset(10.0, 0.0), 2.0)];
    assert d == [Cell(Offset(10.0, 0.0), 2.0), Cell(Offset(20.0, 1.2), 1.0)];
    var c1, c2 := Cell(Offset(10.0, 0.0), 2.0), Cell(Offset(20.0, 1.2), 1.0);
    assert d[1..] == [c2];
    assert Sorting.Sorted([c2], Count, true) == Sorting.Insert(c2, [], Count, true) == [c2];
    assert Sorting.Insert(c1, [c2], Count, true) == [c1, c2];
    assert RankByVotes(d) == d;
    SkipsHorizontalAxis(pi);
  }

  /** find_coordinate_maxhexbin: the loop over the ranked cells, with its early return. */
  method FindCoordinateMaxHexbin(sortedVote: seq<Cell>, vertical: bool, pi: real) returns (axis: Option<Offset>)
    ensures axis == SelectAxis(sortedVote, vertical, pi)
    ensures vertical ==> axis == if sortedVote == [] then None else Some(sortedVote[0].key)
    ensures !vertical ==> (axis == None <==> forall i :: 0 <= i < |sortedVote| ==> Degenerate(sortedVote[i].key.y, pi))
  {
    SelectAxisFirstQualifying(sortedVote, pi);
    var i := 0;
    while i < |sortedVote|
      invariant i <= |sortedVote|
      invariant SelectAxis(sortedVote[i..], vertical, pi) == SelectAxis(sortedVote, vertical, pi)
    {
      var k := sortedVote[i].key;
      if vertical {
        return Some(k);
      } else {
        if k.y == 0.0 || k.y == pi {
          assert sortedVote[i..][1..] == sortedVote[i + 1..];
          i := i + 1;
          continue;
        } else {
          return Some(k);
        }
      }
    }
    axis := None;
  }
}
