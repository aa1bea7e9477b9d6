/**
 Ranking of the vote histogram (sort_hexbin_by_votes, mirror_symmetry.py:168-180).

 The hexagonal binning itself is matplotlib's and is not modelled: its
 output is taken as two parallel sequences, the cell centres
 (`get_offsets()`, x = r and y = θ) and the cell counts (`get_array()`,
 floats). The program keeps the non-empty cells in a dictionary, filled in
 offset order, then lists its entries by descending count. The dictionary is
 a sequence of cells with distinct keys in insertion order, as Python keeps it.
 */
module Voting {
  import Sorting

  /** A hexbin centre: x is r, y is θ. */
  datatype Offset = Offset(x: real, y: real)

  /** A dictionary entry: a cell centre and its vote count. */
  datatype Cell = Cell(key: Offset, count: real)

  function Count(c: Cell): real
  {
    c.count
  }

  /** The keys of a dictionary, in insertion order. */
  function KeySeq(d: seq<Cell>): (ks: seq<Offset>)
    ensures |ks| == |d|
  {
    seq(|d|, i requires 0 <= i < |d| => d[i].key)
  }

  /** A dictionary holds each key at most once. */
  predicate DistinctKeys(d: seq<Cell>)
  {
    forall i, j :: 0 <= i < j < |d| ==> d[i].key != d[j].key
  }

  /** The position of key k in the dictionary, or its size when k is absent. */
  function Find(d: seq<Cell>, k: Offset): (i: nat)
    ensures i <= |d|
    ensures i < |d| ==> d[i].key == k
    ensures forall j :: 0 <= j < i ==> d[j].key != k
  {
    if d == [] || d[0].key == k then 0 else 1 + Find(d[1..], k)
  }

  /**
   `output[k] = v` on an insertion-ordered dictionary: an existing key keeps
   its place and takes the new value, a new key goes at the end.
   */
  function Put(d: seq<Cell>, k: Offset, v: real): (e: seq<Cell>)
    requires DistinctKeys(d)
    ensures KeySeq(e) == if k in KeySeq(d) then KeySeq(d) else KeySeq(d) + [k]
    ensures DistinctKeys(e)
    ensures forall i :: 0 <= i < |d| ==> e[i] == (if d[i].key == k then Cell(k, v) else d[i])
    ensures k !in KeySeq(d) ==> e[|d|] == Cell(k, v)
  {
    var i := Find(d, k);
    if i < |d| then
      var e := d[i := Cell(k, v)];
      assert KeySeq(d)[i] == k;
      assert KeySeq(e) == KeySeq(d);
      e
    else
      var e := d + [Cell(k, v)];
      assert KeySeq(e) == KeySeq(d) + [k];
      assert k !in KeySeq(d) by {
        assert forall j :: 0 <= j < |d| ==> KeySeq(d)[j] != k;
      }
      e
  }

  /** The dictionary after the loop has visited the first n cells (lines 176-179). */
  function Tally(offsets: seq<Offset>, counts: seq<real>, n: nat): (d: seq<Cell>)
    requires n <= |offsets| && n <= |counts|
    ensures DistinctKeys(d)
  {
    if n == 0 then []
    else
      var d := Tally(offsets, counts, n - 1);
      if counts[n - 1] != 0.0 then Put(d, offsets[n - 1], counts[n - 1]) else d
  }

  /** The keys are exactly the offsets of the visited cells whose count is non-zero. */
  lemma {:induction false} TallyKeys(offsets: seq<Offset>, counts: seq<real>, n: nat)
    requires n <= |offsets| && n <= |counts|
    ensures forall k :: k in KeySeq(Tally(offsets, counts, n)) <==>
      exists i :: 0 <= i < n && offsets[i] == k && counts[i] != 0.0
  {
    if n > 0 {
      TallyKeys(offsets, counts, n - 1);
      var d := Tally(offsets, counts, n - 1);
      var e := Tally(offsets, counts, n);
      assert KeySeq(e) == if counts[n - 1] == 0.0 || offsets[n - 1] in KeySeq(d) then KeySeq(d) else KeySeq(d) + [offsets[n - 1]];
      forall k ensures k in KeySeq(e) <==> exists i :: 0 <= i < n && offsets[i] == k && counts[i] != 0.0 {
        if k in KeySeq(e) && k in KeySeq(d) {
          var i :| 0 <= i < n - 1 && offsets[i] == k && counts[i] != 0.0;
          assert 0 <= i < n && offsets[i] == k && counts[i] != 0.0;
        }
        if i :| 0 <= i < n - 1 && offsets[i] == k && counts[i] != 0.0 {
          assert k in KeySeq(d);
        }
      }
    }
  }

  /** No entry of the dictionary has count zero. */
  lemma {:induction false} TallyCountsNonZero(offsets: seq<Offset>, counts: seq<real>, n: nat)
    requires n <= |offsets| && n <= |counts|
    ensures forall i :: 0 <= i < |Tally(offsets, counts, n)| ==> Tally(offsets, counts, n)[i].count != 0.0
  {
    if n > 0 {
      TallyCountsNonZero(offsets, counts, n - 1);
    }
  }

  /** A cell whose offset no later non-empty cell repeats has its own count in the dictionary. */
  lemma {:induction false} TallyLastWriteWins(offsets: seq<Offset>, counts: seq<real>, n: nat, i: nat)
    requires n <= |offsets| && n <= |counts|
    requires i < n && counts[i] != 0.0
    requires forall j :: i < j < n && offsets[j] == offsets[i] ==> counts[j] == 0.0
    ensures Cell(offsets[i], counts[i]) in Tally(offsets, counts, n)
  {
    if i == n - 1 {
      var d := Tally(offsets, counts, n - 1);
      var e := Put(d, offsets[i], counts[i]);
      if offsets[i] in KeySeq(d) {
        var p :| 0 <= p < |d| && KeySeq(d)[p] == offsets[i];
        assert e[p] == Cell(offsets[i], counts[i]);
      } else {
        assert e[|d|] == Cell(offsets[i], counts[i]);
      }
    } else {
      TallyLastWriteWins(offsets, counts, n - 1, i);
      var d := Tally(offsets, counts, n - 1);
      if counts[n - 1] != 0.0 {
        var e := Put(d, offsets[n - 1], counts[n - 1]);
        var p :| 0 <= p < |d| && d[p] == Cell(offsets[i], counts[i]);
        assert e[p] == d[p];
      }
    }
  }

  /** The non-empty cells among the first n, in offset order. */
  function NonZeroCells(offsets: seq<Offset>, counts: seq<real>, n: nat): seq<Cell>
    requires n <= |offsets| && n <= |counts|
  {
    if n == 0 then []
    else NonZeroCells(offsets, counts, n - 1) + (if counts[n - 1] != 0.0 then [Cell(offsets[n - 1], counts[n - 1])] else [])
  }

  /** With distinct offsets, as hexbin centres are, the dictionary is the non-empty cells in offset order. */
  lemma {:induction false} TallyDistinctOffsets(offsets: seq<Offset>, counts: seq<real>, n: nat)
    requires n <= |offsets| && n <= |counts|
    requires forall i, j :: 0 <= i < j < n ==> offsets[i] != offsets[j]
    ensures Tally(offsets, counts, n) == NonZeroCells(offsets, counts, n)
  {
    if n > 0 {
      TallyDistinctOffsets(offsets, counts, n - 1);
      if counts[n - 1] != 0.0 {
        var d := Tally(offsets, counts, n - 1);
        TallyKeys(offsets, counts, n - 1);
        assert forall i :: 0 <= i < n - 1 ==> offsets[i] != offsets[n - 1];
        assert offsets[n - 1] !in KeySeq(d);
        assert Put(d, offsets[n - 1], counts[n - 1]) == d + [Cell(offsets[n - 1], counts[n - 1])];
      }
    }
  }

  /** The dictionary's entries by descending count, ties in insertion order (line 180). */
  function RankByVotes(d: seq<Cell>): (ranked: seq<Cell>)
    ensures |ranked| == |d|
    ensures multiset(ranked) == multiset(d)
  {
    Sorting.SortedPermutes(d, Count, true);
    Sorting.Sorted(d, Count, true)
  }

  /** The ranked entries are by non-increasing count, equal counts in insertion order. */
  lemma RankByVotesSpec(d: seq<Cell>)
    ensures forall i, j :: 0 <= i < j < |RankByVotes(d)| ==> RankByVotes(d)[i].count >= RankByVotes(d)[j].count
    ensures forall v :: Sorting.WithKey(RankByVotes(d), Count, v) == Sorting.WithKey(d, Count, v)
  {
    Sorting.SortedOrdered(d, Count, true);
    forall v ensures Sorting.WithKey(RankByVotes(d), Count, v) == Sorting.WithKey(d, Count, v) {
      Sorting.SortedStable(d, Count, true, v);
    }
  }

  /** The first ranked entry has the most votes. */
  lemma RankedFirstIsMax(d: seq<Cell>)
    requires d != []
    ensures |RankByVotes(d)| == |d|
    ensures RankByVotes(d)[0] in d
    ensures forall c :: c in d ==> c.count <= RankByVotes(d)[0].count
  {
    var r := RankByVotes(d);
    RankByVotesSpec(d);
    assert r[0] in multiset(r);
    forall c | c in d ensures c.count <= r[0].count {
      assert c in multiset(r);
      var j :| 0 <= j < |r| && r[j] == c;
      assert j == 0 || r[0].count >= r[j].count;
    }
  }

  /**
   sort_hexbin_by_votes: the non-empty cells, each with its count, ranked by
   descending count with ties in offset order.
   */
  method SortHexbinByVotes(offsets: seq<Offset>, counts: seq<real>) returns (sortedVote: seq<Cell>)
    requires |offsets| <= |counts|
    ensures sortedVote == RankByVotes(Tally(offsets, counts, |offsets|))
    ensures forall k :: k in KeySeq(sortedVote) <==> exists i :: 0 <= i < |offsets| && offsets[i] == k && counts[i] != 0.0
    ensures forall i :: 0 <= i < |sortedVote| ==> sortedVote[i].count != 0.0
    ensures forall i, j :: 0 <= i < j < |sortedVote| ==> sortedVote[i].count >= sortedVote[j].count
    ensures DistinctKeys(sortedVote)
    ensures forall i :: (0 <= i < |offsets| && counts[i] != 0.0
      && (forall j :: i < j < |offsets| && offsets[j] == offsets[i] ==> counts[j] == 0.0)
      ==> Cell(offsets[i], counts[i]) in sortedVote)
  {
    var output: seq<Cell> := [];
    var offc := 0;
    while offc < |offsets|
      invariant offc <= |offsets|
      invariant output == Tally(offsets, counts, offc)
    {
      var bin := offsets[offc];
      if counts[offc] != 0.0 {
        output := Put(output, bin, counts[offc]);
      }
      offc := offc + 1;
    }
    sortedVote := Sorting.Sorted(output, Count, true);
    assert sortedVote == RankByVotes(output);

    TallyKeys(offsets, counts, |offsets|);
    TallyCountsNonZero(offsets, counts, |offsets|);
    RankByVotesSpec(output);
    SameCellsSameKeys(output, sortedVote);
    DistinctKeysPermute(output, sortedVote);
    forall i | 0 <= i < |offsets| && counts[i] != 0.0
      && (forall j :: i < j < |offsets| && offsets[j] == offsets[i] ==> counts[j] == 0.0)
      ensures Cell(offsets[i], counts[i]) in sortedVote
    {
      TallyLastWriteWins(offsets, counts, |offsets|, i);
      assert Cell(offsets[i], counts[i]) in multiset(sortedVote);
    }
  }

  /** A cell occurs at most once in a dictionary with distinct keys. */
  lemma AtMostOnce(d: seq<Cell>, p: nat)
    requires DistinctKeys(d) && p < |d|
    ensures multiset(d)[d[p]] == 1
  {
    assert d == d[..p] + [d[p]] + d[p + 1..];
  }

  /** An entry found at two positions occurs at least twice. */
  lemma TwiceInMultiset(e: seq<Cell>, i: nat, j: nat)
    requires i < j < |e| && e[i] == e[j]
    ensures multiset(e)[e[i]] >= 2
  {
    assert e == e[..i] + [e[i]] + e[i + 1..j] + [e[j]] + e[j + 1..];
  }

  /** Reordering the entries of a dictionary keeps its keys distinct. */
  lemma DistinctKeysPermute(d: seq<Cell>, e: seq<Cell>)
    requires multiset(d) == multiset(e) && DistinctKeys(d)
    ensures DistinctKeys(e)
  {
    forall i, j | 0 <= i < j < |e| ensures e[i].key != e[j].key {
      if e[i].key == e[j].key {
        assert e[i] in multiset(d) && e[j] in multiset(d);
        var p :| 0 <= p < |d| && d[p] == e[i];
        var q :| 0 <= q < |d| && d[q] == e[j];
        assert p == q;
        TwiceInMultiset(e, i, j);
        AtMostOnce(d, p);
      }
    }
  }

  /** Two dictionaries with the same entries have the same keys, and a zero count in the second only if the first has one. */
  lemma SameCellsSameKeys(d: seq<Cell>, e: seq<Cell>)
    requires multiset(d) == multiset(e)
    ensures forall k :: k in KeySeq(d) <==> k in KeySeq(e)
    ensures (forall i :: 0 <= i < |d| ==> d[i].count != 0.0) ==> forall i :: 0 <= i < |e| ==> e[i].count != 0.0
  {
    forall k ensures k in KeySeq(d) ==> k in KeySeq(e) {
      if k in KeySeq(d) {
        var i :| 0 <= i < |d| && KeySeq(d)[i] == k;
        assert d[i] in multiset(e);
        var j :| 0 <= j < |e| && e[j] == d[i];
        assert KeySeq(e)[j] == k;
      }
    }
    forall k ensures k in KeySeq(e) ==> k in KeySeq(d) {
      if k in KeySeq(e) {
        var i :| 0 <= i < |e| && KeySeq(e)[i] == k;
        assert e[i] in multiset(d);
        var j :| 0 <= j < |d| && d[j] == e[i];
        assert KeySeq(d)[j] == k;
      }
    }
    if forall i :: 0 <= i < |d| ==> d[i].count != 0.0 {
      forall i | 0 <= i < |e| ensures e[i].count != 0.0 {
        assert e[i] in multiset(d);
      }
    }
  }
}
