/**
 Matching and the per-pair vote transform of Mirror_Symmetry_detection
 (mirror_symmetry.py:56-131).

 Keypoint detection and descriptor matching are foreign (SIFT and a
 brute-force matcher): the model takes their results as input. The keypoints
 of the original image (kp1) and of its left-right flipped copy (kp2) are
 arrays of records owned by a `MirrorSymmetryDetection` object;
 `FindPointsRTheta` changes the kp2 records in place, as the program does.
 `RunVotes` is its specification, and the lemmas below describe it in closed form.
 */
module Detection {
  import opened Geometry
  import Sorting
  import opened Seqs

  /** A keypoint: its location `pt` and its orientation `angle`. */
  datatype KeyPoint = KeyPoint(pt: Point, angle: real)

  /** A matcher result: an index into kp1, an index into kp2 and the descriptor distance. */
  datatype Match = Match(queryIdx: nat, trainIdx: nat, distance: real)

  function Distance(m: Match): real
  {
    m.distance
  }

  /**
   find_matchpoints after the matcher has run (mirror_symmetry.py:89-97): keep
   the best of each query's k nearest neighbours, then order the matches by
   ascending distance, ties keeping the matcher's order.
   */
  function FindMatchpoints(knnMatches: seq<seq<Match>>): (ms: seq<Match>)
    requires forall i :: 0 <= i < |knnMatches| ==> |knnMatches[i]| > 0
    ensures |ms| == |knnMatches|
    ensures multiset(ms) == multiset(BestOfEach(knnMatches))
    ensures Sorting.Ordered(ms, Distance, false)
    ensures forall d :: Sorting.WithKey(ms, Distance, d) == Sorting.WithKey(BestOfEach(knnMatches), Distance, d)
  {
    var best := BestOfEach(knnMatches);
    Sorting.SortedPermutes(best, Distance, false);
    Sorting.SortedOrdered(best, Distance, false);
    forall d ensures Sorting.WithKey(Sorting.Sorted(best, Distance, false), Distance, d) == Sorting.WithKey(best, Distance, d) {
      Sorting.SortedStable(best, Distance, false, d);
    }
    Sorting.Sorted(best, Distance, false)
  }

  /** `[item[0] for item in matches]`: the nearest neighbour of each query. */
  function BestOfEach(knnMatches: seq<seq<Match>>): (best: seq<Match>)
    requires forall i :: 0 <= i < |knnMatches| ==> |knnMatches[i]| > 0
    ensures |best| == |knnMatches|
    ensures forall i :: 0 <= i < |best| ==> best[i] == knnMatches[i][0]
  {
    seq(|knnMatches|, i requires 0 <= i < |knnMatches| => knnMatches[i][0])
  }

  /** np.deg2rad: an orientation in [0, 360) degrees is one in [0, 2π) radians. */
  function Deg2Rad(degrees: real, pi: real): (rad: real)
    ensures 0.0 <= degrees < 360.0 && 0.0 < pi ==> 0.0 <= rad < 2.0 * pi
  {
    assert 0.0 <= degrees && 0.0 < pi ==> 0.0 <= degrees * pi;
    assert degrees < 360.0 && 0.0 < pi ==> degrees * pi < 360.0 * pi;
    degrees * pi / 180.0
  }

  /**
   The orientation rewrite of a mirrored keypoint (mirror_symmetry.py:111-115):
   from degrees to radians, reflected to π − a, and moved up by 2π if negative.
   The result is the reflection π − a up to one turn, and an orientation in
   [0, 360) degrees lands in [0, 2π) radians.
   */
  function NormaliseAngle(angle: real, pi: real): (a: real)
    ensures a == pi - Deg2Rad(angle, pi) || a == 3.0 * pi - Deg2Rad(angle, pi)
    ensures 0.0 <= angle < 360.0 && 0.0 < pi ==> 0.0 <= a < 2.0 * pi
  {
    var a := pi - Deg2Rad(angle, pi);
    if a < 0.0 then a + 2.0 * pi else a
  }

  /** The x-coordinate taken back from the flipped image: width − x, y unchanged (line 119). */
  function Unflip(p: Point, width: real): (u: Point)
    ensures u.y == p.y && u.x + p.x == width
  {
    Point(width - p.x, p.y)
  }

  /** Unflipping twice gives the point back. */
  lemma UnflipTwice(p: Point, width: real)
    ensures Unflip(Unflip(p, width), width) == p
  {
  }

  /** What one loop iteration does to the mirrored keypoint (lines 111-119). */
  function Mirror(k: KeyPoint, width: real, pi: real): (r: KeyPoint)
    ensures r.pt.y == k.pt.y && r.pt.x == width - k.pt.x
    ensures 0.0 <= k.angle < 360.0 && 0.0 < pi ==> 0.0 <= r.angle < 2.0 * pi
  {
    KeyPoint(Unflip(k.pt, width), NormaliseAngle(k.angle, pi))
  }

  /** A keypoint after n iterations have touched it. */
  function MirrorN(k: KeyPoint, n: nat, width: real, pi: real): KeyPoint
  {
    if n == 0 then k else Mirror(MirrorN(k, n - 1, width, pi), width, pi)
  }

  /** After n rewrites the location is unflipped when n is odd and back where it was when n is even. */
  lemma {:induction false} MirrorNPoint(k: KeyPoint, n: nat, width: real, pi: real)
    ensures MirrorN(k, n, width, pi).pt == if n % 2 == 1 then Unflip(k.pt, width) else k.pt
  {
    if n > 0 {
      MirrorNPoint(k, n - 1, width, pi);
      UnflipTwice(k.pt, width);
    }
  }

  /** However often it is rewritten, a valid orientation stays in [0, 2π) radians. */
  lemma {:induction false} MirrorNAngle(k: KeyPoint, n: nat, width: real, pi: real)
    requires 0.0 <= k.angle < 360.0 && 3.14159 < pi < 3.14160
    requires n > 0
    ensures 0.0 <= MirrorN(k, n, width, pi).angle < 2.0 * pi
  {
    if n > 1 {
      MirrorNAngle(k, n - 1, width, pi);
    }
  }

  /** Every match indexes an existing keypoint on each side. */
  predicate ValidMatches(ms: seq<Match>, n1: nat, n2: nat)
  {
    forall i :: 0 <= i < |ms| ==> ms[i].queryIdx < n1 && ms[i].trainIdx < n2
  }

  /** How many matches name mirrored keypoint j. */
  function Occurrences(ms: seq<Match>, j: nat): nat
  {
    if ms == [] then 0
    else Occurrences(ms[..|ms| - 1], j) + (if ms[|ms| - 1].trainIdx == j then 1 else 0)
  }

  lemma {:induction false} OccurrencesZero(ms: seq<Match>, j: nat)
    requires forall i :: 0 <= i < |ms| ==> ms[i].trainIdx != j
    ensures Occurrences(ms, j) == 0
  {
    if ms != [] {
      OccurrencesZero(ms[..|ms| - 1], j);
    }
  }

  /** One iteration of the loop in find_points_r_theta: rewrite kp2[trainIdx] in place, then vote with it. */
  function Step(kp1: seq<KeyPoint>, kp2: seq<KeyPoint>, m: Match, width: real, t: Trig): (seq<KeyPoint>, Vote)
    requires m.queryIdx < |kp1| && m.trainIdx < |kp2|
  {
    var mir := Mirror(kp2[m.trainIdx], width, t.pi);
    (kp2[m.trainIdx := mir], PairVote(kp1[m.queryIdx].pt, mir.pt, t))
  }

  /**
   One iteration changes only kp2[trainIdx], unflipping its location, and
   votes with the keypoint as just rewritten.
   */
  lemma StepSpec(kp1: seq<KeyPoint>, kp2: seq<KeyPoint>, m: Match, width: real, t: Trig)
    requires m.queryIdx < |kp1| && m.trainIdx < |kp2|
    ensures var res := Step(kp1, kp2, m, width, t);
      && |res.0| == |kp2|
      && (forall j :: 0 <= j < |kp2| && j != m.trainIdx ==> res.0[j] == kp2[j])
      && res.0[m.trainIdx].pt == Unflip(kp2[m.trainIdx].pt, width)
      && res.1 == PairVote(kp1[m.queryIdx].pt, res.0[m.trainIdx].pt, t)
  {
  }

  /** The whole loop: the final mirrored keypoints and the votes, in match order. */
  function RunVotes(kp1: seq<KeyPoint>, kp2: seq<KeyPoint>, ms: seq<Match>, width: real, t: Trig)
    : (res: (seq<KeyPoint>, seq<Vote>))
    requires ValidMatches(ms, |kp1|, |kp2|)
    ensures |res.0| == |kp2| && |res.1| == |ms|
  {
    if ms == [] then (kp2, [])
    else
      var prev := RunVotes(kp1, kp2, ms[..|ms| - 1], width, t);
      var next := Step(kp1, prev.0, ms[|ms| - 1], width, t);
      (next.0, prev.1 + [next.1])
  }

  /** Each mirrored keypoint ends up rewritten once per match that names it, and only those change. */
  lemma {:induction false} RunVotesKeypoints(kp1: seq<KeyPoint>, kp2: seq<KeyPoint>, ms: seq<Match>, width: real, t: Trig)
    requires ValidMatches(ms, |kp1|, |kp2|)
    ensures forall j :: 0 <= j < |kp2| ==>
      RunVotes(kp1, kp2, ms, width, t).0[j] == MirrorN(kp2[j], Occurrences(ms, j), width, t.pi)
  {
    if ms != [] {
      RunVotesKeypoints(kp1, kp2, ms[..|ms| - 1], width, t);
    }
  }

  /**
   Vote i belongs to match i: it pairs kp1[queryIdx] with kp2[trainIdx] as
   rewritten by this and every earlier match that names the same keypoint.
   */
  lemma {:induction false} RunVotesAt(kp1: seq<KeyPoint>, kp2: seq<KeyPoint>, ms: seq<Match>, width: real, t: Trig, i: nat)
    requires ValidMatches(ms, |kp1|, |kp2|) && i < |ms|
    ensures RunVotes(kp1, kp2, ms, width, t).1[i]
         == PairVote(kp1[ms[i].queryIdx].pt, MirrorN(kp2[ms[i].trainIdx], Occurrences(ms[..i + 1], ms[i].trainIdx), width, t.pi).pt, t)
  {
    var prefix := ms[..|ms| - 1];
    if i == |ms| - 1 {
      RunVotesKeypoints(kp1, kp2, prefix, width, t);
      assert ms[..i + 1] == ms;
    } else {
      RunVotesAt(kp1, kp2, prefix, width, t, i);
      assert prefix[..i + 1] == ms[..i + 1];
    }
  }

  /** Every vote's θ lies in [0, π). */
  lemma VotesThetaInRange(kp1: seq<KeyPoint>, kp2: seq<KeyPoint>, ms: seq<Match>, width: real, t: Trig)
    requires ValidMatches(ms, |kp1|, |kp2|) && t.Valid()
    ensures forall i :: 0 <= i < |ms| ==> 0.0 <= RunVotes(kp1, kp2, ms, width, t).1[i].theta < t.pi
  {
    forall i | 0 <= i < |ms| ensures 0.0 <= RunVotes(kp1, kp2, ms, width, t).1[i].theta < t.pi {
      RunVotesAt(kp1, kp2, ms, width, t, i);
    }
  }

  /**
   Only the mirrored keypoints that some match names change. Each keeps its y;
   its x is width − x when it was named an odd number of times, the original x
   otherwise; its orientation, if it started in [0, 360) degrees, is in [0, 2π).
   */
  lemma MirroredKeypointsAfterRun(kp1: seq<KeyPoint>, kp2: seq<KeyPoint>, ms: seq<Match>, width: real, t: Trig)
    requires ValidMatches(ms, |kp1|, |kp2|) && t.Valid()
    requires forall j :: 0 <= j < |kp2| ==> 0.0 <= kp2[j].angle < 360.0
    ensures forall j :: 0 <= j < |kp2| ==>
      var k := RunVotes(kp1, kp2, ms, width, t).0[j];
      && k.pt.y == kp2[j].pt.y
      && k.pt.x == (if Occurrences(ms, j) % 2 == 1 then width - kp2[j].pt.x else kp2[j].pt.x)
      && (Occurrences(ms, j) > 0 ==> 0.0 <= k.angle < 2.0 * t.pi)
    ensures forall j :: 0 <= j < |kp2| && (forall i :: 0 <= i < |ms| ==> ms[i].trainIdx != j) ==>
      RunVotes(kp1, kp2, ms, width, t).0[j] == kp2[j]
  {
    RunVotesKeypoints(kp1, kp2, ms, width, t);
    forall j | 0 <= j < |kp2|
      ensures var k := RunVotes(kp1, kp2, ms, width, t).0[j];
        && k.pt.y == kp2[j].pt.y
        && k.pt.x == (if Occurrences(ms, j) % 2 == 1 then width - kp2[j].pt.x else kp2[j].pt.x)
        && (Occurrences(ms, j) > 0 ==> 0.0 <= k.angle < 2.0 * t.pi)
    {
      MirrorNPoint(kp2[j], Occurrences(ms, j), width, t.pi);
      if Occurrences(ms, j) > 0 {
        MirrorNAngle(kp2[j], Occurrences(ms, j), width, t.pi);
      }
    }
    forall j | 0 <= j < |kp2| && (forall i :: 0 <= i < |ms| ==> ms[i].trainIdx != j)
      ensures RunVotes(kp1, kp2, ms, width, t).0[j] == kp2[j]
    {
      OccurrencesZero(ms, j);
    }
  }

  // ----- The vote each pair is evidently meant to cast -----

  /** The vote of match m with kp2[trainIdx] unflipped exactly once. */
  function IntendedVote(kp1: seq<KeyPoint>, kp2: seq<KeyPoint>, m: Match, width: real, t: Trig): Vote
    requires m.queryIdx < |kp1| && m.trainIdx < |kp2|
  {
    PairVote(kp1[m.queryIdx].pt, Unflip(kp2[m.trainIdx].pt, width), t)
  }

  /** The votes as a pure transform of the keypoints, which nothing rewrites. */
  function IntendedVotes(kp1: seq<KeyPoint>, kp2: seq<KeyPoint>, ms: seq<Match>, width: real, t: Trig): (vs: seq<Vote>)
    requires ValidMatches(ms, |kp1|, |kp2|)
    ensures |vs| == |ms|
  {
    if ms == [] then []
    else [IntendedVote(kp1, kp2, ms[0], width, t)] + IntendedVotes(kp1, kp2, ms[1..], width, t)
  }

  lemma {:induction false} IntendedVotesAt(kp1: seq<KeyPoint>, kp2: seq<KeyPoint>, ms: seq<Match>, width: real, t: Trig, i: nat)
    requires ValidMatches(ms, |kp1|, |kp2|) && i < |ms|
    ensures IntendedVotes(kp1, kp2, ms, width, t)[i] == IntendedVote(kp1, kp2, ms[i], width, t)
  {
    if i > 0 {
      IntendedVotesAt(kp1, kp2, ms[1..], width, t, i - 1);
    }
  }

  /** The intended votes are the intended vote mapped over the matches. */
  lemma {:induction false} IntendedVotesIsMap(kp1: seq<KeyPoint>, kp2: seq<KeyPoint>, ms: seq<Match>, width: real, t: Trig)
    requires ValidMatches(ms, |kp1|, |kp2|)
    ensures var f := (m: Match) requires m.queryIdx < |kp1| && m.trainIdx < |kp2| => IntendedVote(kp1, kp2, m, width, t);
      IntendedVotes(kp1, kp2, ms, width, t) == MapSeq(f, ms)
  {
    if ms != [] {
      IntendedVotesIsMap(kp1, kp2, ms[1..], width, t);
    }
  }

  /** The intended votes do not depend on the order of the matches: reordered matches give reordered votes. */
  lemma IntendedVotesPermute(kp1: seq<KeyPoint>, kp2: seq<KeyPoint>, a: seq<Match>, b: seq<Match>, width: real, t: Trig)
    requires ValidMatches(a, |kp1|, |kp2|) && ValidMatches(b, |kp1|, |kp2|)
    requires multiset(a) == multiset(b)
    ensures multiset(IntendedVotes(kp1, kp2, a, width, t)) == multiset(IntendedVotes(kp1, kp2, b, width, t))
  {
    var f := (m: Match) requires m.queryIdx < |kp1| && m.trainIdx < |kp2| => IntendedVote(kp1, kp2, m, width, t);
    IntendedVotesIsMap(kp1, kp2, a, width, t);
    IntendedVotesIsMap(kp1, kp2, b, width, t);
    MapSeqPermute(f, a, b);
  }

  /**
   The program casts the intended vote of match i whenever the keypoint it
   names has been named an odd number of times so far, in particular
   whenever no two matches name the same mirrored keypoint.
   */
  lemma RunVotesIntended(kp1: seq<KeyPoint>, kp2: seq<KeyPoint>, ms: seq<Match>, width: real, t: Trig, i: nat)
    requires ValidMatches(ms, |kp1|, |kp2|) && i < |ms|
    requires Occurrences(ms[..i + 1], ms[i].trainIdx) % 2 == 1
    ensures RunVotes(kp1, kp2, ms, width, t).1[i] == IntendedVotes(kp1, kp2, ms, width, t)[i]
  {
    RunVotesAt(kp1, kp2, ms, width, t, i);
    IntendedVotesAt(kp1, kp2, ms, width, t, i);
    MirrorNPoint(kp2[ms[i].trainIdx], Occurrences(ms[..i + 1], ms[i].trainIdx), width, t.pi);
  }

  /** No two matches name the same mirrored keypoint. */
  predicate DistinctTrains(ms: seq<Match>)
  {
    forall i, j :: 0 <= i < j < |ms| ==> ms[i].trainIdx != ms[j].trainIdx
  }

  lemma {:induction false} OccurrencesDistinct(ms: seq<Match>, i: nat)
    requires DistinctTrains(ms) && i < |ms|
    ensures Occurrences(ms[..i + 1], ms[i].trainIdx) == 1
  {
    var pre := ms[..i + 1];
    assert pre[..i] == ms[..i];
    OccurrencesZero(ms[..i], ms[i].trainIdx);
  }

  /** With distinct mirrored keypoints the program's votes are the intended ones. */
  lemma RunVotesDistinctIntended(kp1: seq<KeyPoint>, kp2: seq<KeyPoint>, ms: seq<Match>, width: real, t: Trig)
    requires ValidMatches(ms, |kp1|, |kp2|) && DistinctTrains(ms)
    ensures RunVotes(kp1, kp2, ms, width, t).1 == IntendedVotes(kp1, kp2, ms, width, t)
  {
    forall i | 0 <= i < |ms| ensures RunVotes(kp1, kp2, ms, width, t).1[i] == IntendedVotes(kp1, kp2, ms, width, t)[i] {
      OccurrencesDistinct(ms, i);
      RunVotesIntended(kp1, kp2, ms, width, t, i);
    }
  }

  /**
   Two original keypoints (3, 0) and (3, 1) both matched to the one mirrored
   keypoint at x = 7 of an image 10 wide. The first match unflips it to x = 3
   and votes θ = π/2; the second flips it back to x = 7 and votes a θ
   other than π/2, where the intended vote is π/2.
   */
  lemma DoubleMatchCounterexample(t: Trig)
    requires t.Valid()
    ensures var kp1 := [KeyPoint(Point(3.0, 0.0), 0.0), KeyPoint(Point(3.0, 1.0), 0.0)];
            var kp2 := [KeyPoint(Point(7.0, 5.0), 0.0)];
            var ms := [Match(0, 0, 0.0), Match(1, 0, 0.0)];
            && ValidMatches(ms, |kp1|, |kp2|)
            && RunVotes(kp1, kp2, ms, 10.0, t).1[1].theta != t.pi / 2.0
            && IntendedVotes(kp1, kp2, ms, 10.0, t)[1].theta == t.pi / 2.0
  {
    var kp1 := [KeyPoint(Point(3.0, 0.0), 0.0), KeyPoint(Point(3.0, 1.0), 0.0)];
    var kp2 := [KeyPoint(Point(7.0, 5.0), 0.0)];
    var ms := [Match(0, 0, 0.0), Match(1, 0, 0.0)];
    assert ValidMatches(ms, |kp1|, |kp2|);
    RunVotesAt(kp1, kp2, ms, 10.0, t, 1);
    assert ms[..2] == ms;
    assert Occurrences(ms[..1], 0) == 1 by {
      assert ms[..1][..0] == [];
    }
    assert Occurrences(ms, 0) == 2;
    MirrorNPoint(kp2[0], 2, 10.0, t.pi);
    IntendedVotesAt(kp1, kp2, ms, 10.0, t, 1);
  }

  /** Rs and Thetas split votes into the program's two parallel lists. */
  function Rs(vs: seq<Vote>): (rs: seq<real>)
    ensures |rs| == |vs|
    ensures forall i :: 0 <= i < |vs| ==> rs[i] == vs[i].r
  {
    seq(|vs|, i requires 0 <= i < |vs| => vs[i].r)
  }

  function Thetas(vs: seq<Vote>): (thetas: seq<real>)
    ensures |thetas| == |vs|
    ensures forall i :: 0 <= i < |vs| ==> thetas[i] == vs[i].theta
  {
    seq(|vs|, i requires 0 <= i < |vs| => vs[i].theta)
  }

  /** The two lists, read side by side, give back the votes. */
  lemma RsThetasRecombine(vs: seq<Vote>)
    ensures |Rs(vs)| == |Thetas(vs)| == |vs|
    ensures forall i :: 0 <= i < |vs| ==> Vote(Rs(vs)[i], Thetas(vs)[i]) == vs[i]
  {
  }

  /**
   The detection object: the keypoints of the image and of its flipped copy,
   and the width of the flipped image (`reflected_image.shape[1]`).
   */
  class MirrorSymmetryDetection {
    const kp1: array<KeyPoint>
    const kp2: array<KeyPoint>
    const width: nat

    ghost predicate Valid()
    {
      kp1 != kp2
    }

    /** __init__ once the detector has run on both images. */
    constructor (keypoints: seq<KeyPoint>, mirroredKeypoints: seq<KeyPoint>, imageWidth: nat)
      ensures Valid() && fresh(kp1) && fresh(kp2)
      ensures kp1[..] == keypoints && kp2[..] == mirroredKeypoints && width == imageWidth
    {
      kp1 := new KeyPoint[|keypoints|](i requires 0 <= i < |keypoints| => keypoints[i]);
      kp2 := new KeyPoint[|mirroredKeypoints|](i requires 0 <= i < |mirroredKeypoints| => mirroredKeypoints[i]);
      width := imageWidth;
    }

    /**
     find_points_r_theta: one (r, θ) per match, in match order, rewriting
     the mirrored keypoints in place on the way.
     */
    method FindPointsRTheta(matchpoints: seq<Match>, t: Trig) returns (pointsR: seq<real>, pointsTheta: seq<real>)
      requires Valid() && ValidMatches(matchpoints, kp1.Length, kp2.Length)
      modifies kp2
      ensures |pointsR| == |pointsTheta| == |matchpoints|
      ensures var res := RunVotes(kp1[..], old(kp2[..]), matchpoints, width as real, t);
        kp2[..] == res.0 && pointsR == Rs(res.1) && pointsTheta == Thetas(res.1)
    {
      pointsR, pointsTheta := [], [];
      var i := 0;
      while i < |matchpoints|
        invariant 0 <= i <= |matchpoints|
        invariant kp1[..] == old(kp1[..])
        invariant var res := RunVotes(kp1[..], old(kp2[..]), matchpoints[..i], width as real, t);
          kp2[..] == res.0 && pointsR == Rs(res.1) && pointsTheta == Thetas(res.1)
      {
        var m := matchpoints[i];
        var point := kp1[m.queryIdx];
        var mirpoint := kp2[m.trainIdx];

        var angle := Deg2Rad(mirpoint.angle, t.pi);
        angle := t.pi - angle;
        if angle < 0.0 {
          angle := angle + 2.0 * t.pi;
        }
        mirpoint := mirpoint.(angle := angle);
        mirpoint := mirpoint.(pt := Point(width as real - mirpoint.pt.x, mirpoint.pt.y));
        kp2[m.trainIdx] := mirpoint;

        var theta := AngleWithXAxis(point.pt, mirpoint.pt, t);
        var c := Midpoint(point.pt, mirpoint.pt);
        var r := c.x * t.cos(theta) + c.y * t.sin(theta);

        ghost var pre := RunVotes(kp1[..], old(kp2[..]), matchpoints[..i], width as real, t);
        assert matchpoints[..i + 1][..i] == matchpoints[..i];
        assert Vote(r, theta) == PairVote(point.pt, mirpoint.pt, t);
        assert mirpoint == Mirror(pre.0[m.trainIdx], width as real, t.pi);
        pointsR := pointsR + [r];
        pointsTheta := pointsTheta + [theta];
        i := i + 1;
      }
      assert matchpoints[..i] == matchpoints;
    }
  }
}
