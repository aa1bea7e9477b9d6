# Mirror symmetry detection: a Dafny model of the voting core

MirrorSymmetry finds the axis of bilateral symmetry in a photograph. It
detects keypoints in the image and in its left-right flipped copy, and
matches their descriptors. For each match it takes the mirrored keypoint
back into the original frame. The line through the pair then gives a vote
(r, θ) for an axis in Hesse normal form. The votes are binned into a
hexagonal histogram, the non-empty cells are ranked by count, and the best
cell that qualifies is chosen as the axis.

This project models that core, from `mirror_symmetry.py`:

- `geometry.dfy` (module `Geometry`): `angle_with_x_axis`, `midpoint`, and
  the vote r = xc·cos θ + yc·sin θ of one pair. Trigonometry is not
  computed. The arctangent, cosine, sine and π are a `Trig` value passed in.
  `Trig.Valid` holds the only facts the proofs use: π lies in
  (3.14159, 3.14160), and the arctangent takes values in (−π/2, π/2).
- `sorting.dfy` (module `Sorting`): Python's `sorted(..., key, reverse)`,
  written as a stable insertion sort. It is proved ordered, a permutation of
  its input, and stable; `reverse=True` keeps it stable, as in Python.
- `seqs.dfy` (module `Seqs`): mapping a function over a sequence, and the
  fact that permuting the input permutes the output.
- `detection.dfy` (module `Detection`): the `Mirror_Symmetry_detection`
  object as a class `MirrorSymmetryDetection`.
  - Its keypoint lists are arrays of keypoint records.
  - `FindPointsRTheta` rewrites the mirrored keypoints in place, as
    `find_points_r_theta` does.
  - That loop is proved against the recursive specification `RunVotes`.
  - The matcher's post-processing in `find_matchpoints` is modelled as a
    function.
- `voting.dfy` (module `Voting`): `sort_hexbin_by_votes`. The dictionary is
  a sequence of cells with distinct keys, in insertion order, as Python's
  `dict` keeps them. A re-assigned key keeps its first position.
- `selection.dfy` (module `Selection`): `find_coordinate_maxhexbin`, as a
  loop with an early return. It is proved equal to the function
  `SelectAxis`.
- `wrappers.dfy` (module `Wrappers`): `Option`. It stands for the `None`
  that `find_coordinate_maxhexbin` returns by running off the end of its
  loop.

An empty match list gives two empty vote lists. If every ranked cell has
θ = 0 or π, `find_coordinate_maxhexbin` returns `None`. The program has no
error type of its own for either case.

`sort_hexbin_by_votes` and `find_coordinate_maxhexbin` are methods of
`Mirror_Symmetry_detection` in the program, but neither reads or changes the
object, so they are module-level here.

## Model

| member | source | states |
|---|---|---|
| Geometry.AngleWithXAxis | mirror_symmetry.py:200-214 | a vertical line (Δx = 0) gets exactly π/2; otherwise θ is the arctangent of Δy/Δx, or that plus π; θ lies in [0, π); θ = π/2 exactly when Δx = 0 |
| Geometry.AngleWithXAxisSymmetric | mirror_symmetry.py:200-214 | the angle does not depend on the order of the two points |
| Geometry.Midpoint | mirror_symmetry.py:216-220 | the midpoint is equally far from both points on each axis and lies between them |
| Geometry.MidpointSymmetric | mirror_symmetry.py:216-220 | the midpoint does not depend on the order of the two points |
| Geometry.PairVote | mirror_symmetry.py:121-126 | the vote's θ is the angle of the line through the pair, and it lies in [0, π) |
| Geometry.PairVoteSymmetric | mirror_symmetry.py:121-126 | swapping the two points of a pair leaves the vote unchanged |
| Geometry.VerticalPairVote | mirror_symmetry.py:121-126 | a pair on the y-axis votes θ = π/2 and r = yc·sin(π/2); for (0, 0) and (0, 10), yc = 5 |
| Sorting.Sorted | mirror_symmetry.py:95 | Python's `sorted`, as a stable insertion sort; the result has the input's length |
| Sorting.SortedOrdered | mirror_symmetry.py:95 | `sorted` returns its input ordered by key, ascending or, when reversed, descending |
| Sorting.SortedPermutes | mirror_symmetry.py:95 | `sorted` returns the same elements, each as often, and the same length |
| Sorting.SortedStable | mirror_symmetry.py:180 | for every key value, the elements with that key keep their input order, even when reversed |
| Detection.BestOfEach | mirror_symmetry.py:91 | element i is the nearest neighbour (`item[0]`) of query i |
| Detection.FindMatchpoints | mirror_symmetry.py:89-97 | one match per query; a permutation of the nearest neighbours; ascending by distance; equal distances keep the matcher's order |
| Detection.Deg2Rad | mirror_symmetry.py:111 | `np.deg2rad`: an orientation in [0, 360) degrees is one in [0, 2π) radians |
| Detection.NormaliseAngle | mirror_symmetry.py:111-115 | the orientation becomes the reflection π − a of its radian value, or that plus 2π; an orientation in [0, 360) degrees lands in [0, 2π) |
| Detection.Unflip | mirror_symmetry.py:119 | y is kept and x becomes width − x |
| Detection.UnflipTwice | mirror_symmetry.py:119 | unflipping twice gives the point back |
| Detection.Mirror | mirror_symmetry.py:111-119 | one rewrite of a mirrored keypoint: y kept, x becomes width − x, and an orientation in [0, 360) degrees lands in [0, 2π) radians |
| Detection.MirrorNPoint | mirror_symmetry.py:111-119 | a keypoint rewritten n times is unflipped when n is odd and back at its own location when n is even |
| Detection.MirrorNAngle | mirror_symmetry.py:111-115 | a keypoint rewritten one or more times has its orientation in [0, 2π) |
| Detection.RunVotes | mirror_symmetry.py:104-131 | the loop yields one vote per match and keeps the number of mirrored keypoints |
| Detection.Step | mirror_symmetry.py:108-129 | one iteration: rewrite kp2[trainIdx] in place with `Mirror`, then vote with kp1[queryIdx] and the rewritten keypoint |
| Detection.StepSpec | mirror_symmetry.py:108-129 | one iteration changes only kp2[trainIdx], unflips its location, and votes with the keypoint as just rewritten |
| Detection.RunVotesKeypoints | mirror_symmetry.py:106-119 | afterwards each mirrored keypoint has been rewritten once for every match that names it |
| Detection.RunVotesAt | mirror_symmetry.py:106-129 | vote i pairs kp1[queryIdx] with kp2[trainIdx] as rewritten by match i and every earlier match with the same trainIdx |
| Detection.VotesThetaInRange | mirror_symmetry.py:122 | every θ the loop appends lies in [0, π) |
| Detection.MirroredKeypointsAfterRun | mirror_symmetry.py:106-119 | each mirrored keypoint keeps its y; its x follows the parity of its match count; its orientation ends in [0, 2π) once matched; unmatched keypoints are unchanged |
| Detection.OccurrencesZero | mirror_symmetry.py:109 | a keypoint that no match names has a match count of zero |
| Detection.IntendedVotes | mirror_symmetry.py:106-129 | the corrected votes, one per match; `IntendedVotesAt` states that each comes from kp2[trainIdx] unflipped exactly once |
| Detection.IntendedVotesAt | mirror_symmetry.py:106-129 | intended vote i is the vote of match i alone |
| Detection.IntendedVotesIsMap | mirror_symmetry.py:106-129 | the intended votes are the per-match vote mapped over the matches |
| Detection.IntendedVotesPermute | mirror_symmetry.py:106-129 | reordering the matches reorders the intended votes, which keeps them the same multiset |
| Detection.RunVotesIntended | mirror_symmetry.py:106-129 | the program casts the intended vote for match i when its keypoint has been named an odd number of times so far |
| Detection.OccurrencesDistinct | mirror_symmetry.py:109 | when the trainIdx values are distinct, each match is the first to name its keypoint |
| Detection.RunVotesDistinctIntended | mirror_symmetry.py:106-129 | when no two matches share a trainIdx, the program's votes are exactly the intended votes |
| Detection.DoubleMatchCounterexample | mirror_symmetry.py:109-122 | two matches to one mirrored keypoint: the second vote's θ differs from π/2, and the intended θ is π/2 |
| Detection.Rs | mirror_symmetry.py:104 | `points_r`: one entry per vote, the vote's r |
| Detection.Thetas | mirror_symmetry.py:105 | `points_theta`: one entry per vote, the vote's θ |
| Detection.RsThetasRecombine | mirror_symmetry.py:128-131 | the two parallel lists have equal length and, read side by side, give back the votes |
| Detection.MirrorSymmetryDetection.constructor | mirror_symmetry.py:57-64 | the object holds the two keypoint lists, in distinct arrays, and the width of the flipped image |
| Detection.MirrorSymmetryDetection.FindPointsRTheta | mirror_symmetry.py:100-131 | the r and θ lists have one entry per match; they and the rewritten mirrored keypoints are those of `RunVotes` on the keypoints before the call |
| Voting.Find | mirror_symmetry.py:179 | the first position holding the key, or the size of the dictionary when the key is absent |
| Voting.Put | mirror_symmetry.py:179 | `output[k] = v`: an existing key keeps its position and takes v; a new key is appended; the keys stay distinct |
| Voting.Tally | mirror_symmetry.py:174-179 | the dictionary that the loop builds has distinct keys |
| Voting.TallyKeys | mirror_symmetry.py:176-179 | a key is in the dictionary exactly when some visited cell has that offset and a non-zero count |
| Voting.TallyCountsNonZero | mirror_symmetry.py:178-179 | no entry has count zero |
| Voting.TallyLastWriteWins | mirror_symmetry.py:176-179 | a cell whose offset no later non-empty cell repeats is in the dictionary with its own count |
| Voting.TallyDistinctOffsets | mirror_symmetry.py:176-179 | with distinct offsets, the dictionary is exactly the non-empty cells in offset order |
| Voting.RankByVotes | mirror_symmetry.py:180 | the entries of the dictionary sorted by count, descending; the same entries, each as often |
| Voting.RankByVotesSpec | mirror_symmetry.py:180 | the ranking is by non-increasing count, with equal counts in insertion order |
| Voting.DistinctKeysPermute | mirror_symmetry.py:180 | reordering a dictionary's entries keeps its keys distinct, so rebuilding a dict from the sorted items loses nothing |
| Voting.RankedFirstIsMax | mirror_symmetry.py:180 | the first ranked entry is an entry of the dictionary with the most votes |
| Voting.SameCellsSameKeys | mirror_symmetry.py:180 | two dictionaries with the same entries have the same keys; if the first has no zero count, neither has the second |
| Voting.SortHexbinByVotes | mirror_symmetry.py:168-180 | the result is the ranked dictionary; its keys are distinct and are exactly the offsets with non-zero counts; each key holds the count of its last non-zero cell; no count is zero; counts do not increase |
| Selection.Degenerate | mirror_symmetry.py:162 | θ is exactly 0 or exactly π |
| Selection.SelectAxis | mirror_symmetry.py:156-165 | the key the scan stops at: always a key of the ranking, never one with θ = 0 or π for a non-vertical mirror, and nothing for a vertical mirror only when the ranking is empty |
| Selection.SelectAxisFirstQualifying | mirror_symmetry.py:156-165 | for a non-vertical mirror: nothing exactly when every cell has θ = 0 or π; otherwise the key of the first cell whose θ is neither |
| Selection.VerticalPicksMostVotes | mirror_symmetry.py:158-159 | on a ranked histogram, a vertical mirror gets the key of an entry with the most votes |
| Selection.SkipsHorizontalAxis | mirror_symmetry.py:160-165 | a θ = 0 cell with two votes is passed over for a θ = 1.2 cell with one |
| Selection.SkipsHorizontalAxisFromHistogram | mirror_symmetry.py:153-180 | the same outcome when starting from the two histogram cells, through the ranking |
| Selection.FindCoordinateMaxHexbin | mirror_symmetry.py:153-165 | the loop returns `SelectAxis`; vertical returns the first key, or nothing for an empty histogram; non-vertical returns nothing exactly when every θ is 0 or π |

## Left out

- Keypoint detection and descriptor matching (`sift.detectAndCompute`, `bf.knnMatch`) are OpenCV's. Their results are inputs: keypoint sequences and one list of matches per query.
- The hexagonal binning (`plt.hexbin`) is matplotlib's. Its offsets and counts are inputs, so the link from votes to bin counts is not modelled.
- Floating point: coordinates, angles and counts are reals. Rounding, NaN and infinities are not modelled. The arctangent, cosine, sine and π are parameters, with only the facts in `Trig.Valid`.
- Image reading, the flip (`np.fliplr`), drawing (`draw_matches`, `draw_hex`, `draw_mirrorLine`) and plotting are I/O. The flipped image appears only through its width.
- The driver functions `detecting_mirrorLine` and `test_case`, and `detect.py`, only sequence the modelled steps and show images. They are not part of this model.
- The unused `ncnts` count (mirror_symmetry.py:172) and the unused `image_hexbin` parameter of `find_coordinate_maxhexbin` have no effect, so they are left out.
- Detection.FindMatchpoints: requires every neighbour list to be non-empty. On an empty list the program would fail with an `IndexError`, and that failure is not modelled.
- Detection.MirrorSymmetryDetection.FindPointsRTheta: requires every match to index existing keypoints. The matcher guarantees this; an out-of-range index would fail with an `IndexError` in the program.
- Voting.SortHexbinByVotes: requires at least as many counts as offsets. matplotlib gives the same number of each.
- Keypoints are records held in arrays. OpenCV's keypoint objects are references, but no two entries of a keypoint list share one, so in-place updates of an entry are the same as replacing it.
- Detection.MirrorNAngle: assumes the detector's orientations are in [0, 360) degrees, which OpenCV promises but which is not checked here.

## Findings

| source | as written | input that shows it | evidently intended | confidence | as-written member | corrected member |
|---|---|---|---|---|---|---|
| mirror_symmetry.py:109-119 | each match rewrites `kp2[trainIdx]` in place, so a mirrored keypoint named by two matches is unflipped and then flipped back, and the second pair votes with the keypoint in the flipped frame | image width 10, kp1 = (3, 0) and (3, 1), kp2 = (7, 5), matches (0→0) and (1→0): the second vote's θ is not π/2, although both pairs lie on the vertical line x = 3 | every match votes with the mirrored keypoint unflipped exactly once, whatever the other matches | not executed | Detection.DoubleMatchCounterexample | Detection.IntendedVotes |
