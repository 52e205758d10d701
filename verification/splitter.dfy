/** `create_train_val_test`: splitting a point list into train, validation
    and test lists, by a checkerboard of grid cells or by shuffling and
    slicing. A point is a pair of reals taken positionally: the loop
    unpacks each pair as `lat, lon`, whatever the pair actually holds. */
module Splitter {
  import opened Results

  type Point = (real, real)

  /** Python's `int()` on a float: truncation toward zero, not floor. */
  function Trunc(x: real): (t: int)
    ensures x >= 0.0 ==> t as real <= x < t as real + 1.0
    ensures x < 0.0 ==> t as real - 1.0 < x <= t as real
  {
    if x >= 0.0 then x.Floor else -((-x).Floor)
  }

  /** Values strictly between -1 and 1 truncate to 0, so the cell of a
      coordinate in (-degrees, degrees) is 0, where floor would give -1 for
      the negative half. */
  lemma TruncNearZero(x: real)
    requires -1.0 < x < 1.0
    ensures Trunc(x) == 0
    ensures x < 0.0 ==> x.Floor == -1
  {
  }

  /** The grid cell index of one coordinate: `int(v / degrees)`. */
  function Cell(v: real, degrees: real): int
    requires degrees != 0.0
  {
    Trunc(v / degrees)
  }

  datatype Part = Train | Val | Test

  /** An odd number is 1 or 3 modulo 4. */
  lemma OddModFour(c: int)
    requires c % 2 == 1
    ensures c % 4 == 1 || c % 4 == 3
  {
    assert c == 2 * (c / 2) + c % 2;
    assert c == 4 * (c / 4) + c % 4;
    var k := c / 2 - 2 * (c / 4);
    assert c % 4 - c % 2 == 2 * k;
  }

  /** The checkerboard rule on cell indices, first match wins: train if
      either index is even, validation if the first is odd and the second is
      1 modulo 4, test otherwise. */
  function CellPart(c1: int, c2: int): (part: Part)
    ensures part == Train <==> c1 % 2 == 0 || c2 % 2 == 0
    ensures part == Val <==> c1 % 2 == 1 && c2 % 4 == 1
    ensures part == Test <==> c1 % 2 == 1 && c2 % 4 == 3
  {
    if c1 % 2 == 0 || c2 % 2 == 0 then Train
    else if c1 % 2 == 1 && c2 % 4 == 1 then Val
    else
      OddModFour(c2);
      Test
  }

  /** The pattern repeats every 2 cells along the first index and every 4
      along the second. */
  lemma CellPartPeriodic(c1: int, c2: int)
    ensures CellPart(c1 + 2, c2) == CellPart(c1, c2)
    ensures CellPart(c1, c2 + 4) == CellPart(c1, c2)
  {
    assert (c1 + 2) % 2 == c1 % 2;
    assert (c2 + 4) % 4 == c2 % 4;
    assert (c2 + 4) % 2 == c2 % 2;
  }

  /** The part a point goes to: its first component gives the first cell
      index, its second component the second. */
  function Classify(p: Point, degrees: real): Part
    requires degrees != 0.0
  {
    CellPart(Cell(p.0, degrees), Cell(p.1, degrees))
  }

  datatype Split = Split(train: seq<Point>, val: seq<Point>, test: seq<Point>)

  /** The list of the points of one part: a filter that keeps input order. */
  function Select(points: seq<Point>, degrees: real, part: Part): (sel: seq<Point>)
    requires degrees != 0.0
    ensures |sel| <= |points|
    ensures forall i :: 0 <= i < |sel| ==> sel[i] in points && Classify(sel[i], degrees) == part
    ensures forall i :: 0 <= i < |points| && Classify(points[i], degrees) == part ==> points[i] in sel
  {
    if |points| == 0 then []
    else (if Classify(points[0], degrees) == part then [points[0]] else []) + Select(points[1..], degrees, part)
  }

  lemma SelectSingle(p: Point, degrees: real, part: Part)
    requires degrees != 0.0
    ensures Select([p], degrees, part) == if Classify(p, degrees) == part then [p] else []
  {
    assert [p][1..] == [];
  }

  /** Selecting from a list extended by one point extends the selection
      by that point when it belongs to the part. */
  lemma {:induction false} SelectAppend(points: seq<Point>, p: Point, degrees: real, part: Part)
    requires degrees != 0.0
    ensures Select(points + [p], degrees, part)
      == Select(points, degrees, part) + (if Classify(p, degrees) == part then [p] else [])
  {
    if |points| == 0 {
      assert points + [p] == [p];
      SelectSingle(p, degrees, part);
    } else {
      var s := points + [p];
      assert s[0] == points[0];
      assert s[1..] == points[1..] + [p];
      SelectAppend(points[1..], p, degrees, part);
    }
  }

  /** Appending one point to the list of its part. */
  function Place(s: Split, p: Point, part: Part): (s': Split)
    ensures s'.train == s.train + (if part == Train then [p] else [])
    ensures s'.val == s.val + (if part == Val then [p] else [])
    ensures s'.test == s.test + (if part == Test then [p] else [])
  {
    match part
    case Train => s.(train := s.train + [p])
    case Val => s.(val := s.val + [p])
    case Test => s.(test := s.test + [p])
  }

  /** The checkerboard loop: each point, in input order, is appended
      unchanged to the list of its part. */
  function Checkerboard(points: seq<Point>, degrees: real): (s: Split)
    requires degrees != 0.0
    ensures |s.train| + |s.val| + |s.test| == |points|
  {
    if |points| == 0 then Split([], [], [])
    else
      var p := points[|points| - 1];
      assert points == points[..|points| - 1] + [p];
      Place(Checkerboard(points[..|points| - 1], degrees), p, Classify(p, degrees))
  }

  /** The three lists together hold every input point exactly as often as
      the input does. */
  lemma {:induction false} CheckerboardPartition(points: seq<Point>, degrees: real)
    requires degrees != 0.0
    ensures var s := Checkerboard(points, degrees);
      multiset(s.train) + multiset(s.val) + multiset(s.test) == multiset(points)
  {
    if |points| > 0 {
      var init := points[..|points| - 1];
      var p := points[|points| - 1];
      assert points == init + [p];
      CheckerboardPartition(init, degrees);
      PlaceAddsOne(Checkerboard(init, degrees), p, Classify(p, degrees));
    }
  }

  /** Placing a point adds exactly that point to the split. */
  lemma PlaceAddsOne(s: Split, p: Point, part: Part)
    ensures var s' := Place(s, p, part);
      multiset(s'.train) + multiset(s'.val) + multiset(s'.test)
      == multiset(s.train) + multiset(s.val) + multiset(s.test) + multiset{p}
  {
    match part
    case Train => assert multiset(s.train + [p]) == multiset(s.train) + multiset{p};
    case Val => assert multiset(s.val + [p]) == multiset(s.val) + multiset{p};
    case Test => assert multiset(s.test + [p]) == multiset(s.test) + multiset{p};
  }

  /** Each list of the checkerboard split is exactly the input's points of
      that part, in input order. */
  lemma {:induction false} CheckerboardSelects(points: seq<Point>, degrees: real)
    requires degrees != 0.0
    ensures Checkerboard(points, degrees).train == Select(points, degrees, Train)
    ensures Checkerboard(points, degrees).val == Select(points, degrees, Val)
    ensures Checkerboard(points, degrees).test == Select(points, degrees, Test)
  {
    if |points| > 0 {
      var init := points[..|points| - 1];
      var p := points[|points| - 1];
      assert points == init + [p];
      CheckerboardSelects(init, degrees);
      SelectAppend(init, p, degrees, Train);
      SelectAppend(init, p, degrees, Val);
      SelectAppend(init, p, degrees, Test);
    }
  }

  /** Every input point lands in exactly one list: the list of its part. */
  lemma CheckerboardExactlyOne(points: seq<Point>, degrees: real, i: nat)
    requires degrees != 0.0 && i < |points|
    ensures points[i] in Checkerboard(points, degrees).train <==> Classify(points[i], degrees) == Train
    ensures points[i] in Checkerboard(points, degrees).val <==> Classify(points[i], degrees) == Val
    ensures points[i] in Checkerboard(points, degrees).test <==> Classify(points[i], degrees) == Test
  {
    CheckerboardSelects(points, degrees);
  }

  /** Python's handling of one slice bound: a negative bound counts from the
      end, and a bound past either end is clamped to it. */
  function SliceBound(i: int, n: nat): (k: nat)
    ensures k <= n
    ensures i >= 0 ==> k == Min(i, n)
    ensures i < 0 ==> k == Max0(n + i)
  {
    if i < 0 then Max0(n + i) else if i > n then n else i
  }

  /** Python's `s[lo:hi]`. */
  function Slice<T>(s: seq<T>, lo: int, hi: int): (r: seq<T>)
    ensures |r| <= |s|
  {
    var a := SliceBound(lo, |s|);
    var b := SliceBound(hi, |s|);
    if a <= b then s[a..b] else []
  }

  /** With non-negative sizes the three slices `[:t]`, `[t:t+v]` and
      `[t+v:]` are consecutive pieces that together give back `s`. */
  lemma SlicesPartition<T>(s: seq<T>, t: int, v: int)
    requires t >= 0 && v >= 0
    ensures Slice(s, 0, t) + Slice(s, t, t + v) + Slice(s, t + v, |s|) == s
    ensures |Slice(s, 0, t)| == Min(t, |s|)
    ensures |Slice(s, t, t + v)| == Min(v, |s| - Min(t, |s|))
  {
    var a := Min(t, |s|);
    var b := Min(t + v, |s|);
    assert Slice(s, 0, t) == s[..a];
    assert Slice(s, t, t + v) == s[a..b];
    assert Slice(s, t + v, |s|) == s[b..];
    assert s == s[..a] + s[a..b] + s[b..];
  }

  /** A split size `int(ratio * N)`; a non-negative ratio gives a
      non-negative size. */
  function SplitSize(ratio: real, n: nat): (size: int)
    ensures ratio >= 0.0 ==> size >= 0
  {
    assert ratio >= 0.0 ==> ratio * n as real >= 0.0;
    Trunc(ratio * n as real)
  }

  /** The random method after the shuffle: sizes are `int(ratio * N)`, the
      train list is the first `train_size` points, validation the next
      `val_size`, test the rest. With non-negative ratios the three lists
      are consecutive pieces of the shuffled list. */
  function RandomSplit(shuffled: seq<Point>, ratios: (real, real)): (s: Split)
    ensures ratios.0 >= 0.0 && ratios.1 >= 0.0 ==> s.train + s.val + s.test == shuffled
    ensures ratios.0 >= 0.0 ==> |s.train| == Min(SplitSize(ratios.0, |shuffled|), |shuffled|)
    ensures ratios.0 >= 0.0 && ratios.1 >= 0.0 ==>
      |s.val| == Min(SplitSize(ratios.1, |shuffled|), |shuffled| - |s.train|)
  {
    var n := |shuffled|;
    var trainSize := SplitSize(ratios.0, n);
    var valSize := SplitSize(ratios.1, n);
    var s := Split(Slice(shuffled, 0, trainSize),
                   Slice(shuffled, trainSize, trainSize + valSize),
                   Slice(shuffled, trainSize + valSize, n));
    if ratios.0 >= 0.0 && ratios.1 >= 0.0 then
      SlicesPartition(shuffled, trainSize, valSize);
      s
    else if ratios.0 >= 0.0 then
      assert |s.train| == Min(trainSize, n);
      s
    else
      s
  }

  datatype SplitError = ValueError(message: string) | ZeroDivisionError

  const InvalidMethodMessage := "Invalid method provided. Supported methods: 'checkerboard', 'random'"

  /** `create_train_val_test(points, degrees, method, ratios, seed)`. The
      seeded `random.shuffle` is replaced by `shuffled`, any rearrangement of
      `points`. The checkerboard loop divides by `degrees` at the first point,
      so a zero `degrees` fails only when there is a point. */
  function CreateTrainValTest(points: seq<Point>, degrees: real, splitMethod: string,
                              ratios: (real, real), shuffled: seq<Point>): (r: Result<Split, SplitError>)
    requires splitMethod == "random" ==> multiset(shuffled) == multiset(points)
    ensures r.Failure? <==>
      (splitMethod != "checkerboard" && splitMethod != "random") || (splitMethod == "checkerboard" && degrees == 0.0 && |points| > 0)
    ensures r.Failure? && splitMethod != "checkerboard" ==> r.error == ValueError(InvalidMethodMessage)
    ensures r.Failure? && splitMethod == "checkerboard" ==> r.error == ZeroDivisionError
    ensures r.Success? && (splitMethod == "checkerboard" || (ratios.0 >= 0.0 && ratios.1 >= 0.0)) ==>
      multiset(r.value.train) + multiset(r.value.val) + multiset(r.value.test) == multiset(points)
    ensures r.Success? && (splitMethod == "checkerboard" || (ratios.0 >= 0.0 && ratios.1 >= 0.0)) ==>
      |r.value.train| + |r.value.val| + |r.value.test| == |points|
  {
    if splitMethod == "checkerboard" then
      if |points| == 0 then Success(Split([], [], []))
      else if degrees == 0.0 then Failure(ZeroDivisionError)
      else
        CheckerboardPartition(points, degrees);
        Success(Checkerboard(points, degrees))
    else if splitMethod == "random" then
      var s := RandomSplit(shuffled, ratios);
      if ratios.0 >= 0.0 && ratios.1 >= 0.0 then
        assert multiset(s.train + s.val + s.test) == multiset(shuffled);
        assert |s.train + s.val + s.test| == |shuffled| == |multiset(shuffled)| == |multiset(points)|;
        Success(s)
      else
        Success(s)
    else
      Failure(ValueError(InvalidMethodMessage))
  }

  /** The checkerboard result depends on neither the ratios nor the shuffle
      (hence not on the seed). */
  lemma CheckerboardIgnoresRatiosAndSeed(points: seq<Point>, degrees: real,
                                         ratios1: (real, real), shuffled1: seq<Point>,
                                         ratios2: (real, real), shuffled2: seq<Point>)
    ensures CreateTrainValTest(points, degrees, "checkerboard", ratios1, shuffled1)
         == CreateTrainValTest(points, degrees, "checkerboard", ratios2, shuffled2)
  {
  }

  lemma CornerParts()
    ensures Classify((0.0, 0.0), 1.0) == Train && Classify((0.0, 1.0), 1.0) == Train
    ensures Classify((1.0, 0.0), 1.0) == Train && Classify((1.0, 1.0), 1.0) == Val
  {
    assert Trunc(0.0 / 1.0) == 0 && Trunc(1.0 / 1.0) == 1;
  }

  /** The checkerboard loop's step: the last point is placed after all the
      others. */
  lemma CheckerboardStep(points: seq<Point>, p: Point, degrees: real)
    requires degrees != 0.0
    ensures Checkerboard(points + [p], degrees) == Place(Checkerboard(points, degrees), p, Classify(p, degrees))
  {
    var s := points + [p];
    assert s[..|s| - 1] == points;
  }

  /** A list of train points all goes to train. */
  lemma {:induction false} CheckerboardAllTrain(points: seq<Point>, degrees: real)
    requires degrees != 0.0
    requires forall i :: 0 <= i < |points| ==> Classify(points[i], degrees) == Train
    ensures Checkerboard(points, degrees) == Split(points, [], [])
  {
    if |points| > 0 {
      var init := points[..|points| - 1];
      assert forall i :: 0 <= i < |init| ==> init[i] == points[i];
      CheckerboardAllTrain(init, degrees);
      CheckerboardStep(init, points[|points| - 1], degrees);
      assert init + [points[|points| - 1]] == points;
    }
  }

  /** Three train points followed by a validation point. */
  lemma CheckerboardThreeThenOne(pts: seq<Point>, degrees: real)
    requires degrees != 0.0 && |pts| == 4
    requires Classify(pts[0], degrees) == Train && Classify(pts[1], degrees) == Train
    requires Classify(pts[2], degrees) == Train && Classify(pts[3], degrees) == Val
    ensures Checkerboard(pts, degrees) == Split(pts[..3], [pts[3]], [])
  {
    var front := Split(pts[..3], [], []);
    assert Checkerboard(pts[..3], degrees) == front by {
      CheckerboardAllTrain(pts[..3], degrees);
    }
    assert Checkerboard(pts, degrees) == Place(front, pts[3], Val) by {
      CheckerboardStep(pts[..3], pts[3], degrees);
      assert pts[..3] + [pts[3]] == pts;
    }
  }

  /** The four corners of the unit cell with `degrees = 1`: only (1, 1),
      both indices odd and the second 1 modulo 4, is validation. */
  lemma CheckerboardCorners(a: Point, b: Point, c: Point, d: Point)
    requires a == (0.0, 0.0) && b == (0.0, 1.0) && c == (1.0, 0.0) && d == (1.0, 1.0)
    ensures CreateTrainValTest([a, b, c, d], 1.0, "checkerboard", (0.0, 0.0), [])
         == Success(Split([a, b, c], [d], []))
  {
    CornerParts();
    var pts := [a, b, c, d];
    CheckerboardThreeThenOne(pts, 1.0);
    assert pts[..3] == [a, b, c];
  }
}
