/**
  postprocess_image of fast.c: dark frame subtraction, removal of horizontal lines and removal
  of vertical half-lines, in place. Doubles are modelled as reals.
*/
module Postprocess {

  import opened Pixels

  // ----- the stages as functions of the image -----

  /** sum * (parts / n); the source divides by zero only where no pixel will use the result */
  function Mean(sum: real, parts: real, n: nat): real {
    if n == 0 then 0.0 else sum * (parts / n as real)
  }

  function RowMean(p: Table, y: int, width: nat): real {
    Mean(RowSum(p, y, 0, width), 1.0, width)
  }

  /** The first row of the half that row y lies in, and the number of rows of that half */
  function HalfStart(y: int, height: nat): nat {
    if y < height / 2 then 0 else height / 2
  }

  function HalfLength(y: int, height: nat): nat {
    if y < height / 2 then height / 2 else height - height / 2
  }

  /** The sum of column x over the half that row y lies in */
  function HalfSum(p: Table, y: int, x: int, height: nat): real {
    ColumnSum(p, HalfStart(y, height), x, HalfLength(y, height))
  }

  function HalfMean(p: Table, y: int, x: int, height: nat): real {
    Mean(HalfSum(p, y, x, height), 2.0, height)
  }

  function DarkSubtracted(p: Table, dark: Table, length: int, height: nat, width: nat): (q: Table)
    ensures IsTable(q, height, width)
    ensures forall y, x :: 0 <= y < height && 0 <= x < width ==>
            At(q, y, x) == At(p, y, x) - At(dark, y, x) * length as real
  {
    seq(height, y => seq(width, x => At(p, y, x) - At(dark, y, x) * length as real))
  }

  function RowsLeveled(p: Table, height: nat, width: nat): (q: Table)
    ensures IsTable(q, height, width)
    ensures forall y, x :: 0 <= y < height && 0 <= x < width ==> At(q, y, x) == At(p, y, x) - RowMean(p, y, width)
  {
    seq(height, y => seq(width, x => At(p, y, x) - RowMean(p, y, width)))
  }

  function HalvesLeveled(p: Table, height: nat, width: nat): (q: Table)
    ensures IsTable(q, height, width)
    ensures forall y, x :: 0 <= y < height && 0 <= x < width ==> At(q, y, x) == At(p, y, x) - HalfMean(p, y, x, height)
  {
    seq(height, y => seq(width, x => At(p, y, x) - HalfMean(p, y, x, height)))
  }

  /** n times the mean of n numbers is their sum */
  lemma MeanTimes(sum: real, parts: real, n: nat)
    requires n > 0
    ensures Times(n, Mean(sum, parts, n)) == sum * parts
  {
    var k := n as real;
    TimesIsProduct(n, Mean(sum, parts, n));
    assert k * (parts / k) == parts;
    assert k * (sum * (parts / k)) == sum * (k * (parts / k));
  }

  lemma HalfMeanTimes(p: Table, height: nat, y: int, x: int)
    requires height > 0
    ensures Times(height, HalfMean(p, y, x, height)) == HalfSum(p, y, x, height) + HalfSum(p, y, x, height)
  {
    MeanTimes(HalfSum(p, y, x, height), 2.0, height);
  }

  lemma TimesIsZero(n: nat, v: real)
    requires n > 0
    ensures Times(n, v) == 0.0 <==> v == 0.0
  {
    TimesIsProduct(n, v);
  }

  // ----- stage 2: every row sums to zero -----

  lemma {:induction false} RowLoses(p: Table, q: Table, y: int, n: nat, m: real)
    requires forall x :: 0 <= x < n ==> At(q, y, x) == At(p, y, x) - m
    ensures RowSum(q, y, 0, n) == RowSum(p, y, 0, n) - Times(n, m)
  {
    if n > 0 {
      RowLoses(p, q, y, n - 1, m);
    }
  }

  lemma LeveledRowsSumToZero(p: Table, height: nat, width: nat, y: nat)
    requires y < height
    ensures RowSum(RowsLeveled(p, height, width), y, 0, width) == 0.0
  {
    if width > 0 {
      RowLoses(p, RowsLeveled(p, height, width), y, width, RowMean(p, y, width));
      MeanTimes(RowSum(p, y, 0, width), 1.0, width);
    }
  }

  predicate RowsSumToZero(p: Table, height: nat, width: nat) {
    forall y :: 0 <= y < height ==> RowSum(p, y, 0, width) == 0.0
  }

  // ----- stage 3 keeps that -----

  /** The sum of the half means over the first n columns */
  function MeansSum(p: Table, y: int, height: nat, n: nat): real {
    if n == 0 then 0.0 else MeansSum(p, y, height, n - 1) + HalfMean(p, y, n - 1, height)
  }

  lemma {:induction false} RowLosesMeans(p: Table, q: Table, y: int, height: nat, n: nat)
    requires forall x :: 0 <= x < n ==> At(q, y, x) == At(p, y, x) - HalfMean(p, y, x, height)
    ensures RowSum(q, y, 0, n) == RowSum(p, y, 0, n) - MeansSum(p, y, height, n)
  {
    if n > 0 {
      RowLosesMeans(p, q, y, height, n - 1);
    }
  }

  /** The means are those of the columns of a half, whose sums make up the sum of the half */
  lemma {:induction false} MeansAreOfHalf(p: Table, y: int, height: nat, n: nat)
    requires height > 0
    ensures var half := BlockSum(p, HalfStart(y, height), 0, HalfLength(y, height), n);
            Times(height, MeansSum(p, y, height, n)) == half + half
  {
    if n > 0 {
      MeansAreOfHalf(p, y, height, n - 1);
      HalfMeanTimes(p, height, y, n - 1);
      assert HalfSum(p, y, n - 1, height) == ColumnSum(p, HalfStart(y, height), 0 + n - 1, HalfLength(y, height));
      TimesAdds(height, MeansSum(p, y, height, n - 1), HalfMean(p, y, n - 1, height));
    } else {
      TimesZero(height);
    }
  }

  /** The same sum, row by row, is zero when the rows are */
  lemma {:induction false} ZeroRowsZeroBlock(p: Table, y0: nat, m: nat, width: nat)
    requires forall y :: y0 <= y < y0 + m ==> RowSum(p, y, 0, width) == 0.0
    ensures BlockSum(p, y0, 0, m, width) == 0.0
  {
    if m == 0 {
      EmptyBlock(p, y0, 0, width);
    } else {
      ZeroRowsZeroBlock(p, y0, m - 1, width);
      BlockGrowsByRow(p, y0, 0, m - 1, width);
    }
  }

  lemma LevelingHalvesKeepsRows(p: Table, height: nat, width: nat)
    requires RowsSumToZero(p, height, width)
    ensures RowsSumToZero(HalvesLeveled(p, height, width), height, width)
  {
    forall y | 0 <= y < height ensures RowSum(HalvesLeveled(p, height, width), y, 0, width) == 0.0 {
      RowLosesMeans(p, HalvesLeveled(p, height, width), y, height, width);
      MeansAreOfHalf(p, y, height, width);
      ZeroRowsZeroBlock(p, HalfStart(y, height), HalfLength(y, height), width);
      TimesIsZero(height, MeansSum(p, y, height, width));
    }
  }

  // ----- stage 3 and the half-columns -----

  lemma {:induction false} ColumnLoses(p: Table, q: Table, y0: int, x: int, n: nat, m: real)
    requires forall y :: y0 <= y < y0 + n ==> At(q, y, x) == At(p, y, x) - m
    ensures ColumnSum(q, y0, x, n) == ColumnSum(p, y0, x, n) - Times(n, m)
  {
    if n > 0 {
      ColumnLoses(p, q, y0, x, n - 1, m);
    }
  }

  /** What stage 3 leaves of a half-column sum */
  lemma HalfSumLeft(p: Table, height: nat, width: nat, y: nat, x: nat)
    requires y < height && x < width
    ensures HalfSum(p, y, x, height)
            == Times(HalfLength(y, height), HalfMean(p, y, x, height))
                + HalfSum(HalvesLeveled(p, height, width), y, x, height)
  {
    var q, y0, n := HalvesLeveled(p, height, width), HalfStart(y, height), HalfLength(y, height);
    forall i | y0 <= i < y0 + n ensures At(q, i, x) == At(p, i, x) - HalfMean(p, y, x, height) {
      assert HalfMean(p, i, x, height) == HalfMean(p, y, x, height);
    }
    ColumnLoses(p, q, y0, x, n, HalfMean(p, y, x, height));
  }

  /**
    Of a half-column sum s stage 3 leaves nothing when the height is even. When it is odd, it
    leaves s / height in the upper half, which has too few rows for its mean, and minus that in
    the lower half, which has too many.
  */
  lemma HalfColumnsAfterwards(p: Table, height: nat, width: nat, y: nat, x: nat)
    requires y < height && x < width
    ensures var s, left := HalfSum(p, y, x, height), HalfSum(HalvesLeveled(p, height, width), y, x, height);
            if height % 2 == 0 then left == 0.0
            else if y < height / 2 then Times(height, left) == s
            else Times(height, left) == -s
  {
    var left := HalfSum(HalvesLeveled(p, height, width), y, x, height);
    var m := HalfMeanAndRest(p, height, width, y, x);
    HalvesOf(height, HalfLength(y, height), m, HalfSum(p, y, x, height), left);
    TimesIsZero(height, left);
    HalfLengthIs(y, height);
  }

  lemma HalfMeanAndRest(p: Table, height: nat, width: nat, y: nat, x: nat) returns (m: real)
    requires y < height && x < width
    ensures Times(height, m) == HalfSum(p, y, x, height) + HalfSum(p, y, x, height)
    ensures HalfSum(p, y, x, height)
            == Times(HalfLength(y, height), m) + HalfSum(HalvesLeveled(p, height, width), y, x, height)
  {
    m := HalfMean(p, y, x, height);
    HalfMeanTimes(p, height, y, x);
    HalfSumLeft(p, height, width, y, x);
  }

  lemma HalfLengthIs(y: nat, height: nat)
    requires y < height
    ensures height - 2 * HalfLength(y, height) == if height % 2 == 0 then 0 else if y < height / 2 then 1 else -1
  {
  }

  lemma HalvesOf(height: nat, n: nat, m: real, s: real, left: real)
    requires height > 0 && Times(height, m) == s + s && s == Times(n, m) + left
    ensures height == n + n ==> Times(height, left) == 0.0
    ensures height == n + n + 1 ==> Times(height, left) == s
    ensures height == n + n - 1 ==> Times(height, left) == -s
  {
    TimesAdds(height, Times(n, m), left);
    TimesCommute(height, n, m);
    TimesAdds(n, s, s);
    TimesOfSum(n, n, s);
    Remainder(height, n + n, s, Times(height, left));
  }

  lemma Remainder(height: nat, double: nat, s: real, rest: real)
    requires height > 0 && Times(height, s) == Times(double, s) + rest
    ensures height == double ==> rest == 0.0
    ensures height == double + 1 ==> rest == s
    ensures height == double - 1 ==> rest == -s
  {
  }

  /** So a half-column sums to zero afterwards exactly when the height is even or it did before */
  lemma HalfColumnZeroExactly(p: Table, height: nat, width: nat, y: nat, x: nat)
    requires y < height && x < width
    ensures HalfSum(HalvesLeveled(p, height, width), y, x, height) == 0.0
            <==> height % 2 == 0 || HalfSum(p, y, x, height) == 0.0
  {
    HalfColumnsAfterwards(p, height, width, y, x);
    TimesIsZero(height, HalfSum(HalvesLeveled(p, height, width), y, x, height));
  }

  // ----- doing it again -----

  predicate HalvesSumToZero(p: Table, height: nat, width: nat) {
    forall y, x :: 0 <= y < height && 0 <= x < width ==> HalfSum(p, y, x, height) == 0.0
  }

  lemma LevelingZeroRows(p: Table, height: nat, width: nat)
    requires IsTable(p, height, width) && RowsSumToZero(p, height, width)
    ensures RowsLeveled(p, height, width) == p
  {
    forall y, x | 0 <= y < height && 0 <= x < width ensures At(RowsLeveled(p, height, width), y, x) == At(p, y, x) {
      assert RowMean(p, y, width) == 0.0;
    }
    SamePixels(RowsLeveled(p, height, width), p, height, width);
  }

  lemma HalfMeanIsZero(p: Table, height: nat, y: nat, x: nat)
    requires y < height
    ensures HalfMean(p, y, x, height) == 0.0 <==> HalfSum(p, y, x, height) == 0.0
  {
    HalfMeanTimes(p, height, y, x);
    TimesIsZero(height, HalfMean(p, y, x, height));
  }

  lemma LevelingZeroHalvesExactly(p: Table, height: nat, width: nat)
    requires IsTable(p, height, width)
    ensures HalvesLeveled(p, height, width) == p <==> HalvesSumToZero(p, height, width)
  {
    var q := HalvesLeveled(p, height, width);
    forall y, x | 0 <= y < height && 0 <= x < width
      ensures At(q, y, x) == At(p, y, x) <==> HalfSum(p, y, x, height) == 0.0
    {
      HalfMeanIsZero(p, height, y, x);
    }
    if HalvesSumToZero(p, height, width) {
      SamePixels(q, p, height, width);
    }
  }

  function LinesRemoved(p: Table, height: nat, width: nat): Table {
    HalvesLeveled(RowsLeveled(p, height, width), height, width)
  }

  /** Removing the lines a second time changes nothing exactly when the height is even or stage 3 had nothing to do */
  lemma SecondPassExactly(p: Table, height: nat, width: nat)
    ensures var q := LinesRemoved(p, height, width);
            LinesRemoved(q, height, width) == q
            <==> height % 2 == 0 || HalvesSumToZero(RowsLeveled(p, height, width), height, width)
  {
    var r, q := RowsLeveled(p, height, width), LinesRemoved(p, height, width);
    forall y | 0 <= y < height ensures RowSum(r, y, 0, width) == 0.0 {
      LeveledRowsSumToZero(p, height, width, y);
    }
    LevelingHalvesKeepsRows(r, height, width);
    LevelingZeroRows(q, height, width);
    LevelingZeroHalvesExactly(q, height, width);
    forall y, x | 0 <= y < height && 0 <= x < width
      ensures HalfSum(q, y, x, height) == 0.0 <==> height % 2 == 0 || HalfSum(r, y, x, height) == 0.0
    {
      HalfColumnZeroExactly(r, height, width, y, x);
    }
  }

  /** An odd height on which a second pass does change the image: the column 0, 2, 1 and its negative */
  lemma SecondPassOnOddHeight()
    ensures var p := [[0.0, 0.0], [2.0, -2.0], [1.0, -1.0]];
            LinesRemoved(LinesRemoved(p, 3, 2), 3, 2) != LinesRemoved(p, 3, 2)
  {
    var p := [[0.0, 0.0], [2.0, -2.0], [1.0, -1.0]];
    var r := RowsLeveled(p, 3, 2);
    assert At(p, 1, 0) == 2.0 && At(p, 2, 0) == 1.0;
    forall y | 0 <= y < 3 ensures RowMean(p, y, 2) == 0.0 {
      assert RowSum(p, y, 0, 2) == RowSum(p, y, 0, 1) + At(p, y, 1);
      assert RowSum(p, y, 0, 1) == RowSum(p, y, 0, 0) + At(p, y, 0);
    }
    assert At(r, 1, 0) == 2.0 && At(r, 2, 0) == 1.0;
    assert ColumnSum(r, 1, 0, 2) == ColumnSum(r, 1, 0, 1) + At(r, 2, 0);
    assert ColumnSum(r, 1, 0, 1) == ColumnSum(r, 1, 0, 0) + At(r, 1, 0);
    assert HalfSum(r, 1, 0, 3) == ColumnSum(r, 1, 0, 2) == 3.0;
    SecondPassExactly(p, 3, 2);
  }

  // ----- the code -----

  datatype Frame = Doubles(pixels: array2<real>) | Words(words: array2<int>)

  /** Rows from y on, and in row y the pixels from x on, are still those of p; the others are those of q */
  ghost predicate DoneUpTo(image: array2<real>, p: Table, q: Table, y: int, x: int)
    reads image
  {
    forall i, j :: 0 <= i < image.Length0 && 0 <= j < image.Length1 ==>
      image[i, j] == if i < y || (i == y && j < x) then At(q, i, j) else At(p, i, j)
  }

  lemma DoneAll(image: array2<real>, p: Table, q: Table)
    requires IsTable(q, image.Length0, image.Length1) && DoneUpTo(image, p, q, image.Length0, 0)
    ensures TableOf(image) == q
  {
    SamePixels(TableOf(image), q, image.Length0, image.Length1);
  }

  method SubtractDarkRow(image: array2<real>, dark: array2<real>, length: int, y: nat, ghost p: Table, ghost q: Table)
    requires image != dark && dark.Length0 == image.Length0 && dark.Length1 == image.Length1 && y < image.Length0
    requires forall x :: 0 <= x < image.Length1 ==> At(q, y, x) == At(p, y, x) - dark[y, x] * length as real
    requires DoneUpTo(image, p, q, y, 0)
    modifies image
    ensures DoneUpTo(image, p, q, y + 1, 0)
  {
    var x := 0;
    while x < image.Length1
      invariant 0 <= x <= image.Length1 && DoneUpTo(image, p, q, y, x)
    {
      image[y, x] := image[y, x] - dark[y, x] * length as real;
      x := x + 1;
    }
  }

  method SubtractDark(image: array2<real>, dark: array2<real>, length: int)
    requires image != dark && dark.Length0 == image.Length0 && dark.Length1 == image.Length1
    modifies image
    ensures TableOf(image) == DarkSubtracted(old(TableOf(image)), TableOf(dark), length, image.Length0, image.Length1)
  {
    ghost var p := TableOf(image);
    ghost var q := DarkSubtracted(p, TableOf(dark), length, image.Length0, image.Length1);
    var y := 0;
    while y < image.Length0
      invariant 0 <= y <= image.Length0 && DoneUpTo(image, p, q, y, 0)
    {
      SubtractDarkRow(image, dark, length, y, p, q);
      y := y + 1;
    }
    DoneAll(image, p, q);
  }

  method LevelRow(image: array2<real>, y: nat, ghost p: Table)
    requires y < image.Length0 && DoneUpTo(image, p, RowsLeveled(p, image.Length0, image.Length1), y, 0)
    modifies image
    ensures DoneUpTo(image, p, RowsLeveled(p, image.Length0, image.Length1), y + 1, 0)
  {
    ghost var q := RowsLeveled(p, image.Length0, image.Length1);
    var mean, x := 0.0, 0;
    while x < image.Length1
      invariant 0 <= x <= image.Length1 && mean == RowSum(p, y, 0, x)
    {
      mean := mean + image[y, x];
      x := x + 1;
    }
    mean := Mean(mean, 1.0, image.Length1);
    x := 0;
    while x < image.Length1
      invariant 0 <= x <= image.Length1 && DoneUpTo(image, p, q, y, x)
    {
      image[y, x] := image[y, x] - mean;
      x := x + 1;
    }
  }

  method LevelRows(image: array2<real>)
    modifies image
    ensures TableOf(image) == RowsLeveled(old(TableOf(image)), image.Length0, image.Length1)
  {
    ghost var p := TableOf(image);
    var y := 0;
    while y < image.Length0
      invariant 0 <= y <= image.Length0 && DoneUpTo(image, p, RowsLeveled(p, image.Length0, image.Length1), y, 0)
    {
      LevelRow(image, y, p);
      y := y + 1;
    }
    DoneAll(image, p, RowsLeveled(p, image.Length0, image.Length1));
  }

  /** Columns before x, and in column x the pixels above y, are those of q; the others are still those of p */
  ghost predicate ColumnsDone(image: array2<real>, p: Table, q: Table, x: int, y: int)
    reads image
  {
    forall i, j :: 0 <= i < image.Length0 && 0 <= j < image.Length1 ==>
      image[i, j] == if j < x || (j == x && i < y) then At(q, i, j) else At(p, i, j)
  }

  /** In rows y0 to y1 of column x, q falls short of p by their mean */
  predicate LosesMean(p: Table, q: Table, height: nat, y0: nat, y1: nat, x: int)
    requires y0 <= y1
  {
    Loses(p, q, y0, y1, x, Mean(ColumnSum(p, y0, x, y1 - y0), 2.0, height))
  }

  predicate Loses(p: Table, q: Table, y0: nat, y1: nat, x: int, mean: real) {
    forall i :: y0 <= i < y1 ==> At(q, i, x) == At(p, i, x) - mean
  }

  lemma HalfLosesMean(p: Table, height: nat, width: nat, y0: nat, y1: nat, x: nat)
    requires x < width && ((y0 == 0 && y1 == height / 2) || (y0 == height / 2 && y1 == height))
    ensures LosesMean(p, HalvesLeveled(p, height, width), height, y0, y1, x)
  {
    var mean := Mean(ColumnSum(p, y0, x, y1 - y0), 2.0, height);
    forall i | y0 <= i < y1 ensures At(HalvesLeveled(p, height, width), i, x) == At(p, i, x) - mean {
      MeanOfRow(p, height, y0, y1, i, x);
    }
  }

  lemma MeanOfRow(p: Table, height: nat, y0: nat, y1: nat, i: nat, x: int)
    requires y0 <= i < y1 && ((y0 == 0 && y1 == height / 2) || (y0 == height / 2 && y1 == height))
    ensures HalfMean(p, i, x, height) == Mean(ColumnSum(p, y0, x, y1 - y0), 2.0, height)
  {
    assert HalfStart(i, height) == y0 && HalfLength(i, height) == y1 - y0;
  }

  method SumHalf(image: array2<real>, x: nat, y0: nat, y1: nat, ghost p: Table, ghost q: Table) returns (sum: real)
    requires x < image.Length1 && y0 <= y1 <= image.Length0 && ColumnsDone(image, p, q, x, y0)
    ensures sum == ColumnSum(p, y0, x, y1 - y0)
  {
    sum := 0.0;
    var y := y0;
    while y < y1
      invariant y0 <= y <= y1 && sum == ColumnSum(p, y0, x, y - y0)
    {
      sum := sum + image[y, x];
      y := y + 1;
    }
  }

  method SubtractMean(image: array2<real>, x: nat, y0: nat, y1: nat, mean: real, ghost p: Table, ghost q: Table)
    requires x < image.Length1 && y0 <= y1 <= image.Length0 && ColumnsDone(image, p, q, x, y0)
    requires Loses(p, q, y0, y1, x, mean)
    modifies image
    ensures ColumnsDone(image, p, q, x, y1)
  {
    var y := y0;
    while y < y1
      invariant y0 <= y <= y1 && ColumnsDone(image, p, q, x, y)
    {
      image[y, x] := image[y, x] - mean;
      y := y + 1;
    }
  }

  /** One half-column, from row y0 to row y1 */
  method LevelHalf(image: array2<real>, x: nat, y0: nat, y1: nat, ghost p: Table, ghost q: Table)
    requires x < image.Length1 && y0 <= y1 <= image.Length0
    requires LosesMean(p, q, image.Length0, y0, y1, x) && ColumnsDone(image, p, q, x, y0)
    modifies image
    ensures ColumnsDone(image, p, q, x, y1)
  {
    var mean := SumHalf(image, x, y0, y1, p, q);
    mean := Mean(mean, 2.0, image.Length0);
    SubtractMean(image, x, y0, y1, mean, p, q);
  }

  method LevelHalves(image: array2<real>)
    modifies image
    ensures TableOf(image) == HalvesLeveled(old(TableOf(image)), image.Length0, image.Length1)
  {
    ghost var p := TableOf(image);
    ghost var q := HalvesLeveled(p, image.Length0, image.Length1);
    var x := 0;
    while x < image.Length1
      invariant 0 <= x <= image.Length1 && ColumnsDone(image, p, q, x, 0)
    {
      LevelColumn(image, x, p, q);
      x := x + 1;
    }
    AllColumnsDone(image, p, q);
  }

  lemma AllColumnsDone(image: array2<real>, p: Table, q: Table)
    requires IsTable(q, image.Length0, image.Length1) && ColumnsDone(image, p, q, image.Length1, 0)
    ensures TableOf(image) == q
  {
    SamePixels(TableOf(image), q, image.Length0, image.Length1);
  }

  method LevelColumn(image: array2<real>, x: nat, ghost p: Table, ghost q: Table)
    requires x < image.Length1 && q == HalvesLeveled(p, image.Length0, image.Length1) && ColumnsDone(image, p, q, x, 0)
    modifies image
    ensures ColumnsDone(image, p, q, x + 1, 0)
  {
    var middle := image.Length0 / 2;
    HalfLosesMean(p, image.Length0, image.Length1, 0, middle, x);
    HalfLosesMean(p, image.Length0, image.Length1, middle, image.Length0, x);
    LevelHalf(image, x, 0, middle, p, q);
    LevelHalf(image, x, middle, image.Length0, p, q);
  }

  /** What postprocessing at a level makes of the pixels; dark is the dark frame that is in force */
  function Processed(p: Table, level: int, dark: seq<Table>, length: int, height: nat, width: nat): Table
    requires |dark| <= 1
  {
    var p1 := if level >= 1 && |dark| == 1 then DarkSubtracted(p, dark[0], length, height, width) else p;
    var p2 := if level >= 2 then RowsLeveled(p1, height, width) else p1;
    if level >= 3 then HalvesLeveled(p2, height, width) else p2
  }

  class Fast {
    var postprocess: int
    var dark: array2?<real>

    ghost function Dark(): (d: seq<Table>)
      reads this, dark
      ensures |d| <= 1
    {
      if dark == null then [] else [TableOf(dark)]
    }

    /** The dark frame is dropped when it would be subtracted from an image of another size */
    ghost predicate DropsDark(image: array2<real>)
      reads this
    {
      postprocess >= 1 && dark != null && (dark.Length0 != image.Length0 || dark.Length1 != image.Length1)
    }

    method PostprocessImage(frame: Frame, length: int)
      requires frame.Doubles? ==> frame.pixels != dark
      modifies this`dark
      modifies if frame.Doubles? then {frame.pixels} else {}
      ensures dark == if frame.Doubles? && old(DropsDark(frame.pixels)) then null else old(dark)
      ensures frame.Doubles? ==>
                TableOf(frame.pixels) == Processed(old(TableOf(frame.pixels)), postprocess, Dark(), length,
                                                   frame.pixels.Length0, frame.pixels.Length1)
    {
      if !frame.Doubles? {
        return;
      }
      var image := frame.pixels;
      if postprocess >= 1 && dark != null && (dark.Length0 != image.Length0 || dark.Length1 != image.Length1) {
        dark := null;
      }
      if postprocess >= 1 && dark != null {
        SubtractDark(image, dark, length);
      }
      if postprocess >= 2 {
        LevelRows(image);
      }
      if postprocess >= 3 {
        LevelHalves(image);
      }
    }
  }

  /** Leveling the rows keeps the differences within each row */
  lemma RowDifferencesStay(p: Table, height: nat, width: nat, y: nat, x1: nat, x2: nat)
    requires y < height && x1 < width && x2 < width
    ensures At(RowsLeveled(p, height, width), y, x1) - At(RowsLeveled(p, height, width), y, x2)
            == At(p, y, x1) - At(p, y, x2)
  {
  }

  /** Leveling the half-columns keeps the differences within each of them, above and below row height / 2 */
  lemma HalfDifferencesStay(p: Table, height: nat, width: nat, y1: nat, y2: nat, x: nat)
    requires y1 < height && y2 < height && x < width && (y1 < height / 2 <==> y2 < height / 2)
    ensures At(HalvesLeveled(p, height, width), y1, x) - At(HalvesLeveled(p, height, width), y2, x)
            == At(p, y1, x) - At(p, y2, x)
  {
    assert HalfMean(p, y1, x, height) == HalfMean(p, y2, x, height);
  }

  /**
    Which stages a level stands for: none up to 0, then the dark frame, then also the rows, then
    also the half-columns
  */
  lemma StagesByLevel(p: Table, level: int, dark: seq<Table>, length: int, height: nat, width: nat)
    requires |dark| <= 1
    ensures level <= 0 || (level == 1 && |dark| == 0) ==> Processed(p, level, dark, length, height, width) == p
    ensures level == 1 && |dark| == 1 ==>
              forall y, x :: 0 <= y < height && 0 <= x < width ==>
                At(Processed(p, level, dark, length, height, width), y, x)
                    == At(p, y, x) - At(dark[0], y, x) * length as real
    ensures var p1 := Processed(p, 1, dark, length, height, width);
            && (level == 2 ==> Processed(p, level, dark, length, height, width) == RowsLeveled(p1, height, width))
            && (level >= 3 ==> Processed(p, level, dark, length, height, width) == LinesRemoved(p1, height, width))
  {
  }

  /** A number of dark frames, added up, becomes black at every level from 1 on */
  lemma DarkBecomesBlack(p: Table, level: int, d: Table, length: int, height: nat, width: nat, y: nat, x: nat)
    requires level >= 1 && y < height && x < width
    requires forall i, j :: 0 <= i < height && 0 <= j < width ==> At(p, i, j) == At(d, i, j) * length as real
    ensures At(Processed(p, level, [d], length, height, width), y, x) == 0.0
  {
    var p1 := Processed(p, 1, [d], length, height, width);
    assert forall i, j :: 0 <= i < height && 0 <= j < width ==> At(p1, i, j) == 0.0;
    BlackStaysBlack(p1, height, width);
    BlackStaysBlack(RowsLeveled(p1, height, width), height, width);
  }

  predicate IsBlack(p: Table, height: nat, width: nat) {
    forall y, x :: 0 <= y < height && 0 <= x < width ==> At(p, y, x) == 0.0
  }

  lemma BlackStaysBlack(p: Table, height: nat, width: nat)
    requires IsBlack(p, height, width)
    ensures IsBlack(RowsLeveled(p, height, width), height, width)
    ensures IsBlack(HalvesLeveled(p, height, width), height, width)
  {
    forall y, x | 0 <= y < height && 0 <= x < width
      ensures At(RowsLeveled(p, height, width), y, x) == 0.0 && At(HalvesLeveled(p, height, width), y, x) == 0.0
    {
      BlackRow(p, y, width);
      BlackColumn(p, HalfStart(y, height), x, HalfLength(y, height));
    }
  }

  lemma {:induction false} BlackRow(p: Table, y: int, n: nat)
    requires forall x :: 0 <= x < n ==> At(p, y, x) == 0.0
    ensures RowSum(p, y, 0, n) == 0.0
  {
    if n > 0 {
      BlackRow(p, y, n - 1);
    }
  }

  lemma {:induction false} BlackColumn(p: Table, y0: int, x: int, n: nat)
    requires forall y :: y0 <= y < y0 + n ==> At(p, y, x) == 0.0
    ensures ColumnSum(p, y0, x, n) == 0.0
  {
    if n > 0 {
      BlackColumn(p, y0, x, n - 1);
    }
  }

  /** Fully processed double images: every row, and for an even height every half-column, sums to zero */
  lemma FullyProcessed(p: Table, level: int, dark: seq<Table>, length: int, height: nat, width: nat)
    requires level >= 2 && |dark| <= 1
    ensures RowsSumToZero(Processed(p, level, dark, length, height, width), height, width)
    ensures level >= 3 && height % 2 == 0 ==>
            HalvesSumToZero(Processed(p, level, dark, length, height, width), height, width)
  {
    var p1 := Processed(p, 1, dark, length, height, width);
    var p2 := RowsLeveled(p1, height, width);
    forall y | 0 <= y < height ensures RowSum(p2, y, 0, width) == 0.0 {
      LeveledRowsSumToZero(p1, height, width, y);
    }
    if level >= 3 {
      LevelingHalvesKeepsRows(p2, height, width);
      if height % 2 == 0 {
        forall y, x | 0 <= y < height && 0 <= x < width
          ensures HalfSum(HalvesLeveled(p2, height, width), y, x, height) == 0.0
        {
          HalfColumnZeroExactly(p2, height, width, y, x);
        }
      }
    }
  }
}
