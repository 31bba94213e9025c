/**
  image_scale and image_downscale of image.c, on double and on 16-bit images. Doubles are
  modelled as reals; 16-bit pixels are integers whose addition wraps around at 2^16.
*/
module Scaling {

  import opened Pixels

  type Word = v: int | 0 <= v < 0x1_0000

  /** A 16-bit image as a table */
  ghost function WordTable(a: array2<Word>): (p: Table)
    reads a
    ensures IsTable(p, a.Length0, a.Length1)
    ensures forall y, x :: 0 <= y < a.Length0 && 0 <= x < a.Length1 ==> At(p, y, x) == a[y, x] as real
  {
    seq(a.Length0, y requires 0 <= y < a.Length0 reads a =>
      seq(a.Length1, x requires 0 <= x < a.Length1 reads a => a[y, x] as real))
  }

  // ----- blocks of rows and columns -----

  /** Where block q of blocks of this size begins */
  function Start(q: nat, size: nat): nat {
    if q == 0 then 0 else Start(q - 1, size) + size
  }

  /** The block position n lies in */
  function Block(n: nat, size: nat): nat
    requires size > 0
  {
    if n < size then 0 else Block(n - size, size) + 1
  }

  lemma {:induction false} StartIsProduct(q: nat, size: nat)
    ensures Start(q, size) == q * size
  {
    if q > 0 {
      StartIsProduct(q - 1, size);
    }
  }

  lemma {:induction false} StartOrder(q: nat, r: nat, size: nat)
    requires q < r
    ensures Start(q, size) + size <= Start(r, size)
    decreases r - q
  {
    if q + 1 < r {
      StartOrder(q, r - 1, size);
    }
  }

  lemma {:induction false} BlockHolds(n: nat, size: nat)
    requires size > 0
    ensures Start(Block(n, size), size) <= n < Start(Block(n, size), size) + size
  {
    if n >= size {
      BlockHolds(n - size, size);
    }
  }

  lemma BlockIs(n: nat, size: nat, q: nat)
    requires size > 0
    ensures Block(n, size) == q <==> Start(q, size) <= n < Start(q, size) + size
  {
    BlockHolds(n, size);
    if Block(n, size) < q {
      StartOrder(Block(n, size), q, size);
    } else if q < Block(n, size) {
      StartOrder(q, Block(n, size), size);
    }
  }

  /** Block is the division of the source, and Start its multiplication */
  lemma BlockIsQuotient(n: nat, size: nat)
    requires size > 0
    ensures Block(n, size) == n / size
  {
    StartIsProduct(n / size, size);
    BlockIs(n, size, n / size);
  }

  lemma BlockWithin(n: nat, size: nat, count: nat)
    requires size > 0 && n < Start(count, size)
    ensures Block(n, size) < count
  {
    BlockHolds(n, size);
    if count < Block(n, size) {
      StartOrder(count, Block(n, size), size);
    }
  }

  /** A length that is a multiple of size consists of whole blocks */
  lemma WholeBlocks(length: nat, size: nat)
    requires size > 0 && length % size == 0
    ensures length == Start(length / size, size)
  {
    StartIsProduct(length / size, size);
  }

  // ----- scaling up -----

  /** Every pixel of image is that of orig whose block it lies in */
  predicate IsScaled(orig: Table, image: Table, height: nat, width: nat, factor: nat)
    requires factor > 0
  {
    && IsTable(orig, height, width) && IsTable(image, Start(height, factor), Start(width, factor))
    && forall y, x :: 0 <= y < Start(height, factor) && 0 <= x < Start(width, factor) ==>
         At(image, y, x) == At(orig, Block(y, factor), Block(x, factor))
  }

  method Scale(orig: array2<real>, factor: nat) returns (image: array2<real>)
    requires factor > 0
    ensures fresh(image) && image.Length0 == orig.Length0 * factor && image.Length1 == orig.Length1 * factor
    ensures IsScaled(TableOf(orig), TableOf(image), orig.Length0, orig.Length1, factor)
  {
    StartIsProduct(orig.Length0, factor);
    StartIsProduct(orig.Length1, factor);
    var height, width := orig.Length0 * factor, orig.Length1 * factor;
    image := new real[height, width]((y, x) => 0.0);
    var x := 0;
    while x < width
      invariant 0 <= x <= width
      invariant forall i, j :: 0 <= i < height && 0 <= j < width ==>
                  image[i, j] == if j < x then At(TableOf(orig), Block(i, factor), Block(j, factor)) else 0.0
    {
      var y := 0;
      while y < height
        invariant 0 <= y <= height
        invariant forall i, j :: 0 <= i < height && 0 <= j < width ==>
                    image[i, j] ==
                      if j < x || (j == x && i < y) then At(TableOf(orig), Block(i, factor), Block(j, factor)) else 0.0
      {
        var xx, yy := BlockAt(x, factor, orig.Length1), BlockAt(y, factor, orig.Length0);
        image[y, x] := image[y, x] + orig[yy, xx];
        y := y + 1;
      }
      x := x + 1;
    }
  }

  method ScaleWords(orig: array2<Word>, factor: nat) returns (image: array2<Word>)
    requires factor > 0
    ensures fresh(image) && image.Length0 == orig.Length0 * factor && image.Length1 == orig.Length1 * factor
    ensures IsScaled(WordTable(orig), WordTable(image), orig.Length0, orig.Length1, factor)
  {
    StartIsProduct(orig.Length0, factor);
    StartIsProduct(orig.Length1, factor);
    var height, width := orig.Length0 * factor, orig.Length1 * factor;
    image := new Word[height, width]((y, x) => 0);
    var x := 0;
    while x < width
      invariant 0 <= x <= width
      invariant forall i, j :: 0 <= i < height && 0 <= j < width ==>
                  image[i, j] as real == if j < x then At(WordTable(orig), Block(i, factor), Block(j, factor)) else 0.0
    {
      var y := 0;
      while y < height
        invariant 0 <= y <= height
        invariant forall i, j :: 0 <= i < height && 0 <= j < width ==>
                    image[i, j] as real ==
                      if j < x || (j == x && i < y) then At(WordTable(orig), Block(i, factor), Block(j, factor))
                      else 0.0
      {
        var xx, yy := BlockAt(x, factor, orig.Length1), BlockAt(y, factor, orig.Length0);
        image[y, x] := WrappingAdd(image[y, x], orig[yy, xx]);
        y := y + 1;
      }
      x := x + 1;
    }
  }

  /** The index n / factor of the source, known to be within count blocks */
  function BlockAt(n: nat, factor: nat, count: nat): (q: nat)
    requires factor > 0 && n < Start(count, factor)
    ensures q == Block(n, factor) && q < count
  {
    BlockIsQuotient(n, factor);
    BlockWithin(n, factor, count);
    n / factor
  }

  /** The addition of 16-bit pixels */
  function WrappingAdd(a: Word, b: Word): (sum: Word)
    ensures a + b < 0x1_0000 ==> sum == a + b
  {
    (a + b) % 0x1_0000
  }

  // ----- the accumulation of image_downscale -----

  /** t cut to the range 0..size */
  function Cut(t: int, size: nat): nat {
    if t <= 0 then 0 else if t >= size then size else t
  }

  /** What block (row, column) has received when the columns before x, and y rows of column x, are done */
  function Received(c: Table, size: nat, row: nat, column: nat, x: nat, y: nat): real {
    var y0, x0 := Start(row, size), Start(column, size);
    BlockSum(c, y0, x0, size, Cut(x - x0, size))
    + if x0 <= x < x0 + size then ColumnSum(c, y0, x, Cut(y - y0, size)) else 0.0
  }

  /** The pixel in row y and column x goes to its own block, and to no other */
  lemma ReceivedStep(c: Table, size: nat, row: nat, column: nat, x: nat, y: nat)
    requires size > 0
    ensures Received(c, size, row, column, x, y + 1)
            == Received(c, size, row, column, x, y)
               + if Block(y, size) == row && Block(x, size) == column then At(c, y, x) else 0.0
  {
    BlockIs(y, size, row);
    BlockIs(x, size, column);
    var y0 := Start(row, size);
    if y0 <= y < y0 + size {
      assert Cut(y + 1 - y0, size) == Cut(y - y0, size) + 1;
    } else {
      assert Cut(y + 1 - y0, size) == Cut(y - y0, size);
    }
  }

  /** A column that has reached the last row is done */
  lemma ReceivedColumn(c: Table, size: nat, row: nat, column: nat, x: nat, height: nat)
    requires size > 0 && Start(row, size) + size <= height
    ensures Received(c, size, row, column, x, height) == Received(c, size, row, column, x + 1, 0)
  {
    assert Cut(height - Start(row, size), size) == size;
    assert ColumnSum(c, Start(row, size), x + 1, 0) == 0.0;
  }

  lemma ReceivedEnds(c: Table, size: nat, row: nat, column: nat, width: nat)
    requires Start(column, size) + size <= width
    ensures Received(c, size, row, column, 0, 0) == 0.0
    ensures Received(c, size, row, column, width, 0) == BlockSum(c, Start(row, size), Start(column, size), size, size)
  {
  }

  /** Each pixel of image has received the shares c that the loop has handed out so far */
  predicate Accumulated(c: Table, image: Table, rows: nat, columns: nat, size: nat, x: nat, y: nat)
    requires size > 0
  {
    && IsTable(image, rows, columns)
    && forall row, column :: 0 <= row < rows && 0 <= column < columns ==>
         At(image, row, column) == Received(c, size, row, column, x, y)
  }

  /** Each pixel of image is the sum of the shares c over its block */
  predicate HoldsSums(c: Table, image: Table, rows: nat, columns: nat, size: nat)
    requires size > 0
  {
    && IsTable(image, rows, columns)
    && forall row, column :: 0 <= row < rows && 0 <= column < columns ==>
         At(image, row, column) == BlockSum(c, Start(row, size), Start(column, size), size, size)
  }

  lemma AccumulationStarts(c: Table, image: Table, rows: nat, columns: nat, size: nat)
    requires size > 0 && IsTable(image, rows, columns)
    requires forall row, column :: 0 <= row < rows && 0 <= column < columns ==> At(image, row, column) == 0.0
    ensures Accumulated(c, image, rows, columns, size, 0, 0)
  {
    forall row, column | 0 <= row < rows && 0 <= column < columns
      ensures At(image, row, column) == Received(c, size, row, column, 0, 0)
    {
      StartOrder(column, columns, size);
      ReceivedEnds(c, size, row, column, Start(columns, size));
    }
  }

  /** image has changed to after by the share of one pixel */
  predicate OneShareAdded(c: Table, image: Table, after: Table, rows: nat, columns: nat, size: nat, x: nat, y: nat)
    requires size > 0
  {
    && IsTable(after, rows, columns)
    && forall row, column :: 0 <= row < rows && 0 <= column < columns ==>
         At(after, row, column) == At(image, row, column)
           + if Block(y, size) == row && Block(x, size) == column then At(c, y, x) else 0.0
  }

  lemma AccumulationStep(c: Table, image: Table, after: Table, rows: nat, columns: nat, size: nat, x: nat, y: nat)
    requires size > 0 && Accumulated(c, image, rows, columns, size, x, y)
    requires OneShareAdded(c, image, after, rows, columns, size, x, y)
    ensures Accumulated(c, after, rows, columns, size, x, y + 1)
  {
    forall row, column | 0 <= row < rows && 0 <= column < columns
      ensures At(after, row, column) == Received(c, size, row, column, x, y + 1)
    {
      ReceivedStep(c, size, row, column, x, y);
    }
  }

  lemma AccumulationColumn(c: Table, image: Table, rows: nat, columns: nat, size: nat, x: nat)
    requires size > 0 && Accumulated(c, image, rows, columns, size, x, Start(rows, size))
    ensures Accumulated(c, image, rows, columns, size, x + 1, 0)
  {
    forall row, column | 0 <= row < rows && 0 <= column < columns
      ensures At(image, row, column) == Received(c, size, row, column, x + 1, 0)
    {
      StartOrder(row, rows, size);
      ReceivedColumn(c, size, row, column, x, Start(rows, size));
    }
  }

  lemma AccumulationEnds(c: Table, image: Table, rows: nat, columns: nat, size: nat)
    requires size > 0 && Accumulated(c, image, rows, columns, size, Start(columns, size), 0)
    ensures HoldsSums(c, image, rows, columns, size)
  {
    forall row, column | 0 <= row < rows && 0 <= column < columns
      ensures At(image, row, column) == BlockSum(c, Start(row, size), Start(column, size), size, size)
    {
      StartOrder(column, columns, size);
      ReceivedEnds(c, size, row, column, Start(columns, size));
    }
  }

  /** The number of pixels in a block: factor rows of factor */
  function Area(factor: nat): (a: nat)
    ensures factor > 0 ==> a > 0
  {
    Start(factor, factor)
  }

  lemma {:induction false} TimesOfTimes(m: nat, n: nat, v: real)
    ensures Times(m, Times(n, v)) == Times(Start(m, n), v)
  {
    if m > 0 {
      TimesOfTimes(m - 1, n, v);
      TimesOfSum(Start(m - 1, n), n, v);
    }
  }

  // ----- the pixels that scaling down addresses -----

  /** The pixel of the smaller image that pixel (y, x) is added to, by its place in memory */
  function Target(y: nat, x: nat, width: nat, factor: nat): int
    requires factor > 0
  {
    y / factor * (width / factor) + x / factor
  }

  /** Every pixel is added to one that the smaller image has, as the source demands without a check */
  ghost predicate StaysInside(height: nat, width: nat, factor: nat)
    requires factor > 0
  {
    forall y: nat, x: nat :: y < height && x < width ==>
      Target(y, x, width, factor) < height / factor * (width / factor)
  }

  lemma LastBlock(n: nat, factor: nat)
    requires n > 0 && factor > 0
    ensures (n - 1) / factor == if n % factor == 0 then n / factor - 1 else n / factor
  {
    var q, k := n / factor, n % factor;
    assert n == q * factor + k;
    if k == 0 {
      assert n - 1 == (q - 1) * factor + (factor - 1);
      QuotientIs(n - 1, factor, q - 1);
    } else {
      QuotientIs(n - 1, factor, q);
    }
  }

  lemma QuotientIs(n: nat, factor: nat, q: int)
    requires factor > 0 && q * factor <= n < q * factor + factor
    ensures n / factor == q
  {
    BlockIsQuotient(n, factor);
    if q >= 0 {
      StartIsProduct(q, factor);
      BlockIs(n, factor, q);
    }
  }

  lemma RowMajor(y: nat, x: nat, rows: nat, columns: nat)
    requires y < rows && x < columns
    ensures y * columns + x < rows * columns
  {
    assert (y + 1) * columns <= rows * columns;
  }

  /** That is so exactly for dimensions that are multiples of the factor, and for images without pixels */
  lemma StaysInsideExactly(height: nat, width: nat, factor: nat)
    requires factor > 0
    ensures StaysInside(height, width, factor)
            <==> height == 0 || width == 0 || (height % factor == 0 && width % factor == 0)
  {
    var rows, columns := height / factor, width / factor;
    if height > 0 && width > 0 {
      LastBlock(height, factor);
      LastBlock(width, factor);
      if height % factor == 0 && width % factor == 0 {
        forall y: nat, x: nat | y < height && x < width ensures Target(y, x, width, factor) < rows * columns {
          WholeBlocks(height, factor);
          WholeBlocks(width, factor);
          BlockWithin(y, factor, rows);
          BlockWithin(x, factor, columns);
          BlockIsQuotient(y, factor);
          BlockIsQuotient(x, factor);
          RowMajor(y / factor, x / factor, rows, columns);
        }
      } else {
        var y, x := (height - 1) / factor, (width - 1) / factor;
        assert Target(height - 1, width - 1, width, factor) == y * columns + x;
        assert height % factor == 0 ==> y * columns + x == (rows - 1) * columns + columns == rows * columns;
      }
    }
  }

  /** An image without pixels, or one that consists of so many rows and columns of blocks */
  predicate Consists(height: nat, width: nat, rows: nat, columns: nat, factor: nat) {
    if height == 0 || width == 0 then rows == 0 || columns == 0
    else height == Start(rows, factor) && width == Start(columns, factor)
  }

  lemma InsideConsists(height: nat, width: nat, factor: nat)
    requires factor > 0 && StaysInside(height, width, factor)
    ensures Consists(height, width, height / factor, width / factor, factor)
  {
    StaysInsideExactly(height, width, factor);
    if height > 0 && width > 0 {
      WholeBlocks(height, factor);
      WholeBlocks(width, factor);
    }
  }

  // ----- scaling down, doubles -----

  function Share(v: real, factor: nat): real
    requires factor > 0
  {
    v / factor as real / factor as real
  }

  /** What each pixel contributes to its block */
  function Shares(p: Table, factor: nat): (c: Table)
    requires factor > 0
    ensures forall y, x :: 0 <= y < |p| && 0 <= x < |p[y]| ==> At(c, y, x) == Share(At(p, y, x), factor)
  {
    seq(|p|, y requires 0 <= y < |p| => seq(|p[y]|, x requires 0 <= x < |p[y]| => Share(p[y][x], factor)))
  }

  method AddShare(orig: array2<real>, image: array2<real>, factor: nat, x: nat, y: nat, ghost c: Table)
    requires factor > 0 && orig != image && x < orig.Length1 && y < orig.Length0
    requires orig.Length0 == Start(image.Length0, factor) && orig.Length1 == Start(image.Length1, factor)
    requires c == Shares(TableOf(orig), factor)
    requires Accumulated(c, TableOf(image), image.Length0, image.Length1, factor, x, y)
    modifies image
    ensures c == Shares(TableOf(orig), factor)
            && Accumulated(c, TableOf(image), image.Length0, image.Length1, factor, x, y + 1)
  {
    ghost var before := TableOf(image);
    var xx, yy := BlockAt(x, factor, image.Length1), BlockAt(y, factor, image.Length0);
    image[yy, xx] := image[yy, xx] + Share(orig[y, x], factor);
    assert At(c, y, x) == Share(orig[y, x], factor);
    AccumulationStep(c, before, TableOf(image), image.Length0, image.Length1, factor, x, y);
  }

  /** One round of the outer loop: column x */
  method ShareColumn(orig: array2<real>, image: array2<real>, factor: nat, x: nat, ghost c: Table)
    requires factor > 0 && orig != image && x < orig.Length1
    requires orig.Length0 == Start(image.Length0, factor) && orig.Length1 == Start(image.Length1, factor)
    requires c == Shares(TableOf(orig), factor)
             && Accumulated(c, TableOf(image), image.Length0, image.Length1, factor, x, 0)
    modifies image
    ensures Accumulated(c, TableOf(image), image.Length0, image.Length1, factor, x + 1, 0)
  {
    var y := 0;
    while y < orig.Length0
      invariant 0 <= y <= orig.Length0
      invariant c == Shares(TableOf(orig), factor)
                && Accumulated(c, TableOf(image), image.Length0, image.Length1, factor, x, y)
    {
      AddShare(orig, image, factor, x, y, c);
      y := y + 1;
    }
    AccumulationColumn(c, TableOf(image), image.Length0, image.Length1, factor, x);
  }

  method ShareBlocks(orig: array2<real>, image: array2<real>, factor: nat)
    requires factor > 0 && orig != image
    requires orig.Length0 == Start(image.Length0, factor) && orig.Length1 == Start(image.Length1, factor)
    requires forall i, j :: 0 <= i < image.Length0 && 0 <= j < image.Length1 ==> image[i, j] == 0.0
    modifies image
    ensures HoldsSums(Shares(TableOf(orig), factor), TableOf(image), image.Length0, image.Length1, factor)
  {
    ghost var c := Shares(TableOf(orig), factor);
    AccumulationStarts(c, TableOf(image), image.Length0, image.Length1, factor);
    var x := 0;
    while x < orig.Length1
      invariant 0 <= x <= orig.Length1
      invariant c == Shares(TableOf(orig), factor)
                && Accumulated(c, TableOf(image), image.Length0, image.Length1, factor, x, 0)
    {
      ShareColumn(orig, image, factor, x, c);
      x := x + 1;
    }
    AccumulationEnds(c, TableOf(image), image.Length0, image.Length1, factor);
  }

  /** The smaller image, and the loops; they have nothing to do without pixels */
  method BlockSums(orig: array2<real>, rows: nat, columns: nat, factor: nat) returns (image: array2<real>)
    requires factor > 0 && Consists(orig.Length0, orig.Length1, rows, columns, factor)
    ensures fresh(image) && image.Length0 == rows && image.Length1 == columns
    ensures HoldsSums(Shares(TableOf(orig), factor), TableOf(image), rows, columns, factor)
  {
    image := new real[rows, columns]((y, x) => 0.0);
    if orig.Length0 > 0 && orig.Length1 > 0 {
      ShareBlocks(orig, image, factor);
    }
  }

  method Downscale(orig: array2<real>, factor: nat) returns (image: array2<real>)
    requires factor > 0 && StaysInside(orig.Length0, orig.Length1, factor)
    ensures fresh(image) && image.Length0 == orig.Length0 / factor && image.Length1 == orig.Length1 / factor
    ensures HoldsSums(Shares(TableOf(orig), factor), TableOf(image),
                      orig.Length0 / factor, orig.Length1 / factor, factor)
  {
    InsideConsists(orig.Length0, orig.Length1, factor);
    image := BlockSums(orig, orig.Length0 / factor, orig.Length1 / factor, factor);
  }

  lemma ShareOfAll(v: real, factor: nat)
    requires factor > 0
    ensures Times(factor, Times(factor, Share(v, factor))) == v
  {
    var k := factor as real;
    var w := v / k;
    assert Share(v, factor) == w / k;
    TimesIsProduct(factor, w / k);
    DivideAll(w, k);
    assert Times(factor, Share(v, factor)) == w;
    TimesIsProduct(factor, w);
    DivideAll(v, k);
    assert k * w == v;
    assert Times(factor, w) == v;
  }

  lemma DivideAll(v: real, k: real)
    requires k != 0.0
    ensures k * (v / k) == v
  {
  }

  /** A downscaled double pixel is the mean of its block: the area times it is the sum of the block */
  lemma DownscaleTakesMean(orig: Table, image: Table, rows: nat, columns: nat, factor: nat, row: nat, column: nat)
    requires factor > 0 && IsTable(orig, Start(rows, factor), Start(columns, factor))
    requires HoldsSums(Shares(orig, factor), image, rows, columns, factor) && row < rows && column < columns
    ensures Times(Area(factor), At(image, row, column))
            == BlockSum(orig, Start(row, factor), Start(column, factor), factor, factor)
  {
    var y0, x0 := Start(row, factor), Start(column, factor);
    StartOrder(row, rows, factor);
    StartOrder(column, columns, factor);
    forall y, x | y0 <= y < y0 + factor && x0 <= x < x0 + factor
      ensures Times(Area(factor), At(Shares(orig, factor), y, x)) == At(orig, y, x)
    {
      ShareOfAll(At(orig, y, x), factor);
      TimesOfTimes(factor, factor, Share(At(orig, y, x), factor));
    }
    BlockSandwich(Shares(orig, factor), orig, Area(factor), 0.0, y0, x0, factor, factor);
    TimesZero(factor);
  }

  /** Scaling down undoes scaling up */
  lemma DownscaleUndoesScale(orig: Table, large: Table, small: Table, height: nat, width: nat, factor: nat)
    requires factor > 0 && IsScaled(orig, large, height, width, factor)
    requires HoldsSums(Shares(large, factor), small, height, width, factor)
    ensures small == orig
  {
    forall row, column | 0 <= row < height && 0 <= column < width
      ensures At(small, row, column) == At(orig, row, column)
    {
      var y0, x0 := Start(row, factor), Start(column, factor);
      SharesOfBlock(orig, large, height, width, factor, row, column);
      BlockConstant(Shares(large, factor), y0, x0, factor, factor, Share(At(orig, row, column), factor));
      ShareOfAll(At(orig, row, column), factor);
    }
    SamePixels(small, orig, height, width);
  }

  lemma WholeMultiple(n: nat, factor: nat)
    requires factor > 0
    ensures n * factor % factor == 0 && n * factor / factor == n
  {
    StartIsProduct(n, factor);
    BlockIs(n * factor, factor, n);
    BlockIsQuotient(n * factor, factor);
  }

  /** image_downscale after image_scale, by the same factor */
  method ScaleAndBack(orig: array2<real>, factor: nat) returns (image: array2<real>)
    requires factor > 0
    ensures fresh(image) && image.Length0 == orig.Length0 && image.Length1 == orig.Length1
    ensures TableOf(image) == TableOf(orig)
  {
    WholeMultiple(orig.Length0, factor);
    WholeMultiple(orig.Length1, factor);
    var large := Scale(orig, factor);
    StaysInsideExactly(large.Length0, large.Length1, factor);
    image := Downscale(large, factor);
    DownscaleUndoesScale(TableOf(orig), TableOf(large), TableOf(image), orig.Length0, orig.Length1, factor);
  }

  lemma SharesOfBlock(orig: Table, large: Table, height: nat, width: nat, factor: nat, row: nat, column: nat)
    requires factor > 0 && IsScaled(orig, large, height, width, factor) && row < height && column < width
    ensures forall y, x :: Start(row, factor) <= y < Start(row, factor) + factor
                           && Start(column, factor) <= x < Start(column, factor) + factor ==>
              At(Shares(large, factor), y, x) == Share(At(orig, row, column), factor)
  {
    StartOrder(row, height, factor);
    StartOrder(column, width, factor);
    forall y, x | Start(row, factor) <= y < Start(row, factor) + factor
        && Start(column, factor) <= x < Start(column, factor) + factor
      ensures At(Shares(large, factor), y, x) == Share(At(orig, row, column), factor)
    {
      BlockIs(y, factor, row);
      BlockIs(x, factor, column);
      assert At(large, y, x) == At(orig, row, column);
    }
  }

  // ----- scaling down, 16-bit pixels -----

  function WordShare(v: Word, factor: nat): (s: Word)
    requires factor > 0
  {
    ShareOrder(v, factor);
    v / factor / factor
  }

  /** The shares of 16-bit pixels, both divisions truncating */
  ghost function WordShares(a: array2<Word>, factor: nat): (c: Table)
    requires factor > 0
    reads a
    ensures IsTable(c, a.Length0, a.Length1)
    ensures forall y, x :: 0 <= y < a.Length0 && 0 <= x < a.Length1 ==>
            At(c, y, x) == WordShare(a[y, x], factor) as real
  {
    seq(a.Length0, y requires 0 <= y < a.Length0 reads a =>
      seq(a.Length1, x requires 0 <= x < a.Length1 reads a => WordShare(a[y, x], factor) as real))
  }

  /** Dividing twice by f loses at most f * f - 1 */
  lemma WordShareLoss(v: nat, factor: nat)
    requires factor > 0
    ensures v - (factor * factor - 1) <= factor * factor * (v / factor / factor) <= v
  {
    LossOfTwo(v, factor, v / factor, v / factor / factor, v % factor, v / factor % factor);
  }

  lemma LossOfTwo(v: nat, f: nat, w: nat, s: nat, r: nat, t: nat)
    requires v == f * w + r && w == f * s + t && r < f && t < f
    ensures f * f * s <= v <= f * f * s + (f * f - 1)
  {
    DistributeWhole(f, f * s, t);
    Associate(f, f, s);
    OrderWhole(f, t, f - 1);
    DistributeWhole(f, f - 1, 1);
  }

  lemma DistributeWhole(k: int, a: int, b: int)
    ensures k * (a + b) == k * a + k * b
  {
  }

  lemma Associate(a: int, b: int, c: int)
    ensures a * (b * c) == a * b * c
  {
  }

  lemma OrderWhole(k: nat, a: nat, b: nat)
    requires a <= b
    ensures 0 <= k * a <= k * b
  {
  }

  /** The shares of a block of 16-bit pixels, whole or in part, never exceed 2^16 - 1 */
  lemma SharesFit(orig: array2<Word>, factor: nat, row: nat, column: nat, x: nat, y: nat)
    requires factor > 0
    ensures 0.0 <= Received(WordShares(orig, factor), factor, row, column, x, y) <= 65535.0
  {
    var c := WordShares(orig, factor);
    var most := (65535 / factor / factor) as real;
    forall i, j ensures 0.0 <= At(c, i, j) <= most {
      if 0 <= i < orig.Length0 && 0 <= j < orig.Length1 {
        ShareOrder(orig[i, j], factor);
      } else {
        ShareOrder(0, factor);
      }
    }
    PartBound(c, factor, row, column, x, y, most);
    MostFits(factor);
  }

  lemma ShareOrder(v: Word, factor: nat)
    requires factor > 0
    ensures 0 <= v / factor / factor <= 65535 / factor / factor <= 65535
  {
    Monotone(v, 65535, factor);
    Monotone(v / factor, 65535 / factor, factor);
    WordShareLoss(65535, factor);
  }

  lemma Monotone(a: nat, b: nat, d: nat)
    requires d > 0 && a <= b
    ensures 0 <= a / d <= b / d
  {
    BlockIsQuotient(a, d);
    BlockIsQuotient(b, d);
    BlockHolds(a, d);
    BlockHolds(b, d);
    if Block(b, d) < Block(a, d) {
      StartOrder(Block(b, d), Block(a, d), d);
    }
  }

  lemma MostFits(factor: nat)
    requires factor > 0
    ensures Times(factor, Times(factor, (65535 / factor / factor) as real)) <= 65535.0
  {
    WordShareLoss(65535, factor);
    var s := 65535 / factor / factor;
    Associate(factor, factor, s);
    TimesWhole(factor, s);
    TimesWhole(factor, factor * s);
  }

  lemma PartBound(c: Table, size: nat, row: nat, column: nat, x: nat, y: nat, most: real)
    requires forall i, j :: 0.0 <= At(c, i, j) <= most
    ensures 0.0 <= Received(c, size, row, column, x, y) <= Times(size, Times(size, most))
  {
    var y0, x0 := Start(row, size), Start(column, size);
    var n, m := Cut(x - x0, size), Cut(y - y0, size);
    assert At(c, -1, -1) == 0.0;
    BlockBound(c, y0, x0, size, n, most);
    ColumnBound(c, y0, x, m, most);
    TimesOrder(m, size, most);
    if x0 <= x < x0 + size {
      TimesOrder(n + 1, size, Times(size, most));
    } else {
      TimesOrder(n, size, Times(size, most));
    }
  }

  method AddWordShare(orig: array2<Word>, image: array2<Word>, factor: nat, x: nat, y: nat, ghost c: Table)
    requires factor > 0 && orig != image && x < orig.Length1 && y < orig.Length0
    requires orig.Length0 == Start(image.Length0, factor) && orig.Length1 == Start(image.Length1, factor)
    requires c == WordShares(orig, factor)
    requires Accumulated(c, WordTable(image), image.Length0, image.Length1, factor, x, y)
    modifies image
    ensures c == WordShares(orig, factor)
            && Accumulated(c, WordTable(image), image.Length0, image.Length1, factor, x, y + 1)
  {
    ghost var before := WordTable(image);
    var xx, yy := BlockAt(x, factor, image.Length1), BlockAt(y, factor, image.Length0);
    ReceivedStep(c, factor, yy, xx, x, y);
    SharesFit(orig, factor, yy, xx, x, y + 1);
    assert At(before, yy, xx) == image[yy, xx] as real;
    image[yy, xx] := WrappingAdd(image[yy, xx], WordShare(orig[y, x], factor));
    AccumulationStep(c, before, WordTable(image), image.Length0, image.Length1, factor, x, y);
  }

  /** One round of the outer loop: column x */
  method WordShareColumn(orig: array2<Word>, image: array2<Word>, factor: nat, x: nat, ghost c: Table)
    requires factor > 0 && orig != image && x < orig.Length1
    requires orig.Length0 == Start(image.Length0, factor) && orig.Length1 == Start(image.Length1, factor)
    requires c == WordShares(orig, factor)
             && Accumulated(c, WordTable(image), image.Length0, image.Length1, factor, x, 0)
    modifies image
    ensures Accumulated(c, WordTable(image), image.Length0, image.Length1, factor, x + 1, 0)
  {
    var y := 0;
    while y < orig.Length0
      invariant 0 <= y <= orig.Length0
      invariant c == WordShares(orig, factor)
                && Accumulated(c, WordTable(image), image.Length0, image.Length1, factor, x, y)
    {
      AddWordShare(orig, image, factor, x, y, c);
      y := y + 1;
    }
    AccumulationColumn(c, WordTable(image), image.Length0, image.Length1, factor, x);
  }

  method WordShareBlocks(orig: array2<Word>, image: array2<Word>, factor: nat)
    requires factor > 0 && orig != image
    requires orig.Length0 == Start(image.Length0, factor) && orig.Length1 == Start(image.Length1, factor)
    requires forall i, j :: 0 <= i < image.Length0 && 0 <= j < image.Length1 ==> image[i, j] == 0
    modifies image
    ensures HoldsSums(WordShares(orig, factor), WordTable(image), image.Length0, image.Length1, factor)
  {
    ghost var c := WordShares(orig, factor);
    AccumulationStarts(c, WordTable(image), image.Length0, image.Length1, factor);
    var x := 0;
    while x < orig.Length1
      invariant 0 <= x <= orig.Length1
      invariant c == WordShares(orig, factor)
                && Accumulated(c, WordTable(image), image.Length0, image.Length1, factor, x, 0)
    {
      WordShareColumn(orig, image, factor, x, c);
      x := x + 1;
    }
    AccumulationEnds(c, WordTable(image), image.Length0, image.Length1, factor);
  }

  /** The smaller image, and the loops; they have nothing to do without pixels */
  method WordBlockSums(orig: array2<Word>, rows: nat, columns: nat, factor: nat) returns (image: array2<Word>)
    requires factor > 0 && Consists(orig.Length0, orig.Length1, rows, columns, factor)
    ensures fresh(image) && image.Length0 == rows && image.Length1 == columns
    ensures HoldsSums(WordShares(orig, factor), WordTable(image), rows, columns, factor)
  {
    image := new Word[rows, columns]((y, x) => 0);
    if orig.Length0 > 0 && orig.Length1 > 0 {
      WordShareBlocks(orig, image, factor);
    }
  }

  /** No addition wraps around: the result holds the sums of the shares as numbers */
  method DownscaleWords(orig: array2<Word>, factor: nat) returns (image: array2<Word>)
    requires factor > 0 && StaysInside(orig.Length0, orig.Length1, factor)
    ensures fresh(image) && image.Length0 == orig.Length0 / factor && image.Length1 == orig.Length1 / factor
    ensures HoldsSums(WordShares(orig, factor), WordTable(image), orig.Length0 / factor, orig.Length1 / factor, factor)
  {
    InsideConsists(orig.Length0, orig.Length1, factor);
    image := WordBlockSums(orig, orig.Length0 / factor, orig.Length1 / factor, factor);
  }

  /** Each downscaled pixel is at most the mean of its block, and short of it by less than the area */
  lemma WordsNearBlockMean(orig: array2<Word>, image: Table, rows: nat, columns: nat, factor: nat, row: nat,
      column: nat)
    requires factor > 0 && orig.Length0 == Start(rows, factor) && orig.Length1 == Start(columns, factor)
    requires HoldsSums(WordShares(orig, factor), image, rows, columns, factor) && row < rows && column < columns
    ensures var mean := BlockSum(WordTable(orig), Start(row, factor), Start(column, factor), factor,
            factor) / Area(factor) as real;
            mean - (Area(factor) - 1) as real <= At(image, row, column) <= mean
  {
    var y0, x0 := Start(row, factor), Start(column, factor);
    var c, p := WordShares(orig, factor), WordTable(orig);
    var loss := (Area(factor) - 1) as real;
    StartOrder(row, rows, factor);
    StartOrder(column, columns, factor);
    forall y, x | y0 <= y < y0 + factor && x0 <= x < x0 + factor
      ensures At(p, y, x) - loss <= Times(Area(factor), At(c, y, x)) <= At(p, y, x)
    {
      ShareLoss(orig[y, x], factor);
    }
    BlockSandwich(c, p, Area(factor), loss, y0, x0, factor, factor);
    TimesOfTimes(factor, factor, loss);
    MeanBound(BlockSum(p, y0, x0, factor, factor), At(image, row, column), Area(factor), loss);
  }

  lemma ShareLoss(v: Word, factor: nat)
    requires factor > 0
    ensures v as real - (Area(factor) - 1) as real <= Times(Area(factor), WordShare(v, factor) as real) <= v as real
  {
    WordShareLoss(v, factor);
    StartIsProduct(factor, factor);
    TimesWhole(factor * factor, WordShare(v, factor));
  }

  lemma TimesWhole(k: nat, v: nat)
    ensures Times(k, v as real) == (k * v) as real
  {
    TimesIsProduct(k, v as real);
    assert (k * v) as real == k as real * v as real;
  }

  lemma MeanBound(sum: real, v: real, area: nat, e: real)
    requires area > 0 && sum - Times(area, e) <= Times(area, v) <= sum
    ensures sum / area as real - e <= v <= sum / area as real
  {
    TimesIsProduct(area, v);
    TimesIsProduct(area, e);
    DivideBounds(sum, v, area as real, e);
  }

  lemma DivideBounds(sum: real, v: real, k: real, e: real)
    requires k > 0.0 && sum - k * e <= k * v <= sum
    ensures sum / k - e <= v <= sum / k
  {
    DivideAll(sum, k);
    assert k * (sum / k - e) == k * (sum / k) - k * e;
    ProductOrder(sum / k - e, v, k);
    ProductOrder(v, sum / k, k);
  }

  lemma ProductOrder(a: real, b: real, k: real)
    requires k > 0.0 && k * a <= k * b
    ensures a <= b
  {
    assert k * (b - a) >= 0.0;
  }
}
