/**
  The region of interest and the flux of fast.c, and their relation to sums of frames. Doubles
  are modelled as reals; a 16-bit frame enters as its pixel values, which get_flux and image_add
  take over as doubles.
*/
module RegionFlux {

  import opened Pixels

  // ----- flux over a region -----

  datatype Region = Region(x1: int, y1: int, x2: int, y2: int)

  /** The test of process_image, which takes 0 for y1 and y2, though not for x1 and x2, to be out of range */
  predicate Rejected(r: Region, height: nat, width: nat) {
    r.x1 < 0 || r.x1 >= width || r.y1 <= 0 || r.y1 >= height ||
    r.x2 < 0 || r.x2 >= width || r.y2 <= 0 || r.y2 >= height
  }

  function WholeFrame(height: nat, width: nat): Region {
    Region(0, 0, width - 1, height - 1)
  }

  function RegionInForce(r: Region, height: nat, width: nat): (q: Region)
    ensures Within(q, height, width)
  {
    if Rejected(r, height, width) then WholeFrame(height, width) else r
  }

  /** All pixels of the region, if it has any, are in the image */
  predicate Within(r: Region, height: nat, width: nat) {
    0 <= r.x1 && r.x2 < width && 0 <= r.y1 && r.y2 < height
  }

  /** Once in force, a region stays in force while frames keep their size, even if it is rejected again */
  lemma RegionStays(r: Region, height: nat, width: nat)
    ensures RegionInForce(RegionInForce(r, height, width), height, width) == RegionInForce(r, height, width)
  {
  }

  /** The number of positions from a to b, both included */
  function Span(a: int, b: int): nat {
    if a <= b then b - a + 1 else 0
  }

  /** A pixel less the dark frame, if any, times the number of frames that were added up */
  function Net(p: Table, dark: seq<Table>, length: int, y: int, x: int): real {
    At(p, y, x) - if |dark| == 0 then 0.0 else At(dark[0], y, x) * length as real
  }

  function NetRow(p: Table, dark: seq<Table>, length: int, y: int, x1: int, n: nat): real {
    if n == 0 then 0.0 else NetRow(p, dark, length, y, x1, n - 1) + Net(p, dark, length, y, x1 + n - 1)
  }

  function NetRows(p: Table, dark: seq<Table>, length: int, y1: int, x1: int, m: nat, n: nat): real {
    if m == 0 then 0.0 else NetRows(p, dark, length, y1, x1, m - 1, n) + NetRow(p, dark, length, y1 + m - 1, x1, n)
  }

  function Flux(p: Table, dark: seq<Table>, length: int, r: Region): real {
    NetRows(p, dark, length, r.y1, r.x1, Span(r.y1, r.y2), Span(r.x1, r.x2))
  }

  // ----- flux is a sum of pixels -----

  lemma {:induction false} RowFlux(p: Table, dark: seq<Table>, length: nat, y: int, x1: int, n: nat)
    requires |dark| <= 1
    ensures |dark| == 0 ==> NetRow(p, dark, length, y, x1, n) == RowSum(p, y, x1, n)
    ensures |dark| == 1 ==>
              NetRow(p, dark, length, y, x1, n) + Times(length, RowSum(dark[0], y, x1, n)) == RowSum(p, y, x1, n)
  {
    if n > 0 {
      RowFlux(p, dark, length, y, x1, n - 1);
      if |dark| == 1 {
        TimesIsProduct(length, At(dark[0], y, x1 + n - 1));
        TimesAdds(length, RowSum(dark[0], y, x1, n - 1), At(dark[0], y, x1 + n - 1));
      }
    } else {
      TimesZero(length);
    }
  }

  lemma {:induction false} RowsFlux(p: Table, dark: seq<Table>, length: nat, y1: int, x1: int, m: nat, n: nat)
    requires |dark| <= 1
    ensures |dark| == 0 ==> NetRows(p, dark, length, y1, x1, m, n) == BlockSum(p, y1, x1, m, n)
    ensures |dark| == 1 ==>
              NetRows(p, dark, length, y1, x1, m, n) + Times(length, BlockSum(dark[0], y1, x1, m, n))
              == BlockSum(p, y1, x1, m, n)
  {
    if m > 0 {
      RowsFlux(p, dark, length, y1, x1, m - 1, n);
      RowFlux(p, dark, length, y1 + m - 1, x1, n);
      BlockGrowsByRow(p, y1, x1, m - 1, n);
      if |dark| == 1 {
        BlockGrowsByRow(dark[0], y1, x1, m - 1, n);
        TimesAdds(length, BlockSum(dark[0], y1, x1, m - 1, n), RowSum(dark[0], y1 + m - 1, x1, n));
      }
    } else {
      EmptyBlock(p, y1, x1, n);
      if |dark| == 1 {
        EmptyBlock(dark[0], y1, x1, n);
        TimesZero(length);
      }
    }
  }

  /** The sum of the pixels of a region */
  function RegionSum(p: Table, r: Region): real {
    BlockSum(p, r.y1, r.x1, Span(r.y1, r.y2), Span(r.x1, r.x2))
  }

  /**
    Without a dark frame the flux is the sum of the pixels; with one it falls short of it by that
    of so many dark frames
  */
  lemma FluxIsSum(p: Table, dark: seq<Table>, length: nat, r: Region)
    requires |dark| <= 1
    ensures |dark| == 0 ==> Flux(p, dark, length, r) == BlockSum(p, r.y1, r.x1, Span(r.y1, r.y2), Span(r.x1, r.x2))
    ensures |dark| == 1 ==>
              Flux(p, dark, length, r)
                  + Times(length, BlockSum(dark[0], r.y1, r.x1, Span(r.y1, r.y2), Span(r.x1, r.x2)))
              == BlockSum(p, r.y1, r.x1, Span(r.y1, r.y2), Span(r.x1, r.x2))
  {
    RowsFlux(p, dark, length, r.y1, r.x1, Span(r.y1, r.y2), Span(r.x1, r.x2));
  }

  /** A number of dark frames, added up, have flux 0 in every region */
  lemma DarkFramesAreDark(p: Table, d: Table, n: nat, r: Region)
    requires forall y, x :: At(p, y, x) == Times(n, At(d, y, x))
    ensures Flux(p, [d], n, r) == 0.0
  {
    var rows, columns := Span(r.y1, r.y2), Span(r.x1, r.x2);
    FluxIsSum(p, [d], n, r);
    BlockSandwich(d, p, n, 0.0, r.y1, r.x1, rows, columns);
    TimesZero(rows);
    TimesZero(columns);
  }

  // ----- flux is additive -----

  lemma NetAdds(p: Table, q: Table, s: Table, dark: seq<Table>, k: int, l: int, y: int, x: int)
    requires At(s, y, x) == At(p, y, x) + At(q, y, x)
    ensures Net(s, dark, k + l, y, x) == Net(p, dark, k, y, x) + Net(q, dark, l, y, x)
  {
    if |dark| != 0 {
      var d := At(dark[0], y, x);
      assert d * (k + l) as real == d * k as real + d * l as real;
    }
  }

  lemma {:induction false} NetRowAdds(p: Table, q: Table, s: Table, dark: seq<Table>, k: int, l: int, y: int, x1: int,
      n: nat)
    requires forall x :: At(s, y, x) == At(p, y, x) + At(q, y, x)
    ensures NetRow(s, dark, k + l, y, x1, n) == NetRow(p, dark, k, y, x1, n) + NetRow(q, dark, l, y, x1, n)
  {
    if n > 0 {
      NetRowAdds(p, q, s, dark, k, l, y, x1, n - 1);
      NetAdds(p, q, s, dark, k, l, y, x1 + n - 1);
    }
  }

  lemma {:induction false} NetRowsAdd(p: Table, q: Table, s: Table, dark: seq<Table>, k: int, l: int, y1: int, x1: int,
      m: nat, n: nat)
    requires forall y, x :: At(s, y, x) == At(p, y, x) + At(q, y, x)
    ensures NetRows(s, dark, k + l, y1, x1, m, n)
            == NetRows(p, dark, k, y1, x1, m, n) + NetRows(q, dark, l, y1, x1, m, n)
  {
    if m > 0 {
      NetRowsAdd(p, q, s, dark, k, l, y1, x1, m - 1, n);
      NetRowAdds(p, q, s, dark, k, l, y1 + m - 1, x1, n);
    }
  }

  // ----- the region that was asked for -----

  /** A region with all its corners in the image */
  predicate InFrame(r: Region, height: nat, width: nat) {
    0 <= r.x1 < width && 0 <= r.x2 < width && 0 <= r.y1 < height && 0 <= r.y2 < height
  }

  /**
    A region is kept exactly when it is in the image and neither of its ends is in row 0, or it is
    the whole frame anyway; any other is replaced by the whole frame.
  */
  lemma RegionKeptExactly(r: Region, height: nat, width: nat)
    ensures RegionInForce(r, height, width) == r
            <==> (InFrame(r, height, width) && r.y1 > 0 && r.y2 > 0) || r == Region(0, 0, width - 1, height - 1)
    ensures RegionInForce(r, height, width) == r
            || RegionInForce(r, height, width) == Region(0, 0, width - 1, height - 1)
  {
  }

  lemma RegionAtTopIsLost()
    ensures RegionInForce(Region(1, 0, 3, 4), 10, 10) == Region(0, 0, 9, 9)
  {
  }

  /** Whatever the frame, the flux reported is that of the region asked for */
  ghost predicate ReportsAsAsked(r: Region, dark: seq<Table>, height: nat, width: nat) {
    forall p: Table :: IsTable(p, height, width) ==>
        Flux(p, dark, 1, RegionInForce(r, height, width)) == Flux(p, dark, 1, r)
  }

  /** A frame with one bright pixel */
  function Spot(height: nat, width: nat, y: nat, x: nat): (p: Table)
    ensures IsTable(p, height, width)
    ensures forall i, j :: At(p, i, j) == if i == y < height && j == x < width then 1.0 else 0.0
  {
    seq(height, i => seq(width, j => if i == y && j == x then 1.0 else 0.0))
  }

  lemma {:induction false} SpotRow(height: nat, width: nat, y: nat, x: nat, dark: seq<Table>, row: int, x1: int, n: nat)
    requires y < height && x < width
    ensures NetRow(Spot(height, width, y, x), dark, 0, row, x1, n) == if row == y && x1 <= x < x1 + n then 1.0 else 0.0
  {
    if n > 0 {
      SpotRow(height, width, y, x, dark, row, x1, n - 1);
    }
  }

  lemma {:induction false} SpotRows(height: nat, width: nat, y: nat, x: nat, dark: seq<Table>, y1: int, x1: int,
      m: nat, n: nat)
    requires y < height && x < width
    ensures NetRows(Spot(height, width, y, x), dark, 0, y1, x1, m, n)
            == if y1 <= y < y1 + m && x1 <= x < x1 + n then 1.0 else 0.0
  {
    if m > 0 {
      SpotRows(height, width, y, x, dark, y1, x1, m - 1, n);
      SpotRow(height, width, y, x, dark, y1 + m - 1, x1, n);
    }
  }

  /** One bright pixel more in a dark frame shows in the flux of exactly the regions that it is in */
  lemma SpotShows(height: nat, width: nat, y: nat, x: nat, dark: seq<Table>, r: Region)
    requires y < height && x < width
    ensures Flux(Spot(height, width, y, x), dark, 1, r)
            == Flux(Spot(height, width, height, width), dark, 1, r)
               + if r.y1 <= y <= r.y2 && r.x1 <= x <= r.x2 then 1.0 else 0.0
  {
    var none, one := Spot(height, width, height, width), Spot(height, width, y, x);
    NetRowsAdd(none, one, one, dark, 1, 0, r.y1, r.x1, Span(r.y1, r.y2), Span(r.x1, r.x2));
    SpotRows(height, width, y, x, dark, r.y1, r.x1, Span(r.y1, r.y2), Span(r.x1, r.x2));
  }

  /**
    The client that asks for a region in the image gets its flux reported, for every frame and
    every dark frame, exactly when the region is kept; otherwise there are frames for which the
    flux reported, that of the whole frame, is another one.
  */
  lemma AskedFluxExactly(r: Region, dark: seq<Table>, height: nat, width: nat)
    requires InFrame(r, height, width)
    ensures ReportsAsAsked(r, dark, height, width) <==> (r.y1 > 0 && r.y2 > 0) || r == WholeFrame(height, width)
  {
    RegionKeptExactly(r, height, width);
    var whole := WholeFrame(height, width);
    if RegionInForce(r, height, width) != r {
      var y, x := if r.y2 < height - 1 then height - 1 else 0, if r.x2 < width - 1 then width - 1 else 0;
      assert !(r.y1 <= y <= r.y2 && r.x1 <= x <= r.x2);
      SpotShows(height, width, y, x, dark, r);
      SpotShows(height, width, y, x, dark, whole);
      var none, one := Spot(height, width, height, width), Spot(height, width, y, x);
      assert !(Flux(none, dark, 1, whole) == Flux(none, dark, 1, r)
             && Flux(one, dark, 1, whole) == Flux(one, dark, 1, r));
    }
  }

  // ----- sums of frames -----

  /** A frame as it was taken, with the region and the dark frame then in force */
  datatype Taken = Taken(pixels: Table, height: nat, width: nat, exposure: real, region: Region, dark: seq<Table>)

  predicate AllOfSize(frames: seq<Taken>, height: nat, width: nat) {
    forall i :: 0 <= i < |frames| ==>
      frames[i].height == height && frames[i].width == width && IsTable(frames[i].pixels, height, width)
  }

  function SumAt(frames: seq<Taken>, y: int, x: int): real {
    if frames == [] then 0.0
    else SumAt(frames[..|frames| - 1], y, x) + At(frames[|frames| - 1].pixels, y, x)
  }

  lemma SumAtMore(frames: seq<Taken>, t: Taken, y: int, x: int)
    ensures SumAt(frames + [t], y, x) == SumAt(frames, y, x) + At(t.pixels, y, x)
  {
    assert (frames + [t])[..|frames|] == frames;
  }

  /** The pointwise sum of frames of one size */
  function SumTable(frames: seq<Taken>, height: nat, width: nat): (p: Table)
    ensures IsTable(p, height, width)
    ensures forall y, x :: 0 <= y < height && 0 <= x < width ==> At(p, y, x) == SumAt(frames, y, x)
  {
    seq(height, y => seq(width, x => SumAt(frames, y, x)))
  }

  lemma {:induction false} SumOutside(frames: seq<Taken>, height: nat, width: nat, y: int, x: int)
    requires AllOfSize(frames, height, width) && !(0 <= y < height && 0 <= x < width)
    ensures SumAt(frames, y, x) == 0.0
  {
    if frames != [] {
      SumOutside(frames[..|frames| - 1], height, width, y, x);
    }
  }

  lemma SumTableAt(frames: seq<Taken>, height: nat, width: nat, y: int, x: int)
    requires AllOfSize(frames, height, width)
    ensures At(SumTable(frames, height, width), y, x) == SumAt(frames, y, x)
  {
    if !(0 <= y < height && 0 <= x < width) {
      SumOutside(frames, height, width, y, x);
    }
  }

  /** What the source reported for the frame when it took it */
  function OwnFlux(t: Taken): real {
    Flux(t.pixels, t.dark, 1, t.region)
  }

  function OwnFluxes(frames: seq<Taken>): real {
    if frames == [] then 0.0 else OwnFluxes(frames[..|frames| - 1]) + OwnFlux(frames[|frames| - 1])
  }

  function Exposures(frames: seq<Taken>): real {
    if frames == [] then 0.0 else Exposures(frames[..|frames| - 1]) + frames[|frames| - 1].exposure
  }

  lemma ExposuresAdd(frames: seq<Taken>, t: Taken)
    ensures Exposures([]) == 0.0 && Exposures(frames + [t]) == Exposures(frames) + t.exposure
  {
    assert (frames + [t])[..|frames|] == frames;
  }

  /** All frames were taken with this region and this dark frame in force */
  predicate AllUnder(frames: seq<Taken>, dark: seq<Table>, r: Region) {
    forall i :: 0 <= i < |frames| ==> frames[i].dark == dark && frames[i].region == r
  }

  lemma {:induction false} EmptyRows(p: Table, dark: seq<Table>, y1: int, x1: int, m: nat, n: nat)
    requires forall y, x :: At(p, y, x) == 0.0
    ensures NetRows(p, dark, 0, y1, x1, m, n) == 0.0
  {
    if m > 0 {
      EmptyRows(p, dark, y1, x1, m - 1, n);
      EmptyRow(p, dark, y1 + m - 1, x1, n);
    }
  }

  lemma {:induction false} EmptyRow(p: Table, dark: seq<Table>, y: int, x1: int, n: nat)
    requires forall x :: At(p, y, x) == 0.0
    ensures NetRow(p, dark, 0, y, x1, n) == 0.0
  {
    if n > 0 {
      EmptyRow(p, dark, y, x1, n - 1);
    }
  }

  /** The flux of a window is the sum of the fluxes of its frames, while region, dark frame and size stay the same */
  lemma {:induction false} WindowFlux(frames: seq<Taken>, height: nat, width: nat, dark: seq<Table>, r: Region)
    requires AllOfSize(frames, height, width) && AllUnder(frames, dark, r)
    ensures Flux(SumTable(frames, height, width), dark, |frames|, r) == OwnFluxes(frames)
  {
    var s := SumTable(frames, height, width);
    var m, n := Span(r.y1, r.y2), Span(r.x1, r.x2);
    forall y, x ensures At(s, y, x) == SumAt(frames, y, x) {
      SumTableAt(frames, height, width, y, x);
    }
    if frames == [] {
      EmptyRows(s, dark, r.y1, r.x1, m, n);
    } else {
      var front, last := frames[..|frames| - 1], frames[|frames| - 1];
      WindowFlux(front, height, width, dark, r);
      forall y, x ensures At(s, y, x) == At(SumTable(front, height, width), y, x) + At(last.pixels, y, x) {
        SumTableAt(front, height, width, y, x);
      }
      NetRowsAdd(SumTable(front, height, width), last.pixels, s, dark, |front|, 1, r.y1, r.x1, m, n);
    }
  }
}
