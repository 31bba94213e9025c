/**
  The cumulative and the running image of fast.c, updated in place, with image_add of image.c.
  Doubles are modelled as reals, time stamps are in milliseconds. The dark frame is an array of
  its pixels row after row, since get_flux addresses it as if it had the width of the frame.
*/
module Accumulation {

  import opened Pixels
  import opened RegionFlux
  import opened Windows
  import opened Wrappers

  /** A frame: its pixels, its time and its EXPOSURE keyword */
  datatype Frame = Frame(pixels: array2<real>, time: int, exposure: real)

  ghost predicate IsSumOf(a: array2<real>, frames: seq<Taken>)
    reads a
  {
    && AllOfSize(frames, a.Length0, a.Length1)
    && forall y, x :: 0 <= y < a.Length0 && 0 <= x < a.Length1 ==> a[y, x] == SumAt(frames, y, x)
  }

  /** The frame whose pixels are these */
  ghost predicate IsOf(t: Taken, pixels: array2<real>)
    reads pixels
  {
    t.pixels == TableOf(pixels) && t.height == pixels.Length0 && t.width == pixels.Length1
  }

  lemma SumIsTable(a: array2<real>, frames: seq<Taken>)
    requires IsSumOf(a, frames)
    ensures TableOf(a) == SumTable(frames, a.Length0, a.Length1)
  {
    SamePixels(TableOf(a), SumTable(frames, a.Length0, a.Length1), a.Length0, a.Length1);
  }

  /** image_add for images of one size */
  method ImageAdd(image: array2<real>, second: array2<real>, ghost frames: seq<Taken>, ghost t: Taken)
    requires second.Length0 == image.Length0 && second.Length1 == image.Length1 && second != image
    requires IsSumOf(image, frames) && IsOf(t, second)
    modifies image
    ensures forall y, x :: 0 <= y < image.Length0 && 0 <= x < image.Length1 ==>
            image[y, x] == old(image[y, x]) + second[y, x]
    ensures IsSumOf(image, frames + [t])
  {
    var y := 0;
    while y < image.Length0
      invariant 0 <= y <= image.Length0
      invariant forall i, j :: 0 <= i < image.Length0 && 0 <= j < image.Length1 ==>
                  image[i, j] == if i < y then old(image[i, j]) + second[i, j] else old(image[i, j])
    {
      var x := 0;
      while x < image.Length1
        invariant 0 <= x <= image.Length1
        invariant forall i, j :: 0 <= i < image.Length0 && 0 <= j < image.Length1 ==>
                    image[i, j] ==
                      if i < y || (i == y && j < x) then old(image[i, j]) + second[i, j] else old(image[i, j])
      {
        image[y, x] := image[y, x] + second[y, x];
        x := x + 1;
      }
      y := y + 1;
    }
    forall i, j | 0 <= i < image.Length0 && 0 <= j < image.Length1 ensures image[i, j] == SumAt(frames + [t], i, j) {
      SumAtMore(frames, t, i, j);
      assert second[i, j] == At(t.pixels, i, j);
    }
  }

  /** A new image, all pixels 0 */
  method NewSum(height: nat, width: nat) returns (a: array2<real>)
    ensures fresh(a) && a.Length0 == height && a.Length1 == width && IsSumOf(a, [])
  {
    a := new real[height, width]((y, x) => 0.0);
  }

  /** An image to which frames are added; the time and the exposure are those of the first one */
  class Accumulator {
    var image: array2?<real>
    var time: int
    var firstExposure: real
    var length: int
    var exposure: real
    ghost var frames: seq<Taken>

    /** If there is an image, it is the sum of the frames, of which there is at least one, and length counts them */
    ghost predicate Valid()
      reads this, image
    {
      image != null ==> Holds() && |frames| >= 1
    }

    ghost predicate Holds()
      requires image != null
      reads this, image
    {
      IsSumOf(image, frames) && length == |frames| && exposure == Exposures(frames)
    }

    ghost function Abstract(): Sum
      reads this
    {
      if image == null then Empty else Frames(image.Length0, image.Length1, frames, time, firstExposure)
    }

    constructor ()
      ensures Valid() && image == null
    {
      image, length, exposure, frames := null, 0, 0.0, [];
    }

    /** The reset on a new frame size, and the start from a zero image */
    method Prepare(frame: Frame)
      requires Valid()
      modifies this
      ensures image != null && image.Length0 == frame.pixels.Length0 && image.Length1 == frame.pixels.Length1 && Holds()
      ensures image == old(image) || fresh(image)
      ensures if old(image) != null && old(image.Length0) == frame.pixels.Length0
              && old(image.Length1) == frame.pixels.Length1
              then frames == old(frames) && time == old(time) && firstExposure == old(firstExposure)
              else frames == [] && time == frame.time && firstExposure == frame.exposure
    {
      var height, width := frame.pixels.Length0, frame.pixels.Length1;
      if image != null && (image.Length0 != height || image.Length1 != width) {
        image := null;
      }
      if image == null {
        image := NewSum(height, width);
        time, firstExposure := frame.time, frame.exposure;
        length, exposure, frames := 0, 0.0, [];
      }
    }

    /** One more frame, after a new start if there is no image of its size */
    method Append(frame: Frame, ghost t: Taken)
      requires Valid() && frame.pixels != image && IsOf(t, frame.pixels) && t.exposure == frame.exposure
      modifies this, image
      ensures Valid() && Abstract() == Extended(old(Abstract()), t, frame.time)
      ensures image == old(image) || fresh(image)
    {
      Prepare(frame);
      ImageAdd(image, frame.pixels, frames, t);
      ExposuresAdd(frames, t);
      length := length + 1;
      exposure := exposure + frame.exposure;
      frames := frames + [t];
    }

    /** The image is deleted or given away */
    method Release()
      requires Valid()
      modifies this`image
      ensures Valid() && image == null
    {
      image := null;
    }
  }

  /** An image whose pixels, times the number of frames, are the sums of those of the frames */
  ghost predicate IsAverageOf(a: array2<real>, frames: seq<Taken>)
    reads a
  {
    && AllOfSize(frames, a.Length0, a.Length1)
    && forall y, x :: 0 <= y < a.Length0 && 0 <= x < a.Length1 ==> Times(|frames|, a[y, x]) == SumAt(frames, y, x)
  }

  method MultiplyBy(a: array2<real>, factor: real)
    modifies a
    ensures forall y, x :: 0 <= y < a.Length0 && 0 <= x < a.Length1 ==> a[y, x] == old(a[y, x]) * factor
  {
    var y := 0;
    while y < a.Length0
      invariant 0 <= y <= a.Length0
      invariant forall i, j :: 0 <= i < a.Length0 && 0 <= j < a.Length1 ==>
                  a[i, j] == if i < y then old(a[i, j]) * factor else old(a[i, j])
    {
      var x := 0;
      while x < a.Length1
        invariant 0 <= x <= a.Length1
        invariant forall i, j :: 0 <= i < a.Length0 && 0 <= j < a.Length1 ==>
                    a[i, j] == if i < y || (i == y && j < x) then old(a[i, j]) * factor else old(a[i, j])
      {
        a[y, x] := a[y, x] * factor;
        x := x + 1;
      }
      y := y + 1;
    }
  }

  /** get_average_image: a copy of the sum, divided by the number of frames */
  method AverageOf(sum: array2<real>, length: int, ghost frames: seq<Taken>) returns (average: array2<real>)
    requires length == |frames| >= 1 && IsSumOf(sum, frames)
    ensures fresh(average) && average.Length0 == sum.Length0 && average.Length1 == sum.Length1
    ensures IsAverageOf(average, frames)
  {
    average := new real[sum.Length0, sum.Length1];
    forall y, x | 0 <= y < sum.Length0 && 0 <= x < sum.Length1 {
      average[y, x] := sum[y, x];
    }
    var factor := 1.0 / length as real;
    MultiplyBy(average, factor);
    forall y, x | 0 <= y < average.Length0 && 0 <= x < average.Length1
      ensures Times(|frames|, average[y, x]) == SumAt(frames, y, x)
    {
      AverageTimes(|frames|, sum[y, x], factor, average[y, x]);
    }
  }

  lemma AverageTimes(n: nat, v: real, factor: real, mean: real)
    requires n > 0 && factor == 1.0 / n as real && mean == v * factor
    ensures Times(n, mean) == v
  {
    TimesIsProduct(n, mean);
    assert n as real * factor == 1.0;
    assert n as real * (v * factor) == v * (n as real * factor);
  }

  /** What the dark frame has in memory */
  ghost function PixelsOf(dark: array?<real>): Option<seq<real>>
    reads dark
  {
    if dark == null then None else Some(dark[..])
  }

  /** The pixels of the dark frame that a region needs are there */
  predicate Has(dark: array?<real>, r: Region, width: nat) {
    dark != null ==> Covers(dark.Length, r, width)
  }

  lemma OffsetUpTo(y: int, x: int, y2: int, x2: int, width: nat)
    requires 0 <= y <= y2 && 0 <= x <= x2
    ensures 0 <= Offset(y, x, width) <= Offset(y2, x2, width)
  {
  }

  /** The inner loop of get_flux: row y of the region */
  method AddRow(pixels: array2<real>, dark: array?<real>, length: int, r: Region, y: int, before: real)
    returns (flux: real)
    requires Within(r, pixels.Length0, pixels.Length1) && r.y1 <= y <= r.y2 && Has(dark, r, pixels.Length1)
    ensures var d := Seen(PixelsOf(dark), pixels.Length0, pixels.Length1);
            flux == before + NetRow(TableOf(pixels), d, length, y, r.x1, Span(r.x1, r.x2))
  {
    ghost var p, d := TableOf(pixels), Seen(PixelsOf(dark), pixels.Length0, pixels.Length1);
    ghost var n := Span(r.x1, r.x2);
    flux := before;
    var x := r.x1;
    while x <= r.x2
      invariant r.x1 <= x <= r.x1 + n && flux == before + NetRow(p, d, length, y, r.x1, x - r.x1)
    {
      if dark != null {
        OffsetUpTo(y, x, r.y2, r.x2, pixels.Length1);
        flux := flux + (pixels[y, x] - dark[Offset(y, x, pixels.Length1)] * length as real);
      } else {
        flux := flux + pixels[y, x];
      }
      x := x + 1;
    }
  }

  lemma FluxOfPixels(pixels: array2<real>, dark: array?<real>, length: nat, r: Region)
    ensures var p, d := TableOf(pixels), Seen(PixelsOf(dark), pixels.Length0, pixels.Length1);
            Flux(p, d, length, r) + (if dark == null then 0.0 else Times(length, RegionSum(d[0], r))) == RegionSum(p, r)
  {
    FluxIsSum(TableOf(pixels), Seen(PixelsOf(dark), pixels.Length0, pixels.Length1), length, r);
  }

  /** get_flux, with the dark frame in force: the sum of the pixels, less that of as many dark frames */
  method GetFlux(pixels: array2<real>, dark: array?<real>, length: int, r: Region) returns (flux: real)
    requires Within(r, pixels.Length0, pixels.Length1) && Has(dark, r, pixels.Length1)
    ensures flux == Flux(TableOf(pixels), Seen(PixelsOf(dark), pixels.Length0, pixels.Length1), length, r)
    ensures length >= 0 ==>
              var d := Seen(PixelsOf(dark), pixels.Length0, pixels.Length1);
              flux + (if dark == null then 0.0 else Times(length, RegionSum(d[0], r))) == RegionSum(TableOf(pixels), r)
  {
    ghost var p, d := TableOf(pixels), Seen(PixelsOf(dark), pixels.Length0, pixels.Length1);
    ghost var n := Span(r.x1, r.x2);
    flux := 0.0;
    var y := r.y1;
    while y <= r.y2
      invariant r.y1 <= y <= r.y1 + Span(r.y1, r.y2)
      invariant flux == NetRows(p, d, length, r.y1, r.x1, y - r.y1, n)
    {
      flux := AddRow(pixels, dark, length, r, y, flux);
      y := y + 1;
    }
    if length >= 0 {
      FluxOfPixels(pixels, dark, length, r);
    }
  }

  class Fast {
    const total: Accumulator
    const window: Accumulator
    var region: Region
    var dark: array?<real>
    var running: array2?<real>
    var runningLength: int
    var runningTime: real
    var lastTotalStored: int

    ghost predicate Valid()
      reads this, total, total.image, window, window.image
    {
      && total != window && total.Valid() && window.Valid()
      && (total.image == null || total.image != window.image)
    }

    ghost function Abstract(): State
      reads this, total, window, dark
    {
      State(total.Abstract(), window.Abstract(), region, PixelsOf(dark), runningTime)
    }

    /** A frame is a copy of its own, and the dark frame has what its region needs */
    predicate Accepts(frame: Frame)
      reads this, total, window
    {
      && frame.pixels != total.image && frame.pixels != window.image
      && Has(dark, RegionInForce(region, frame.pixels.Length0, frame.pixels.Length1), frame.pixels.Length1)
    }

    constructor ()
      ensures Valid() && total.image == null && window.image == null && running == null && dark == null
      ensures region == Region(0, 0, 0, 0) && runningTime == 1.0
      ensures fresh(total) && fresh(window)
    {
      total := new Accumulator();
      window := new Accumulator();
      region := Region(0, 0, 0, 0);
      dark, running, runningLength, runningTime, lastTotalStored := null, null, 0, 1.0, 0;
    }

    /** One frame added to both sums */
    method AppendBoth(frame: Frame, ghost t: Taken)
      requires Valid() && Accepts(frame)
      requires IsOf(t, frame.pixels) && t.exposure == frame.exposure
      modifies total, total.image, window, window.image
      ensures Valid()
      ensures total.Abstract() == Extended(old(total.Abstract()), t, frame.time)
      ensures window.Abstract() == Extended(old(window.Abstract()), t, frame.time)
      ensures total.image == old(total.image) || fresh(total.image)
      ensures window.image == old(window.image) || fresh(window.image)
    {
      total.Append(frame, t);
      assert window.Valid();
      window.Append(frame, t);
      assert total.Valid();
    }

    /** Region, flux and sums of process_image; s and shot are the state and the frame to begin with */
    method Take(frame: Frame, ghost s: State, ghost shot: Shot) returns (flux: real)
      requires Valid() && Accepts(frame) && s == Abstract() && shot == ShotOf(frame)
      modifies this`region, total, total.image, window, window.image
      ensures Valid()
      ensures region == RegionInForce(old(region), frame.pixels.Length0, frame.pixels.Length1)
      ensures flux == CurrentFlux(s, shot)
      ensures total.Abstract() == Extended(s.total, TakenOf(s, shot), shot.time)
              && window.Abstract() == WindowWith(s, shot)
      ensures total.image == old(total.image) || fresh(total.image)
      ensures window.image == old(window.image) || fresh(window.image)
    {
      region := RegionInForce(region, frame.pixels.Length0, frame.pixels.Length1);
      flux := GetFlux(frame.pixels, dark, 1, region);
      AppendBoth(frame, TakenOf(s, shot));
    }

    /** All the pixels that get_flux reads are there */
    predicate ReadsInside(image: array2<real>)
      reads this
    {
      Within(region, image.Length0, image.Length1) && Has(dark, region, image.Length1)
    }

    ghost function DarkFor(image: array2<real>): seq<Table>
      reads this, dark
    {
      Seen(PixelsOf(dark), image.Length0, image.Length1)
    }

    /** The running image takes over the pixels of the window, and their flux is reported */
    method CloseWindow() returns (flux: real)
      requires Valid() && window.image != null && ReadsInside(window.image)
      modifies this`running, this`runningLength, window
      ensures Valid() && window.image == null && running == old(window.image)
      ensures IsSumOf(running, old(window.frames)) && runningLength == |old(window.frames)|
      ensures flux == SumFlux(old(window.Abstract()), DarkFor(old(window.image)), region)
    {
      running, window.image := window.image, null;
      runningLength, window.length := window.length, 0;
      flux := GetFlux(running, dark, runningLength, region);
      SumIsTable(running, window.frames);
    }

    /** The window has lasted longer than the running time */
    predicate WindowIsOver(now: int)
      reads this`runningTime, window
    {
      (now - window.time) as real / 1000.0 + window.firstExposure > runningTime
    }

    method CloseIfOver(now: int) returns (accumulated: Option<real>)
      requires Valid() && window.image != null && ReadsInside(window.image)
      modifies this`running, this`runningLength, window
      ensures Valid()
      ensures window.Abstract() == if old(WindowIsOver(now)) then Empty else old(window.Abstract())
      ensures window.image == old(window.image) || window.image == null
      ensures accumulated ==
                if old(WindowIsOver(now)) then Some(SumFlux(old(window.Abstract()), DarkFor(old(window.image)), region))
                else None
      ensures if accumulated.Some? then RunningIs(old(window.frames))
              else running == old(running) && runningLength == old(runningLength)
    {
      accumulated := None;
      if WindowIsOver(now) {
        var flux := CloseWindow();
        accumulated := Some(flux);
      }
    }

    ghost predicate RunningIs(frames: seq<Taken>)
      reads this`running, this`runningLength, running
    {
      running != null && IsSumOf(running, frames) && runningLength == |frames|
    }

    /** The average of all frames, if the last one was queued for storage more than five seconds ago */
    method QueueAverage(now: int) returns (average: Option<array2<real>>)
      requires total.Valid() && total.image != null
      modifies this`lastTotalStored
      ensures average.Some? <==> now - old(lastTotalStored) > 5000
      ensures average.Some? ==> fresh(average.value) && IsAverageOf(average.value, total.frames)
      ensures lastTotalStored == if average.Some? then now else old(lastTotalStored)
    {
      average := None;
      if now - lastTotalStored > 5000 {
        var a := AverageOf(total.image, total.length, total.frames);
        average := Some(a);
        lastTotalStored := now;
      }
    }

    /** The window of process_image, after the sums of a frame; s and shot are the state before it and the frame */
    method Finish(now: int, ghost s: State, ghost shot: Shot) returns (accumulated: Option<real>)
      requires Valid() && now == shot.time && s.dark == PixelsOf(dark) && s.runningTime == runningTime
      requires total.Abstract() == Extended(s.total, TakenOf(s, shot), shot.time)
               && window.Abstract() == WindowWith(s, shot)
      requires region == RegionInForce(s.region, shot.height, shot.width)
      requires Has(dark, region, shot.width)
      modifies this`running, this`runningLength, window
      ensures Valid() && Abstract() == AfterShot(s, shot)
      ensures window.image == old(window.image) || window.image == null
      ensures accumulated == AccumulatedFlux(s, shot)
      ensures if accumulated.Some? then RunningIs(WindowWith(s, shot).frames) else running == old(running)
    {
      accumulated := CloseIfOver(now);
    }

    /** process_image: the flux of the frame, that of the window if it is over, and the average if it is due */
    method ProcessImage(frame: Frame) returns (flux: real, accumulated: Option<real>, average: Option<array2<real>>)
      requires Valid() && Accepts(frame)
      modifies this, total, total.image, window, window.image
      ensures Valid() && Abstract() == AfterShot(old(Abstract()), old(ShotOf(frame)))
      ensures dark == old(dark) && total.image != null
      ensures total.image == old(total.image) || fresh(total.image)
      ensures window.image == null || window.image == old(window.image) || fresh(window.image)
      ensures flux == CurrentFlux(old(Abstract()), old(ShotOf(frame)))
      ensures accumulated == AccumulatedFlux(old(Abstract()), old(ShotOf(frame)))
      ensures if accumulated.Some? then RunningIs(WindowWith(old(Abstract()), old(ShotOf(frame))).frames)
              else running == old(running)
      ensures average.Some? <==> frame.time - old(lastTotalStored) > 5000
      ensures average.Some? ==> fresh(average.value) && IsAverageOf(average.value, total.frames)
    {
      ghost var s, shot := Abstract(), ShotOf(frame);
      flux := Take(frame, s, shot);
      accumulated := Finish(frame.time, s, shot);
      average := QueueAverage(frame.time);
    }

    /** reset_images: the sums start anew with the next frame */
    method ResetImages()
      requires Valid()
      modifies this`running, total, window
      ensures Valid() && Abstract() == AfterReset(old(Abstract())) && running == null
      ensures total.image == null && window.image == null
    {
      total.Release();
      window.Release();
      running := null;
    }

    /** set_dark with a double image or none */
    method SetDark(image: array?<real>)
      modifies this`dark
      ensures dark == image
    {
      dark := image;
    }

    /** The command set_region with all its arguments */
    method SetRegion(r: Region)
      modifies this`region
      ensures region == r
    {
      region := r;
    }

    /** The command set_accumulation */
    method SetRunningTime(time: real)
      modifies this`runningTime
      ensures runningTime == time
    {
      runningTime := time;
    }
  }

  ghost function ShotOf(frame: Frame): Shot
    reads frame.pixels
  {
    Shot(TableOf(frame.pixels), frame.pixels.Length0, frame.pixels.Length1, frame.time, frame.exposure)
  }

  /** A frame to process, reset_images, or a command that sets something */
  datatype Request =
    | Process(frame: Frame)
    | ResetAll
    | PutRegion(region: Region)
    | PutDark(dark: array?<real>)
    | PutRunningTime(time: real)

  ghost function InputOf(request: Request): Input
    reads if request.Process? then {request.frame.pixels} else {}
    reads if request.PutDark? then {request.dark} else {}
  {
    match request
    case Process(frame) => Arrives(ShotOf(frame))
    case ResetAll => Windows.Reset
    case PutRegion(region) => Windows.SetRegion(region)
    case PutDark(dark) => Windows.SetDark(PixelsOf(dark))
    case PutRunningTime(time) => Windows.SetRunningTime(time)
  }

  /** The images are those from before, or new ones */
  twostate predicate KeepsImages(fast: Fast)
    reads fast.total, fast.window
  {
    && (fast.total.image == null || fast.total.image == old(fast.total.image) || fresh(fast.total.image))
    && (fast.window.image == null || fast.window.image == old(fast.window.image) || fresh(fast.window.image))
  }

  /** One request */
  method ObserveOne(fast: Fast, request: Request) returns (report: Report)
    requires fast.Valid() && (request.Process? ==> fast.Accepts(request.frame))
    modifies fast, fast.total, fast.total.image, fast.window, fast.window.image
    ensures fast.Valid() && fast.Abstract() == After(old(fast.Abstract()), old(InputOf(request)))
    ensures KeepsImages(fast)
    ensures report == ReportOf(old(fast.Abstract()), old(InputOf(request)))
  {
    match request
    case Process(frame) =>
      var flux, accumulated, _ := fast.ProcessImage(frame);
      report := Reported(frame.pixels.Length0, frame.pixels.Length1, flux, accumulated);
    case ResetAll =>
      fast.ResetImages();
      report := WasReset;
    case PutRegion(region) =>
      fast.SetRegion(region);
      report := WasSet;
    case PutDark(dark) =>
      fast.SetDark(dark);
      report := WasSet;
    case PutRunningTime(time) =>
      fast.SetRunningTime(time);
      report := Silent;
  }

  /** Whenever a frame comes, the dark frame then in force has what its region needs */
  ghost predicate AllCovered(s: State, inputs: seq<Input>) {
    forall k :: 0 <= k < |inputs| && inputs[k].Arrives? ==> IsCovered(Run(s, inputs[..k]), inputs[k].shot)
  }

  ghost predicate IsCovered(s: State, shot: Shot) {
    s.dark.Some? ==> Covers(|s.dark.value|, RegionInForce(s.region, shot.height, shot.width), shot.width)
  }

  /** The values of the requests, whose frames are none of the images that grow */
  ghost predicate AreInputs(fast: Fast, requests: seq<Request>, inputs: seq<Input>)
    reads fast, fast.total, fast.window
    reads set k | 0 <= k < |requests| && requests[k].Process? :: requests[k].frame.pixels
    reads set k | 0 <= k < |requests| && requests[k].PutDark? && requests[k].dark != null :: requests[k].dark
  {
    && |inputs| == |requests| && (forall k :: 0 <= k < |requests| ==> inputs[k] == InputOf(requests[k]))
    && forall k :: 0 <= k < |requests| && requests[k].Process? ==>
         requests[k].frame.pixels != fast.total.image && requests[k].frame.pixels != fast.window.image
  }

  /** The n-th request; s is the state at the start of the run */
  method ObserveNext(fast: Fast, requests: seq<Request>, ghost inputs: seq<Input>, ghost s: State, n: nat)
    returns (report: Report)
    requires fast.Valid() && AreInputs(fast, requests, inputs) && AllCovered(s, inputs)
    requires n < |requests| && fast.Abstract() == Run(s, inputs[..n])
    modifies fast, fast.total, fast.total.image, fast.window, fast.window.image
    ensures fast.Valid() && AreInputs(fast, requests, inputs) && KeepsImages(fast)
    ensures fast.Abstract() == Run(s, inputs[..n + 1])
    ensures Reports(s, inputs[..n + 1]) == Reports(s, inputs[..n]) + [report]
  {
    RunOneMore(s, inputs[..n], inputs[n]);
    assert inputs[..n] + [inputs[n]] == inputs[..n + 1];
    assert requests[n].Process? ==> IsCovered(Run(s, inputs[..n]), inputs[n].shot);
    report := ObserveOne(fast, requests[n]);
  }

  method ObserveAll(fast: Fast, requests: seq<Request>, ghost inputs: seq<Input>) returns (reports: seq<Report>)
    requires fast.Valid() && AreInputs(fast, requests, inputs) && AllCovered(fast.Abstract(), inputs)
    modifies fast, fast.total, fast.total.image, fast.window, fast.window.image
    ensures fast.Valid()
    ensures fast.Abstract() == Run(old(fast.Abstract()), inputs) && reports == Reports(old(fast.Abstract()), inputs)
  {
    ghost var s := fast.Abstract();
    reports := [];
    for n := 0 to |requests|
      invariant fast.Valid() && AreInputs(fast, requests, inputs) && KeepsImages(fast)
      invariant fast.Abstract() == Run(s, inputs[..n]) && reports == Reports(s, inputs[..n])
    {
      var report := ObserveNext(fast, requests, inputs, s, n);
      reports := reports + [report];
    }
    assert inputs[..|requests|] == inputs;
  }

  /**
    Any run of frames, resets and commands that set region, dark frame or running time, from any
    state: the reports are those of the state machine, so every accumulated flux of a window
    undisturbed by such a command is the sum of the fluxes reported for its frames; and the
    cumulative image is the sum of exactly the frames since the last reset or change of size.
  */
  method Observe(fast: Fast, requests: seq<Request>, ghost inputs: seq<Input>) returns (reports: seq<Report>)
    requires fast.Valid() && AreInputs(fast, requests, inputs) && AllCovered(fast.Abstract(), inputs)
    modifies fast, fast.total, fast.total.image, fast.window, fast.window.image
    ensures fast.Valid()
    ensures fast.Abstract() == Run(old(fast.Abstract()), inputs) && reports == Reports(old(fast.Abstract()), inputs)
    ensures Balanced(old(fast.Abstract()).window, reports)
    ensures var s := old(fast.Abstract());
            IsSince(fast.total.Abstract(), Since(Past(s.total) + History(s, inputs)))
  {
    ghost var s := fast.Abstract();
    EveryWindowBalances(s, inputs);
    TotalIsSince(s, inputs);
    reports := ObserveAll(fast, requests, inputs);
  }
}
