/**
  What process_image of fast.c keeps and reports, frame by frame, as a function of the frames and
  of the commands between them: the cumulative sum, the running window, and the flux of both.
*/
module Windows {

  import opened Pixels
  import opened RegionFlux
  import opened Wrappers

  // ----- one frame -----

  /** A sum of frames of one size; time and exposure are those of the first one */
  datatype Sum = Empty | Frames(height: nat, width: nat, frames: seq<Taken>, time: int, firstExposure: real)

  /** A frame as it comes in */
  datatype Shot = Shot(pixels: Table, height: nat, width: nat, time: int, exposure: real)

  /** dark is what the dark frame, if there is one, has in memory, row after row */
  datatype State = State(total: Sum, window: Sum, region: Region, dark: Option<seq<real>>, runningTime: real)

  /** Where get_flux looks for a pixel of the dark frame: its rows are taken to be as long as those of the frame */
  function Offset(y: int, x: int, width: nat): int {
    y * width + x
  }

  /** The dark frame as get_flux sees it in a frame of this size */
  function Seen(dark: Option<seq<real>>, height: nat, width: nat): (d: seq<Table>)
    ensures |d| == if dark.Some? then 1 else 0
    ensures dark.Some? ==> forall y, x :: 0 <= y < height && 0 <= x < width ==>
            At(d[0], y, x) == PixelAt(dark.value, Offset(y, x, width))
  {
    if dark.None? then []
    else [seq(height, y => seq(width, x => PixelAt(dark.value, Offset(y, x, width))))]
  }

  function PixelAt(pixels: seq<real>, k: int): real {
    if 0 <= k < |pixels| then pixels[k] else 0.0
  }

  /**
    A dark frame of the frame's width is seen as it is: in memory, pixel x of row y stands behind
    y rows and x pixels
  */
  lemma SeenRowByRow(dark: seq<real>, height: nat, width: nat, y: nat, x: nat)
    requires y < height && x < width && y * width + x < |dark|
    ensures At(Seen(Some(dark), height, width)[0], y, x) == dark[y * width + x]
  {
  }

  /** Of so many pixels, all that are read for the region are there, up to the last one */
  predicate Covers(length: nat, r: Region, width: nat) {
    r.y1 <= r.y2 && r.x1 <= r.x2 ==> Offset(r.y2, r.x2, width) < length
  }

  function TakenOf(s: State, shot: Shot): Taken {
    Taken(shot.pixels, shot.height, shot.width, shot.exposure, RegionInForce(s.region, shot.height, shot.width),
          Seen(s.dark, shot.height, shot.width))
  }

  /** A frame joins a sum of its size, and replaces any other */
  function Extended(sum: Sum, t: Taken, time: int): Sum {
    if sum.Frames? && sum.height == t.height && sum.width == t.width then sum.(frames := sum.frames + [t])
    else Frames(t.height, t.width, [t], time, t.exposure)
  }

  function WindowWith(s: State, shot: Shot): (w: Sum)
    ensures w.Frames?
  {
    Extended(s.window, TakenOf(s, shot), shot.time)
  }

  /** With this frame the window has lasted longer than the running time, in seconds */
  predicate IsOver(s: State, shot: Shot) {
    (shot.time - WindowWith(s, shot).time) as real / 1000.0 + WindowWith(s, shot).firstExposure > s.runningTime
  }

  /** process_image */
  function AfterShot(s: State, shot: Shot): State {
    State(Extended(s.total, TakenOf(s, shot), shot.time), if IsOver(s, shot) then Empty else WindowWith(s, shot),
          RegionInForce(s.region, shot.height, shot.width), s.dark, s.runningTime)
  }

  /** reset_images */
  function AfterReset(s: State): State {
    s.(total := Empty, window := Empty)
  }

  /** current_flux */
  function CurrentFlux(s: State, shot: Shot): real {
    OwnFlux(TakenOf(s, shot))
  }

  /** The flux that a sum of frames has in a region */
  function SumFlux(sum: Sum, dark: seq<Table>, r: Region): real
    requires sum.Frames?
  {
    Flux(SumTable(sum.frames, sum.height, sum.width), dark, |sum.frames|, r)
  }

  /** accumulated_flux, if it is reported */
  function AccumulatedFlux(s: State, shot: Shot): Option<real> {
    if IsOver(s, shot)
    then Some(SumFlux(WindowWith(s, shot), Seen(s.dark, shot.height, shot.width),
                      RegionInForce(s.region, shot.height, shot.width)))
    else None
  }

  /** A region that is out of range for a frame is gone for good: the next frames find the whole of this one set */
  lemma RegionAfterShot(s: State, shot: Shot)
    ensures var r, w, h := s.region, shot.width, shot.height;
            AfterShot(s, shot).region
            == if 0 <= r.x1 < w && 0 < r.y1 < h && 0 <= r.x2 < w && 0 < r.y2 < h then r else Region(0, 0, w - 1, h - 1)
  {
  }

  // ----- any run -----

  /** A frame, reset_images, or one of the commands set_region, set_dark and set_accumulation */
  datatype Input =
    | Arrives(shot: Shot)
    | Reset
    | SetRegion(region: Region)
    | SetDark(dark: Option<seq<real>>)
    | SetRunningTime(time: real)

  /**
    What goes out to the clients; the size is that of the frame. Nothing does for the other
    inputs, of which those that set region or dark frame matter to an open window.
  */
  datatype Report = Reported(height: nat, width: nat, flux: real,
      accumulated: Option<real>) | WasReset | WasSet | Silent

  function After(s: State, input: Input): State {
    match input
    case Arrives(shot) => AfterShot(s, shot)
    case Reset => AfterReset(s)
    case SetRegion(region) => s.(region := region)
    case SetDark(dark) => s.(dark := dark)
    case SetRunningTime(time) => s.(runningTime := time)
  }

  function ReportOf(s: State, input: Input): Report {
    match input
    case Arrives(shot) => Reported(shot.height, shot.width, CurrentFlux(s, shot), AccumulatedFlux(s, shot))
    case Reset => WasReset
    case SetRegion(_) => WasSet
    case SetDark(_) => WasSet
    case SetRunningTime(_) => Silent
  }

  function Run(s: State, inputs: seq<Input>): State
    decreases |inputs|
  {
    if inputs == [] then s else After(Run(s, inputs[..|inputs| - 1]), inputs[|inputs| - 1])
  }

  function Reports(s: State, inputs: seq<Input>): (reports: seq<Report>)
    ensures |reports| == |inputs|
    decreases |inputs|
  {
    if inputs == [] then []
    else Reports(s, inputs[..|inputs| - 1]) + [ReportOf(Run(s, inputs[..|inputs| - 1]), inputs[|inputs| - 1])]
  }

  lemma RunOneMore(s: State, inputs: seq<Input>, input: Input)
    ensures Run(s, inputs + [input]) == After(Run(s, inputs), input)
    ensures Reports(s, inputs + [input]) == Reports(s, inputs) + [ReportOf(Run(s, inputs), input)]
  {
    assert (inputs + [input])[..|inputs|] == inputs;
  }

  // ----- how long a window is open -----

  predicate OfOneSize(shots: seq<Shot>) {
    forall k :: 0 <= k < |shots| ==> shots[k].height == shots[0].height && shots[k].width == shots[0].width
  }

  function Arriving(shots: seq<Shot>): seq<Input> {
    seq(|shots|, k requires 0 <= k < |shots| => Arrives(shots[k]))
  }

  /** By the k-th frame, the time since the first one and its exposure have come to more than this, in seconds */
  predicate HasLasted(shots: seq<Shot>, k: nat, runningTime: real)
    requires k < |shots|
  {
    (shots[k].time - shots[0].time) as real / 1000.0 + shots[0].exposure > runningTime
  }

  /** A window of the first n frames */
  predicate IsOpenWith(sum: Sum, shots: seq<Shot>, n: nat)
    requires n <= |shots|
  {
    if n == 0 then sum.Empty?
    else sum.Frames? && sum.height == shots[0].height && sum.width == shots[0].width && |sum.frames| == n
         && sum.time == shots[0].time && sum.firstExposure == shots[0].exposure
  }

  lemma OneMoreOpen(t: State, shots: seq<Shot>, n: nat)
    requires OfOneSize(shots) && n < |shots| && IsOpenWith(t.window, shots, n)
    ensures IsOver(t, shots[n]) <==> HasLasted(shots, n, t.runningTime)
    ensures IsOpenWith(WindowWith(t, shots[n]), shots, n + 1)
    ensures !HasLasted(shots, n, t.runningTime) ==> IsOpenWith(AfterShot(t, shots[n]).window, shots, n + 1)
  {
    assert shots[n].height == shots[0].height && shots[n].width == shots[0].width;
  }

  lemma OneMoreArrives(s: State, shots: seq<Shot>, n: nat)
    requires n < |shots|
    ensures Run(s, Arriving(shots[..n + 1])) == AfterShot(Run(s, Arriving(shots[..n])), shots[n])
  {
    RunOneMore(s, Arriving(shots[..n]), Arrives(shots[n]));
    assert Arriving(shots[..n + 1]) == Arriving(shots[..n]) + [Arrives(shots[n])];
  }

  lemma {:induction false} StaysOpen(s: State, shots: seq<Shot>, n: nat)
    requires s.window.Empty? && OfOneSize(shots) && n <= |shots|
    requires forall k :: 0 <= k < n ==> !HasLasted(shots, k, s.runningTime)
    ensures var t := Run(s, Arriving(shots[..n]));
            t.runningTime == s.runningTime && IsOpenWith(t.window, shots, n)
  {
    if n == 0 {
      assert Arriving(shots[..0]) == [];
    } else {
      StaysOpen(s, shots, n - 1);
      OneMoreArrives(s, shots, n - 1);
      OneMoreOpen(Run(s, Arriving(shots[..n - 1])), shots, n - 1);
    }
  }

  /**
    The flux of a window of frames of one size is reported with the first frame by which the window
    has lasted longer than the running time, and with none before: the time from its first frame to
    this one, and the exposure of the first.
  */
  lemma ReportedWhenOver(s: State, shots: seq<Shot>, n: nat)
    requires s.window.Empty? && OfOneSize(shots) && n < |shots|
    requires forall k :: 0 <= k < n ==> !HasLasted(shots, k, s.runningTime)
    ensures AccumulatedFlux(Run(s, Arriving(shots[..n])), shots[n]).Some?
            <==> (shots[n].time - shots[0].time) as real / 1000.0 + shots[0].exposure > s.runningTime
  {
    StaysOpen(s, shots, n);
    OneMoreOpen(Run(s, Arriving(shots[..n])), shots, n);
  }

  // ----- the flux of a window is the sum of the fluxes reported while it was open -----

  /**
    The window that is open after some reports, with those of its frames. It is steady if it was
    opened in the run, and region and dark frame have not been set since.
  */
  datatype Open = Shut | Open(height: nat, width: nat, reports: seq<Report>, steady: bool) {
    predicate IsFor(r: Report) {
      Open? && r.Reported? && height == r.height && width == r.width
    }
  }

  /** One frame more: it joins an open window of its size, and opens a new one otherwise */
  function Joined(open: Open, r: Report): Open
    requires r.Reported?
  {
    if open.IsFor(r) then open.(reports := open.reports + [r]) else Open(r.height, r.width, [r], true)
  }

  /** A reset or the end of a window */
  predicate Ends(r: Report) {
    r.WasReset? || (r.Reported? && r.accumulated.Some?)
  }

  function Opened(open: Open, r: Report): Open {
    if Ends(r) then Shut
    else if r.Reported? then Joined(open, r)
    else if r.WasSet? && open.Open? then open.(steady := false)
    else open
  }

  function OpenAtFirst(window: Sum): Open {
    if window.Empty? then Shut else Open(window.height, window.width, [], false)
  }

  function OpenAfter(window: Sum, reports: seq<Report>): Open
    decreases |reports|
  {
    if reports == [] then OpenAtFirst(window)
    else Opened(OpenAfter(window, reports[..|reports| - 1]), reports[|reports| - 1])
  }

  function Fluxes(reports: seq<Report>): real {
    if reports == [] then 0.0
    else
      var last := reports[|reports| - 1];
      Fluxes(reports[..|reports| - 1]) + if last.Reported? then last.flux else 0.0
  }

  /**
    Every accumulated flux of a steady window is the sum of the fluxes reported for its frames,
    that of the last one included; window is the one open before the first report
  */
  predicate Balanced(window: Sum, reports: seq<Report>) {
    forall k :: 0 <= k < |reports| && reports[k].Reported? && reports[k].accumulated.Some? ==>
      IsSum(Joined(OpenAfter(window, reports[..k]), reports[k]), reports[k].accumulated.value)
  }

  predicate IsSum(open: Open, flux: real)
    requires open.Open?
  {
    open.steady ==> flux == Fluxes(open.reports)
  }

  /**
    The frames of the window were all taken under the region and the dark frame now in force, and
    the region stays in force for their size
  */
  ghost predicate Uniform(s: State) {
    s.window.Frames? ==>
      && s.window.frames != [] && AllOfSize(s.window.frames, s.window.height, s.window.width)
      && AllUnder(s.window.frames, Seen(s.dark, s.window.height, s.window.width), s.region)
      && RegionInForce(s.region, s.window.height, s.window.width) == s.region
  }

  predicate IsShot(input: Input) {
    input.Arrives? ==> IsTable(input.shot.pixels, input.shot.height, input.shot.width)
  }

  /** A frame joins the window, which is uniform already or starts with it */
  lemma WindowStaysUniform(s: State, shot: Shot)
    requires IsShot(Arrives(shot))
    requires Uniform(s) || !Joins(s, shot)
    ensures var w, r := WindowWith(s, shot), RegionInForce(s.region, shot.height, shot.width);
            && w.frames != [] && w.height == shot.height && w.width == shot.width
            && AllOfSize(w.frames, w.height, w.width) && AllUnder(w.frames, Seen(s.dark, w.height, w.width), r)
    ensures Uniform(AfterShot(s, shot))
  {
    RegionStays(s.region, shot.height, shot.width);
  }

  /** The window has frames of this size */
  predicate Joins(s: State, shot: Shot) {
    s.window.Frames? && s.window.height == shot.height && s.window.width == shot.width
  }

  /** The window and the open one of the reports go together, and a steady one is uniform */
  ghost predicate Matches(s: State, open: Open) {
    && (s.window.Frames? <==> open.Open?)
    && (open.Open? ==> open.height == s.window.height && open.width == s.window.width)
    && (open.Open? && open.steady ==> Uniform(s) && Fluxes(open.reports) == OwnFluxes(s.window.frames))
  }

  lemma JoinedFluxes(s: State, shot: Shot, open: Open, r: Report)
    requires Matches(s, open) && r.Reported? && r.height == shot.height && r.width == shot.width
             && r.flux == CurrentFlux(s, shot)
    ensures var joined := Joined(open, r);
            && joined.height == shot.height && joined.width == shot.width
            && (joined.steady ==> Uniform(s) || !Joins(s, shot))
            && (joined.steady ==> Fluxes(joined.reports) == OwnFluxes(WindowWith(s, shot).frames))
  {
    var t := TakenOf(s, shot);
    FluxesOneMore([], r);
    OwnFluxesOneMore([], t);
    assert [] + [r] == [r] && [] + [t] == [t];
    if Joins(s, shot) {
      FluxesOneMore(open.reports, r);
      OwnFluxesOneMore(s.window.frames, t);
    }
  }

  /** While a window is uniform, its flux is the sum of those of its frames */
  lemma WindowSum(s: State, shot: Shot)
    requires (Uniform(s) || !Joins(s, shot)) && IsShot(Arrives(shot)) && IsOver(s, shot)
    ensures AccumulatedFlux(s, shot) == Some(OwnFluxes(WindowWith(s, shot).frames))
  {
    var w := WindowWith(s, shot);
    WindowStaysUniform(s, shot);
    WindowFlux(w.frames, w.height, w.width, Seen(s.dark, w.height, w.width),
        RegionInForce(s.region, shot.height, shot.width));
  }

  /** One frame more: what a closing window reports is the sum, and otherwise window and reports still go together */
  lemma ShotMatches(s: State, shot: Shot, open: Open, r: Report)
    requires Matches(s, open) && IsShot(Arrives(shot)) && r == ReportOf(s, Arrives(shot))
    ensures r.accumulated.Some? ==> IsSum(Joined(open, r), r.accumulated.value)
    ensures Matches(AfterShot(s, shot), Opened(open, r))
  {
    JoinedFluxes(s, shot, open, r);
    if Joined(open, r).steady {
      WindowStaysUniform(s, shot);
      if IsOver(s, shot) {
        WindowSum(s, shot);
      }
    }
  }

  lemma FluxesOneMore(reports: seq<Report>, r: Report)
    requires r.Reported?
    ensures Fluxes(reports + [r]) == Fluxes(reports) + r.flux
  {
    assert (reports + [r])[..|reports|] == reports;
  }

  lemma OwnFluxesOneMore(frames: seq<Taken>, t: Taken)
    ensures OwnFluxes(frames + [t]) == OwnFluxes(frames) + OwnFlux(t)
  {
    assert (frames + [t])[..|frames|] == frames;
  }

  ghost predicate InBalance(window: Sum, s: State, reports: seq<Report>) {
    Balanced(window, reports) && Matches(s, OpenAfter(window, reports))
  }

  lemma InputKeepsBalance(window: Sum, s: State, input: Input, reports: seq<Report>)
    requires InBalance(window, s, reports) && IsShot(input)
    ensures InBalance(window, After(s, input), reports + [ReportOf(s, input)])
  {
    var r, open := ReportOf(s, input), OpenAfter(window, reports);
    if input.Arrives? {
      ShotMatches(s, input.shot, open, r);
    }
    assert Matches(After(s, input), Opened(open, r));
    OneMoreBalanced(window, reports, r);
  }

  /**
    Any run, from any state: every accumulated flux of a window that was opened in the run, and
    while it was open neither region nor dark frame was set, is the sum of the fluxes reported
    for the frames of that window.
  */
  lemma {:induction false} EveryWindowBalances(s: State, inputs: seq<Input>)
    requires forall k :: 0 <= k < |inputs| ==> IsShot(inputs[k])
    ensures InBalance(s.window, Run(s, inputs), Reports(s, inputs))
    decreases |inputs|
  {
    if inputs != [] {
      var n := |inputs| - 1;
      EveryWindowBalances(s, inputs[..n]);
      InputKeepsBalance(s.window, Run(s, inputs[..n]), inputs[n], Reports(s, inputs[..n]));
    }
  }

  lemma OneMoreBalanced(window: Sum, reports: seq<Report>, r: Report)
    requires Balanced(window, reports)
    requires r.Reported? && r.accumulated.Some? ==> IsSum(Joined(OpenAfter(window, reports), r), r.accumulated.value)
    ensures Balanced(window, reports + [r])
    ensures OpenAfter(window, reports + [r]) == Opened(OpenAfter(window, reports), r)
  {
    var all := reports + [r];
    assert all[..|reports|] == reports;
    forall k | 0 <= k < |reports| ensures all[k] == reports[k] && all[..k] == reports[..k] {
    }
  }

  // A window in which the region was set is another matter: a frame with one bright pixel, in the
  // region then in force, and a dark one for which another region is set.

  const BRIGHT := Shot(Spot(3, 3, 1, 1), 3, 3, 0, 0.0)
  const BLANK := Shot(Spot(3, 3, 3, 3), 3, 3, 1000, 0.0)
  const AT_FIRST := State(Empty, Empty, Region(1, 1, 1, 1), None, 0.5)

  lemma OnePixelFlux(p: Table, length: int, y: int)
    ensures Flux(p, [], length, Region(y, y, y, y)) == At(p, y, y)
  {
    assert NetRow(p, [], length, y, y, 1) == NetRow(p, [], length, y, y, 0) + Net(p, [], length, y, y);
    assert NetRows(p, [], length, y, y, 1, 1) == NetRows(p, [], length, y, y, 0, 1) + NetRow(p, [], length, y, y, 1);
  }

  /** The frames report 1 and 0, and their window 0 */
  lemma RegionSetInWindow()
    ensures var s := After(AfterShot(AT_FIRST, BRIGHT), SetRegion(Region(2, 2, 2, 2)));
            && CurrentFlux(AT_FIRST, BRIGHT) == 1.0 && CurrentFlux(s, BLANK) == 0.0
            && AccumulatedFlux(s, BLANK) == Some(0.0)
  {
    var s := After(AfterShot(AT_FIRST, BRIGHT), SetRegion(Region(2, 2, 2, 2)));
    OnePixelFlux(BRIGHT.pixels, 1, 1);
    OnePixelFlux(BLANK.pixels, 1, 2);
    var t, u := TakenOf(AT_FIRST, BRIGHT), TakenOf(s, BLANK);
    assert s.window == Frames(3, 3, [t], 0, 0.0) && WindowWith(s, BLANK).frames == [t] + [u];
    SumAtMore([], t, 2, 2);
    SumAtMore([t], u, 2, 2);
    assert [] + [t] == [t];
    OnePixelFlux(SumTable([t] + [u], 3, 3), 2, 2);
  }

  // ----- which window is open -----

  /** Since position from, reports are those of one window: of frames of one size, and settings between them */
  predicate IsWindow(reports: seq<Report>, from: nat, height: nat, width: nat) {
    forall k :: from <= k < |reports| ==>
      !Ends(reports[k]) && (reports[k].Reported? ==> reports[k].height == height && reports[k].width == width)
  }

  function OfFrames(reports: seq<Report>): seq<Report> {
    if reports == [] then []
    else
      var last := reports[|reports| - 1];
      OfFrames(reports[..|reports| - 1]) + if last.Reported? then [last] else []
  }

  predicate NothingSet(reports: seq<Report>, from: nat) {
    forall k :: from <= k < |reports| ==> !reports[k].WasSet?
  }

  /**
    The open window began with the report at from: before it, no window of its size was open.
    Its reports are all those of frames since, and it is steady if nothing has been set since.
  */
  ghost predicate BeganAt(window: Sum, reports: seq<Report>, from: nat) {
    var open := OpenAfter(window, reports);
    && open.Open? && from < |reports| && open.IsFor(reports[from])
    && IsWindow(reports, from, open.height, open.width) && !OpenAfter(window, reports[..from]).IsFor(reports[from])
    && open.reports == OfFrames(reports[from..]) && open.steady == NothingSet(reports, from)
  }

  /** Or it was there at first, and everything since belongs to it */
  ghost predicate WasThere(window: Sum, reports: seq<Report>) {
    var open := OpenAfter(window, reports);
    window.Frames? && open.Open? && open.height == window.height && open.width == window.width
    && IsWindow(reports, 0, window.height, window.width) && !open.steady
  }

  lemma {:induction false} OpenBegan(window: Sum, reports: seq<Report>)
    requires OpenAfter(window, reports).Open?
    ensures WasThere(window, reports) || exists from :: BeganAt(window, reports, from)
    decreases |reports|
  {
    if reports != [] {
      var front, last := reports[..|reports| - 1], reports[|reports| - 1];
      if last.Reported? && !OpenAfter(window, front).IsFor(last) {
        BeganNow(window, reports);
      } else {
        OpenBegan(window, front);
        if WasThere(window, front) {
          WasThereLater(window, reports);
        } else {
          var from :| BeganAt(window, front, from);
          BeganEarlier(window, reports, from);
        }
      }
    }
  }

  lemma BeganNow(window: Sum, reports: seq<Report>)
    requires reports != [] && OpenAfter(window, reports).Open? && reports[|reports| - 1].Reported?
    requires !OpenAfter(window, reports[..|reports| - 1]).IsFor(reports[|reports| - 1])
    ensures BeganAt(window, reports, |reports| - 1)
  {
    var n := |reports| - 1;
    assert reports[n..] == [reports[n]] && reports[n..][..0] == [];
    assert OfFrames(reports[n..]) == OfFrames([]) + [reports[n]];
  }

  lemma WasThereLater(window: Sum, reports: seq<Report>)
    requires reports != [] && OpenAfter(window, reports).Open?
    requires var front, last := reports[..|reports| - 1], reports[|reports| - 1];
             WasThere(window, front) && (last.Reported? ==> OpenAfter(window, front).IsFor(last))
    ensures WasThere(window, reports)
  {
  }

  lemma BeganEarlier(window: Sum, reports: seq<Report>, from: nat)
    requires reports != [] && OpenAfter(window, reports).Open?
    requires var front, last := reports[..|reports| - 1], reports[|reports| - 1];
             BeganAt(window, front, from) && (last.Reported? ==> OpenAfter(window, front).IsFor(last))
    ensures BeganAt(window, reports, from)
  {
    var front, last := reports[..|reports| - 1], reports[|reports| - 1];
    assert front[..from] == reports[..from];
    assert reports[from..][..|front| - from] == front[from..] && reports[from..] == front[from..] + [last];
    assert forall k :: from <= k < |front| ==> front[k] == reports[k];
  }

  // ----- the frames of the cumulative sum -----

  /** What happens to a sum of frames: a frame is added to it, or it is given up */
  datatype Event = Added(frame: Taken) | Cut

  predicate SameSize(t: Taken, u: Taken) {
    t.height == u.height && t.width == u.width
  }

  function Since(history: seq<Event>): seq<Taken> {
    if history == [] || history[|history| - 1].Cut? then []
    else
      var before, t := Since(history[..|history| - 1]), history[|history| - 1].frame;
      (if before != [] && SameSize(before[0], t) then before else []) + [t]
  }

  /**
    They are the end of the history, all of one size, and in front of them is a cut, a frame of
    another size, or nothing
  */
  lemma {:induction false} SinceIsLongest(history: seq<Event>)
    ensures var frames, n := Since(history), |history|;
            && |frames| <= n
            && (forall i :: 0 <= i < |frames| ==>
                history[n - |frames| + i] == Added(frames[i]) && SameSize(frames[0], frames[i]))
            && (|frames| < n ==>
                  var e := history[n - |frames| - 1];
                  e.Cut? || (frames != [] && !SameSize(e.frame, frames[0])))
  {
    if history != [] && history[|history| - 1].Added? {
      var rest := history[..|history| - 1];
      SinceIsLongest(rest);
      var frames, before := Since(history), Since(rest);
      assert frames[|frames| - 1] == history[|history| - 1].frame;
      if |frames| > 1 {
        assert frames == before + [history[|history| - 1].frame];
      }
    }
  }

  function EventsOf(s: State, input: Input): seq<Event> {
    if input.Arrives? then [Added(TakenOf(s, input.shot))] else if input.Reset? then [Cut] else []
  }

  function History(s: State, inputs: seq<Input>): seq<Event>
    decreases |inputs|
  {
    if inputs == [] then []
    else History(s, inputs[..|inputs| - 1]) + EventsOf(Run(s, inputs[..|inputs| - 1]), inputs[|inputs| - 1])
  }

  /** How a sum came to be that was there at first */
  function Past(sum: Sum): seq<Event> {
    if sum.Empty? then [] else Adding(sum.frames)
  }

  function Adding(frames: seq<Taken>): seq<Event> {
    seq(|frames|, k requires 0 <= k < |frames| => Added(frames[k]))
  }

  /** The frames in a sum, which has the size of all of them */
  predicate IsSince(sum: Sum, frames: seq<Taken>) {
    if sum.Empty? then frames == []
    else sum.frames == frames && frames != [] && sum.height == frames[0].height && sum.width == frames[0].width
  }

  lemma SinceOneMore(history: seq<Event>, event: Event)
    ensures Since(history + [event]) ==
              if event.Cut? then []
              else
                var before := Since(history);
                (if before != [] && SameSize(before[0], event.frame) then before else []) + [event.frame]
  {
    assert (history + [event])[..|history|] == history;
  }

  /** A sum of at least one frame, all of its size */
  predicate IsSumOfOneSize(sum: Sum) {
    sum.Frames? ==> sum.frames != [] && forall k :: 0 <= k < |sum.frames| ==>
        sum.frames[k].height == sum.height && sum.frames[k].width == sum.width
  }

  lemma {:induction false} SinceAdding(frames: seq<Taken>)
    requires forall k :: 0 <= k < |frames| ==> SameSize(frames[0], frames[k])
    ensures Since(Adding(frames)) == frames
  {
    if frames != [] {
      var front, last := frames[..|frames| - 1], frames[|frames| - 1];
      SinceAdding(front);
      assert Adding(frames) == Adding(front) + [Added(last)];
      SinceOneMore(Adding(front), Added(last));
      assert front + [last] == frames;
    }
  }

  lemma InputKeepsSince(s: State, input: Input, history: seq<Event>)
    requires IsSince(s.total, Since(history))
    ensures IsSince(After(s, input).total, Since(history + EventsOf(s, input)))
  {
    match input {
      case Arrives(shot) => SinceOneMore(history, Added(TakenOf(s, shot)));
      case Reset => SinceOneMore(history, Cut);
      case SetRegion(_) => assert history + [] == history;
      case SetDark(_) => assert history + [] == history;
      case SetRunningTime(_) => assert history + [] == history;
    }
  }

  lemma PastIsSince(sum: Sum)
    requires IsSumOfOneSize(sum)
    ensures IsSince(sum, Since(Past(sum)))
  {
    if sum.Frames? {
      SinceAdding(sum.frames);
    }
  }

  /**
    Any run: the cumulative sum is that of exactly the frames since the last reset or change of
    size, those before the run included
  */
  lemma {:induction false} TotalIsSince(s: State, inputs: seq<Input>)
    requires IsSumOfOneSize(s.total)
    ensures IsSince(Run(s, inputs).total, Since(Past(s.total) + History(s, inputs)))
    decreases |inputs|
  {
    var past := Past(s.total);
    if inputs == [] {
      assert past + [] == past;
      PastIsSince(s.total);
    } else {
      var front, last := inputs[..|inputs| - 1], inputs[|inputs| - 1];
      TotalIsSince(s, front);
      InputKeepsSince(Run(s, front), last, past + History(s, front));
      assert past + History(s, inputs) == past + History(s, front) + EventsOf(Run(s, front), last);
    }
  }
}
