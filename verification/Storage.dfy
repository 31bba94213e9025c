/**
  The directories that the storage thread of fast_storage.c fills with frames. A directory is
  named by the object and by the second in which it is prepared, so two that are prepared in one
  second are one; the counter of its files starts anew each time. Average images are written beside it.
*/
module Storage {

  import opened Wrappers

  const MAX_FILES_PER_DIR := 10000

  datatype Dir = Dir(target: string, second: int)

  /** A start or stop command, or a frame, with the object and the second in which it is handled */
  datatype Event = Begin(dir: Dir) | End | Store(dir: Dir)

  /** prepared and files are the directories prepared, and those of the frames stored, one by one */
  datatype State = State(current: Option<Dir>, nframes: nat, isStorage: bool, prepared: seq<Dir>, files: seq<Dir>)

  const INITIAL := State(None, 0, false, [], [])

  /** prepare_storage */
  function Prepared(s: State, dir: Dir): State {
    s.(current := Some(dir), nframes := 0, prepared := s.prepared + [dir])
  }

  /** store_image */
  function Stored(s: State): State {
    if s.current.None? then s
    else s.(nframes := s.nframes + 1, files := s.files + [s.current.value])
  }

  function Step(s: State, e: Event): State {
    match e
    case Begin(dir) => Prepared(s, dir).(isStorage := true)
    case End => s.(isStorage := false)
    case Store(dir) =>
      if !s.isStorage then s
      else Stored(if s.nframes >= MAX_FILES_PER_DIR then Prepared(s, dir) else s)
  }

  function Run(events: seq<Event>): State {
    if events == [] then INITIAL else Step(Run(events[..|events| - 1]), events[|events| - 1])
  }

  function Count(dirs: seq<Dir>, d: Dir): nat {
    if dirs == [] then 0 else Count(dirs[..|dirs| - 1], d) + if dirs[|dirs| - 1] == d then 1 else 0
  }

  lemma CountOneMore(dirs: seq<Dir>, e: Dir, d: Dir)
    ensures Count(dirs + [e], d) == Count(dirs, d) + if e == d then 1 else 0
  {
    assert (dirs + [e])[..|dirs|] == dirs;
  }

  /** What is left of the allowance of a directory, which each preparation renews */
  ghost predicate WithinAllowance(s: State, d: Dir) {
    && s.nframes <= MAX_FILES_PER_DIR
    && (s.isStorage ==> s.current.Some?)
    && Count(s.files, d) + (if s.current == Some(d) then MAX_FILES_PER_DIR - s.nframes else 0)
       <= MAX_FILES_PER_DIR * Count(s.prepared, d)
  }

  lemma PreparingIsAllowed(s: State, dir: Dir, d: Dir)
    requires WithinAllowance(s, d)
    ensures WithinAllowance(Prepared(s, dir), d)
  {
    CountOneMore(s.prepared, dir, d);
  }

  lemma StepIsAllowed(s: State, e: Event, d: Dir)
    requires WithinAllowance(s, d)
    ensures WithinAllowance(Step(s, e), d)
  {
    match e
    case Begin(dir) => PreparingIsAllowed(s, dir, d);
    case End =>
    case Store(dir) =>
      if s.isStorage {
        PreparingIsAllowed(s, dir, d);
        var t := if s.nframes >= MAX_FILES_PER_DIR then Prepared(s, dir) else s;
        CountOneMore(t.files, t.current.value, d);
      }
  }

  lemma {:induction false} RunIsAllowed(events: seq<Event>, d: Dir)
    ensures WithinAllowance(Run(events), d)
  {
    if events != [] {
      RunIsAllowed(events[..|events| - 1], d);
      StepIsAllowed(Run(events[..|events| - 1]), events[|events| - 1], d);
    }
  }

  /**
    In every run the counter never exceeds the limit, and a directory gets at most as many frames
    as the limit for each time that it was prepared: so no more than the limit if that was once.
  */
  lemma FilesPerPreparation(events: seq<Event>, d: Dir)
    ensures Run(events).nframes <= MAX_FILES_PER_DIR
    ensures Count(Run(events).files, d) <= MAX_FILES_PER_DIR * Count(Run(events).prepared, d)
  {
    RunIsAllowed(events, d);
  }

  function Frames(dir: Dir, n: nat): seq<Event> {
    if n == 0 then [] else Frames(dir, n - 1) + [Store(dir)]
  }

  lemma RunOneMore(events: seq<Event>, e: Event)
    ensures Run(events + [e]) == Step(Run(events), e)
  {
    assert (events + [e])[..|events|] == events;
  }

  /** Storing into dir, which has n frames by the counter and count in all */
  predicate StoresInto(s: State, dir: Dir, n: nat, count: nat) {
    s.isStorage && s.current == Some(dir) && s.nframes == n && Count(s.files, dir) == count
  }

  lemma OneMoreStored(s: State, dir: Dir, n: nat, count: nat)
    requires StoresInto(s, dir, n, count) && n < MAX_FILES_PER_DIR
    ensures StoresInto(Step(s, Store(dir)), dir, n + 1, count + 1)
  {
    CountOneMore(s.files, dir, dir);
  }

  lemma {:induction false} FramesGoToCurrent(events: seq<Event>, dir: Dir, n: nat, m: nat, count: nat)
    requires StoresInto(Run(events), dir, m, count) && m + n <= MAX_FILES_PER_DIR
    ensures StoresInto(Run(events + Frames(dir, n)), dir, m + n, count + n)
    decreases n
  {
    if n == 0 {
      assert events + [] == events;
    } else {
      FramesGoToCurrent(events, dir, n - 1, m, count);
      var before := events + Frames(dir, n - 1);
      OneMoreStored(Run(before), dir, m + n - 1, count + n - 1);
      RunOneMore(before, Store(dir));
      assert events + Frames(dir, n) == before + [Store(dir)];
    }
  }

  /**
    Two start commands in one second, a frame between them, and as many as the limit behind them:
    one too many for the directory
  */
  lemma TwoStartsInOneSecond(dir: Dir)
    ensures var events := [Begin(dir)] + Frames(dir, 1) + [Begin(dir)] + Frames(dir, MAX_FILES_PER_DIR);
            Count(Run(events).files, dir) == MAX_FILES_PER_DIR + 1
  {
    var first := [Begin(dir)];
    assert first[..0] == [] && Run(first) == Step(INITIAL, Begin(dir));
    FramesGoToCurrent(first, dir, 1, 0, 0);
    var second := first + Frames(dir, 1) + [Begin(dir)];
    RunOneMore(first + Frames(dir, 1), Begin(dir));
    FramesGoToCurrent(second, dir, MAX_FILES_PER_DIR, 0, 1);
  }

  // ----- when a directory stays within the limit -----

  /** The frames that d held already when it was last prepared */
  function HeldWhenPrepared(events: seq<Event>, d: Dir): nat {
    if events == [] then 0
    else
      var front, last := events[..|events| - 1], events[|events| - 1];
      if Prepares(Run(front), last) == Some(d) then Count(Run(front).files, d) else HeldWhenPrepared(front, d)
  }

  /** The directory that an event prepares, if any */
  function Prepares(s: State, e: Event): Option<Dir> {
    match e
    case Begin(dir) => Some(dir)
    case End => None
    case Store(dir) => if s.isStorage && s.nframes >= MAX_FILES_PER_DIR then Some(dir) else None
  }

  /** The counter counts what has been added since then */
  lemma {:induction false} CounterCountsSince(events: seq<Event>, d: Dir)
    requires Run(events).current == Some(d)
    ensures Count(Run(events).files, d) == HeldWhenPrepared(events, d) + Run(events).nframes
  {
    var front, last := events[..|events| - 1], events[|events| - 1];
    var s := Run(front);
    RunIsAllowed(front, d);
    if Prepares(s, last) == None {
      CounterCountsSince(front, d);
    }
    if last.Store? && s.isStorage {
      CountOneMore(s.files, d, d);
    }
  }

  /** However many frames follow, until the counter is full, d stays within the limit */
  ghost predicate StaysWithin(events: seq<Event>, d: Dir) {
    forall n: nat :: Run(events).nframes + n <= MAX_FILES_PER_DIR ==>
      Count(Run(events + Frames(d, n)).files, d) <= MAX_FILES_PER_DIR
  }

  /**
    After any run that stores into d: the frames still to come until the counter is full leave d
    within the limit exactly when d held none when it was last prepared.
  */
  lemma WithinLimitExactly(events: seq<Event>, d: Dir)
    requires Run(events).isStorage && Run(events).current == Some(d)
    ensures StaysWithin(events, d) <==> HeldWhenPrepared(events, d) == 0
  {
    var m, held := Run(events).nframes, HeldWhenPrepared(events, d);
    RunIsAllowed(events, d);
    CounterCountsSince(events, d);
    forall n: nat | m + n <= MAX_FILES_PER_DIR
      ensures Count(Run(events + Frames(d, n)).files, d) == held + m + n
    {
      FramesGoToCurrent(events, d, n, m, held + m);
    }
    var full := MAX_FILES_PER_DIR - m;
    assert Count(Run(events + Frames(d, full)).files, d) == held + MAX_FILES_PER_DIR;
  }

  /** Preparing a directory twice does no harm by itself */
  lemma TwoStartsWithoutFrames(dir: Dir)
    ensures var events := [Begin(dir), Begin(dir)];
            Count(Run(events).prepared, dir) == 2 && StaysWithin(events, dir)
  {
    var events := [Begin(dir), Begin(dir)];
    assert events == [Begin(dir)] + [Begin(dir)] && [Begin(dir)] == [] + [Begin(dir)];
    RunOneMore([], Begin(dir));
    RunOneMore([Begin(dir)], Begin(dir));
    CountOneMore([], dir, dir);
    CountOneMore([dir], dir, dir);
    assert [] + [dir] == [dir];
    WithinLimitExactly(events, dir);
  }
}
