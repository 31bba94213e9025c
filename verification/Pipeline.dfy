/**
  The three threads of the acquisition program as a state machine: the grabber of
  fast_grabber.c, the main thread of fast.c and the storage thread of fast_storage.c, which
  share three bounded queues. A step of a thread is one critical section of a queue or what
  lies between two of them; an action names the thread and what its environment decides.
*/
module Pipeline {
  import opened MessageQueue
  import Storage

  /** An image by its origin: the n-th captured frame, or the n-th average image made of frames */
  datatype Image = Frame(n: nat) | Average(n: nat)

  datatype Msg = NoMsg | ImageMsg(image: Image) | AverageMsg(image: Image)
               | StartMsg | StopMsg | StoppedMsg | CommandMsg | ExitMsg

  const SERVER_LIMIT := 100
  const GRABBER_LIMIT := 100
  const STORAGE_LIMIT := 300

  /** Where the grabber thread is in its loop, with the message and the image it holds */
  datatype GrabberAt =
    | GrabTop
    | GrabWait(m: Msg)
    | GrabHas(image: Image, m: Msg)
    | GrabSent(m: Msg)
    | GrabSwitch(m: Msg)
    | GrabDone

  datatype MainAt =
    | MainTop                                     // about to look for a queue message
    | MainCycle(quitting: bool)                   // in the server cycles, where client commands come in
    | MainHas(image: Image)                       // a frame taken from the server queue
    | MainAverage(average: Image, next: MainAt)   // an average image about to be queued
    | MainForward(image: Image)                   // the frame processed, about to be queued for storage
    | MainStopped                                 // end of acquisition seen
    | MainStopStorage
    | MainExitGrabber
    | MainExitStorage
    | MainDone

  datatype StorageAt = StoreTop | StoreHas(m: Msg) | StoreDone

  /** A queue, and all that was ever added to it */
  datatype Fifo = Fifo(messages: seq<Msg>, history: seq<Msg>)

  function Added(limit: nat, q: Fifo, m: Msg): Fifo {
    Fifo(AfterAdd(limit, q.messages, m), q.history + [m])
  }

  function Taken(q: Fifo): Fifo {
    q.(messages := AfterGet(q.messages))
  }

  function Head(q: Fifo): Msg {
    if q.messages == [] then NoMsg else q.messages[0]
  }

  datatype Queues = Queues(grabber: Fifo, server: Fifo, storage: Fifo)

  /** The images made so far and what has become of those out of the threads' hands */
  datatype Album = Album(captured: nat, averaged: nat, stored: seq<Image>, deleted: seq<Image>)

  /** Variables shared or private that steer the threads */
  datatype Flags = Flags(isFirst: bool, countdown: int, isAcquisition: bool)

  /** store is what the storage thread keeps about its directories */
  datatype State = State(queues: Queues, grabber: GrabberAt, main: MainAt, storage: StorageAt, album: Album,
                         flags: Flags, store: Storage.State)

  /** is_first is false in the source as it stands; both values are covered */
  function Initial(isFirst: bool, countdown: int): State {
    var empty := Fifo([], []);
    State(Queues(empty, empty, empty), GrabTop, MainTop, StoreTop, Album(0, 0, [], []),
          Flags(isFirst, countdown, false), Storage.INITIAL)
  }

  function ImageOf(m: Msg): seq<Image> {
    if m.ImageMsg? || m.AverageMsg? then [m.image] else []
  }

  /** The images among some messages, in order */
  function Images(messages: seq<Msg>): seq<Image> {
    if messages == [] then [] else ImageOf(messages[0]) + Images(messages[1..])
  }

  function Deleting(album: Album, images: seq<Image>): Album {
    album.(deleted := album.deleted + images)
  }

  function AddServer(s: State, m: Msg): State {
    s.(queues := s.queues.(server := Added(SERVER_LIMIT, s.queues.server, m)),
       album := Deleting(s.album, Images(DroppedBy(SERVER_LIMIT, s.queues.server.messages))))
  }

  function AddGrabber(s: State, m: Msg): State {
    s.(queues := s.queues.(grabber := Added(GRABBER_LIMIT, s.queues.grabber, m)))
  }

  function AddStorage(s: State, m: Msg): State {
    s.(queues := s.queues.(storage := Added(STORAGE_LIMIT, s.queues.storage, m)),
       album := Deleting(s.album, Images(DroppedBy(STORAGE_LIMIT, s.queues.storage.messages))))
  }

  // ----- the grabber thread -----

  function GrabberStep(s: State, camera: bool): State {
    match s.grabber
    case GrabTop =>
      s.(queues := s.queues.(grabber := Taken(s.queues.grabber)), grabber := GrabWait(Head(s.queues.grabber)))
    case GrabWait(m) =>
      if camera then Capture(s, m) else s.(grabber := GrabSwitch(m))
    case GrabHas(image, m) =>
      if s.flags.isFirst then
        s.(flags := s.flags.(isFirst := false), album := Deleting(s.album, [image]), grabber := GrabSwitch(m))
      else AddServer(s, ImageMsg(image)).(grabber := GrabSent(m))
    case GrabSent(m) =>
      if s.flags.countdown > 1 then s.(flags := s.flags.(countdown := s.flags.countdown - 1), grabber := GrabSwitch(m))
      else if s.flags.countdown == 1 then
        AddServer(s.(flags := s.flags.(countdown := -1)), StoppedMsg).(grabber := GrabSwitch(StopMsg))
      else s.(grabber := GrabSwitch(m))
    case GrabSwitch(m) =>
      if m.StartMsg? then s.(flags := s.flags.(isAcquisition := true), grabber := GrabTop)
      else if m.StopMsg? then AddServer(s.(flags := s.flags.(isAcquisition := false)), StoppedMsg).(grabber := GrabTop)
      else if m.ExitMsg? then s.(grabber := GrabDone)
      else s.(grabber := GrabTop)
    case GrabDone => s
  }

  function Capture(s: State, m: Msg): State {
    s.(album := s.album.(captured := s.album.captured + 1), grabber := GrabHas(Frame(s.album.captured), m))
  }

  // ----- the main thread -----

  /** What the main thread meets in its server cycles: commands of clients, and their end */
  datatype ClientCommand =
    | StorageStart | StorageStop | AcquisitionStart | AcquisitionStop | ForGrabber
    | SetCountdown(n: int)
    | Quit
    | CyclesOver

  /** average: whether an average image falls due at this point */
  function MainStep(s: State, average: bool, command: ClientCommand): State {
    match s.main
    case MainTop =>
      var m := Head(s.queues.server);
      s.(queues := s.queues.(server := Taken(s.queues.server)),
         main := if m.ImageMsg? then MainHas(m.image) else if m.StoppedMsg? then MainStopped else MainCycle(false))
    case MainCycle(quitting) => Commanded(s, quitting, command)
    case MainHas(image) => if average then MakeAverage(s, MainForward(image)) else s.(main := MainForward(image))
    case MainAverage(image, next) => AddStorage(s, AverageMsg(image)).(main := next)
    case MainForward(image) => AddStorage(s, ImageMsg(image)).(main := MainCycle(false))
    case MainStopped => if average then MakeAverage(s, MainStopStorage) else s.(main := MainStopStorage)
    case MainStopStorage => AddStorage(s, StopMsg).(main := MainCycle(false))
    case MainExitGrabber => AddGrabber(s, ExitMsg).(main := MainExitStorage)
    case MainExitStorage => AddStorage(s, ExitMsg).(main := MainDone)
    case MainDone => s
  }

  function MakeAverage(s: State, next: MainAt): State {
    s.(album := s.album.(averaged := s.album.averaged + 1), main := MainAverage(Average(s.album.averaged), next))
  }

  function Commanded(s: State, quitting: bool, command: ClientCommand): State {
    match command
    case StorageStart => AddStorage(s, StartMsg)
    case StorageStop => AddStorage(s, StopMsg)
    case AcquisitionStart => AddGrabber(s, StartMsg)
    case AcquisitionStop => AddGrabber(s, StopMsg)
    case ForGrabber => AddGrabber(s, CommandMsg)
    case SetCountdown(n) => s.(flags := s.flags.(countdown := n))
    case Quit => s.(main := MainCycle(true))
    case CyclesOver => s.(main := if quitting then MainExitGrabber else MainTop)
  }

  // ----- the storage thread -----

  /** dir is the directory that prepare_storage would name at this moment, by object and time */
  function StorageStep(s: State, dir: Storage.Dir): State {
    match s.storage
    case StoreTop =>
      s.(queues := s.queues.(storage := Taken(s.queues.storage)), storage := StoreHas(Head(s.queues.storage)))
    case StoreHas(m) =>
      s.(storage := if m.ExitMsg? then StoreDone else StoreTop,
         store := StoreAfter(s.store, m, dir),
         album := if s.store.isStorage then s.album.(stored := s.album.stored + ImageOf(m))
                  else Deleting(s.album, ImageOf(m)))
    case StoreDone => s
  }

  /** What a message means for the directories */
  function EventsOf(m: Msg, dir: Storage.Dir): seq<Storage.Event> {
    if m.StartMsg? then [Storage.Begin(dir)]
    else if m.StopMsg? then [Storage.End]
    else if m.ImageMsg? then [Storage.Store(dir)]
    else []
  }

  function StoreAfter(store: Storage.State, m: Msg, dir: Storage.Dir): Storage.State {
    var events := EventsOf(m, dir);
    if events == [] then store else Storage.Step(store, events[0])
  }

  datatype Action =
    | GrabberActs(camera: bool)
    | MainActs(average: bool, command: ClientCommand)
    | StorageActs(dir: Storage.Dir)

  function Step(s: State, a: Action): State {
    match a
    case GrabberActs(camera) => GrabberStep(s, camera)
    case MainActs(average, command) => MainStep(s, average, command)
    case StorageActs(dir) => StorageStep(s, dir)
  }

  function Run(s: State, actions: seq<Action>): State
    decreases |actions|
  {
    if actions == [] then s else Step(Run(s, actions[..|actions| - 1]), actions[|actions| - 1])
  }

  // ----- where the images are -----

  function HeldByGrabber(g: GrabberAt): seq<Image> {
    if g.GrabHas? then [g.image] else []
  }

  function HeldByMain(m: MainAt): seq<Image> {
    if m.MainHas? || m.MainForward? then [m.image]
    else if m.MainAverage? then [m.average] + HeldByMain(m.next)
    else []
  }

  function HeldByStorage(s: StorageAt): seq<Image> {
    if s.StoreHas? then ImageOf(s.m) else []
  }

  function Cat<T>(a: seq<T>, b: seq<T>, c: seq<T>, d: seq<T>, e: seq<T>, f: seq<T>): seq<T> {
    a + b + c + d + e + f
  }

  /** All images that are not deleted, from the one stored first to the one captured last */
  function Line(s: State): seq<Image> {
    Cat(s.album.stored, HeldByStorage(s.storage), Images(s.queues.storage.messages), HeldByMain(s.main),
        Images(s.queues.server.messages), HeldByGrabber(s.grabber))
  }

  function FrameOf(image: Image): seq<nat> {
    if image.Frame? then [image.n] else []
  }

  function Frames(images: seq<Image>): seq<nat> {
    if images == [] then [] else FrameOf(images[0]) + Frames(images[1..])
  }

  function Count(images: seq<Image>, image: Image): nat {
    if images == [] then 0 else (if images[0] == image then 1 else 0) + Count(images[1..], image)
  }

  predicate Increasing(ns: seq<nat>) {
    forall i, j :: 0 <= i < j < |ns| ==> ns[i] < ns[j]
  }

  /**
    The account of the images, when the first captured frames and averaged averages have been
    made: each is in exactly one place of the line or was deleted exactly once, and the frames
    stand in the line in the order of their capture.
  */
  ghost predicate Accounted(line: seq<Image>, deleted: seq<Image>, captured: nat, averaged: nat) {
    && (forall image :: Count(line, image) + Count(deleted, image) == if IsMade(image, captured, averaged) then 1
        else 0)
    && Increasing(Frames(line))
  }

  predicate IsMade(image: Image, captured: nat, averaged: nat) {
    if image.Frame? then image.n < captured else image.n < averaged
  }

  ghost predicate ImagesAccounted(s: State) {
    Accounted(Line(s), s.album.deleted, s.album.captured, s.album.averaged)
  }

  predicate NoAverages(messages: seq<Msg>) {
    forall k :: 0 <= k < |messages| ==> !messages[k].AverageMsg?
  }

  /** Each queue is the most recent part of what was added to it; the main thread never gets an average image */
  ghost predicate QueuesFine(q: Queues) {
    && IsRecent(GRABBER_LIMIT, q.grabber.messages, q.grabber.history)
    && IsRecent(SERVER_LIMIT, q.server.messages, q.server.history)
    && IsRecent(STORAGE_LIMIT, q.storage.messages, q.storage.history)
    && NoAverages(q.server.messages)
  }

  ghost predicate Inv(s: State) {
    ImagesAccounted(s) && QueuesFine(s.queues) && forall d :: Storage.WithinAllowance(s.store, d)
  }

  // ----- sequences -----

  lemma {:induction false} ImagesConcat(a: seq<Msg>, b: seq<Msg>)
    ensures Images(a + b) == Images(a) + Images(b)
  {
    if a == [] {
      assert a + b == b;
    } else {
      assert (a + b)[0] == a[0] && (a + b)[1..] == a[1..] + b;
      ImagesConcat(a[1..], b);
      assert ImageOf(a[0]) + (Images(a[1..]) + Images(b)) == Images(a) + Images(b);
    }
  }

  lemma {:induction false} FramesConcat(a: seq<Image>, b: seq<Image>)
    ensures Frames(a + b) == Frames(a) + Frames(b)
  {
    if a == [] {
      assert a + b == b;
    } else {
      assert (a + b)[0] == a[0] && (a + b)[1..] == a[1..] + b;
      FramesConcat(a[1..], b);
      assert FrameOf(a[0]) + (Frames(a[1..]) + Frames(b)) == Frames(a) + Frames(b);
    }
  }

  lemma {:induction false} CountConcat(a: seq<Image>, b: seq<Image>, image: Image)
    ensures Count(a + b, image) == Count(a, image) + Count(b, image)
  {
    if a == [] {
      assert a + b == b;
    } else {
      assert (a + b)[1..] == a[1..] + b;
      CountConcat(a[1..], b, image);
    }
  }

  lemma {:induction false} FramesAre(images: seq<Image>, n: nat)
    ensures n in Frames(images) <==> Count(images, Frame(n)) > 0
  {
    if images != [] {
      FramesAre(images[1..], n);
    }
  }

  lemma ImagesOfOne(m: Msg)
    ensures Images([m]) == ImageOf(m)
  {
    assert [m][1..] == [];
    assert ImageOf(m) + [] == ImageOf(m);
  }

  /** A queue operation, seen through the images in the queue */
  lemma AddedImages(limit: nat, queue: seq<Msg>, m: Msg)
    ensures Images(queue) + ImageOf(m) == Images(DroppedBy(limit, queue)) + Images(AfterAdd(limit, queue, m))
  {
    ImagesOfOne(m);
    ImagesConcat(queue, [m]);
    ImagesConcat(DroppedBy(limit, queue), AfterAdd(limit, queue, m));
    assert queue + [m] == DroppedBy(limit, queue) + AfterAdd(limit, queue, m);
  }

  lemma TakenImages(q: Fifo)
    ensures Images(q.messages) == ImageOf(Head(q)) + Images(Taken(q).messages)
  {
  }

  // ----- the three ways a step treats the line of images -----

  /** b leaves the line and is deleted */
  lemma RemovalIsSafe(a: seq<Image>, b: seq<Image>, c: seq<Image>, deleted: seq<Image>, n: nat, m: nat)
    requires Accounted(a + b + c, deleted, n, m)
    ensures Accounted(a + c, deleted + b, n, m)
  {
    FramesConcat(a + b, c);
    FramesConcat(a, b);
    FramesConcat(a, c);
    IncreasingWithout(Frames(a), Frames(b), Frames(c));
    forall image
      ensures Count(a + c, image) + Count(deleted + b, image) == Count(a + b + c, image) + Count(deleted, image)
    {
      CountConcat(a + b, c, image);
      CountConcat(a, b, image);
      CountConcat(a, c, image);
      CountConcat(deleted, b, image);
    }
  }

  lemma IncreasingWithout(f: seq<nat>, g: seq<nat>, h: seq<nat>)
    requires Increasing(f + g + h)
    ensures Increasing(f + h)
  {
    var all, some := f + g + h, f + h;
    forall i, j | 0 <= i < j < |some|
      ensures some[i] < some[j]
    {
      var i' := if i < |f| then i else i + |g|;
      var j' := if j < |f| then j else j + |g|;
      assert some[i] == all[i'] && some[j] == all[j'];
    }
  }

  /** A frame is captured and joins the end of the line */
  lemma CaptureIsSafe(line: seq<Image>, deleted: seq<Image>, n: nat, m: nat)
    requires Accounted(line, deleted, n, m)
    ensures Accounted(line + [Frame(n)], deleted, n + 1, m)
  {
    var f := Frames(line);
    FramesConcat(line, [Frame(n)]);
    assert [Frame(n)][1..] == [];
    assert Frames([Frame(n)]) == [n];
    forall i | 0 <= i < |f|
      ensures f[i] < n
    {
      FramesAre(line, f[i]);
    }
    forall image
      ensures Count(line + [Frame(n)], image) == Count(line, image) + if image == Frame(n) then 1 else 0
    {
      CountConcat(line, [Frame(n)], image);
    }
  }

  /** An average image appears somewhere in the line */
  lemma AverageIsSafe(a: seq<Image>, c: seq<Image>, deleted: seq<Image>, n: nat, m: nat)
    requires Accounted(a + c, deleted, n, m)
    ensures Accounted(a + [Average(m)] + c, deleted, n, m + 1)
  {
    var one := [Average(m)];
    FramesConcat(a, c);
    FramesConcat(a + one, c);
    FramesConcat(a, one);
    assert one[1..] == [];
    assert Frames(one) == [] && Frames(a) + [] == Frames(a);
    forall image
      ensures Count(a + one + c, image) == Count(a + c, image) + if image == Average(m) then 1 else 0
    {
      CountConcat(a + one, c, image);
      CountConcat(a, one, image);
      CountConcat(a, c, image);
    }
  }

  // ----- the line, one part changing -----

  lemma CatStorageAdd<T>(a: seq<T>, b: seq<T>, c: seq<T>, x: seq<T>, d': seq<T>, e: seq<T>, f: seq<T>, drop: seq<T>,
      c': seq<T>)
    requires c + x == drop + c'
    ensures Cat(a, b, c, x + d', e, f) == (a + b) + drop + (c' + d' + e + f)
    ensures Cat(a, b, c', d', e, f) == (a + b) + (c' + d' + e + f)
  {
    assert a + b + c + (x + d') == a + b + (c + x) + d';
    assert a + b + (drop + c') + d' == a + b + drop + (c' + d');
    assert a + b + drop + (c' + d') + e + f == (a + b) + drop + (c' + d' + e + f);
  }

  lemma CatServerAdd<T>(a: seq<T>, b: seq<T>, c: seq<T>, d: seq<T>, e: seq<T>, x: seq<T>, drop: seq<T>, e': seq<T>)
    requires e + x == drop + e'
    ensures Cat(a, b, c, d, e, x) == (a + b + c + d) + drop + e'
    ensures Cat(a, b, c, d, e', []) == (a + b + c + d) + e'
  {
    assert a + b + c + d + e + x == a + b + c + d + (e + x);
    assert a + b + c + d + (drop + e') == (a + b + c + d) + drop + e';
  }

  lemma CatMainTake<T>(a: seq<T>, b: seq<T>, c: seq<T>, x: seq<T>, e': seq<T>, f: seq<T>)
    ensures Cat(a, b, c, [], x + e', f) == Cat(a, b, c, x, e', f)
  {
  }

  lemma CatStorageTake<T>(a: seq<T>, x: seq<T>, c': seq<T>, d: seq<T>, e: seq<T>, f: seq<T>)
    ensures Cat(a, [], x + c', d, e, f) == Cat(a, x, c', d, e, f)
  {
  }

  lemma CatStored<T>(a: seq<T>, x: seq<T>, c: seq<T>, d: seq<T>, e: seq<T>, f: seq<T>)
    ensures Cat(a + x, [], c, d, e, f) == Cat(a, x, c, d, e, f)
    ensures Cat(a, x, c, d, e, f) == a + x + (c + d + e + f)
    ensures Cat(a, [], c, d, e, f) == a + (c + d + e + f)
  {
  }

  lemma CatAverage<T>(a: seq<T>, b: seq<T>, c: seq<T>, one: seq<T>, d: seq<T>, e: seq<T>, f: seq<T>)
    ensures Cat(a, b, c, one + d, e, f) == (a + b + c) + one + (d + e + f)
    ensures Cat(a, b, c, d, e, f) == (a + b + c) + (d + e + f)
  {
  }

  // ----- every step keeps the account -----

  /** Queueing for storage what the main thread holds in front, or a message without an image */
  lemma StorageAdded(s: State, m: Msg, main': MainAt)
    requires ImagesAccounted(s)
    requires HeldByMain(s.main) == ImageOf(m) + HeldByMain(main')
    ensures ImagesAccounted(AddStorage(s, m).(main := main'))
  {
    var q := s.queues.storage.messages;
    var drop, c' := Images(DroppedBy(STORAGE_LIMIT, q)), Images(AfterAdd(STORAGE_LIMIT, q, m));
    var a, b, d' := s.album.stored, HeldByStorage(s.storage), HeldByMain(main');
    var e, f := Images(s.queues.server.messages), HeldByGrabber(s.grabber);
    AddedImages(STORAGE_LIMIT, q, m);
    CatStorageAdd(a, b, Images(q), ImageOf(m), d', e, f, drop, c');
    RemovalIsSafe(a + b, drop, c' + d' + e + f, s.album.deleted, s.album.captured, s.album.averaged);
  }

  /** Queueing for the main thread what the grabber holds, or a message without an image */
  lemma ServerAdded(s: State, m: Msg, grabber': GrabberAt)
    requires ImagesAccounted(s)
    requires HeldByGrabber(s.grabber) == ImageOf(m) && HeldByGrabber(grabber') == []
    ensures ImagesAccounted(AddServer(s, m).(grabber := grabber'))
  {
    var q := s.queues.server.messages;
    var drop, e' := Images(DroppedBy(SERVER_LIMIT, q)), Images(AfterAdd(SERVER_LIMIT, q, m));
    var a, b := s.album.stored, HeldByStorage(s.storage);
    var c, d := Images(s.queues.storage.messages), HeldByMain(s.main);
    AddedImages(SERVER_LIMIT, q, m);
    CatServerAdd(a, b, c, d, Images(q), ImageOf(m), drop, e');
    RemovalIsSafe(a + b + c + d, drop, e', s.album.deleted, s.album.captured, s.album.averaged);
  }

  lemma Captured(s: State, m: Msg)
    requires ImagesAccounted(s) && s.grabber == GrabWait(m)
    ensures ImagesAccounted(Capture(s, m))
  {
    assert HeldByGrabber(s.grabber) == [];
    var line := Line(s);
    assert Line(Capture(s, m)) == line + [Frame(s.album.captured)];
    CaptureIsSafe(line, s.album.deleted, s.album.captured, s.album.averaged);
  }

  lemma FirstDiscarded(s: State, image: Image, m: Msg)
    requires ImagesAccounted(s) && s.grabber == GrabHas(image, m) && s.flags.isFirst
    ensures ImagesAccounted(GrabberStep(s, false))
  {
    var front := s.album.stored + HeldByStorage(s.storage) + Images(s.queues.storage.messages) + HeldByMain(s.main)
                 + Images(s.queues.server.messages);
    assert front + [image] + [] == front + [image] && front + [] == front;
    RemovalIsSafe(front, [image], [], s.album.deleted, s.album.captured, s.album.averaged);
  }

  lemma GrabberImages(s: State, camera: bool)
    requires ImagesAccounted(s)
    ensures ImagesAccounted(GrabberStep(s, camera))
  {
    match s.grabber {
      case GrabTop =>
      case GrabWait(m) => if camera { Captured(s, m); }
      case GrabHas(image, m) =>
        if s.flags.isFirst {
          FirstDiscarded(s, image, m);
        } else {
          ServerAdded(s, ImageMsg(image), GrabSent(m));
        }
      case GrabSent(m) => GrabberStops(s, camera);
      case GrabSwitch(m) => GrabberStops(s, camera);
      case GrabDone =>
    }
  }

  /** A step that moves no image keeps the account */
  lemma OnlyMoves(s: State, t: State)
    requires ImagesAccounted(s) && t.queues == s.queues && t.album == s.album && t.main == s.main
             && t.storage == s.storage
    requires HeldByGrabber(t.grabber) == HeldByGrabber(s.grabber)
    ensures ImagesAccounted(t)
  {
    assert Line(t) == Line(s);
  }

  lemma StoppedReported(s: State, flags: Flags, next: GrabberAt)
    requires ImagesAccounted(s) && HeldByGrabber(s.grabber) == HeldByGrabber(next) == []
    ensures ImagesAccounted(AddServer(s.(flags := flags), StoppedMsg).(grabber := next))
  {
    OnlyMoves(s, s.(flags := flags));
    ServerAdded(s.(flags := flags), StoppedMsg, next);
  }

  /** The end of the countdown, or a stop message, is reported to the main thread */
  lemma GrabberStops(s: State, camera: bool)
    requires ImagesAccounted(s) && (s.grabber.GrabSent? || s.grabber.GrabSwitch?)
    ensures ImagesAccounted(GrabberStep(s, camera))
  {
    if s.grabber.GrabSent? && s.flags.countdown == 1 {
      StoppedReported(s, s.flags.(countdown := -1), GrabSwitch(StopMsg));
    } else if s.grabber.GrabSwitch? && s.grabber.m.StopMsg? {
      StoppedReported(s, s.flags.(isAcquisition := false), GrabTop);
    } else {
      OnlyMoves(s, GrabberStep(s, camera));
    }
  }

  /** The main thread takes a message: its image, if any, moves from the queue to the thread */
  lemma MainTakes(s: State, average: bool, command: ClientCommand)
    requires ImagesAccounted(s) && NoAverages(s.queues.server.messages) && s.main == MainTop
    ensures ImagesAccounted(MainStep(s, average, command))
  {
    var t := MainStep(s, average, command);
    var q, m := s.queues.server, Head(s.queues.server);
    TakenImages(q);
    assert HeldByMain(t.main) == ImageOf(m);
    CatMainTake(s.album.stored, HeldByStorage(s.storage), Images(s.queues.storage.messages), ImageOf(m),
                Images(Taken(q).messages), HeldByGrabber(s.grabber));
    assert Line(t) == Line(s);
  }

  /** An average image is made and held in front of what the main thread holds already */
  lemma AverageMade(s: State, next: MainAt)
    requires ImagesAccounted(s) && HeldByMain(s.main) == HeldByMain(next)
    ensures ImagesAccounted(MakeAverage(s, next))
  {
    var a, b, c := s.album.stored, HeldByStorage(s.storage), Images(s.queues.storage.messages);
    var d, e, f := HeldByMain(next), Images(s.queues.server.messages), HeldByGrabber(s.grabber);
    CatAverage(a, b, c, [Average(s.album.averaged)], d, e, f);
    AverageIsSafe(a + b + c, d + e + f, s.album.deleted, s.album.captured, s.album.averaged);
  }

  lemma MainImages(s: State, average: bool, command: ClientCommand)
    requires ImagesAccounted(s) && NoAverages(s.queues.server.messages)
    ensures ImagesAccounted(MainStep(s, average, command))
  {
    match s.main {
      case MainTop => MainTakes(s, average, command);
      case MainCycle(quitting) => CommandImages(s, quitting, command);
      case MainHas(image) => if average { AverageMade(s, MainForward(image)); }
      case MainStopped => if average { AverageMade(s, MainStopStorage); }
      case MainAverage(image, next) => MainSends(s, average, command);
      case MainForward(image) => MainSends(s, average, command);
      case MainStopStorage => MainSends(s, average, command);
      case MainExitGrabber =>
      case MainExitStorage => MainSends(s, average, command);
      case MainDone =>
    }
  }

  lemma MainSends(s: State, average: bool, command: ClientCommand)
    requires ImagesAccounted(s)
    requires s.main.MainAverage? || s.main.MainForward? || s.main.MainStopStorage? || s.main.MainExitStorage?
    ensures ImagesAccounted(MainStep(s, average, command))
  {
    var m, next := Sent(s.main), AfterSending(s.main);
    MainStepSends(s, average, command);
    StorageAdded(s, m, next);
  }

  /** What the main thread sends to the storage thread, and where it goes on */
  function Sent(main: MainAt): Msg {
    if main.MainAverage? then AverageMsg(main.average) else if main.MainForward? then ImageMsg(main.image)
    else if main.MainStopStorage? then StopMsg else ExitMsg
  }

  function AfterSending(main: MainAt): MainAt {
    if main.MainAverage? then main.next else if main.MainExitStorage? then MainDone else MainCycle(false)
  }

  lemma MainStepSends(s: State, average: bool, command: ClientCommand)
    requires s.main.MainAverage? || s.main.MainForward? || s.main.MainStopStorage? || s.main.MainExitStorage?
    ensures MainStep(s, average, command) == AddStorage(s, Sent(s.main)).(main := AfterSending(s.main))
    ensures HeldByMain(s.main) == ImageOf(Sent(s.main)) + HeldByMain(AfterSending(s.main))
  {
  }

  lemma CommandImages(s: State, quitting: bool, command: ClientCommand)
    requires ImagesAccounted(s) && s.main == MainCycle(quitting)
    ensures ImagesAccounted(Commanded(s, quitting, command))
  {
    match command {
      case StorageStart => StorageAdded(s, StartMsg, s.main);
      case StorageStop => StorageAdded(s, StopMsg, s.main);
      case AcquisitionStart =>
      case AcquisitionStop =>
      case ForGrabber =>
      case SetCountdown(n) =>
      case Quit =>
      case CyclesOver =>
    }
  }

  lemma StorageTakes(s: State, dir: Storage.Dir)
    requires ImagesAccounted(s) && s.storage == StoreTop
    ensures ImagesAccounted(StorageStep(s, dir))
  {
    var q := s.queues.storage;
    TakenImages(q);
    CatStorageTake(s.album.stored, ImageOf(Head(q)), Images(Taken(q).messages), HeldByMain(s.main),
                   Images(s.queues.server.messages), HeldByGrabber(s.grabber));
    assert Line(StorageStep(s, dir)) == Line(s);
  }

  lemma StorageHandles(s: State, m: Msg, dir: Storage.Dir)
    requires ImagesAccounted(s) && s.storage == StoreHas(m)
    ensures ImagesAccounted(StorageStep(s, dir))
  {
    var c, d := Images(s.queues.storage.messages), HeldByMain(s.main);
    var e, f := Images(s.queues.server.messages), HeldByGrabber(s.grabber);
    CatStored(s.album.stored, ImageOf(m), c, d, e, f);
    if !s.store.isStorage {
      RemovalIsSafe(s.album.stored, ImageOf(m), c + d + e + f, s.album.deleted, s.album.captured, s.album.averaged);
    }
  }

  lemma StorageImages(s: State, dir: Storage.Dir)
    requires ImagesAccounted(s)
    ensures ImagesAccounted(StorageStep(s, dir))
  {
    match s.storage {
      case StoreTop => StorageTakes(s, dir);
      case StoreHas(m) => StorageHandles(s, m, dir);
      case StoreDone =>
    }
  }

  // ----- every step keeps the queues -----

  lemma AddKeepsQueues(q: Queues, m: Msg)
    requires QueuesFine(q)
    ensures !m.AverageMsg? ==> QueuesFine(q.(server := Added(SERVER_LIMIT, q.server, m)))
    ensures QueuesFine(q.(storage := Added(STORAGE_LIMIT, q.storage, m)))
    ensures QueuesFine(q.(grabber := Added(GRABBER_LIMIT, q.grabber, m)))
  {
    AddKeepsRecent(SERVER_LIMIT, q.server.messages, q.server.history, m);
    AddKeepsRecent(STORAGE_LIMIT, q.storage.messages, q.storage.history, m);
    AddKeepsRecent(GRABBER_LIMIT, q.grabber.messages, q.grabber.history, m);
  }

  lemma TakeKeepsQueues(q: Queues)
    requires QueuesFine(q)
    ensures QueuesFine(q.(server := Taken(q.server)))
    ensures QueuesFine(q.(storage := Taken(q.storage)))
    ensures QueuesFine(q.(grabber := Taken(q.grabber)))
  {
    GetKeepsRecent(SERVER_LIMIT, q.server.messages, q.server.history);
    GetKeepsRecent(STORAGE_LIMIT, q.storage.messages, q.storage.history);
    GetKeepsRecent(GRABBER_LIMIT, q.grabber.messages, q.grabber.history);
  }

  /** What a step can do to the queues: nothing, take from one, or add to one */
  ghost predicate QueuesMove(q: Queues, r: Queues) {
    || r == q
    || r == q.(grabber := Taken(q.grabber)) || r == q.(server := Taken(q.server))
        || r == q.(storage := Taken(q.storage))
    || exists m: Msg :: QueuesGet(q, r, m)
  }

  ghost predicate QueuesGet(q: Queues, r: Queues, m: Msg) {
    || r == q.(grabber := Added(GRABBER_LIMIT, q.grabber, m))
    || r == q.(storage := Added(STORAGE_LIMIT, q.storage, m))
    || (r == q.(server := Added(SERVER_LIMIT, q.server, m)) && !m.AverageMsg?)
  }

  lemma QueuesMoveSafely(q: Queues, r: Queues)
    requires QueuesFine(q) && QueuesMove(q, r)
    ensures QueuesFine(r)
  {
    TakeKeepsQueues(q);
    if m: Msg :| QueuesGet(q, r, m) {
      AddKeepsQueues(q, m);
    }
  }

  lemma GrabberQueues(s: State, camera: bool)
    ensures QueuesMove(s.queues, GrabberStep(s, camera).queues)
  {
    var r := GrabberStep(s, camera).queues;
    match s.grabber {
      case GrabTop =>
      case GrabWait(m) =>
      case GrabHas(image, m) => assert s.flags.isFirst || QueuesGet(s.queues, r, ImageMsg(image));
      case GrabSent(m) => assert s.flags.countdown != 1 || QueuesGet(s.queues, r, StoppedMsg);
      case GrabSwitch(m) => assert !m.StopMsg? || QueuesGet(s.queues, r, StoppedMsg);
      case GrabDone =>
    }
  }

  lemma MainQueues(s: State, average: bool, command: ClientCommand)
    ensures QueuesMove(s.queues, MainStep(s, average, command).queues)
  {
    var r := MainStep(s, average, command).queues;
    match s.main {
      case MainTop =>
      case MainCycle(quitting) => CommandQueues(s, quitting, command);
      case MainHas(image) =>
      case MainAverage(image, next) => assert QueuesGet(s.queues, r, AverageMsg(image));
      case MainForward(image) => assert QueuesGet(s.queues, r, ImageMsg(image));
      case MainStopped =>
      case MainStopStorage => assert QueuesGet(s.queues, r, StopMsg);
      case MainExitGrabber => assert QueuesGet(s.queues, r, ExitMsg);
      case MainExitStorage => assert QueuesGet(s.queues, r, ExitMsg);
      case MainDone =>
    }
  }

  lemma CommandQueues(s: State, quitting: bool, command: ClientCommand)
    ensures QueuesMove(s.queues, Commanded(s, quitting, command).queues)
  {
    var r := Commanded(s, quitting, command).queues;
    match command {
      case StorageStart => assert QueuesGet(s.queues, r, StartMsg);
      case StorageStop => assert QueuesGet(s.queues, r, StopMsg);
      case AcquisitionStart => assert QueuesGet(s.queues, r, StartMsg);
      case AcquisitionStop => assert QueuesGet(s.queues, r, StopMsg);
      case ForGrabber => assert QueuesGet(s.queues, r, CommandMsg);
      case SetCountdown(n) =>
      case Quit =>
      case CyclesOver =>
    }
  }

  lemma StepQueues(s: State, action: Action)
    ensures QueuesMove(s.queues, Step(s, action).queues)
  {
    match action {
      case GrabberActs(camera) => GrabberQueues(s, camera);
      case MainActs(average, command) => MainQueues(s, average, command);
      case StorageActs(dir) =>
    }
  }

  lemma StepFiles(s: State, action: Action)
    requires forall d :: Storage.WithinAllowance(s.store, d)
    ensures forall d :: Storage.WithinAllowance(Step(s, action).store, d)
  {
    var events := NextEvents(s, action);
    StepStores(s, action);
    if events != [] {
      forall d ensures Storage.WithinAllowance(Step(s, action).store, d) {
        Storage.StepIsAllowed(s.store, events[0], d);
      }
    }
  }

  /** The storage event, if any, that a step handles */
  function NextEvents(s: State, action: Action): seq<Storage.Event> {
    if action.StorageActs? && s.storage.StoreHas? then EventsOf(s.storage.m, action.dir) else []
  }

  lemma StepStores(s: State, action: Action)
    ensures var events := NextEvents(s, action);
            Step(s, action).store == if events == [] then s.store else Storage.Step(s.store, events[0])
  {
    match action {
      case GrabberActs(camera) => GrabberLeavesStore(s, camera);
      case MainActs(average, command) => MainLeavesStore(s, average, command);
      case StorageActs(dir) =>
    }
  }

  lemma GrabberLeavesStore(s: State, camera: bool)
    ensures GrabberStep(s, camera).store == s.store
  {
  }

  lemma MainLeavesStore(s: State, average: bool, command: ClientCommand)
    ensures MainStep(s, average, command).store == s.store
  {
  }

  lemma StepImages(s: State, action: Action)
    requires ImagesAccounted(s) && NoAverages(s.queues.server.messages)
    ensures ImagesAccounted(Step(s, action))
  {
    match action {
      case GrabberActs(camera) => GrabberImages(s, camera);
      case MainActs(average, command) => MainImages(s, average, command);
      case StorageActs(dir) => StorageImages(s, dir);
    }
  }

  // ----- main results -----

  /** Whatever thread moves next, the invariant survives */
  lemma StepKeepsInv(s: State, action: Action)
    requires Inv(s)
    ensures Inv(Step(s, action))
  {
    StepImages(s, action);
    StepQueues(s, action);
    QueuesMoveSafely(s.queues, Step(s, action).queues);
    StepFiles(s, action);
  }

  /**
    Over all interleavings: every image made has exactly one fate, every queue is the most
    recent part of its history within its limit, the counter of the files never exceeds its
    limit, and no directory gets more frames than that for each time that it was prepared.
  */
  lemma {:induction false} EveryRunKeepsInv(isFirst: bool, countdown: int, actions: seq<Action>)
    ensures Inv(Run(Initial(isFirst, countdown), actions))
    decreases |actions|
  {
    if actions != [] {
      EveryRunKeepsInv(isFirst, countdown, actions[..|actions| - 1]);
      StepKeepsInv(Run(Initial(isFirst, countdown), actions[..|actions| - 1]), actions[|actions| - 1]);
    }
  }

  /** The storage events of a run, one by one */
  function Handled(s: State, actions: seq<Action>): seq<Storage.Event>
    decreases |actions|
  {
    if actions == [] then []
    else
      var front, last := actions[..|actions| - 1], actions[|actions| - 1];
      Handled(s, front) + NextEvents(Run(s, front), last)
  }

  /** The directories of a run are those of its storage events, so what Storage says of these holds of the run */
  lemma {:induction false} StoreFollowsEvents(isFirst: bool, countdown: int, actions: seq<Action>)
    ensures var s := Initial(isFirst, countdown);
            Run(s, actions).store == Storage.Run(Handled(s, actions))
    decreases |actions|
  {
    if actions != [] {
      var s, front, last := Initial(isFirst, countdown), actions[..|actions| - 1], actions[|actions| - 1];
      var events := NextEvents(Run(s, front), last);
      StoreFollowsEvents(isFirst, countdown, front);
      StepStores(Run(s, front), last);
      if events == [] {
        assert Handled(s, front) + [] == Handled(s, front);
      } else {
        assert events == [events[0]];
        Storage.RunOneMore(Handled(s, front), events[0]);
      }
    }
  }

  /** The stored frames are captured ones, each stored once, in the order of capture */
  lemma StoredInCaptureOrder(isFirst: bool, countdown: int, actions: seq<Action>)
    ensures var s := Run(Initial(isFirst, countdown), actions);
            var frames := Frames(s.album.stored);
            Increasing(frames) && forall n :: n in frames ==> n < s.album.captured
  {
    var s := Run(Initial(isFirst, countdown), actions);
    EveryRunKeepsInv(isFirst, countdown, actions);
    PrefixOfLine(s);
    forall n | n in Frames(s.album.stored)
      ensures n < s.album.captured
    {
      FramesAre(Line(s), n);
    }
  }

  lemma PrefixOfLine(s: State)
    requires Increasing(Frames(Line(s)))
    ensures var frames := Frames(s.album.stored);
            Increasing(frames) && forall n :: n in frames ==> n in Frames(Line(s))
  {
    var c, d := Images(s.queues.storage.messages), HeldByMain(s.main);
    var e, f := Images(s.queues.server.messages), HeldByGrabber(s.grabber);
    CatStored(s.album.stored, HeldByStorage(s.storage), c, d, e, f);
    PrefixOfIncreasing(s.album.stored, HeldByStorage(s.storage), c + d + e + f);
  }

  lemma PrefixOfIncreasing(a: seq<Image>, b: seq<Image>, c: seq<Image>)
    requires Increasing(Frames(a + b + c))
    ensures Increasing(Frames(a)) && forall n :: n in Frames(a) ==> n in Frames(a + b + c)
  {
    FramesConcat(a + b, c);
    FramesConcat(a, b);
    IncreasingFront(Frames(a), Frames(b), Frames(c));
  }

  lemma IncreasingFront(f: seq<nat>, g: seq<nat>, h: seq<nat>)
    requires Increasing(f + g + h)
    ensures Increasing(f) && forall n :: n in f ==> n in f + g + h
  {
    var all := f + g + h;
    assert forall i :: 0 <= i < |f| ==> f[i] == all[i];
  }
}
