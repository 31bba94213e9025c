/**
  What becomes of the images in a run of the three threads of Pipeline: which are stored and which
  are deleted, and why; what the messages to the storage thread go back to; and the countdown.
*/
module Fates {

  import opened MessageQueue
  import opened Pipeline
  import Storage

  // ----- what the storage thread does with the messages it handles -----

  /** The message that a step of the storage thread handles, if any */
  function Handles(s: State, a: Action): seq<Msg> {
    if a.StorageActs? && s.storage.StoreHas? then [s.storage.m] else []
  }

  /** The messages that it has handled in a run */
  function HandledMessages(s: State, actions: seq<Action>): seq<Msg>
    decreases |actions|
  {
    if actions == [] then []
    else
      var front, last := actions[..|actions| - 1], actions[|actions| - 1];
      HandledMessages(s, front) + Handles(Run(s, front), last)
  }

  /** Of the first k messages, the last one that starts or stops storage starts it */
  ghost predicate StartedBefore(messages: seq<Msg>, k: nat)
    requires k <= |messages|
  {
    exists j :: 0 <= j < k && messages[j].StartMsg? && forall i :: j < i < k ==> !messages[i].StopMsg?
  }

  /** The images of the messages that come while storage is started, or of the others, in order */
  ghost function ImagesWhile(messages: seq<Msg>, started: bool): seq<Image> {
    if messages == [] then []
    else
      var n := |messages| - 1;
      ImagesWhile(messages[..n], started) + if StartedBefore(messages, n) == started then ImageOf(messages[n]) else []
  }

  lemma StartedOneMore(messages: seq<Msg>, m: Msg)
    ensures var more := messages + [m];
            && StartedBefore(more, |messages|) == StartedBefore(messages, |messages|)
            && (StartedBefore(more, |more|) <==> m.StartMsg? || (StartedBefore(messages, |messages|) && !m.StopMsg?))
  {
    var more, n := messages + [m], |messages|;
    assert forall i :: 0 <= i < n ==> more[i] == messages[i];
    if m.StartMsg? {
      assert more[n].StartMsg?;
    }
    if StartedBefore(more, |more|) {
      var j :| 0 <= j < |more| && more[j].StartMsg? && forall i :: j < i < |more| ==> !more[i].StopMsg?;
      if j < n {
        assert messages[j].StartMsg? && forall i :: j < i < n ==> !messages[i].StopMsg?;
        assert !more[n].StopMsg?;
      }
    }
    if StartedBefore(messages, n) && !m.StopMsg? {
      var j :| 0 <= j < n && messages[j].StartMsg? && forall i :: j < i < n ==> !messages[i].StopMsg?;
      assert more[j].StartMsg? && forall i :: j < i < n + 1 ==> !more[i].StopMsg?;
    }
  }

  lemma ImagesOneMore(messages: seq<Msg>, m: Msg, started: bool)
    ensures ImagesWhile(messages + [m], started)
            == ImagesWhile(messages, started)
               + if StartedBefore(messages, |messages|) == started then ImageOf(m) else []
  {
    var more := messages + [m];
    assert more[..|messages|] == messages;
    StartedOneMore(messages, m);
  }

  ghost predicate FollowsMessages(s: State, messages: seq<Msg>) {
    && (s.store.isStorage <==> StartedBefore(messages, |messages|))
    && s.album.stored == ImagesWhile(messages, true)
    && forall image :: image in ImagesWhile(messages, false) ==> image in s.album.deleted
  }

  lemma OthersKeepFollowing(s: State, a: Action, messages: seq<Msg>)
    requires FollowsMessages(s, messages) && Handles(s, a) == []
    ensures FollowsMessages(Step(s, a), messages)
  {
    StepStores(s, a);
    OthersLeaveStored(s, a);
  }

  lemma OthersLeaveStored(s: State, a: Action)
    requires Handles(s, a) == []
    ensures Step(s, a).album.stored == s.album.stored && s.album.deleted <= Step(s, a).album.deleted
  {
    match a {
      case GrabberActs(camera) => GrabberLeavesStored(s, camera);
      case MainActs(average, command) => MainLeavesStored(s, average, command);
      case StorageActs(dir) =>
    }
  }

  lemma GrabberLeavesStored(s: State, camera: bool)
    ensures GrabberStep(s, camera).album.stored == s.album.stored
    ensures s.album.deleted <= GrabberStep(s, camera).album.deleted
  {
  }

  lemma MainLeavesStored(s: State, average: bool, command: ClientCommand)
    ensures MainStep(s, average, command).album.stored == s.album.stored
    ensures s.album.deleted <= MainStep(s, average, command).album.deleted
  {
  }

  lemma HandlingFollows(s: State, dir: Storage.Dir, messages: seq<Msg>)
    requires FollowsMessages(s, messages) && s.storage.StoreHas?
    ensures FollowsMessages(Step(s, StorageActs(dir)), messages + [s.storage.m])
  {
    var m := s.storage.m;
    StartedOneMore(messages, m);
    ImagesOneMore(messages, m, true);
    ImagesOneMore(messages, m, false);
  }

  /**
    In every run: storage is on exactly if the last start or stop message handled was a start. The
    images stored are exactly those of the messages handled while it was on, in that order, and
    those of all others are deleted.
  */
  lemma {:induction false} StoredExactly(isFirst: bool, countdown: int, actions: seq<Action>)
    ensures FollowsMessages(Run(Initial(isFirst, countdown), actions),
                            HandledMessages(Initial(isFirst, countdown), actions))
    decreases |actions|
  {
    if actions != [] {
      var first := Initial(isFirst, countdown);
      var front, last := actions[..|actions| - 1], actions[|actions| - 1];
      var s, messages := Run(first, front), HandledMessages(first, front);
      StoredExactly(isFirst, countdown, front);
      if Handles(s, last) == [] {
        OthersKeepFollowing(s, last, messages);
        assert messages + [] == messages;
      } else {
        HandlingFollows(s, last.dir, messages);
      }
    }
  }

  // ----- one file for each frame stored -----

  predicate FitsKind(m: Msg) {
    (m.ImageMsg? ==> m.image.Frame?) && (m.AverageMsg? ==> m.image.Average?)
  }

  predicate AllFit(messages: seq<Msg>) {
    forall k :: 0 <= k < |messages| ==> FitsKind(messages[k])
  }

  predicate MainFits(main: MainAt) {
    match main
    case MainHas(image) => image.Frame?
    case MainForward(image) => image.Frame?
    case MainAverage(average, next) => average.Average? && MainFits(next)
    case _ => true
  }

  /** Frames travel as frames and average images as such */
  predicate KindsFit(s: State) {
    && AllFit(s.queues.server.messages) && AllFit(s.queues.storage.messages)
    && (s.grabber.GrabHas? ==> s.grabber.image.Frame?) && MainFits(s.main)
    && (s.storage.StoreHas? ==> FitsKind(s.storage.m))
  }

  lemma AddedFit(limit: nat, messages: seq<Msg>, m: Msg)
    requires AllFit(messages) && FitsKind(m)
    ensures AllFit(AfterAdd(limit, messages, m))
  {
  }

  lemma TakenFit(q: Fifo)
    requires AllFit(q.messages)
    ensures AllFit(Taken(q).messages) && FitsKind(Head(q))
  {
  }

  lemma GrabberKinds(s: State, camera: bool)
    requires KindsFit(s)
    ensures KindsFit(GrabberStep(s, camera))
  {
    var q := s.queues.server.messages;
    if s.grabber.GrabHas? {
      AddedFit(SERVER_LIMIT, q, ImageMsg(s.grabber.image));
    }
    AddedFit(SERVER_LIMIT, q, StoppedMsg);
  }

  lemma MainKinds(s: State, average: bool, command: ClientCommand)
    requires KindsFit(s) && NoAverages(s.queues.server.messages)
    ensures KindsFit(MainStep(s, average, command))
  {
    TakenFit(s.queues.server);
    match s.main {
      case MainAverage(image, next) => AddedFit(STORAGE_LIMIT, s.queues.storage.messages, AverageMsg(image));
      case MainForward(image) => AddedFit(STORAGE_LIMIT, s.queues.storage.messages, ImageMsg(image));
      case MainCycle(quitting) => CommandKinds(s, quitting, command);
      case MainStopStorage => AddedFit(STORAGE_LIMIT, s.queues.storage.messages, StopMsg);
      case MainExitStorage => AddedFit(STORAGE_LIMIT, s.queues.storage.messages, ExitMsg);
      case _ =>
    }
  }

  lemma CommandKinds(s: State, quitting: bool, command: ClientCommand)
    requires KindsFit(s) && s.main == MainCycle(quitting)
    ensures KindsFit(Commanded(s, quitting, command))
  {
    AddedFit(STORAGE_LIMIT, s.queues.storage.messages, StartMsg);
    AddedFit(STORAGE_LIMIT, s.queues.storage.messages, StopMsg);
  }

  lemma StepKinds(s: State, a: Action)
    requires KindsFit(s) && NoAverages(s.queues.server.messages)
    ensures KindsFit(Step(s, a))
  {
    match a {
      case GrabberActs(camera) => GrabberKinds(s, camera);
      case MainActs(average, command) => MainKinds(s, average, command);
      case StorageActs(dir) => TakenFit(s.queues.storage);
    }
  }

  ghost predicate FilesMatch(s: State) {
    KindsFit(s) && |Frames(s.album.stored)| == |s.store.files|
  }

  lemma FramesOfOne(m: Msg)
    requires FitsKind(m)
    ensures |Frames(ImageOf(m))| == if m.ImageMsg? then 1 else 0
  {
    if ImageOf(m) != [] {
      assert ImageOf(m)[1..] == [];
    }
  }

  lemma StepFilesMatch(s: State, a: Action)
    requires FilesMatch(s) && Inv(s)
    ensures FilesMatch(Step(s, a))
  {
    StepKinds(s, a);
    StepStores(s, a);
    if Handles(s, a) == [] {
      OthersLeaveStored(s, a);
    } else {
      var m := s.storage.m;
      FramesConcat(s.album.stored, ImageOf(m));
      FramesOfOne(m);
      assert Storage.WithinAllowance(s.store, a.dir);
    }
  }

  /** In every run there are as many files in the directories as frames were stored */
  lemma {:induction false} OneFileEach(isFirst: bool, countdown: int, actions: seq<Action>)
    ensures FilesMatch(Run(Initial(isFirst, countdown), actions))
    decreases |actions|
  {
    if actions != [] {
      var front, last := actions[..|actions| - 1], actions[|actions| - 1];
      OneFileEach(isFirst, countdown, front);
      EveryRunKeepsInv(isFirst, countdown, front);
      StepFilesMatch(Run(Initial(isFirst, countdown), front), last);
    }
  }

  // ----- why images are deleted -----

  /** The image of the message that is first in a queue */
  function FrontImage(q: Fifo): seq<Image> {
    if q.messages == [] then [] else ImageOf(q.messages[0])
  }

  /** One of the four reasons why a step deletes these images */
  predicate HasReason(s: State, a: Action, images: seq<Image>) {
    || images == []
    || (a.GrabberActs? && s.flags.isFirst && s.grabber.GrabHas? && images == [s.grabber.image])
    || (a.GrabberActs? && |s.queues.server.messages| >= 100 && images == FrontImage(s.queues.server))
    || (a.MainActs? && |s.queues.storage.messages| >= 300 && images == FrontImage(s.queues.storage))
    || (a.StorageActs? && s.storage.StoreHas? && !s.store.isStorage && images == ImageOf(s.storage.m))
  }

  lemma DroppedOfFull(limit: nat, messages: seq<Msg>)
    requires limit > 0
    ensures Images(DroppedBy(limit, messages)) == if |messages| >= limit then ImageOf(messages[0]) else []
  {
    if |messages| >= limit {
      ImagesOfOne(messages[0]);
      assert messages[..1] == [messages[0]];
    }
  }

  /**
    An image is deleted by a queue only when that queue holds its limit of messages, 100 from the
    grabber and 300 to the storage, and then it is the oldest; otherwise only as the first one of
    the camera, or by the storage thread while storage is off.
  */
  lemma DeletedForReason(s: State, a: Action)
    ensures s.album.deleted <= Step(s, a).album.deleted
    ensures HasReason(s, a, Step(s, a).album.deleted[|s.album.deleted|..])
  {
    DroppedOfFull(SERVER_LIMIT, s.queues.server.messages);
    DroppedOfFull(STORAGE_LIMIT, s.queues.storage.messages);
    var deleted, more := s.album.deleted, Step(s, a).album.deleted;
    match a {
      case GrabberActs(camera) => GrabberDeletes(s, camera);
      case MainActs(average, command) => MainDeletes(s, average, command);
      case StorageActs(dir) =>
        assert more == deleted || more == deleted + ImageOf(s.storage.m);
    }
  }

  lemma GrabberDeletes(s: State, camera: bool)
    ensures var more := GrabberStep(s, camera).album.deleted;
            || more == s.album.deleted
            || more == s.album.deleted + Images(DroppedBy(SERVER_LIMIT, s.queues.server.messages))
            || (s.flags.isFirst && s.grabber.GrabHas? && more == s.album.deleted + [s.grabber.image])
  {
  }

  lemma MainDeletes(s: State, average: bool, command: ClientCommand)
    ensures var more := MainStep(s, average, command).album.deleted;
            || more == s.album.deleted
            || more == s.album.deleted + Images(DroppedBy(STORAGE_LIMIT, s.queues.storage.messages))
  {
  }

  /** Where the first frame is, if the camera's first image is to be discarded */
  predicate FirstIsGone(s: State) {
    if s.flags.isFirst then
      s.album.captured == 0 || (s.album.captured == 1 && s.grabber.GrabHas? && s.grabber.image == Frame(0))
    else Frame(0) in s.album.deleted
  }

  predicate GrabberHolds(s: State) {
    s.grabber.GrabHas? ==> s.album.captured > 0
  }

  lemma StepDiscardsFirst(s: State, a: Action)
    requires FirstIsGone(s) && GrabberHolds(s)
    ensures FirstIsGone(Step(s, a)) && GrabberHolds(Step(s, a))
  {
    DeletedForReason(s, a);
    match a {
      case GrabberActs(camera) => GrabberDiscardsFirst(s, camera);
      case MainActs(average, command) => MainLeavesFirst(s, average, command);
      case StorageActs(dir) =>
    }
  }

  lemma GrabberDiscardsFirst(s: State, camera: bool)
    requires FirstIsGone(s) && GrabberHolds(s)
    ensures FirstIsGone(GrabberStep(s, camera)) && GrabberHolds(GrabberStep(s, camera))
  {
  }

  lemma MainLeavesFirst(s: State, average: bool, command: ClientCommand)
    ensures var t := MainStep(s, average, command);
            t.grabber == s.grabber && t.album.captured == s.album.captured && t.flags.isFirst == s.flags.isFirst
            && s.album.deleted <= t.album.deleted
  {
  }

  /** With is_first set at first, in every run the first image of the camera is discarded before there is another */
  lemma {:induction false} FirstIsDiscarded(countdown: int, actions: seq<Action>)
    ensures var s := Run(Initial(true, countdown), actions);
            && FirstIsGone(s) && GrabberHolds(s)
            && (s.album.captured > 0 && !s.grabber.GrabHas? ==> Frame(0) in s.album.deleted)
    decreases |actions|
  {
    if actions != [] {
      FirstIsDiscarded(countdown, actions[..|actions| - 1]);
      StepDiscardsFirst(Run(Initial(true, countdown), actions[..|actions| - 1]), actions[|actions| - 1]);
    }
  }

  /** No queue is full at any point of the run */
  predicate NeverFull(s: State, actions: seq<Action>) {
    forall n :: 0 <= n <= |actions| ==>
      var queues := Run(s, actions[..n]).queues;
      |queues.server.messages| < 100 && |queues.storage.messages| < 300
  }

  lemma NeverFullEarlier(s: State, actions: seq<Action>)
    requires actions != [] && NeverFull(s, actions)
    ensures NeverFull(s, actions[..|actions| - 1])
  {
    var front := actions[..|actions| - 1];
    forall n | 0 <= n <= |front|
      ensures Run(s, front[..n]) == Run(s, actions[..n])
    {
      assert front[..n] == actions[..n];
    }
  }

  lemma FirstStaysOver(s: State, a: Action)
    requires !s.flags.isFirst
    ensures !Step(s, a).flags.isFirst
  {
    match a {
      case GrabberActs(camera) =>
      case MainActs(average, command) =>
      case StorageActs(dir) =>
    }
  }

  /**
    In a run in which no queue is ever full, and the camera's first image is kept, the images
    deleted are exactly those that the storage thread has handled while storage was off.
  */
  lemma {:induction false} NothingElseIsLost(countdown: int, actions: seq<Action>)
    requires NeverFull(Initial(false, countdown), actions)
    ensures var s := Run(Initial(false, countdown), actions);
            && !s.flags.isFirst
            && s.album.deleted == ImagesWhile(HandledMessages(Initial(false, countdown), actions), false)
    decreases |actions|
  {
    if actions != [] {
      var first := Initial(false, countdown);
      var front, last := actions[..|actions| - 1], actions[|actions| - 1];
      var s, messages := Run(first, front), HandledMessages(first, front);
      NeverFullEarlier(first, actions);
      NothingElseIsLost(countdown, front);
      StoredExactly(false, countdown, front);
      FirstStaysOver(s, last);
      assert front == actions[..|actions| - 1];
      assert |s.queues.server.messages| < 100 && |s.queues.storage.messages| < 300;
      LosesOnly(s, last, messages);
    }
  }

  lemma LosesOnly(s: State, a: Action, messages: seq<Msg>)
    requires !s.flags.isFirst && |s.queues.server.messages| < 100 && |s.queues.storage.messages| < 300
    requires s.album.deleted == ImagesWhile(messages, false) && FollowsMessages(s, messages)
    ensures Step(s, a).album.deleted == ImagesWhile(messages + Handles(s, a), false)
  {
    var deleted, more := s.album.deleted, Step(s, a).album.deleted;
    if Handles(s, a) == [] {
      DeletedForReason(s, a);
      assert more == deleted + more[|deleted|..] == deleted;
      assert messages + [] == messages;
    } else {
      ImagesOneMore(messages, s.storage.m, false);
      assert deleted + [] == deleted;
    }
  }

  // ----- what starts and stops storage -----

  predicate IsControl(m: Msg) {
    m.StartMsg? || m.StopMsg? || m.ExitMsg?
  }

  function Controls(messages: seq<Msg>): seq<Msg> {
    if messages == [] then []
    else
      var last := messages[|messages| - 1];
      Controls(messages[..|messages| - 1]) + if IsControl(last) then [last] else []
  }

  /**
    What a step orders of the storage thread: a client's command, the end of an acquisition, or
    the end of the program
  */
  function Orders(s: State, a: Action): seq<Msg> {
    if !a.MainActs? then []
    else match s.main
      case MainCycle(_) =>
        if a.command.StorageStart? then [StartMsg] else if a.command.StorageStop? then [StopMsg] else []
      case MainStopStorage => [StopMsg]
      case MainExitStorage => [ExitMsg]
      case _ => []
  }

  function Ordered(s: State, actions: seq<Action>): seq<Msg>
    decreases |actions|
  {
    if actions == [] then []
    else
      var front, last := actions[..|actions| - 1], actions[|actions| - 1];
      Ordered(s, front) + Orders(Run(s, front), last)
  }

  lemma ControlsOneMore(messages: seq<Msg>, m: Msg)
    ensures Controls(messages + [m]) == Controls(messages) + if IsControl(m) then [m] else []
  {
    assert (messages + [m])[..|messages|] == messages;
  }

  lemma OrderArrives(s: State, a: Action)
    ensures Controls(Step(s, a).queues.storage.history) == Controls(s.queues.storage.history) + Orders(s, a)
  {
    match a {
      case GrabberActs(camera) => GrabberOrdersNothing(s, camera);
      case StorageActs(dir) =>
      case MainActs(average, command) => MainOrders(s, average, command);
    }
    assert Controls(s.queues.storage.history) + [] == Controls(s.queues.storage.history);
  }

  lemma GrabberOrdersNothing(s: State, camera: bool)
    ensures GrabberStep(s, camera).queues.storage == s.queues.storage
  {
  }

  lemma MainOrders(s: State, average: bool, command: ClientCommand)
    ensures Controls(MainStep(s, average, command).queues.storage.history)
            == Controls(s.queues.storage.history) + Orders(s, MainActs(average, command))
  {
    if s.main.MainAverage? || s.main.MainForward? || s.main.MainStopStorage? || s.main.MainExitStorage? {
      SentArrives(s, average, command);
    } else if s.main.MainCycle? {
      CommandArrives(s, s.main.quitting, command);
    } else {
      assert MainStep(s, average, command).queues.storage == s.queues.storage;
      assert Controls(s.queues.storage.history) + [] == Controls(s.queues.storage.history);
    }
  }

  lemma SentArrives(s: State, average: bool, command: ClientCommand)
    requires s.main.MainAverage? || s.main.MainForward? || s.main.MainStopStorage? || s.main.MainExitStorage?
    ensures Controls(MainStep(s, average, command).queues.storage.history)
            == Controls(s.queues.storage.history) + Orders(s, MainActs(average, command))
  {
    MainStepSends(s, average, command);
    ControlsOneMore(s.queues.storage.history, Sent(s.main));
    assert IsControl(Sent(s.main)) <==> s.main.MainStopStorage? || s.main.MainExitStorage?;
  }

  lemma CommandArrives(s: State, quitting: bool, command: ClientCommand)
    requires s.main == MainCycle(quitting)
    ensures Controls(Commanded(s, quitting, command).queues.storage.history)
            == Controls(s.queues.storage.history) + Orders(s, MainActs(false, command))
  {
    var h := s.queues.storage.history;
    ControlsOneMore(h, StartMsg);
    ControlsOneMore(h, StopMsg);
    assert Controls(h) + [] == Controls(h);
  }

  /** Over every run: the storage thread is sent exactly the starts and stops that were ordered, in order */
  lemma {:induction false} OrdersArrive(isFirst: bool, countdown: int, actions: seq<Action>)
    ensures var s := Initial(isFirst, countdown);
            Controls(Run(s, actions).queues.storage.history) == Ordered(s, actions)
    decreases |actions|
  {
    if actions != [] {
      var s, front := Initial(isFirst, countdown), actions[..|actions| - 1];
      OrdersArrive(isFirst, countdown, front);
      OrderArrives(Run(s, front), actions[|actions| - 1]);
    }
  }

  /** The same for the grabber thread: the commands of clients, and the end of the program */
  function GrabberOrders(s: State, a: Action): seq<Msg> {
    if !a.MainActs? then []
    else match s.main
      case MainCycle(_) =>
        if a.command.AcquisitionStart? then [StartMsg]
        else if a.command.AcquisitionStop? then [StopMsg]
        else if a.command.ForGrabber? then [CommandMsg]
        else []
      case MainExitGrabber => [ExitMsg]
      case _ => []
  }

  function GrabberOrdered(s: State, actions: seq<Action>): seq<Msg>
    decreases |actions|
  {
    if actions == [] then []
    else
      var front, last := actions[..|actions| - 1], actions[|actions| - 1];
      GrabberOrdered(s, front) + GrabberOrders(Run(s, front), last)
  }

  lemma GrabberOrderArrives(s: State, a: Action)
    ensures Step(s, a).queues.grabber.history == s.queues.grabber.history + GrabberOrders(s, a)
  {
    var h := s.queues.grabber.history;
    assert h + [] == h;
    match a {
      case GrabberActs(camera) => GrabberKeepsHistory(s, camera);
      case StorageActs(dir) =>
      case MainActs(average, command) => MainOrdersGrabber(s, average, command);
    }
  }

  lemma GrabberKeepsHistory(s: State, camera: bool)
    ensures GrabberStep(s, camera).queues.grabber.history == s.queues.grabber.history
  {
  }

  lemma MainOrdersGrabber(s: State, average: bool, command: ClientCommand)
    ensures MainStep(s, average, command).queues.grabber.history
            == s.queues.grabber.history + GrabberOrders(s, MainActs(average, command))
  {
    var h := s.queues.grabber.history;
    assert h + [] == h;
  }

  /** Over every run: the grabber is sent exactly what was ordered, in order */
  lemma {:induction false} GrabberOrdersArrive(isFirst: bool, countdown: int, actions: seq<Action>)
    ensures var s := Initial(isFirst, countdown);
            Run(s, actions).queues.grabber.history == GrabberOrdered(s, actions)
    decreases |actions|
  {
    if actions != [] {
      var s, front := Initial(isFirst, countdown), actions[..|actions| - 1];
      GrabberOrdersArrive(isFirst, countdown, front);
      GrabberOrderArrives(Run(s, front), actions[|actions| - 1]);
    }
  }

  /** The message, possibly overwritten by the countdown, that the grabber switches on in this step */
  function Switches(s: State, a: Action): seq<Msg> {
    if a.GrabberActs? && s.grabber.GrabSwitch? then [s.grabber.m] else []
  }

  function Switched(s: State, actions: seq<Action>): seq<Msg>
    decreases |actions|
  {
    if actions == [] then []
    else
      var front, last := actions[..|actions| - 1], actions[|actions| - 1];
      Switched(s, front) + Switches(Run(s, front), last)
  }

  lemma StepSwitches(s: State, a: Action)
    ensures var on := Step(s, a).flags.isAcquisition;
            if Switches(s, a) == [] then on == s.flags.isAcquisition
            else on == (s.grabber.m.StartMsg? || (s.flags.isAcquisition && !s.grabber.m.StopMsg?))
  {
    match a {
      case GrabberActs(camera) =>
      case MainActs(average, command) => MainLeavesAcquisition(s, average, command);
      case StorageActs(dir) =>
    }
  }

  lemma MainLeavesAcquisition(s: State, average: bool, command: ClientCommand)
    ensures MainStep(s, average, command).flags.isAcquisition == s.flags.isAcquisition
  {
  }

  /** Over every run: acquisition is on exactly if the last start or stop that the grabber has come to was a start */
  lemma {:induction false} AcquisitionExactly(isFirst: bool, countdown: int, actions: seq<Action>)
    ensures var s := Initial(isFirst, countdown);
            Run(s, actions).flags.isAcquisition
            <==> StartedBefore(Switched(s, actions), |Switched(s, actions)|)
    decreases |actions|
  {
    if actions != [] {
      var s, front, last := Initial(isFirst, countdown), actions[..|actions| - 1], actions[|actions| - 1];
      var messages := Switched(s, front);
      AcquisitionExactly(isFirst, countdown, front);
      StepSwitches(Run(s, front), last);
      if Switches(Run(s, front), last) == [] {
        assert messages + [] == messages;
      } else {
        StartedOneMore(messages, Run(s, front).grabber.m);
      }
    }
  }

  /** The main thread has taken the report of an end of acquisition, and has not yet stopped storage */
  predicate IsStopping(main: MainAt) {
    main.MainStopped? || main.MainStopStorage? || (main.MainAverage? && IsStopping(main.next))
  }

  predicate TakesReport(s: State, a: Action) {
    a.MainActs? && s.main.MainTop? && Head(s.queues.server).StoppedMsg?
  }

  predicate StopsStorage(s: State, a: Action) {
    a.MainActs? && s.main.MainStopStorage?
  }

  function Reports(s: State, actions: seq<Action>): nat
    decreases |actions|
  {
    if actions == [] then 0
    else
      var front, last := actions[..|actions| - 1], actions[|actions| - 1];
      Reports(s, front) + if TakesReport(Run(s, front), last) then 1 else 0
  }

  function Stops(s: State, actions: seq<Action>): nat
    decreases |actions|
  {
    if actions == [] then 0
    else
      var front, last := actions[..|actions| - 1], actions[|actions| - 1];
      Stops(s, front) + if StopsStorage(Run(s, front), last) then 1 else 0
  }

  lemma StepStops(s: State, a: Action)
    ensures (if IsStopping(s.main) then 1 else 0) + (if TakesReport(s, a) then 1 else 0)
            == (if StopsStorage(s, a) then 1 else 0) + (if IsStopping(Step(s, a).main) then 1 else 0)
  {
    match a {
      case GrabberActs(camera) => assert GrabberStep(s, camera).main == s.main;
      case StorageActs(dir) =>
      case MainActs(average, command) =>
        if s.main.MainAverage? {
          assert MainStep(s, average, command).main == s.main.next;
        }
    }
  }

  /** Each report of an end of acquisition makes the main thread stop storage once */
  lemma {:induction false} EachReportStopsOnce(isFirst: bool, countdown: int, actions: seq<Action>)
    ensures var s := Initial(isFirst, countdown);
            Reports(s, actions) == Stops(s, actions) + if IsStopping(Run(s, actions).main) then 1 else 0
    decreases |actions|
  {
    if actions != [] {
      var s, front := Initial(isFirst, countdown), actions[..|actions| - 1];
      EachReportStopsOnce(isFirst, countdown, front);
      StepStops(Run(s, front), actions[|actions| - 1]);
    }
  }

  // ----- the end of the program -----

  /** The storage thread is done exactly when the last message it has handled is the one to exit */
  lemma {:induction false} StorageEndsExactly(isFirst: bool, countdown: int, actions: seq<Action>)
    ensures var first := Initial(isFirst, countdown);
            var messages := HandledMessages(first, actions);
            Run(first, actions).storage.StoreDone? <==> messages != [] && messages[|messages| - 1].ExitMsg?
    decreases |actions|
  {
    if actions != [] {
      var first := Initial(isFirst, countdown);
      var front, last := actions[..|actions| - 1], actions[|actions| - 1];
      StorageEndsExactly(isFirst, countdown, front);
      StorageOnlyByItself(Run(first, front), last);
      if Handles(Run(first, front), last) == [] {
        assert HandledMessages(first, actions) == HandledMessages(first, front);
      }
    }
  }

  lemma StorageOnlyByItself(s: State, a: Action)
    ensures if Handles(s, a) == [] then Step(s, a).storage.StoreDone? <==> s.storage.StoreDone?
            else Step(s, a).storage.StoreDone? <==> s.storage.m.ExitMsg?
  {
    match a {
      case GrabberActs(camera) => assert GrabberStep(s, camera).storage == s.storage;
      case MainActs(average, command) => assert MainStep(s, average, command).storage == s.storage;
      case StorageActs(dir) =>
    }
  }

  /** The grabber thread is done exactly when the last message it has come to is the one to exit */
  lemma {:induction false} GrabberEndsExactly(isFirst: bool, countdown: int, actions: seq<Action>)
    ensures var first := Initial(isFirst, countdown);
            var messages := Switched(first, actions);
            Run(first, actions).grabber.GrabDone? <==> messages != [] && messages[|messages| - 1].ExitMsg?
    decreases |actions|
  {
    if actions != [] {
      var first := Initial(isFirst, countdown);
      var front, last := actions[..|actions| - 1], actions[|actions| - 1];
      GrabberEndsExactly(isFirst, countdown, front);
      GrabberOnlyByItself(Run(first, front), last);
      if Switches(Run(first, front), last) == [] {
        assert Switched(first, actions) == Switched(first, front);
      }
    }
  }

  lemma GrabberOnlyByItself(s: State, a: Action)
    ensures if Switches(s, a) == [] then Step(s, a).grabber.GrabDone? <==> s.grabber.GrabDone?
            else Step(s, a).grabber.GrabDone? <==> s.grabber.m.ExitMsg?
  {
    match a {
      case GrabberActs(camera) =>
      case MainActs(average, command) => assert MainStep(s, average, command).grabber == s.grabber;
      case StorageActs(dir) =>
    }
  }

  /** On its way out, in the order of its steps: the rest of its cycles, both messages to exit, the end */
  predicate IsQuitting(main: MainAt) {
    main == MainCycle(true) || main.MainExitGrabber? || main.MainExitStorage? || main.MainDone?
  }

  predicate IsQuit(s: State, a: Action) {
    a.MainActs? && s.main.MainCycle? && a.command.Quit?
  }

  predicate HasQuit(s: State, actions: seq<Action>)
    decreases |actions|
  {
    actions != [] &&
    var front, last := actions[..|actions| - 1], actions[|actions| - 1];
    HasQuit(s, front) || IsQuit(Run(s, front), last)
  }

  lemma StepQuits(s: State, a: Action)
    ensures IsQuitting(Step(s, a).main) <==> IsQuitting(s.main) || IsQuit(s, a) || EndsAverage(s, a)
  {
    match a {
      case GrabberActs(camera) => assert GrabberStep(s, camera).main == s.main;
      case MainActs(average, command) =>
      case StorageActs(dir) =>
    }
  }

  predicate EndsAverage(s: State, a: Action) {
    a.MainActs? && s.main.MainAverage? && IsQuitting(s.main.next)
  }

  predicate AverageGoesOn(main: MainAt) {
    main.MainAverage? ==> main.next.MainForward? || main.next.MainStopStorage?
  }

  lemma StepGoesOn(s: State, a: Action)
    requires AverageGoesOn(s.main)
    ensures AverageGoesOn(Step(s, a).main)
  {
    match a {
      case GrabberActs(camera) => assert GrabberStep(s, camera).main == s.main;
      case MainActs(average, command) =>
      case StorageActs(dir) =>
    }
  }

  /** The main thread is on its way out exactly when a client has asked for that in one of its cycles */
  lemma {:induction false} QuitsExactly(isFirst: bool, countdown: int, actions: seq<Action>)
    ensures var s := Initial(isFirst, countdown);
            AverageGoesOn(Run(s, actions).main) && (IsQuitting(Run(s, actions).main) <==> HasQuit(s, actions))
    decreases |actions|
  {
    if actions != [] {
      var s, front, last := Initial(isFirst, countdown), actions[..|actions| - 1], actions[|actions| - 1];
      QuitsExactly(isFirst, countdown, front);
      StepQuits(Run(s, front), last);
      StepGoesOn(Run(s, front), last);
    }
  }

  // ----- the countdown -----

  /** It is what a client sets it to in a cycle of the main thread; otherwise only the grabber changes it */
  lemma CountdownIsSet(s: State, a: Action)
    requires !a.GrabberActs?
    ensures Step(s, a).flags.countdown
            == if a.MainActs? && s.main.MainCycle? && a.command.SetCountdown? then a.command.n else s.flags.countdown
  {
  }

  /** The grabber at the top of its loop, with no message waiting */
  predicate GrabsFreely(s: State) {
    s.grabber.GrabTop? && s.queues.grabber.messages == [] && !s.flags.isFirst
  }

  /** One turn of its loop in which the camera has a frame */
  function Turn(): (actions: seq<Action>)
    ensures |actions| == 5 && forall k :: 0 <= k < 5 ==> actions[k] == GrabberActs(k == 1)
  {
    seq(5, k => GrabberActs(k == 1))
  }

  function Turns(n: nat): seq<Action> {
    if n == 0 then [] else Turns(n - 1) + Turn()
  }

  lemma {:induction false} RunConcat(s: State, a: seq<Action>, b: seq<Action>)
    ensures Run(s, a + b) == Run(Run(s, a), b)
    decreases |b|
  {
    if b == [] {
      assert a + b == a;
    } else {
      assert (a + b)[..|a + b| - 1] == a + b[..|b| - 1];
      RunConcat(s, a, b[..|b| - 1]);
    }
  }

  lemma RunUpTo(s: State, k: nat)
    requires k < 5
    ensures Run(s, Turn()[..k + 1]) == GrabberStep(Run(s, Turn()[..k]), k == 1)
  {
    assert Turn()[..k + 1][..k] == Turn()[..k];
  }

  /** The reports of the end: one from the countdown, and one from the stop that the countdown brings about */
  const ENDING := [StoppedMsg, StoppedMsg]

  /**
    After n turns from s, with the same number of frames sent to the main thread, and the end
    reported if it has come
  */
  predicate HasCounted(s: State, t: State, n: nat) {
    && GrabsFreely(t) && t.album.captured == s.album.captured + n
    && t.flags.countdown == (if n == s.flags.countdown then -1 else s.flags.countdown - n)
    && (n > 0 && n == s.flags.countdown ==> !t.flags.isAcquisition)
    && t.queues.server.history
       == s.queues.server.history + FramesFrom(s.album.captured, n) + if n == s.flags.countdown then ENDING else []
  }

  function FramesFrom(captured: nat, n: nat): seq<Msg> {
    if n == 0 then [] else FramesFrom(captured, n - 1) + [ImageMsg(Frame(captured + n - 1))]
  }

  /** The grabber has sent a frame, and holds message m */
  predicate HasSent(s: State, u: State, m: Msg) {
    && u.grabber == GrabSent(m) && u.queues.grabber.messages == [] && !u.flags.isFirst
    && u.flags.countdown == s.flags.countdown && u.album.captured == s.album.captured + 1
    && u.queues.server.history == s.queues.server.history + [ImageMsg(Frame(s.album.captured))]
  }

  lemma TakesNothing(s: State)
    requires GrabsFreely(s)
    ensures GrabberStep(s, false) == s.(grabber := GrabWait(NoMsg))
  {
    assert AfterGet(s.queues.grabber.messages) == [];
  }

  lemma SendsFrame(s: State)
    requires GrabsFreely(s)
    ensures HasSent(s, GrabberStep(GrabberStep(s.(grabber := GrabWait(NoMsg)), true), false), NoMsg)
  {
    var t := Capture(s.(grabber := GrabWait(NoMsg)), NoMsg);
    assert t.grabber == GrabHas(Frame(s.album.captured), NoMsg);
  }

  /** The countdown, and what the switch makes of the message */
  lemma CountsDown(s: State, u: State)
    requires HasSent(s, u, NoMsg) && s.flags.countdown >= 1
    ensures var t, n := GrabberStep(GrabberStep(u, false), false), s.flags.countdown;
            && GrabsFreely(t) && t.album.captured == s.album.captured + 1
            && t.flags.countdown == (if n == 1 then -1 else n - 1) && (n == 1 ==> !t.flags.isAcquisition)
            && t.queues.server.history == u.queues.server.history + if n == 1 then ENDING else []
  {
    var h := u.queues.server.history;
    if s.flags.countdown == 1 {
      var v := GrabberStep(u, false);
      assert v.grabber == GrabSwitch(StopMsg) && v.queues.server.history == h + [StoppedMsg];
      assert (h + [StoppedMsg]) + [StoppedMsg] == h + ENDING;
    } else {
      var v := GrabberStep(u, false);
      assert v.grabber == GrabSwitch(NoMsg) && v.queues == u.queues;
      assert h + [] == h;
    }
  }

  lemma TurnIs(s: State)
    ensures Run(s, Turn())
            == GrabberStep(GrabberStep(GrabberStep(GrabberStep(GrabberStep(s, false), true), false), false), false)
  {
    assert Turn()[..0] == [] && Turn()[..5] == Turn();
    RunUpTo(s, 0);
    RunUpTo(s, 1);
    RunUpTo(s, 2);
    RunUpTo(s, 3);
    RunUpTo(s, 4);
  }

  lemma OneTurn(s: State)
    requires GrabsFreely(s) && s.flags.countdown >= 1
    ensures HasCounted(s, Run(s, Turn()), 1)
  {
    var h, m := s.queues.server.history, ImageMsg(Frame(s.album.captured));
    TurnIs(s);
    TakesNothing(s);
    SendsFrame(s);
    CountsDown(s, GrabberStep(GrabberStep(s.(grabber := GrabWait(NoMsg)), true), false));
    assert FramesFrom(s.album.captured, 1) == FramesFrom(s.album.captured, 0) + [m] == [m];
  }

  lemma CountsOn(s: State, t: State, u: State, n: nat)
    requires HasCounted(s, t, n) && n < s.flags.countdown && HasCounted(t, u, 1)
    ensures HasCounted(s, u, n + 1)
  {
    var h, c := s.queues.server.history, s.album.captured;
    assert FramesFrom(c + n, 1) == FramesFrom(c + n, 0) + [ImageMsg(Frame(c + n))] == [ImageMsg(Frame(c + n))];
    assert FramesFrom(c, n + 1) == FramesFrom(c, n) + [ImageMsg(Frame(c + n))];
    assert h + FramesFrom(c, n) + [] + [ImageMsg(Frame(c + n))] == h + FramesFrom(c, n + 1);
  }

  /**
    A countdown of n lets exactly n frames through to the main thread, and behind the last one
    reports the end of the acquisition twice.
  */
  lemma {:induction false} CountdownEnds(s: State, n: nat)
    requires GrabsFreely(s) && n <= s.flags.countdown && s.flags.countdown >= 1
    ensures HasCounted(s, Run(s, Turns(n)), n)
  {
    if n == 0 {
      assert s.queues.server.history + [] + [] == s.queues.server.history;
    } else {
      var t := Run(s, Turns(n - 1));
      CountdownEnds(s, n - 1);
      OneTurn(t);
      RunConcat(s, Turns(n - 1), Turn());
      CountsOn(s, t, Run(t, Turn()), n - 1);
    }
  }
}
