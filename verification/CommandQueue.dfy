/**
  The queue of commands that await a reply, command_queue.c, kept on the circular list of
  lists.h and swept by foreach with deletion. Times are instants in milliseconds.
*/
module CommandQueue {
  import opened LinkedRing
  import opened Wrappers

  type ConnectionId = nat

  datatype Command = Command(connection: Option<ConnectionId>, name: string, time: int, timeout: real,
                             prefix: Option<string>)

  /** What leaves the queue: a message on a connection, a message for the handler, a call of the timeout callback */
  datatype Report =
    | ToConnection(connection: ConnectionId, text: string)
    | ToHandler(text: string)
    | TimedOut(name: string)

  /** The five sweeps of the source; they differ in what they match and what they report */
  datatype Sweep =
    | Done(name: string)
    | Failure(name: string)
    | Remove(name: string)
    | RemoveConnection(connection: ConnectionId)
    | Check(now: int)

  /** Which optional functions the owner of the queue has registered */
  datatype Hooks = Hooks(handler: bool, timeoutCallback: bool)

  predicate Matches(sweep: Sweep, c: Command) {
    match sweep
    case Done(name) => c.name == name
    case Failure(name) => c.name == name
    case Remove(name) => c.name == name
    case RemoveConnection(conn) => c.connection == Some(conn)
    case Check(now) => (now - c.time) as real > 1000.0 * c.timeout
  }

  function FullName(c: Command): string {
    if c.prefix.Some? then c.prefix.value + "___" + c.name else c.name
  }

  function Message(hooks: Hooks, c: Command, text: string): seq<Report> {
    if c.connection.Some? then [ToConnection(c.connection.value, text)]
    else if hooks.handler then [ToHandler(text)]
    else []
  }

  /** What the removal of one command emits */
  function ReportOf(hooks: Hooks, sweep: Sweep, c: Command): seq<Report> {
    match sweep
    case Done(_) => Message(hooks, c, FullName(c) + "_done")
    case Failure(_) => Message(hooks, c, FullName(c) + "_failure")
    case Remove(_) => []
    case RemoveConnection(_) => []
    case Check(_) => Message(hooks, c, FullName(c) + "_timeout")
                     + if hooks.timeoutCallback then [TimedOut(c.name)] else []
  }

  // ----- what a sweep of a sequence of commands is -----

  function Kept(sweep: Sweep, s: seq<Command>): seq<Command> {
    if s == [] then []
    else if Matches(sweep, s[0]) then Kept(sweep, s[1..])
    else [s[0]] + Kept(sweep, s[1..])
  }

  function Removed(sweep: Sweep, s: seq<Command>): seq<Command> {
    if s == [] then []
    else if Matches(sweep, s[0]) then [s[0]] + Removed(sweep, s[1..])
    else Removed(sweep, s[1..])
  }

  function Reports(hooks: Hooks, sweep: Sweep, removed: seq<Command>): seq<Report> {
    if removed == [] then [] else ReportOf(hooks, sweep, removed[0]) + Reports(hooks, sweep, removed[1..])
  }

  // ----- what that means: an order-preserving filter with one report for each entry it takes out -----

  ghost predicate Increasing(at: seq<nat>) {
    forall i, j :: 0 <= i < j < |at| ==> at[i] < at[j]
  }

  /** t is s at the positions at, which are exactly those where the sweep's match comes out as wanted */
  ghost predicate SelectedAt(sweep: Sweep, s: seq<Command>, wanted: bool, t: seq<Command>, at: seq<nat>) {
    && |at| == |t| && Increasing(at)
    && (forall i :: 0 <= i < |at| ==> at[i] < |s| && t[i] == s[at[i]] && Matches(sweep, t[i]) == wanted)
    && (forall k :: 0 <= k < |s| && Matches(sweep, s[k]) == wanted ==> k in at)
  }

  /** The commands kept are those that do not match, in their order, and those removed are the others, in theirs */
  lemma {:induction false} SweepSelects(sweep: Sweep, s: seq<Command>) returns (keptAt: seq<nat>, removedAt: seq<nat>)
    ensures SelectedAt(sweep, s, false, Kept(sweep, s), keptAt)
    ensures SelectedAt(sweep, s, true, Removed(sweep, s), removedAt)
    ensures |Kept(sweep, s)| + |Removed(sweep, s)| == |s|
  {
    if s == [] {
      keptAt, removedAt := [], [];
    } else {
      var k0, r0 := SweepSelects(sweep, s[1..]);
      var hit := Matches(sweep, s[0]);
      keptAt := SelectOneMore(sweep, s, false, Kept(sweep, s[1..]), k0);
      removedAt := SelectOneMore(sweep, s, true, Removed(sweep, s[1..]), r0);
    }
  }

  lemma SelectOneMore(sweep: Sweep, s: seq<Command>, wanted: bool, t: seq<Command>, at0: seq<nat>)
    returns (at: seq<nat>)
    requires s != [] && SelectedAt(sweep, s[1..], wanted, t, at0)
    ensures SelectedAt(sweep, s, wanted, if Matches(sweep, s[0]) == wanted then [s[0]] + t else t, at)
  {
    at := SelectLater(sweep, s, wanted, t, at0);
    if Matches(sweep, s[0]) == wanted {
      SelectFirst(sweep, s, wanted, t, at);
      at := [0] + at;
    }
  }

  /** at selects t from s, not counting the first command of s */
  ghost predicate SelectedLater(sweep: Sweep, s: seq<Command>, wanted: bool, t: seq<Command>, at: seq<nat>) {
    && |at| == |t| && Increasing(at)
    && (forall i :: 0 <= i < |at| ==> 0 < at[i] < |s| && t[i] == s[at[i]] && Matches(sweep, t[i]) == wanted)
    && (forall k :: 0 < k < |s| && Matches(sweep, s[k]) == wanted ==> k in at)
  }

  lemma SelectLater(sweep: Sweep, s: seq<Command>, wanted: bool, t: seq<Command>, at0: seq<nat>) returns (at: seq<nat>)
    requires s != [] && SelectedAt(sweep, s[1..], wanted, t, at0)
    ensures SelectedLater(sweep, s, wanted, t, at)
  {
    at := seq(|at0|, i requires 0 <= i < |at0| => at0[i] + 1);
    forall i | 0 <= i < |at0|
      ensures 0 < at[i] < |s| && t[i] == s[at[i]] && at[i] == at0[i] + 1
    {
      assert t[i] == s[1..][at0[i]];
    }
    forall k | 0 < k < |s| && Matches(sweep, s[k]) == wanted
      ensures k in at
    {
      assert s[1..][k - 1] == s[k];
      var i :| 0 <= i < |at0| && at0[i] == k - 1;
      assert at[i] == k;
    }
  }

  lemma SelectFirst(sweep: Sweep, s: seq<Command>, wanted: bool, t: seq<Command>, at: seq<nat>)
    requires s != [] && SelectedLater(sweep, s, wanted, t, at) && Matches(sweep, s[0]) == wanted
    ensures SelectedAt(sweep, s, wanted, [s[0]] + t, [0] + at)
  {
    var all, ts := [0] + at, [s[0]] + t;
    assert all[0] == 0 && ts[0] == s[0];
    forall i | 0 <= i < |all|
      ensures all[i] < |s| && ts[i] == s[all[i]] && Matches(sweep, ts[i]) == wanted
      ensures i > 0 ==> all[i] == at[i - 1]
    {
      if i > 0 {
        assert all[i] == at[i - 1] && ts[i] == t[i - 1];
      }
    }
    assert Increasing(all);
    forall k | 0 < k < |s| && Matches(sweep, s[k]) == wanted
      ensures k in all
    {
      var i :| 0 <= i < |at| && at[i] == k;
      assert all[i + 1] == k;
    }
  }

  /** Somebody hears of it when this command leaves */
  predicate HasListener(hooks: Hooks, c: Command) {
    c.connection.Some? || hooks.handler
  }

  /**
    A completion, a failure or (without a callback) a timeout is reported once for every
    command removed, in queue order, exactly when each of them has somebody to report to.
  */
  lemma {:induction false} OneReportEach(hooks: Hooks, sweep: Sweep, removed: seq<Command>)
    requires sweep.Done? || sweep.Failure? || (sweep.Check? && !hooks.timeoutCallback)
    ensures |Reports(hooks, sweep, removed)| <= |removed|
    ensures |Reports(hooks, sweep, removed)| == |removed|
            <==> forall i :: 0 <= i < |removed| ==> HasListener(hooks, removed[i])
    ensures |Reports(hooks, sweep, removed)| == |removed|
            ==> forall i :: 0 <= i < |removed| ==>
                [Reports(hooks, sweep, removed)[i]] == ReportOf(hooks, sweep, removed[i])
  {
    if removed != [] {
      OneReportEach(hooks, sweep, removed[1..]);
      assert |ReportOf(hooks, sweep, removed[0])| == if HasListener(hooks, removed[0]) then 1 else 0;
      assert forall i :: 1 <= i < |removed| ==> removed[i] == removed[1..][i - 1];
      assert (forall i :: 0 <= i < |removed| ==> HasListener(hooks, removed[i]))
         <==> HasListener(hooks, removed[0])
              && forall i :: 0 <= i < |removed[1..]| ==> HasListener(hooks, removed[1..][i]);
    }
  }

  /** A sweep leaves nothing for the same sweep to do */
  lemma {:induction false} SweepTwice(sweep: Sweep, s: seq<Command>)
    ensures Kept(sweep, Kept(sweep, s)) == Kept(sweep, s) && Removed(sweep, Kept(sweep, s)) == []
  {
    if s != [] {
      SweepTwice(sweep, s[1..]);
    }
  }

  /** A sweep of start has visited the first k commands of what is left, now */
  ghost predicate UnderWay(hooks: Hooks, sweep: Sweep, start: seq<Command>, now: seq<Command>, k: int,
                           removed: nat, emitted: seq<Report>)
  {
    && 0 <= k <= |now|
    && Kept(sweep, start) == now[..k] + Kept(sweep, now[k..])
    && |Removed(sweep, start)| == removed + |Removed(sweep, now[k..])|
    && Reports(hooks, sweep, Removed(sweep, start)) == emitted + Reports(hooks, sweep, Removed(sweep, now[k..]))
  }

  lemma MatchStep(hooks: Hooks, sweep: Sweep, start: seq<Command>, now: seq<Command>, k: nat,
                  removed: nat, emitted: seq<Report>)
    requires UnderWay(hooks, sweep, start, now, k, removed, emitted)
    requires k < |now| && Matches(sweep, now[k])
    ensures UnderWay(hooks, sweep, start, now[..k] + now[k + 1..], k, removed + 1,
                     emitted + ReportOf(hooks, sweep, now[k]))
  {
    var next, rest := now[..k] + now[k + 1..], now[k..];
    assert next[..k] == now[..k] && next[k..] == rest[1..];
    var gone, one := Removed(sweep, rest), ReportOf(hooks, sweep, rest[0]);
    var others := Reports(hooks, sweep, Removed(sweep, rest[1..]));
    assert gone == [rest[0]] + Removed(sweep, rest[1..]);
    assert Reports(hooks, sweep, gone) == one + others;
    assert emitted + (one + others) == (emitted + one) + others;
  }

  lemma KeepStep(hooks: Hooks, sweep: Sweep, start: seq<Command>, now: seq<Command>, k: nat,
                 removed: nat, emitted: seq<Report>)
    requires UnderWay(hooks, sweep, start, now, k, removed, emitted)
    requires k < |now| && !Matches(sweep, now[k])
    ensures UnderWay(hooks, sweep, start, now, k + 1, removed, emitted)
  {
    var rest := now[k..];
    assert now[k + 1..] == rest[1..];
    assert now[..k] + ([rest[0]] + Kept(sweep, rest[1..])) == now[..k + 1] + Kept(sweep, rest[1..]);
  }

  /** What the visit of the command at position k leaves of the list */
  ghost function AfterVisit(sweep: Sweep, now: seq<Command>, k: int): seq<Command>
    requires 0 <= k < |now|
  {
    if Matches(sweep, now[k]) then now[..k] + now[k + 1..] else now
  }

  lemma VisitStep(hooks: Hooks, sweep: Sweep, start: seq<Command>, now: seq<Command>, k: nat,
                  removed: nat, emitted: seq<Report>)
    requires UnderWay(hooks, sweep, start, now, k, removed, emitted) && k < |now|
    ensures if Matches(sweep, now[k])
            then UnderWay(hooks, sweep, start, AfterVisit(sweep, now, k), k, removed + 1,
                          emitted + ReportOf(hooks, sweep, now[k]))
            else UnderWay(hooks, sweep, start, AfterVisit(sweep, now, k), k + 1, removed, emitted)
  {
    if Matches(sweep, now[k]) {
      MatchStep(hooks, sweep, start, now, k, removed, emitted);
    } else {
      KeepStep(hooks, sweep, start, now, k, removed, emitted);
    }
  }

  lemma LastStep(hooks: Hooks, sweep: Sweep, start: seq<Command>, now: seq<Command>, removed: nat, emitted: seq<Report>)
    requires UnderWay(hooks, sweep, start, now, |now|, removed, emitted)
    ensures now == Kept(sweep, start) && removed == |Removed(sweep, start)|
    ensures emitted == Reports(hooks, sweep, Removed(sweep, start))
  {
  }

  // ----- the five sweeps as filters -----

  function Filter(s: seq<Command>, keep: Command -> bool): seq<Command> {
    if s == [] then [] else (if keep(s[0]) then [s[0]] else []) + Filter(s[1..], keep)
  }

  function Flat(s: seq<Command>, f: Command -> seq<Report>): seq<Report> {
    if s == [] then [] else f(s[0]) + Flat(s[1..], f)
  }

  /** The message that the command's connection gets, or else the handler: its name behind its prefix, and an ending */
  function Heard(hooks: Hooks, c: Command, ending: string): seq<Report> {
    var text := if c.prefix.Some? then c.prefix.value + "___" + c.name + ending else c.name + ending;
    if c.connection.Some? then [ToConnection(c.connection.value, text)]
    else if hooks.handler then [ToHandler(text)]
    else []
  }

  lemma {:induction false} NothingFlat(s: seq<Command>)
    ensures Flat(s, (c: Command) => []) == []
  {
    if s != [] {
      NothingFlat(s[1..]);
    }
  }

  /** What a sweep keeps and reports, for any way to say what it does with each command */
  lemma {:induction false} SweepIsFilter(hooks: Hooks, sweep: Sweep, s: seq<Command>,
      keep: Command -> bool, f: Command -> seq<Report>)
    requires forall c :: keep(c) == !Matches(sweep, c)
    requires forall c :: f(c) == if keep(c) then [] else ReportOf(hooks, sweep, c)
    ensures Kept(sweep, s) == Filter(s, keep)
    ensures Reports(hooks, sweep, Removed(sweep, s)) == Flat(s, f)
    ensures |Removed(sweep, s)| == |s| - |Filter(s, keep)|
  {
    if s != [] {
      SweepIsFilter(hooks, sweep, s[1..], keep, f);
      if !keep(s[0]) {
        assert Removed(sweep, s)[1..] == Removed(sweep, s[1..]);
      }
    }
  }

  class Queue {
    const hooks: Hooks
    const sent: List<Command>

    ghost predicate Valid()
      reads this, sent, sent.repr
    {
      sent.Valid()
    }

    constructor (hooks: Hooks)
      ensures Valid() && sent.contents == [] && this.hooks == hooks
      ensures fresh(sent) && fresh(sent.repr)
    {
      this.hooks := hooks;
      sent := new List(Command(None, "", 0, 0.0, None));
    }

    method Add(c: Command)
      requires Valid()
      modifies sent, sent.repr
      ensures Valid() && sent.contents == old(sent.contents) + [c]
      ensures fresh(sent.repr - old(sent.repr))
    {
      var _ := sent.AddToListEnd(c);
    }

    /**
      foreach over the list; a match is reported, unlinked, and the iteration resumes from
      the link before it. One loop stands for the five that have this form.
    */
    method Run(sweep: Sweep) returns (removed: nat, emitted: seq<Report>)
      requires Valid()
      modifies sent, sent.repr
      ensures Valid()
      ensures sent.contents == Kept(sweep, old(sent.contents))
      ensures emitted == Reports(hooks, sweep, Removed(sweep, old(sent.contents)))
      ensures removed == |Removed(sweep, old(sent.contents))|
      ensures sent.repr == old(sent.repr)
    {
      removed, emitted := 0, [];
      var command := sent.Next(sent.head, 0);
      ghost var i := 1;
      while command != sent.head
        invariant Valid() && sent.repr == old(sent.repr) && 1 <= i <= |sent.ring|
        invariant command == if i < |sent.ring| then sent.ring[i] else sent.head
        invariant UnderWay(hooks, sweep, old(sent.contents), sent.contents, i - 1, removed, emitted)
        decreases |sent.ring| - i
      {
        command, i, removed, emitted := Round(sweep, command, i, removed, emitted, old(sent.contents));
      }
      LastStep(hooks, sweep, old(sent.contents), sent.contents, removed, emitted);
    }

    /** One round of the loop */
    method Round(sweep: Sweep, command: Link<Command>, ghost i: nat, removed: nat, emitted: seq<Report>,
        ghost start: seq<Command>)
      returns (next: Link<Command>, ghost j: nat, removed': nat, emitted': seq<Report>)
      requires Valid() && 1 <= i < |sent.ring| && sent.ring[i] == command
      requires UnderWay(hooks, sweep, start, sent.contents, i - 1, removed, emitted)
      modifies sent, sent.repr
      ensures Valid() && sent.repr == old(sent.repr)
      ensures 1 <= j <= |sent.ring| && |sent.ring| - j == old(|sent.ring|) - i - 1
      ensures next == if j < |sent.ring| then sent.ring[j] else sent.head
      ensures UnderWay(hooks, sweep, start, sent.contents, j - 1, removed', emitted')
    {
      VisitStep(hooks, sweep, start, sent.contents, i - 1, removed, emitted);
      removed', emitted' := removed, emitted;
      if Matches(sweep, command.item) {
        emitted' := emitted + ReportOf(hooks, sweep, command.item);
        removed' := removed + 1;
      }
      next, j := Visit(sweep, command, i);
    }

    /** The rest of one round: del_from_list_in_foreach_and_run on a match, then the step of foreach */
    method Visit(sweep: Sweep, command: Link<Command>, ghost i: nat) returns (next: Link<Command>, ghost j: nat)
      requires Valid() && 1 <= i < |sent.ring| && sent.ring[i] == command
      modifies sent, sent.repr
      ensures Valid() && sent.repr == old(sent.repr)
      ensures sent.contents == AfterVisit(sweep, old(sent.contents), i - 1)
      ensures j == if Matches(sweep, command.item) then i else i + 1
      ensures |sent.ring| - j == old(|sent.ring|) - i - 1 && j <= |sent.ring|
      ensures next == if j < |sent.ring| then sent.ring[j] else sent.head
    {
      next, j := command, i + 1;
      if Matches(sweep, command.item) {
        next := sent.Delete(command, i);
        j := i;
      }
      next := sent.Next(next, j - 1);
    }

    /** command_queue_done: a report for each command of that name that has somebody to hear of it */
    method ReportDone(name: string) returns (removed: nat, emitted: seq<Report>)
      requires Valid()
      modifies sent, sent.repr
      ensures Valid()
      ensures sent.contents == Filter(old(sent.contents), (c: Command) => c.name != name)
      ensures removed == old(|sent.contents|) - |sent.contents|
      ensures emitted == Flat(old(sent.contents), (c: Command) =>
                if c.name != name then [] else Heard(hooks, c, "_done"))
    {
      ghost var s := sent.contents;
      SweepIsFilter(hooks, Sweep.Done(name), s, (c: Command) => c.name != name,
                    (c: Command) => if c.name != name then [] else Heard(hooks, c, "_done"));
      removed, emitted := Run(Sweep.Done(name));
    }

    /** command_queue_failure */
    method ReportFailure(name: string) returns (removed: nat, emitted: seq<Report>)
      requires Valid()
      modifies sent, sent.repr
      ensures Valid()
      ensures sent.contents == Filter(old(sent.contents), (c: Command) => c.name != name)
      ensures removed == old(|sent.contents|) - |sent.contents|
      ensures emitted == Flat(old(sent.contents), (c: Command) =>
                if c.name != name then [] else Heard(hooks, c, "_failure"))
    {
      ghost var s := sent.contents;
      SweepIsFilter(hooks, Sweep.Failure(name), s, (c: Command) => c.name != name,
                    (c: Command) => if c.name != name then [] else Heard(hooks, c, "_failure"));
      removed, emitted := Run(Sweep.Failure(name));
    }

    /** command_queue_remove: nobody hears of it */
    method RemoveNamed(name: string) returns (removed: nat, emitted: seq<Report>)
      requires Valid()
      modifies sent, sent.repr
      ensures Valid() && emitted == []
      ensures sent.contents == Filter(old(sent.contents), (c: Command) => c.name != name)
      ensures removed == old(|sent.contents|) - |sent.contents|
    {
      ghost var s := sent.contents;
      SweepIsFilter(hooks, Sweep.Remove(name), s, (c: Command) => c.name != name, (c: Command) => []);
      NothingFlat(s);
      removed, emitted := Run(Sweep.Remove(name));
    }

    /** command_queue_remove_with_connection */
    method RemoveOf(connection: ConnectionId) returns (removed: nat, emitted: seq<Report>)
      requires Valid()
      modifies sent, sent.repr
      ensures Valid() && emitted == []
      ensures sent.contents == Filter(old(sent.contents), (c: Command) => c.connection != Some(connection))
      ensures removed == old(|sent.contents|) - |sent.contents|
    {
      ghost var s := sent.contents;
      SweepIsFilter(hooks, Sweep.RemoveConnection(connection), s,
                    (c: Command) => c.connection != Some(connection), (c: Command) => []);
      NothingFlat(s);
      removed, emitted := Run(Sweep.RemoveConnection(connection));
    }

    /**
      command_queue_check: commands that have waited longer than their timeout, in seconds; the
      callback comes after the report
    */
    method CheckTimeouts(now: int) returns (emitted: seq<Report>)
      requires Valid()
      modifies sent, sent.repr
      ensures Valid()
      ensures sent.contents == Filter(old(sent.contents), (c: Command) => (now - c.time) as real <= 1000.0 * c.timeout)
      ensures emitted == Flat(old(sent.contents), (c: Command) =>
                if (now - c.time) as real <= 1000.0 * c.timeout then []
                else Heard(hooks, c, "_timeout") + if hooks.timeoutCallback then [TimedOut(c.name)] else [])
    {
      ghost var s := sent.contents;
      SweepIsFilter(hooks, Sweep.Check(now), s, (c: Command) => (now - c.time) as real <= 1000.0 * c.timeout,
                    (c: Command) =>
                      if (now - c.time) as real <= 1000.0 * c.timeout then []
                      else Heard(hooks, c, "_timeout") + if hooks.timeoutCallback then [TimedOut(c.name)] else []);
      var removed;
      removed, emitted := Run(Sweep.Check(now));
    }

    /** Whether a command of that name is waiting: the sweep stops at the first */
    method Contains(name: string) returns (found: bool)
      requires Valid()
      ensures found <==> exists k :: 0 <= k < |sent.contents| && sent.contents[k].name == name
    {
      found := false;
      var command := sent.Next(sent.head, 0);
      ghost var i := 1;
      while command != sent.head
        invariant 1 <= i <= |sent.ring|
        invariant command == if i < |sent.ring| then sent.ring[i] else sent.head
        invariant forall k :: 0 <= k < i - 1 ==> sent.contents[k].name != name
        decreases |sent.ring| - i
      {
        assert sent.contents[i - 1] == command.item;
        if command.item.name == name {
          found := true;
          return;
        }
        command := sent.Next(command, i);
        i := i + 1;
      }
    }
  }
}
