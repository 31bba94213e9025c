/**
  The order in which the sweep of server_cycle reads connections while some of the reads close
  theirs. A sweep depends on the list, on which sockets are ready, and on which reads close
  their connection.
*/
module SweepOrder {

  function Without<T>(list: seq<T>, k: int): seq<T>
    requires 0 <= k < |list|
  {
    list[..k] + list[k + 1..]
  }

  ghost predicate Distinct<T>(s: seq<T>) {
    forall k, l :: 0 <= k < l < |s| ==> s[k] != s[l]
  }

  /** Where the sweep goes after closing the connection at position i: past the next one, or back to the first */
  function AfterClose(i: nat, length: nat): nat
    requires i < length
  {
    if i + 1 < length then i + 1 else 0
  }

  /** The connections read by a sweep that stands at position i of list, in the order of reading */
  function SweepReads<T(==)>(list: seq<T>, i: nat, ready: set<T>, closing: set<T>): (order: seq<T>)
    ensures forall c :: c in order ==> c in ready && c in list
    ensures Distinct(order)
    decreases |list|, |list| - i
  {
    if i >= |list| then []
    else if list[i] !in ready then SweepReads(list, i + 1, ready, closing)
    else [list[i]] + (if list[i] !in closing then SweepReads(list, i + 1, ready - {list[i]}, closing)
                      else SweepReads(Without(list, i), AfterClose(i, |list|), ready - {list[i]}, closing))
  }

  /** The list after the sweep */
  function SweepKeeps<T(==)>(list: seq<T>, i: nat, ready: set<T>, closing: set<T>): (kept: seq<T>)
    decreases |list|, |list| - i
  {
    if i >= |list| then list
    else if list[i] !in ready then SweepKeeps(list, i + 1, ready, closing)
    else if list[i] !in closing then SweepKeeps(list, i + 1, ready - {list[i]}, closing)
    else SweepKeeps(Without(list, i), AfterClose(i, |list|), ready - {list[i]}, closing)
  }

  function Select<T(==)>(list: seq<T>, ready: set<T>): seq<T> {
    if list == [] then [] else (if list[0] in ready then [list[0]] else []) + Select(list[1..], ready)
  }

  /** While nothing closes, a sweep reads every ready connection once, in list order */
  lemma {:induction false} QuietSweepReadsAll<T>(list: seq<T>, i: nat, ready: set<T>, closing: set<T>)
    requires Distinct(list) && i <= |list|
    requires forall k :: i <= k < |list| && list[k] in ready ==> list[k] !in closing
    ensures SweepReads(list, i, ready, closing) == Select(list[i..], ready)
    ensures SweepKeeps(list, i, ready, closing) == list
    decreases |list| - i
  {
    if i < |list| {
      var rest := list[i..];
      assert rest[1..] == list[i + 1..];
      if list[i] in ready {
        QuietSweepReadsAll(list, i + 1, ready - {list[i]}, closing);
        SelectIgnores(list[i + 1..], ready, list[i]);
      } else {
        QuietSweepReadsAll(list, i + 1, ready, closing);
      }
    }
  }

  lemma {:induction false} SelectIgnores<T>(list: seq<T>, ready: set<T>, c: T)
    requires c !in list
    ensures Select(list, ready - {c}) == Select(list, ready)
  {
    if list != [] {
      SelectIgnores(list[1..], ready, c);
    }
  }

  lemma {:induction false} SelectAll<T>(list: seq<T>, ready: set<T>)
    requires forall c :: c in list ==> c in ready
    ensures Select(list, ready) == list
  {
    if list != [] {
      SelectAll(list[1..], ready);
    }
  }

  /**
    When all connections are ready and exactly one read closes its connection, that one's
    successor misses its turn; nobody does when the one closed was the last.
  */
  lemma OneCloseSkipsOne<T>(list: seq<T>, k: nat, ready: set<T>)
    requires Distinct(list) && k < |list|
    requires forall c :: c in list ==> c in ready
    ensures SweepReads(list, 0, ready, {list[k]})
         == list[..k + 1] + if k + 1 < |list| then list[k + 2..] else []
    ensures SweepKeeps(list, 0, ready, {list[k]}) == Without(list, k)
  {
    SkipFrom(list, 0, k, ready);
    ReadUpToIs(list, 0, k);
    assert list[0..k + 1] == list[..k + 1];
  }

  /** list[i..k + 1] and then whatever follows the close */
  function ReadUpTo<T>(list: seq<T>, i: nat, k: nat): seq<T>
    requires i <= k < |list|
    decreases k - i
  {
    [list[i]] + if i < k then ReadUpTo(list, i + 1, k) else if k + 1 < |list| then list[k + 2..] else []
  }

  lemma {:induction false} ReadUpToIs<T>(list: seq<T>, i: nat, k: nat)
    requires i <= k < |list|
    ensures ReadUpTo(list, i, k) == list[i..k + 1] + if k + 1 < |list| then list[k + 2..] else []
    decreases k - i
  {
    if i < k {
      ReadUpToIs(list, i + 1, k);
      assert list[i..k + 1] == [list[i]] + list[i + 1..k + 1];
    }
  }

  lemma {:induction false} SkipFrom<T>(list: seq<T>, i: nat, k: nat, ready: set<T>)
    requires Distinct(list) && i <= k < |list|
    requires forall m :: 0 <= m < |list| ==> (list[m] in ready <==> i <= m)
    ensures SweepReads(list, i, ready, {list[k]}) == ReadUpTo(list, i, k)
    ensures SweepKeeps(list, i, ready, {list[k]}) == Without(list, k)
    decreases k - i
  {
    if i < k {
      SkipFrom(list, i + 1, k, ready - {list[i]});
    } else {
      AfterTheClose(list, k, ready);
    }
  }

  lemma AfterTheClose<T>(list: seq<T>, k: nat, ready: set<T>)
    requires Distinct(list) && k < |list|
    requires forall m :: 0 <= m < |list| ==> (list[m] in ready <==> k <= m)
    ensures var list', next, ready' := Without(list, k), AfterClose(k, |list|), ready - {list[k]};
            && SweepReads(list', next, ready', {list[k]}) == (if k + 1 < |list| then list[k + 2..] else [])
            && SweepKeeps(list', next, ready', {list[k]}) == list'
  {
    var list', next, ready' := Without(list, k), AfterClose(k, |list|), ready - {list[k]};
    WithoutDrops(list, k);
    QuietSweepReadsAll(list', next, ready', {list[k]});
    if k + 1 < |list| {
      assert list'[next..] == list[k + 2..];
      SelectAll(list[k + 2..], ready');
    } else {
      assert list'[next..] == list[..k];
      NoneSelected(list[..k], ready');
    }
  }

  lemma {:induction false} NoneSelected<T>(list: seq<T>, ready: set<T>)
    requires forall c :: c in list ==> c !in ready
    ensures Select(list, ready) == []
  {
    if list != [] {
      NoneSelected(list[1..], ready);
    }
  }

  /** The sweep drops exactly the connections whose read closed them; one it skipped is still there */
  lemma {:induction false} SweepDropsClosed<T>(list: seq<T>, i: nat, ready: set<T>, closing: set<T>)
    requires Distinct(list)
    ensures Distinct(SweepKeeps(list, i, ready, closing))
    ensures forall c :: c in SweepKeeps(list, i, ready, closing)
                        <==> c in list && !(c in closing && c in SweepReads(list, i, ready, closing))
    decreases |list|, |list| - i
  {
    if i < |list| {
      if list[i] !in ready {
        SweepDropsClosed(list, i + 1, ready, closing);
      } else if list[i] !in closing {
        SweepDropsClosed(list, i + 1, ready - {list[i]}, closing);
      } else {
        var list' := Without(list, i);
        WithoutDrops(list, i);
        SweepDropsClosed(list', AfterClose(i, |list|), ready - {list[i]}, closing);
      }
    }
  }

  lemma WithoutDrops<T>(list: seq<T>, k: nat)
    requires Distinct(list) && k < |list|
    ensures Distinct(Without(list, k))
    ensures forall c :: c in Without(list, k) <==> c in list && c != list[k]
  {
    var list' := Without(list, k);
    assert forall m :: 0 <= m < |list'| ==> list'[m] == list[if m < k then m else m + 1];
    forall c | c in list && c != list[k]
      ensures c in list'
    {
      var m :| 0 <= m < |list| && list[m] == c;
      assert list'[if m < k then m else m - 1] == c;
    }
  }

  /** A sweep of start has read order and stands at position i of list, with unread still to come */
  ghost predicate UnderWay<T>(start: seq<T>, ready: set<T>, closing: set<T>,
                                    order: seq<T>, list: seq<T>, i: nat, unread: set<T>) {
    && SweepReads(start, 0, ready, closing) == order + SweepReads(list, i, unread, closing)
    && SweepKeeps(start, 0, ready, closing) == SweepKeeps(list, i, unread, closing)
  }

  lemma ReadStep<T>(start: seq<T>, ready: set<T>, closing: set<T>, order: seq<T>, list: seq<T>, i: nat, unread: set<T>)
    requires UnderWay(start, ready, closing, order, list, i, unread) && i < |list| && list[i] in unread
    ensures if list[i] in closing
            then UnderWay(start, ready, closing, order + [list[i]], Without(list, i), AfterClose(i, |list|),
                unread - {list[i]})
            else UnderWay(start, ready, closing, order + [list[i]], list, i + 1, unread - {list[i]})
  {
    var later := if list[i] in closing
        then SweepReads(Without(list, i), AfterClose(i, |list|), unread - {list[i]}, closing)
                 else SweepReads(list, i + 1, unread - {list[i]}, closing);
    assert SweepReads(list, i, unread, closing) == [list[i]] + later;
    assert order + ([list[i]] + later) == order + [list[i]] + later;
  }

  lemma PassStep<T>(start: seq<T>, ready: set<T>, closing: set<T>, order: seq<T>, list: seq<T>, i: nat, unread: set<T>)
    requires UnderWay(start, ready, closing, order, list, i, unread) && i < |list| && list[i] !in unread
    ensures UnderWay(start, ready, closing, order, list, i + 1, unread)
  {
  }

  // ----- which connections a sweep reads, exactly -----

  /** The entries directly before position j that are ready and close when they are read */
  function Streak<T(==)>(list: seq<T>, ready: set<T>, closing: set<T>, j: nat): (n: nat)
    requires j <= |list|
    ensures n <= j
  {
    if j > 0 && list[j - 1] in ready && list[j - 1] in closing then Streak(list, ready, closing, j - 1) + 1 else 0
  }

  /** How often n can be halved */
  function Halvings(n: nat): nat
    requires n > 0
  {
    if n % 2 == 0 then Halvings(n / 2) + 1 else 0
  }

  // A pass is what a sweep does until it comes to the end of the list or starts over. It has todo
  // before it, and skips the first of these when it has just closed the one before.

  predicate Goes<T(==)>(c: T, ready: set<T>, closing: set<T>) {
    c in ready && c in closing
  }

  /** The connections read in a pass */
  function PassReads<T(==)>(todo: seq<T>, skip: bool, ready: set<T>, closing: set<T>): set<T> {
    if todo == [] then {}
    else if skip || todo[0] !in ready then PassReads(todo[1..], false, ready, closing)
    else {todo[0]} + PassReads(todo[1..], Goes(todo[0], ready, closing), ready, closing)
  }

  /** What it leaves of todo */
  function PassKeeps<T(==)>(todo: seq<T>, skip: bool, ready: set<T>, closing: set<T>): seq<T> {
    if todo == [] then []
    else if !skip && Goes(todo[0], ready, closing) then PassKeeps(todo[1..], true, ready, closing)
    else [todo[0]] + PassKeeps(todo[1..], false, ready, closing)
  }

  /** It ends by closing the last connection */
  predicate PassRestarts<T(==)>(todo: seq<T>, skip: bool, ready: set<T>, closing: set<T>) {
    if todo == [] then skip
    else PassRestarts(todo[1..], !skip && Goes(todo[0], ready, closing), ready, closing)
  }

  /** A streak of length acc, after one more connection */
  function Longer<T(==)>(acc: nat, c: T, ready: set<T>, closing: set<T>): nat {
    if Goes(c, ready, closing) then acc + 1 else 0
  }

  /** The streak before c, when acc entries before todo already count */
  function StreakTo<T(==)>(todo: seq<T>, ready: set<T>, closing: set<T>, acc: nat, c: T): nat {
    if todo == [] || todo[0] == c then acc
    else StreakTo(todo[1..], ready, closing, Longer(acc, todo[0], ready, closing), c)
  }

  /** The streak before the end */
  function StreakEnd<T(==)>(todo: seq<T>, ready: set<T>, closing: set<T>, acc: nat): nat {
    if todo == [] then acc
    else StreakEnd(todo[1..], ready, closing, Longer(acc, todo[0], ready, closing))
  }

  predicate NoRepeats<T(==)>(todo: seq<T>) {
    todo == [] || (todo[0] !in todo[1..] && NoRepeats(todo[1..]))
  }

  lemma {:induction false} PassOnlyReads<T>(todo: seq<T>, skip: bool, ready: set<T>, closing: set<T>)
    ensures forall c :: c in PassReads(todo, skip, ready, closing) ==> c in todo && c in ready
    ensures forall c :: c in PassKeeps(todo, skip, ready, closing) ==> c in todo
    ensures forall c :: c in todo && c !in PassReads(todo, skip, ready, closing) ==>
            c in PassKeeps(todo, skip, ready, closing)
    decreases |todo|
  {
    if todo != [] {
      assert todo == [todo[0]] + todo[1..];
      PassOnlyReads(todo[1..], !skip && Goes(todo[0], ready, closing), ready, closing);
    }
  }

  lemma {:induction false} PassShortens<T>(todo: seq<T>, skip: bool, ready: set<T>, closing: set<T>)
    ensures |PassKeeps(todo, skip, ready, closing)| <= |todo|
    ensures PassRestarts(todo, skip, ready, closing) && !skip ==> |PassKeeps(todo, skip, ready, closing)| < |todo|
    decreases |todo|
  {
    if todo != [] {
      PassShortens(todo[1..], !skip && Goes(todo[0], ready, closing), ready, closing);
    }
  }

  lemma {:induction false} PassKeepsNoRepeats<T>(todo: seq<T>, skip: bool, ready: set<T>, closing: set<T>)
    requires NoRepeats(todo)
    ensures NoRepeats(PassKeeps(todo, skip, ready, closing))
    decreases |todo|
  {
    if todo != [] {
      var goes := !skip && Goes(todo[0], ready, closing);
      PassKeepsNoRepeats(todo[1..], goes, ready, closing);
      PassOnlyReads(todo[1..], goes, ready, closing);
      if !goes {
        assert PassKeeps(todo, skip, ready, closing)[1..] == PassKeeps(todo[1..], false, ready, closing);
      }
    }
  }

  /** Where a sweep stands that has this behind and before it */
  function Position<T(==)>(done: seq<T>, todo: seq<T>, skip: bool): nat {
    if !skip then |done| else if todo != [] then |done| + 1 else 0
  }

  /** One read of the sweep */
  lemma SweepReadsFirst<T>(done: seq<T>, todo: seq<T>, unread: set<T>, closing: set<T>)
    requires todo != [] && todo[0] in unread
    ensures var t, rest := todo[0], todo[1..];
            SweepReads(done + todo, |done|, unread, closing)
            == [t] + if t in closing then SweepReads(done + rest, Position(done, rest, true), unread - {t}, closing)
                     else SweepReads(done + [t] + rest, |done| + 1, unread - {t}, closing)
  {
    assert (done + todo)[|done|] == todo[0];
    assert Without(done + todo, |done|) == done + todo[1..];
    assert done + todo == done + [todo[0]] + todo[1..];
  }

  /** Whether a sweep reads c is whether its pass does, or the sweep after it, if the pass restarts */
  predicate PassThenSweep<T(==)>(done: seq<T>, todo: seq<T>, skip: bool, unread: set<T>, ready: set<T>,
      closing: set<T>, c: T) {
    c in SweepReads(done + todo, Position(done, todo, skip), unread, closing)
    <==> c in PassReads(todo, skip, ready, closing)
         || (PassRestarts(todo, skip, ready, closing)
             && c in SweepReads(done + PassKeeps(todo, skip, ready, closing), 0,
                                unread - PassReads(todo, skip, ready, closing), closing))
  }

  lemma PassedOver<T>(done: seq<T>, todo: seq<T>, skip: bool, unread: set<T>, ready: set<T>, closing: set<T>, c: T)
    requires todo != [] && (skip || todo[0] !in ready) && (todo[0] in unread <==> todo[0] in ready)
    requires PassThenSweep(done + [todo[0]], todo[1..], false, unread, ready, closing, c)
    ensures PassThenSweep(done, todo, skip, unread, ready, closing, c)
  {
    var t, rest := todo[0], todo[1..];
    assert (done + todo)[|done|] == t && done + todo == (done + [t]) + rest;
    assert done + ([t] + PassKeeps(rest, false, ready, closing))
           == (done + [t]) + PassKeeps(rest, false, ready, closing);
  }

  lemma PassedRead<T>(done: seq<T>, todo: seq<T>, unread: set<T>, ready: set<T>, closing: set<T>, c: T)
    requires todo != [] && todo[0] in ready && todo[0] in unread && todo[0] !in closing
    requires PassThenSweep(done + [todo[0]], todo[1..], false, unread - {todo[0]}, ready, closing, c)
    ensures PassThenSweep(done, todo, false, unread, ready, closing, c)
  {
    var t, rest := todo[0], todo[1..];
    var got, kept := PassReads(rest, false, ready, closing), PassKeeps(rest, false, ready, closing);
    SweepReadsFirst(done, todo, unread, closing);
    assert unread - {t} - got == unread - ({t} + got);
    assert done + ([t] + kept) == (done + [t]) + kept;
    assert PassReads(todo, false, ready, closing) == {t} + got;
  }

  lemma PassedClose<T>(done: seq<T>, todo: seq<T>, unread: set<T>, ready: set<T>, closing: set<T>, c: T)
    requires todo != [] && todo[0] in ready && todo[0] in unread && todo[0] in closing
    requires PassThenSweep(done, todo[1..], true, unread - {todo[0]}, ready, closing, c)
    ensures PassThenSweep(done, todo, false, unread, ready, closing, c)
  {
    var t, rest := todo[0], todo[1..];
    var got := PassReads(rest, true, ready, closing);
    SweepReadsFirst(done, todo, unread, closing);
    assert unread - {t} - got == unread - ({t} + got);
    assert PassReads(todo, false, ready, closing) == {t} + got;
  }

  lemma {:induction false} SweepIsPass<T>(done: seq<T>, todo: seq<T>, skip: bool, unread: set<T>, ready: set<T>,
      closing: set<T>, c: T)
    requires NoRepeats(todo)
    requires forall d :: d in todo ==> (d in unread <==> d in ready)
    ensures PassThenSweep(done, todo, skip, unread, ready, closing, c)
    decreases |todo|
  {
    if todo == [] {
      assert unread - {} == unread;
    } else {
      var t, rest := todo[0], todo[1..];
      if skip || t !in ready {
        SweepIsPass(done + [t], rest, false, unread, ready, closing, c);
        PassedOver(done, todo, skip, unread, ready, closing, c);
      } else if t !in closing {
        SweepIsPass(done + [t], rest, false, unread - {t}, ready, closing, c);
        PassedRead(done, todo, unread, ready, closing, c);
      } else {
        SweepIsPass(done, rest, true, unread - {t}, ready, closing, c);
        PassedClose(done, todo, unread, ready, closing, c);
      }
    }
  }

  /** A pass reads what is ready after a streak of even length */
  lemma {:induction false} PassReadsEven<T>(todo: seq<T>, skip: bool, ready: set<T>, closing: set<T>, acc: nat, c: T)
    requires NoRepeats(todo) && skip == (acc % 2 == 1) && c in todo
    ensures c in PassReads(todo, skip, ready, closing)
            <==> c in ready && StreakTo(todo, ready, closing, acc, c) % 2 == 0
    decreases |todo|
  {
    var t := todo[0];
    PassOnlyReads(todo[1..], !skip && Goes(t, ready, closing), ready, closing);
    if c != t {
      PassReadsEven(todo[1..], !skip && Goes(t, ready, closing), ready, closing, Longer(acc, t, ready, closing), c);
    }
  }

  /** A pass starts over when the streak at the end has odd length */
  lemma {:induction false} PassRestartsOdd<T>(todo: seq<T>, skip: bool, ready: set<T>, closing: set<T>, acc: nat)
    requires skip == (acc % 2 == 1)
    ensures PassRestarts(todo, skip, ready, closing) <==> StreakEnd(todo, ready, closing, acc) % 2 == 1
    decreases |todo|
  {
    if todo != [] {
      PassRestartsOdd(todo[1..], !skip && Goes(todo[0], ready, closing), ready, closing,
                      Longer(acc, todo[0], ready, closing));
    }
  }

  /** A pass halves the streaks: of the entries of one it closes every other, and unread stay those it skipped */
  lemma {:induction false} PassHalvesEnd<T>(todo: seq<T>, skip: bool, ready: set<T>, closing: set<T>, acc: nat,
      unread: set<T>)
    requires NoRepeats(todo) && skip == (acc % 2 == 1)
    requires forall d :: d in todo ==> (d in unread <==> d in ready && d !in PassReads(todo, skip, ready, closing))
    ensures StreakEnd(PassKeeps(todo, skip, ready, closing), unread, closing, acc / 2)
            == StreakEnd(todo, ready, closing, acc) / 2
    decreases |todo|
  {
    if todo != [] {
      var t, rest := todo[0], todo[1..];
      var goes := !skip && Goes(t, ready, closing);
      UnreadInRest(todo, skip, ready, closing, unread);
      PassHalvesEnd(rest, goes, ready, closing, Longer(acc, t, ready, closing), unread);
      if !goes {
        assert PassKeeps(todo, skip, ready, closing)[1..] == PassKeeps(rest, false, ready, closing);
      }
    }
  }

  lemma UnreadInRest<T>(todo: seq<T>, skip: bool, ready: set<T>, closing: set<T>, unread: set<T>)
    requires NoRepeats(todo) && todo != []
    requires forall d :: d in todo ==> (d in unread <==> d in ready && d !in PassReads(todo, skip, ready, closing))
    ensures var got := PassReads(todo[1..], !skip && Goes(todo[0], ready, closing), ready, closing);
            forall d :: d in todo[1..] ==> (d in unread <==> d in ready && d !in got)
    ensures todo[0] in unread <==> todo[0] in ready && skip
  {
    PassOnlyReads(todo[1..], !skip && Goes(todo[0], ready, closing), ready, closing);
  }

  lemma {:induction false} PassHalvesTo<T>(todo: seq<T>, skip: bool, ready: set<T>, closing: set<T>, acc: nat,
      unread: set<T>, c: T)
    requires NoRepeats(todo) && skip == (acc % 2 == 1)
    requires forall d :: d in todo ==> (d in unread <==> d in ready && d !in PassReads(todo, skip, ready, closing))
    requires c in todo && c in unread
    ensures StreakTo(PassKeeps(todo, skip, ready, closing), unread, closing, acc / 2, c)
            == StreakTo(todo, ready, closing, acc, c) / 2
    decreases |todo|
  {
    var t, rest := todo[0], todo[1..];
    var goes := !skip && Goes(t, ready, closing);
    UnreadInRest(todo, skip, ready, closing, unread);
    if c != t {
      PassHalvesTo(rest, goes, ready, closing, Longer(acc, t, ready, closing), unread, c);
    }
    if !goes {
      assert PassKeeps(todo, skip, ready, closing)[1..] == PassKeeps(rest, false, ready, closing);
    }
  }

  lemma HalvingsOfNext(n: nat)
    ensures Halvings(n + 1) == if n % 2 == 0 then 0 else Halvings(n / 2 + 1) + 1
  {
    assert n % 2 == 1 ==> (n + 1) / 2 == n / 2 + 1;
  }

  /** The connections read again after a restart are those that the first pass skipped and the next sweep reads */
  lemma ReadAfterRestart<T>(list: seq<T>, ready: set<T>, closing: set<T>, c: T) returns (kept: seq<T>, unread: set<T>)
    requires NoRepeats(list) && c in list && c in ready
    requires StreakTo(list, ready, closing, 0, c) % 2 == 1 && StreakEnd(list, ready, closing, 0) % 2 == 1
    ensures NoRepeats(kept) && c in kept && c in unread && |kept| < |list|
    ensures StreakTo(kept, unread, closing, 0, c) == StreakTo(list, ready, closing, 0, c) / 2
    ensures StreakEnd(kept, unread, closing, 0) == StreakEnd(list, ready, closing, 0) / 2
    ensures c in SweepReads(list, 0, ready, closing) <==> c in SweepReads(kept, 0, unread, closing)
  {
    kept := PassKeeps(list, false, ready, closing);
    unread := ready - PassReads(list, false, ready, closing);
    assert [] + list == list && [] + kept == kept;
    SweepIsPass([], list, false, ready, ready, closing, c);
    PassReadsEven(list, false, ready, closing, 0, c);
    PassRestartsOdd(list, false, ready, closing, 0);
    PassOnlyReads(list, false, ready, closing);
    PassShortens(list, false, ready, closing);
    PassKeepsNoRepeats(list, false, ready, closing);
    PassHalvesEnd(list, false, ready, closing, 0, unread);
    PassHalvesTo(list, false, ready, closing, 0, unread, c);
  }

  lemma ReadInFirstPass<T>(list: seq<T>, ready: set<T>, closing: set<T>, c: T)
    requires NoRepeats(list) && c in list
    requires !(StreakTo(list, ready, closing, 0, c) % 2 == 1 && StreakEnd(list, ready, closing, 0) % 2 == 1)
    ensures c in SweepReads(list, 0, ready, closing) <==> c in ready && StreakTo(list, ready, closing, 0, c) % 2 == 0
  {
    var kept := PassKeeps(list, false, ready, closing);
    assert [] + list == list && [] + kept == kept;
    SweepIsPass([], list, false, ready, ready, closing, c);
    PassReadsEven(list, false, ready, closing, 0, c);
    PassRestartsOdd(list, false, ready, closing, 0);
  }

  /** The theorem with the streaks counted from the front */
  lemma {:induction false} SweepReadsByHalves<T>(list: seq<T>, ready: set<T>, closing: set<T>, c: T)
    requires NoRepeats(list) && c in list
    ensures c in SweepReads(list, 0, ready, closing)
            <==> c in ready
                 && Halvings(StreakTo(list, ready, closing, 0, c) + 1)
                    <= Halvings(StreakEnd(list, ready, closing, 0) + 1)
    decreases |list|
  {
    var s, e := StreakTo(list, ready, closing, 0, c), StreakEnd(list, ready, closing, 0);
    HalvingsOfNext(s);
    HalvingsOfNext(e);
    if c in ready && s % 2 == 1 && e % 2 == 1 {
      var kept, unread := ReadAfterRestart(list, ready, closing, c);
      SweepReadsByHalves(kept, unread, closing, c);
    } else if c in ready {
      ReadInFirstPass(list, ready, closing, c);
    }
  }

  lemma {:induction false} DistinctFrom<T>(list: seq<T>, i: nat)
    requires Distinct(list) && i <= |list|
    ensures NoRepeats(list[i..])
    decreases |list| - i
  {
    if i < |list| {
      assert list[i..][1..] == list[i + 1..];
      DistinctFrom(list, i + 1);
    }
  }

  lemma {:induction false} StreakFrom<T>(list: seq<T>, ready: set<T>, closing: set<T>, i: nat, j: nat)
    requires Distinct(list) && i <= j < |list|
    ensures StreakTo(list[i..], ready, closing, Streak(list, ready, closing, i), list[j])
            == Streak(list, ready, closing, j)
    decreases j - i
  {
    if i < j {
      assert list[i..][1..] == list[i + 1..];
      StreakFrom(list, ready, closing, i + 1, j);
    }
  }

  lemma {:induction false} StreakEndFrom<T>(list: seq<T>, ready: set<T>, closing: set<T>, i: nat)
    requires i <= |list|
    ensures StreakEnd(list[i..], ready, closing, Streak(list, ready, closing, i))
            == Streak(list, ready, closing, |list|)
    decreases |list| - i
  {
    if i < |list| {
      assert list[i..][1..] == list[i + 1..];
      StreakEndFrom(list, ready, closing, i + 1);
    }
  }

  /**
    Which connections are read. A sweep is a series of passes: each one, of a streak of
    connections that are ready and close, reads every other and so halves it, and there is
    another pass as long as the streak at the end of the list has odd length. So a ready
    connection is read exactly when one more than the streak before it can be halved no more
    often than one more than the streak at the end.
  */
  lemma ReadExactly<T>(list: seq<T>, ready: set<T>, closing: set<T>, j: nat)
    requires Distinct(list) && j < |list|
    ensures list[j] in SweepReads(list, 0, ready, closing)
            <==> list[j] in ready
                 && Halvings(Streak(list, ready, closing, j) + 1)
                    <= Halvings(Streak(list, ready, closing, |list|) + 1)
  {
    assert list[0..] == list;
    DistinctFrom(list, 0);
    StreakFrom(list, ready, closing, 0, j);
    StreakEndFrom(list, ready, closing, 0);
    SweepReadsByHalves(list, ready, closing, list[j]);
  }

  /**
    After a streak of even length a ready connection is read; after one of odd length it is not,
    unless the last one closes too
  */
  lemma ReadAfterEvenStreak<T>(list: seq<T>, ready: set<T>, closing: set<T>, j: nat)
    requires Distinct(list) && j < |list| && list[j] in ready
    ensures Streak(list, ready, closing, j) % 2 == 0 ==> list[j] in SweepReads(list, 0, ready, closing)
    ensures !Goes(list[|list| - 1], ready, closing) ==>
              (list[j] in SweepReads(list, 0, ready, closing) <==> Streak(list, ready, closing, j) % 2 == 0)
  {
    ReadExactly(list, ready, closing, j);
    HalvingsOfNext(Streak(list, ready, closing, j));
    HalvingsOfNext(0);
  }

  /** No ready connection stands directly behind one that is ready and closes */
  predicate NoneBehindClosing<T(==)>(list: seq<T>, ready: set<T>, closing: set<T>) {
    forall k :: 0 <= k < |list| - 1 && Goes(list[k], ready, closing) ==> list[k + 1] !in ready
  }

  predicate AllReadyRead<T(==)>(list: seq<T>, ready: set<T>, closing: set<T>) {
    forall j :: 0 <= j < |list| && list[j] in ready ==> list[j] in SweepReads(list, 0, ready, closing)
  }

  lemma NoneBehindAllRead<T>(list: seq<T>, ready: set<T>, closing: set<T>)
    requires Distinct(list) && NoneBehindClosing(list, ready, closing)
    ensures AllReadyRead(list, ready, closing)
  {
    forall j | 0 <= j < |list| && list[j] in ready ensures list[j] in SweepReads(list, 0, ready, closing) {
      assert j > 0 ==> !Goes(list[j - 1], ready, closing);
      ReadAfterEvenStreak(list, ready, closing, j);
    }
  }

  lemma AllReadNoneBehind<T>(list: seq<T>, ready: set<T>, closing: set<T>)
    requires Distinct(list) && list != [] && AllReadyRead(list, ready, closing)
             && !Goes(list[|list| - 1], ready, closing)
    ensures NoneBehindClosing(list, ready, closing)
  {
    forall k | 0 <= k < |list| - 1 && Goes(list[k], ready, closing) ensures list[k + 1] !in ready {
      ReadAfterEvenStreak(list, ready, closing, k);
      assert Streak(list, ready, closing, k + 1) == Streak(list, ready, closing, k) + 1;
      if list[k + 1] in ready {
        ReadAfterEvenStreak(list, ready, closing, k + 1);
      }
    }
  }

  /**
    All ready connections are read in one sweep if none stands directly behind one that closes,
    and only then, unless the last one closes too.
  */
  lemma AllReadExactly<T>(list: seq<T>, ready: set<T>, closing: set<T>)
    requires Distinct(list) && list != []
    ensures NoneBehindClosing(list, ready, closing) ==> AllReadyRead(list, ready, closing)
    ensures !Goes(list[|list| - 1], ready, closing) ==>
              (AllReadyRead(list, ready, closing) <==> NoneBehindClosing(list, ready, closing))
  {
    if NoneBehindClosing(list, ready, closing) {
      NoneBehindAllRead(list, ready, closing);
    } else if AllReadyRead(list, ready, closing) && !Goes(list[|list| - 1], ready, closing) {
      AllReadNoneBehind(list, ready, closing);
    }
  }

  /**
    The first of three closes and skips the second, the third closes and is the last: the second
    gets its turn after it
  */
  lemma SkippedAndReadAfterAll()
    ensures SweepReads([0, 1, 2], 0, {0, 1, 2}, {0, 2}) == [0, 2, 1]
  {
    assert Without([0, 1, 2], 0) == [1, 2] && Without([1, 2], 1) == [1];
    assert {0, 1, 2} - {0} == {1, 2} && {1, 2} - {2} == {1} && {1} - {1} == {};
    assert SweepReads([1], 0, {1}, {0, 2}) == [1];
    assert SweepReads([1, 2], 1, {1, 2}, {0, 2}) == [2] + SweepReads([1], 0, {1}, {0, 2});
    assert SweepReads([0, 1, 2], 0, {0, 1, 2}, {0, 2}) == [0] + SweepReads([1, 2], 1, {1, 2}, {0, 2});
  }
}
