/**
  The timer sweep of server.c, on the circular list of lists.h. A callback may register
  new timers while the sweep is under way; killing timers from a callback is not modelled.
  Times are instants in milliseconds.
*/
module Timers {
  import opened LinkedRing

  datatype Callback = NoCallback | Callback(registers: seq<Timer>)

  /** A timer; its callback is known by the timers it registers, in that order */
  datatype Timer = Timer(id: nat, expires: int, callback: Callback)

  function Registers(t: Timer): seq<Timer> {
    if t.callback.Callback? then t.callback.registers else []
  }

  predicate IsExpired(now: int, t: Timer) {
    t.expires - now < 0
  }

  function Expired(now: int, s: seq<Timer>): seq<Timer> {
    if s == [] then []
    else (if IsExpired(now, s[0]) then [s[0]] else []) + Expired(now, s[1..])
  }

  function Unexpired(now: int, s: seq<Timer>): seq<Timer> {
    if s == [] then []
    else (if IsExpired(now, s[0]) then [] else [s[0]]) + Unexpired(now, s[1..])
  }

  function Reversed<T>(s: seq<T>): (r: seq<T>)
    ensures |r| == |s|
  {
    if s == [] then [] else Reversed(s[1..]) + [s[0]]
  }

  /** What stands in front of the list once these timers have fired in turn: latest registration first */
  function Registered(fired: seq<Timer>): seq<Timer> {
    if fired == [] then []
    else Reversed(Registers(fired[|fired| - 1])) + Registered(fired[..|fired| - 1])
  }

  // ----- what a sweep amounts to -----

  /** Every timer is fired once or left, by whether it had expired when the sweep began; none is lost or doubled */
  lemma {:induction false} SweepConserves(now: int, s: seq<Timer>)
    ensures multiset(Expired(now, s)) + multiset(Unexpired(now, s)) == multiset(s)
    ensures forall t :: t in Expired(now, s) <==> t in s && t.expires < now
    ensures forall t :: t in Unexpired(now, s) <==> t in s && t.expires >= now
  {
    if s != [] {
      SweepConserves(now, s[1..]);
      assert s == [s[0]] + s[1..];
    }
  }

  /** All registrations of a series of callbacks, in the order they are made */
  function Registrations(fired: seq<Timer>): seq<Timer> {
    if fired == [] then [] else Registers(fired[0]) + Registrations(fired[1..])
  }

  lemma {:induction false} ReversedConcat<T>(s: seq<T>, t: seq<T>)
    ensures Reversed(s + t) == Reversed(t) + Reversed(s)
  {
    if s == [] {
      assert s + t == t;
    } else {
      assert (s + t)[1..] == s[1..] + t;
      ReversedConcat(s[1..], t);
    }
  }

  lemma {:induction false} RegistrationsConcat(s: seq<Timer>, t: seq<Timer>)
    ensures Registrations(s + t) == Registrations(s) + Registrations(t)
  {
    if s == [] {
      assert s + t == t;
    } else {
      assert (s + t)[1..] == s[1..] + t;
      RegistrationsConcat(s[1..], t);
    }
  }

  /** The new timers stand in front of the list in the reverse order of their registration, none missing */
  lemma {:induction false} NewTimersLatestFirst(fired: seq<Timer>)
    ensures Registered(fired) == Reversed(Registrations(fired))
  {
    if fired != [] {
      var n := |fired| - 1;
      NewTimersLatestFirst(fired[..n]);
      assert fired == fired[..n] + [fired[n]];
      RegistrationsConcat(fired[..n], [fired[n]]);
      assert [fired[n]][1..] == [];
      assert Registrations([fired[n]]) == Registers(fired[n]);
      ReversedConcat(Registrations(fired[..n]), Registers(fired[n]));
    }
  }

  // ----- the sweep as a state: new timers, timers passed over, timers still to visit -----

  ghost predicate Checking(now: int, start: seq<Timer>, list: seq<Timer>, k: int, fired: seq<Timer>) {
    var added := Registered(fired);
    && |added| <= k <= |list|
    && list[..|added|] == added
    && Unexpired(now, start) == list[|added|..k] + Unexpired(now, list[k..])
    && Expired(now, start) == fired + Expired(now, list[k..])
  }

  /** The list after a timer at position k has run its callback and been taken out */
  function Fire(list: seq<Timer>, k: int): seq<Timer>
    requires 0 <= k < |list|
  {
    Reversed(Registers(list[k])) + list[..k] + list[k + 1..]
  }

  lemma FireSlices<T>(list: seq<T>, k: nat, a: nat, rev: seq<T>)
    requires a <= k < |list|
    ensures var list' := rev + list[..k] + list[k + 1..];
            && list'[..|rev| + a] == rev + list[..a]
            && list'[|rev| + a..|rev| + k] == list[a..k]
            && list'[|rev| + k..] == list[k..][1..] == list[k + 1..]
  {
  }

  lemma ExpiredFirst(now: int, rest: seq<Timer>)
    requires rest != [] && IsExpired(now, rest[0])
    ensures Expired(now, rest) == [rest[0]] + Expired(now, rest[1..])
            && Unexpired(now, rest) == Unexpired(now, rest[1..])
  {
    assert [] + Unexpired(now, rest[1..]) == Unexpired(now, rest[1..]);
  }

  lemma FireStep(now: int, start: seq<Timer>, list: seq<Timer>, k: nat, fired: seq<Timer>)
    requires Checking(now, start, list, k, fired) && k < |list| && IsExpired(now, list[k])
    ensures Checking(now, start, Fire(list, k), k + |Registers(list[k])|, fired + [list[k]])
  {
    var t := list[k];
    var added, rev := Registered(fired), Reversed(Registers(t));
    var list', k', fired' := Fire(list, k), k + |rev|, fired + [t];
    assert fired'[..|fired|] == fired;
    assert Registered(fired') == rev + added;
    FireSlices(list, k, |added|, rev);
    ExpiredFirst(now, list[k..]);
    assert fired + ([t] + Expired(now, list[k + 1..])) == fired' + Expired(now, list[k + 1..]);
  }

  lemma PassStep(now: int, start: seq<Timer>, list: seq<Timer>, k: nat, fired: seq<Timer>)
    requires Checking(now, start, list, k, fired) && k < |list| && !IsExpired(now, list[k])
    ensures Checking(now, start, list, k + 1, fired)
  {
    var added := Registered(fired);
    assert list[k + 1..] == list[k..][1..];
    assert list[|added|..k + 1] == list[|added|..k] + [list[k]];
  }

  function AfterVisit(now: int, list: seq<Timer>, k: int): seq<Timer>
    requires 0 <= k < |list|
  {
    if IsExpired(now, list[k]) then Fire(list, k) else list
  }

  function PositionAfterVisit(now: int, list: seq<Timer>, k: nat): nat
    requires k < |list|
  {
    if IsExpired(now, list[k]) then k + |Registers(list[k])| else k + 1
  }

  lemma VisitStep(now: int, start: seq<Timer>, list: seq<Timer>, k: nat, fired: seq<Timer>)
    requires Checking(now, start, list, k, fired) && k < |list|
    ensures Checking(now, start, AfterVisit(now, list, k), PositionAfterVisit(now, list, k),
                     if IsExpired(now, list[k]) then fired + [list[k]] else fired)
  {
    if IsExpired(now, list[k]) {
      FireStep(now, start, list, k, fired);
    } else {
      PassStep(now, start, list, k, fired);
    }
  }

  lemma LastStep(now: int, start: seq<Timer>, list: seq<Timer>, fired: seq<Timer>)
    requires Checking(now, start, list, |list|, fired)
    ensures fired == Expired(now, start) && list == Registered(fired) + Unexpired(now, start)
  {
    assert list == list[..|Registered(fired)|] + list[|Registered(fired)|..];
  }

  class TimerList {
    const timers: List<Timer>

    ghost predicate Valid()
      reads this, timers, timers.repr
    {
      timers.Valid()
    }

    constructor ()
      ensures Valid() && timers.contents == []
      ensures fresh(timers) && fresh(timers.repr)
    {
      timers := new List(Timer(0, 0, NoCallback));
    }

    /** The callback of a timer, called while the sweep stands on that timer's link */
    method RunCallback(link: Link<Timer>, ghost k: nat)
      requires Valid() && k + 1 < |timers.ring| && timers.ring[k + 1] == link
      modifies timers, timers.repr
      ensures Valid() && fresh(timers.repr - old(timers.repr))
      ensures timers.contents == Reversed(Registers(link.item)) + old(timers.contents)
      ensures k + 1 + |Registers(link.item)| < |timers.ring|
      ensures timers.ring[k + 1 + |Registers(link.item)|] == link
    {
      if link.item.callback.Callback? {
        var news := link.item.callback.registers;
        ghost var before := timers.contents;
        var j := 0;
        while j < |news|
          invariant 0 <= j <= |news| && Valid() && fresh(timers.repr - old(timers.repr))
          invariant Reversed(news) + before == Reversed(news[j..]) + timers.contents
          invariant k + 1 + j < |timers.ring| && timers.ring[k + 1 + j] == link
        {
          ghost var rest := news[j..];
          assert rest[1..] == news[j + 1..];
          ghost var list := timers.contents;
          assert (Reversed(rest[1..]) + [news[j]]) + list == Reversed(rest[1..]) + ([news[j]] + list);
          var _ := timers.AddToList(news[j]);
          j := j + 1;
        }
      }
    }

    /** server_check_timers; the timers fired, in the order of their callbacks */
    method CheckTimers(now: int) returns (fired: seq<Timer>)
      requires Valid()
      modifies timers, timers.repr
      ensures Valid() && fresh(timers.repr - old(timers.repr))
      ensures fired == Expired(now, old(timers.contents))
      ensures forall t :: t in fired <==> t in old(timers.contents) && t.expires < now
      ensures timers.contents == Registered(fired) + Unexpired(now, old(timers.contents))
    {
      fired := [];
      var timer := timers.Next(timers.head, 0);
      ghost var k := 0;
      ghost var left := |timers.contents|;
      while timer != timers.head
        invariant Valid() && fresh(timers.repr - old(timers.repr)) && 0 <= k && k + left == |timers.contents|
        invariant timer == if left > 0 then timers.ring[k + 1] else timers.head
        invariant Checking(now, old(timers.contents), timers.contents, k, fired)
        decreases left
      {
        VisitStep(now, old(timers.contents), timers.contents, k, fired);
        if IsExpired(now, timer.item) {
          fired := fired + [timer.item];
        }
        timer, k := Visit(now, timer, k);
        left := left - 1;
      }
      LastStep(now, old(timers.contents), timers.contents, fired);
      SweepConserves(now, old(timers.contents));
    }

    /** One round: callback and unlinking of an expired timer, then the step of foreach */
    method Visit(now: int, timer: Link<Timer>, ghost k: nat) returns (next: Link<Timer>, ghost k': nat)
      requires Valid() && k < |timers.contents| && timers.ring[k + 1] == timer
      modifies timers, timers.repr
      ensures Valid() && fresh(timers.repr - old(timers.repr))
      ensures timers.contents == AfterVisit(now, old(timers.contents), k)
      ensures k' == PositionAfterVisit(now, old(timers.contents), k) <= |timers.contents|
      ensures |timers.contents| - k' == old(|timers.contents|) - k - 1
      ensures next == if k' < |timers.contents| then timers.ring[k' + 1] else timers.head
    {
      if IsExpired(now, timer.item) {
        next, k' := FireAndStep(timer, k);
      } else {
        next := timers.Next(timer, k + 1);
        k' := k + 1;
      }
    }

    /** Callback, unlinking, and the step of foreach from the link before */
    method FireAndStep(timer: Link<Timer>, ghost k: nat) returns (next: Link<Timer>, ghost k': nat)
      requires Valid() && k < |timers.contents| && timers.ring[k + 1] == timer
      modifies timers, timers.repr
      ensures Valid() && fresh(timers.repr - old(timers.repr))
      ensures timers.contents == Fire(old(timers.contents), k) && k' == k + |Registers(timer.item)|
      ensures next == if k' < |timers.contents| then timers.ring[k' + 1] else timers.head
    {
      ghost var list := timers.contents;
      RunCallback(timer, k);
      k' := k + |Registers(timer.item)|;
      ghost var rev := Reversed(Registers(timer.item));
      assert (rev + list)[..k'] + (rev + list)[k' + 1..] == Fire(list, k);
      next := timers.Delete(timer, k' + 1);
      next := timers.Next(next, k');
    }
  }
}
