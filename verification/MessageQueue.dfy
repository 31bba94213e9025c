/**
  The bounded message queue of queue.c. Each operation runs under the queue's mutex and is one
  atomic step; waiting with a timeout is left to the caller's scheduler.
*/
module MessageQueue {

  import opened Wrappers

  /** Whether a queue of this length is full; a limit of 0 means there is none */
  predicate IsFull(limit: nat, length: nat) {
    limit > 0 && length >= limit
  }

  /** The messages that adding one deletes: the oldest, if the queue is full */
  function DroppedBy<M>(limit: nat, messages: seq<M>): seq<M> {
    if IsFull(limit, |messages|) then messages[..1] else []
  }

  function AfterAdd<M>(limit: nat, messages: seq<M>, m: M): seq<M> {
    messages[|DroppedBy(limit, messages)|..] + [m]
  }

  /** What queue_get returns: nothing, or the oldest message */
  function Oldest<M>(messages: seq<M>): seq<M> {
    if messages == [] then [] else messages[..1]
  }

  function AfterGet<M>(messages: seq<M>): seq<M> {
    messages[|Oldest(messages)|..]
  }

  /** messages is what is left of history at its end, and within the limit */
  predicate IsRecent<M(==)>(limit: nat, messages: seq<M>, history: seq<M>) {
    && |messages| <= |history|
    && messages == history[|history| - |messages|..]
    && (limit > 0 ==> |messages| <= limit)
  }

  /** Adding keeps a queue the most recent part of what was ever added, within its limit */
  lemma AddKeepsRecent<M>(limit: nat, messages: seq<M>, history: seq<M>, m: M)
    requires IsRecent(limit, messages, history)
    ensures IsRecent(limit, AfterAdd(limit, messages, m), history + [m])
    ensures messages + [m] == DroppedBy(limit, messages) + AfterAdd(limit, messages, m)
  {
    var after, all := AfterAdd(limit, messages, m), history + [m];
    assert messages == DroppedBy(limit, messages) + messages[|DroppedBy(limit, messages)|..];
    assert all[|all| - |after|..] == after;
  }

  /** How many messages a queue holds after some have come in, without any taken out */
  function Capacity(limit: nat, arrived: nat): nat {
    if limit == 0 || arrived <= limit then arrived else limit
  }

  /** One more message to a queue that holds the last ones of all, as many as its limit allows */
  lemma KeepsLast<M>(limit: nat, all: seq<M>, m: M)
    ensures var messages, more := all[|all| - Capacity(limit, |all|)..], all + [m];
            && AfterAdd(limit, messages, m) == more[|more| - Capacity(limit, |more|)..]
            && all[..|all| - Capacity(limit, |all|)] + DroppedBy(limit, messages)
                == more[..|more| - Capacity(limit, |more|)]
  {
    var n, k := |all|, Capacity(limit, |all|);
    assert all[..n - k] + all[n - k..] == all;
    if limit > 0 && n >= limit {
      assert k == limit && all[n - k..][1..] == all[n - k + 1..] && all[n - k..][..1] == [all[n - k]];
      assert all[..n - k] + [all[n - k]] == all[..n - k + 1];
    }
  }

  lemma {:induction false} FreedConcat<D>(s: seq<Message<D>>, t: seq<Message<D>>)
    ensures Freed(s + t) == Freed(s) + Freed(t)
  {
    if s == [] {
      assert s + t == t;
    } else {
      assert (s + t)[1..] == s[1..] + t;
      FreedConcat(s[1..], t);
    }
  }

  /** So does taking the oldest message */
  lemma GetKeepsRecent<M>(limit: nat, messages: seq<M>, history: seq<M>)
    requires IsRecent(limit, messages, history)
    ensures IsRecent(limit, AfterGet(messages), history)
    ensures messages == Oldest(messages) + AfterGet(messages)
  {
    var after := AfterGet(messages);
    assert history[|history| - |after|..] == after;
  }

  /** deletes: a destructor was given with the message */
  datatype Message<D> = Message(event: int, data: Option<D>, deletes: bool)

  /** The data that deleting these messages frees, in order */
  function Freed<D>(messages: seq<Message<D>>): seq<D> {
    if messages == [] then []
    else (if messages[0].deletes && messages[0].data.Some? then [messages[0].data.value] else []) + Freed(messages[1..])
  }

  lemma {:induction false} FreedFrom<D>(messages: seq<Message<D>>, d: nat, before: seq<D>)
    requires d < |messages|
    ensures before + Freed(messages[d..]) == before + Freed(messages[d..d + 1]) + Freed(messages[d + 1..])
  {
    assert messages[d..][1..] == messages[d + 1..] && messages[d..d + 1][1..] == [];
  }

  class Queue<D> {
    const limit: nat
    var messages: array<Message<D>>
    var length: nat
    var freed: seq<D>                      // data given to their destructors
    ghost var history: seq<Message<D>>     // every message ever added since the queue was last cleared

    /** The array is as long as the queue, which holds the most recent messages */
    ghost predicate Valid()
      reads this, messages
    {
      length == messages.Length && IsRecent(limit, messages[..], history)
    }

    constructor (limit: nat)
      ensures Valid() && fresh(messages) && this.limit == limit && messages[..] == [] && freed == [] && history == []
    {
      this.limit := limit;
      messages, length, freed, history := new Message[0], 0, [], [];
    }

    /** realloc: the messages that fit are where they were, in memory of the new size */
    method Resize(size: nat)
      modifies `messages
      ensures fresh(messages) && messages.Length == size
      ensures forall k :: 0 <= k < size && k < old(messages.Length) ==> messages[k] == old(messages[k])
    {
      var resized := new Message<D>[size](_ => Message(-1, None, false));
      forall k | 0 <= k < size && k < messages.Length {
        resized[k] := messages[k];
      }
      messages := resized;
    }

    /** The memmove of queue_shift: every message moves one place to the front */
    method MoveToFront()
      requires 0 < length == messages.Length
      modifies messages
      ensures forall k :: 0 <= k < length - 1 ==> messages[k] == old(messages[k + 1])
    {
      var d := 0;
      while d < length - 1
        invariant 0 <= d <= length - 1
        invariant forall k :: 0 <= k < d ==> messages[k] == old(messages[k + 1])
        invariant forall k :: d <= k < length ==> messages[k] == old(messages[k])
      {
        messages[d] := messages[d + 1];
        d := d + 1;
      }
    }

    /** queue_shift */
    method Shift()
      requires length == messages.Length
      modifies `messages, `length, messages
      ensures length == messages.Length && messages[..] == AfterGet(old(messages[..]))
      ensures messages == old(messages) || fresh(messages)
    {
      if length == 0 {
        return;
      }
      MoveToFront();
      length := length - 1;
      Resize(length);
    }

    /** The destructor, if one was given with the message */
    method Delete(m: Message<D>)
      modifies `freed
      ensures freed == old(freed) + Freed([m])
    {
      if m.deletes && m.data.Some? {
        freed := freed + [m.data.value];
      }
    }

    /** queue_add_with_destructor */
    method Add(event: int, data: Option<D>, deletes: bool)
      requires Valid()
      modifies this, messages
      ensures Valid() && fresh(messages) && history == old(history) + [Message(event, data, deletes)]
      ensures messages[..] == AfterAdd(limit, old(messages[..]), Message(event, data, deletes))
      ensures freed == old(freed) + Freed(DroppedBy(limit, old(messages[..])))
      ensures limit == 0 || old(length) < limit ==>
                messages[..] == old(messages[..]) + [Message(event, data, deletes)] && freed == old(freed)
      ensures limit > 0 && old(length) >= limit ==>
                && messages[..] == old(messages[..])[1..] + [Message(event, data, deletes)]
                && freed == old(freed) + if old(messages[0]).deletes && old(messages[0]).data.Some?
                                         then [old(messages[0]).data.value] else []
    {
      ghost var before := messages[..];
      AddKeepsRecent(limit, before, history, Message(event, data, deletes));
      if limit > 0 && length >= limit {
        Delete(messages[0]);
        assert DroppedBy(limit, before) == [before[0]];
        Shift();
      }
      assert messages[..] == before[|DroppedBy(limit, before)|..];
      Append(Message(event, data, deletes));
      history := history + [Message(event, data, deletes)];
    }

    /** Room for one more, and the message in it */
    method Append(m: Message<D>)
      requires length == messages.Length
      modifies `messages, `length
      ensures length == messages.Length && fresh(messages) && messages[..] == old(messages[..]) + [m]
    {
      Resize(length + 1);
      messages[length] := m;
      length := length + 1;
    }

    /** queue_get, once the wait for a message is over; the default message when there is none */
    method Get() returns (m: Message<D>)
      requires Valid()
      modifies `messages, `length, messages
      ensures Valid() && (messages == old(messages) || fresh(messages))
      ensures messages[..] == AfterGet(old(messages[..])) && freed == old(freed)
      ensures if old(length) == 0 then m == Message(-1, None, false) else Oldest(old(messages[..])) == [m]
    {
      GetKeepsRecent(limit, messages[..], history);
      m := Message(-1, None, false);
      if length > 0 {
        m := messages[0];
        Shift();
      }
    }

    /** queue_clear: every message is deleted, oldest first */
    method Clear()
      requires Valid()
      modifies this
      ensures Valid() && fresh(messages) && messages[..] == [] && history == []
      ensures freed == old(freed) + Freed(old(messages[..]))
    {
      ghost var all := messages[..];
      var d := 0;
      while d < length
        invariant 0 <= d <= length == messages.Length && messages == old(messages) && messages[..] == all
        invariant old(freed) + Freed(all) == freed + Freed(all[d..])
      {
        FreedFrom(all, d, freed);
        assert all[d..d + 1] == [messages[d]];
        Delete(messages[d]);
        d := d + 1;
      }
      assert all[d..] == [];
      length, messages, history := 0, new Message[0], [];
    }
  }

  /** The queue holds the last of these messages, as many as its limit allows, and has freed the others */
  ghost predicate HoldsLast<D>(queue: Queue<D>, all: seq<Message<D>>)
    reads queue, queue.messages
  {
    var k := Capacity(queue.limit, |all|);
    queue.messages[..] == all[|all| - k..] && queue.freed == Freed(all[..|all| - k])
  }

  lemma EmptyHoldsLast<D>(queue: Queue<D>)
    requires queue.Valid() && queue.length == 0 && queue.freed == []
    ensures HoldsLast(queue, [])
  {
  }

  method AddNext<D>(queue: Queue<D>, m: Message<D>, ghost all: seq<Message<D>>)
    requires queue.Valid() && HoldsLast(queue, all)
    modifies queue, queue.messages
    ensures queue.Valid() && fresh(queue.messages) && HoldsLast(queue, all + [m])
  {
    KeepsLast(queue.limit, all, m);
    FreedConcat(all[..|all| - Capacity(queue.limit, |all|)], DroppedBy(queue.limit, queue.messages[..]));
    queue.Add(m.event, m.data, m.deletes);
  }

  /** Any series of messages added to a queue that has had some */
  method AddEach<D>(queue: Queue<D>, rest: seq<Message<D>>, ghost all: seq<Message<D>>)
    requires queue.Valid() && HoldsLast(queue, all)
    modifies queue, queue.messages
    ensures queue.Valid() && HoldsLast(queue, all + rest)
    ensures queue.messages == old(queue.messages) || fresh(queue.messages)
    decreases |rest|
  {
    if rest == [] {
      assert all + rest == all;
    } else {
      AddNext(queue, rest[0], all);
      assert all + rest == (all + [rest[0]]) + rest[1..];
      AddEach(queue, rest[1..], all + [rest[0]]);
    }
  }

  /**
    Any series of messages added to an empty queue: it holds the last ones, as many as its limit
    allows, and has freed the data of all others, oldest first.
  */
  method AddAll<D>(queue: Queue<D>, all: seq<Message<D>>)
    requires queue.Valid() && queue.length == 0 && queue.freed == []
    modifies queue, queue.messages
    ensures queue.Valid()
    ensures var k := if queue.limit == 0 || |all| <= queue.limit then |all| else queue.limit;
            queue.messages[..] == all[|all| - k..] && queue.freed == Freed(all[..|all| - k])
  {
    EmptyHoldsLast(queue);
    AddEach(queue, all, []);
    assert HoldsLast(queue, all) by {
      assert [] + all == all;
    }
  }
}
