/**
  The protocol between the server and its Python client: the sending side of server.c and
  fast.c, and dataReceived of webfast.py. Messages end with NUL, frames are a header message,
  a binary payload of the announced length, and a closing message.
*/
module Wire {
  import opened Bytes
  import opened Wrappers

  // ----- the sender -----

  /** How much of a buffer of n bytes a series of sends takes; it ends with the first that fails */
  function Accepts(results: seq<int>, n: nat): (taken: nat)
    ensures taken <= n
  {
    if n == 0 || results == [] || results[0] <= 0 then 0
    else if results[0] >= n then n
    else results[0] + Accepts(results[1..], n - results[0])
  }

  lemma AcceptsFirst(results: seq<int>, n: nat)
    requires n > 0 && results != [] && results[0] > 0
    ensures var chunk := if results[0] <= n then results[0] else n;
            Accepts(results, n) == chunk + Accepts(results[1..], n - chunk)
  {
  }

  /** While every send takes something, a buffer is emptied by as many sends as it has bytes */
  lemma {:induction false} SendsEmptyBuffer(results: seq<int>, n: nat)
    requires |results| >= n && forall k :: 0 <= k < |results| ==> results[k] > 0
    ensures Accepts(results, n) == n
    decreases n
  {
    if n > 0 && results[0] < n {
      SendsEmptyBuffer(results[1..], n - results[0]);
    }
  }

  /** A send that takes nothing, or fails, ends the writing, whatever later ones would take */
  lemma {:induction false} AcceptsStops(before: seq<int>, failed: int, after: seq<int>, n: nat)
    requires failed <= 0
    ensures Accepts(before + [failed] + after, n) == Accepts(before, n)
    decreases |before|
  {
    var all := before + [failed] + after;
    if before == [] {
      assert all[0] == failed;
    } else if n > 0 && 0 < before[0] < n {
      assert all[0] == before[0] && all[1..] == before[1..] + [failed] + after;
      AcceptsStops(before[1..], failed, after, n - before[0]);
    } else {
      assert all[0] == before[0];
    }
  }

  class Sender {
    var isSocket: bool
    var isConnected: bool
    var writeBuffer: seq<Byte>
    var sent: seq<Byte>           // what the socket has taken
    ghost var accepted: seq<Byte> // every block queued for sending

    /** No byte is lost, doubled or reordered between the callers and the socket */
    ghost predicate Valid()
      reads this
    {
      accepted == sent + writeBuffer
    }

    constructor (isSocket: bool, isConnected: bool)
      ensures Valid() && accepted == [] && this.isSocket == isSocket && this.isConnected == isConnected
    {
      this.isSocket, this.isConnected := isSocket, isConnected;
      writeBuffer, sent, accepted := [], [], [];
    }

    /** server_connection_write: results[k] is what the k-th send returns; the socket takes no more past their end */
    method Write(results: seq<int>)
      requires Valid()
      modifies `writeBuffer, `sent
      ensures Valid()
      ensures var n := if isSocket && isConnected then Accepts(results, |old(writeBuffer)|) else 0;
              writeBuffer == old(writeBuffer)[n..]
    {
      if |writeBuffer| == 0 || !isSocket || !isConnected {
        return;
      }
      var k := 0;
      while |writeBuffer| > 0
        invariant Valid() && 0 <= k <= |results| && |writeBuffer| <= |old(writeBuffer)|
        invariant writeBuffer == old(writeBuffer)[|old(writeBuffer)| - |writeBuffer|..]
        invariant Accepts(results, |old(writeBuffer)|)
                  == |old(writeBuffer)| - |writeBuffer| + Accepts(results[k..], |writeBuffer|)
        decreases |writeBuffer|
      {
        var chunk := if k < |results| then results[k] else 0;
        if chunk <= 0 {
          break;
        }
        AcceptsFirst(results[k..], |writeBuffer|);
        assert results[k..][1..] == results[k + 1..];
        TakeChunk(chunk);
        k := k + 1;
      }
    }

    /** One send that takes chunk bytes, or as many as there are */
    method TakeChunk(chunk: int)
      requires Valid() && chunk > 0
      modifies `writeBuffer, `sent
      ensures var n := if chunk <= |old(writeBuffer)| then chunk else |old(writeBuffer)|;
              Valid() && writeBuffer == old(writeBuffer)[n..]
    {
      var n := if chunk <= |writeBuffer| then chunk else |writeBuffer|;
      sent := sent + writeBuffer[..n];
      writeBuffer := writeBuffer[n..];
    }

    /** server_connection_write_block */
    method WriteBlock(block: seq<Byte>, results: seq<int>)
      requires Valid()
      modifies this
      ensures Valid() && isSocket == old(isSocket) && isConnected == old(isConnected)
      ensures accepted == old(accepted) + if isSocket then block else []
    {
      if |block| <= 0 || !isSocket {
        return;
      }
      writeBuffer := writeBuffer + block;
      accepted := accepted + block;
      Write(results);
    }

    /** server_connection_message: the text and the NUL behind it */
    method Message(text: seq<Byte>, results: seq<int>)
      requires Valid()
      modifies this
      ensures Valid() && isSocket == old(isSocket) && isConnected == old(isConnected)
      ensures accepted == old(accepted) + if isSocket then text + [0] else []
    {
      WriteBlock(text + [0], results);
    }

    /** Sending an item: a frame goes out in three blocks, and not at all when it is empty */
    method Send(item: Item, results: seq<seq<int>>)
      requires Valid() && |results| == 3
      modifies this
      ensures Valid() && isSocket == old(isSocket) && isConnected == old(isConnected)
      ensures accepted == old(accepted) + if isSocket then Encode(item) else []
    {
      match item {
        case Message(text) =>
          Message(text, results[0]);
        case Frame(header, payload, done) =>
          if |payload| > 0 {
            Message(header, results[0]);
            WriteBlock(payload, results[1]);
            Message(done, results[2]);
          }
      }
    }

    /** Any series of items, over any series of partial sends */
    method SendAll(items: seq<Item>, results: seq<seq<seq<int>>>)
      requires Valid() && isSocket && |results| == |items| && forall k :: 0 <= k < |results| ==> |results[k]| == 3
      modifies this
      ensures Valid() && isSocket
      ensures accepted == old(accepted) + EncodeAll(items)
    {
      for k := 0 to |items|
        invariant Valid() && isSocket
        invariant old(accepted) + EncodeAll(items) == accepted + EncodeAll(items[k..])
      {
        assert items[k..][1..] == items[k + 1..];
        assert accepted + (Encode(items[k]) + EncodeAll(items[k + 1..]))
               == accepted + Encode(items[k]) + EncodeAll(items[k + 1..]);
        Send(items[k], results[k]);
      }
    }
  }

  /** What the server sends */
  datatype Item =
    | Message(text: seq<Byte>)
    | Frame(header: seq<Byte>, payload: seq<Byte>, done: seq<Byte>)

  function Encode(item: Item): seq<Byte> {
    match item
    case Message(text) => text + [0]
    case Frame(header, payload, done) =>
      if payload == [] then [] else (header + [0]) + payload + (done + [0])
  }

  function EncodeAll(items: seq<Item>): seq<Byte> {
    if items == [] then [] else Encode(items[0]) + EncodeAll(items[1..])
  }

  // ----- the client -----

  /** What the client's handlers are given */
  datatype Event = Text(token: seq<Byte>) | Binary(data: seq<Byte>)

  /** The protocol object; pending is what processMessage makes of a message: the length of the block it announces */
  datatype State = State(buffer: seq<Byte>, isBinary: bool, binaryLength: nat, log: seq<Event>)

  type Announces = seq<Byte> -> Option<nat>

  predicate IsSeparator(b: Byte) {
    b == 0 || b == 10
  }

  /** Position of the first separator, the length if there is none */
  function Separator(bytes: seq<Byte>): (k: nat)
    ensures k <= |bytes|
    ensures k < |bytes| ==> IsSeparator(bytes[k])
    ensures forall j :: 0 <= j < k ==> !IsSeparator(bytes[j])
  {
    if bytes == [] || IsSeparator(bytes[0]) then 0 else 1 + Separator(bytes[1..])
  }

  /** Nothing for the loop of dataReceived to do */
  predicate Quiet(s: State) {
    || s.buffer == []
    || (s.isBinary && |s.buffer| < s.binaryLength)
    || (!s.isBinary && Separator(s.buffer) == |s.buffer|)
  }

  /** A token that does not decode as ASCII: the exception is caught and ends the loop, the token already gone */
  predicate AtBadToken(s: State) {
    && !Quiet(s) && !s.isBinary
    && !IsAscii(s.buffer[..Separator(s.buffer)])
  }

  /** One round of the loop */
  function Round(announces: Announces, s: State): State
    requires !Quiet(s)
  {
    if s.isBinary then
      State(s.buffer[s.binaryLength..], false, s.binaryLength, s.log + [Binary(s.buffer[..s.binaryLength])])
    else
      var k := Separator(s.buffer);
      var token, rest := s.buffer[..k], s.buffer[k + 1..];
      if token == [] || !IsAscii(token) then s.(buffer := rest)
      else
        var announced := announces(token);
        State(rest, announced.Some?, if announced.Some? then announced.value else s.binaryLength, s.log + [Text(token)])
  }

  /** The whole loop */
  function Drain(announces: Announces, s: State): State
    decreases |s.buffer|, s.isBinary
  {
    if Quiet(s) then s
    else if AtBadToken(s) then Round(announces, s)
    else Drain(announces, Round(announces, s))
  }

  /** The loop ends at a bad token */
  predicate Halts(announces: Announces, s: State)
    decreases |s.buffer|, s.isBinary
  {
    !Quiet(s) && (AtBadToken(s) || Halts(announces, Round(announces, s)))
  }

  function Append(s: State, data: seq<Byte>): State {
    s.(buffer := s.buffer + data)
  }

  class Client {
    const announces: Announces
    var buffer: seq<Byte>
    var isBinary: bool
    var binaryLength: nat
    var log: seq<Event>

    ghost function Abstract(): State
      reads this
    {
      State(buffer, isBinary, binaryLength, log)
    }

    constructor (announces: Announces)
      ensures this.announces == announces && Abstract() == IDLE
    {
      this.announces := announces;
      buffer, isBinary, binaryLength, log := [], false, 0, [];
    }

    method DataReceived(data: seq<Byte>)
      modifies this
      ensures Abstract() == Drain(announces, Append(old(Abstract()), data))
    {
      buffer := buffer + data;
      ghost var s0 := Abstract();
      while |buffer| > 0
        invariant Drain(announces, s0) == Drain(announces, Abstract())
        decreases |buffer|, isBinary
      {
        ghost var s := Abstract();
        if isBinary {
          if |buffer| >= binaryLength {
            var data := buffer[..binaryLength];
            buffer := buffer[binaryLength..];
            log := log + [Binary(data)];
            isBinary := false;
          } else {
            break;
          }
        } else {
          var k := Separator(buffer);
          if k == |buffer| {
            break;
          }
          var token := buffer[..k];
          buffer := buffer[k + 1..];
          if |token| > 0 {
            if !IsAscii(token) {
              assert AtBadToken(s);
              return;
            }
            log := log + [Text(token)];
            var announced := announces(token);
            if announced.Some? {
              isBinary, binaryLength := true, announced.value;
            }
          }
        }
        assert Abstract() == Round(announces, s);
      }
    }
  }

  /**
    A token ends at NUL or at LF, and is handed over exactly when it is not empty and all its bytes
    are ASCII.
  */
  lemma OneToken(announces: Announces, token: seq<Byte>, end: Byte)
    requires forall k :: 0 <= k < |token| ==> token[k] != 0 && token[k] != 10
    requires (end == 0 || end == 10) && announces(token).None?
    ensures var s := Drain(announces, State(token + [end], false, 0, []));
            && s.buffer == [] && !s.isBinary
            && s.log == if token != [] && forall k :: 0 <= k < |token| ==> token[k] < 128 then [Text(token)] else []
  {
    var s := State(token + [end], false, 0, []);
    SeparatorOfConcat(token, [end]);
    SeparatorAtEnd(token);
    assert Separator(s.buffer) == |token|;
    assert s.buffer[..|token|] == token && s.buffer[|token| + 1..] == [];
    assert Round(announces, s).buffer == [];
    assert [] + [Text(token)] == [Text(token)];
  }

  lemma {:induction false} SeparatorAtEnd(bytes: seq<Byte>)
    requires forall k :: 0 <= k < |bytes| ==> bytes[k] != 0 && bytes[k] != 10
    ensures Separator(bytes) == |bytes|
  {
    if bytes != [] {
      SeparatorAtEnd(bytes[1..]);
    }
  }

  // ----- feeding in pieces -----

  lemma {:induction false} SeparatorOfConcat(a: seq<Byte>, b: seq<Byte>)
    ensures Separator(a) < |a| ==> Separator(a + b) == Separator(a)
    ensures Separator(a) == |a| ==> Separator(a + b) == |a| + Separator(b)
  {
    if a == [] {
      assert a + b == b;
    } else if !IsSeparator(a[0]) {
      assert (a + b)[1..] == a[1..] + b;
      SeparatorOfConcat(a[1..], b);
    }
  }

  /** More data does not change a round that can already be made */
  lemma RoundOfAppend(announces: Announces, s: State, data: seq<Byte>)
    requires !Quiet(s)
    ensures !Quiet(Append(s, data))
    ensures AtBadToken(Append(s, data)) <==> AtBadToken(s)
    ensures Round(announces, Append(s, data)) == Append(Round(announces, s), data)
  {
    SeparatorOfConcat(s.buffer, data);
    var all := s.buffer + data;
    if s.isBinary {
      assert all[..s.binaryLength] == s.buffer[..s.binaryLength];
      assert all[s.binaryLength..] == s.buffer[s.binaryLength..] + data;
    } else {
      var k := Separator(s.buffer);
      assert all[..k] == s.buffer[..k] && all[k + 1..] == s.buffer[k + 1..] + data;
    }
  }

  /** When no token goes bad, feeding a and then b is feeding both at once ... */
  lemma {:induction false} DrainInTwo(announces: Announces, s: State, data: seq<Byte>)
    requires !Halts(announces, s)
    ensures Drain(announces, Append(Drain(announces, s), data)) == Drain(announces, Append(s, data))
    decreases |s.buffer|, s.isBinary
  {
    if !Quiet(s) {
      RoundOfAppend(announces, s, data);
      DrainInTwo(announces, Round(announces, s), data);
    }
  }

  /** ... and when one does, more data is left lying behind it */
  lemma {:induction false} DrainStuck(announces: Announces, s: State, data: seq<Byte>)
    requires Halts(announces, s)
    ensures Halts(announces, Append(s, data))
    ensures Drain(announces, Append(s, data)) == Append(Drain(announces, s), data)
    decreases |s.buffer|, s.isBinary
  {
    RoundOfAppend(announces, s, data);
    if !AtBadToken(s) {
      DrainStuck(announces, Round(announces, s), data);
    }
  }

  /** Every round makes progress, so a state the loop can work on does not come out unchanged */
  lemma {:induction false} DrainProgress(announces: Announces, s: State)
    ensures var t := Drain(announces, s); |t.buffer| <= |s.buffer| && s.log <= t.log
    ensures !Quiet(s) ==> |Drain(announces, s).buffer| < |s.buffer| || |s.log| < |Drain(announces, s).log|
    decreases |s.buffer|, s.isBinary
  {
    if !Quiet(s) && !AtBadToken(s) {
      DrainProgress(announces, Round(announces, s));
    }
  }

  /**
    Feeding a and then b gives what feeding a ++ b gives exactly when no token within a is bad,
    or there is nothing left to do behind the bad token even with b.
  */
  lemma FeedingInPiecesExactly(announces: Announces, s: State, a: seq<Byte>, b: seq<Byte>)
    ensures var first := Drain(announces, Append(s, a));
            Drain(announces, Append(first, b)) == Drain(announces, Append(s, a + b))
            <==> !Halts(announces, Append(s, a)) || Quiet(Append(first, b))
  {
    var sa := Append(s, a);
    assert Append(sa, b) == Append(s, a + b) by {
      assert s.buffer + a + b == s.buffer + (a + b);
    }
    if Halts(announces, sa) {
      DrainStuck(announces, sa, b);
      DrainProgress(announces, Append(Drain(announces, sa), b));
    } else {
      DrainInTwo(announces, sa, b);
    }
  }

  /** A buffer that holds one byte and a NUL */
  lemma OneByteToken(announces: Announces, x: Byte)
    requires x != 0 && x != 10
    ensures var s := State([x, 0], false, 0, []);
            && !Quiet(s) && (AtBadToken(s) <==> x >= 128)
            && (announces([x]).None? ==>
                Round(announces, s) == State([], false, 0, if x < 128 then [Text([x])] else []))
  {
    var buffer: seq<Byte> := [x, 0];
    assert buffer[1..] == [0];
    assert Separator(buffer) == 1;
    assert buffer[..1] == [x] && buffer[2..] == [];
  }

  const IDLE := State([], false, 0, [])

  lemma OneByteDrained(announces: Announces, x: Byte)
    requires x != 0 && x != 10 && announces([x]).None?
    ensures Drain(announces, State([x, 0], false, 0, [])) == if x < 128 then IDLE.(log := [Text([x])]) else IDLE
    ensures Halts(announces, State([x, 0], false, 0, [])) <==> x >= 128
  {
    OneByteToken(announces, x);
  }

  /** A token with a byte of 128 or more holds back the message behind it when both come in one chunk */
  lemma BadTokenHoldsBack(announces: Announces)
    requires announces([97]).None? && announces([200]).None?
    ensures Drain(announces, Append(Drain(announces, Append(IDLE, [200, 0])), [97, 0])) == IDLE.(log := [Text([97])])
    ensures Drain(announces, Append(IDLE, [200, 0] + [97, 0])) == IDLE.(buffer := [97, 0])
  {
    var bad, good := State([200, 0], false, 0, []), State([97, 0], false, 0, []);
    assert Append(IDLE, [200, 0]) == bad && Append(IDLE, [97, 0]) == good;
    OneByteDrained(announces, 97);
    BadTokenStays(announces, [97, 0]);
    assert Append(bad, [97, 0]) == Append(IDLE, [200, 0] + [97, 0]);
  }

  lemma BadTokenStays(announces: Announces, data: seq<Byte>)
    requires announces([200]).None?
    ensures Drain(announces, State([200, 0], false, 0, [])) == IDLE
    ensures Drain(announces, Append(State([200, 0], false, 0, []), data)) == IDLE.(buffer := data)
  {
    OneByteDrained(announces, 200);
    DrainStuck(announces, State([200, 0], false, 0, []), data);
    assert [] + data == data;
  }

  /** dataReceived called with one chunk after another */
  function Receive(announces: Announces, s: State, chunks: seq<seq<Byte>>): State {
    if chunks == [] then s
    else Drain(announces, Append(Receive(announces, s, chunks[..|chunks| - 1]), chunks[|chunks| - 1]))
  }

  lemma {:induction false} ReceiveIsDrain(announces: Announces, s: State, chunks: seq<seq<Byte>>)
    requires Quiet(s) && !Halts(announces, Append(s, Joined(chunks)))
    ensures Receive(announces, s, chunks) == Drain(announces, Append(s, Joined(chunks)))
    decreases |chunks|
  {
    if chunks == [] {
      assert Append(s, []) == s;
    } else {
      var before, last := chunks[..|chunks| - 1], chunks[|chunks| - 1];
      var sb := Append(s, Joined(before));
      assert Append(sb, last) == Append(s, Joined(chunks)) by {
        assert s.buffer + Joined(before) + last == s.buffer + (Joined(before) + last);
      }
      if Halts(announces, sb) {
        DrainStuck(announces, sb, last);
      }
      ReceiveIsDrain(announces, s, before);
      DrainInTwo(announces, sb, last);
    }
  }

  /** A client object fed with chunks is in the state Receive describes */
  method ReceiveAll(announces: Announces, chunks: seq<seq<Byte>>) returns (client: Client)
    ensures fresh(client)
    ensures client.Abstract() == Receive(announces, IDLE, chunks)
  {
    client := new Client(announces);
    for k := 0 to |chunks|
      invariant client.announces == announces
      invariant client.Abstract() == Receive(announces, IDLE, chunks[..k])
    {
      assert chunks[..k + 1][..k] == chunks[..k];
      client.DataReceived(chunks[k]);
    }
    assert chunks[..|chunks|] == chunks;
  }

  // ----- end to end -----

  /** Text that goes through as one message: ASCII, without separators */
  predicate IsPlain(text: seq<Byte>) {
    IsAscii(text) && Separator(text) == |text|
  }

  /** The items of the protocol: plain texts, and frames whose header announces the length of the payload */
  predicate IsItem(announces: Announces, item: Item) {
    match item
    case Message(text) => IsPlain(text) && announces(text).None?
    case Frame(header, payload, done) =>
      && IsPlain(header) && header != [] && announces(header) == Some(|payload|)
      && IsPlain(done) && announces(done).None?
  }

  function TextEvents(text: seq<Byte>): seq<Event> {
    if text == [] then [] else [Text(text)]
  }

  /** What the client should make of an item: an empty message says nothing, an empty frame is not sent */
  function Expected(item: Item): seq<Event> {
    match item
    case Message(text) => TextEvents(text)
    case Frame(header, payload, done) =>
      if payload == [] then [] else [Text(header), Binary(payload)] + TextEvents(done)
  }

  function ExpectedAll(items: seq<Item>): seq<Event> {
    if items == [] then [] else Expected(items[0]) + ExpectedAll(items[1..])
  }

  /** A message at the head of the buffer is taken in one round */
  lemma MessageRound(announces: Announces, s: State, text: seq<Byte>, rest: seq<Byte>)
    requires !s.isBinary && s.buffer == text + [0] + rest && IsPlain(text)
    ensures !Quiet(s) && !AtBadToken(s)
    ensures var a := announces(text);
            Round(announces, s) == if text == [] then s.(buffer := rest)
                                   else State(rest, a.Some?, if a.Some? then a.value
                                       else s.binaryLength, s.log + [Text(text)])
  {
    assert s.buffer == text + ([0] + rest);
    SeparatorOfConcat(text, [0] + rest);
    assert s.buffer[..|text|] == text && s.buffer[|text| + 1..] == rest;
  }

  /** The loop ends the same way from s and from t */
  ghost predicate SameEnd(announces: Announces, s: State, t: State) {
    Drain(announces, s) == Drain(announces, t) && (Halts(announces, s) <==> Halts(announces, t))
  }

  lemma RoundSameEnd(announces: Announces, s: State)
    requires !Quiet(s) && !AtBadToken(s)
    ensures SameEnd(announces, s, Round(announces, s))
  {
  }

  lemma MessageSameEnd(announces: Announces, s: State, text: seq<Byte>, rest: seq<Byte>)
    requires !s.isBinary && s.buffer == text + [0] + rest && IsPlain(text)
    ensures announces(text).None? ==>
            SameEnd(announces, s, State(rest, false, s.binaryLength, s.log + TextEvents(text)))
    ensures text != [] && announces(text).Some? ==>
              SameEnd(announces, s, State(rest, true, announces(text).value, s.log + [Text(text)]))
  {
    MessageRound(announces, s, text, rest);
    RoundSameEnd(announces, s);
    assert s.log + [] == s.log;
  }

  lemma PayloadSameEnd(announces: Announces, s: State, payload: seq<Byte>, rest: seq<Byte>)
    requires s.isBinary && s.buffer == payload + rest && s.binaryLength == |payload| && payload != []
    ensures SameEnd(announces, s, State(rest, false, |payload|, s.log + [Binary(payload)]))
  {
    assert s.buffer[..|payload|] == payload && s.buffer[|payload|..] == rest;
    RoundSameEnd(announces, s);
  }

  /** A frame takes three rounds */
  lemma FrameDrained(announces: Announces, s: State, header: seq<Byte>, payload: seq<Byte>, done: seq<Byte>,
      rest: seq<Byte>)
    requires IsItem(announces, Frame(header, payload, done)) && payload != []
    requires !s.isBinary && s.buffer == header + [0] + (payload + (done + [0] + rest))
    ensures SameEnd(announces, s, State(rest, false, |payload|,
            s.log + [Text(header)] + [Binary(payload)] + TextEvents(done)))
  {
    var tail := done + [0] + rest;
    MessageSameEnd(announces, s, header, payload + tail);
    var s1 := State(payload + tail, true, |payload|, s.log + [Text(header)]);
    PayloadSameEnd(announces, s1, payload, tail);
    var s2 := State(tail, false, |payload|, s1.log + [Binary(payload)]);
    MessageSameEnd(announces, s2, done, rest);
  }

  lemma ItemDrained(announces: Announces, s: State, item: Item, rest: seq<Byte>) returns (n: nat)
    requires IsItem(announces, item) && !s.isBinary && s.buffer == Encode(item) + rest
    ensures SameEnd(announces, s, State(rest, false, n, s.log + Expected(item)))
  {
    n := s.binaryLength;
    match item {
      case Message(text) =>
        MessageSameEnd(announces, s, text, rest);
      case Frame(header, payload, done) =>
        if payload == [] {
          assert s.log + [] == s.log && [] + rest == rest;
        } else {
          FrameSplits(header, payload, done, rest);
          FrameDrained(announces, s, header, payload, done, rest);
          assert s.log + [Text(header)] + [Binary(payload)] + TextEvents(done) == s.log + Expected(item);
          n := |payload|;
        }
    }
  }

  lemma FrameSplits(header: seq<Byte>, payload: seq<Byte>, done: seq<Byte>, rest: seq<Byte>)
    requires payload != []
    ensures Encode(Frame(header, payload, done)) + rest == header + [0] + (payload + (done + [0] + rest))
  {
  }

  predicate AreItems(announces: Announces, items: seq<Item>) {
    items == [] || (IsItem(announces, items[0]) && AreItems(announces, items[1..]))
  }

  /** The loop empties the buffer, between items, and has logged this */
  ghost predicate Finishes(announces: Announces, s: State, log: seq<Event>) {
    var t := Drain(announces, s);
    !Halts(announces, s) && t.buffer == [] && !t.isBinary && t.log == log
  }

  lemma {:induction false} ItemsDrained(announces: Announces, s: State, items: seq<Item>)
    requires AreItems(announces, items) && !s.isBinary && s.buffer == EncodeAll(items)
    ensures Finishes(announces, s, s.log + ExpectedAll(items))
    decreases |items|
  {
    if items == [] {
      assert s.log + ExpectedAll(items) == s.log;
    } else {
      var t := FirstItemDrained(announces, s, items);
      ItemsDrained(announces, t, items[1..]);
      SameFinish(announces, s, t, t.log + ExpectedAll(items[1..]));
    }
  }

  lemma FirstItemDrained(announces: Announces, s: State, items: seq<Item>) returns (t: State)
    requires items != [] && IsItem(announces, items[0]) && !s.isBinary && s.buffer == EncodeAll(items)
    ensures SameEnd(announces, s, t) && !t.isBinary && t.buffer == EncodeAll(items[1..])
    ensures t.log + ExpectedAll(items[1..]) == s.log + ExpectedAll(items)
  {
    var rest := EncodeAll(items[1..]);
    var n := ItemDrained(announces, s, items[0], rest);
    t := State(rest, false, n, s.log + Expected(items[0]));
    Reassociate(s.log, Expected(items[0]), ExpectedAll(items[1..]));
  }

  lemma Reassociate<T>(a: seq<T>, b: seq<T>, c: seq<T>)
    ensures (a + b) + c == a + (b + c)
  {
  }

  lemma SameFinish(announces: Announces, s: State, t: State, log: seq<Event>)
    requires SameEnd(announces, s, t) && Finishes(announces, t, log)
    ensures Finishes(announces, s, log)
  {
  }

  /**
    End to end. The server has queued the items, of which the socket has taken the bytes sent;
    the client has received these in chunks of any sizes. Then it has understood a prefix of
    what was sent, and all of it once nothing is left unsent.
  */
  lemma EndToEnd(announces: Announces, items: seq<Item>, sent: seq<Byte>, unsent: seq<Byte>, chunks: seq<seq<Byte>>)
    requires AreItems(announces, items)
    requires sent + unsent == EncodeAll(items) && Joined(chunks) == sent
    ensures var t := Receive(announces, IDLE, chunks);
            t.log <= ExpectedAll(items)
            && (unsent == [] ==> t.log == ExpectedAll(items) && t.buffer == [] && !t.isBinary)
  {
    SentIsUnderstood(announces, items, sent, unsent);
    ReceiveIsDrain(announces, IDLE, chunks);
  }

  /** The same for the bytes sent in one chunk */
  lemma SentIsUnderstood(announces: Announces, items: seq<Item>, sent: seq<Byte>, unsent: seq<Byte>)
    requires AreItems(announces, items) && sent + unsent == EncodeAll(items)
    ensures !Halts(announces, Append(IDLE, sent))
    ensures var t := Drain(announces, Append(IDLE, sent));
            t.log <= ExpectedAll(items)
            && (unsent == [] ==> t.log == ExpectedAll(items) && t.buffer == [] && !t.isBinary)
  {
    AllIsUnderstood(announces, items);
    assert Append(Append(IDLE, sent), unsent) == Append(IDLE, EncodeAll(items));
    PartOfDrain(announces, Append(IDLE, sent), unsent, ExpectedAll(items));
    if unsent == [] {
      assert sent + unsent == sent;
    }
  }

  lemma AllIsUnderstood(announces: Announces, items: seq<Item>)
    requires AreItems(announces, items)
    ensures Finishes(announces, Append(IDLE, EncodeAll(items)), ExpectedAll(items))
  {
    assert IDLE.log + ExpectedAll(items) == ExpectedAll(items);
    assert IDLE.buffer + EncodeAll(items) == EncodeAll(items);
    ItemsDrained(announces, Append(IDLE, EncodeAll(items)), items);
  }

  lemma PartOfDrain(announces: Announces, s: State, data: seq<Byte>, log: seq<Event>)
    requires Finishes(announces, Append(s, data), log)
    ensures !Halts(announces, s) && Drain(announces, s).log <= log
  {
    if Halts(announces, s) {
      DrainStuck(announces, s, data);
    }
    DrainInTwo(announces, s, data);
    DrainProgress(announces, Append(Drain(announces, s), data));
  }

  // ----- the frames of fast.c -----

  function Ascii(text: string): (bytes: seq<Byte>)
    requires forall k :: 0 <= k < |text| ==> text[k] < 128 as char
    ensures |bytes| == |text| && forall k :: 0 <= k < |text| ==> bytes[k] == text[k] as int
  {
    seq(|text|, k requires 0 <= k < |text| => text[k] as int)
  }

  /** printf's %d for a natural number */
  function Decimal(n: nat): (digits: seq<Byte>)
    ensures digits != [] && forall k :: 0 <= k < |digits| ==> 48 <= digits[k] <= 57
  {
    (if n < 10 then [] else Decimal(n / 10)) + [48 + n % 10]
  }

  predicate IsDigit(b: Byte) {
    48 <= b <= 57
  }

  /** The number that the leading digits spell, continued from value */
  function ReadDecimal(bytes: seq<Byte>, value: nat): nat {
    if bytes == [] || !IsDigit(bytes[0]) then value
    else ReadDecimal(bytes[1..], 10 * value + bytes[0] - 48)
  }

  datatype Kind = Current | Total

  function Name(kind: Kind): string {
    if kind.Current? then "current_frame" else "total_frame"
  }

  function Prefix(kind: Kind): seq<Byte> {
    Ascii(Name(kind) + " length=")
  }

  /** The header of a frame; options is the rest of the line, from the blank before format= on */
  function Header(kind: Kind, length: nat, options: seq<Byte>): seq<Byte> {
    Prefix(kind) + Decimal(length) + options
  }

  function DoneMessage(kind: Kind): seq<Byte> {
    Ascii(Name(kind) + "_done")
  }

  /** The client's reading of a message: a frame header announces its length */
  function HeaderLength(token: seq<Byte>): Option<nat> {
    if Prefix(Current) <= token then Some(ReadDecimal(token[|Prefix(Current)|..], 0))
    else if Prefix(Total) <= token then Some(ReadDecimal(token[|Prefix(Total)|..], 0))
    else None
  }

  lemma {:induction false} ReadDecimalConcat(digits: seq<Byte>, rest: seq<Byte>, value: nat)
    requires forall k :: 0 <= k < |digits| ==> IsDigit(digits[k])
    ensures ReadDecimal(digits + rest, value) == ReadDecimal(rest, ReadDecimal(digits, value))
    decreases |digits|
  {
    if digits == [] {
      assert digits + rest == rest;
    } else {
      assert (digits + rest)[1..] == digits[1..] + rest;
      ReadDecimalConcat(digits[1..], rest, 10 * value + digits[0] - 48);
    }
  }

  /** Reading back what was printed */
  lemma {:induction false} DecimalRoundTrip(n: nat)
    ensures ReadDecimal(Decimal(n), 0) == n
  {
    var last: seq<Byte> := [48 + n % 10];
    assert last[1..] == [];
    if n < 10 {
      assert [] + last == last;
    } else {
      DecimalRoundTrip(n / 10);
      ReadDecimalConcat(Decimal(n / 10), last, 0);
    }
  }

  lemma {:induction false} PlainConcat(a: seq<Byte>, b: seq<Byte>)
    requires IsPlain(a) && IsPlain(b)
    ensures IsPlain(a + b)
  {
    SeparatorOfConcat(a, b);
  }

  lemma {:induction false} NoSeparatorPlain(a: seq<Byte>)
    requires IsAscii(a) && forall k :: 0 <= k < |a| ==> !IsSeparator(a[k])
    ensures IsPlain(a)
  {
    if a != [] {
      NoSeparatorPlain(a[1..]);
    }
  }

  lemma NamesArePlain(kind: Kind)
    ensures IsPlain(Prefix(kind)) && IsPlain(DoneMessage(kind))
  {
    AsciiIsPlain(Name(kind) + " length=");
    AsciiIsPlain(Name(kind) + "_done");
  }

  /** Text of visible characters and blanks goes through as it is */
  lemma AsciiIsPlain(text: string)
    requires forall k :: 0 <= k < |text| ==> ' ' <= text[k] <= '~'
    ensures IsPlain(Ascii(text))
  {
    NoSeparatorPlain(Ascii(text));
  }

  /** The two headers and the closing messages cannot be taken for one another */
  lemma NamesDiffer(kind: Kind, rest: seq<Byte>)
    ensures !(Prefix(Current) <= Prefix(Total) + rest)
    ensures HeaderLength(DoneMessage(kind)).None?
  {
    assert Prefix(Current)[0] == 99 && (Prefix(Total) + rest)[0] == 116;
    assert Prefix(Current)[13] == 32 && Prefix(Total)[11] == 32;
    if kind.Current? {
      assert DoneMessage(kind)[0] == 99 && DoneMessage(kind)[13] == 95;
    } else {
      assert DoneMessage(kind)[0] == 116 && DoneMessage(kind)[11] == 95;
    }
  }

  lemma HeaderAnnounces(kind: Kind, n: nat, options: seq<Byte>)
    requires options != [] && !IsDigit(options[0])
    ensures HeaderLength(Header(kind, n, options)) == Some(n)
  {
    assert Header(kind, n, options) == Prefix(kind) + (Decimal(n) + options);
    HeaderLengthOf(kind, Decimal(n) + options);
    ReadHeaderNumber(n, options);
  }

  lemma PrefixSplits(prefix: seq<Byte>, rest: seq<Byte>)
    ensures prefix <= prefix + rest && (prefix + rest)[|prefix|..] == rest
  {
  }

  lemma HeaderLengthOf(kind: Kind, rest: seq<Byte>)
    ensures HeaderLength(Prefix(kind) + rest) == Some(ReadDecimal(rest, 0))
  {
    PrefixSplits(Prefix(kind), rest);
    if kind.Total? {
      NamesDiffer(kind, rest);
    }
  }

  lemma ReadHeaderNumber(n: nat, options: seq<Byte>)
    requires options != [] && !IsDigit(options[0])
    ensures ReadDecimal(Decimal(n) + options, 0) == n
  {
    ReadDecimalConcat(Decimal(n), options, 0);
    DecimalRoundTrip(n);
  }

  /** The frames that process_command sends are items of the protocol, for every payload and every options text */
  lemma FramesAreItems(kind: Kind, payload: seq<Byte>, options: seq<Byte>)
    requires IsPlain(options) && options != [] && !IsDigit(options[0])
    ensures IsItem(HeaderLength, Frame(Header(kind, |payload|, options), payload, DoneMessage(kind)))
  {
    var n := |payload|;
    NamesArePlain(kind);
    NoSeparatorPlain(Decimal(n));
    PlainConcat(Prefix(kind), Decimal(n));
    PlainConcat(Prefix(kind) + Decimal(n), options);
    HeaderAnnounces(kind, n, options);
    NamesDiffer(kind, []);
  }
}
