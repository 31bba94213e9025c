/**
  The reading side of a connection, server_connection_read of server.c: text lines ended by
  NUL, CR or LF, and binary blocks of announced length, on one byte stream. The socket is a
  source of chunks of its own choosing. A line hook may ask for a binary block or for the
  connection to be closed; custom data hooks are not modelled.
*/
module ServerRead {
  import opened Bytes

  const MAX_CHUNK := 1024

  predicate IsDelimiter(b: Byte) {
    b == 0 || b == 13 || b == 10
  }

  datatype Mode = Text | Binary(length: nat) | Finished

  /** What the bytes of a stream turn out to be */
  datatype Piece =
    | Line(text: seq<Byte>, delimiter: Byte)
    | Blank(delimiter: Byte)
    | Block(data: seq<Byte>)

  datatype Event = LineEvent(text: seq<Byte>) | BlockEvent(data: seq<Byte>)

  function PieceEvents(piece: Piece): seq<Event> {
    match piece
    case Line(text, _) => [LineEvent(text)]
    case Blank(_) => []
    case Block(data) => [BlockEvent(data)]
  }

  function PieceBytes(piece: Piece): seq<Byte> {
    match piece
    case Line(text, d) => text + [d]
    case Blank(d) => [d]
    case Block(data) => data
  }

  /** What the owner of the connection gets to see */
  function Delivered(pieces: seq<Piece>): seq<Event> {
    if pieces == [] then [] else PieceEvents(pieces[0]) + Delivered(pieces[1..])
  }

  /** The bytes themselves */
  function Raw(pieces: seq<Piece>): seq<Byte> {
    if pieces == [] then [] else PieceBytes(pieces[0]) + Raw(pieces[1..])
  }

  /** The line hook: the mode it leaves the connection in, given all that was delivered, its own line last */
  type Hook = seq<Event> -> Mode

  ghost predicate TextOnly(hook: Hook) {
    forall es :: hook(es) == Text
  }

  // ----- the one-pass split of a stream -----

  /** pieces are complete, partial is what has come in of the next one */
  datatype Split = Split(mode: Mode, pieces: seq<Piece>, partial: seq<Byte>)

  const START := Split(Text, [], [])

  /** A block of length 0 is complete at once */
  function Settle(s: Split): Split {
    if s.mode.Binary? && |s.partial| >= s.mode.length then Split(Text, s.pieces + [Block(s.partial)], []) else s
  }

  function Feed1(hook: Hook, s: Split, b: Byte): Split {
    match s.mode
    case Finished => s.(partial := s.partial + [b])
    case Binary(n) => Settle(s.(partial := s.partial + [b]))
    case Text =>
      if !IsDelimiter(b) then s.(partial := s.partial + [b])
      else if s.partial == [] then s.(pieces := s.pieces + [Blank(b)])
      else
        var pieces := s.pieces + [Line(s.partial, b)];
        Settle(Split(hook(Delivered(pieces)), pieces, []))
  }

  function Feed(hook: Hook, s: Split, bytes: seq<Byte>): Split
    decreases |bytes|
  {
    if bytes == [] then s else Feed(hook, Feed1(hook, s, bytes[0]), bytes[1..])
  }

  // ----- properties of the one-pass split -----

  lemma {:induction false} FeedConcat(hook: Hook, s: Split, a: seq<Byte>, b: seq<Byte>)
    ensures Feed(hook, s, a + b) == Feed(hook, Feed(hook, s, a), b)
    decreases |a|
  {
    if a == [] {
      assert a + b == b;
    } else {
      assert (a + b)[1..] == a[1..] + b;
      FeedConcat(hook, Feed1(hook, s, a[0]), a[1..], b);
    }
  }

  lemma {:induction false} DeliveredConcat(p: seq<Piece>, q: seq<Piece>)
    ensures Delivered(p + q) == Delivered(p) + Delivered(q)
  {
    if p == [] {
      assert p + q == q;
    } else {
      assert (p + q)[1..] == p[1..] + q;
      DeliveredConcat(p[1..], q);
    }
  }

  lemma {:induction false} RawConcat(p: seq<Piece>, q: seq<Piece>)
    ensures Raw(p + q) == Raw(p) + Raw(q)
  {
    if p == [] {
      assert p + q == q;
    } else {
      assert (p + q)[1..] == p[1..] + q;
      RawConcat(p[1..], q);
    }
  }

  /** Feeding more only adds pieces; every byte fed is in a piece or in the partial one, in order */
  lemma {:induction false} FeedAccounts(hook: Hook, s: Split, bytes: seq<Byte>)
    ensures var t := Feed(hook, s, bytes);
            s.pieces <= t.pieces && Raw(t.pieces) + t.partial == Raw(s.pieces) + s.partial + bytes
    decreases |bytes|
  {
    if bytes != [] {
      var s1 := Feed1(hook, s, bytes[0]);
      Feed1Accounts(hook, s, bytes[0]);
      FeedAccounts(hook, s1, bytes[1..]);
      assert s.partial + bytes == (s.partial + [bytes[0]]) + bytes[1..];
    }
  }

  lemma Feed1Accounts(hook: Hook, s: Split, b: Byte)
    ensures var t := Feed1(hook, s, b);
            s.pieces <= t.pieces && Raw(t.pieces) + t.partial == Raw(s.pieces) + (s.partial + [b])
  {
    var all := s.partial + [b];
    match s.mode {
      case Finished =>
      case Binary(n) => OnePiece(s.pieces, Block(all));
      case Text =>
        if IsDelimiter(b) {
          var piece := if s.partial == [] then Blank(b) else Line(s.partial, b);
          OnePiece(s.pieces, piece);
          OnePiece(s.pieces + [piece], Block([]));
        }
    }
  }

  lemma OnePiece(p: seq<Piece>, piece: Piece)
    ensures Raw(p + [piece]) == Raw(p) + PieceBytes(piece)
    ensures Delivered(p + [piece]) == Delivered(p) + PieceEvents(piece)
  {
    RawConcat(p, [piece]);
    DeliveredConcat(p, [piece]);
    assert [piece][1..] == [];
  }

  lemma {:induction false} DeliveredPrefix(p: seq<Piece>, q: seq<Piece>)
    requires p <= q
    ensures Delivered(p) <= Delivered(q)
  {
    assert q == p + q[|p|..];
    DeliveredConcat(p, q[|p|..]);
  }

  predicate HasDelimiter(bytes: seq<Byte>) {
    exists k :: 0 <= k < |bytes| && IsDelimiter(bytes[k])
  }

  /** Without a delimiter text just accumulates, and a delimiter always completes a piece */
  lemma {:induction false} FeedText(hook: Hook, s: Split, bytes: seq<Byte>)
    requires s.mode == Text
    ensures !HasDelimiter(bytes) ==> Feed(hook, s, bytes) == s.(partial := s.partial + bytes)
    ensures Feed(hook, s, bytes).pieces == s.pieces <==> !HasDelimiter(bytes)
    decreases |bytes|
  {
    if bytes != [] {
      var s1 := Feed1(hook, s, bytes[0]);
      var rest := bytes[1..];
      if IsDelimiter(bytes[0]) {
        FeedAccounts(hook, s1, rest);
        assert |s1.pieces| > |s.pieces|;
      } else {
        FeedText(hook, s1, rest);
        assert HasDelimiter(rest) ==> HasDelimiter(bytes) by {
          if k :| 0 <= k < |rest| && IsDelimiter(rest[k]) {
            assert IsDelimiter(bytes[k + 1]);
          }
        }
        assert HasDelimiter(bytes) ==> HasDelimiter(rest) by {
          if k :| 0 <= k < |bytes| && IsDelimiter(bytes[k]) {
            assert IsDelimiter(rest[k - 1]);
          }
        }
        assert s.partial + bytes == s1.partial + rest;
      }
    }
  }

  /** Bytes other than NUL, CR and LF, and one of these behind them, are a line; by itself such a byte is none */
  lemma OneLine(hook: Hook, pieces: seq<Piece>, text: seq<Byte>, d: Byte)
    requires forall k :: 0 <= k < |text| ==> text[k] != 0 && text[k] != 13 && text[k] != 10
    requires d == 0 || d == 13 || d == 10
    ensures var s := Feed(hook, Split(Text, pieces, []), text + [d]);
            if text == [] then s == Split(Text, pieces + [Blank(d)], [])
            else s == Settle(Split(hook(Delivered(pieces + [Line(text, d)])), pieces + [Line(text, d)], []))
  {
    var s := Split(Text, pieces, []);
    FeedConcat(hook, s, text, [d]);
    FeedText(hook, s, text);
    assert [] + text == text && [d][1..] == [];
  }

  /** A block takes in bytes up to its length ... */
  lemma {:induction false} FeedBlockShort(hook: Hook, s: Split, bytes: seq<Byte>)
    requires s.mode.Binary? && |s.partial| + |bytes| < s.mode.length
    ensures Feed(hook, s, bytes) == s.(partial := s.partial + bytes)
    decreases |bytes|
  {
    if bytes == [] {
      assert s.partial + bytes == s.partial;
    } else {
      FeedBlockShort(hook, Feed1(hook, s, bytes[0]), bytes[1..]);
      assert s.partial + bytes == (s.partial + [bytes[0]]) + bytes[1..];
    }
  }

  /** ... and then text resumes */
  lemma {:induction false} FeedBlockFull(hook: Hook, s: Split, bytes: seq<Byte>, data: seq<Byte>, rest: seq<Byte>)
    requires s.mode.Binary? && |s.partial| < s.mode.length
    requires bytes != [] && s.partial + bytes == data + rest && |data| == s.mode.length
    ensures Feed(hook, s, bytes) == Feed(hook, Split(Text, s.pieces + [Block(data)], []), rest)
    decreases |bytes|
  {
    var s1 := Feed1(hook, s, bytes[0]);
    assert (s.partial + [bytes[0]]) + bytes[1..] == data + rest;
    if |s.partial| + 1 == s.mode.length {
      assert s.partial + [bytes[0]] == (data + rest)[..|data|] == data;
      assert bytes[1..] == (data + rest)[|data|..] == rest;
    } else {
      assert |bytes| > 1;
      FeedBlockFull(hook, s1, bytes[1..], data, rest);
    }
  }

  lemma {:induction false} FeedFinished(hook: Hook, s: Split, bytes: seq<Byte>)
    requires s.mode == Finished
    ensures Feed(hook, s, bytes) == s.(partial := s.partial + bytes)
    decreases |bytes|
  {
    if bytes != [] {
      FeedFinished(hook, Feed1(hook, s, bytes[0]), bytes[1..]);
      assert s.partial + bytes == (s.partial + [bytes[0]]) + bytes[1..];
    }
  }

  /** The same with the block starting, possibly of length 0 */
  lemma FeedWholeBlock(hook: Hook, pieces: seq<Piece>, n: nat, bytes: seq<Byte>)
    ensures var s := Settle(Split(Binary(n), pieces, []));
            if |bytes| < n then Feed(hook, s, bytes) == Split(Binary(n), pieces, bytes)
            else Feed(hook, s, bytes) == Feed(hook, Split(Text, pieces + [Block(bytes[..n])], []), bytes[n..])
  {
    if n == 0 {
      assert bytes[..0] == [] && bytes[0..] == bytes;
    } else {
      var s := Split(Binary(n), pieces, []);
      assert [] + bytes == bytes;
      if |bytes| < n {
        FeedBlockShort(hook, s, bytes);
      } else {
        assert bytes == bytes[..n] + bytes[n..];
        FeedBlockFull(hook, s, bytes, bytes[..n], bytes[n..]);
      }
    }
  }

  /** What a C string function sees of a buffer: everything before the first NUL */
  function CString(bytes: seq<Byte>): seq<Byte> {
    if bytes == [] || bytes[0] == 0 then [] else [bytes[0]] + CString(bytes[1..])
  }

  lemma {:induction false} CStringOfText(bytes: seq<Byte>)
    requires !HasDelimiter(bytes)
    ensures CString(bytes) == bytes
  {
    if bytes != [] {
      assert !IsDelimiter(bytes[0]);
      assert forall k :: 0 <= k < |bytes| - 1 ==> bytes[1..][k] == bytes[k + 1];
      CStringOfText(bytes[1..]);
    }
  }

  function PieceOf(text: seq<Byte>, b: Byte): Piece {
    if text == [] then Blank(b) else Line(text, b)
  }

  /** later continues earlier, by lines only */
  predicate NoNewBlock(earlier: seq<Piece>, later: seq<Piece>) {
    earlier <= later && forall k :: |earlier| <= k < |later| ==> !later[k].Block?
  }

  /** Of the pieces behind before, a block can only be the last */
  predicate NothingBehindBlock(before: seq<Piece>, all: seq<Piece>) {
    forall k :: |before| <= k < |all| - 1 ==> !all[k].Block?
  }

  /** A read that got this far has everything exactly when nothing stands behind a new block */
  lemma BlocksLastExactly(before: seq<Piece>, pieces: seq<Piece>, all: seq<Piece>, block: bool)
    requires before <= pieces && pieces <= all
    requires if block then |pieces| > |before| && pieces[|pieces| - 1].Block?
             && NoNewBlock(before, pieces[..|pieces| - 1])
             else NoNewBlock(before, pieces) && pieces == all
    ensures all == pieces <==> NothingBehindBlock(before, all)
  {
    assert forall k :: 0 <= k < |pieces| ==> all[k] == pieces[k];
    if block {
      assert forall k :: 0 <= k < |pieces| - 1 ==> pieces[..|pieces| - 1][k] == pieces[k];
      if all != pieces {
        assert all[|pieces| - 1].Block?;
      }
    }
  }

  /** Feeding the buffer adds no piece exactly when it is not text or has no delimiter; a block is not complete in it */
  lemma NothingMoreExactly(hook: Hook, mode: Mode, pieces: seq<Piece>, buffer: seq<Byte>)
    requires mode.Binary? ==> |buffer| < mode.length
    ensures pieces <= Feed(hook, Split(mode, pieces, []), buffer).pieces
    ensures Feed(hook, Split(mode, pieces, []), buffer).pieces == pieces <==> mode != Text || !HasDelimiter(buffer)
  {
    var s := Split(mode, pieces, []);
    FeedAccounts(hook, s, buffer);
    match mode
    case Text => FeedText(hook, s, buffer);
    case Binary(n) => FeedBlockShort(hook, s, buffer);
    case Finished => FeedFinished(hook, s, buffer);
  }

  /** The reading loop stops at the first short or failed read */
  predicate StopsAt(chunks: seq<seq<Byte>>, used: nat) {
    && used <= |chunks|
    && (forall k :: 0 <= k < used - 1 ==> |chunks[k]| == MAX_CHUNK)
    && (used < |chunks| && chunks[used] != [] ==> used > 0 && |chunks[used - 1]| < MAX_CHUNK)
  }

  // ----- the connection -----

  class Connection {
    const hook: Hook
    var readBuffer: seq<Byte>
    var isBinary: bool
    var binaryLength: nat
    var isFinished: bool
    var isClosed: bool

    var delivered: seq<Event>     // calls of the line and block hooks so far
    ghost var pieces: seq<Piece>  // how the bytes that left the buffer were understood
    ghost var received: seq<Byte> // everything read from the socket

    ghost function CurrentMode(): Mode
      reads this
    {
      if isFinished then Finished else if isBinary then Binary(binaryLength) else Text
    }

    /** The one-pass split of everything received */
    ghost function OnePass(): Split
      reads this
    {
      Feed(hook, START, received)
    }

    /** What has been delivered, continued with what is still buffered, is the one-pass split of the stream */
    ghost predicate Valid()
      reads this
    {
      && delivered == Delivered(pieces)
      && (isFinished ==> isClosed)
      && (isBinary ==> |readBuffer| < binaryLength)
      && Feed(hook, Split(CurrentMode(), pieces, []), readBuffer) == OnePass()
    }

    constructor (hook: Hook)
      ensures Valid() && this.hook == hook && received == [] && delivered == [] && !isClosed && !isBinary && !isFinished
      ensures CaughtUp()
    {
      this.hook := hook;
      readBuffer, isBinary, binaryLength, isFinished, isClosed := [], false, 0, false, false;
      delivered, pieces, received := [], [], [];
    }

    /** The reading loop: chunks[k] is what the k-th read of the socket yields, nothing past the end of chunks */
    method Fill(chunks: seq<seq<Byte>>) returns (bytesRead: nat, used: nat)
      requires forall k :: 0 <= k < |chunks| ==> |chunks[k]| <= MAX_CHUNK
      modifies `readBuffer
      ensures StopsAt(chunks, used)
      ensures readBuffer == old(readBuffer) + Joined(chunks[..used]) && bytesRead == |Joined(chunks[..used])|
      ensures bytesRead == 0 <==> chunks == [] || chunks[0] == []
    {
      bytesRead, used := 0, 0;
      while true
        invariant used <= |chunks|
        invariant readBuffer == old(readBuffer) + Joined(chunks[..used]) && bytesRead == |Joined(chunks[..used])|
        invariant used == 0 ==> bytesRead == 0
        invariant used > 0 ==> bytesRead > 0 && chunks[0] != []
        invariant forall k :: 0 <= k < used ==> |chunks[k]| == MAX_CHUNK
        decreases |chunks| - used
      {
        var chunk := if used < |chunks| then chunks[used] else [];
        if |chunk| == 0 {
          break;
        }
        assert chunks[..used + 1][..used] == chunks[..used];
        readBuffer := readBuffer + chunk;
        bytesRead := bytesRead + |chunk|;
        used := used + 1;
        if |chunk| < MAX_CHUNK {
          break;
        }
      }
    }

    /** A delimiter b after text: line_read_hook is called unless the line is empty */
    method EndPiece(text: seq<Byte>, b: Byte)
      requires delivered == Delivered(pieces) && !isBinary && !isFinished
      modifies this
      ensures readBuffer == old(readBuffer) && received == old(received) && isClosed == old(isClosed)
      ensures pieces == old(pieces) + [PieceOf(text, b)] && delivered == Delivered(pieces)
      ensures CurrentMode() == if text == [] then Text else hook(delivered)
      ensures !(isBinary && isFinished)
    {
      OnePiece(pieces, PieceOf(text, b));
      pieces := pieces + [PieceOf(text, b)];
      if |text| > 0 {
        delivered := delivered + [LineEvent(text)];
        var mode := hook(delivered);
        if mode.Binary? {
          isBinary, binaryLength := true, mode.length;
        } else if mode.Finished? {
          isFinished := true;
        }
      }
    }

    /** The scan that began with s0 has come to position pos, and the text since start is not yet complete */
    ghost predicate ScannedTo(s0: Split, start: int, pos: int)
      reads this
    {
      && delivered == Delivered(pieces) && NoNewBlock(s0.pieces, pieces) && !(isBinary && isFinished)
      && (TextOnly(hook) ==> CurrentMode() == Text)
      && Scanning(hook, s0, readBuffer, start, pos, CurrentMode(), pieces)
    }

    /** One step of the scan: a delimiter ends the text since start */
    method ScanByte(start: nat, pos: nat, ghost s0: Split) returns (start': nat)
      requires ScannedTo(s0, start, pos) && pos < |readBuffer| && CurrentMode() == Text
      modifies this
      ensures readBuffer == old(readBuffer) && received == old(received) && isClosed == old(isClosed)
      ensures start' == if IsDelimiter(readBuffer[pos]) then pos + 1 else start
      ensures ScannedTo(s0, start', pos + 1)
    {
      ScanStep(hook, s0, readBuffer, start, pos, pieces);
      start' := start;
      if IsDelimiter(readBuffer[pos]) {
        EndPiece(readBuffer[start..pos], readBuffer[pos]);
        start' := pos + 1;
      }
    }

    /** The scan for lines; it stops early when a hook asks for a block or for the end */
    method ScanLines()
      requires delivered == Delivered(pieces) && !isBinary && !isFinished
      requires Feed(hook, Split(Text, pieces, []), readBuffer) == OnePass()
      modifies this
      ensures received == old(received) && isClosed == old(isClosed)
      ensures delivered == Delivered(pieces) && NoNewBlock(old(pieces), pieces)
      ensures !(isBinary && isFinished)
      ensures TextOnly(hook) ==> CurrentMode() == Text
      ensures Feed(hook, Settle(Split(CurrentMode(), pieces, [])), readBuffer) == OnePass()
      ensures !isBinary && !isFinished ==> !HasDelimiter(readBuffer)
    {
      ghost var s0 := Split(Text, pieces, []);
      ghost var pos;
      var start: nat;
      start, pos := ScanAll(s0);
      ScanEnd(hook, s0, readBuffer, start, pos, CurrentMode(), pieces);
      var end := start - 1;
      if end >= 0 {
        readBuffer := readBuffer[end + 1..];
      }
    }

    /** The loop of the scan; start - 1 is the position of the last delimiter met, if any */
    method ScanAll(ghost s0: Split) returns (start: nat, ghost to: nat)
      requires delivered == Delivered(pieces) && !isBinary && !isFinished && s0 == Split(Text, pieces, [])
      modifies this
      ensures readBuffer == old(readBuffer) && received == old(received) && isClosed == old(isClosed)
      ensures ScannedTo(s0, start, to) && (to == |readBuffer| || CurrentMode() != Text)
    {
      start := 0;
      var pos: nat := 0;
      while pos < |readBuffer| && !isBinary && !isFinished
        invariant readBuffer == old(readBuffer) && received == old(received) && isClosed == old(isClosed)
        invariant ScannedTo(s0, start, pos)
        decreases |readBuffer| - pos
      {
        start := ScanByte(start, pos, s0);
        pos := pos + 1;
      }
      to := pos;
    }

    /** The block part: at most one block is taken per read, and what follows it stays unparsed */
    method TakeBlock() returns (taken: bool)
      requires isBinary && delivered == Delivered(pieces) && !isFinished
      requires Feed(hook, Settle(Split(Binary(binaryLength), pieces, [])), readBuffer) == OnePass()
      modifies this
      ensures received == old(received) && isClosed == old(isClosed) && !isFinished
      ensures delivered == Delivered(pieces)
      ensures taken == (old(|readBuffer|) >= old(binaryLength))
      ensures isBinary == !taken && (isBinary ==> |readBuffer| < binaryLength)
      ensures Feed(hook, Split(CurrentMode(), pieces, []), readBuffer) == OnePass()
      ensures if taken then pieces == old(pieces) + [Block(old(readBuffer)[..old(binaryLength)])]
              else pieces == old(pieces) && OnePass() == Split(CurrentMode(), pieces, readBuffer)
    {
      FeedWholeBlock(hook, pieces, binaryLength, readBuffer);
      taken := |readBuffer| >= binaryLength;
      if taken {
        var data := readBuffer[..binaryLength];
        OnePiece(pieces, Block(data));
        pieces := pieces + [Block(data)];
        delivered := delivered + [BlockEvent(data)];
        readBuffer := readBuffer[binaryLength..];
        isBinary, binaryLength := false, 0;
      }
    }

    /** Nothing the one-pass split has found is still undelivered */
    ghost predicate CaughtUp()
      reads this
    {
      OnePass().pieces == pieces
    }

    /**
      A read has added to the pieces known before: lines only, or lines and then one block. It
      leaves nothing that the one-pass split has found undelivered, unless it is a block that
      ended it and there is more behind that: exactly when, of the stream, some piece stands
      behind a new block.
    */
    ghost predicate Parsed(before: seq<Piece>, wasBinary: bool, block: bool)
      reads this
    {
      && isClosed == isFinished && AddsTo(before, block)
      && (CaughtUp() <==> !block || !HasDelimiter(readBuffer))
      && (CaughtUp() <==> NothingBehindBlock(before, OnePass().pieces))
      && (TextOnly(hook) && !wasBinary ==> !block && CurrentMode() == Text)
    }

    /** Nothing that is ready for the one-pass split, but for what a block has cut off, is left after these two steps */
    method ScanAndTake() returns (block: bool)
      requires delivered == Delivered(pieces) && !isFinished && (isBinary ==> binaryLength > 0)
      requires Feed(hook, Split(CurrentMode(), pieces, []), readBuffer) == OnePass()
      modifies this
      ensures received == old(received) && isClosed == old(isClosed) && delivered == Delivered(pieces)
      ensures Feed(hook, Split(CurrentMode(), pieces, []), readBuffer) == OnePass() && !(isBinary && isFinished)
      ensures isBinary ==> |readBuffer| < binaryLength
      ensures AddsTo(old(pieces), block)
      ensures block ==> CurrentMode() == Text
      ensures !block && CurrentMode() == Text ==> !HasDelimiter(readBuffer)
      ensures TextOnly(hook) && !old(isBinary) ==> !block && CurrentMode() == Text
    {
      block := false;
      if !isBinary {
        ScanLines();
      }
      if isBinary {
        ghost var lines := pieces;
        block := TakeBlock();
        assert block ==> pieces[..|pieces| - 1] == lines;
      }
    }

    /** Lines only, or lines and then one block, have come to the pieces known before */
    ghost predicate AddsTo(before: seq<Piece>, block: bool)
      reads this
    {
      if block then |pieces| > |before| && pieces[|pieces| - 1].Block? && !isFinished
          && NoNewBlock(before, pieces[..|pieces| - 1])
      else NoNewBlock(before, pieces)
    }

    /** What is done with freshly received data */
    method Process() returns (block: bool)
      requires delivered == Delivered(pieces) && !isFinished && !isClosed && (isBinary ==> binaryLength > 0)
      requires Feed(hook, Split(CurrentMode(), pieces, []), readBuffer) == OnePass()
      modifies this
      ensures received == old(received) && Valid() && Parsed(old(pieces), old(isBinary), block)
    {
      block := ScanAndTake();
      if isFinished {
        isClosed := true;
      }
      IsParsed(old(pieces), old(isBinary), block);
    }

    lemma IsParsed(before: seq<Piece>, wasBinary: bool, block: bool)
      requires Feed(hook, Split(CurrentMode(), pieces, []), readBuffer) == OnePass()
      requires !(isBinary && isFinished) && (isBinary ==> |readBuffer| < binaryLength)
      requires isClosed == isFinished && AddsTo(before, block) && (block ==> CurrentMode() == Text)
      requires !block && CurrentMode() == Text ==> !HasDelimiter(readBuffer)
      requires TextOnly(hook) && !wasBinary ==> !block && CurrentMode() == Text
      ensures Parsed(before, wasBinary, block)
    {
      NothingMoreExactly(hook, CurrentMode(), pieces, readBuffer);
      BlocksLastExactly(before, pieces, OnePass().pieces, block);
    }

    /**
      server_connection_read. At the end of the stream leftover text is handed over as one
      line. Otherwise the pieces of the one-pass split are delivered, up to the first block
      that is complete: with it the read ends, whatever else is in the buffer.
    */
    method Read(chunks: seq<seq<Byte>>) returns (block: bool, used: nat)
      requires Valid() && !isClosed
      requires forall k :: 0 <= k < |chunks| ==> |chunks[k]| <= MAX_CHUNK
      modifies this
      ensures StopsAt(chunks, used) && received == old(received) + Joined(chunks[..used])
      ensures chunks == [] || chunks[0] == [] ==>
                isClosed && pieces == old(pieces)
                && delivered == old(delivered) + if old(readBuffer) != [] && !old(isBinary)
                                                 then [LineEvent(CString(old(readBuffer)))] else []
      ensures chunks != [] && chunks[0] != [] ==>
                Valid() && Parsed(old(pieces), old(isBinary), block)
    {
      var bytesRead;
      bytesRead, used := Fill(chunks);
      ghost var data := Joined(chunks[..used]);
      if bytesRead == 0 {
        assert data == [] && old(readBuffer) + data == old(readBuffer);
        block := false;
        if |readBuffer| > 0 && !isBinary {
          delivered := delivered + [LineEvent(CString(readBuffer))];
        }
        isClosed := true;
      } else {
        block := Receive(old(readBuffer), data);
      }
    }

    /** data has been appended to the buffer, which held before */
    method Receive(ghost before: seq<Byte>, ghost data: seq<Byte>) returns (block: bool)
      requires delivered == Delivered(pieces) && !isFinished && !isClosed && (isBinary ==> binaryLength > 0)
      requires Feed(hook, Split(CurrentMode(), pieces, []), before) == OnePass() && readBuffer == before + data
      modifies this
      ensures received == old(received) + data && Valid() && Parsed(old(pieces), old(isBinary), block)
    {
      FeedConcat(hook, START, received, data);
      FeedConcat(hook, Split(CurrentMode(), pieces, []), before, data);
      received := received + data;
      block := Process();
    }
  }

  /** Bytes up to pos have been scanned, those up to start have left as pieces */
  ghost predicate Scanning(hook: Hook, s0: Split, bytes: seq<Byte>, start: int, pos: int, mode: Mode,
      pieces: seq<Piece>) {
    && 0 <= start <= pos <= |bytes|
    && (mode != Text ==> start == pos)
    && !HasDelimiter(bytes[start..pos])
    && Feed(hook, s0, bytes[..pos]) == Settle(Split(mode, pieces, bytes[start..pos]))
  }

  lemma SliceOneMore<T>(s: seq<T>, start: nat, pos: nat)
    requires start <= pos < |s|
    ensures s[start..pos + 1] == s[start..pos] + [s[pos]]
  {
  }

  lemma ScanStep(hook: Hook, s0: Split, bytes: seq<Byte>, start: int, pos: int, pieces: seq<Piece>)
    requires Scanning(hook, s0, bytes, start, pos, Text, pieces) && pos < |bytes|
    ensures var b := bytes[pos];
            if !IsDelimiter(b) then Scanning(hook, s0, bytes, start, pos + 1, Text, pieces)
            else var text := bytes[start..pos]; var p := pieces + [PieceOf(text, b)];
                 Scanning(hook, s0, bytes, pos + 1, pos + 1, if text == [] then Text else hook(Delivered(p)), p)
  {
    FeedOneMore(hook, s0, bytes, pos);
    SliceOneMore(bytes, start, pos);
    assert bytes[pos + 1..pos + 1] == [];
    if !IsDelimiter(bytes[pos]) {
      var longer, shorter := bytes[start..pos + 1], bytes[start..pos];
      forall k | 0 <= k < |longer|
        ensures !IsDelimiter(longer[k])
      {
        assert k < |shorter| ==> longer[k] == shorter[k];
      }
    }
  }

  lemma ScanEnd(hook: Hook, s0: Split, bytes: seq<Byte>, start: int, pos: int, mode: Mode, pieces: seq<Piece>)
    requires Scanning(hook, s0, bytes, start, pos, mode, pieces)
    requires pos == |bytes| || mode != Text
    ensures Feed(hook, Settle(Split(mode, pieces, [])), bytes[start..]) == Feed(hook, s0, bytes)
    ensures mode == Text ==> !HasDelimiter(bytes[start..])
    ensures start == 0 ==> bytes[start..] == bytes
  {
    assert bytes == bytes[..pos] + bytes[pos..];
    FeedConcat(hook, s0, bytes[..pos], bytes[pos..]);
    if mode == Text {
      assert bytes[start..] == bytes[start..pos];
      FeedText(hook, Split(Text, pieces, []), bytes[start..]);
      assert [] + bytes[start..] == bytes[start..];
    }
  }

  lemma FeedOneMore(hook: Hook, s: Split, bytes: seq<Byte>, pos: nat)
    requires pos < |bytes|
    ensures Feed(hook, s, bytes[..pos + 1]) == Feed1(hook, Feed(hook, s, bytes[..pos]), bytes[pos])
  {
    assert bytes[..pos + 1] == bytes[..pos] + [bytes[pos]];
    FeedConcat(hook, s, bytes[..pos], [bytes[pos]]);
    assert [bytes[pos]][1..] == [];
  }

  // ----- main results -----

  /**
    However the stream came in: what has been delivered is a prefix of what the one-pass split
    of the stream delivers, and every byte received is in a delivered line or block, is a
    delimiter, or is still in the buffer, in order.
  */
  lemma DeliveredIsPrefix(c: Connection)
    requires c.Valid()
    ensures c.pieces <= c.OnePass().pieces && c.delivered <= Delivered(c.OnePass().pieces)
    ensures Raw(c.pieces) + c.readBuffer == c.received
  {
    var s := Split(c.CurrentMode(), c.pieces, []);
    FeedAccounts(c.hook, s, c.readBuffer);
    FeedAccounts(c.hook, START, c.received);
    DeliveredPrefix(c.pieces, c.OnePass().pieces);
    NothingInBetween(Raw(c.pieces), c.readBuffer);
    NothingInBetween(Raw([]), c.received);
  }

  lemma NothingInBetween(a: seq<Byte>, b: seq<Byte>)
    ensures a + [] + b == a + b
    ensures a == [] ==> a + [] + b == b
  {
  }

  /** The non-empty stretches between delimiters, the last unfinished one left out */
  function Lines(bytes: seq<Byte>, partial: seq<Byte>): seq<Event>
    decreases |bytes|
  {
    if bytes == [] then []
    else if !IsDelimiter(bytes[0]) then Lines(bytes[1..], partial + [bytes[0]])
    else (if partial == [] then [] else [LineEvent(partial)]) + Lines(bytes[1..], [])
  }

  lemma LineByte(hook: Hook, s: Split, b: Byte)
    requires TextOnly(hook) && s.mode == Text
    ensures Feed1(hook, s, b).mode == Text
    ensures Feed1(hook, s, b).partial == if IsDelimiter(b) then [] else s.partial + [b]
    ensures Delivered(Feed1(hook, s, b).pieces)
            == Delivered(s.pieces) + if IsDelimiter(b) && s.partial != [] then [LineEvent(s.partial)] else []
  {
    OnePiece(s.pieces, PieceOf(s.partial, b));
  }

  /** For a hook that only ever takes lines, the one-pass split is splitting at the delimiters */
  lemma {:induction false} TextStreamIsLines(hook: Hook, s: Split, bytes: seq<Byte>)
    requires TextOnly(hook)
    requires s.mode == Text
    ensures Delivered(Feed(hook, s, bytes).pieces) == Delivered(s.pieces) + Lines(bytes, s.partial)
    decreases |bytes|
  {
    if bytes != [] {
      var s1 := Feed1(hook, s, bytes[0]);
      TextStreamIsLines(hook, s1, bytes[1..]);
      LineByte(hook, s, bytes[0]);
    }
  }

  /** A text-only connection has, after every read, delivered all the lines received, and at the end the rest too */
  lemma TextConnectionDeliversLines(c: Connection)
    requires c.Valid() && c.CaughtUp() && c.CurrentMode() == Text
    requires TextOnly(c.hook)
    ensures c.delivered == Lines(c.received, [])
    ensures CString(c.readBuffer) == c.readBuffer == c.OnePass().partial
  {
    TextStreamIsLines(c.hook, START, c.received);
    FeedText(c.hook, Split(Text, c.pieces, []), c.readBuffer);
    CStringOfText(c.readBuffer);
    assert [] + c.readBuffer == c.readBuffer;
  }

  /** A turn in which the first read of the socket yields nothing */
  predicate IsEndOfStream(chunks: seq<seq<Byte>>) {
    chunks == [] || chunks[0] == []
  }

  /** What is read in one turn: up to the first short chunk */
  function Turn(chunks: seq<seq<Byte>>): seq<Byte> {
    if IsEndOfStream(chunks) then []
    else if |chunks[0]| < MAX_CHUNK then chunks[0]
    else chunks[0] + Turn(chunks[1..])
  }

  /** What is read in a series of turns, up to the end of the stream */
  function Stream(turns: seq<seq<seq<Byte>>>): seq<Byte> {
    if turns == [] || IsEndOfStream(turns[0]) then [] else Turn(turns[0]) + Stream(turns[1..])
  }

  lemma {:induction false} StopsAfterTurn(chunks: seq<seq<Byte>>, used: nat)
    requires StopsAt(chunks, used)
    ensures Joined(chunks[..used]) == Turn(chunks)
    decreases |chunks|
  {
    if used == 0 {
      assert chunks[..0] == [];
    } else {
      JoinedFirst(chunks[..used]);
      assert chunks[..used][1..] == chunks[1..][..used - 1];
      if used == 1 && (|chunks[0]| < MAX_CHUNK || chunks[0] == []) {
        assert chunks[1..][..0] == [] && chunks[0] + [] == chunks[0];
      } else {
        StopsAfterTurn(chunks[1..], used - 1);
      }
    }
  }

  lemma {:induction false} JoinedFirst(chunks: seq<seq<Byte>>)
    requires chunks != []
    ensures Joined(chunks) == chunks[0] + Joined(chunks[1..])
  {
    if |chunks| == 1 {
      assert chunks[..0] == [] && chunks[1..] == [] && [] + chunks[0] == chunks[0] + [];
    } else {
      var front := chunks[..|chunks| - 1];
      JoinedFirst(front);
      assert front[1..] == chunks[1..][..|chunks| - 2];
      assert chunks[0] + Joined(front[1..]) + chunks[|chunks| - 1]
             == chunks[0] + (Joined(front[1..]) + chunks[|chunks| - 1]);
    }
  }

  /** What stands behind the last delimiter */
  function Unfinished(bytes: seq<Byte>, partial: seq<Byte>): seq<Byte>
    decreases |bytes|
  {
    if bytes == [] then partial
    else Unfinished(bytes[1..], if IsDelimiter(bytes[0]) then [] else partial + [bytes[0]])
  }

  lemma {:induction false} PartialIsUnfinished(hook: Hook, s: Split, bytes: seq<Byte>)
    requires TextOnly(hook) && s.mode == Text
    ensures Feed(hook, s, bytes).partial == Unfinished(bytes, s.partial)
    decreases |bytes|
  {
    if bytes != [] {
      PartialIsUnfinished(hook, Feed1(hook, s, bytes[0]), bytes[1..]);
    }
  }

  /** A connection that is in step with the one-pass split of text */
  ghost predicate InStep(c: Connection, hook: Hook)
    reads c
  {
    c.hook == hook && !c.isClosed && c.Valid() && c.CaughtUp() && c.CurrentMode() == Text
  }

  /** One turn of reading text, with the end of the stream as a possible outcome */
  method ReadTurn(c: Connection, chunks: seq<seq<Byte>>)
    requires InStep(c, c.hook) && TextOnly(c.hook) && forall k :: 0 <= k < |chunks| ==> |chunks[k]| <= MAX_CHUNK
    modifies c
    ensures c.received == old(c.received) + Turn(chunks)
    ensures !IsEndOfStream(chunks) ==> InStep(c, c.hook)
    ensures IsEndOfStream(chunks) ==> c.isClosed && c.delivered == Lines(c.received, []) + LastLine(c.received)
  {
    TextConnectionDeliversLines(c);
    PartialIsUnfinished(c.hook, START, c.received);
    ghost var before := c.received;
    var _, used := c.Read(chunks);
    StopsAfterTurn(chunks, used);
    assert IsEndOfStream(chunks) ==> before + Turn(chunks) == before;
  }

  /** The rest of a text stream, if there is any, as a line */
  function LastLine(bytes: seq<Byte>): seq<Event> {
    if Unfinished(bytes, []) == [] then [] else [LineEvent(Unfinished(bytes, []))]
  }

  lemma StreamTurn(turns: seq<seq<seq<Byte>>>, n: nat, before: seq<Byte>)
    requires n < |turns|
    ensures before + Stream(turns[n..]) ==
              if IsEndOfStream(turns[n]) then before + Turn(turns[n])
                  else before + Turn(turns[n]) + Stream(turns[n + 1..])
  {
    assert turns[n..][1..] == turns[n + 1..];
    assert before + (Turn(turns[n]) + Stream(turns[n + 1..])) == before + Turn(turns[n]) + Stream(turns[n + 1..]);
  }

  /**
    A text-only connection over any series of turns, chunked in any way: it has delivered the
    lines of the stream, and if the stream has ended also what stands behind the last delimiter.
  */
  method ReadAll(hook: Hook, turns: seq<seq<seq<Byte>>>) returns (c: Connection)
    requires TextOnly(hook)
    requires forall n, k :: 0 <= n < |turns| && 0 <= k < |turns[n]| ==> |turns[n][k]| <= MAX_CHUNK
    ensures fresh(c) && c.received == Stream(turns)
    ensures c.isClosed <==> exists n :: 0 <= n < |turns| && IsEndOfStream(turns[n])
    ensures c.delivered == Lines(Stream(turns), []) + if c.isClosed then LastLine(Stream(turns)) else []
  {
    c := new Connection(hook);
    var n := 0;
    while n < |turns|
      invariant 0 <= n <= |turns| && fresh(c) && InStep(c, hook)
      invariant forall m :: 0 <= m < n ==> !IsEndOfStream(turns[m])
      invariant Stream(turns) == c.received + Stream(turns[n..])
    {
      StreamTurn(turns, n, c.received);
      ReadTurn(c, turns[n]);
      if IsEndOfStream(turns[n]) {
        return;
      }
      n := n + 1;
    }
    TextConnectionDeliversLines(c);
  }

  const STALLED_STREAM: seq<Byte> := [98, 10, 88, 99, 10]
  const STALLED_PIECES := [Line([98], 10), Block([88]), Line([99], 10)]

  function OneByteAfterFirst(es: seq<Event>): Mode {
    if |es| == 1 then Binary(1) else Text
  }

  lemma StalledStreamSplits()
    ensures Feed(OneByteAfterFirst, START, STALLED_STREAM) == Split(Text, STALLED_PIECES, [])
  {
    var h, s := OneByteAfterFirst, STALLED_STREAM;
    StalledStart();
    DeliveredOfStalled();
    var p := [Line([98], 10)] + [Block([88])];
    assert s == [98, 10, 88] + [99, 10];
    FeedConcat(h, START, [98, 10, 88], [99, 10]);
    var s4 := Feed1(h, Split(Text, p, []), 99);
    assert s4 == Split(Text, p, [99]);
    assert p + [Line([99], 10)] == STALLED_PIECES;
    assert Feed1(h, s4, 10) == Split(Text, STALLED_PIECES, []);
    FeedTwo(h, Split(Text, p, []), 99, 10);
  }

  lemma FeedTwo(hook: Hook, s: Split, a: Byte, b: Byte)
    ensures Feed(hook, s, [a, b]) == Feed1(hook, Feed1(hook, s, a), b)
  {
    var s1 := Feed1(hook, s, a);
    assert [a, b][1..] == [b] && [b][1..] == [];
    assert Feed(hook, s, [a, b]) == Feed(hook, s1, [b]);
    FeedOne(hook, s1, b);
  }

  lemma FeedOne(hook: Hook, s: Split, b: Byte)
    ensures Feed(hook, s, [b]) == Feed1(hook, s, b)
  {
    assert [b][1..] == [];
  }

  lemma StalledStart()
    ensures Feed(OneByteAfterFirst, START, [98, 10, 88]) == Split(Text, [Line([98], 10)] + [Block([88])], [])
  {
    var h := OneByteAfterFirst;
    var first: seq<Piece> := [Line([98], 10)];
    OnePiece([], first[0]);
    assert [] + first == first && |Delivered(first)| == 1;
    assert Feed1(h, START, 98) == Split(Text, [], [98]);
    assert Feed1(h, Split(Text, [], [98]), 10) == Split(Binary(1), first, []);
    assert [98, 10, 88] == [98, 10] + [88];
    FeedConcat(h, START, [98, 10], [88]);
    FeedTwo(h, START, 98, 10);
    FeedOne(h, Split(Binary(1), first, []), 88);
    assert [] + [88] == [88];
  }

  /**
    After a block a received line can be left waiting: with a hook that asks for one byte after
    the first line, reading "b", LF, "X", "c", LF in one go delivers the line "b" and the block
    "X" and leaves the complete line "c" in the buffer until the next read.
  */
  method StalledLine() returns (c: Connection)
    ensures fresh(c) && c.Valid() && !c.isClosed && c.received == STALLED_STREAM
    ensures c.delivered == [LineEvent([98]), BlockEvent([88])] && c.readBuffer == [99, 10] && c.CurrentMode() == Text
    ensures c.OnePass() == Split(Text, STALLED_PIECES, [])
    ensures Delivered(STALLED_PIECES) == [LineEvent([98]), BlockEvent([88]), LineEvent([99])]
  {
    c := new Connection(OneByteAfterFirst);
    var stream := STALLED_STREAM;
    ghost var chunks := [stream];
    assert |chunks[..0]| == 0 && chunks[..1] == chunks;
    assert Joined(chunks) == stream;
    var block, used := c.Read([stream]);
    assert used == 1;
    StalledStreamSplits();
    DeliveredIsPrefix(c);
    CutAfterBlock(c.pieces, block);
    DeliveredOfStalled();
    NothingMoreExactly(c.hook, c.CurrentMode(), c.pieces, c.readBuffer);
    assert c.readBuffer == stream[|Raw(STALLED_PIECES[..2])|..];
  }

  lemma CutAfterBlock(pieces: seq<Piece>, block: bool)
    requires pieces <= STALLED_PIECES
    requires if block then |pieces| > 0 && pieces[|pieces| - 1].Block?
             else NoNewBlock([], pieces) && pieces == STALLED_PIECES
    ensures pieces == STALLED_PIECES[..2]
  {
    var p := STALLED_PIECES;
    assert p[1].Block? && !p[2].Block? && !p[0].Block?;
    assert pieces == p[..|pieces|];
    assert block ==> |pieces| == 2;
  }

  lemma DeliveredOfStalled()
    ensures Delivered(STALLED_PIECES[..2]) == [LineEvent([98]), BlockEvent([88])]
            && Raw(STALLED_PIECES[..2]) == [98, 10, 88]
    ensures Delivered(STALLED_PIECES) == [LineEvent([98]), BlockEvent([88]), LineEvent([99])]
  {
    var p := STALLED_PIECES;
    OnePiece([], p[0]);
    OnePiece([p[0]], p[1]);
    OnePiece([p[0], p[1]], p[2]);
    assert p[..2] == [p[0]] + [p[1]] && p == [p[0], p[1]] + [p[2]];
  }
}
