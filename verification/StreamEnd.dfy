/**
  The end of a stream that server_connection_read has been reading: what is still in the buffer
  is handed over as one line, by way of a C string. When this is what the one-pass split of the
  whole stream would deliver.
*/
module StreamEnd {

  import opened Bytes
  import opened ServerRead

  /** All that the one-pass split delivers, with unfinished text as a last line */
  function Whole(s: Split): seq<Event> {
    Delivered(s.pieces) + if s.mode == Text && s.partial != [] then [LineEvent(s.partial)] else []
  }

  /** A line as it should be: not empty, and without a delimiter in it */
  predicate IsClean(event: Event) {
    event.LineEvent? ==>
      && event.text != []
      && forall k :: 0 <= k < |event.text| ==> event.text[k] != 0 && event.text[k] != 13 && event.text[k] != 10
  }

  /** events continues before, with clean lines */
  predicate Continues(before: seq<Event>, events: seq<Event>) {
    before <= events && forall k :: |before| <= k < |events| ==> IsClean(events[k])
  }

  predicate PartialIsText(s: Split) {
    s.mode == Text ==> !HasDelimiter(s.partial)
  }

  /** From any point on, the one-pass split delivers clean lines only */
  lemma {:induction false} SplitIsClean(hook: Hook, s: Split, bytes: seq<Byte>)
    requires PartialIsText(s)
    ensures Continues(Delivered(s.pieces), Whole(Feed(hook, s, bytes)))
    decreases |bytes|
  {
    if bytes != [] {
      ByteIsClean(hook, s, bytes[0]);
      SplitIsClean(hook, Feed1(hook, s, bytes[0]), bytes[1..]);
    }
  }

  lemma ByteIsClean(hook: Hook, s: Split, b: Byte)
    requires PartialIsText(s)
    ensures PartialIsText(Feed1(hook, s, b))
    ensures Continues(Delivered(s.pieces), Delivered(Feed1(hook, s, b).pieces))
  {
    match s.mode {
      case Finished =>
      case Binary(n) => PieceIsClean(s.pieces, Block(s.partial + [b]));
      case Text =>
        if IsDelimiter(b) {
          PieceIsClean(s.pieces, PieceOf(s.partial, b));
          PieceIsClean(s.pieces + [PieceOf(s.partial, b)], Block([]));
        }
    }
  }

  lemma PieceIsClean(pieces: seq<Piece>, piece: Piece)
    requires piece.Line? ==> piece.text != [] && !HasDelimiter(piece.text)
    ensures Continues(Delivered(pieces), Delivered(pieces + [piece]))
  {
    OnePiece(pieces, piece);
  }

  lemma {:induction false} CStringEnds(bytes: seq<Byte>)
    ensures var n := |CString(bytes)|;
            n <= |bytes| && CString(bytes) == bytes[..n] && (n < |bytes| ==> bytes[n] == 0)
  {
    if bytes != [] && bytes[0] != 0 {
      CStringEnds(bytes[1..]);
      var n := |CString(bytes[1..])|;
      assert [bytes[0]] + bytes[1..][..n] == bytes[..n + 1];
    }
  }

  /** The first delimiter of the buffer is a NUL, with text before it */
  predicate NulEndsLine(buffer: seq<Byte>) {
    var text := CString(buffer);
    0 < |text| < |buffer| && !HasDelimiter(text)
  }

  /** Then that text is the next line that the one-pass split delivers */
  lemma LineBeforeNul(hook: Hook, pieces: seq<Piece>, buffer: seq<Byte>)
    requires NulEndsLine(buffer)
    ensures Delivered(pieces) + [LineEvent(CString(buffer))] <= Whole(Feed(hook, Split(Text, pieces, []), buffer))
  {
    var text := CString(buffer);
    var n := |text|;
    CStringEnds(buffer);
    var s, s1 := Split(Text, pieces, []), Feed1(hook, Split(Text, pieces, text), 0);
    FeedLine(hook, s, text, buffer[n + 1..]);
    assert buffer == text + ([0] + buffer[n + 1..]);
    PieceIsClean(pieces, Line(text, 0));
    OnePiece(pieces, Line(text, 0));
    OnePiece(pieces + [Line(text, 0)], Block([]));
    SplitIsClean(hook, s1, buffer[n + 1..]);
  }

  lemma FeedLine(hook: Hook, s: Split, text: seq<Byte>, rest: seq<Byte>)
    requires s == Split(Text, s.pieces, []) && !HasDelimiter(text)
    ensures Feed(hook, s, text + ([0] + rest)) == Feed(hook, Feed1(hook, Split(Text, s.pieces, text), 0), rest)
  {
    FeedConcat(hook, s, text, [0] + rest);
    FeedText(hook, s, text);
    assert [] + text == text && ([0] + rest)[1..] == rest;
  }

  /** What the end of the stream delivers of the buffer */
  function AtEnd(buffer: seq<Byte>, isBinary: bool): seq<Event> {
    if buffer != [] && !isBinary then [LineEvent(CString(buffer))] else []
  }

  /**
    The end of the stream delivers, of the buffer, what the one-pass split does exactly when the
    buffer is part of a block, or has no delimiter, or its first delimiter is a NUL behind some
    text and this is the one line left.
  */
  lemma EndExactly(hook: Hook, mode: Mode, pieces: seq<Piece>, buffer: seq<Byte>)
    requires mode != Finished && (mode.Binary? ==> |buffer| < mode.length)
    ensures var whole := Whole(Feed(hook, Split(mode, pieces, []), buffer));
            Delivered(pieces) + AtEnd(buffer, mode.Binary?) == whole
            <==> mode.Binary? || !HasDelimiter(buffer) || (NulEndsLine(buffer) && |whole| == |Delivered(pieces)| + 1)
  {
    var s := Split(mode, pieces, []);
    if mode.Binary? {
      FeedBlockShort(hook, s, buffer);
    } else if !HasDelimiter(buffer) {
      FeedText(hook, s, buffer);
      CStringOfText(buffer);
      assert [] + buffer == buffer;
    } else {
      EndWithDelimiter(hook, pieces, buffer);
    }
  }

  lemma EndWithDelimiter(hook: Hook, pieces: seq<Piece>, buffer: seq<Byte>)
    requires HasDelimiter(buffer)
    ensures var whole := Whole(Feed(hook, Split(Text, pieces, []), buffer));
            Delivered(pieces) + [LineEvent(CString(buffer))] == whole
            <==> NulEndsLine(buffer) && |whole| == |Delivered(pieces)| + 1
  {
    var whole, before, text := Whole(Feed(hook, Split(Text, pieces, []), buffer)), Delivered(pieces), CString(buffer);
    CStringEnds(buffer);
    assert |text| == |buffer| ==> text == buffer;
    if NulEndsLine(buffer) {
      LineBeforeNul(hook, pieces, buffer);
    } else {
      SplitIsClean(hook, Split(Text, pieces, []), buffer);
      assert !IsClean(LineEvent(text));
      assert (before + [LineEvent(text)])[|before|] == LineEvent(text);
    }
  }

  /** The read that meets the end of the stream */
  method ReadEnd(c: Connection)
    requires c.Valid() && !c.isClosed
    modifies c
    ensures c.isClosed && c.received == old(c.received)
    ensures c.delivered == Whole(c.OnePass())
            <==> old(c.isBinary) || !HasDelimiter(old(c.readBuffer))
                 || (NulEndsLine(old(c.readBuffer)) && |Whole(c.OnePass())| == old(|c.delivered|) + 1)
  {
    EndExactly(c.hook, c.CurrentMode(), c.pieces, c.readBuffer);
    ghost var before := c.received;
    var _, used := c.Read([]);
    assert before + [] == before;
  }

  lemma NoNul(bytes: seq<Byte>)
    requires forall k :: 0 <= k < |bytes| ==> bytes[k] != 0
    ensures CString(bytes) == bytes
  {
    CStringEnds(bytes);
  }

  /** The stream that leaves the line "c" waiting, when it ends there: the line comes out with its delimiter */
  method StalledEnd() returns (c: Connection)
    ensures c.received == STALLED_STREAM
    ensures c.delivered == [LineEvent([98]), BlockEvent([88]), LineEvent([99, 10])]
    ensures Whole(c.OnePass()) == [LineEvent([98]), BlockEvent([88]), LineEvent([99])]
  {
    c := StalledLine();
    NoNul(c.readBuffer);
    ghost var before := c.received;
    var _, used := c.Read([]);
    assert before + [] == before;
  }
}
