/** The chunked transfer coding (section 4.1 of RFC 7230), on the text: which inputs the decoder of
    fasthttp/http.go accepts, and what the encoder writes. */
module ChunkText {
  import opened Basics
  import opened Ascii
  import opened Percent
  import opened Chunked

  // ---------------------------------------------------------------- the grammar

  /** A chunk as it is spelled: its size in hexadecimal digits, an extension, and its data. */
  datatype Piece = Piece(size: string, extension: string, data: string)

  /** A size of at most 15 digits, and an extension that does not start with a digit and has no
      carriage return. */
  predicate LineOk(size: string, extension: string) {
    && AllHex(size) && 1 <= |size| <= 15
    && '\r' !in extension && (extension == "" || !IsHex(extension[0]))
  }

  predicate PieceOk(p: Piece) {
    LineOk(p.size, p.extension) && HexValue(p.size) == |p.data| > 0
  }

  function Spelled(pieces: seq<Piece>): string {
    if pieces == [] then ""
    else pieces[0].size + pieces[0].extension + "\r\n" + (pieces[0].data + "\r\n" + Spelled(pieces[1..]))
  }

  function Data(pieces: seq<Piece>): string {
    if pieces == [] then "" else pieces[0].data + Data(pieces[1..])
  }

  predicate AllPiecesOk(pieces: seq<Piece>) {
    forall i :: 0 <= i < |pieces| ==> PieceOk(pieces[i])
  }

  /** The input is a list of chunks, a line that gives the size zero, and the rest. */
  predicate Spells(s: string, pieces: seq<Piece>, size: string, extension: string, rest: string) {
    && AllPiecesOk(pieces) && LineOk(size, extension) && HexValue(size) == 0
    && s == Spelled(pieces) + (size + extension + "\r\n" + rest)
  }

  // ---------------------------------------------------------------- size lines

  /** A size line is read whatever its extension. */
  lemma LineRead(size: string, extension: string, rest: string)
    requires LineOk(size, extension)
    ensures ChunkSize(size + extension + "\r\n" + rest) == Ok(HexValue(size), rest)
  {
    hide HexLen, IndexOf, HexValue;
    var s := size + extension + "\r\n" + rest;
    var t := extension + "\r\n" + rest;
    assert s == size + t;
    assert forall i :: 0 <= i < |size| ==> s[i] == size[i];
    assert s[|size|] == t[0] && !IsHex(t[0]);
    HexLenIs(s, |size|);
    assert s[..|size|] == size && s[|size|..] == t;
    assert forall j :: 0 <= j < |extension| ==> t[j] == extension[j];
    assert t[|extension|] == '\r';
    IndexOfUnique(t, '\r', |extension|);
    assert t[|extension| + 2..] == rest;
  }

  /** And nothing else is read as one. */
  lemma LineSpelled(s: string) returns (size: string, extension: string)
    requires ChunkSize(s).Ok?
    ensures LineOk(size, extension) && ChunkSize(s).value == HexValue(size)
    ensures s == size + extension + "\r\n" + ChunkSize(s).rest
  {
    hide HexLen, IndexOf, HexValue;
    var n := HexLen(s);
    size := s[..n];
    var t := s[n..];
    var i := IndexOf(t, '\r');
    extension := t[..i];
    assert i > 0 ==> extension[0] == s[n];
    assert i == 0 ==> extension == "";
    assert t == extension + [t[i], t[i + 1]] + t[i + 2..];
    assert s == size + t;
  }

  // ---------------------------------------------------------------- bodies

  /** Every input of that grammar is accepted: its data is the body and the rest is left. */
  lemma {:induction false} SpelledIsRead(pieces: seq<Piece>, size: string, extension: string, rest: string, dst: string)
    requires AllPiecesOk(pieces) && LineOk(size, extension) && HexValue(size) == 0
    ensures Body(Spelled(pieces) + (size + extension + "\r\n" + rest), 0, dst) == Ok(dst + Data(pieces), rest)
    decreases |pieces|
  {
    hide ChunkSize, Body, HexValue;
    var end := size + extension + "\r\n" + rest;
    var s := Spelled(pieces) + end;
    BodyCases(s, 0, dst);
    if pieces == [] {
      assert s == end && dst + "" == dst;
      LineRead(size, extension, rest);
    } else {
      var p, more := pieces[0], Spelled(pieces[1..]) + end;
      assert PieceOk(p);
      var t := p.data + "\r\n" + more;
      assert s == p.size + p.extension + "\r\n" + t;
      LineRead(p.size, p.extension, t);
      assert t[..|p.data|] == p.data && t[|p.data|..|p.data| + 2] == CRLF && t[|p.data| + 2..] == more;
      SpelledIsRead(pieces[1..], size, extension, rest, dst + p.data);
      assert dst + p.data + Data(pieces[1..]) == dst + Data(pieces);
    }
  }

  /** And no other input is. */
  lemma {:induction false} ReadIsSpelled(s: string, dst: string)
      returns (pieces: seq<Piece>, size: string, extension: string)
    requires Body(s, 0, dst).Ok?
    ensures Spells(s, pieces, size, extension, Body(s, 0, dst).rest)
    ensures Body(s, 0, dst).value == dst + Data(pieces)
    decreases |s|
  {
    hide ChunkSize, Body, HexValue;
    BodyCases(s, 0, dst);
    ChunkSizeConsumes(s);
    size, extension := LineSpelled(s);
    var n, t := ChunkSize(s).value, ChunkSize(s).rest;
    if n == 0 {
      pieces := [];
      assert dst + "" == dst && s == "" + s;
    } else {
      var first := Piece(size, extension, t[..n]);
      pieces, size, extension := ReadIsSpelled(t[n + 2..], dst + t[..n]);
      var end := size + extension + "\r\n" + Body(s, 0, dst).rest;
      assert t == t[..n] + t[n..n + 2] + t[n + 2..];
      assert Spelled([first] + pieces) + end ==
             first.size + first.extension + "\r\n" + (t[..n] + "\r\n" + (Spelled(pieces) + end)) by {
        assert ([first] + pieces)[1..] == pieces;
      }
      assert dst + t[..n] + Data(pieces) == dst + Data([first] + pieces) by {
        assert ([first] + pieces)[1..] == pieces;
      }
      pieces := [first] + pieces;
    }
  }

  /** For every input, body and rest: the decoder accepts it with that body and that rest if and only
      if it is a list of chunks with that data, a line of size zero, and the rest. */
  lemma AcceptedIff(s: string, body: string, rest: string)
    ensures Body(s, 0, "") == Ok(body, rest) <==>
            exists pieces, size, extension :: Spells(s, pieces, size, extension, rest) && body == Data(pieces)
  {
    hide Body, Spells, Data;
    if Body(s, 0, "") == Ok(body, rest) {
      var pieces, size, extension := ReadIsSpelled(s, "");
      assert "" + Data(pieces) == Data(pieces);
    }
    forall pieces, size, extension | Spells(s, pieces, size, extension, rest) && body == Data(pieces)
      ensures Body(s, 0, "") == Ok(body, rest)
    {
      SpelledAccepted(s, pieces, size, extension, rest);
    }
  }

  lemma SpelledAccepted(s: string, pieces: seq<Piece>, size: string, extension: string, rest: string)
    requires Spells(s, pieces, size, extension, rest)
    ensures Body(s, 0, "") == Ok(Data(pieces), rest)
  {
    hide Body, Data, Spelled, HexValue;
    SpelledIsRead(pieces, size, extension, rest, "");
    assert "" + Data(pieces) == Data(pieces);
  }

  // ---------------------------------------------------------------- errors

  /** Chunks in front do not matter for what comes behind them. */
  lemma {:induction false} ChunksInFront(pieces: seq<Piece>, tail: string, dst: string)
    requires AllPiecesOk(pieces)
    ensures Body(Spelled(pieces) + tail, 0, dst) == Body(tail, 0, dst + Data(pieces))
    ensures Received(Spelled(pieces) + tail, 0, dst) == Received(tail, 0, dst + Data(pieces))
    decreases |pieces|
  {
    hide ChunkSize, Body, HexValue, Received;
    if pieces == [] {
      assert "" + tail == tail && dst + "" == dst;
    } else {
      var p, more := pieces[0], Spelled(pieces[1..]) + tail;
      assert PieceOk(p);
      var t := p.data + "\r\n" + more;
      assert Spelled(pieces) + tail == p.size + p.extension + "\r\n" + t;
      BodyCases(Spelled(pieces) + tail, 0, dst);
      ReceivedCases(Spelled(pieces) + tail, 0, dst);
      LineRead(p.size, p.extension, t);
      assert t[..|p.data|] == p.data && t[|p.data|..|p.data| + 2] == CRLF && t[|p.data| + 2..] == more;
      ChunksInFront(pieces[1..], tail, dst + p.data);
      assert dst + p.data + Data(pieces[1..]) == dst + Data(pieces);
    }
  }

  /** Behind a size line: data that is cut short, and data without a line end; the bytes of it that
      there are have been received. */
  lemma DataErrors(size: string, extension: string, t: string, dst: string)
    requires LineOk(size, extension) && HexValue(size) > 0
    ensures var s, n := size + extension + "\r\n" + t, HexValue(size);
            && (|t| < n + 2 ==> Body(s, 0, dst) == Fail(UnexpectedEOF) && Received(s, 0, dst) == dst + t)
            && (|t| >= n + 2 && t[n..n + 2] != "\r\n" ==>
                  Body(s, 0, dst) == Fail(BrokenChunk) && Received(s, 0, dst) == dst + t[..n + 2])
  {
    hide ChunkSize, Body, HexValue, Received;
    LineRead(size, extension, t);
    BodyCases(size + extension + "\r\n" + t, 0, dst);
    ReceivedCases(size + extension + "\r\n" + t, 0, dst);
  }

  /** A chunk that would exceed the limit is refused by its size line, and nothing of it is received. */
  lemma OverLimit(size: string, extension: string, t: string, limit: int, dst: string)
    requires LineOk(size, extension) && HexValue(size) > 0 && limit > 0 && |dst| + HexValue(size) > limit
    ensures var s := size + extension + "\r\n" + t;
            Body(s, limit, dst) == Fail(BodyTooLarge) && Received(s, limit, dst) == dst
  {
    hide ChunkSize, Body, HexValue, Received;
    LineRead(size, extension, t);
    BodyCases(size + extension + "\r\n" + t, limit, dst);
    ReceivedCases(size + extension + "\r\n" + t, limit, dst);
  }

  /** Without a size line: the end of the input, no digit, too many digits, or digits behind which
      the first carriage return is not followed by a line feed or is missing. */
  lemma LineErrors(size: string, t: string, dst: string)
    requires AllHex(size) && (t == "" || !IsHex(t[0]))
    ensures var r := Body(size + t, 0, dst);
            && (size == "" ==> r == Fail(if t == "" then EOF else EmptyHexNum))
            && (|size| > 15 ==> r == Fail(TooLargeHexNum))
            && (1 <= |size| <= 15 && '\r' !in t ==> r == Fail(BrokenChunk))
            && (forall i :: 0 <= i < |t| && t[i] == '\r' && '\r' !in t[..i] && !(i + 1 < |t| && t[i + 1] == '\n') ==>
                  1 <= |size| <= 15 ==> r == Fail(BrokenChunk))
            && (ChunkSize(size + t).Fail? ==> Received(size + t, 0, dst) == dst)
  {
    hide Body, HexValue, IndexOf, Received;
    var s := size + t;
    assert forall i :: 0 <= i < |size| ==> s[i] == size[i];
    assert t != "" ==> s[|size|] == t[0];
    HexLenIs(s, |size|);
    hide HexLen, IsHex;
    assert s[..|size|] == size && s[|size|..] == t;
    BodyCases(s, 0, dst);
    ReceivedCases(s, 0, dst);
    forall i | 0 <= i < |t| && t[i] == '\r' && '\r' !in t[..i]
      ensures IndexOf(t, '\r') == i
    {
      assert forall j :: 0 <= j < i ==> t[j] == t[..i][j];
      IndexOfUnique(t, '\r', i);
    }
    if '\r' !in t {
      IndexOfUnique(t, '\r', |t|);
    }
  }

  // ---------------------------------------------------------------- numbers

  /** The first digit of a number counts the most. */
  lemma {:induction false} FirstDigitCounts(c: char, s: string)
    requires IsHex(c) && AllHex(s)
    ensures AllHex([c] + s) && HexValue([c] + s) == Hex2Int(c) * Pow16(|s|) + HexValue(s)
  {
    hide Hex2Int;
    var t, n := [c] + s, |s| - 1;
    assert forall i :: 0 <= i < |t| ==> t[i] == if i == 0 then c else s[i - 1];
    if s == "" {
      assert t[..0] == "" && t == [c];
    } else {
      FirstDigitCounts(c, s[..n]);
      assert t[..|t| - 1] == [c] + s[..n];
    }
  }

  /** Numbers are written in lower case and without leading zeros. */
  lemma {:induction false} DigitsWritten(n: nat, i: nat)
    requires i < |HexDigits(n)|
    ensures HexDigits(n)[i] in LOWER_HEX
    ensures n > 0 ==> HexDigits(n)[0] != '0'
    decreases n
  {
    LowerHexText(n % 16);
    hide LOWER_HEX, LowerHex;
    if n >= 16 {
      DigitsWritten(n / 16, if i < |HexDigits(n / 16)| then i else 0);
    }
  }

  lemma LowerHexText(v: nat)
    requires v < 16
    ensures LowerHex(v) in LOWER_HEX && (v > 0 ==> LowerHex(v) != '0')
  {
    assert LowerHex(v) == LOWER_HEX[v];
  }
}
