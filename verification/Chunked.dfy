/** The chunked transfer coding (section 4.1 of RFC 7230): the encoder and the buffered decoder
    (fasthttp/http.go, fasthttp/bytesconv.go) against the meaning of their input as a string. */
module Chunked {
  import opened Basics
  import opened Percent

  const MAX_HEX_INT_CHARS := 15
  const CRLF := "\r\n"

  datatype Error = EOF | UnexpectedEOF | EmptyHexNum | TooLargeHexNum | BrokenChunk | BodyTooLarge | BadTrailer

  /** What reading from a string gives: a value and the string that is left, or an error. */
  datatype Outcome<T> = Ok(value: T, rest: string) | Fail(error: Error)

  // ---------------------------------------------------------------- hexadecimal numbers

  predicate IsHex(c: char) {
    Hex2Int(c) < 16
  }

  /** How many hexadecimal digits `s` starts with. */
  function HexLen(s: string): (n: nat)
    ensures n <= |s| && (forall i :: 0 <= i < n ==> IsHex(s[i])) && (n < |s| ==> !IsHex(s[n]))
  {
    if s == "" || !IsHex(s[0]) then 0 else 1 + HexLen(s[1..])
  }

  predicate AllHex(s: string) {
    forall i :: 0 <= i < |s| ==> IsHex(s[i])
  }

  function HexValue(s: string): (n: nat)
    requires AllHex(s)
  {
    if s == "" then 0 else HexValue(s[..|s| - 1]) * 16 + Hex2Int(s[|s| - 1])
  }

  function Pow16(n: nat): (r: nat)
    ensures r >= 1
  {
    if n == 0 then 1 else 16 * Pow16(n - 1)
  }

  /** What a number may be at most: it fits 60 bits. */
  lemma MaxHexInt()
    ensures Pow16(MAX_HEX_INT_CHARS) == 0x1000_0000_0000_0000 && Pow16(16) == 0x1_0000_0000_0000_0000
  {
    assert Pow16(4) == 0x1_0000;
    assert Pow16(8) == 0x1_0000_0000;
    assert Pow16(12) == 0x1_0000_0000_0000;
  }

  /** Values below the bound are never cut off by 63-bit integers. */
  lemma {:induction false} HexValueBound(s: string)
    requires AllHex(s)
    ensures HexValue(s) < Pow16(|s|)
  {
    if s != "" {
      HexValueBound(s[..|s| - 1]);
    }
  }

  function LowerHex(n: nat): (c: char)
    requires n < 16
    ensures Hex2Int(c) == n
  {
    if n < 10 then ('0' as int + n) as char else ('a' as int + (n - 10)) as char
  }

  /** The digits of `n`, without leading zeros. */
  function HexDigits(n: nat): (s: string)
    ensures s != ""
  {
    (if n < 16 then "" else HexDigits(n / 16)) + [LowerHex(n % 16)]
  }

  lemma {:induction false} HexDigitsValue(n: nat)
    ensures AllHex(HexDigits(n)) && HexValue(HexDigits(n)) == n
  {
    hide HexValue;
    var d := if n < 16 then "" else HexDigits(n / 16);
    var s := HexDigits(n);
    if n < 16 {
      HexNothing();
    } else {
      HexDigitsValue(n / 16);
    }
    assert s == d + [LowerHex(n % 16)] && s[..|d|] == d && s[..|d| + 1] == s;
    HexSnoc(s, |d|);
  }

  lemma {:induction false} HexDigitsLen(n: nat, k: nat)
    requires k >= 1
    ensures |HexDigits(n)| <= k <==> n < Pow16(k)
  {
    if n >= 16 {
      if k > 1 {
        HexDigitsLen(n / 16, k - 1);
      } else {
        assert Pow16(1) == 16;
      }
    } else if k > 1 {
      HexDigitsLen(n, k - 1);
    }
  }

  /** `readHexInt` as a function of its input. */
  function HexInt(s: string): Outcome<nat> {
    var n := HexLen(s);
    if n == 0 then Fail(if s == "" then EOF else EmptyHexNum)
    else if n > MAX_HEX_INT_CHARS then Fail(TooLargeHexNum)
    else Ok(HexValue(s[..n]), s[n..])
  }

  lemma HexLenIs(s: string, n: nat)
    requires n <= |s| && (forall i :: 0 <= i < n ==> IsHex(s[i])) && (n < |s| ==> !IsHex(s[n]))
    ensures HexLen(s) == n
  {
    var m := HexLen(s);
    assert m < |s| ==> !IsHex(s[m]);
    assert n < |s| ==> !IsHex(s[n]);
  }

  /** A written number is read back if it has at most 15 digits, and refused otherwise. */
  lemma HexRoundTrip(n: nat, rest: string)
    requires rest == "" || !IsHex(rest[0])
    ensures HexInt(HexDigits(n) + rest) == if n < Pow16(MAX_HEX_INT_CHARS) then Ok(n, rest) else Fail(TooLargeHexNum)
  {
    hide HexDigits, HexValue, Pow16, HexLen;
    var d := HexDigits(n);
    var s := d + rest;
    HexDigitsValue(n);
    HexDigitsLen(n, MAX_HEX_INT_CHARS);
    assert forall i :: 0 <= i < |d| ==> s[i] == d[i];
    assert rest != "" ==> s[|d|] == rest[0];
    HexLenIs(s, |d|);
    assert s[..|d|] == d && s[|d|..] == rest;
  }

  // ---------------------------------------------------------------- chunks

  /** `parseChunkSize`: the number, then anything up to a carriage return, then a line feed. */
  function ChunkSize(s: string): Outcome<nat> {
    match HexInt(s)
    case Fail(e) => Fail(e)
    case Ok(n, t) =>
      var i := IndexOf(t, '\r');
      if i + 1 < |t| && t[i + 1] == '\n' then Ok(n, t[i + 2..]) else Fail(BrokenChunk)
  }

  lemma ChunkSizeConsumes(s: string)
    ensures ChunkSize(s).Ok? ==> |ChunkSize(s).rest| < |s|
  {
  }

  /** A chunk of size `n` lies at the start of `s`, with its line end. */
  predicate HasChunk(s: string, n: nat) {
    n + 2 <= |s| && s[n..n + 2] == CRLF
  }

  /** `readBodyChunked` with the body read so far; `limit` counts when positive. */
  function Body(s: string, limit: int, dst: string): Outcome<string>
    decreases |s|
  {
    ChunkSizeConsumes(s);
    match ChunkSize(s)
    case Fail(e) => Fail(e)
    case Ok(n, t) =>
      if n == 0 then Ok(dst, t)
      else if limit > 0 && |dst| + n > limit then Fail(BodyTooLarge)
      else if n + 2 > |t| then Fail(UnexpectedEOF)
      else if !HasChunk(t, n) then Fail(BrokenChunk)
      else Body(t[n + 2..], limit, dst + t[..n])
  }

  /** What `readBodyChunked` returns in any case: the bytes of the whole chunks, and what it read of
      a chunk that is cut short or not closed by a line end. */
  function Received(s: string, limit: int, dst: string): string
    decreases |s|
  {
    ChunkSizeConsumes(s);
    match ChunkSize(s)
    case Fail(_) => dst
    case Ok(n, t) =>
      if n == 0 || (limit > 0 && |dst| + n > limit) then dst
      else if n + 2 > |t| then dst + t
      else if !HasChunk(t, n) then dst + t[..n + 2]
      else Received(t[n + 2..], limit, dst + t[..n])
  }

  /** With a limit, no more than a line end beyond it is ever read into the buffer. */
  lemma {:induction false} ReceivedWithinLimit(s: string, limit: int, dst: string)
    requires limit > 0 && |dst| <= limit
    ensures |Received(s, limit, dst)| <= limit + 2
    decreases |s|
  {
    hide ChunkSize, Received;
    ReceivedCases(s, limit, dst);
    ChunkSizeConsumes(s);
    match ChunkSize(s)
    case Fail(_) =>
    case Ok(n, t) =>
      if 0 < n && |dst| + n <= limit && HasChunk(t, n) {
        ReceivedWithinLimit(t[n + 2..], limit, dst + t[..n]);
      }
  }

  /** On accepted input it is the body. */
  lemma {:induction false} ReceivedIsBody(s: string, limit: int, dst: string)
    requires Body(s, limit, dst).Ok?
    ensures Received(s, limit, dst) == Body(s, limit, dst).value
    decreases |s|
  {
    hide ChunkSize, Received, Body;
    ReceivedCases(s, limit, dst);
    BodyCases(s, limit, dst);
    ChunkSizeConsumes(s);
    match ChunkSize(s)
    case Ok(n, t) =>
      if n > 0 {
        ReceivedIsBody(t[n + 2..], limit, dst + t[..n]);
      }
  }

  lemma {:induction false} ReceivedCases(s: string, limit: int, dst: string)
    ensures Received(s, limit, dst) ==
            match ChunkSize(s)
            case Fail(_) => dst
            case Ok(n, t) =>
              if n == 0 || (limit > 0 && |dst| + n > limit) then dst
              else if n + 2 > |t| then dst + t
              else if !HasChunk(t, n) then dst + t[..n + 2]
              else Received(t[n + 2..], limit, dst + t[..n])
  {
    hide ChunkSize;
  }

  /** `writeChunk`. */
  function Chunk(b: string): string {
    HexDigits(|b|) + CRLF + b + if b == "" then "" else CRLF
  }

  function Chunks(pieces: seq<string>): string {
    if pieces == [] then "" else Chunk(pieces[0]) + Chunks(pieces[1..])
  }

  /** A body in pieces, closed by the empty chunk. */
  function Encoded(pieces: seq<string>): string {
    Chunks(pieces) + Chunk("")
  }

  function Flat(pieces: seq<string>): string {
    if pieces == [] then "" else pieces[0] + Flat(pieces[1..])
  }

  lemma ChunkSizeOf(n: nat, rest: string)
    requires n < Pow16(MAX_HEX_INT_CHARS)
    ensures ChunkSize(HexDigits(n) + CRLF + rest) == Ok(n, rest)
  {
    hide HexInt, HexDigits, Pow16, IndexOf;
    var t := CRLF + rest;
    HexRoundTrip(n, t);
    assert HexDigits(n) + CRLF + rest == HexDigits(n) + t;
    assert t[0] == '\r' && t[1] == '\n';
    IndexOfUnique(t, '\r', 0);
    assert t[2..] == rest;
  }

  lemma EndChunk(limit: int, dst: string, tail: string)
    ensures Body(Chunk("") + tail, limit, dst) == Ok(dst, tail)
  {
    hide ChunkSize, HexDigits, Body, Pow16;
    ChunkSizeOf(0, tail);
    BodyCases(Chunk("") + tail, limit, dst);
    assert Chunk("") + tail == HexDigits(0) + CRLF + tail;
  }

  /** Reading one written chunk. */
  lemma ChunkStep(b: string, limit: int, dst: string, tail: string)
    requires b != "" && |b| < Pow16(MAX_HEX_INT_CHARS)
    ensures Body(Chunk(b) + tail, limit, dst) ==
            if limit > 0 && |dst| + |b| > limit then Fail(BodyTooLarge) else Body(tail, limit, dst + b)
  {
    hide Body, ChunkSize, HexDigits, Pow16;
    var t := b + CRLF + tail;
    ChunkSizeOf(|b|, t);
    assert Chunk(b) + tail == HexDigits(|b|) + CRLF + t;
    assert t[..|b|] == b && t[|b|..|b| + 2] == CRLF && t[|b| + 2..] == tail;
    BodyCases(Chunk(b) + tail, limit, dst);
  }

  /** The decoder inverts the encoder, whatever the pieces and whatever follows; with a limit it fails
      exactly when the body is longer. */
  lemma {:induction false} DecodeEncode(pieces: seq<string>, limit: int, dst: string, tail: string)
    requires forall i :: 0 <= i < |pieces| ==> 0 < |pieces[i]| < Pow16(MAX_HEX_INT_CHARS)
    requires limit > 0 ==> |dst| <= limit
    ensures Body(Encoded(pieces) + tail, limit, dst) ==
            if limit > 0 && |dst| + |Flat(pieces)| > limit then Fail(BodyTooLarge)
            else Ok(dst + Flat(pieces), tail)
    decreases |pieces|
  {
    hide Body, Chunk, Pow16;
    if pieces == [] {
      EndChunk(limit, dst, tail);
      assert Encoded(pieces) == Chunk("");
      assert dst + "" == dst;
    } else {
      var b := pieces[0];
      var tail' := Encoded(pieces[1..]) + tail;
      assert Encoded(pieces) + tail == Chunk(b) + tail';
      ChunkStep(b, limit, dst, tail');
      if !(limit > 0 && |dst| + |b| > limit) {
        DecodeEncode(pieces[1..], limit, dst + b, tail);
        assert dst + b + Flat(pieces[1..]) == dst + Flat(pieces);
      }
    }
  }

  function Prepend(x: string, r: Outcome<string>): Outcome<string> {
    match r case Ok(b, rest) => Ok(x + b, rest) case Fail(e) => Fail(e)
  }

  /** The body read so far is carried along unchanged. */
  lemma {:induction false} BodyPrefix(s: string, dst: string)
    ensures Body(s, 0, dst) == Prepend(dst, Body(s, 0, ""))
    decreases |s|
  {
    ChunkSizeConsumes(s);
    hide ChunkSize;
    match ChunkSize(s)
    case Fail(_) =>
    case Ok(n, t) =>
      if n == 0 {
        assert dst + "" == dst;
      } else if HasChunk(t, n) {
        var b, t' := t[..n], t[n + 2..];
        BodyPrefix(t', dst + b);
        BodyPrefix(t', "" + b);
        PrependTwice(dst, b, Body(t', 0, ""));
      }
  }

  lemma PrependTwice(x: string, y: string, r: Outcome<string>)
    ensures Prepend(x, Prepend("" + y, r)) == Prepend(x + y, r)
  {
    if r.Ok? {
      assert x + ("" + y + r.value) == x + y + r.value;
    }
  }

  /** On every input that is accepted without a limit, a limit changes nothing unless the body is
      longer, and then it is the error. */
  lemma {:induction false} LimitIsExact(s: string, limit: int, dst: string)
    requires Body(s, 0, dst).Ok? && (limit > 0 ==> |dst| <= limit)
    ensures |dst| <= |Body(s, 0, dst).value|
    ensures Body(s, limit, dst) ==
            if limit > 0 && |Body(s, 0, dst).value| > limit then Fail(BodyTooLarge) else Body(s, 0, dst)
    decreases |s|
  {
    ChunkSizeConsumes(s);
    hide ChunkSize;
    var n, t := ChunkSize(s).value, ChunkSize(s).rest;
    if n > 0 {
      if limit > 0 && |dst| + n > limit {
        LimitIsExact(t[n + 2..], 0, dst + t[..n]);
      } else {
        LimitIsExact(t[n + 2..], limit, dst + t[..n]);
      }
    }
  }

  // ---------------------------------------------------------------- readers

  /** A buffered reader over bytes that end; a read may be short. */
  class Stream {
    const data: string
    var pos: nat

    ghost predicate Valid()
      reads this
    {
      pos <= |data|
    }

    ghost function Rest(): string
      requires Valid()
      reads this
    {
      data[pos..]
    }

    constructor (data: string)
      ensures Valid() && Rest() == data
    {
      this.data := data;
      pos := 0;
    }

    /** `ReadByte`; `None` is the end of the input. */
    method ReadByte() returns (c: Option<char>)
      requires Valid()
      modifies this
      ensures Valid()
      ensures if old(Rest()) == "" then c == None && pos == old(pos) && Rest() == ""
              else c == Some(old(Rest())[0]) && Rest() == old(Rest())[1..] && pos == old(pos) + 1
    {
      if pos == |data| {
        return None;
      }
      c := Some(data[pos]);
      pos := pos + 1;
    }

    /** `UnreadByte`. */
    method UnreadByte()
      requires Valid() && pos > 0
      modifies this
      ensures Valid() && pos == old(pos) - 1 && Rest() == [data[pos]] + old(Rest())
    {
      pos := pos - 1;
    }

    /** `Read` into `buf[from..to]`: at least one byte unless there is none to read or no room. */
    method Read(buf: array<char>, from: nat, to: nat) returns (n: nat)
      requires Valid() && from <= to <= buf.Length
      modifies this, buf
      ensures Valid() && n <= to - from && n <= |old(Rest())|
      ensures n == 0 <==> from == to || old(Rest()) == ""
      ensures Rest() == old(Rest())[n..]
      ensures buf[..from] == old(buf[..from]) && buf[from..from + n] == old(Rest())[..n]
    {
      n := 0;
      if from < to && pos < |data| {
        var most := if to - from < |data| - pos then to - from else |data| - pos;
        n :| 1 <= n <= most;
      }
      ghost var rest := Rest();
      for i := 0 to n
        invariant pos == old(pos) && buf[..from] == old(buf[..from])
        invariant forall k :: from <= k < from + i ==> buf[k] == rest[k - from]
      {
        buf[from + i] := data[pos + i];
      }
      pos := pos + n;
    }
  }

  /** `readHexInt`: never more than 60 bits. */
  method ReadHexInt(r: Stream) returns (n: nat, err: Option<Error>)
    requires r.Valid()
    modifies r
    ensures r.Valid() && n < 0x1000_0000_0000_0000
    ensures HexInt(old(r.Rest())) == if err.None? then Ok(n, r.Rest()) else Fail(err.value)
  {
    hide HexLen, HexValue, Pow16, HexInt, AllHex;
    ghost var s := r.Rest();
    var i := 0;
    n := 0;
    HexNothing();
    assert s[..0] == "";
    while true
      invariant 0 <= i <= MAX_HEX_INT_CHARS && i <= |s| && r.Valid() && r.Rest() == s[i..] && AllHex(s[..i])
      invariant n == HexValue(s[..i])
      decreases |s| - i
    {
      HexIntAt(s, i);
      var c := r.ReadByte();
      if c.None? {
        if i > 0 {
          return n, None;
        }
        return 0, Some(EOF);
      }
      assert c.value == s[i];
      var k := Hex2Int(c.value);
      if k == 16 {
        if i == 0 {
          return 0, Some(EmptyHexNum);
        }
        r.UnreadByte();
        assert r.Rest() == s[i..];
        return n, None;
      }
      if i >= MAX_HEX_INT_CHARS {
        return 0, Some(TooLargeHexNum);
      }
      HexSnoc(s, i);
      n := n * 16 + k;
      i := i + 1;
    }
  }

  /** What is known after `i` digits. */
  lemma HexIntAt(s: string, i: nat)
    requires i <= |s| && i <= MAX_HEX_INT_CHARS && AllHex(s[..i])
    ensures HexValue(s[..i]) < 0x1000_0000_0000_0000
    ensures i == |s| || Hex2Int(s[i]) == 16 ==>
              HexInt(s) == if i > 0 then Ok(HexValue(s[..i]), s[i..]) else Fail(if s == "" then EOF else EmptyHexNum)
    ensures i < |s| && i == MAX_HEX_INT_CHARS && Hex2Int(s[i]) < 16 ==> HexInt(s) == Fail(TooLargeHexNum)
  {
    HexValueBound(s[..i]);
    HexFits(i);
    hide HexLen, HexValue, Pow16;
    assert forall j :: 0 <= j < i ==> s[..i][j] == s[j];
    if i == |s| || Hex2Int(s[i]) == 16 {
      HexLenIs(s, i);
    }
  }

  lemma HexNothing()
    ensures AllHex("") && HexValue("") == 0
  {
  }

  lemma HexSnoc(s: string, i: nat)
    requires i < |s| && AllHex(s[..i]) && IsHex(s[i])
    ensures AllHex(s[..i + 1]) && HexValue(s[..i + 1]) == HexValue(s[..i]) * 16 + Hex2Int(s[i])
  {
    var t := s[..i + 1];
    assert t[..|t| - 1] == s[..i];
  }

  lemma HexFits(i: nat)
    requires i <= MAX_HEX_INT_CHARS
    ensures Pow16(i) <= 0x1000_0000_0000_0000
  {
    MaxHexInt();
    PowGrows(i, MAX_HEX_INT_CHARS);
  }

  lemma {:induction false} PowGrows(i: nat, j: nat)
    requires i <= j
    ensures Pow16(i) <= Pow16(j)
    decreases j
  {
    if i < j {
      PowGrows(i, j - 1);
    }
  }

  /** `readCrLf`. */
  method ReadCrLf(r: Stream) returns (ok: bool)
    requires r.Valid()
    modifies r
    ensures r.Valid() && ok == HasChunk(old(r.Rest()), 0)
    ensures ok ==> r.Rest() == old(r.Rest())[2..]
  {
    ghost var s := r.Rest();
    for i := 0 to 2
      invariant i <= |s| && r.Valid() && r.Rest() == s[i..] && s[..i] == CRLF[..i]
    {
      var c := r.ReadByte();
      if c.None? || c.value != CRLF[i] {
        assert |s| >= 2 ==> s[0..2][i] == s[i];
        return false;
      }
      assert s[..i + 1] == s[..i] + [s[i]] && CRLF[..i + 1] == CRLF[..i] + [CRLF[i]];
    }
    assert s[0..2] == s[..2] == CRLF;
    return true;
  }

  /** `parseChunkSize`. */
  method ParseChunkSize(r: Stream) returns (n: nat, err: Option<Error>)
    requires r.Valid()
    modifies r
    ensures r.Valid()
    ensures ChunkSize(old(r.Rest())) == if err.None? then Ok(n, r.Rest()) else Fail(err.value)
  {
    hide HexInt, IndexOf, ChunkSize, HasChunk;
    ghost var s := r.Rest();
    ChunkSizeCases(s);
    n, err := ReadHexInt(r);
    if err.Some? {
      return;
    }
    var found := SkipExtension(r);
    if !found {
      return 0, Some(BrokenChunk);
    }
    var ok := ReadCrLf(r);
    if !ok {
      return 0, Some(BrokenChunk);
    }
  }

  lemma ChunkSizeCases(s: string)
    ensures ChunkSize(s) ==
            match HexInt(s)
            case Fail(e) => Fail(e)
            case Ok(n, t) =>
              var i := IndexOf(t, '\r');
              if i < |t| && HasChunk(t[i..], 0) then Ok(n, t[i..][2..]) else Fail(BrokenChunk)
  {
    hide HexInt, IndexOf;
    if HexInt(s).Ok? {
      var t := HexInt(s).rest;
      var i := IndexOf(t, '\r');
      var u := t[i..];
      assert |u| >= 2 ==> u[0..2] == [t[i], t[i + 1]] && u[2..] == t[i + 2..];
    }
  }

  /** Skip anything up to a carriage return, which stays. */
  method SkipExtension(r: Stream) returns (found: bool)
    requires r.Valid()
    modifies r
    ensures r.Valid() && found == (IndexOf(old(r.Rest()), '\r') < |old(r.Rest())|)
    ensures found ==> r.Rest() == old(r.Rest())[IndexOf(old(r.Rest()), '\r')..]
  {
    hide IndexOf;
    ghost var t := r.Rest();
    ghost var i := 0;
    while true
      invariant 0 <= i <= |t| && r.Valid() && r.Rest() == t[i..] && forall j :: 0 <= j < i ==> t[j] != '\r'
      decreases |t| - i
    {
      var c := r.ReadByte();
      if c.None? {
        IndexOfUnique(t, '\r', i);
        return false;
      }
      if c.value != '\r' {
        i := i + 1;
        continue;
      }
      IndexOfUnique(t, '\r', i);
      r.UnreadByte();
      assert r.Rest() == t[i..];
      return true;
    }
  }

  /** A larger buffer with the same first `len` bytes. */
  method Grown(buf: array<char>, len: nat, size: nat) returns (dst: array<char>)
    requires len <= buf.Length && len <= size
    ensures fresh(dst) && dst.Length == size && dst[..len] == buf[..len]
  {
    dst := new char[size];
    for i := 0 to len
      invariant forall k :: 0 <= k < i ==> dst[k] == buf[k]
    {
      dst[i] := buf[i];
    }
  }

  /** `appendBodyFixedSize`: `n` more bytes behind the first `len` of the buffer, which is replaced
      by a larger one when it is too small. */
  method AppendBodyFixedSize(r: Stream, buf: array<char>, len: nat, n: nat)
    returns (dst: array<char>, size: nat, err: Option<Error>)
    requires r.Valid() && len <= buf.Length
    modifies r, buf
    ensures r.Valid() && (dst == buf || fresh(dst)) && size <= dst.Length
    ensures if n <= |old(r.Rest())| then
              && err == None && dst[..size] == old(buf[..len]) + old(r.Rest())[..n]
              && r.Rest() == old(r.Rest())[n..]
            else
              && err == Some(UnexpectedEOF) && dst[..size] == old(buf[..len]) + old(r.Rest()) && r.Rest() == ""
  {
    dst, size, err := buf, len, None;
    if n == 0 {
      assert r.Rest()[..0] == "" && buf[..len] + "" == buf[..len];
      return;
    }
    if dst.Length < len + n {
      dst := Grown(buf, len, len + n);
    }
    size, err := FillBuffer(r, dst, len, n);
  }

  /** The reads of `appendBodyFixedSize`. */
  method FillBuffer(r: Stream, dst: array<char>, len: nat, n: nat) returns (size: nat, err: Option<Error>)
    requires r.Valid() && len + n <= dst.Length && n > 0
    modifies r, dst
    ensures r.Valid() && size <= dst.Length
    ensures if n <= |old(r.Rest())| then
              && err == None && dst[..size] == old(dst[..len]) + old(r.Rest())[..n]
              && r.Rest() == old(r.Rest())[n..]
            else
              && err == Some(UnexpectedEOF) && dst[..size] == old(dst[..len]) + old(r.Rest()) && r.Rest() == ""
  {
    ghost var s, was := r.Rest(), dst[..len];
    size := len;
    assert dst[..size] == was + s[..0];
    while true
      invariant r.Valid() && len <= size < len + n
      invariant size - len <= |s| && r.Rest() == s[size - len..] && dst[..size] == was + s[..size - len]
      decreases len + n - size
    {
      ghost var before := dst[..size];
      var nn := r.Read(dst, size, len + n);
      if nn == 0 {
        assert dst[..size] == before && s[..size - len] == s;
        return size, Some(UnexpectedEOF);
      }
      ghost var after := dst[..size + nn];
      assert after[..size] == before && after[size..] == dst[size..size + nn];
      Appended(before, after, s, size - len, nn, was);
      size := size + nn;
      if size == len + n {
        return size, None;
      }
    }
  }

  /** One more piece of `s` behind what was copied of it. */
  lemma Appended(before: string, after: string, s: string, k: nat, nn: nat, was: string)
    requires k + nn <= |s| && |after| == |before| + nn
    requires before == was + s[..k]
    requires after[..|before|] == before && after[|before|..] == s[k..][..nn]
    ensures after == was + s[..k + nn] && s[k..][nn..] == s[k + nn..]
  {
    assert s[..k + nn] == s[..k] + s[k..][..nn];
    assert after == before + s[k..][..nn];
  }

  /** `readBodyChunked` into a buffer that starts out empty. */
  method ReadBodyChunked(r: Stream, limit: int, buf: array<char>)
    returns (dst: array<char>, size: nat, err: Option<Error>)
    requires r.Valid()
    modifies r, buf
    ensures r.Valid() && size <= dst.Length
    ensures Body(old(r.Rest()), limit, "") == if err.None? then Ok(dst[..size], r.Rest()) else Fail(err.value)
    ensures dst[..size] == Received(old(r.Rest()), limit, "")
  {
    hide ChunkSize, Body, Received, HasChunk;
    ghost var goal, got := Body(r.Rest(), limit, ""), Received(r.Rest(), limit, "");
    dst, size := buf, 0;
    while true
      invariant r.Valid() && (dst == buf || fresh(dst)) && size <= dst.Length
      invariant Body(r.Rest(), limit, dst[..size]) == goal && Received(r.Rest(), limit, dst[..size]) == got
      decreases |r.Rest()|
    {
      ghost var s := r.Rest();
      ghost var body := dst[..size];
      ChunkSizeConsumes(s);
      BodyCases(s, limit, body);
      ReceivedCases(s, limit, body);
      var n;
      n, err := ParseChunkSize(r);
      if err.Some? {
        return;
      }
      if n == 0 {
        return;
      }
      if limit > 0 && size + n > limit {
        return dst, size, Some(BodyTooLarge);
      }
      dst, size, err := ReadChunk(r, dst, size, n);
      if err.Some? {
        return;
      }
    }
  }

  /** One chunk of `readBodyChunked` and the line end behind it. */
  method ReadChunk(r: Stream, buf: array<char>, len: nat, n: nat)
    returns (dst: array<char>, size: nat, err: Option<Error>)
    requires r.Valid() && len <= buf.Length
    modifies r, buf
    ensures r.Valid() && (dst == buf || fresh(dst)) && size <= dst.Length
    ensures var t, was := old(r.Rest()), old(buf[..len]);
            if n + 2 > |t| then err == Some(UnexpectedEOF) && dst[..size] == was + t
            else if !HasChunk(t, n) then err == Some(BrokenChunk) && dst[..size] == was + t[..n + 2]
            else err == None && dst[..size] == was + t[..n] && r.Rest() == t[n + 2..]
  {
    ghost var t, was := r.Rest(), buf[..len];
    dst, size, err := AppendBodyFixedSize(r, buf, len, n + |CRLF|);
    if err.Some? {
      return;
    }
    assert dst[..size] == was + t[..n + 2];
    assert dst[size - 2..size] == t[n..n + 2] && dst[..size - 2] == was + t[..n];
    if dst[size - |CRLF|..size] != CRLF {
      return dst, size, Some(BrokenChunk);
    }
    size := size - |CRLF|;
  }

  /** One round of the decoder. */
  lemma {:induction false} BodyCases(s: string, limit: int, dst: string)
    ensures Body(s, limit, dst) ==
            match ChunkSize(s)
            case Fail(e) => Fail(e)
            case Ok(n, t) =>
              if n == 0 then Ok(dst, t)
              else if limit > 0 && |dst| + n > limit then Fail(BodyTooLarge)
              else if n + 2 > |t| then Fail(UnexpectedEOF)
              else if !HasChunk(t, n) then Fail(BrokenChunk)
              else Body(t[n + 2..], limit, dst + t[..n])
  {
  }

  // ---------------------------------------------------------------- writers

  /** `writeHexInt` for an `int`, in a buffer of one more cell than `maxHexIntChars`. */
  method WriteHexInt(w: string, n: nat) returns (w': string)
    requires n < 0x8000_0000_0000_0000
    ensures w' == w + HexDigits(n)
  {
    hide Pow16;
    var buf := new char[MAX_HEX_INT_CHARS + 1];
    var i: nat, m: nat := MAX_HEX_INT_CHARS, n;
    MaxHexInt();
    while true
      invariant 0 <= i < buf.Length == 16 && m < Pow16(i + 1)
      invariant HexDigits(n) == HexDigits(m) + buf[i + 1..]
      decreases i
    {
      PowStep(i);
      ghost var tail := buf[i + 1..];
      buf[i] := LowerHex(m % 16);
      assert buf[i..] == [buf[i]] + tail;
      m := m / 16;
      if m == 0 {
        break;
      }
      assert HexDigits(n) == HexDigits(m) + buf[i..];
      i := i - 1;
    }
    w' := w + buf[i..];
  }

  lemma PowStep(i: nat)
    ensures Pow16(i + 1) == 16 * Pow16(i) && Pow16(0) == 1
  {
  }

  /** `writeChunk`. */
  method WriteChunk(w: string, b: string) returns (w': string)
    requires |b| < 0x8000_0000_0000_0000
    ensures w' == w + Chunk(b)
  {
    w' := WriteHexInt(w, |b|);
    w' := w' + CRLF;
    w' := w' + b;
    if |b| > 0 {
      w' := w' + CRLF;
    }
  }

  ghost predicate Sized(pieces: seq<string>) {
    forall i :: 0 <= i < |pieces| ==> 0 < |pieces[i]| < Pow16(MAX_HEX_INT_CHARS)
  }

  /** The chunks of `pieces` are behind `w0` in `w`; `rest` of `s` is to be written. */
  ghost predicate Written(w0: string, w: string, pieces: seq<string>, rest: string, s: string) {
    w == w0 + Chunks(pieces) && Flat(pieces) + rest == s && Sized(pieces)
  }

  lemma WrittenNone(w: string, s: string)
    ensures Written(w, w, [], s, s)
  {
    assert w + "" == w && "" + s == s;
  }

  lemma WrittenStep(w0: string, w: string, pieces: seq<string>, rest: string, s: string, n: nat)
    requires Written(w0, w, pieces, rest, s) && 0 < n <= |rest| && n < Pow16(MAX_HEX_INT_CHARS)
    ensures Written(w0, w + Chunk(rest[..n]), pieces + [rest[..n]], rest[n..], s)
  {
    hide Flat, Chunks, Chunk, Pow16;
    var b := rest[..n];
    ChunksSnoc(pieces, b);
    assert rest == b + rest[n..];
    assert w0 + Chunks(pieces) + Chunk(b) == w0 + (Chunks(pieces) + Chunk(b));
    assert Flat(pieces) + b + rest[n..] == Flat(pieces) + rest;
  }

  lemma WrittenAll(w0: string, w: string, pieces: seq<string>, s: string)
    requires Written(w0, w, pieces, "", s)
    ensures w + Chunk("") == w0 + Encoded(pieces) && Flat(pieces) == s && Sized(pieces)
  {
    hide Flat, Chunks, Chunk, Pow16;
    assert Flat(pieces) + "" == Flat(pieces);
    assert w0 + Chunks(pieces) + Chunk("") == w0 + (Chunks(pieces) + Chunk(""));
  }

  /** `writeBodyChunked`: however the reader cuts the body into pieces, decoding gives it back. */
  method WriteBodyChunked(w: string, r: Stream, buf: array<char>) returns (w': string, ghost pieces: seq<string>)
    requires r.Valid() && 0 < buf.Length < 0x1000_0000_0000_0000
    modifies r, buf
    ensures r.Valid() && w' == w + Encoded(pieces) && Flat(pieces) == old(r.Rest())
    ensures forall tail :: Body(Encoded(pieces) + tail, 0, "") == Ok(old(r.Rest()), tail)
  {
    hide Chunk, Pow16, Body, Written, Sized, Encoded, Flat;
    MaxHexInt();
    w', pieces := w, [];
    WrittenNone(w, r.Rest());
    while true
      invariant r.Valid() && Written(w, w', pieces, r.Rest(), old(r.Rest()))
      decreases |r.Rest()|
    {
      ghost var rest := r.Rest();
      var n := r.Read(buf, 0, buf.Length);
      if n == 0 {
        WrittenAll(w, w', pieces, old(r.Rest()));
        w' := WriteChunk(w', "");
        break;
      }
      var b := buf[..n];
      assert b == buf[0..0 + n];
      WrittenStep(w, w', pieces, rest, old(r.Rest()), n);
      w' := WriteChunk(w', b);
      pieces := pieces + [b];
    }
    EncodedDecodes(pieces);
  }

  lemma EncodedDecodes(pieces: seq<string>)
    requires Sized(pieces)
    ensures forall tail :: Body(Encoded(pieces) + tail, 0, "") == Ok(Flat(pieces), tail)
  {
    hide Body, Pow16, Encoded, Flat;
    forall tail
      ensures Body(Encoded(pieces) + tail, 0, "") == Ok(Flat(pieces), tail)
    {
      DecodeEncode(pieces, 0, "", tail);
      assert "" + Flat(pieces) == Flat(pieces);
    }
  }

  lemma {:induction false} ChunksSnoc(pieces: seq<string>, b: string)
    ensures Chunks(pieces + [b]) == Chunks(pieces) + Chunk(b)
    ensures Flat(pieces + [b]) == Flat(pieces) + b
    decreases |pieces|
  {
    hide Chunk;
    if pieces == [] {
      assert (pieces + [b])[1..] == [];
      assert Chunk(b) + "" == Chunk(b) && b + "" == b;
    } else {
      ChunksSnoc(pieces[1..], b);
      assert (pieces + [b])[1..] == pieces[1..] + [b];
    }
  }
}
