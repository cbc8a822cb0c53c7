/** Incremental reading of a chunked body (fasthttp/streaming.go, `requestStream.Read`), against the
    buffered decoder. */
module ChunkStream {
  import opened Basics
  import opened Chunked

  /** What is still to be read: the rest of a chunk and its line end, then a chunked body. */
  function Pending(chunkLeft: nat, s: string): Outcome<string> {
    if chunkLeft == 0 then Body(s, 0, "")
    else if chunkLeft + 2 > |s| then Fail(UnexpectedEOF)
    else if !HasChunk(s, chunkLeft) then Fail(BrokenChunk)
    else Prepend(s[..chunkLeft], Body(s[chunkLeft + 2..], 0, ""))
  }

  lemma PendingChunk(s: string, n: nat, t: string)
    requires ChunkSize(s) == Ok(n, t)
    ensures Pending(0, s) == if n == 0 then Ok("", t) else Pending(n, t)
  {
    hide ChunkSize, Body;
    BodyCases(s, 0, "");
    if n > 0 && HasChunk(t, n) {
      assert "" + t[..n] == t[..n];
      BodyPrefix(t[n + 2..], t[..n]);
    }
  }

  /** Part of a chunk. */
  lemma PendingPart(left: nat, s: string, k: nat)
    requires k < left && k <= |s|
    ensures Pending(left, s) == Prepend(s[..k], Pending(left - k, s[k..]))
  {
    hide Body;
    if left + 2 <= |s| {
      var t := s[k..];
      assert t[left - k..left - k + 2] == s[left..left + 2];
      if HasChunk(s, left) {
        assert t[left - k + 2..] == s[left + 2..];
        var r := Body(s[left + 2..], 0, "");
        if r.Ok? {
          assert s[..left] + r.value == s[..k] + (t[..left - k] + r.value);
        }
      }
    }
  }

  /** The last part of a chunk, and the line end behind it. */
  lemma PendingEnd(left: nat, s: string)
    requires 0 < left <= |s|
    ensures if HasChunk(s[left..], 0) then Pending(left, s) == Prepend(s[..left], Pending(0, s[left..][2..]))
            else Pending(left, s).Fail? && Pending(left, s).error != EOF
  {
    hide Body;
    var t := s[left..];
    if left + 2 <= |s| {
      assert t[0..2] == s[left..left + 2] && t[2..] == s[left + 2..];
    }
  }

  /** The input ends where a chunk could start. */
  predicate CutBetweenChunks(s: string)
    decreases |s|
  {
    ChunkSizeConsumes(s);
    s == "" || match ChunkSize(s)
               case Fail(_) => false
               case Ok(n, t) => n > 0 && HasChunk(t, n) && CutBetweenChunks(t[n + 2..])
  }

  lemma ChunkSizeEOF(s: string)
    ensures ChunkSize(s) == Fail(EOF) <==> s == ""
    ensures ChunkSize(s) != Fail(BadTrailer)
  {
  }

  /** The buffered decoder reports the bare end of the input exactly then. */
  lemma {:induction false} CutIsEOF(s: string, dst: string)
    ensures Body(s, 0, dst) == Fail(EOF) <==> CutBetweenChunks(s)
    decreases |s|
  {
    hide ChunkSize, Body;
    ChunkSizeEOF(s);
    ChunkSizeConsumes(s);
    BodyCases(s, 0, dst);
    match ChunkSize(s)
    case Fail(_) =>
    case Ok(n, t) =>
      if n > 0 && HasChunk(t, n) {
        CutIsEOF(t[n + 2..], dst + t[..n]);
      }
  }

  /** What `ReadTrailer` does with the bytes behind the last chunk: how many it takes, and whether it
      fails other than by the end of the input. */
  type TrailerReader = string -> (nat, bool)

  class RequestStream {
    const reader: Stream
    const readTrailer: TrailerReader
    var totalBytesRead: nat
    var chunkLeft: nat

    ghost predicate Valid()
      reads this, reader
    {
      reader.Valid()
    }

    ghost function ToRead(): Outcome<string>
      requires Valid()
      reads this, reader
    {
      Pending(chunkLeft, reader.Rest())
    }

    /** What the trailer leaves of the input behind the last chunk. */
    function AfterTrailer(t: string): string {
      var k := readTrailer(t).0;
      if k <= |t| then t[k..] else ""
    }

    predicate TrailerFails(t: string) {
      readTrailer(t).1
    }

    constructor (r: Stream, readTrailer: TrailerReader)
      requires r.Valid()
      ensures Valid() && reader == r && this.readTrailer == readTrailer
      ensures totalBytesRead == 0 && chunkLeft == 0
    {
      reader, this.readTrailer := r, readTrailer;
      totalBytesRead, chunkLeft := 0, 0;
    }

    /** `Read` into `p[..len]`; `trailer` is what lies behind the last chunk when that is reached. */
    method Read(p: array<char>, len: nat) returns (n: nat, err: Option<Error>, ghost trailer: string)
      requires Valid() && len <= p.Length
      modifies this, reader, p
      ensures Valid() && n <= len && totalBytesRead == old(totalBytesRead) + n
      ensures err.None? ==> old(ToRead()) == Prepend(p[..n], ToRead()) && (len > 0 ==> n > 0)
      ensures err.None? && n > 0 ==> |reader.Rest()| < |old(reader.Rest())|
      ensures err == Some(EOF) ==> n == 0
      ensures err == Some(EOF) ==>
        if old(reader.Rest()) == "" then old(ToRead()) == Fail(EOF)
        else old(ToRead()) == Ok("", trailer) && !TrailerFails(trailer) && reader.Rest() == AfterTrailer(trailer)
      ensures err == Some(BadTrailer) ==>
        n == 0 && old(ToRead()) == Ok("", trailer) && TrailerFails(trailer) && reader.Rest() == AfterTrailer(trailer)
      ensures err.Some? && err.value != EOF && err.value != BadTrailer ==> old(ToRead()).Fail? && old(ToRead()).error != EOF
    {
      hide Body, ChunkSize, Pending;
      n, err, trailer := 0, None, "";
      if chunkLeft == 0 {
        StartChunk(reader.Rest());
        var chunkSize;
        chunkSize, err := ParseChunkSize(reader);
        if err.Some? {
          return;
        }
        if chunkSize == 0 {
          trailer := reader.Rest();
          err := Trailer();
          return;
        }
        chunkLeft := chunkSize;
      }
      n, err := ReadPart(p, len);
    }

    /** `ReadTrailer` and what `Read` makes of its outcome. */
    method Trailer() returns (err: Option<Error>)
      requires Valid()
      modifies reader
      ensures Valid() && reader.Rest() == AfterTrailer(old(reader.Rest()))
      ensures err == Some(if TrailerFails(old(reader.Rest())) then BadTrailer else EOF)
    {
      var t := reader.data[reader.pos..];
      var (k, bad) := readTrailer(t);
      reader.pos := if k <= |t| then reader.pos + k else |reader.data|;
      err := Some(if bad then BadTrailer else EOF);
    }

    /** The rest of `Read`: part of the current chunk, and its line end behind the last part. */
    method ReadPart(p: array<char>, len: nat) returns (n: nat, err: Option<Error>)
      requires Valid() && len <= p.Length && chunkLeft > 0
      modifies this, reader, p
      ensures Valid() && n <= len && totalBytesRead == old(totalBytesRead) + n
      ensures err.None? ==> old(ToRead()) == Prepend(p[..n], ToRead()) && (len > 0 ==> n > 0)
      ensures err.None? && n > 0 ==> |reader.Rest()| < |old(reader.Rest())|
      ensures err.Some? ==> err.value != EOF && err.value != BadTrailer && old(ToRead()).Fail? && old(ToRead()).error != EOF
    {
      hide Body, ChunkSize, Pending;
      var bytesToRead := if chunkLeft < len then chunkLeft else len;
      ghost var left, t := chunkLeft, reader.Rest();
      n := reader.Read(p, 0, bytesToRead);
      assert p[..n] == p[0..0 + n];
      totalBytesRead := totalBytesRead + n;
      chunkLeft := chunkLeft - n;
      if n == 0 && bytesToRead > 0 {
        NothingLeft(left);
        return n, Some(UnexpectedEOF);
      }
      if chunkLeft == 0 {
        PendingEnd(left, t);
        var ok := ReadCrLf(reader);
        return n, if ok then None else Some(BrokenChunk);
      }
      PendingPart(left, t, n);
      return n, None;
    }
  }

  lemma StartChunk(s: string)
    ensures match ChunkSize(s)
            case Fail(e) => Pending(0, s) == Fail(e) && (e == EOF <==> s == "") && e != BadTrailer
            case Ok(n, t) => |t| < |s| && Pending(0, s) == if n == 0 then Ok("", t) else Pending(n, t)
  {
    hide ChunkSize, Body;
    ChunkSizeEOF(s);
    ChunkSizeConsumes(s);
    match ChunkSize(s)
    case Fail(_) => BodyCases(s, 0, "");
    case Ok(n, t) => PendingChunk(s, n, t);
  }

  lemma NothingLeft(left: nat)
    requires left > 0
    ensures Pending(left, "") == Fail(UnexpectedEOF)
  {
  }

  /** Reads of any lengths up to the first error. On input the buffered decoder accepts they give the
      same body and reach the trailer at the same place. The stream ends well exactly when that
      decoder accepts and the trailer is fine, or the input is cut between chunks. */
  method ReadAll(rs: RequestStream, p: array<char>) returns (body: string, err: Error, ghost trailer: string)
    requires rs.Valid() && rs.chunkLeft == 0 && p.Length > 0
    modifies rs, rs.reader, p
    ensures rs.Valid() && rs.totalBytesRead == old(rs.totalBytesRead) + |body|
    ensures Body(old(rs.reader.Rest()), 0, "").Ok? ==>
      && Body(old(rs.reader.Rest()), 0, "") == Ok(body, trailer) && rs.reader.Rest() == rs.AfterTrailer(trailer)
      && err == if rs.TrailerFails(trailer) then BadTrailer else EOF
    ensures Body(old(rs.reader.Rest()), 0, "").Fail? ==> (err == EOF <==> CutBetweenChunks(old(rs.reader.Rest())))
  {
    hide Body, Pending, CutBetweenChunks;
    ghost var goal := rs.ToRead();
    FirstPending(rs.reader.Rest());
    CutIsEOF(rs.reader.Rest(), "");
    body := "";
    PrependNothing(rs.ToRead());
    while true
      invariant rs.Valid() && goal == Prepend(body, rs.ToRead())
      invariant rs.totalBytesRead == old(rs.totalBytesRead) + |body|
      decreases |rs.reader.Rest()|
    {
      var len: nat :| 1 <= len <= p.Length;
      var n, e;
      n, e, trailer := rs.Read(p, len);
      PrependMore(body, p[..n], rs.ToRead());
      if e.Some? {
        assert body + "" == body;
        return body + p[..n], e.value, trailer;
      }
      body := body + p[..n];
    }
  }

  lemma FirstPending(s: string)
    ensures Pending(0, s) == Body(s, 0, "")
  {
  }

  lemma PrependNothing(r: Outcome<string>)
    ensures Prepend("", r) == r
  {
    if r.Ok? {
      assert "" + r.value == r.value;
    }
  }

  lemma PrependMore(x: string, y: string, r: Outcome<string>)
    ensures Prepend(x, Prepend(y, r)) == Prepend(x + y, r)
  {
    if r.Ok? {
      assert x + (y + r.value) == x + y + r.value;
    }
  }

  /** A body cut after its first chunk: the stream ends as if it were complete. */
  lemma CutStreamEndsWell()
    ensures CutBetweenChunks(Chunk("a")) && Body(Chunk("a"), 0, "") == Fail(EOF)
  {
    hide ChunkSize, HexDigits, Body, Pow16;
    MaxHexInt();
    var t := "a" + CRLF;
    ChunkSizeOf(1, t);
    assert Chunk("a") == HexDigits(1) + CRLF + t;
    assert t[1..3] == CRLF && t[3..] == "";
    ChunkSizeConsumes(Chunk("a"));
    CutIsEOF(Chunk("a"), "");
  }
}
