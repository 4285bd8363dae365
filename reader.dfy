/**
 * RequestFromReader (internal/request/request.go) over the chunkReader test
 * double (internal/request/request_test.go): a 1024-byte scratch array is
 * filled by reads, handed to Request.Parse, and compacted by moving the
 * bytes parse did not consume to its front.
 */
module RequestReader {

  import opened Wrappers
  import opened ByteStrings
  import opened HttpHeaders
  import opened HttpRequest
  import opened RequestProperties

  /** The size of RequestFromReader's scratch buffer. */
  const BufferSize: nat := 1024

  /**
   * chunkReader: hands out `data` from `pos` on, at most `numBytesPerRead`
   * bytes per Read, and io.EOF once everything has been handed out.
   */
  class ChunkReader {
    const data: Bytes
    const numBytesPerRead: int
    var pos: nat

    predicate Valid()
      reads this
    {
      numBytesPerRead >= 1 && pos <= |data|
    }

    constructor (data: Bytes, numBytesPerRead: int)
      requires numBytesPerRead >= 1
      ensures Valid()
      ensures this.data == data && this.numBytesPerRead == numBytesPerRead && pos == 0
    {
      this.data := data;
      this.numBytesPerRead := numBytesPerRead;
      pos := 0;
    }

    /**
     * Read into p[off..]: io.EOF (`eof`) once `pos` has reached the end;
     * otherwise copy min(numBytesPerRead, bytes left, room in p) bytes and
     * advance `pos` by as many. Nothing else of `p` changes.
     */
    method Read(p: array<byte>, off: nat) returns (n: nat, eof: bool)
      requires Valid() && off <= p.Length
      modifies this, p
      ensures Valid()
      ensures old(pos) == |data| ==> eof && n == 0 && pos == old(pos) && p[..] == old(p[..])
      ensures old(pos) < |data| ==>
        && !eof
        && n == Min(Min(old(pos) + numBytesPerRead, |data|) - old(pos), p.Length - off)
        && pos == old(pos) + n
        && p[..off + n] == old(p[..off]) + data[old(pos)..pos]
        && p[off + n..] == old(p[off + n..])
    {
      if pos >= |data| {
        return 0, true;
      }
      var endIndex := Min(pos + numBytesPerRead, |data|);
      n := Min(endIndex - pos, p.Length - off);
      var i := 0;
      while i < n
        modifies p
        invariant 0 <= i <= n
        invariant p[..off + i] == old(p[..off]) + data[pos..pos + i]
        invariant p[off + i..] == old(p[off + i..])
      {
        p[off + i] := data[pos + i];
        i := i + 1;
      }
      pos := pos + n;
      eof := false;
    }
  }

  /**
   * copy(buf, buf[from:to]): moves buf[from..to] to the front, front to
   * back, so the overlap reads each byte before it is overwritten.
   */
  method ShiftLeft(buf: array<byte>, from: nat, to: nat)
    requires from <= to <= buf.Length
    modifies buf
    ensures buf[..to - from] == old(buf[from..to])
    ensures buf[to - from..] == old(buf[to - from..])
  {
    var i := 0;
    while i < to - from
      invariant 0 <= i <= to - from
      invariant forall j | 0 <= j < i :: buf[j] == old(buf[from + j])
      invariant forall j | i <= j < buf.Length :: buf[j] == old(buf[j])
    {
      buf[i] := buf[from + i];
      i := i + 1;
    }
  }

  /** Why RequestFromReader gave no request. */
  datatype ReadFailure =
    | ReadEnded                    // io.EOF before the request was Done
    | ParseFailed(e: RequestError)     // parse returned an error
    | Stalled                      // a full buffer that parse cannot consume: the source loops forever

  /**
   * What reading all of `d` gives: the request parse reaches on it when it
   * is Done, the error parse returns on it, or the end of the stream.
   */
  function ReadAll(d: Bytes): (r: Result<Snapshot, ReadFailure>)
    ensures r.Ok? ==> r.value.state == StateDone
    ensures r.Err? ==> r.error != Stalled
  {
    var f := Feed(NewRequest, d);
    if f.err.Some? then Err(ParseFailed(f.err.value))
    else if f.s.state == StateDone then Ok(f.s)
    else Err(ReadEnded)
  }

  /**
   * What the loop keeps after every turn: the bytes `got` read so far parse,
   * in one go, to the request `s` without error, and `pending` is what
   * that leaves unconsumed.
   */
  predicate Tracks(got: Bytes, s: Snapshot, pending: Bytes) {
    var f := Feed(NewRequest, got);
    f.err.None? && s == f.s && pending == got[f.read..]
  }

  /**
   * The loop spins after reading the first `p` bytes of `d`: the request
   * is not Done, a full buffer is unconsumed, and parse on it consumes
   * nothing and changes nothing.
   */
  predicate StallsAt(d: Bytes, p: nat)
    requires p <= |d|
  {
    var f := Feed(NewRequest, d[..p]);
    && f.err.None? && f.s.state != StateDone
    && p - f.read == BufferSize
    && Feed(f.s, d[..p][f.read..]) == Fed(f.s, 0, None)
  }

  /**
   * One turn of the loop: parse took `r` bytes of the pending bytes and the
   * chunk `data[mid..end]` just read, without error. What it leaves is what
   * parse on everything read so far leaves.
   */
  lemma TracksTurn(data: Bytes, start: nat, mid: nat, end: nat, s: Snapshot, pending: Bytes, s': Snapshot, r: nat)
    requires start <= mid <= end <= |data|
    requires Tracks(data[start..mid], s, pending)
    requires Feed(s, pending + data[mid..end]) == Fed(s', r, None)
    ensures r <= |pending + data[mid..end]|
    ensures Tracks(data[start..end], s', (pending + data[mid..end])[r..])
  {
    var got, c := data[start..mid], data[mid..end];
    assert got + c == data[start..end];
    var f := Feed(NewRequest, got);
    FeedAppend(NewRequest, got, c);
    DropAppend(got, c, f.read);
    DropDrop(got + c, f.read, r);
  }

  /** An error from parse in a turn is the error parse gives on all that has been read. */
  lemma RefusalTurn(data: Bytes, start: nat, mid: nat, end: nat, s: Snapshot, pending: Bytes, e: RequestError)
    requires start <= mid <= end <= |data|
    requires Tracks(data[start..mid], s, pending)
    requires Feed(s, pending + data[mid..end]).err == Some(e)
    ensures ReadAll(data[start..]) == Err(ParseFailed(e))
  {
    var got, c, d := data[start..mid], data[mid..end], data[start..];
    assert got + c == d[..end - start];
    FeedAppend(NewRequest, got, c);
    assert d[..end - start] + d[end - start..] == d;
    FeedSettled(NewRequest, d[..end - start], d[end - start..]);
  }

  /** When the loop stops at the end of the stream, or on Done, ReadAll says the same. */
  lemma TracksSettles(data: Bytes, start: nat, end: nat, s: Snapshot, pending: Bytes)
    requires start <= end <= |data| && Tracks(data[start..end], s, pending)
    requires s.state == StateDone || end == |data|
    ensures ReadAll(data[start..]) == if s.state == StateDone then Ok(s) else Err(ReadEnded)
  {
    var d, p := data[start..], end - start;
    assert d[..p] == data[start..end];
    assert d[..p] + d[p..] == d;
    if s.state == StateDone {
      FeedSettled(NewRequest, d[..p], d[p..]);
    } else {
      assert d[..p] == d;
    }
  }

  /**
   * A full buffer of pending bytes while the request is not Done: parse
   * takes nothing of it and changes nothing, so the loop spins; this needs
   * more than BufferSize bytes of stream.
   */
  lemma StallTurn(data: Bytes, start: nat, end: nat, s: Snapshot, pending: Bytes)
    requires start <= end <= |data| && Tracks(data[start..end], s, pending)
    requires s.state != StateDone && |pending| == BufferSize
    ensures Feed(s, pending) == Fed(s, 0, None)
    ensures BufferSize <= end - start
    ensures StallsAt(data[start..], end - start)
  {
    var d, p := data[start..], end - start;
    assert d[..p] == data[start..end];
    FeedAgain(NewRequest, d[..p]);
  }

  /**
   * A stream holding a request line, a field block and a body: it is read
   * as that request once Content-Length bytes of body have arrived, it
   * ends too early when fewer have, and it is refused when Content-Length
   * is negative.
   */
  lemma ReadWholeRequest(m: Bytes, t: Bytes, fs: seq<FieldLine>, body: Bytes)
    requires SP !in m && SP !in t && CR !in m && CR !in t
    requires AllWellFormed(fs)
    ensures var fields := SetAll(map[], fs);
      var cl := GetIntOf(fields, ContentLengthName, 0);
      var head := m + [SP] + t + [SP] + Http11 + CRLF + FieldBlock(fs) + CRLF;
      ReadAll(head + body) ==
        if cl < 0 then Err(ParseFailed(InvalidContentLength))
        else if cl <= |body| then Ok(Snapshot(RequestLine(Version11, t, m), fields, body[..cl], StateDone))
        else Err(ReadEnded)
  {
    FeedWholeRequest(m, t, fs, body);
  }

  /**
   * RequestFromReader: read into the free end of the buffer, parse all
   * that is buffered, move what parse did not consume to the front, until
   * the request is Done. Whatever the chunk size, it ends as ReadAll on
   * everything the reader had, unless the buffer fills with a line parse
   * cannot finish, where the source loops forever; that needs more than
   * BufferSize bytes.
   */
  method RequestFromReader(reader: ChunkReader) returns (rq: Request?, failure: Option<ReadFailure>)
    requires reader.Valid()
    modifies reader
    ensures reader.Valid() && old(reader.pos) <= reader.pos
    ensures failure != Some(Stalled) ==>
      && (rq != null <==> failure.None?)
      && ReadAll(reader.data[old(reader.pos)..]) == if rq != null then Ok(rq.Value()) else Err(failure.value)
    ensures failure == Some(Stalled) ==>
      && rq == null && reader.pos < |reader.data|
      && StallsAt(reader.data[old(reader.pos)..], reader.pos - old(reader.pos))
    ensures failure == Some(Stalled) ==> BufferSize < |reader.data| - old(reader.pos)
    ensures rq != null ==> fresh(rq)
  {
    var request := new Request();
    var buf := new byte[BufferSize];
    var bufLen := 0;
    ghost var start := reader.pos;
    assert reader.data[start..start] == [];
    while !request.Done()
      invariant reader.Valid() && start <= reader.pos
      invariant fresh(request) && fresh(request.headers)
      invariant buf.Length == BufferSize && 0 <= bufLen <= BufferSize
      invariant Tracks(reader.data[start..reader.pos], request.Value(), buf[..bufLen])
      decreases |reader.data| - reader.pos
    {
      ghost var mid, s, pending := reader.pos, request.Value(), buf[..bufLen];
      var n, eof := reader.Read(buf, bufLen);
      if eof {
        TracksSettles(reader.data, start, mid, s, pending);
        return null, Some(ReadEnded);
      }
      bufLen := bufLen + n;
      var readN, err := request.Parse(buf[..bufLen]);
      if err.Some? {
        RefusalTurn(reader.data, start, mid, reader.pos, s, pending, err.value);
        return null, Some(ParseFailed(err.value));
      }
      TracksTurn(reader.data, start, mid, reader.pos, s, pending, request.Value(), readN);
      if n == 0 {
        StallTurn(reader.data, start, mid, s, pending);
        return null, Some(Stalled);
      }
      ShiftLeft(buf, readN, bufLen);
      bufLen := bufLen - readN;
    }
    TracksSettles(reader.data, start, reader.pos, request.Value(), buf[..bufLen]);
    return request, None;
  }
}
