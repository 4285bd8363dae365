/**
 * The request parser of internal/request/request.go: the request line
 * (section 3 of RFC 9112, version HTTP/1.1 only) and the state machine
 * that feeds a growing buffer through the request line, the header block
 * and a body of Content-Length bytes (section 8.6 of RFC 9110).
 */
module HttpRequest {

  import opened Wrappers
  import opened ByteStrings
  import opened HttpHeaders

  // ---------------------------------------------------------------------
  // parseRequestLine

  /** The request line; `verb` is Go's Method field (`method` is a keyword here). */
  datatype RequestLine = RequestLine(httpVersion: Bytes, requestTarget: Bytes, verb: Bytes)

  /** The errors `parse` returns. */
  datatype RequestError =
    | MalformedRequestLine        // the request line does not split into three parts on single spaces
    | UnsupportedHttpVersion      // the third part is not HTTP/1.1
    | BadHeader(e: HeaderError)   // Headers.Parse refused a field line
    | RequestInErrorState         // parse was called again after an error
    | InvalidContentLength        // a negative Content-Length (see BodyStep)

  /** What parseRequestLine returns. */
  datatype LineResult =
    | NeedMore                                  // no CRLF yet: (nil, 0, nil)
    | Malformed(err: RequestError)              // (nil, 0, err)
    | Complete(line: RequestLine, read: nat)    // the line and the bytes it took, CRLF included

  const HttpName: Bytes := Ascii("HTTP")
  const Version11: Bytes := Ascii("1.1")

  /** The only version the parser accepts, as it is written on the request line. */
  const Http11: Bytes := HttpName + [SLASH] + Version11

  /**
   * parseRequestLine: the line before the first CRLF must split on single
   * spaces into method, target and version, and the version on "/" into
   * exactly "HTTP" and "1.1".
   */
  function ParseRequestLine(b: Bytes): (r: LineResult)
    ensures r.Complete? ==> 2 <= r.read <= |b|
  {
    match IndexCrlf(b)
    case None => NeedMore
    case Some(idx) =>
      var parts := Split(b[..idx], SP);
      if |parts| != 3 then Malformed(MalformedRequestLine)
      else
        var httpParts := Split(parts[2], SLASH);
        if |httpParts| != 2 || httpParts[0] != HttpName || httpParts[1] != Version11 then
          Malformed(UnsupportedHttpVersion)
        else
          Complete(RequestLine(httpParts[1], parts[1], parts[0]), idx + |CRLF|)
  }

  // ---------------------------------------------------------------------
  // The request and its states

  datatype State = StateInit | StateHeaders | StateBody | StateDone | StateError

  /** How far along a state is: Init, Headers, Body, Done; Error is reached from any of the first three. */
  function Rank(st: State): nat {
    match st
    case StateInit => 0
    case StateHeaders => 1
    case StateBody => 2
    case StateDone => 3
    case StateError => 4
  }

  /** The contents of a Request: what the Request class holds, as a value. */
  datatype Snapshot = Snapshot(requestLine: RequestLine, fields: Fields, body: Bytes, state: State)

  /** newRequest: state Init, an empty collection of headers, no body. */
  const NewRequest: Snapshot := Snapshot(RequestLine([], [], []), map[], [], StateInit)

  /** GetInt("content-length", 0) on the request's headers. */
  function ContentLength(s: Snapshot): int {
    GetIntOf(s.fields, ContentLengthName, 0)
  }

  function Min(a: int, b: int): int {
    if a <= b then a else b
  }

  // ---------------------------------------------------------------------
  // One turn of parse's loop

  /** What one turn of parse's loop does: stop (returning, or breaking out of the loop), or consume `n` bytes and go on. */
  datatype Step =
    | Stop(s: Snapshot, err: Option<RequestError>)
    | Advance(s: Snapshot, n: nat)

  /** The Init case: parse the request line and move to Headers. */
  function InitStep(s: Snapshot, cur: Bytes): (r: Step)
    ensures r.Advance? ==> 0 < r.n <= |cur|
  {
    match ParseRequestLine(cur)
    case NeedMore => Stop(s, None)
    case Malformed(e) => Stop(s.(state := StateError), Some(e))
    case Complete(rl, n) => Advance(s.(requestLine := rl, state := StateHeaders), n)
  }

  /**
   * The Headers case: Headers.Parse on what is left; the lines it Set stay
   * Set even when it fails; the blank line moves to Body.
   */
  function HeadersStep(s: Snapshot, cur: Bytes): (r: Step)
    ensures r.Advance? ==> 0 < r.n <= |cur|
  {
    var p := ParseFields(cur);
    var fields := SetAll(s.fields, p.lines);
    if p.err.Some? then Stop(s.(fields := fields, state := StateError), Some(BadHeader(p.err.value)))
    else if p.read == 0 then Stop(s.(fields := fields), None)
    else Advance(s.(fields := fields, state := if p.done then StateBody else StateHeaders), p.read)
  }

  /**
   * The Body case: a Content-Length of 0 (or absent, or not a number) ends
   * the request at once; otherwise take what is available up to the
   * Content-Length, and move to Done once the body has that length. A
   * negative Content-Length is refused (see the Findings of README.md for
   * what the source does there). A body already longer than the
   * Content-Length, which no run from NewRequest reaches, takes nothing.
   */
  function BodyStep(s: Snapshot, cur: Bytes): (r: Step)
    ensures r.Advance? ==> 0 < r.n <= |cur|
  {
    var contentLength := ContentLength(s);
    if contentLength == 0 then Stop(s.(state := StateDone), None)
    else if contentLength < 0 then Stop(s.(state := StateError), Some(InvalidContentLength))
    else
      var take := Min(contentLength - |s.body|, |cur|);
      if take <= 0 then Stop(s, None)
      else
        var body := s.body + cur[..take];
        Advance(s.(body := body, state := if |body| == contentLength then StateDone else StateBody), take)
  }

  /** One turn of parse's loop on the bytes not consumed yet. */
  function StepOf(s: Snapshot, cur: Bytes): (r: Step)
    ensures r.Advance? ==> 0 < r.n <= |cur|
  {
    match s.state
    case StateError => Stop(s, Some(RequestInErrorState))
    case StateInit => InitStep(s, cur)
    case StateHeaders => HeadersStep(s, cur)
    case StateBody => BodyStep(s, cur)
    case StateDone => Stop(s, None)
  }

  /** What parse returns, with the request it leaves behind. */
  datatype Fed = Fed(s: Snapshot, read: nat, err: Option<RequestError>)

  /*
   * parse's loop from offset `read` of `data` on, turn after turn until one
   * stops: an error returns 0 bytes read, a break the bytes read so far.
   * The loop is written one state at a time (FeedFrom dispatches on the
   * state, FeedInit, FeedHeaders and FeedBody take that state's turn, and
   * Resume goes on after it), so that each turn is looked at only where the
   * state is known.
   */

  function FeedFrom(s: Snapshot, data: Bytes, read: nat): (r: Fed)
    requires read <= |data|
    ensures r.err.None? ==> read <= r.read <= |data|
    ensures r.err.Some? ==> r.read == 0
    decreases |data| - read, 2
  {
    match s.state
    case StateError => Fed(s, 0, Some(RequestInErrorState))
    case StateInit => FeedInit(s, data, read)
    case StateHeaders => FeedHeaders(s, data, read)
    case StateBody => FeedBody(s, data, read)
    case StateDone => Fed(s, read, None)
  }

  function FeedInit(s: Snapshot, data: Bytes, read: nat): (r: Fed)
    requires read <= |data|
    ensures r.err.None? ==> read <= r.read <= |data|
    ensures r.err.Some? ==> r.read == 0
    decreases |data| - read, 1
  {
    Resume(InitStep(s, data[read..]), data, read)
  }

  function FeedHeaders(s: Snapshot, data: Bytes, read: nat): (r: Fed)
    requires read <= |data|
    ensures r.err.None? ==> read <= r.read <= |data|
    ensures r.err.Some? ==> r.read == 0
    decreases |data| - read, 1
  {
    Resume(HeadersStep(s, data[read..]), data, read)
  }

  function FeedBody(s: Snapshot, data: Bytes, read: nat): (r: Fed)
    requires read <= |data|
    ensures r.err.None? ==> read <= r.read <= |data|
    ensures r.err.Some? ==> r.read == 0
    decreases |data| - read, 1
  {
    Resume(BodyStep(s, data[read..]), data, read)
  }

  /** After the turn `t` taken at offset `read`: stop there, or go on from the bytes after it. */
  function Resume(t: Step, data: Bytes, read: nat): (r: Fed)
    requires read <= |data|
    requires t.Advance? ==> 0 < t.n <= |data| - read
    ensures r.err.None? ==> read <= r.read <= |data|
    ensures r.err.Some? ==> r.read == 0
    decreases |data| - read, 0
  {
    match t
    case Stop(s', err) => Fed(s', if err.Some? then 0 else read, err)
    case Advance(s', n) => FeedFrom(s', data, read + n)
  }

  /** Request.parse on `data`, from the request `s`. */
  function Feed(s: Snapshot, data: Bytes): (r: Fed)
    ensures r.read <= |data|
  {
    FeedFrom(s, data, 0)
  }

  /** The loop is its first turn, then what follows it. */
  lemma FeedFromStep(s: Snapshot, data: Bytes, read: nat)
    requires read <= |data|
    ensures FeedFrom(s, data, read) == Resume(StepOf(s, data[read..]), data, read)
  {
  }

  /** How one turn of parse's loop ends: go on after `n` bytes, break out of the loop, or return an error. */
  datatype Outcome = Continue(n: nat) | Break | Fail(e: RequestError)

  /** The turn that ends with `o` and leaves the request `s`. */
  function StepAfter(s: Snapshot, o: Outcome): Step {
    match o
    case Continue(n) => Advance(s, n)
    case Break => Stop(s, None)
    case Fail(e) => Stop(s, Some(e))
  }

  /**
   * The loop from `s` at offset `read` is what follows a turn that ends
   * with `o` and leaves the request `s'`: the loop from `s'` after the `n`
   * bytes consumed, or the end of the loop there.
   */
  ghost predicate TurnLeadsTo(s: Snapshot, data: Bytes, read: nat, s': Snapshot, o: Outcome)
    requires read <= |data|
  {
    match o
    case Continue(n) => 0 < n && read + n <= |data| && FeedFrom(s, data, read) == FeedFrom(s', data, read + n)
    case Break => FeedFrom(s, data, read) == Fed(s', read, None)
    case Fail(e) => FeedFrom(s, data, read) == Fed(s', 0, Some(e))
  }

  /** Each turn of the loop is followed by the rest of the loop. */
  lemma FeedFromTurn(s: Snapshot, data: Bytes, read: nat, s': Snapshot, o: Outcome)
    requires read <= |data| && StepOf(s, data[read..]) == StepAfter(s', o)
    ensures TurnLeadsTo(s, data, read, s', o)
  {
    FeedFromStep(s, data, read);
  }

  // ---------------------------------------------------------------------
  // The request object

  class Request {
    var requestLine: RequestLine
    var headers: Headers
    var body: Bytes
    var state: State

    /** newRequest. */
    constructor ()
      ensures Value() == NewRequest
      ensures fresh(headers)
    {
      requestLine := RequestLine([], [], []);
      headers := new Headers();
      body := [];
      state := StateInit;
    }

    function Value(): Snapshot
      reads this, headers
    {
      Snapshot(requestLine, headers.fields, body, state)
    }

    /** done: the request has reached Done. */
    function Done(): (r: bool)
      reads this
    {
      state == StateDone
    }

    /** The Init case of parse's switch. */
    method InitTurn(data: Bytes, read: nat) returns (o: Outcome)
      requires state == StateInit && read <= |data|
      modifies this
      ensures headers == old(headers)
      ensures InitStep(old(Value()), data[read..]) == StepAfter(Value(), o)
      ensures TurnLeadsTo(old(Value()), data, read, Value(), o)
    {
      ghost var s := Value();
      var rl := ParseRequestLine(data[read..]);
      if rl.Malformed? {
        state := StateError;
        o := Fail(rl.err);
      } else if rl.NeedMore? {
        o := Break;
      } else {
        requestLine := rl.line;
        state := StateHeaders;
        o := Continue(rl.read);
      }
      FeedFromTurn(s, data, read, Value(), o);
    }

    /** The Headers case of parse's switch. */
    method HeadersTurn(data: Bytes, read: nat) returns (o: Outcome)
      requires state == StateHeaders && read <= |data|
      modifies this, headers
      ensures headers == old(headers)
      ensures HeadersStep(old(Value()), data[read..]) == StepAfter(Value(), o)
      ensures TurnLeadsTo(old(Value()), data, read, Value(), o)
    {
      ghost var s := Value();
      var n, done, e := headers.Parse(data[read..]);
      if e.Some? {
        state := StateError;
        o := Fail(BadHeader(e.value));
      } else if n == 0 {
        o := Break;
      } else {
        if done {
          state := StateBody;
        }
        o := Continue(n);
      }
      FeedFromTurn(s, data, read, Value(), o);
    }

    /** The Body case of parse's switch. */
    method BodyTurn(data: Bytes, read: nat) returns (o: Outcome)
      requires state == StateBody && read <= |data|
      modifies this
      ensures headers == old(headers)
      ensures BodyStep(old(Value()), data[read..]) == StepAfter(Value(), o)
      ensures TurnLeadsTo(old(Value()), data, read, Value(), o)
    {
      ghost var s := Value();
      var cur := data[read..];
      var bodyLength := headers.GetInt(ContentLengthName, 0);
      if bodyLength == 0 {
        state := StateDone;
        o := Break;
      } else if bodyLength < 0 {
        state := StateError;
        o := Fail(InvalidContentLength);
      } else {
        var remaining := Min(bodyLength - |body|, |cur|);
        if remaining <= 0 {
          o := Break;
        } else {
          body := body + cur[..remaining];
          if |body| == bodyLength {
            state := StateDone;
          }
          o := Continue(remaining);
        }
      }
      FeedFromTurn(s, data, read, Value(), o);
    }

    /** One turn of parse's loop: the case of its switch for the current state. */
    method Turn(data: Bytes, read: nat) returns (o: Outcome)
      requires read <= |data|
      modifies this, headers
      ensures headers == old(headers)
      ensures StepOf(old(Value()), data[read..]) == StepAfter(Value(), o)
      ensures TurnLeadsTo(old(Value()), data, read, Value(), o)
    {
      match state
      case StateError =>
        o := Fail(RequestInErrorState);
      case StateInit =>
        o := InitTurn(data, read);
      case StateHeaders =>
        o := HeadersTurn(data, read);
      case StateBody =>
        o := BodyTurn(data, read);
      case StateDone =>
        o := Break;
    }

    /** parse: feed `data` through the state machine; the bytes consumed, or 0 and an error. */
    method Parse(data: Bytes) returns (read: nat, err: Option<RequestError>)
      modifies this, headers
      ensures headers == old(headers)
      ensures Feed(old(Value()), data) == Fed(Value(), read, err)
    {
      read, err := 0, None;
      while true
        invariant read <= |data|
        invariant headers == old(headers)
        invariant Feed(old(Value()), data) == FeedFrom(Value(), data, read)
        decreases |data| - read
      {
        var o := Turn(data, read);
        match o
        case Fail(e) =>
          return 0, Some(e);
        case Break =>
          break;
        case Continue(n) =>
          read := read + n;
      }
    }
  }
}
