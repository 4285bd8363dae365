/**
 * What internal/request/request.go promises, proved about the model in
 * HttpRequest: the request line's round trip and its verdicts, the
 * states of the parser, the body it collects, and re-entrancy: parsing
 * in pieces gives what parsing in one go gives.
 */
module RequestProperties {

  import opened Wrappers
  import opened ByteStrings
  import opened HttpHeaders
  import opened HttpRequest

  // ---------------------------------------------------------------------
  // parseRequestLine

  /** "Need more data" exactly when no CRLF has arrived yet. */
  lemma RequestLineNeedsCrlf(b: Bytes)
    ensures ParseRequestLine(b).NeedMore? <==> forall j :: !CrlfAt(b, j)
  {
    IndexCrlfFirst(b);
  }

  /** The version on the request line is accepted exactly when it is HTTP/1.1. */
  lemma VersionIsHttp11(p: Bytes)
    ensures (var v := Split(p, SLASH); |v| == 2 && v[0] == HttpName && v[1] == Version11) <==> p == Http11
  {
    assert SLASH !in HttpName && SLASH !in Version11;
    if p == Http11 {
      SplitJoin([HttpName, Version11], SLASH);
      JoinHead([HttpName, Version11], SLASH);
      assert [HttpName, Version11][1..] == [Version11];
    } else {
      var v := Split(p, SLASH);
      JoinHead(v, SLASH);
      if |v| == 2 {
        assert v[1..] == [v[1]];
      }
    }
  }

  /** The join of three parts on single spaces. */
  lemma JoinThree(p0: Bytes, p1: Bytes, p2: Bytes)
    ensures Join([p0, p1, p2], SP) == p0 + [SP] + p1 + [SP] + p2
  {
    var parts := [p0, p1, p2];
    JoinHead(parts, SP);
    assert parts[1..] == [p1, p2];
    JoinHead([p1, p2], SP);
    assert [p1, p2][1..] == [p2];
  }

  /**
   * A method and a target without spaces or CRs, then HTTP/1.1 and CRLF:
   * the line parses back to them, version "1.1", and consumes the line with
   * its CRLF and nothing after it. The method may be empty.
   */
  lemma RequestLineRoundTrip(m: Bytes, t: Bytes, rest: Bytes)
    requires SP !in m && SP !in t && CR !in m && CR !in t
    ensures var line := m + [SP] + t + [SP] + Http11;
      ParseRequestLine(line + CRLF + rest) == Complete(RequestLine(Version11, t, m), |line| + 2)
  {
    var line := m + [SP] + t + [SP] + Http11;
    var b := line + CRLF + rest;
    assert CR !in Http11 && SP !in Http11;
    assert forall j | 0 <= j < |line| :: line[j] != CR;
    IndexCrlfIs(b, |line|);
    assert b[..|line|] == line;
    JoinThree(m, t, Http11);
    SplitJoin([m, t, Http11], SP);
    VersionIsHttp11(Http11);
  }

  /**
   * Conversely, a request line that parses is a method and a target without
   * spaces, then HTTP/1.1, then the first CRLF of the input, and that is all
   * it consumes.
   */
  lemma RequestLineComplete(b: Bytes)
    requires ParseRequestLine(b).Complete?
    ensures var r := ParseRequestLine(b); var rl := r.line;
      && rl.httpVersion == Version11
      && SP !in rl.verb && SP !in rl.requestTarget
      && b[..r.read] == rl.verb + [SP] + rl.requestTarget + [SP] + Http11 + CRLF
      && forall j | 0 <= j < r.read - 2 :: !CrlfAt(b, j)
  {
    IndexCrlfFirst(b);
    var i := IndexCrlf(b).value;
    var parts := Split(b[..i], SP);
    assert parts == [parts[0], parts[1], parts[2]];
    VersionIsHttp11(parts[2]);
    assert parts[0] in parts && parts[1] in parts;
    JoinThree(parts[0], parts[1], parts[2]);
    assert b[..i + 2] == b[..i] + CRLF;
  }

  /**
   * Once the CRLF is in, the line is refused as malformed exactly when it
   * does not hold exactly two spaces, and for its version exactly when it
   * does but its third part is not HTTP/1.1; otherwise it parses.
   */
  lemma RequestLineVerdicts(b: Bytes, i: nat)
    requires IndexCrlf(b) == Some(i)
    ensures ParseRequestLine(b) == Malformed(MalformedRequestLine) <==> multiset(b[..i])[SP] != 2
    ensures ParseRequestLine(b) == Malformed(UnsupportedHttpVersion) <==>
      multiset(b[..i])[SP] == 2 && Split(b[..i], SP)[2] != Http11
    ensures ParseRequestLine(b).Complete? <==>
      multiset(b[..i])[SP] == 2 && Split(b[..i], SP)[2] == Http11
  {
    SplitCount(b[..i], SP);
    var parts := Split(b[..i], SP);
    if |parts| == 3 {
      VersionIsHttp11(parts[2]);
    }
  }

  /** A request line, once complete, is not changed by the bytes that arrive after it. */
  lemma RequestLineAppend(a: Bytes, b: Bytes)
    requires !ParseRequestLine(a).NeedMore?
    ensures ParseRequestLine(a + b) == ParseRequestLine(a)
  {
    IndexCrlfAppend(a, b);
    var i := IndexCrlf(a).value;
    assert (a + b)[..i] == a[..i];
  }

  // ---------------------------------------------------------------------
  // The states

  /** In Error, parse returns (0, error) and changes nothing. */
  lemma ErrorIsAbsorbing(s: Snapshot, data: Bytes)
    requires s.state == StateError
    ensures Feed(s, data) == Fed(s, 0, Some(RequestInErrorState))
  {
  }

  /** In Done, parse consumes nothing, returns no error and changes nothing. */
  lemma DoneIsKept(s: Snapshot, data: Bytes)
    requires s.state == StateDone
    ensures Feed(s, data) == Fed(s, 0, None)
  {
  }

  /** What a single turn keeps: the state only moves forward, and is Error exactly when the turn fails. */
  predicate Forward(s: Snapshot, s': Snapshot) {
    && Rank(s.state) <= Rank(s'.state)
    && (s.state != StateInit ==> s'.requestLine == s.requestLine)
    && (Rank(s.state) >= Rank(StateBody) ==> s'.fields == s.fields)
    && s.body <= s'.body
  }

  lemma StepForward(s: Snapshot, cur: Bytes)
    ensures Forward(s, StepOf(s, cur).s)
    ensures StepOf(s, cur).Stop? ==> (StepOf(s, cur).err.Some? <==> StepOf(s, cur).s.state == StateError)
    ensures StepOf(s, cur).Advance? ==> StepOf(s, cur).s.state != StateError
  {
  }

  /**
   * parse only moves the state forward (Init, Headers, Body, Done, or to
   * Error), sets the request line only in Init and the headers only before
   * the body, only appends to the body, and fails exactly when it leaves
   * the request in Error.
   */
  lemma ForwardTrans(s: Snapshot, s': Snapshot, s'': Snapshot)
    requires Forward(s, s') && Forward(s', s'')
    ensures Forward(s, s'')
  {
  }

  lemma {:induction false} FeedFromForward(s: Snapshot, data: Bytes, read: nat)
    requires read <= |data|
    ensures Forward(s, FeedFrom(s, data, read).s)
    ensures FeedFrom(s, data, read).err.Some? <==> FeedFrom(s, data, read).s.state == StateError
    decreases |data| - read
  {
    var t := TakeTurn(s, data, read);
    if t.Advance? {
      FeedFromForward(t.s, data, read + t.n);
      ForwardTrans(s, t.s, FeedFrom(t.s, data, read + t.n).s);
    }
  }

  lemma FeedForward(s: Snapshot, data: Bytes)
    ensures Forward(s, Feed(s, data).s)
    ensures Feed(s, data).err.Some? <==> Feed(s, data).s.state == StateError
  {
    FeedFromForward(s, data, 0);
  }

  /**
   * The body against Content-Length: empty before the body state and in
   * Error, shorter than Content-Length while it is collected, and exactly
   * that long once Done.
   */
  predicate BodyInv(s: Snapshot) {
    match s.state
    case StateInit => s.body == []
    case StateHeaders => s.body == []
    case StateBody => s.body == [] || |s.body| < ContentLength(s)
    case StateDone => |s.body| == ContentLength(s)
    case StateError => s.body == []
  }

  lemma NewRequestBodyInv()
    ensures BodyInv(NewRequest)
  {
  }

  lemma StepBodyInv(s: Snapshot, cur: Bytes)
    requires BodyInv(s)
    ensures BodyInv(StepOf(s, cur).s)
  {
    if s.state == StateBody {
      assert ContentLength(BodyStep(s, cur).s) == ContentLength(s);
    }
  }

  lemma {:induction false} FeedFromBodyInv(s: Snapshot, data: Bytes, read: nat)
    requires read <= |data| && BodyInv(s)
    ensures BodyInv(FeedFrom(s, data, read).s)
    decreases |data| - read
  {
    var t := TakeTurn(s, data, read);
    if t.Advance? {
      FeedFromBodyInv(t.s, data, read + t.n);
    }
  }

  /** What every turn keeps, from the two lemmas above. */
  predicate TurnKeeps(s: Snapshot, t: Step) {
    && Forward(s, t.s)
    && (t.Stop? ==> (t.err.Some? <==> t.s.state == StateError))
    && (t.Advance? ==> t.s.state != StateError)
    && (BodyInv(s) ==> BodyInv(t.s))
  }

  /**
   * The turn the loop takes at `read`, as a value: the loop is that turn
   * followed by the rest, and the turn keeps what every turn keeps.
   */
  lemma TakeTurn(s: Snapshot, data: Bytes, read: nat) returns (t: Step)
    requires read <= |data|
    ensures t.Advance? ==> 0 < t.n <= |data| - read
    ensures FeedFrom(s, data, read) == Resume(t, data, read)
    ensures TurnKeeps(s, t)
  {
    t := StepOf(s, data[read..]);
    FeedFromStep(s, data, read);
    StepForward(s, data[read..]);
    if BodyInv(s) {
      StepBodyInv(s, data[read..]);
    }
  }

  /** parse keeps the body within Content-Length, from any request that is. */
  lemma FeedBodyInv(s: Snapshot, data: Bytes)
    requires BodyInv(s)
    ensures BodyInv(Feed(s, data).s)
  {
    FeedFromBodyInv(s, data, 0);
  }

  /**
   * In Body with a positive Content-Length, parse appends exactly
   * min(Content-Length - len(Body), len(data)) bytes, consumes them, and
   * reaches Done exactly when the body has reached Content-Length.
   */
  lemma BodyTakes(s: Snapshot, data: Bytes)
    requires s.state == StateBody && BodyInv(s) && ContentLength(s) > 0
    ensures var k := Min(ContentLength(s) - |s.body|, |data|);
      Feed(s, data) == Fed(s.(body := s.body + data[..k],
                              state := if |s.body| + k == ContentLength(s) then StateDone else StateBody),
                           k, None)
  {
    var cl := ContentLength(s);
    var k := Min(cl - |s.body|, |data|);
    FeedFromStep(s, data, 0);
    assert data[0..] == data;
    if k > 0 {
      var s' := s.(body := s.body + data[..k], state := if |s.body| + k == cl then StateDone else StateBody);
      assert StepOf(s, data) == Advance(s', k);
      FeedFromStep(s', data, k);
      assert ContentLength(s') == cl;
    }
  }

  /** A Content-Length of 0 (absent or not a number included) ends the request at once, with an empty body. */
  lemma BodyZero(s: Snapshot, data: Bytes)
    requires s.state == StateBody && ContentLength(s) == 0 && BodyInv(s)
    ensures Feed(s, data) == Fed(s.(state := StateDone), 0, None)
    ensures Feed(s, data).s.body == []
  {
    FeedFromStep(s, data, 0);
    assert data[0..] == data;
  }

  /** A negative Content-Length is refused. */
  lemma BodyNegative(s: Snapshot, data: Bytes)
    requires s.state == StateBody && ContentLength(s) < 0
    ensures Feed(s, data) == Fed(s.(state := StateError), 0, Some(InvalidContentLength))
  {
    FeedFromStep(s, data, 0);
    assert data[0..] == data;
  }

  // ---------------------------------------------------------------------
  // Re-entrancy: parsing in pieces

  /** What is left of `x` after the turn `t` on it. */
  function Rest(t: Step, x: Bytes): (r: Bytes)
    ensures t.Advance? && t.n <= |x| ==> r == x[t.n..]
    ensures !t.Advance? ==> r == x
  {
    if t.Advance? && t.n <= |x| then x[t.n..] else x
  }

  /**
   * How the turn `t` taken on `x` relates to the turn `whole` taken from the
   * same request on `x` followed by more bytes, where `next` is the turn
   * that would follow `t` on what is left of `x` followed by the same
   * bytes: a failure stays the same failure; a stop that changed the
   * request (Done on a Content-Length of 0) stays the same and is final;
   * any other stop changed nothing; and a turn that went on either goes on
   * the same way, or takes in one turn what `t` and `next` take in two, or
   * fails as `next` fails.
   */
  predicate Resumes(s: Snapshot, x: Bytes, t: Step, whole: Step, next: Step) {
    match t
    case Stop(s', err) =>
      if err.Some? then whole == t
      else s' == s || (whole == t && next == Stop(s', None))
    case Advance(s', n) =>
      && n <= |x|
      && (|| whole == t
          || (next.Stop? && next.err.Some? && whole == next)
          || (next.Advance? && whole == Advance(next.s, n + next.n)))
  }

  /** Resumes for the turns the parser takes. */
  predicate ResumesOn(s: Snapshot, x: Bytes, b: Bytes) {
    var t := StepOf(s, x);
    Resumes(s, x, t, StepOf(s, x + b), StepOf(t.s, Rest(t, x) + b))
  }

  /** The request line: once complete, later bytes change nothing. */
  lemma InitResumes(s: Snapshot, x: Bytes, b: Bytes, next: Step)
    requires s.state == StateInit
    ensures Resumes(s, x, InitStep(s, x), InitStep(s, x + b), next)
  {
    if !ParseRequestLine(x).NeedMore? {
      RequestLineAppend(x, b);
    }
  }

  /**
   * The field lines: the lines complete in `x` are parsed the same with
   * more bytes after them, and what follows them is what the next turn
   * parses.
   */
  lemma HeadersResumes(s: Snapshot, x: Bytes, b: Bytes, next: Step)
    requires s.state == StateHeaders
    requires var t := HeadersStep(s, x);
      t.Advance? && t.s.state == StateHeaders ==> next == HeadersStep(t.s, Rest(t, x) + b)
    ensures Resumes(s, x, HeadersStep(s, x), HeadersStep(s, x + b), next)
  {
    var p := ParseFields(x);
    ParseFieldsAppend(x, b);
    ParseFieldsNoProgress(x);
    if p.err.None? && p.read > 0 && !p.done {
      var q := ParseFields(x[p.read..] + b);
      ParseFieldsNoProgress(x[p.read..] + b);
      SetAllAppend(s.fields, p.lines, q.lines);
      assert p.lines + [] == p.lines;
    }
  }

  /** A body that ends within `x` is taken the same with more bytes after it. */
  lemma BodyEndsWithin(s: Snapshot, x: Bytes, b: Bytes)
    requires s.state == StateBody && 0 < ContentLength(s) - |s.body| <= |x|
    ensures BodyStep(s, x + b) == BodyStep(s, x)
  {
    var take := ContentLength(s) - |s.body|;
    assert (x + b)[..take] == x[..take];
  }

  /**
   * A body that goes on past `x` takes all of `x`, stays in Body, and then
   * takes from more bytes in one turn what the next turn would take.
   */
  lemma BodyGoesOn(s: Snapshot, x: Bytes, b: Bytes)
    requires s.state == StateBody && 0 < |x| && |s.body| + |x| < ContentLength(s) && b != []
    ensures var t := BodyStep(s, x);
      && t.Advance? && t.n == |x| && t.s.state == StateBody
      && BodyStep(t.s, b).Advance?
      && BodyStep(s, x + b) == Advance(BodyStep(t.s, b).s, |x| + BodyStep(t.s, b).n)
  {
    var cl := ContentLength(s);
    var s' := s.(body := s.body + x);
    assert x[..|x|] == x;
    assert BodyStep(s, x) == Advance(s', |x|) by {
      assert ContentLength(s) == cl;
    }
    var take2 := Min(cl - |s'.body|, |b|);
    var s'' := s'.(body := s'.body + b[..take2], state := if |s'.body| + take2 == cl then StateDone else StateBody);
    assert BodyStep(s', b) == Advance(s'', take2) by {
      assert ContentLength(s') == cl;
    }
    assert BodyStep(s, x + b) == Advance(s'', |x| + take2) by {
      assert (x + b)[..|x| + take2] == x + b[..take2];
    }
  }

  /** The body: what `x` holds of it and what follows are taken in one turn. */
  lemma BodyResumes(s: Snapshot, x: Bytes, b: Bytes, next: Step)
    requires s.state == StateBody
    requires var t := BodyStep(s, x);
      && (t.s.state == StateDone ==> next == Stop(t.s, None))
      && (t.s.state == StateBody ==> next == BodyStep(t.s, Rest(t, x) + b))
    ensures Resumes(s, x, BodyStep(s, x), BodyStep(s, x + b), next)
  {
    var cl := ContentLength(s);
    if cl > 0 && cl - |s.body| > 0 && |x| > 0 {
      if cl - |s.body| <= |x| {
        BodyEndsWithin(s, x, b);
      } else if b == [] {
        assert x + b == x;
      } else {
        BodyGoesOn(s, x, b);
        assert x[|x|..] + b == b;
      }
    }
  }

  lemma StepResumes(s: Snapshot, x: Bytes, b: Bytes)
    ensures ResumesOn(s, x, b)
  {
    var t := StepOf(s, x);
    var next := StepOf(t.s, Rest(t, x) + b);
    match s.state {
      case StateInit => InitResumes(s, x, b, next);
      case StateHeaders => HeadersResumes(s, x, b, next);
      case StateBody => BodyResumes(s, x, b, next);
      case StateError =>
      case StateDone =>
    }
  }

  /** Where the loop goes on after the turn `t` taken at `k`. */
  function Next(t: Step, k: nat): nat {
    if t.Advance? then k + t.n else k
  }

  /**
   * The three turns ResumesOn relates, at `k` in `a` and in `a + b`, as
   * values the loop resumes from.
   */
  lemma AppendTurns(s: Snapshot, a: Bytes, b: Bytes, k: nat) returns (t: Step, whole: Step, next: Step)
    requires k <= |a|
    ensures t.Advance? ==> 0 < t.n <= |a| - k
    ensures whole.Advance? ==> 0 < whole.n <= |a + b| - k
    ensures next.Advance? ==> 0 < next.n <= |a + b| - Next(t, k)
    ensures FeedFrom(s, a, k) == Resume(t, a, k)
    ensures FeedFrom(s, a + b, k) == Resume(whole, a + b, k)
    ensures FeedFrom(t.s, a + b, Next(t, k)) == Resume(next, a + b, Next(t, k))
    ensures Resumes(s, a[k..], t, whole, next)
  {
    var x := a[k..];
    t := StepOf(s, x);
    var j := Next(t, k);
    assert Rest(t, x) + b == (a + b)[j..] by {
      DropAppend(a, b, j);
      if t.Advance? {
        DropDrop(a, k, t.n);
      }
    }
    assert x + b == (a + b)[k..] by {
      DropAppend(a, b, k);
    }
    whole := StepOf(s, x + b);
    next := StepOf(t.s, Rest(t, x) + b);
    StepResumes(s, x, b);
    FeedFromStep(s, a, k);
    FeedFromStep(s, a + b, k);
    FeedFromStep(t.s, a + b, j);
  }

  /**
   * The turn the loop takes at `k` in `a`, and what the loop does at `k`
   * once `b` has arrived after `a`.
   */
  lemma AppendTurn(s: Snapshot, a: Bytes, b: Bytes, k: nat) returns (t: Step)
    requires k <= |a|
    ensures t.Advance? ==> 0 < t.n <= |a| - k
    ensures FeedFrom(s, a, k) == Resume(t, a, k)
    ensures t.Stop? && t.err.Some? ==> FeedFrom(s, a + b, k) == Fed(t.s, 0, t.err)
    ensures t.Stop? && t.err.None? ==> FeedFrom(s, a + b, k) == FeedFrom(t.s, a + b, k)
    ensures t.Advance? ==> FeedFrom(s, a + b, k) == FeedFrom(t.s, a + b, k + t.n)
  {
    var whole, next;
    t, whole, next := AppendTurns(s, a, b, k);
    if t.Advance? {
      AdvanceJoin(t, whole, next, a + b, k);
    }
  }

  /**
   * After an Advance turn `t` at `k`, the turn `whole` over more data
   * resumes where the loop from `t`'s request after its bytes does.
   */
  lemma AdvanceJoin(t: Step, whole: Step, next: Step, data: Bytes, k: nat)
    requires t.Advance? && 0 < t.n && k + t.n <= |data|
    requires whole.Advance? ==> 0 < whole.n <= |data| - k
    requires next.Advance? ==> 0 < next.n <= |data| - (k + t.n)
    requires || whole == t
             || (next.Stop? && next.err.Some? && whole == next)
             || (next.Advance? && whole == Advance(next.s, t.n + next.n))
    requires FeedFrom(t.s, data, k + t.n) == Resume(next, data, k + t.n)
    ensures Resume(whole, data, k) == FeedFrom(t.s, data, k + t.n)
  {
  }

  /**
   * The loop over `a + b` from `k` is the loop over `a` from `k`, then, when
   * that did not fail, the loop over `a + b` from where it stopped.
   */
  lemma {:induction false} FeedFromAppend(s: Snapshot, a: Bytes, b: Bytes, k: nat)
    requires k <= |a|
    ensures var r := FeedFrom(s, a, k);
      FeedFrom(s, a + b, k) == if r.err.Some? then r else FeedFrom(r.s, a + b, r.read)
    decreases |a| - k
  {
    var t := AppendTurn(s, a, b, k);
    if t.Advance? {
      FeedFromAppend(t.s, a, b, k + t.n);
    }
  }

  /** A result of the loop on a suffix, seen from the whole input that starts `k` bytes earlier. */
  function Offset(k: nat, r: Fed): (r': Fed)
    ensures r'.s == r.s && r'.err == r.err
    ensures r.err.None? ==> r'.read == k + r.read
    ensures r.err.Some? ==> r'.read == r.read
  {
    if r.err.Some? then r else r.(read := k + r.read)
  }

  /** The step at `k + j` in `data` is the step at `j` in `data[k..]`. */
  lemma ShiftStep(s: Snapshot, data: Bytes, k: nat, j: nat) returns (t: Step)
    requires k + j <= |data|
    ensures t.Advance? ==> 0 < t.n <= |data| - k - j
    ensures FeedFrom(s, data, k + j) == Resume(t, data, k + j)
    ensures FeedFrom(s, data[k..], j) == Resume(t, data[k..], j)
  {
    DropDrop(data, k, j);
    t := StepOf(s, data[k + j..]);
    FeedFromStep(s, data, k + j);
    FeedFromStep(s, data[k..], j);
  }

  /** The turn at `k + j` in `data` is the turn at `j` in `data[k..]`. */
  lemma ShiftTurn(s: Snapshot, data: Bytes, k: nat, j: nat) returns (t: Step)
    requires k + j <= |data|
    ensures t.Advance? ==> 0 < t.n <= |data| - k - j
    ensures t.Advance? ==> FeedFrom(s, data, k + j) == FeedFrom(t.s, data, k + (j + t.n))
    ensures t.Advance? ==> FeedFrom(s, data[k..], j) == FeedFrom(t.s, data[k..], j + t.n)
    ensures t.Stop? ==> FeedFrom(s, data, k + j) == Offset(k, FeedFrom(s, data[k..], j))
  {
    t := ShiftStep(s, data, k, j);
  }

  /** The loop depends only on the bytes from where it starts. */
  lemma {:induction false} FeedFromShift(s: Snapshot, data: Bytes, k: nat, j: nat)
    requires k + j <= |data|
    ensures FeedFrom(s, data, k + j) == Offset(k, FeedFrom(s, data[k..], j))
    decreases |data| - k - j
  {
    var t := ShiftTurn(s, data, k, j);
    if t.Advance? {
      FeedFromShift(t.s, data, k, j + t.n);
    }
  }

  /**
   * Re-entrancy: parse on `a + b` is parse on `a`, then, unless that
   * failed, parse from the request it left on the bytes it did not consume
   * followed by `b`. This is what lets a caller keep the unconsumed bytes,
   * read more after them and call parse again.
   */
  lemma FeedAppend(s: Snapshot, a: Bytes, b: Bytes)
    ensures var r := Feed(s, a);
      Feed(s, a + b) == if r.err.Some? then r else Offset(r.read, Feed(r.s, a[r.read..] + b))
  {
    FeedFromAppend(s, a, b, 0);
    var r := Feed(s, a);
    if r.err.None? {
      FeedFromShift(r.s, a + b, r.read, 0);
      DropAppend(a, b, r.read);
    }
  }

  /**
   * Calling parse again on what the last call did not consume, with
   * nothing new, consumes nothing and changes nothing.
   */
  lemma FeedAgain(s: Snapshot, a: Bytes)
    ensures var r := Feed(s, a);
      r.err.None? ==> Feed(r.s, a[r.read..]) == Fed(r.s, 0, None)
  {
    FeedAppend(s, a, []);
    assert a + [] == a;
    var r := Feed(s, a);
    if r.err.None? {
      assert a[r.read..] + [] == a[r.read..];
    }
  }

  // ---------------------------------------------------------------------
  // A whole request

  /** A request line that round-trips moves a new request to Headers, and is consumed. */
  lemma FeedLine(m: Bytes, t: Bytes, rest: Bytes)
    requires SP !in m && SP !in t && CR !in m && CR !in t
    ensures var line := m + [SP] + t + [SP] + Http11;
      Feed(NewRequest, line + CRLF + rest) ==
        FeedFrom(NewRequest.(requestLine := RequestLine(Version11, t, m), state := StateHeaders), line + CRLF + rest, |line| + 2)
  {
    var line := m + [SP] + t + [SP] + Http11;
    var data := line + CRLF + rest;
    RequestLineRoundTrip(m, t, rest);
    assert data[0..] == data;
    FeedFromAdvance(NewRequest, data, 0, NewRequest.(requestLine := RequestLine(Version11, t, m), state := StateHeaders), |line| + 2);
  }

  /** Well-formed field lines and a blank line at `k` are Set and move the request to Body. */
  lemma FeedFieldBlock(s: Snapshot, data: Bytes, k: nat, fs: seq<FieldLine>, rest: Bytes)
    requires s.state == StateHeaders && AllWellFormed(fs)
    requires k <= |data| && data[k..] == FieldBlock(fs) + CRLF + rest
    ensures FeedFrom(s, data, k) ==
      FeedFrom(s.(fields := SetAll(s.fields, fs), state := StateBody), data, k + |FieldBlock(fs)| + 2)
  {
    HeadersBlockStep(s, fs, rest);
    FeedFromAdvance(s, data, k, s.(fields := SetAll(s.fields, fs), state := StateBody), |FieldBlock(fs)| + 2);
  }

  /** The loop from `k` is parse on what is left from `k` on. */
  lemma FeedFromAt(s: Snapshot, data: Bytes, k: nat, rest: Bytes)
    requires k <= |data| && data[k..] == rest
    ensures FeedFrom(s, data, k) == Offset(k, Feed(s, rest))
  {
    FeedFromShift(s, data, k, 0);
  }

  /** The turn on well-formed field lines and a blank line Sets them all and moves to Body. */
  lemma HeadersBlockStep(s: Snapshot, fs: seq<FieldLine>, rest: Bytes)
    requires s.state == StateHeaders && AllWellFormed(fs)
    ensures HeadersStep(s, FieldBlock(fs) + CRLF + rest) ==
      Advance(s.(fields := SetAll(s.fields, fs), state := StateBody), |FieldBlock(fs)| + 2)
  {
    ParseFieldBlock(fs, rest);
  }

  /** A turn that goes on takes the loop to the next turn. */
  lemma FeedFromAdvance(s: Snapshot, data: Bytes, k: nat, s': Snapshot, n: nat)
    requires k <= |data| && StepOf(s, data[k..]) == Advance(s', n)
    ensures k + n <= |data|
    ensures FeedFrom(s, data, k) == FeedFrom(s', data, k + n)
  {
    FeedFromStep(s, data, k);
  }

  /**
   * A request line and well-formed field lines, then a blank line, take
   * the request to Body with that line and the headers the lines Set, and
   * what follows is parsed from there.
   */
  lemma FeedHead(m: Bytes, t: Bytes, fs: seq<FieldLine>, body: Bytes)
    requires SP !in m && SP !in t && CR !in m && CR !in t
    requires AllWellFormed(fs)
    ensures var head := m + [SP] + t + [SP] + Http11 + CRLF + FieldBlock(fs) + CRLF;
      var s := Snapshot(RequestLine(Version11, t, m), SetAll(map[], fs), [], StateBody);
      && Feed(NewRequest, head + body) == FeedFrom(s, head + body, |head|)
      && Feed(NewRequest, head + body) == Offset(|head|, Feed(s, body))
  {
    var line := m + [SP] + t + [SP] + Http11;
    var head := line + CRLF + FieldBlock(fs) + CRLF;
    var rl := RequestLine(Version11, t, m);
    HeadLayout(line, FieldBlock(fs), body);
    FeedLine(m, t, FieldBlock(fs) + CRLF + body);
    FeedFieldBlock(NewRequest.(requestLine := rl, state := StateHeaders), head + body, |line| + 2, fs, body);
    FeedFromAt(Snapshot(rl, SetAll(map[], fs), [], StateBody), head + body, |head|, body);
  }

  /** Where the parts of a serialised request sit. */
  lemma HeadLayout(line: Bytes, block: Bytes, body: Bytes)
    ensures var head := line + CRLF + block + CRLF;
      && head + body == line + CRLF + (block + CRLF + body)
      && (head + body)[|line| + 2..] == block + CRLF + body
      && (head + body)[|head|..] == body
      && |head| == |line| + 2 + |block| + 2
  {
    var head := line + CRLF + block + CRLF;
    assert head + body == line + CRLF + (block + CRLF + body);
    DropAppend(line + CRLF, block + CRLF + body, |line| + 2);
    DropAppend(head, body, |head|);
  }

  /**
   * A request serialised as a request line, well-formed field lines, a
   * blank line and a body parses, in one call, to that request line, the
   * headers those lines Set, and min(Content-Length, len(body)) bytes of
   * body, consumed; it is Done exactly when the body is complete. A
   * negative Content-Length fails the request.
   */
  lemma FeedWholeRequest(m: Bytes, t: Bytes, fs: seq<FieldLine>, body: Bytes)
    requires SP !in m && SP !in t && CR !in m && CR !in t
    requires AllWellFormed(fs)
    ensures var fields := SetAll(map[], fs);
      var cl := GetIntOf(fields, ContentLengthName, 0);
      var head := m + [SP] + t + [SP] + Http11 + CRLF + FieldBlock(fs) + CRLF;
      var s := Snapshot(RequestLine(Version11, t, m), fields, [], StateBody);
      var k := Min(cl, |body|);
      Feed(NewRequest, head + body) ==
        if cl < 0 then Fed(s.(state := StateError), 0, Some(InvalidContentLength))
        else Fed(s.(body := body[..k], state := if k == cl then StateDone else StateBody), |head| + k, None)
  {
    var s := Snapshot(RequestLine(Version11, t, m), SetAll(map[], fs), [], StateBody);
    FeedHead(m, t, fs, body);
    var cl := ContentLength(s);
    if cl == 0 {
      BodyZero(s, body);
      assert body[..0] == [];
    } else if cl < 0 {
      BodyNegative(s, body);
    } else {
      BodyTakes(s, body);
    }
  }

  /**
   * Once parse has failed or the request is Done, more bytes change
   * nothing: parse on the longer input gives the same result.
   */
  lemma FeedSettled(s: Snapshot, a: Bytes, b: Bytes)
    requires Feed(s, a).err.Some? || Feed(s, a).s.state == StateDone
    ensures Feed(s, a + b) == Feed(s, a)
  {
    FeedAppend(s, a, b);
    var r := Feed(s, a);
    if r.err.None? {
      DoneIsKept(r.s, a[r.read..] + b);
    }
  }
}
