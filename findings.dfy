/**
 * The body turn as request.go writes it, against the one HttpRequest
 * uses. With a negative Content-Length the amount of body still to read
 * is negative, and slicing the current data with it panics; HttpRequest
 * refuses such a request with an error instead.
 */
module BodyFinding {

  import opened Wrappers
  import opened ByteStrings
  import opened HttpHeaders
  import opened HttpRequest
  import opened RequestProperties

  /**
   * The Body case of parse as written: the amount to take is
   * min(Content-Length - len(Body), len(data)); zero breaks out of the
   * loop, and a negative amount slices the data with a negative bound,
   * which panics (None here).
   */
  function BodyStepAsWritten(s: Snapshot, cur: Bytes): (r: Option<Step>)
    ensures r.None? <==> ContentLength(s) != 0 && Min(ContentLength(s) - |s.body|, |cur|) < 0
  {
    var bodyLength := ContentLength(s);
    if bodyLength == 0 then Some(Stop(s.(state := StateDone), None))
    else
      var remaining := Min(bodyLength - |s.body|, |cur|);
      if remaining == 0 then Some(Stop(s, None))
      else if remaining < 0 then None
      else
        var body := s.body + cur[..remaining];
        Some(Advance(s.(body := body, state := if |body| == bodyLength then StateDone else StateBody), remaining))
  }

  /** As written, every negative Content-Length panics, whatever data is at hand. */
  lemma AsWrittenPanicsOnNegative(s: Snapshot, cur: Bytes)
    requires ContentLength(s) < 0
    ensures BodyStepAsWritten(s, cur).None?
  {
  }

  /**
   * Everywhere else the body turn as written is the one HttpRequest uses:
   * on every request the parser reaches (BodyInv) whose Content-Length is
   * not negative.
   */
  lemma AsWrittenAgrees(s: Snapshot, cur: Bytes)
    requires s.state == StateBody && BodyInv(s) && ContentLength(s) >= 0
    ensures BodyStepAsWritten(s, cur) == Some(BodyStep(s, cur))
  {
  }

  /** "GET" and "/", the method and target of the counterexample. */
  const GetMethod: Bytes := [71, 69, 84]
  const RootTarget: Bytes := [47]

  /** The field line "content-length: -1". */
  function NegativeLength(): FieldLine {
    FieldLine(ContentLengthName, FormatInt(-1))
  }

  /**
   * "GET / HTTP/1.1", then "content-length: -1", then the blank line: the
   * loop reaches Body with a Content-Length of -1 once the whole input is
   * consumed, where the body turn as written panics; the corrected parse
   * fails the request with InvalidContentLength instead.
   */
  lemma NegativeLengthCounterexample()
    ensures var line := GetMethod + [SP] + RootTarget + [SP] + Http11 + CRLF;
      var data := line + FieldBlock([NegativeLength()]) + CRLF;
      var s := Snapshot(RequestLine(Version11, RootTarget, GetMethod), SetAll(map[], [NegativeLength()]), [], StateBody);
      && ContentLength(s) == -1
      && Feed(NewRequest, data) == FeedFrom(s, data, |data|)
      && BodyStepAsWritten(s, data[|data|..]).None?
      && Feed(NewRequest, data) == Fed(s.(state := StateError), 0, Some(InvalidContentLength))
  {
    var m, t := GetMethod, RootTarget;
    assert SP !in m && SP !in t && CR !in m && CR !in t;
    NegativeLengthWellFormed();
    NegativeLengthValue();
    FeedHead(m, t, [NegativeLength()], []);
    FeedWholeRequest(m, t, [NegativeLength()], []);
    var data := m + [SP] + t + [SP] + Http11 + CRLF + FieldBlock([NegativeLength()]) + CRLF;
    assert data + [] == data;
  }

  /** "content-length: -1" is a well-formed field line. */
  lemma NegativeLengthWellFormed()
    ensures AllWellFormed([NegativeLength()])
  {
    var f := NegativeLength();
    MinusOneBytes();
    ContentLengthIsToken();
    assert WellFormed(f);
    assert [f][1..] == [];
  }

  /** -1 is written "-1". */
  lemma MinusOneBytes()
    ensures FormatInt(-1) == [MINUS, 49]
  {
    assert DecimalDigits(1) == [49];
  }

  /** "content-length" is a non-empty token. */
  lemma ContentLengthIsToken()
    ensures |ContentLengthName| > 0 && IsToken(ContentLengthName)
  {
    LowerCaseName();
    TokenOfChars(ContentLengthName);
  }

  /** Setting "content-length: -1" on no headers makes GetInt("content-length") -1. */
  lemma NegativeLengthValue()
    ensures GetIntOf(SetAll(map[], [NegativeLength()]), ContentLengthName, 0) == -1
  {
    var f := NegativeLength();
    var m := SetAll(map[], [f]);
    assert m == map[ContentLengthName := FormatInt(-1)] by {
      assert [f][1..] == [];
      assert m == SetAll(SetField(map[], f.name, f.value), []);
      LowerCaseName();
    }
    assert Lookup(m, ContentLengthName) == Some(FormatInt(-1)) by {
      LowerCaseName();
    }
    AtoiFormatInt(-1);
  }

  /** "content-length" is a token already in lower case. */
  lemma LowerCaseName()
    ensures forall i | 0 <= i < |ContentLengthName| :: IsTokenChar(ContentLengthName[i])
    ensures ToLower(ContentLengthName) == ContentLengthName
  {
    forall i | 0 <= i < |ContentLengthName|
      ensures ContentLengthName[i] == 45 || 97 <= ContentLengthName[i] <= 122
    {
    }
    assert ToLower(ContentLengthName) == ContentLengthName;
  }
}
