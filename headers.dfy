/**
 * The header collection of internal/headers/headers.go: a map from
 * lower-cased field name to value, the field-line parser and the
 * re-entrant parser of a header block (section 5 of RFC 9112).
 */
module HttpHeaders {

  import opened Wrappers
  import opened ByteStrings

  type Fields = map<Bytes, Bytes>

  /** The three ways a header block is refused. */
  datatype HeaderError =
    | MalformedFieldLine    // the line holds no colon
    | MalformedFieldName    // a space stands directly before the first colon
    | MalformedHeaderName   // the trimmed name holds a byte that is not a token character

  datatype FieldLine = FieldLine(name: Bytes, value: Bytes)

  /** What Headers.Parse returns, with the field lines it Set, in order. */
  datatype ParseResult = ParseResult(lines: seq<FieldLine>, read: nat, done: bool, err: Option<HeaderError>)

  const CommaSpace: Bytes := Ascii(", ")

  // ---------------------------------------------------------------------
  // isToken: the tchar class of section 5.6.2 of RFC 9110

  /** A letter, a digit or one of !#$%&'*+-.^_`|~ */
  predicate IsTokenChar(b: byte) {
    || (65 <= b <= 90) || (97 <= b <= 122) || (48 <= b <= 57)
    || b == 33 || (35 <= b <= 39) || b == 42 || b == 43 || b == 45 || b == 46
    || (94 <= b <= 96) || b == 124 || b == 126
  }

  /** isToken: every byte is a token character; the empty name passes too. */
  predicate IsToken(s: Bytes) {
    |s| == 0 || (IsTokenChar(s[0]) && IsToken(s[1..]))
  }

  /** A token holds only ASCII, and neither white space nor a colon. */
  lemma {:induction false} TokenBytes(s: Bytes, i: int)
    requires IsToken(s) && 0 <= i < |s|
    ensures s[i] < 128 && !IsSpace(s[i]) && s[i] != COLON
  {
    if i > 0 {
      TokenBytes(s[1..], i - 1);
    }
  }

  /** A name all of whose bytes are token characters is a token. */
  lemma {:induction false} TokenOfChars(s: Bytes)
    requires forall i | 0 <= i < |s| :: IsTokenChar(s[i])
    ensures IsToken(s)
  {
    if |s| > 0 {
      TokenOfChars(s[1..]);
    }
  }

  /** A name holding a byte outside ASCII (any byte of a UTF-8 encoded non-ASCII character) is refused. */
  lemma NonAsciiIsNotToken(s: Bytes, i: int)
    requires 0 <= i < |s| && s[i] >= 128
    ensures !IsToken(s)
  {
    if IsToken(s) {
      TokenBytes(s, i);
    }
  }

  // ---------------------------------------------------------------------
  // Get, Set and GetInt on the map

  /** Get: the value stored under the lower-cased key. */
  function Lookup(m: Fields, key: Bytes): (r: Option<Bytes>)
    ensures r.Some? <==> ToLower(key) in m
    ensures r.Some? ==> r.value == m[ToLower(key)]
  {
    if ToLower(key) in m then Some(m[ToLower(key)]) else None
  }

  /**
   * Set: store `value` under the lower-cased key, or append it to the value
   * already there with ", " in between (section 5.3 of RFC 9110).
   */
  function SetField(m: Fields, key: Bytes, value: Bytes): Fields {
    var k := ToLower(key);
    if k in m then m[k := m[k] + CommaSpace + value] else m[k := value]
  }

  /** Set adds the lower-cased key, if absent, and leaves every other entry as it was. */
  lemma SetFieldEntries(m: Fields, key: Bytes, value: Bytes)
    ensures SetField(m, key, value).Keys == m.Keys + {ToLower(key)}
    ensures forall k | k in m && k != ToLower(key) :: SetField(m, key, value)[k] == m[k]
  {
  }

  /** After Set, Get on any spelling of the same name sees the combined value; other names are unaffected. */
  lemma LookupAfterSet(m: Fields, key: Bytes, value: Bytes, probe: Bytes)
    ensures Lookup(SetField(m, key, value), probe) ==
      if ToLower(probe) != ToLower(key) then Lookup(m, probe)
      else match Lookup(m, key)
        case None => Some(value)
        case Some(prev) => Some(prev + CommaSpace + value)
  {
  }

  /** GetInt: the stored value read by Atoi, or the default when absent or not an integer. */
  function GetIntOf(m: Fields, key: Bytes, default: int): (r: int)
    ensures Lookup(m, key).None? ==> r == default
    ensures Lookup(m, key).Some? && Atoi(Lookup(m, key).value).None? ==> r == default
    ensures Lookup(m, key).Some? && Atoi(Lookup(m, key).value).Some? ==> r == Atoi(Lookup(m, key).value).value
  {
    match Lookup(m, key)
    case None => default
    case Some(v) =>
      match Atoi(v)
      case None => default
      case Some(n) => n
  }

  // ---------------------------------------------------------------------
  // GetDefaultHeaders

  const ContentLengthName: Bytes := Ascii("content-length")
  const ConnectionName: Bytes := Ascii("connection")
  const ContentTypeName: Bytes := Ascii("content-type")

  /** The fields GetDefaultHeaders sets, in order, on a new collection. */
  function DefaultFields(contentLength: int): Fields {
    var m0 := SetField(map[], ContentLengthName, FormatInt(contentLength));
    var m1 := SetField(m0, ConnectionName, Ascii("close"));
    SetField(m1, ContentTypeName, Ascii("text/plain"))
  }

  /** GetInt("content-length") on the default headers gives back the length they were made for. */
  lemma DefaultContentLength(contentLength: int, default: int)
    requires MinInt64 <= contentLength <= MaxInt64
    ensures GetIntOf(DefaultFields(contentLength), ContentLengthName, default) == contentLength
  {
    var m0 := SetField(map[], ContentLengthName, FormatInt(contentLength));
    var m1 := SetField(m0, ConnectionName, Ascii("close"));
    assert ToLower(ContentLengthName) == ContentLengthName;
    assert ToLower(ConnectionName) == ConnectionName;
    assert ToLower(ContentTypeName) == ContentTypeName;
    assert ContentLengthName != ConnectionName by { assert ContentLengthName[3] != ConnectionName[3]; }
    assert ContentLengthName != ContentTypeName by { assert |ContentLengthName| != |ContentTypeName|; }
    AtoiFormatInt(contentLength);
  }

  // ---------------------------------------------------------------------
  // parseHeader

  /** No colon among the first `c` bytes of `line`. */
  predicate NoColonBefore(line: Bytes, c: int) {
    forall j | 0 <= j < c && j < |line| :: line[j] != COLON
  }

  /** The first colon of `line` is directly preceded by a space. */
  predicate SpaceBeforeFirstColon(line: Bytes) {
    exists c | 0 < c < |line| :: line[c] == COLON && line[c - 1] == SP && NoColonBefore(line, c)
  }

  /**
   * parseHeader: split at the first colon; the name is the trimmed part
   * before it, which must not end in a space, and the value the trimmed
   * part after it.
   */
  function ParseFieldLine(line: Bytes): Result<FieldLine, HeaderError> {
    match IndexByte(line, COLON)
    case None => Err(MalformedFieldLine)
    case Some(c) =>
      var value := TrimSpace(line[c + 1..]);
      if c > 0 && line[c - 1] == SP then Err(MalformedFieldName)
      else Ok(FieldLine(TrimSpace(line[..c]), value))
  }

  /**
   * The two ways parseHeader refuses a line: it has no colon, or the byte
   * before its first colon is a space.
   */
  lemma FieldLineErrors(line: Bytes)
    ensures ParseFieldLine(line) == Err(MalformedFieldLine) <==> COLON !in line
    ensures ParseFieldLine(line) == Err(MalformedFieldName) <==> SpaceBeforeFirstColon(line)
  {
    IndexByteFirst(line, COLON);
    match IndexByte(line, COLON)
    case None =>
    case Some(c) =>
      assert line[c] == COLON;
      if SpaceBeforeFirstColon(line) {
        var d :| 0 < d < |line| && line[d] == COLON && line[d - 1] == SP && NoColonBefore(line, d);
        assert !(c < d) && !(d < c);
      }
  }

  /** A line whose first colon follows `pre`, which does not end in a space, is split there and both halves trimmed. */
  lemma ParseFieldLineAt(pre: Bytes, post: Bytes)
    requires forall j | 0 <= j < |pre| :: pre[j] != COLON
    requires |pre| == 0 || pre[|pre| - 1] != SP
    ensures ParseFieldLine(pre + [COLON] + post) == Ok(FieldLine(TrimSpace(pre), TrimSpace(post)))
  {
    var line := pre + [COLON] + post;
    IndexByteIs(line, COLON, |pre|);
    assert line[..|pre|] == pre;
    assert line[|pre| + 1..] == post;
  }

  /** Optional white space followed by a token holds no colon and does not end in a space. */
  lemma PaddedTokenBytes(lead: Bytes, name: Bytes)
    requires forall k | 0 <= k < |lead| :: IsSpace(lead[k])
    requires |name| > 0 && IsToken(name)
    ensures forall j | 0 <= j < |lead + name| :: (lead + name)[j] != COLON
    ensures (lead + name)[|lead + name| - 1] != SP
    ensures Trimmed(name)
  {
    forall j | 0 <= j < |lead + name| ensures (lead + name)[j] != COLON {
      if j >= |lead| {
        TokenBytes(name, j - |lead|);
      }
    }
    TokenBytes(name, 0);
    TokenBytes(name, |name| - 1);
  }

  /**
   * A field line made of optional white space, a token name, a colon and a
   * trimmed value padded by optional white space is read back as that name
   * and value; the value may itself contain colons.
   */
  lemma FieldLineRoundTrip(lead: Bytes, name: Bytes, ows: Bytes, value: Bytes, trail: Bytes)
    requires forall k | 0 <= k < |lead| :: IsSpace(lead[k])
    requires forall k | 0 <= k < |ows| :: IsSpace(ows[k])
    requires forall k | 0 <= k < |trail| :: IsSpace(trail[k])
    requires |name| > 0 && IsToken(name) && Trimmed(value)
    ensures ParseFieldLine((lead + name) + [COLON] + (ows + value + trail)) == Ok(FieldLine(name, value))
  {
    PaddedTokenBytes(lead, name);
    ParseFieldLineAt(lead + name, ows + value + trail);
    assert lead + name == lead + name + [];
    TrimSpaceAround(lead, name, []);
    TrimSpaceAround(ows, value, trail);
  }

  // ---------------------------------------------------------------------
  // Parse: the header block

  /** What one turn of Parse's loop finds at the front of the remaining bytes. */
  datatype LineStep =
    | Incomplete                          // no CRLF yet: wait for more data
    | BlankLine                           // CRLF at offset 0: the end of the block
    | Refused(e: HeaderError)             // a complete line that is not a valid field line
    | Field(f: FieldLine, length: nat)    // a valid field line of `length` bytes before its CRLF

  /** One turn of Parse's loop: find the CRLF, then parseHeader and isToken on the line before it. */
  function NextLine(data: Bytes): (r: LineStep)
    ensures r.BlankLine? ==> 2 <= |data|
    ensures r.Field? ==> 0 < r.length && r.length + 2 <= |data|
  {
    match IndexCrlf(data)
    case None => Incomplete
    case Some(i) =>
      if i == 0 then BlankLine
      else match ParseFieldLine(data[..i])
        case Err(e) => Refused(e)
        case Ok(f) => if IsToken(f.name) then Field(f, i) else Refused(MalformedHeaderName)
  }

  /** A complete line keeps its meaning whatever bytes follow it. */
  lemma NextLineAppend(a: Bytes, b: Bytes)
    requires !NextLine(a).Incomplete?
    ensures NextLine(a + b) == NextLine(a)
  {
    IndexCrlfAppend(a, b);
    var i := IndexCrlf(a).value;
    assert (a + b)[..i] == a[..i];
  }

  /** A non-empty line without CR, followed by CRLF, is classified by parseHeader and isToken alone. */
  lemma NextLineComplete(line: Bytes, rest: Bytes)
    requires |line| > 0 && forall j | 0 <= j < |line| :: line[j] != CR
    ensures NextLine(line + CRLF + rest) ==
      match ParseFieldLine(line)
      case Err(e) => Refused(e)
      case Ok(f) => if IsToken(f.name) then Field(f, |line|) else Refused(MalformedHeaderName)
  {
    var data := line + CRLF + rest;
    forall j | 0 <= j < |line| ensures !CrlfAt(data, j) {
      assert data[j] == line[j];
    }
    IndexCrlfIs(data, |line|);
    assert data[..|line|] == line;
  }

  /*
   * The loop of Parse is stated over any line classifier with the two
   * properties below, and NextLine is shown to have them; the properties of
   * the loop then follow from these two alone.
   */

  /** A line classifier that never reports a line longer than what precedes a CRLF in its input. */
  ghost predicate Bounded(next: Bytes -> LineStep) {
    forall d :: (next(d).BlankLine? ==> 2 <= |d|) && (next(d).Field? ==> 0 < next(d).length && next(d).length + 2 <= |d|)
  }

  /** A line classifier whose verdict on a complete line does not depend on what follows it. */
  ghost predicate Stable(next: Bytes -> LineStep) {
    forall a, b :: !next(a).Incomplete? ==> next(a + b) == next(a)
  }

  lemma NextLineBounded()
    ensures Bounded(NextLine)
  {
  }

  lemma NextLineStable()
    ensures Stable(NextLine)
  {
    forall a, b | !NextLine(a).Incomplete? ensures NextLine(a + b) == NextLine(a) {
      NextLineAppend(a, b);
    }
  }

  /**
   * The loop of Headers.Parse from offset `read` of `data` on, with `lines`
   * the field lines Set so far: each complete field line is Set and the
   * loop goes on after its CRLF; it stops at the first incomplete line, or
   * after the blank line that ends the block. A refused line ends the call
   * with 0 bytes read and an error, and the lines Set before it stay Set.
   */
  function ParseFrom(next: Bytes -> LineStep, lines: seq<FieldLine>, data: Bytes, read: nat): (r: ParseResult)
    requires Bounded(next) && read <= |data|
    ensures r.err.None? ==> read <= r.read <= |data|
    ensures r.err.Some? ==> r.read == 0 && !r.done
    decreases |data| - read
  {
    match next(data[read..])
    case Incomplete => ParseResult(lines, read, false, None)
    case BlankLine => ParseResult(lines, read + 2, true, None)
    case Refused(e) => ParseResult(lines, 0, false, Some(e))
    case Field(f, i) => ParseFrom(next, lines + [f], data, read + i + 2)
  }

  /**
   * Headers.Parse on `data`: the field lines it Sets, in order, the bytes it
   * reads, whether it met the blank line, and its error. The collection
   * afterwards is SetAll of those lines on the one before.
   */
  function ParseFields(data: Bytes): (r: ParseResult)
    ensures r.read <= |data|
    ensures r.err.Some? ==> r.read == 0 && !r.done
  {
    NextLineBounded();
    ParseFrom(NextLine, [], data, 0)
  }

  /** The lines Set before the loop reached `read` come first in what it returns. */
  lemma {:induction false} ParseFromLines(next: Bytes -> LineStep, lines: seq<FieldLine>, data: Bytes, read: nat)
    requires Bounded(next) && read <= |data|
    ensures var r := ParseFrom(next, [], data, read);
      ParseFrom(next, lines, data, read) == r.(lines := lines + r.lines)
    decreases |data| - read
  {
    assert lines + [] == lines;
    var step := next(data[read..]);
    if step.Field? {
      var f, k := step.f, read + step.length + 2;
      var t := ParseFrom(next, [], data, k);
      assert ParseFrom(next, lines, data, read) == t.(lines := (lines + [f]) + t.lines) by {
        ParseFromLines(next, lines + [f], data, k);
      }
      assert ParseFrom(next, [], data, read) == t.(lines := [f] + t.lines) by {
        assert [] + [f] == [f];
        ParseFromLines(next, [f], data, k);
      }
      assert (lines + [f]) + t.lines == lines + ([f] + t.lines);
    }
  }

  /** Unless it fails or is done, the loop leaves no complete line behind. */
  lemma {:induction false} ParseFromConsumesLines(next: Bytes -> LineStep, lines: seq<FieldLine>, data: Bytes, read: nat)
    requires Bounded(next) && read <= |data|
    ensures var r := ParseFrom(next, lines, data, read);
      r.err.None? && !r.done ==> next(data[r.read..]).Incomplete?
    decreases |data| - read
  {
    var step := next(data[read..]);
    if step.Field? {
      ParseFromConsumesLines(next, lines + [step.f], data, read + step.length + 2);
    }
  }

  /**
   * Re-entrancy, in the loop's own terms: running the loop on `a + b` from
   * `k` stops where running it on `a` stops, when that was an error or the
   * end of the block, and otherwise carries on from where the run on `a`
   * left off.
   */
  lemma {:induction false} ParseFromAppend(next: Bytes -> LineStep, lines: seq<FieldLine>, a: Bytes, b: Bytes, k: nat)
    requires Bounded(next) && Stable(next) && k <= |a|
    ensures var r := ParseFrom(next, lines, a, k);
      ParseFrom(next, lines, a + b, k) == if r.err.Some? || r.done then r else ParseFrom(next, r.lines, a + b, r.read)
    decreases |a| - k
  {
    var step := next(a[k..]);
    if !step.Incomplete? {
      assert next((a + b)[k..]) == step by {
        DropAppend(a, b, k);
        assert next(a[k..] + b) == step;
      }
    }
    if step.Field? {
      ParseFromField(next, lines, a, k, step.f, step.length);
      ParseFromField(next, lines, a + b, k, step.f, step.length);
      ParseFromAppend(next, lines + [step.f], a, b, k + step.length + 2);
    }
  }

  /** The result of a run on what follows the first `k` bytes, counted from the start. */
  function After(k: nat, r: ParseResult): ParseResult {
    if r.err.Some? then r else r.(read := k + r.read)
  }

  /** Running the loop from offset `k + j` is running it from `j` on what follows `k`. */
  lemma {:induction false} ParseFromShift(next: Bytes -> LineStep, lines: seq<FieldLine>, data: Bytes, k: nat, j: nat)
    requires Bounded(next) && k + j <= |data|
    ensures ParseFrom(next, lines, data, k + j) == After(k, ParseFrom(next, lines, data[k..], j))
    decreases |data| - k - j
  {
    var step := next(data[k + j..]);
    if step.Field? {
      var f, j' := step.f, j + step.length + 2;
      assert ParseFrom(next, lines, data, k + j) == ParseFrom(next, lines + [f], data, k + j') by {
        ParseFromField(next, lines, data, k + j, f, step.length);
      }
      assert ParseFrom(next, lines, data[k..], j) == ParseFrom(next, lines + [f], data[k..], j') by {
        DropDrop(data, k, j);
        ParseFromField(next, lines, data[k..], j, f, step.length);
      }
      ParseFromShift(next, lines + [f], data, k, j');
    } else {
      assert next(data[k..][j..]) == step by {
        DropDrop(data, k, j);
      }
    }
  }

  /** Parse makes no progress and reports no error exactly when `data` holds no CRLF, and then it Sets nothing and is not done. */
  lemma ParseFieldsNoProgress(data: Bytes)
    ensures var r := ParseFields(data);
      (r.err.None? && r.read == 0 <==> IndexCrlf(data).None?)
      && (r.err.None? && r.read == 0 ==> r.lines == [] && !r.done)
  {
    assert data[0..] == data;
  }

  /** Unless Parse fails or is done, no CRLF is left in what it did not read. */
  lemma ParseFieldsConsumesLines(data: Bytes)
    ensures var r := ParseFields(data);
      r.err.None? && !r.done ==> IndexCrlf(data[r.read..]).None?
  {
    NextLineBounded();
    ParseFromConsumesLines(NextLine, [], data, 0);
  }

  /** Two calls in a row: the lines of both, and the bytes read by both unless the second one fails. */
  function Then(r: ParseResult, t: ParseResult): ParseResult {
    After(r.read, t).(lines := r.lines + t.lines)
  }

  /**
   * Re-entrancy: parsing `a + b` gives what parsing `a` gives when that was
   * an error or the end of the block, and otherwise what parsing `a` gave
   * followed by parsing the unconsumed rest of `a` with `b` appended.
   */
  lemma ParseFieldsAppend(a: Bytes, b: Bytes)
    ensures var r := ParseFields(a);
      ParseFields(a + b) == if r.err.Some? || r.done then r else Then(r, ParseFields(a[r.read..] + b))
  {
    NextLineBounded();
    NextLineStable();
    ParseFromAppend(NextLine, [], a, b, 0);
    var r := ParseFields(a);
    if r.err.None? && !r.done {
      ParseFromLines(NextLine, r.lines, a + b, r.read);
      ParseFromShift(NextLine, [], a + b, r.read, 0);
      DropAppend(a, b, r.read);
    }
  }

  /** Set each field line in order. */
  function SetAll(m: Fields, lines: seq<FieldLine>): Fields
    decreases |lines|
  {
    if |lines| == 0 then m else SetAll(SetField(m, lines[0].name, lines[0].value), lines[1..])
  }

  /** Setting two runs of lines is setting the first, then the second. */
  lemma {:induction false} SetAllAppend(m: Fields, l1: seq<FieldLine>, l2: seq<FieldLine>)
    ensures SetAll(m, l1 + l2) == SetAll(SetAll(m, l1), l2)
    decreases |l1|
  {
    if |l1| == 0 {
      assert l1 + l2 == l2;
    } else {
      assert (l1 + l2)[1..] == l1[1..] + l2;
      SetAllAppend(SetField(m, l1[0].name, l1[0].value), l1[1..], l2);
    }
  }

  /** Setting one more line is one more Set. */
  lemma SetAllSnoc(m: Fields, lines: seq<FieldLine>, f: FieldLine)
    ensures SetAll(m, lines + [f]) == SetField(SetAll(m, lines), f.name, f.value)
  {
    SetAllAppend(m, lines, [f]);
  }

  /** The serialised form of a field line, without its CRLF: `name: value`. */
  function FieldLineBytes(f: FieldLine): Bytes {
    f.name + [COLON, SP] + f.value
  }

  /** The serialised form of a header block without its blank line: each field line ended by CRLF. */
  function FieldBlock(fs: seq<FieldLine>): Bytes {
    if |fs| == 0 then [] else FieldLineBytes(fs[0]) + CRLF + FieldBlock(fs[1..])
  }

  /** A field fit for the serialised form: a non-empty token name, a trimmed value without CR or LF. */
  predicate WellFormed(f: FieldLine) {
    |f.name| > 0 && IsToken(f.name) && Trimmed(f.value)
    && (forall j | 0 <= j < |f.value| :: f.value[j] != CR && f.value[j] != LF)
  }

  /** Every field of `fs` is well-formed. */
  predicate AllWellFormed(fs: seq<FieldLine>) {
    |fs| == 0 || (WellFormed(fs[0]) && AllWellFormed(fs[1..]))
  }

  /** A serialised well-formed field line is read back as that field. */
  lemma FieldLineStep(f: FieldLine, rest: Bytes)
    requires WellFormed(f)
    ensures NextLine(FieldLineBytes(f) + CRLF + rest) == Field(f, |FieldLineBytes(f)|)
  {
    var line := FieldLineBytes(f);
    forall j | 0 <= j < |line| ensures line[j] != CR {
      if j < |f.name| {
        TokenBytes(f.name, j);
      } else if j >= |f.name| + 2 {
        assert line[j] == f.value[j - |f.name| - 2];
      }
    }
    assert line == ([] + f.name) + [COLON] + ([SP] + f.value + []);
    FieldLineRoundTrip([], f.name, [SP], f.value, []);
    NextLineComplete(line, rest);
  }

  /** A line classifier that reads back each line of the serialised block `fs`, then the blank line. */
  ghost predicate ReadsBlock(next: Bytes -> LineStep, fs: seq<FieldLine>, rest: Bytes)
    decreases |fs|
  {
    if |fs| == 0 then next(CRLF + rest) == BlankLine
    else
      && next(FieldLineBytes(fs[0]) + CRLF + (FieldBlock(fs[1..]) + CRLF + rest)) == Field(fs[0], |FieldLineBytes(fs[0])|)
      && ReadsBlock(next, fs[1..], rest)
  }

  lemma {:induction false} NextLineReadsBlock(fs: seq<FieldLine>, rest: Bytes)
    requires AllWellFormed(fs)
    ensures ReadsBlock(NextLine, fs, rest)
    decreases |fs|
  {
    if |fs| == 0 {
      IndexCrlfIs(CRLF + rest, 0);
    } else {
      FieldLineStep(fs[0], FieldBlock(fs[1..]) + CRLF + rest);
      NextLineReadsBlock(fs[1..], rest);
    }
  }

  /** One turn of the loop over a field line. */
  lemma ParseFromField(next: Bytes -> LineStep, lines: seq<FieldLine>, data: Bytes, k: nat, f: FieldLine, n: nat)
    requires Bounded(next) && k <= |data| && next(data[k..]) == Field(f, n)
    ensures k + n + 2 <= |data|
    ensures ParseFrom(next, lines, data, k) == ParseFrom(next, lines + [f], data, k + n + 2)
  {
  }

  /** A non-empty serialised block begins with its first line and that line's CRLF. */
  lemma FieldBlockCons(fs: seq<FieldLine>, rest: Bytes)
    requires |fs| > 0
    ensures FieldBlock(fs) + CRLF + rest == FieldLineBytes(fs[0]) + CRLF + (FieldBlock(fs[1..]) + CRLF + rest)
    ensures |FieldBlock(fs)| == |FieldLineBytes(fs[0])| + 2 + |FieldBlock(fs[1..])|
  {
  }

  /** A run whose first line is a field line of length `n`: that line, then a run on what follows its CRLF. */
  lemma ParseFromHead(next: Bytes -> LineStep, data: Bytes, n: nat, f: FieldLine)
    requires Bounded(next) && next(data) == Field(f, n)
    ensures n + 2 <= |data|
    ensures var r := ParseFrom(next, [], data[n + 2..], 0);
      ParseFrom(next, [], data, 0) == After(n + 2, r).(lines := [f] + r.lines)
  {
    assert next(data[0..]) == Field(f, n) by {
      assert data[0..] == data;
    }
    ParseFromField(next, [], data, 0, f, n);
    var r0 := ParseFrom(next, [], data, n + 2);
    assert ParseFrom(next, [f], data, n + 2) == r0.(lines := [f] + r0.lines) by {
      ParseFromLines(next, [f], data, n + 2);
    }
    assert r0 == After(n + 2, ParseFrom(next, [], data[n + 2..], 0)) by {
      ParseFromShift(next, [], data, n + 2, 0);
    }
    assert [] + [f] == [f];
  }

  /** A run that begins with a field line: that line, then a run on what follows its CRLF. */
  lemma ParseFromCons(next: Bytes -> LineStep, line: Bytes, tail: Bytes, f: FieldLine)
    requires Bounded(next) && next(line + CRLF + tail) == Field(f, |line|)
    ensures var r := ParseFrom(next, [], tail, 0);
      ParseFrom(next, [], line + CRLF + tail, 0) == After(|line| + 2, r).(lines := [f] + r.lines)
  {
    var data := line + CRLF + tail;
    assert data[|line| + 2..] == tail;
    ParseFromHead(next, data, |line|, f);
  }

  lemma {:induction false} ParseFromBlock(next: Bytes -> LineStep, fs: seq<FieldLine>, rest: Bytes)
    requires Bounded(next) && ReadsBlock(next, fs, rest)
    ensures ParseFrom(next, [], FieldBlock(fs) + CRLF + rest, 0) == ParseResult(fs, |FieldBlock(fs)| + 2, true, None)
    decreases |fs|
  {
    if |fs| == 0 {
      assert FieldBlock(fs) + CRLF + rest == CRLF + rest;
      assert (CRLF + rest)[0..] == CRLF + rest;
    } else {
      FieldBlockCons(fs, rest);
      ParseFromCons(next, FieldLineBytes(fs[0]), FieldBlock(fs[1..]) + CRLF + rest, fs[0]);
      ParseFromBlock(next, fs[1..], rest);
      assert [fs[0]] + fs[1..] == fs;
    }
  }

  /**
   * Parsing a serialised header block and its blank line Sets exactly the
   * serialised fields, in order, and consumes the block and the blank line,
   * nothing after it.
   */
  lemma ParseFieldBlock(fs: seq<FieldLine>, rest: Bytes)
    requires AllWellFormed(fs)
    ensures ParseFields(FieldBlock(fs) + CRLF + rest) == ParseResult(fs, |FieldBlock(fs)| + 2, true, None)
  {
    NextLineBounded();
    NextLineReadsBlock(fs, rest);
    ParseFromBlock(NextLine, fs, rest);
  }

  /** A line classifier that reads back each line of the serialised block `fs`, whatever `tail` follows it. */
  ghost predicate ReadsLines(next: Bytes -> LineStep, fs: seq<FieldLine>, tail: Bytes)
    decreases |fs|
  {
    |fs| == 0 ||
      (&& next(FieldLineBytes(fs[0]) + CRLF + (FieldBlock(fs[1..]) + tail)) == Field(fs[0], |FieldLineBytes(fs[0])|)
       && ReadsLines(next, fs[1..], tail))
  }

  lemma {:induction false} NextLineReadsLines(fs: seq<FieldLine>, tail: Bytes)
    requires AllWellFormed(fs)
    ensures ReadsLines(NextLine, fs, tail)
    decreases |fs|
  {
    if |fs| > 0 {
      FieldLineStep(fs[0], FieldBlock(fs[1..]) + tail);
      NextLineReadsLines(fs[1..], tail);
    }
  }

  /** A non-empty serialised block, then `tail`: its first line and that line's CRLF, then the rest. */
  lemma FieldBlockConsTail(fs: seq<FieldLine>, tail: Bytes)
    requires |fs| > 0
    ensures FieldBlock(fs) + tail == FieldLineBytes(fs[0]) + CRLF + (FieldBlock(fs[1..]) + tail)
    ensures |FieldBlock(fs)| == |FieldLineBytes(fs[0])| + 2 + |FieldBlock(fs[1..])|
  {
    var a, b := FieldLineBytes(fs[0]), FieldBlock(fs[1..]);
    assert FieldBlock(fs) == a + CRLF + b;
    AppendAssoc(a + CRLF, b, tail);
  }

  /** Reading a run of serialised lines first, then whatever the loop makes of `tail`. */
  lemma {:induction false} ParseFromLinesThen(next: Bytes -> LineStep, fs: seq<FieldLine>, tail: Bytes)
    requires Bounded(next) && ReadsLines(next, fs, tail)
    ensures var r := ParseFrom(next, [], tail, 0);
      ParseFrom(next, [], FieldBlock(fs) + tail, 0) == After(|FieldBlock(fs)|, r).(lines := fs + r.lines)
    decreases |fs|
  {
    var r := ParseFrom(next, [], tail, 0);
    if |fs| == 0 {
      assert FieldBlock(fs) + tail == tail;
      assert fs + r.lines == r.lines;
    } else {
      var line, u := FieldLineBytes(fs[0]), FieldBlock(fs[1..]) + tail;
      var p := ParseFrom(next, [], FieldBlock(fs) + tail, 0);
      var r1 := ParseFrom(next, [], u, 0);
      assert p == After(|line| + 2, r1).(lines := [fs[0]] + r1.lines) by {
        FieldBlockConsTail(fs, tail);
        ParseFromCons(next, line, u, fs[0]);
      }
      assert r1 == After(|FieldBlock(fs[1..])|, r).(lines := fs[1..] + r.lines) by {
        ParseFromLinesThen(next, fs[1..], tail);
      }
      assert |FieldBlock(fs)| == |line| + 2 + |FieldBlock(fs[1..])| by {
        FieldBlockConsTail(fs, tail);
      }
      AfterThen(p, r1, r, |line| + 2, |FieldBlock(fs[1..])|, fs);
    }
  }

  /** Two runs of lines in a row, the first one being the line `fs[0]` and the second one the rest of `fs`. */
  lemma AfterThen(p: ParseResult, r1: ParseResult, r: ParseResult, a: nat, b: nat, fs: seq<FieldLine>)
    requires |fs| > 0
    requires p == After(a, r1).(lines := [fs[0]] + r1.lines)
    requires r1 == After(b, r).(lines := fs[1..] + r.lines)
    ensures p == After(a + b, r).(lines := fs + r.lines)
  {
    assert [fs[0]] + (fs[1..] + r.lines) == fs + r.lines;
  }

  /**
   * Parsing serialised field lines not yet ended by the blank line, then
   * bytes holding no CRLF: Parse Sets exactly those fields, in order,
   * consumes each line and its CRLF (line lengths plus 2 each) and nothing
   * of the incomplete rest, and is not done.
   */
  lemma ParseFieldLines(fs: seq<FieldLine>, tail: Bytes)
    requires AllWellFormed(fs) && IndexCrlf(tail).None?
    ensures ParseFields(FieldBlock(fs) + tail) == ParseResult(fs, |FieldBlock(fs)|, false, None)
  {
    NextLineBounded();
    NextLineReadsLines(fs, tail);
    ParseFromLinesThen(NextLine, fs, tail);
    assert ParseFrom(NextLine, [], tail, 0) == ParseResult([], 0, false, None) by {
      assert tail[0..] == tail;
    }
    assert fs + [] == fs;
  }

  // ---------------------------------------------------------------------
  // The collection object

  class Headers {

    var fields: Fields

    /** NewHeaders: an empty collection. */
    constructor ()
      ensures fields == map[]
    {
      fields := map[];
    }

    function Get(key: Bytes): Option<Bytes>
      reads this
    {
      Lookup(fields, key)
    }

    function GetInt(key: Bytes, default: int): int
      reads this
    {
      GetIntOf(fields, key, default)
    }

    method Set(key: Bytes, value: Bytes)
      modifies this
      ensures fields == SetField(old(fields), key, value)
    {
      var k := ToLower(key);
      if k in fields {
        fields := fields[k := fields[k] + CommaSpace + value];
      } else {
        fields := fields[k := value];
      }
    }

    /** Replace: overwrite the value under `key` exactly as given, without lower-casing it. */
    method Replace(key: Bytes, value: Bytes)
      modifies this
      ensures fields == old(fields)[key := value]
      ensures Lookup(fields, key) == Some(value) <== ToLower(key) == key
      ensures ToLower(key) != key ==> Lookup(fields, key) == old(Lookup(fields, key))
    {
      fields := fields[key := value];
    }

    /**
     * Parse: Set each complete field line of `data` until the blank line,
     * an incomplete line or a refused line.
     */
    method Parse(data: Bytes) returns (read: nat, done: bool, err: Option<HeaderError>)
      modifies this
      ensures var r := ParseFields(data);
        read == r.read && done == r.done && err == r.err && fields == SetAll(old(fields), r.lines)
    {
      NextLineBounded();
      read, done, err := 0, false, None;
      ghost var lines: seq<FieldLine> := [];
      while true
        invariant read <= |data|
        invariant ParseFields(data) == ParseFrom(NextLine, lines, data, read)
        invariant fields == SetAll(old(fields), lines)
        decreases |data| - read
      {
        var idx := IndexCrlf(data[read..]);
        if idx.None? {
          assert ParseFrom(NextLine, lines, data, read) == ParseResult(lines, read, false, None);
          break;
        }
        if idx.value == 0 {
          assert ParseFrom(NextLine, lines, data, read) == ParseResult(lines, read + 2, true, None);
          done := true;
          read := read + |CRLF|;
          break;
        }
        var parsed := ParseFieldLine(data[read..read + idx.value]);
        assert NextLine(data[read..]) ==
          match parsed
          case Err(e) => Refused(e)
          case Ok(f) => if IsToken(f.name) then Field(f, idx.value) else Refused(MalformedHeaderName)
        by {
          assert data[read..][..idx.value] == data[read..read + idx.value];
        }
        if parsed.Err? {
          return 0, false, Some(parsed.error);
        }
        var f := parsed.value;
        if !IsToken(f.name) {
          return 0, false, Some(MalformedHeaderName);
        }
        ParseFromField(NextLine, lines, data, read, f, idx.value);
        assert SetAll(old(fields), lines + [f]) == SetField(fields, f.name, f.value) by {
          SetAllSnoc(old(fields), lines, f);
        }
        Set(f.name, f.value);
        lines := lines + [f];
        read := read + idx.value + |CRLF|;
      }
    }
  }

  /** GetDefaultHeaders: content-length, connection: close and content-type: text/plain. */
  method GetDefaultHeaders(contentLength: int) returns (h: Headers)
    ensures fresh(h)
    ensures h.fields == DefaultFields(contentLength)
  {
    h := new Headers();
    h.Set(ContentLengthName, FormatInt(contentLength));
    h.Set(ConnectionName, Ascii("close"));
    h.Set(ContentTypeName, Ascii("text/plain"));
  }
}
