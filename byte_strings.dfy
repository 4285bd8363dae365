// Option and Result types shared by every module of the model.
module Wrappers {

  datatype Option<T> = None | Some(value: T)

  datatype Result<T, E> = Ok(value: T) | Err(error: E)
}

/**
 * The byte-slice helpers of Go's standard library that the parser calls
 * (bytes.Index, bytes.Split, bytes.SplitN, bytes.TrimSpace, bytes.HasSuffix,
 * strings.ToLower, strconv.Atoi and fmt.Sprintf("%d")), restricted to what
 * they do on the bytes an HTTP/1.1 message carries.
 */
module ByteStrings {

  import opened Wrappers

  type byte = x: int | 0 <= x < 256
  type Bytes = seq<byte>

  const CR: byte := 13
  const LF: byte := 10
  const SP: byte := 32
  const COLON: byte := 58
  const SLASH: byte := 47
  const PLUS: byte := 43
  const MINUS: byte := 45
  const CRLF: Bytes := [CR, LF]

  const MinInt64: int := -0x8000_0000_0000_0000
  const MaxInt64: int := 0x7fff_ffff_ffff_ffff

  /** The bytes of an ASCII string literal. */
  function Ascii(s: string): (r: Bytes)
    requires forall i | 0 <= i < |s| :: s[i] as int < 128
    ensures |r| == |s|
    ensures forall i | 0 <= i < |s| :: r[i] == s[i] as int
  {
    seq(|s|, i requires 0 <= i < |s| => s[i] as int)
  }

  // ---------------------------------------------------------------------
  // bytes.Index(s, "\r\n")

  predicate CrlfAt(s: Bytes, i: int) {
    0 <= i && i + 1 < |s| && s[i] == CR && s[i + 1] == LF
  }

  /** Dropping a prefix of `a` from `a + b` leaves the rest of `a` followed by `b`. */
  lemma DropAppend(a: Bytes, b: Bytes, k: nat)
    requires k <= |a|
    ensures (a + b)[k..] == a[k..] + b
  {
  }

  /** Concatenation is associative. */
  lemma AppendAssoc(a: Bytes, b: Bytes, c: Bytes)
    ensures (a + b) + c == a + (b + c)
  {
  }

  /** Dropping `j` bytes and then `k` more is dropping `j + k`. */
  lemma DropDrop(s: Bytes, j: nat, k: nat)
    requires j + k <= |s|
    ensures s[j..][k..] == s[j + k..]
  {
  }

  /** The offset of the first CRLF in `s`, or None when `s` holds none. */
  function IndexCrlf(s: Bytes): (r: Option<nat>)
    ensures r.Some? ==> r.value + 2 <= |s|
  {
    if |s| < 2 then None
    else if s[0] == CR && s[1] == LF then Some(0)
    else match IndexCrlf(s[1..])
      case None => None
      case Some(k) => Some(k + 1)
  }

  /** IndexCrlf finds the first CRLF, and finds none only when there is none. */
  lemma {:induction false} IndexCrlfFirst(s: Bytes)
    ensures IndexCrlf(s).None? ==> forall j :: !CrlfAt(s, j)
    ensures IndexCrlf(s).Some? ==> CrlfAt(s, IndexCrlf(s).value) && forall j :: 0 <= j < IndexCrlf(s).value ==> !CrlfAt(s, j)
  {
    if |s| >= 2 && !(s[0] == CR && s[1] == LF) {
      IndexCrlfFirst(s[1..]);
      assert forall j :: 0 < j ==> (CrlfAt(s, j) <==> CrlfAt(s[1..], j - 1));
    }
  }

  /** A CRLF at `i` with none before it is the one IndexCrlf finds. */
  lemma IndexCrlfIs(s: Bytes, i: nat)
    requires CrlfAt(s, i)
    requires forall j | 0 <= j < i :: !CrlfAt(s, j)
    ensures IndexCrlf(s) == Some(i)
  {
    IndexCrlfFirst(s);
  }

  /** A CRLF found in `a` is still the first one once more bytes are appended. */
  lemma IndexCrlfAppend(a: Bytes, b: Bytes)
    requires IndexCrlf(a).Some?
    ensures IndexCrlf(a + b) == IndexCrlf(a)
  {
    IndexCrlfFirst(a);
    IndexCrlfFirst(a + b);
    var i := IndexCrlf(a).value;
    assert CrlfAt(a + b, i);
    forall j | 0 <= j < i ensures !CrlfAt(a + b, j) {
      assert !CrlfAt(a, j);
    }
  }

  // ---------------------------------------------------------------------
  // bytes.Split(s, []byte{sep}) and its inverse, the join on `sep`

  /** The parts of `s` between occurrences of `sep`: `bytes.Split` with a one-byte separator. */
  function Split(s: Bytes, sep: byte): (parts: seq<Bytes>)
    ensures |parts| >= 1
    ensures forall p | p in parts :: sep !in p
    ensures Join(parts, sep) == s
  {
    if |s| == 0 then [[]]
    else
      var rest := Split(s[1..], sep);
      if s[0] == sep then
        assert [s[0]] + s[1..] == s;
        [[]] + rest
      else
        var parts := [[s[0]] + rest[0]] + rest[1..];
        assert parts[1..] == rest[1..];
        JoinHead(rest, sep);
        JoinHead(parts, sep);
        assert Join(parts, sep) == [s[0]] + Join(rest, sep);
        assert [s[0]] + s[1..] == s;
        parts
  }

  function Join(parts: seq<Bytes>, sep: byte): Bytes
    requires |parts| >= 1
  {
    if |parts| == 1 then parts[0] else parts[0] + [sep] + Join(parts[1..], sep)
  }

  lemma JoinHead(parts: seq<Bytes>, sep: byte)
    requires |parts| >= 1
    ensures Join(parts, sep) == parts[0] + (if |parts| == 1 then [] else [sep] + Join(parts[1..], sep))
  {
  }

  /** Splitting a join of separator-free parts gives the parts back. */
  lemma {:induction false} SplitJoin(parts: seq<Bytes>, sep: byte)
    requires |parts| >= 1
    requires forall p | p in parts :: sep !in p
    ensures Split(Join(parts, sep), sep) == parts
  {
    if |parts| == 1 {
      SplitWithoutSep(parts[0], sep);
    } else {
      assert parts[0] in parts;
      forall p | p in parts[1..] ensures sep !in p {
        assert p in parts;
      }
      SplitJoin(parts[1..], sep);
      SplitAfterFirst(parts[0], Join(parts[1..], sep), sep);
      assert parts == [parts[0]] + parts[1..];
    }
  }

  /** `s` splits into one part more than it holds separators. */
  lemma {:induction false} SplitCount(s: Bytes, sep: byte)
    ensures |Split(s, sep)| == multiset(s)[sep] + 1
  {
    if |s| > 0 {
      assert s == [s[0]] + s[1..];
      assert multiset(s) == multiset([s[0]]) + multiset(s[1..]);
      SplitCount(s[1..], sep);
    }
  }

  lemma {:induction false} SplitWithoutSep(x: Bytes, sep: byte)
    requires sep !in x
    ensures Split(x, sep) == [x]
  {
    if |x| > 0 {
      assert x[0] in x;
      assert sep !in x[1..] by {
        forall k | 0 <= k < |x| - 1 ensures x[1..][k] != sep { assert x[1..][k] == x[k + 1]; }
      }
      SplitWithoutSep(x[1..], sep);
      assert [x[0]] + x[1..] == x;
    }
  }

  lemma {:induction false} SplitAfterFirst(x: Bytes, y: Bytes, sep: byte)
    requires sep !in x
    ensures Split(x + [sep] + y, sep) == [x] + Split(y, sep)
  {
    var s := x + [sep] + y;
    if |x| == 0 {
      assert s[1..] == y;
    } else {
      assert x[0] in x;
      assert sep !in x[1..] by {
        forall k | 0 <= k < |x| - 1 ensures x[1..][k] != sep { assert x[1..][k] == x[k + 1]; }
      }
      assert s[1..] == x[1..] + [sep] + y;
      SplitAfterFirst(x[1..], y, sep);
      assert [x[0]] + x[1..] == x;
    }
  }

  // ---------------------------------------------------------------------
  // bytes.SplitN(s, []byte{sep}, 2): split at the first occurrence of `sep`

  /** The offset of the first `sep` in `s`, if any. */
  function IndexByte(s: Bytes, sep: byte): (r: Option<nat>)
    ensures r.Some? ==> r.value < |s|
  {
    if |s| == 0 then None
    else if s[0] == sep then Some(0)
    else match IndexByte(s[1..], sep)
      case None => None
      case Some(k) => Some(k + 1)
  }

  /** IndexByte finds the first `sep`, and finds none only when there is none. */
  lemma {:induction false} IndexByteFirst(s: Bytes, sep: byte)
    ensures IndexByte(s, sep).None? ==> forall j | 0 <= j < |s| :: s[j] != sep
    ensures IndexByte(s, sep).Some? ==> s[IndexByte(s, sep).value] == sep && forall j | 0 <= j < IndexByte(s, sep).value :: s[j] != sep
  {
    if |s| > 0 && s[0] != sep {
      IndexByteFirst(s[1..], sep);
    }
  }

  /** A `sep` at `c` with none before it is the one IndexByte finds. */
  lemma IndexByteIs(s: Bytes, sep: byte, c: nat)
    requires c < |s| && s[c] == sep
    requires forall j | 0 <= j < c :: s[j] != sep
    ensures IndexByte(s, sep) == Some(c)
  {
    IndexByteFirst(s, sep);
  }

  // ---------------------------------------------------------------------
  // bytes.TrimSpace over ASCII white space

  predicate IsSpace(b: byte) {
    b == 9 || b == 10 || b == 11 || b == 12 || b == 13 || b == 32
  }

  /** True when `s` neither starts nor ends with white space. */
  predicate Trimmed(s: Bytes) {
    |s| == 0 || (!IsSpace(s[0]) && !IsSpace(s[|s| - 1]))
  }

  function LeadingSpaces(s: Bytes): (n: nat)
    ensures n <= |s|
  {
    if |s| == 0 || !IsSpace(s[0]) then 0 else 1 + LeadingSpaces(s[1..])
  }

  function TrailingSpaces(s: Bytes): (n: nat)
    ensures n <= |s|
  {
    if |s| == 0 || !IsSpace(s[|s| - 1]) then 0 else 1 + TrailingSpaces(s[..|s| - 1])
  }

  lemma {:induction false} LeadingSpacesAll(s: Bytes)
    ensures forall k | 0 <= k < LeadingSpaces(s) :: IsSpace(s[k])
    ensures LeadingSpaces(s) < |s| ==> !IsSpace(s[LeadingSpaces(s)])
  {
    if |s| > 0 && IsSpace(s[0]) {
      LeadingSpacesAll(s[1..]);
    }
  }

  lemma {:induction false} TrailingSpacesAll(s: Bytes)
    ensures forall k | |s| - TrailingSpaces(s) <= k < |s| :: IsSpace(s[k])
    ensures TrailingSpaces(s) < |s| ==> !IsSpace(s[|s| - 1 - TrailingSpaces(s)])
  {
    if |s| > 0 && IsSpace(s[|s| - 1]) {
      TrailingSpacesAll(s[..|s| - 1]);
    }
  }

  /**
   * `s` without its leading and trailing white space: the result is the
   * longest middle part of `s` that is surrounded only by white space.
   */
  function TrimSpace(s: Bytes): Bytes {
    var t := s[LeadingSpaces(s)..];
    t[..|t| - TrailingSpaces(t)]
  }

  /** The trimmed result is a middle slice of `s`, with only white space around it, and no white space at its ends. */
  lemma TrimSpaceSlice(s: Bytes)
    ensures Trimmed(TrimSpace(s))
    ensures exists i, j | 0 <= i <= j <= |s| :: TrimSpace(s) == s[i..j] && TrimBounds(s, i, j)
  {
    var l := LeadingSpaces(s);
    var t := s[l..];
    var n := TrailingSpaces(t);
    var r := t[..|t| - n];
    LeadingSpacesAll(s);
    TrailingSpacesAll(t);
    assert r == s[l..l + |r|];
    assert TrimBounds(s, l, l + |r|);
    if |r| > 0 {
      assert r[0] == s[l];
    }
  }

  /** Everything outside `s[i..j]` is white space. */
  predicate TrimBounds(s: Bytes, i: int, j: int)
    requires 0 <= i <= j <= |s|
  {
    (forall k | 0 <= k < i :: IsSpace(s[k])) && (forall k | j <= k < |s| :: IsSpace(s[k]))
  }

  /** Trimming leaves a trimmed sequence with white space around it unchanged but for that white space. */
  lemma {:induction false} TrimSpaceAround(pre: Bytes, s: Bytes, post: Bytes)
    requires forall k | 0 <= k < |pre| :: IsSpace(pre[k])
    requires forall k | 0 <= k < |post| :: IsSpace(post[k])
    requires Trimmed(s)
    ensures TrimSpace(pre + s + post) == s
  {
    var w := pre + s + post;
    if |s| == 0 {
      assert forall k | 0 <= k < |w| :: IsSpace(w[k]);
      assert LeadingSpaces(w) == |w| by {
        AllSpaceLeading(w);
      }
    } else {
      assert LeadingSpaces(w) == |pre| by {
        LeadingSpacesExact(w, |pre|);
      }
      var t := w[|pre|..];
      assert t == s + post;
      assert TrailingSpaces(t) == |post| by {
        TrailingSpacesExact(t, |post|);
      }
      assert t[..|t| - |post|] == s;
    }
  }

  lemma {:induction false} AllSpaceLeading(s: Bytes)
    requires forall k | 0 <= k < |s| :: IsSpace(s[k])
    ensures LeadingSpaces(s) == |s|
  {
    if |s| > 0 {
      AllSpaceLeading(s[1..]);
    }
  }

  lemma {:induction false} LeadingSpacesExact(s: Bytes, n: nat)
    requires n < |s| && !IsSpace(s[n])
    requires forall k | 0 <= k < n :: IsSpace(s[k])
    ensures LeadingSpaces(s) == n
  {
    if n > 0 {
      LeadingSpacesExact(s[1..], n - 1);
    }
  }

  lemma {:induction false} TrailingSpacesExact(s: Bytes, n: nat)
    requires n < |s| && !IsSpace(s[|s| - 1 - n])
    requires forall k | |s| - n <= k < |s| :: IsSpace(s[k])
    ensures TrailingSpaces(s) == n
  {
    if n > 0 {
      TrailingSpacesExact(s[..|s| - 1], n - 1);
    }
  }

  // ---------------------------------------------------------------------
  // strings.ToLower over ASCII

  function LowerByte(b: byte): byte {
    if 65 <= b <= 90 then b + 32 else b
  }

  /** `s` with every ASCII upper-case letter replaced by its lower-case form. */
  function ToLower(s: Bytes): (r: Bytes)
    ensures |r| == |s|
    ensures forall i | 0 <= i < |s| :: r[i] == LowerByte(s[i])
  {
    seq(|s|, i requires 0 <= i < |s| => LowerByte(s[i]))
  }

  // ---------------------------------------------------------------------
  // strconv.Atoi and fmt.Sprintf("%d") on a 64-bit int

  predicate IsDigit(b: byte) {
    48 <= b <= 57
  }

  predicate AllDigits(s: Bytes) {
    forall i | 0 <= i < |s| :: IsDigit(s[i])
  }

  /** The value of a string of decimal digits, most significant first. */
  function DigitsValue(s: Bytes): nat
    requires AllDigits(s)
  {
    if |s| == 0 then 0 else 10 * DigitsValue(s[..|s| - 1]) + (s[|s| - 1] - 48)
  }

  /**
   * strconv.Atoi: an optional sign followed by at least one decimal digit,
   * whose value must fit in a 64-bit int; anything else is an error (None).
   */
  function Atoi(s: Bytes): (r: Option<int>)
    ensures r.Some? ==> MinInt64 <= r.value <= MaxInt64
    ensures r.Some? ==> |Unsigned(s)| >= 1 && AllDigits(Unsigned(s))
  {
    if |s| == 0 then None
    else
      var digits := Unsigned(s);
      if |digits| == 0 || !AllDigits(digits) then None
      else
        var n: int := DigitsValue(digits);
        var v := if s[0] == MINUS then -n else n;
        if MinInt64 <= v <= MaxInt64 then Some(v) else None
  }

  /** `s` without a leading sign. */
  function Unsigned(s: Bytes): Bytes {
    if |s| > 0 && (s[0] == PLUS || s[0] == MINUS) then s[1..] else s
  }

  /** The decimal digits of `n`, without leading zeros. */
  function DecimalDigits(n: nat): (r: Bytes)
    ensures |r| >= 1 && AllDigits(r)
    decreases n
  {
    if n < 10 then [48 + n] else DecimalDigits(n / 10) + [48 + n % 10]
  }

  /** fmt.Sprintf("%d", n). */
  function FormatInt(n: int): (r: Bytes)
    ensures |r| >= 1
  {
    if n < 0 then [MINUS] + DecimalDigits(-n) else DecimalDigits(n)
  }

  lemma {:induction false} DecimalDigitsValue(n: nat)
    ensures DigitsValue(DecimalDigits(n)) == n
    decreases n
  {
    if n >= 10 {
      var d := DecimalDigits(n / 10);
      var s := d + [48 + n % 10];
      assert s[..|s| - 1] == d;
      DecimalDigitsValue(n / 10);
    }
  }

  /** Atoi reads back every 64-bit integer that FormatInt writes. */
  lemma AtoiFormatInt(n: int)
    requires MinInt64 <= n <= MaxInt64
    ensures Atoi(FormatInt(n)) == Some(n)
  {
    var s := FormatInt(n);
    if n < 0 {
      assert Unsigned(s) == DecimalDigits(-n);
      DecimalDigitsValue(-n);
    } else {
      assert IsDigit(s[0]);
      assert Unsigned(s) == s;
      DecimalDigitsValue(n);
    }
  }

  /** A value holding any byte other than digits, after an optional leading sign, is not a number. */
  lemma AtoiRejectsNonDigit(s: Bytes, i: nat)
    requires 0 < i < |s| || (i == 0 < |s| && s[0] != PLUS && s[0] != MINUS)
    requires !IsDigit(s[i])
    ensures Atoi(s) == None
  {
    var d := Unsigned(s);
    if s[0] == PLUS || s[0] == MINUS {
      assert d[i - 1] == s[i];
    } else {
      assert d[i] == s[i];
    }
  }
}
