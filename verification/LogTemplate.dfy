/** Substituting expressions into a logpoint's message format (LoggingClient.cs). */
module LogTemplates {
  import opened Wrappers
  import opened Strings
  import Decimal

  const LOGPOINT_MESSAGE_START := "LOGPOINT: "
  const INT32_MAX: nat := 0x7FFF_FFFF

  /** The exceptions the substitution can raise. */
  datatype SubstituteError = IndexOutOfRange | Overflow | BadFormat

  type Text = Result<string, SubstituteError>

  // ---------------------------------------------------------------- substitution, as a function

  /** Where the runs of ten decimal digits other than the ASCII ones begin (Unicode category Nd). */
  const OTHER_ZEROS: seq<int> := [
    0x0660, 0x06F0, 0x07C0, 0x0966, 0x09E6, 0x0A66, 0x0AE6, 0x0B66, 0x0BE6, 0x0C66, 0x0CE6, 0x0D66,
    0x0DE6, 0x0E50, 0x0ED0, 0x0F20, 0x1040, 0x1090, 0x17E0, 0x1810, 0x1946, 0x19D0, 0x1A80, 0x1A90,
    0x1B50, 0x1BB0, 0x1C40, 0x1C50, 0xA620, 0xA8D0, 0xA900, 0xA9D0, 0xA9F0, 0xAA50, 0xABF0, 0xFF10]

  predicate IsOtherDigit(c: char) {
    exists zero :: zero in OTHER_ZEROS && zero <= c as int < zero + 10
  }

  /** Char.IsDigit. */
  predicate IsDigit(c: char) {
    Decimal.IsDigit(c) || (0x0660 <= c as int && IsOtherDigit(c))
  }

  /** A run of digits is ten characters long, with none just before or after it. */
  lemma DigitRuns(zero: int, c: char)
    requires zero in OTHER_ZEROS && zero - 1 <= c as int <= zero + 10
    ensures IsDigit(c) <==> zero <= c as int < zero + 10
  {
    RunsAreLate(zero);
    if other :| other in OTHER_ZEROS && other <= c as int < other + 10 {
      SameRun(zero, other, c as int);
    }
  }

  lemma RunsAreLate(zero: int)
    requires zero in OTHER_ZEROS
    ensures 0x0660 <= zero
  {
    var i :| 0 <= i < |OTHER_ZEROS| && OTHER_ZEROS[i] == zero;
    if i > 0 {
      LaterRun(0, i);
    }
  }

  lemma SameRun(zero: int, other: int, c: int)
    requires zero in OTHER_ZEROS && other in OTHER_ZEROS
    requires zero - 1 <= c <= zero + 10 && other <= c < other + 10
    ensures other == zero
  {
    var i :| 0 <= i < |OTHER_ZEROS| && OTHER_ZEROS[i] == zero;
    var j :| 0 <= j < |OTHER_ZEROS| && OTHER_ZEROS[j] == other;
    RunsApart(i, j, zero, other);
  }

  lemma RunsApart(i: nat, j: nat, zero: int, other: int)
    requires i < |OTHER_ZEROS| && j < |OTHER_ZEROS| && OTHER_ZEROS[i] == zero && OTHER_ZEROS[j] == other
    ensures zero == other || zero + 11 < other || other + 11 < zero
  {
    if i < j {
      LaterRun(i, j);
    } else if j < i {
      LaterRun(j, i);
    }
  }

  lemma NextRun(i: nat)
    requires i + 1 < |OTHER_ZEROS|
    ensures OTHER_ZEROS[i] + 11 < OTHER_ZEROS[i + 1]
  {
  }

  lemma {:induction false} LaterRun(i: nat, j: nat)
    requires i < j < |OTHER_ZEROS|
    ensures OTHER_ZEROS[i] + 11 < OTHER_ZEROS[j]
    decreases j
  {
    NextRun(j - 1);
    if i < j - 1 {
      LaterRun(i, j - 1);
    }
  }

  predicate AllDigits(s: string) {
    forall c :: c in s ==> IsDigit(c)
  }

  /** The digits at the front of a text. */
  function LeadingDigits(s: string): (d: string)
    ensures d <= s && AllDigits(d)
    ensures |d| < |s| ==> !IsDigit(s[|d|])
  {
    if s == [] || !IsDigit(s[0]) then [] else [s[0]] + LeadingDigits(s[1..])
  }

  /** Int32.Parse, of a text made of digits; it knows only the ASCII ones. */
  function ParseInt32(digits: string): Result<nat, SubstituteError>
    requires AllDigits(digits)
  {
    if !Decimal.IsNumeral(digits) then Failure(BadFormat)
    else if Decimal.Parse(digits) > INT32_MAX then Failure(Overflow)
    else Success(Decimal.Parse(digits))
  }

  /** What stands in for argument n. */
  function Argument(n: nat, expressions: seq<string>): string {
    if n < |expressions| then expressions[n] else "{" + Decimal.Print(n) + " cannot be evaluated}"
  }

  function After(front: string, rest: Text): Text {
    var r :- rest;
    Success(front + r)
  }

  /** The message a format stands for, read character by character. */
  function Substitute(format: string, expressions: seq<string>): Text
    decreases |format|
  {
    if format == [] then Success("")
    else if format[0] != '$' then After([format[0]], Substitute(format[1..], expressions))
    else if |format| == 1 then Failure(IndexOutOfRange)
    else if format[1] == '$' then After("$", Substitute(format[2..], expressions))
    else if !IsDigit(format[1]) then After("$", Substitute(format[1..], expressions))
    else
      var digits := LeadingDigits(format[1..]);
      var n :- ParseInt32(digits);
      After(Argument(n, expressions), Substitute(format[1 + |digits|..], expressions))
  }

  // ---------------------------------------------------------------- the code

  lemma AfterAfter(a: string, b: string, rest: Text)
    ensures After(a, After(b, rest)) == After(a + b, rest)
  {
    if rest.Success? {
      assert a + (b + rest.value) == (a + b) + rest.value;
    }
  }

  lemma {:induction false} LeadingDigitsOf(digits: string, rest: string)
    requires AllDigits(digits) && (rest == [] || !IsDigit(rest[0]))
    ensures LeadingDigits(digits + rest) == digits
    decreases |digits|
  {
    if digits == [] {
      assert [] + rest == rest;
    } else {
      assert digits[0] in digits && (digits + rest)[1..] == digits[1..] + rest;
      LeadingDigitsOf(digits[1..], rest);
    }
  }

  method ReadNumber(format: string, start: nat) returns (currentNumberString: string, i: nat)
    requires start < |format|
    ensures currentNumberString == LeadingDigits(format[start..]) && i == start + |currentNumberString|
    ensures i <= |format|
  {
    currentNumberString := "";
    i := start;
    while i < |format| && IsDigit(format[i])
      invariant start <= i <= |format|
      invariant currentNumberString == format[start..i] && AllDigits(currentNumberString)
    {
      currentNumberString := currentNumberString + [format[i]];
      i := i + 1;
    }
    LeadingDigitsOf(currentNumberString, format[i..]);
    assert format[start..] == format[start..i] + format[i..];
  }

  /**
   * The message when the text up to offset is in the result, the text from there to i is still to
   * be copied, and the rest is still to be read.
   */
  function Pending(result: string, format: string, offset: nat, i: nat, expressions: seq<string>): Text
    requires offset <= i <= |format|
  {
    After(result + format[offset..i], Substitute(format[i..], expressions))
  }

  lemma PendingPlain(result: string, format: string, offset: nat, i: nat, expressions: seq<string>)
    requires offset <= i < |format| && format[i] != '$'
    ensures Pending(result, format, offset, i, expressions) == Pending(result, format, offset, i + 1, expressions)
  {
    assert format[i..][1..] == format[i + 1..];
    assert format[offset..i + 1] == format[offset..i] + [format[i]];
    AfterAfter(result + format[offset..i], [format[i]], Substitute(format[i + 1..], expressions));
    Assoc(result, format[offset..i], [format[i]]);
  }

  lemma PendingFlush(result: string, front: string, format: string, i: nat, expressions: seq<string>)
    requires i <= |format|
    ensures After(result, After(front, Substitute(format[i..], expressions))) ==
            Pending(result + front, format, i, i, expressions)
  {
    AfterAfter(result, front, Substitute(format[i..], expressions));
    assert (result + front) + format[i..i] == result + front;
  }

  lemma PendingDollar(result: string, format: string, offset: nat, i: nat, expressions: seq<string>)
    requires offset <= i && i + 1 < |format| && format[i] == '$' == format[i + 1]
    ensures Pending(result, format, offset, i, expressions) ==
            Pending(result + format[offset..i] + "$", format, i + 2, i + 2, expressions)
  {
    assert format[i..][2..] == format[i + 2..];
    PendingFlush(result + format[offset..i], "$", format, i + 2, expressions);
  }

  lemma PendingLoneDollar(result: string, format: string, offset: nat, i: nat, expressions: seq<string>)
    requires offset <= i < |format| && format[i] == '$'
    requires i + 1 < |format| ==> format[i + 1] != '$' && !IsDigit(format[i + 1])
    ensures Pending(result, format, offset, i, expressions) ==
            if i + 1 == |format| then Failure(IndexOutOfRange)
            else Pending(result + format[offset..i], format, i, i + 1, expressions)
  {
    assert format[i..][1..] == format[i + 1..];
    assert format[i..i + 1] == "$";
    AfterAfter(result + format[offset..i], "$", Substitute(format[i + 1..], expressions));
  }

  lemma PendingReference(result: string, format: string, offset: nat, i: nat, next: nat, expressions: seq<string>)
    requires offset <= i && i + 1 < |format| && format[i] == '$' && IsDigit(format[i + 1])
    requires next == i + 1 + |LeadingDigits(format[i + 1..])|
    ensures next <= |format|
    ensures Pending(result, format, offset, i, expressions) ==
            match ParseInt32(LeadingDigits(format[i + 1..]))
            case Failure(e) => Failure(e)
            case Success(n) =>
              Pending(result + format[offset..i] + Argument(n, expressions), format, next, next, expressions)
  {
    assert format[i..][1..] == format[i + 1..];
    assert format[i..][next - i..] == format[next..];
    var n := ParseInt32(LeadingDigits(format[i + 1..]));
    if n.Success? {
      PendingFlush(result + format[offset..i], Argument(n.value, expressions), format, next, expressions);
    }
  }

  lemma PendingStart(result: string, format: string, expressions: seq<string>)
    ensures Pending(result, format, 0, 0, expressions) == After(result, Substitute(format, expressions))
  {
    assert format[0..] == format && result + format[0..0] == result;
  }

  lemma PendingEnd(result: string, format: string, offset: nat, expressions: seq<string>)
    requires offset <= |format|
    ensures Pending(result, format, offset, |format|, expressions) == Success(result + format[offset..])
    ensures offset == |format| ==> result + format[offset..] == result
  {
    assert format[offset..|format|] == format[offset..];
    assert (result + format[offset..]) + "" == result + format[offset..];
  }

  method SubstituteLogMessageFormat(messageFormat: string, evaluatedExpressions: seq<string>) returns (r: Text)
    ensures r == After("LOGPOINT: ", Substitute(messageFormat, evaluatedExpressions))
  {
    var result := LOGPOINT_MESSAGE_START;
    var offset: nat, i: nat := 0, 0;
    PendingStart(result, messageFormat, evaluatedExpressions);
    ghost var expected := Pending(result, messageFormat, 0, 0, evaluatedExpressions);
    while i < |messageFormat|
      invariant offset <= i <= |messageFormat|
      invariant Pending(result, messageFormat, offset, i, evaluatedExpressions) == expected
      decreases |messageFormat| - i
    {
      if messageFormat[i] != '$' {
        PendingPlain(result, messageFormat, offset, i, evaluatedExpressions);
        i := i + 1;
        continue;
      }
      var handled := SubstituteAt(result, messageFormat, offset, i, evaluatedExpressions);
      if handled.Failure? {
        return Failure(handled.error);
      }
      result, offset, i := handled.value.0, handled.value.1, handled.value.2;
    }
    PendingEnd(result, messageFormat, offset, evaluatedExpressions);
    if offset < |messageFormat| {
      result := result + messageFormat[offset..];
    }
    return Success(result);
  }

  /** One turn of the loop at a '$': the new result, offset and i. */
  method SubstituteAt(result: string, messageFormat: string, offset: nat, i: nat, evaluatedExpressions: seq<string>)
    returns (r: Result<(string, nat, nat), SubstituteError>)
    requires offset <= i < |messageFormat| && messageFormat[i] == '$'
    ensures match r
            case Success((result', offset', i')) =>
              && offset' <= i' <= |messageFormat| && i < i'
              && Pending(result', messageFormat, offset', i', evaluatedExpressions) ==
                 Pending(result, messageFormat, offset, i, evaluatedExpressions)
            case Failure(e) => Pending(result, messageFormat, offset, i, evaluatedExpressions) == Failure(e)
  {
    var copied := result + messageFormat[offset..i];
    if i + 1 == |messageFormat| {
      PendingLoneDollar(result, messageFormat, offset, i, evaluatedExpressions);
      return Failure(IndexOutOfRange);
    }
    var nextChar := messageFormat[i + 1];
    if nextChar == '$' {
      PendingDollar(result, messageFormat, offset, i, evaluatedExpressions);
      return Success((copied + "$", i + 2, i + 2));
    }
    if !IsDigit(nextChar) {
      PendingLoneDollar(result, messageFormat, offset, i, evaluatedExpressions);
      return Success((copied, i, i + 1));
    }
    r := SubstituteReferenceAt(copied, messageFormat, offset, i, evaluatedExpressions, result);
  }

  method SubstituteReferenceAt(copied: string, messageFormat: string, offset: nat, i: nat,
                               evaluatedExpressions: seq<string>, ghost result: string)
    returns (r: Result<(string, nat, nat), SubstituteError>)
    requires offset <= i && i + 1 < |messageFormat| && messageFormat[i] == '$' && IsDigit(messageFormat[i + 1])
    requires copied == result + messageFormat[offset..i]
    ensures match r
            case Success((result', offset', i')) =>
              && offset' <= i' <= |messageFormat| && i < i'
              && Pending(result', messageFormat, offset', i', evaluatedExpressions) ==
                 Pending(result, messageFormat, offset, i, evaluatedExpressions)
            case Failure(e) => Pending(result, messageFormat, offset, i, evaluatedExpressions) == Failure(e)
  {
    var digits, next := ReadNumber(messageFormat, i + 1);
    PendingReference(result, messageFormat, offset, i, next, evaluatedExpressions);
    var currentNumber := ParseInt32(digits);
    if currentNumber.Failure? {
      return Failure(currentNumber.error);
    }
    return Success((copied + Argument(currentNumber.value, evaluatedExpressions), next, next));
  }

  // ---------------------------------------------------------------- when substitution throws

  /** The text ends in an odd number of dollars. */
  predicate OddDollars(s: string) {
    s != [] && s[|s| - 1] == '$' && !OddDollars(s[..|s| - 1])
  }

  /** The dollar at position i begins something: an even number of dollars stands before it. */
  predicate BeginsAt(format: string, i: int) {
    0 <= i < |format| && format[i] == '$' && !OddDollars(format[..i])
  }

  /** A dollar before this text throws: there is nothing, or its digits are no int. */
  predicate Breaks(rest: string) {
    var digits := LeadingDigits(rest);
    rest == [] || !Decimal.IsNumeral(digits) || Decimal.Parse(digits) > 0x7FFF_FFFF
  }

  predicate Throws(format: string, i: int) {
    BeginsAt(format, i) && Breaks(format[i + 1..])
  }

  function ErrorBefore(rest: string): SubstituteError
    requires Breaks(rest)
  {
    if rest == [] then IndexOutOfRange
    else if exists c :: c in LeadingDigits(rest) && !('0' <= c <= '9') then BadFormat
    else Overflow
  }

  /** What stands in front of s leaves the dollars of s as they are. */
  predicate Aligned(front: string, s: string) {
    !OddDollars(front) || (s != [] && s[0] != '$')
  }

  lemma {:induction false} OddBehind(front: string, s: string)
    requires Aligned(front, s)
    ensures OddDollars(front + s) <==> OddDollars(s)
    decreases |s|
  {
    if s == [] {
      assert front + s == front;
    } else {
      assert (front + s)[..|front + s| - 1] == front + s[..|s| - 1];
      if |s| > 1 || s[0] == '$' {
        OddBehind(front, s[..|s| - 1]);
      }
    }
  }

  lemma BeginsBehind(front: string, s: string, i: nat)
    requires Aligned(front, s) && i < |s|
    ensures BeginsAt(front + s, |front| + i) <==> BeginsAt(s, i)
  {
    assert (front + s)[..|front| + i] == front + s[..i];
    if s[i] == '$' {
      OddBehind(front, s[..i]);
    }
  }

  lemma RestBehind(front: string, s: string, i: nat)
    requires i < |s|
    ensures (front + s)[|front| + i + 1..] == s[i + 1..]
  {
  }

  /** Nothing changes when text that ends in no dollar, or in pairs of them, is put in front. */
  lemma ThrowsBehind(front: string, s: string, i: nat)
    requires Aligned(front, s) && i < |s|
    ensures Throws(front + s, |front| + i) <==> Throws(s, i)
  {
    BeginsBehind(front, s, i);
    RestBehind(front, s, i);
  }

  ghost predicate ThrowsNotBefore(format: string, n: int) {
    forall i :: 0 <= i < n ==> !Throws(format, i)
  }

  ghost predicate FirstThrow(format: string, i: int, e: SubstituteError) {
    Throws(format, i) && e == ErrorBefore(format[i + 1..]) && ThrowsNotBefore(format, i)
  }

  /** Whether and how the substitution of a format throws, by the first position where it can. */
  ghost predicate ThrowsAsFound(format: string, r: Text) {
    match r
    case Success(_) => ThrowsNotBefore(format, |format|)
    case Failure(e) => exists i :: FirstThrow(format, i, e)
  }

  lemma NotBeforeBehind(front: string, s: string, n: nat)
    requires Aligned(front, s) && ThrowsNotBefore(front + s, |front|)
    requires n <= |s| && ThrowsNotBefore(s, n)
    ensures ThrowsNotBefore(front + s, |front| + n)
  {
    forall i | |front| <= i < |front| + n ensures !Throws(front + s, i) {
      ThrowsBehind(front, s, i - |front|);
    }
  }

  /** What a format does behind a front in which nothing throws. */
  lemma ThrowsLater(front: string, s: string, shown: string, r: Text)
    requires Aligned(front, s) && ThrowsNotBefore(front + s, |front|)
    requires ThrowsAsFound(s, r)
    ensures ThrowsAsFound(front + s, After(shown, r))
  {
    if r.Failure? {
      var i :| FirstThrow(s, i, r.error);
      ThrowsBehind(front, s, i);
      RestBehind(front, s, i);
      NotBeforeBehind(front, s, i);
      assert FirstThrow(front + s, |front| + i, r.error);
    } else {
      NotBeforeBehind(front, s, |s|);
    }
  }

  /**
   * For every format and whatever the arguments: the substitution throws if and only if a dollar
   * that is not the second of a pair ends the format, or stands before digits that are no int; the
   * first such dollar decides the exception.
   */
  lemma {:induction false} SubstituteThrowsExactly(format: string, expressions: seq<string>)
    ensures ThrowsAsFound(format, Substitute(format, expressions))
    decreases |format|
  {
    if format != [] {
      var digits := LeadingDigits(format[1..]);
      if format[0] != '$' {
        SubstituteThrowsExactly(format[1..], expressions);
        assert format == [format[0]] + format[1..];
        ThrowsLater([format[0]], format[1..], [format[0]], Substitute(format[1..], expressions));
      } else if |format| == 1 {
        assert FirstThrow(format, 0, IndexOutOfRange);
      } else if format[1] == '$' {
        SubstituteThrowsExactly(format[2..], expressions);
        PairThrowsNot(format);
        ThrowsLater("$$", format[2..], "$", Substitute(format[2..], expressions));
      } else if !IsDigit(format[1]) {
        SubstituteThrowsExactly(format[1..], expressions);
        assert format == "$" + format[1..];
        ThrowsLater("$", format[1..], "$", Substitute(format[1..], expressions));
      } else if ParseInt32(digits).Failure? {
        assert FirstThrow(format, 0, ParseInt32(digits).error);
      } else {
        var rest := format[1 + |digits|..];
        SubstituteThrowsExactly(rest, expressions);
        ReferenceThrowsNot(format);
        ThrowsLater("$" + digits, rest, Argument(ParseInt32(digits).value, expressions),
                    Substitute(rest, expressions));
      }
    }
  }

  lemma PairThrowsNot(format: string)
    requires |format| >= 2 && format[0] == '$' == format[1]
    ensures format == "$$" + format[2..] && !OddDollars("$$")
    ensures ThrowsNotBefore(format, 2)
  {
    assert "$$"[..1] == "$" && "$"[..0] == "";
    assert format[..1] == "$";
  }

  lemma ReferenceThrowsNot(format: string)
    requires |format| >= 2 && format[0] == '$' && IsDigit(format[1])
    requires ParseInt32(LeadingDigits(format[1..])).Success?
    ensures var front := "$" + LeadingDigits(format[1..]);
            && format == front + format[|front|..] && !OddDollars(front)
            && ThrowsNotBefore(format, |front|)
  {
    var digits := LeadingDigits(format[1..]);
    assert forall i :: 0 < i <= |digits| ==> format[i] == digits[i - 1] && digits[i - 1] in digits;
    assert digits != [];
  }

  // ---------------------------------------------------------------- templates

  /** A template's parts: text shown as it is, and references to arguments. */
  datatype Segment = Literal(text: string) | Reference(n: nat)

  /** A '$' shown as it is, is doubled. */
  function Escape(text: string): string {
    if text == [] then []
    else if text[0] == '$' then "$$" + Escape(text[1..])
    else [text[0]] + Escape(text[1..])
  }

  function Print(segments: seq<Segment>): string {
    if segments == [] then ""
    else
      match segments[0]
      case Literal(text) => Escape(text) + Print(segments[1..])
      case Reference(n) => "$" + Decimal.Print(n) + Print(segments[1..])
  }

  function Render(segments: seq<Segment>, expressions: seq<string>): string {
    if segments == [] then ""
    else
      match segments[0]
      case Literal(text) => text + Render(segments[1..], expressions)
      case Reference(n) =>
        (if n < |expressions| then expressions[n] else "{" + Decimal.Print(n) + " cannot be evaluated}")
        + Render(segments[1..], expressions)
  }

  /** References are in range of an int, and none runs into a digit printed after it. */
  ghost predicate Readable(segments: seq<Segment>) {
    segments == [] ||
    (&& Readable(segments[1..])
     && (segments[0].Reference? ==>
           && segments[0].n <= INT32_MAX
           && var rest := Print(segments[1..]); rest == [] || !IsDigit(rest[0])))
  }

  lemma SubstituteDollar(rest: string, expressions: seq<string>)
    ensures Substitute("$$" + rest, expressions) == After("$", Substitute(rest, expressions))
  {
    assert ("$$" + rest)[2..] == rest;
  }

  lemma SubstitutePlain(c: char, rest: string, expressions: seq<string>)
    requires c != '$'
    ensures Substitute([c] + rest, expressions) == After([c], Substitute(rest, expressions))
  {
    assert ([c] + rest)[1..] == rest;
  }

  lemma AfterNothing(rest: Text)
    ensures After("", rest) == rest
  {
    if rest.Success? {
      assert "" + rest.value == rest.value;
    }
  }

  lemma {:induction false} SubstituteEscaped(text: string, rest: string, expressions: seq<string>)
    ensures Substitute(Escape(text) + rest, expressions) == After(text, Substitute(rest, expressions))
    decreases |text|
  {
    if text == [] {
      assert [] + rest == rest;
      AfterNothing(Substitute(rest, expressions));
    } else {
      var c, others := text[0], Escape(text[1..]) + rest;
      SubstituteEscaped(text[1..], rest, expressions);
      AfterAfter([c], text[1..], Substitute(rest, expressions));
      assert [c] + text[1..] == text;
      if c == '$' {
        Assoc("$$", Escape(text[1..]), rest);
        SubstituteDollar(others, expressions);
      } else {
        Assoc([c], Escape(text[1..]), rest);
        SubstitutePlain(c, others, expressions);
      }
    }
  }

  /** A '$' and digits are a reference. */
  lemma SubstituteDigits(digits: string, rest: string, expressions: seq<string>)
    requires digits != [] && AllDigits(digits) && (rest == [] || !IsDigit(rest[0]))
    ensures Substitute("$" + digits + rest, expressions) ==
            var read := ParseInt32(digits);
            if read.Failure? then Failure(read.error)
            else After(Argument(read.value, expressions), Substitute(rest, expressions))
  {
    var format := "$" + digits + rest;
    assert format[1..] == digits + rest && format[1 + |digits|..] == rest;
    assert format[1] == digits[0] && digits[0] in digits;
    LeadingDigitsOf(digits, rest);
  }

  lemma PrintIsDigits(n: nat)
    ensures AllDigits(Decimal.Print(n))
    ensures ParseInt32(Decimal.Print(n)) == if n > INT32_MAX then Failure(Overflow) else Success(n)
  {
    Decimal.ParsePrint(n);
  }

  /** $n shows argument n, counted from 0, or says that there is none. */
  lemma SubstituteReference(n: nat, rest: string, expressions: seq<string>)
    requires n <= INT32_MAX && (rest == [] || !IsDigit(rest[0]))
    ensures Substitute("$" + Decimal.Print(n) + rest, expressions) ==
            After(if n < |expressions| then expressions[n] else "{" + Decimal.Print(n) + " cannot be evaluated}",
                  Substitute(rest, expressions))
  {
    PrintIsDigits(n);
    SubstituteDigits(Decimal.Print(n), rest, expressions);
  }

  /** A dollar before anything but a dollar or a digit is shown as it is. */
  lemma SubstituteLoneDollar(c: char, rest: string, expressions: seq<string>)
    requires c != '$' && !IsDigit(c)
    ensures Substitute("$" + [c] + rest, expressions) == After("$", Substitute([c] + rest, expressions))
  {
    assert ("$" + [c] + rest)[1..] == [c] + rest;
  }

  /** Substituting into a printed template shows each literal verbatim and each argument formatted. */
  lemma {:induction false} TemplateRoundTrip(segments: seq<Segment>, expressions: seq<string>)
    requires Readable(segments)
    ensures Substitute(Print(segments), expressions) == Success(Render(segments, expressions))
    decreases |segments|
  {
    if segments != [] {
      TemplateRoundTrip(segments[1..], expressions);
      match segments[0]
      case Literal(text) =>
        SubstituteEscaped(text, Print(segments[1..]), expressions);
      case Reference(n) =>
        SubstituteReference(n, Print(segments[1..]), expressions);
    }
  }

  // ---------------------------------------------------------------- only readable templates

  /** What is left of a template when the digits its printed form begins with are read away. */
  ghost predicate LeftAfterDigits(segments: seq<Segment>, left: seq<Segment>) {
    && |left| <= |segments|
    && Print(segments) == LeadingDigits(Print(segments)) + Print(left)
    && Render(segments, []) == LeadingDigits(Print(segments)) + Render(left, [])
    && (Print(left) == [] || !IsDigit(Print(left)[0]))
  }

  lemma {:induction false} SkipDigits(segments: seq<Segment>) returns (left: seq<Segment>)
    ensures LeftAfterDigits(segments, left)
    decreases |segments|, 1, 0
  {
    left := segments;
    if segments != [] && segments[0].Literal? {
      assert [segments[0]] + segments[1..] == segments;
      left := SkipDigitsOf(segments[0].text, segments[1..]);
    }
  }

  lemma {:induction false} SkipDigitsOf(text: string, rest: seq<Segment>) returns (left: seq<Segment>)
    ensures LeftAfterDigits([Literal(text)] + rest, left)
    decreases |rest| + 1, 0, |text|
  {
    var longer := [Literal(text)] + rest;
    if text == [] {
      EmptyHead(rest);
      left := SkipDigits(rest);
    } else if IsDigit(text[0]) {
      LiteralHead(text, rest);
      left := SkipDigitsOf(text[1..], rest);
      PutBack(text[0], longer, [Literal(text[1..])] + rest, left);
    } else {
      LiteralHead(text, rest);
      left := longer;
    }
  }

  /** Reading one more digit away leaves the same. */
  lemma PutBack(c: char, longer: seq<Segment>, shorter: seq<Segment>, left: seq<Segment>)
    requires IsDigit(c) && LeftAfterDigits(shorter, left) && |longer| == |shorter|
    requires Print(longer) == [c] + Print(shorter) && Render(longer, []) == [c] + Render(shorter, [])
    ensures LeftAfterDigits(longer, left)
  {
    DigitHead(c, Print(shorter));
    Assoc([c], LeadingDigits(Print(shorter)), Print(left));
    Assoc([c], LeadingDigits(Print(shorter)), Render(left, []));
  }

  lemma EmptyHead(rest: seq<Segment>)
    ensures Print([Literal("")] + rest) == Print(rest) && Render([Literal("")] + rest, []) == Render(rest, [])
  {
    assert ([Literal("")] + rest)[1..] == rest;
    assert [] + Print(rest) == Print(rest) && [] + Render(rest, []) == Render(rest, []);
  }

  lemma LiteralHead(text: string, rest: seq<Segment>)
    requires text != []
    ensures var longer, shorter := [Literal(text)] + rest, [Literal(text[1..])] + rest;
            && Print(longer) != []
            && (text[0] == '$' ==> Print(longer)[0] == '$')
            && (text[0] != '$' ==> Print(longer) == [text[0]] + Print(shorter))
            && Render(longer, []) == [text[0]] + Render(shorter, [])
  {
    var longer, shorter := [Literal(text)] + rest, [Literal(text[1..])] + rest;
    assert longer[1..] == rest && shorter[1..] == rest;
    Assoc([text[0]], Escape(text[1..]), Print(rest));
    Assoc([text[0]], text[1..], Render(rest, []));
    assert text == [text[0]] + text[1..];
  }

  lemma DigitHead(c: char, rest: string)
    ensures LeadingDigits([c] + rest) == if IsDigit(c) then [c] + LeadingDigits(rest) else []
  {
    assert ([c] + rest)[1..] == rest;
  }

  /** A reference reads as its number with the digits printed after it. */
  lemma ReferenceReads(n: nat, more: string, rest: string, expressions: seq<string>)
    requires AllDigits(more) && (rest == [] || !IsDigit(rest[0]))
    ensures AllDigits(Decimal.Print(n) + more)
    ensures Substitute("$" + Decimal.Print(n) + (more + rest), expressions) ==
            var read := ParseInt32(Decimal.Print(n) + more);
            if read.Failure? then Failure(read.error)
            else After(Argument(read.value, expressions), Substitute(rest, expressions))
  {
    var number := Decimal.Print(n);
    PrintIsDigits(n);
    Assoc("$", number, more + rest);
    Assoc(number, more, rest);
    Assoc("$", number + more, rest);
    SubstituteDigits(number + more, rest, expressions);
  }

  /** A numeral is never shorter than the number it is read as; leading zeros get lost. */
  lemma {:induction false} ReadBackShorter(s: string)
    requires s != [] && Decimal.IsNumeral(s)
    ensures |Decimal.Print(Decimal.Parse(s))| <= |s|
  {
    if |s| > 1 {
      var front := s[..|s| - 1];
      ReadBackShorter(front);
      assert s[|s| - 1] in s;
      assert Decimal.Parse(s) / 10 == Decimal.Parse(front);
    } else {
      assert s[0] in s && s[..0] == [];
      assert Decimal.Parse(s[..0]) == 0;
    }
  }

  /** With nothing evaluated, the message is never longer than the meant one. */
  lemma {:induction false} NeverLonger(segments: seq<Segment>)
    ensures var r := Substitute(Print(segments), []);
            r.Success? ==> |r.value| <= |Render(segments, [])|
    decreases |segments|
  {
    if segments != [] {
      var rest := segments[1..];
      match segments[0]
      case Literal(text) =>
        SubstituteEscaped(text, Print(rest), []);
        NeverLonger(rest);
      case Reference(n) =>
        var left := SkipDigits(rest);
        var more := LeadingDigits(Print(rest));
        ReferenceReads(n, more, Print(left), []);
        NeverLonger(left);
        if ParseInt32(Decimal.Print(n) + more).Success? {
          ReadBackShorter(Decimal.Print(n) + more);
        }
    }
  }

  /** The text that stands in for a missing argument names it. */
  lemma SameNumber(m: nat, n: nat, a: string, b: string)
    requires Argument(m, []) + a == Argument(n, []) + b
    ensures m == n
  {
    var s := Argument(m, []) + a;
    NumberEnds(m, a);
    NumberEnds(n, b);
    var i, j := |Decimal.Print(m)|, |Decimal.Print(n)|;
    assert i == j;
    assert s[1..i + 1] == Decimal.Print(m) && s[1..j + 1] == Decimal.Print(n);
    Decimal.ParsePrint(m);
    Decimal.ParsePrint(n);
  }

  lemma NumberEnds(n: nat, rest: string)
    ensures var s, i := Argument(n, []) + rest, |Decimal.Print(n)|;
            && i + 1 < |s| && s[1..i + 1] == Decimal.Print(n) && s[i + 1] == ' '
            && forall k :: 1 <= k <= i ==> s[k] != ' '
  {
    var s := Argument(n, []) + rest;
    assert forall k :: 1 <= k <= |Decimal.Print(n)| ==>
             s[k] == Decimal.Print(n)[k - 1] && Decimal.Print(n)[k - 1] in Decimal.Print(n);
  }

  /** A reference that is out of range, or runs on into digits, is not shown as meant. */
  lemma RunningOnShows(n: nat, more: string, rest: string, meant: string)
    requires AllDigits(more) && (rest == [] || !IsDigit(rest[0]))
    requires Substitute("$" + Decimal.Print(n) + (more + rest), []) == Success(Argument(n, []) + (more + meant))
    requires Substitute(rest, []).Success? ==> |Substitute(rest, []).value| <= |meant|
    ensures n <= INT32_MAX && more == [] && Substitute(rest, []) == Success(meant)
  {
    ReferenceReads(n, more, rest, []);
    var m, shown := ParseInt32(Decimal.Print(n) + more), Substitute(rest, []);
    assert m.Success? && shown.Success?;
    SameNumber(m.value, n, shown.value, more + meant);
    assert |Argument(n, []) + shown.value| == |Argument(n, []) + (more + meant)|;
    assert more == [];
    Decimal.ParsePrint(n);
    assert Decimal.Print(n) + [] == Decimal.Print(n) && [] + meant == meant;
    SameRest(Argument(n, []), shown.value, meant);
  }

  lemma SameRest(front: string, a: string, b: string)
    requires front + a == front + b
    ensures a == b
  {
    assert a == (front + a)[|front|..] && b == (front + b)[|front|..];
  }

  lemma LiteralShows(text: string, rest: string, meant: string)
    requires Substitute(Escape(text) + rest, []) == Success(text + meant)
    ensures Substitute(rest, []) == Success(meant)
  {
    SubstituteEscaped(text, rest, []);
    SameRest(text, Substitute(rest, []).value, meant);
  }

  /** The message is the meant one. */
  predicate ShowsAsMeant(segments: seq<Segment>, expressions: seq<string>) {
    Substitute(Print(segments), expressions) == Success(Render(segments, expressions))
  }

  /** A template that shows as meant even with nothing evaluated is readable. */
  lemma {:induction false} OnlyReadable(segments: seq<Segment>)
    requires ShowsAsMeant(segments, [])
    ensures Readable(segments)
    decreases |segments|
  {
    if segments != [] {
      var rest := segments[1..];
      match segments[0]
      case Literal(text) =>
        LiteralShows(text, Print(rest), Render(rest, []));
        OnlyReadable(rest);
      case Reference(n) =>
        ReferenceShows(n, rest);
        OnlyReadable(rest);
    }
  }

  lemma ReferenceShows(n: nat, rest: seq<Segment>)
    requires Substitute("$" + Decimal.Print(n) + Print(rest), []) == Success(Argument(n, []) + Render(rest, []))
    ensures n <= INT32_MAX && (Print(rest) == [] || !IsDigit(Print(rest)[0])) && ShowsAsMeant(rest, [])
  {
    var text, meant, more := Print(rest), Render(rest, []), LeadingDigits(Print(rest));
    var left := SkipDigits(rest);
    var leftText, leftMeant := Print(left), Render(left, []);
    NeverLonger(left);
    assert text == more + leftText && meant == more + leftMeant;
    RunningOnShows(n, more, leftText, leftMeant);
    assert text == leftText && meant == leftMeant;
  }

  /**
   * A template shows as meant, whatever its arguments, if and only if its references are in range
   * and none of them runs into a digit printed after it.
   */
  lemma TemplateRoundTripExact(segments: seq<Segment>)
    ensures (forall es :: ShowsAsMeant(segments, es)) <==> Readable(segments)
  {
    if Readable(segments) {
      forall es ensures ShowsAsMeant(segments, es) {
        TemplateRoundTrip(segments, es);
      }
    } else if ShowsAsMeant(segments, []) {
      OnlyReadable(segments);
    }
  }

  /** "$1" before "2" reads as "$12", which shows another argument. */
  lemma ReferenceCanRunOn()
    ensures Print([Reference(1), Literal("2")]) == Print([Reference(12)]) == "$12"
    ensures Readable([Reference(12)]) && !Readable([Reference(1), Literal("2")])
  {
    assert [Reference(1), Literal("2")][1..] == [Literal("2")];
    assert Escape("2") == "2" && Decimal.Print(12) == Decimal.Print(1) + "2";
  }

  // ---------------------------------------------------------------- formatting a variable

  /** An evaluated variable; errorFormat is the description of its error status, if it has one. */
  datatype Variable = Variable(name: string, typeName: string, value: string, errorFormat: Option<string>,
                               members: seq<Variable>)

  /** Char.IsWhiteSpace. */
  predicate IsSpace(c: char) {
    var n := c as int;
    n == 0x20 || 0x09 <= n <= 0x0D || n == 0x85 || n == 0xA0 || n == 0x1680 || 0x2000 <= n <= 0x200A ||
    n == 0x2028 || n == 0x2029 || n == 0x202F || n == 0x205F || n == 0x3000
  }

  /** Among the ASCII characters, the blank and the five controls from tab to carriage return. */
  lemma AsciiSpaces(c: char)
    requires c as int < 0x80
    ensures IsSpace(c) <==> c == ' ' || 0x09 <= c as int <= 0x0D
  {
  }

  /** String.IsNullOrWhiteSpace. */
  predicate IsWhiteSpace(s: string) {
    forall c :: c in s ==> IsSpace(c)
  }

  predicate IsTrimmed(c: char) {
    c == ',' || c == ' '
  }

  /** TrimEnd, of commas and spaces. */
  function TrimEnd(s: string): (r: string)
    ensures r <= s && (r == [] || !IsTrimmed(r[|r| - 1]))
  {
    if s == [] || !IsTrimmed(s[|s| - 1]) then s else TrimEnd(s[..|s| - 1])
  }

  function Format(v: Variable): string
    decreases v, 0
  {
    if v.errorFormat.Some? then "\"Error evaluating " + v.name + ": " + v.errorFormat.value + "\""
    else if !IsWhiteSpace(v.value) then v.value
    else TrimEnd("[ " + Items(v.members)) + "]"
  }

  function Item(m: Variable): string
    decreases m, 1
  {
    m.name + " (" + m.typeName + "): " + Format(m)
  }

  /** Every member, each followed by ", ". */
  function Items(ms: seq<Variable>): string
    decreases ms, |ms|
  {
    if ms == [] then "" else Items(ms[..|ms| - 1]) + (Item(ms[|ms| - 1]) + ", ")
  }

  method FormatVariable(v: Variable) returns (result: string)
    ensures result == Format(v)
    decreases v
  {
    if v.errorFormat.Some? {
      return "\"Error evaluating " + v.name + ": " + v.errorFormat.value + "\"";
    }
    if !IsWhiteSpace(v.value) {
      return v.value;
    }
    result := "[ ";
    for i := 0 to |v.members|
      invariant result == "[ " + Items(v.members[..i])
    {
      var member := FormatVariable(v.members[i]);
      ghost var before := Items(v.members[..i]);
      assert v.members[..i + 1][..i] == v.members[..i];
      var item := v.members[i].name + " (" + v.members[i].typeName + "): " + member;
      assert ("[ " + before) + (item + ", ") == "[ " + (before + (item + ", "));
      result := result + (item + ", ");
    }
    assert v.members[..|v.members|] == v.members;
    result := TrimEnd(result);
    result := result + "]";
  }

  /** A member as it is listed. */
  function Texts(ms: seq<Variable>): seq<string> {
    seq(|ms|, i requires 0 <= i < |ms| => ms[i].name + " (" + ms[i].typeName + "): " + Format(ms[i]))
  }

  lemma {:induction false} ItemsJoined(ms: seq<Variable>)
    ensures Items(ms) == if ms == [] then "" else Join(Texts(ms), ", ") + ", "
  {
    if ms != [] {
      var n := |ms| - 1;
      var text := Item(ms[n]);
      ItemsJoined(ms[..n]);
      assert Texts(ms) == Texts(ms[..n]) + [text];
      JoinNext(Texts(ms[..n]), text, ", ");
      Assoc(Items(ms[..n]), text, ", ");
    }
  }

  /** An error is shown as such, else a value as it is, else the members, without what ends in commas and blanks. */
  lemma {:induction false} FormatExactly(v: Variable)
    ensures v.errorFormat.Some? ==>
              Format(v) == "\"Error evaluating " + v.name + ": " + v.errorFormat.value + "\""
    ensures v.errorFormat.None? && (exists c :: c in v.value && !IsSpace(c)) ==> Format(v) == v.value
    ensures v.errorFormat.None? && (forall c :: c in v.value ==> IsSpace(c)) ==>
              Format(v) == TrimEnd("[ " + Join(Texts(v.members), ", ")) + "]"
  {
    if v.errorFormat.None? && IsWhiteSpace(v.value) {
      MembersTrimmed(v.members);
    }
  }

  lemma {:induction false} MembersTrimmed(ms: seq<Variable>)
    ensures TrimEnd("[ " + Items(ms)) == TrimEnd("[ " + Join(Texts(ms), ", "))
  {
    ItemsJoined(ms);
    if ms != [] {
      var joined := Join(Texts(ms), ", ");
      Assoc("[ ", joined, ", ");
      TrimTwo("[ " + joined);
    }
  }

  lemma TrimTwo(s: string)
    ensures TrimEnd(s + ", ") == TrimEnd(s)
  {
    assert s + ", " == s + "," + " ";
    TrimOne(s + ",", ' ');
    TrimOne(s, ',');
  }

  lemma {:induction false} TrimEndIs(s: string, trimmed: string)
    requires trimmed <= s && (trimmed == [] || !IsTrimmed(trimmed[|trimmed| - 1]))
    requires forall i :: |trimmed| <= i < |s| ==> IsTrimmed(s[i])
    ensures TrimEnd(s) == trimmed
    decreases |s|
  {
    if |trimmed| < |s| {
      TrimEndIs(s[..|s| - 1], trimmed);
    }
  }

  predicate EndsInCommaOrBlank(s: string) {
    s != [] && (s[|s| - 1] == ',' || s[|s| - 1] == ' ')
  }

  /** A variable's text is never empty, and ends in a comma or blank only if its value does. */
  lemma {:induction false} FormatEnding(v: Variable)
    ensures Format(v) != []
    ensures EndsInCommaOrBlank(Format(v)) <==>
            v.errorFormat.None? && !IsWhiteSpace(v.value) && EndsInCommaOrBlank(v.value)
  {
    assert IsWhiteSpace("");
  }

  /**
   * A variable with members is shown as their bracketed list exactly unless the last member shows
   * a value that itself ends in a comma or a blank, which is cut off with the separator.
   */
  lemma {:induction false} MembersListedExactly(v: Variable)
    requires v.errorFormat.None? && IsWhiteSpace(v.value) && v.members != []
    ensures Format(v) == "[ " + Join(Texts(v.members), ", ") + "]" <==>
            var m := v.members[|v.members| - 1];
            !(m.errorFormat.None? && !IsWhiteSpace(m.value) && EndsInCommaOrBlank(m.value))
  {
    var ms := v.members;
    var m, listed := ms[|ms| - 1], "[ " + Join(Texts(ms), ", ");
    FormatExactly(v);
    FormatEnding(m);
    TextsEnding(ms);
    SameEnding(TrimEnd(listed), listed, "]");
    TrimNothing(listed);
  }

  lemma {:induction false} TextsEnding(ms: seq<Variable>)
    requires ms != []
    ensures var s, t := "[ " + Join(Texts(ms), ", "), Format(ms[|ms| - 1]);
            t != [] && s[|s| - 1] == t[|t| - 1]
  {
    var front, text := Texts(ms[..|ms| - 1]), Texts(ms)[|ms| - 1];
    FormatEnding(ms[|ms| - 1]);
    assert Texts(ms) == front + [text];
    JoinEnding(front, text);
  }

  lemma {:induction false} TrimNothing(s: string)
    requires s != []
    ensures TrimEnd(s) == s <==> s[|s| - 1] != ',' && s[|s| - 1] != ' '
  {
  }

  lemma JoinEnding(parts: seq<string>, part: string)
    requires part != []
    ensures var s := Join(parts + [part], ", ");
            s != [] && s[|s| - 1] == part[|part| - 1]
  {
    JoinNext(parts, part, ", ");
  }

  lemma TrimOne(s: string, c: char)
    requires IsTrimmed(c)
    ensures TrimEnd(s + [c]) == TrimEnd(s)
  {
    assert (s + [c])[..|s|] == s;
  }

  lemma SameEnding(s: string, t: string, ending: string)
    ensures s + ending == t + ending <==> s == t
  {
    if s + ending == t + ending {
      assert s == (s + ending)[..|s|] && t == (t + ending)[..|t|];
    }
  }

  /** A variable with neither value nor members is shown as empty brackets. */
  lemma NoMembers(v: Variable)
    requires v.errorFormat.None? && IsWhiteSpace(v.value) && v.members == []
    ensures Format(v) == "[]"
  {
    assert "[ " + "" == "[ ";
    TrimEndIs("[ ", "[");
  }
}
