/// The cell validator: from a value and its column header to no error or an
/// outcome `{error, severity}`. Only an empty value, or a header mentioning
/// "email", "date" or "number" (ignoring case), is checked at all; for a
/// non-empty value the e-mail, date and number checks run in that order and
/// the first that fails decides.
module Validator {
  import opened Text
  import opened Values

  datatype ErrorKind = MissingValue | InvalidEmail | InvalidDate | InvalidNumber
  datatype Severity = Error

  /** A failed check: `{error, severity}`. */
  datatype Outcome = Outcome(error: ErrorKind, severity: Severity)

  /** The text the store records for each kind of error. */
  function Message(k: ErrorKind): string {
    match k
    case MissingValue => "Missing value"
    case InvalidEmail => "Invalid email format"
    case InvalidDate => "Invalid date format"
    case InvalidNumber => "Invalid number format"
  }

  /** Message is one-to-one, so grouping by message is grouping by kind. */
  lemma MessageInjective(a: ErrorKind, b: ErrorKind)
    ensures Message(a) == Message(b) ==> a == b
  {
  }

  /** No character of `t` is whitespace or `@`: the class `[^\s@]`. */
  predicate NoSpaceOrAt(t: string) {
    forall k :: 0 <= k < |t| ==> !IsSpace(t[k]) && t[k] != '@'
  }

  /**
   * What the pattern `^[^\s@]+@[^\s@]+\.[^\s@]+$` accepts: a non-empty run
   * of non-space non-`@` characters, an `@`, another such run, a dot, and a
   * third such run that ends the string.
   */
  ghost predicate EmailPattern(s: string) {
    exists i, j :: EmailSplit(s, i, j)
  }

  /** The `@` at `i` and the dot at `j` split `s` into the three runs of the e-mail pattern. */
  ghost predicate EmailSplit(s: string, i: int, j: int) {
    0 < i && i + 1 < j && j + 1 < |s| && s[i] == '@' && s[j] == '.'
      && NoSpaceOrAt(s[..i]) && NoSpaceOrAt(s[i + 1..j]) && NoSpaceOrAt(s[j + 1..])
  }

  /** Index of the first `c` in `s`, or `|s|` if there is none. */
  function FirstIndexOf(s: string, c: char): (k: nat)
    ensures k <= |s|
    ensures k < |s| ==> s[k] == c
    ensures forall i :: 0 <= i < k ==> s[i] != c
  {
    if s == [] then 0
    else if s[0] == c then 0
    else 1 + FirstIndexOf(s[1..], c)
  }

  /** The domain part after the `@`: no space or `@`, and a dot with something on both sides. */
  predicate DomainOk(d: string) {
    NoSpaceOrAt(d) && exists j | 1 <= j <= |d| - 2 :: d[j] == '.'
  }

  /** A direct matcher for the e-mail pattern: split at the first `@`. */
  function MatchesEmail(s: string): bool {
    var at := FirstIndexOf(s, '@');
    0 < at < |s| && NoSpaceOrAt(s[..at]) && DomainOk(s[at + 1..])
  }

  /** The matcher accepts exactly the strings the e-mail pattern accepts. */
  lemma MatchesEmailIff(s: string)
    ensures MatchesEmail(s) <==> EmailPattern(s)
  {
    if MatchesEmail(s) {
      MatchesEmailSound(s);
    }
    if EmailPattern(s) {
      MatchesEmailComplete(s);
    }
  }

  lemma MatchesEmailSound(s: string)
    requires MatchesEmail(s)
    ensures EmailPattern(s)
  {
    var at := FirstIndexOf(s, '@');
    var d := s[at + 1..];
    var jd :| 1 <= jd <= |d| - 2 && d[jd] == '.';
    var j := at + 1 + jd;
    assert s[at + 1..j] == d[..jd];
    assert s[j + 1..] == d[jd + 1..];
    assert EmailSplit(s, at, j);
  }

  lemma MatchesEmailComplete(s: string)
    requires EmailPattern(s)
    ensures MatchesEmail(s)
  {
    var i, j :| EmailSplit(s, i, j);
    FirstIndexIs(s, '@', i);
    var d := s[i + 1..];
    assert d == s[i + 1..j] + [s[j]] + s[j + 1..];
    NoSpaceOrAtConcat(s[i + 1..j], [s[j]]);
    NoSpaceOrAtConcat(s[i + 1..j] + [s[j]], s[j + 1..]);
    assert d[j - i - 1] == '.';
  }

  /** The first `@` is the one ending a run without `@`. */
  lemma FirstIndexIs(s: string, c: char, i: nat)
    requires i < |s| && s[i] == c && c == '@' && NoSpaceOrAt(s[..i])
    ensures FirstIndexOf(s, c) == i
  {
  }

  lemma NoSpaceOrAtConcat(a: string, b: string)
    requires NoSpaceOrAt(a) && NoSpaceOrAt(b)
    ensures NoSpaceOrAt(a + b)
  {
    forall k | 0 <= k < |a + b|
      ensures !IsSpace((a + b)[k]) && (a + b)[k] != '@'
    {
      if k >= |a| {
        assert (a + b)[k] == b[k - |a|];
      }
    }
  }

  /** A stand-in for `Date.parse` succeeding: an ISO calendar date `YYYY-MM-DD`. */
  predicate IsDate(s: string) {
    && |s| == 10 && s[4] == '-' && s[7] == '-'
    && AllDigits(s[..4]) && AllDigits(s[5..7]) && AllDigits(s[8..])
    && 1 <= DigitsValue(s[5..7]) <= 12 && 1 <= DigitsValue(s[8..]) <= 31
  }

  /**
   * `Number(s)` on integer literals: the empty string is 0, otherwise an
   * optional sign and at least one decimal digit; anything else is NaN (None).
   */
  function ParseNumber(s: string): Option<int> {
    if s == "" then Some(0)
    else if (s[0] == '-' || s[0] == '+') && |s| > 1 && AllDigits(s[1..]) then
      Some(if s[0] == '-' then 0 - DigitsValue(s[1..]) else DigitsValue(s[1..]))
    else if AllDigits(s) then Some(DigitsValue(s))
    else None
  }

  /** `!isNaN(Number(s))`. */
  predicate IsNumeric(s: string) {
    ParseNumber(s).Some?
  }

  /** `String(n)` for an integer. */
  function IntToString(n: int): string {
    if n < 0 then "-" + NatToString(-n) else NatToString(n)
  }

  /**
   * A sanity property of the integer stand-in for `Number`, not of the
   * store: every integer's decimal string reads back as that integer.
   */
  lemma ParseNumberRoundTrip(n: int)
    ensures ParseNumber(IntToString(n)) == Some(n)
  {
    if n < 0 {
      assert IntToString(n)[1..] == NatToString(-n);
      DigitsRoundTrip(-n);
    } else {
      DigitsRoundTrip(n);
    }
  }

  /** The header mentions `word`, ignoring case. */
  predicate Mentions(header: string, word: string) {
    Contains(Lower(header), word)
  }

  /** The value passes the check whose failure is reported as `k`. */
  ghost predicate Passes(k: ErrorKind, s: string) {
    match k
    case MissingValue => s != ""
    case InvalidEmail => EmailPattern(s)
    case InvalidDate => IsDate(s)
    case InvalidNumber => IsNumeric(s)
  }

  /** The checks a header calls for, in the order they run. */
  function ApplicableChecks(header: string): seq<ErrorKind> {
    (if Mentions(header, "email") then [InvalidEmail] else [])
    + (if Mentions(header, "date") then [InvalidDate] else [])
    + (if Mentions(header, "number") then [InvalidNumber] else [])
  }

  /** The first check in `checks` that `s` fails, if any. */
  ghost function FirstFailure(checks: seq<ErrorKind>, s: string): Option<ErrorKind> {
    if checks == [] then None
    else if !Passes(checks[0], s) then Some(checks[0])
    else FirstFailure(checks[1..], s)
  }

  /** `validateCell(value, header)`: None for no error. */
  function ValidateCell(value: Value, header: string): (r: Option<Outcome>)
    ensures r.Some? ==> r.value.severity == Error
    ensures IsEmptyValue(value) ==> r == Some(Outcome(MissingValue, Error))
    ensures (!IsEmptyValue(value) && !Mentions(header, "email") && !Mentions(header, "date")
             && !Mentions(header, "number")) ==> r == None
  {
    var headerLower := Lower(header);
    var needsValidation := IsEmptyValue(value)
      || Contains(headerLower, "email") || Contains(headerLower, "date") || Contains(headerLower, "number");
    if !needsValidation then None
    else if IsEmptyValue(value) then Some(Outcome(MissingValue, Error))
    else if Contains(headerLower, "email") && !MatchesEmail(value.value) then Some(Outcome(InvalidEmail, Error))
    else if Contains(headerLower, "date") && !IsDate(value.value) then Some(Outcome(InvalidDate, Error))
    else if Contains(headerLower, "number") && !IsNumeric(value.value) then Some(Outcome(InvalidNumber, Error))
    else None
  }

  /**
   * For a non-empty value the outcome is the first failing check, in the
   * order e-mail, date, number, among those the header calls for.
   */
  lemma ValidateCellFirstFailure(value: Value, header: string)
    requires !IsEmptyValue(value)
    ensures ValidateCell(value, header) ==
      match FirstFailure(ApplicableChecks(header), value.value)
      case None => None
      case Some(k) => Some(Outcome(k, Error))
  {
    var s := value.value;
    MatchesEmailIff(s);
    var e := if Mentions(header, "email") then [InvalidEmail] else [];
    var d := if Mentions(header, "date") then [InvalidDate] else [];
    var n := if Mentions(header, "number") then [InvalidNumber] else [];
    FirstFailureAppend(e, d + n, s);
    FirstFailureAppend(d, n, s);
    assert ApplicableChecks(header) == e + (d + n);
  }

  /** Running two lists of checks one after the other. */
  lemma {:induction false} FirstFailureAppend(a: seq<ErrorKind>, b: seq<ErrorKind>, s: string)
    ensures FirstFailure(a + b, s) == if FirstFailure(a, s).Some? then FirstFailure(a, s) else FirstFailure(b, s)
  {
    if a != [] {
      assert (a + b)[1..] == a[1..] + b;
      FirstFailureAppend(a[1..], b, s);
    } else {
      assert a + b == b;
    }
  }

  /** An e-mail error is reported exactly when the value is non-empty, the header mentions "email" and the pattern rejects the value. */
  lemma InvalidEmailIff(value: Value, header: string)
    ensures ValidateCell(value, header) == Some(Outcome(InvalidEmail, Error)) <==>
      !IsEmptyValue(value) && Mentions(header, "email") && !EmailPattern(value.value)
  {
    if !IsEmptyValue(value) {
      MatchesEmailIff(value.value);
    }
  }

  /** The value passes exactly when it is non-empty and passes every check its header calls for. */
  lemma {:induction false} NoErrorIff(value: Value, header: string)
    ensures ValidateCell(value, header) == None <==>
      !IsEmptyValue(value) && forall k :: k in ApplicableChecks(header) ==> Passes(k, value.value)
  {
    if !IsEmptyValue(value) {
      ValidateCellFirstFailure(value, header);
      FirstFailureNone(ApplicableChecks(header), value.value);
    }
  }

  lemma {:induction false} FirstFailureNone(checks: seq<ErrorKind>, s: string)
    ensures FirstFailure(checks, s) == None <==> forall k :: k in checks ==> Passes(k, s)
  {
    if checks != [] {
      FirstFailureNone(checks[1..], s);
      assert forall k :: k in checks <==> k == checks[0] || k in checks[1..];
    }
  }
}
