/** A day's date: an immutable string of the form `\d{2}-\d{2}-\d{2}`,
    compared by value. */
module Dates {

  /** One position of a fixed-length regular expression: `\d` or a literal. */
  datatype Atom = AnyDigit | Literal(c: char)

  predicate IsDigit(c: char)
  {
    '0' <= c <= '9'
  }

  predicate AtomMatches(a: Atom, c: char)
  {
    match a
    case AnyDigit => IsDigit(c)
    case Literal(l) => c == l
  }

  /** `a{n}` */
  function Repeat(a: Atom, n: nat): (p: seq<Atom>)
    ensures |p| == n && forall i :: 0 <= i < n ==> p[i] == a
  {
    if n == 0 then [] else [a] + Repeat(a, n - 1)
  }

  /** The whole of `s` matches the pattern, as `String.matches` requires. */
  function FullMatch(p: seq<Atom>, s: string): (b: bool)
    ensures b <==> |p| == |s| && forall i :: 0 <= i < |s| ==> AtomMatches(p[i], s[i])
  {
    if |p| == 0 then |s| == 0
    else |s| > 0 && AtomMatches(p[0], s[0]) && FullMatch(p[1..], s[1..])
  }

  const MessageConstraints: string :=
    "Date should only contain numbers & -, 2 digits-2 digits-2digits, ie: 12-03-19"

  /** `\d{2}-\d{2}-\d{2}` */
  const ValidationRegex: seq<Atom> :=
    Repeat(AnyDigit, 2) + [Literal('-')] + Repeat(AnyDigit, 2) + [Literal('-')] + Repeat(AnyDigit, 2)

  /** A valid date is eight characters: two digits, a dash, two digits, a dash,
      two digits. No range of day, month or year is checked. */
  function IsValidDate(test: string): (b: bool)
    ensures b <==> (|test| == 8 && test[2] == '-' && test[5] == '-' &&
      IsDigit(test[0]) && IsDigit(test[1]) && IsDigit(test[3]) &&
      IsDigit(test[4]) && IsDigit(test[6]) && IsDigit(test[7]))
  {
    var p := ValidationRegex;
    assert |p| == 8;
    assert p[0] == p[1] == p[3] == p[4] == p[6] == p[7] == AnyDigit;
    assert p[2] == p[5] == Literal('-');
    FullMatch(p, test)
  }

  datatype Date = Date(value: string)

  datatype Result<T> = Success(result: T) | Failure(message: string)

  /** The constructor: rejects an invalid string with the constraints message,
      otherwise keeps the string as it is. */
  function NewDate(date: string): (r: Result<Date>)
    ensures r.Success? <==> IsValidDate(date)
    ensures r.Success? ==> r.result.value == date
    ensures r.Failure? ==> r.message == MessageConstraints
  {
    if IsValidDate(date) then Success(Date(date)) else Failure(MessageConstraints)
  }

  /** The stored string; printing a valid date and parsing it again gives the
      same date back. */
  function ToString(d: Date): (s: string)
    ensures IsValidDate(d.value) ==> NewDate(s) == Success(d)
  {
    d.value
  }

  /** Two dates are equal exactly when their strings are. */
  function Equals(d: Date, other: Date): (b: bool)
    ensures b <==> d.value == other.value
  {
    d == other
  }

  /** A valid string survives construction and printing unchanged. */
  lemma RoundTrip(s: string)
    requires IsValidDate(s)
    ensures NewDate(s).Success? && ToString(NewDate(s).result) == s
  {
  }

  /** Only the shape is checked: out-of-range fields pass, other separators
      and missing digits do not. */
  lemma ValidationExamples()
    ensures IsValidDate("12-03-19")
    ensures IsValidDate("99-99-99")
    ensures !IsValidDate("12/03/19")
    ensures !IsValidDate("2-03-19")
  {
  }
}
