/**
 * `HyperLogLogError`: the error values of the library and the messages their
 * `Display` implementation writes. `source` and `cause` report no underlying
 * error for any variant.
 */
module Error {
  import opened Primitives

  datatype HyperLogLogError =
    | MisMatchedPrecision(expected: u32, actual: u32)
    | MergeFailed(msg: string)
    | PrecisionBelowThreshold
    | PrecisionTooLarge

  predicate IsDigit(c: char) {
    '0' <= c <= '9'
  }

  predicate AllDigits(s: string) {
    forall i :: 0 <= i < |s| ==> IsDigit(s[i])
  }

  function DigitChar(d: nat): (c: char)
    requires d < 10
    ensures IsDigit(c) && c as int - '0' as int == d
  {
    "0123456789"[d]
  }

  /** The number a string of decimal digits denotes. */
  function ParseDecimal(s: string): nat
    requires AllDigits(s)
  {
    if s == [] then 0
    else 10 * ParseDecimal(s[..|s| - 1]) + (s[|s| - 1] as int - '0' as int)
  }

  /** `{}` formatting of an unsigned integer: its decimal digits, without leading zeros. */
  function Decimal(n: nat): (r: string)
    ensures |r| >= 1 && AllDigits(r)
    ensures |r| > 1 ==> r[0] != '0'
    ensures ParseDecimal(r) == n
  {
    if n < 10 then [DigitChar(n)]
    else
      var r := Decimal(n / 10) + [DigitChar(n % 10)];
      assert r[..|r| - 1] == Decimal(n / 10);
      r
  }

  const MismatchPrefix := "Precision mismatch: expected "
  const MismatchSeparator := ", found "
  const MergePrefix := "Merge failed "

  /** `<HyperLogLogError as Display>::fmt` */
  function Display(e: HyperLogLogError): (r: string)
    ensures e.MisMatchedPrecision? ==> MismatchPrefix <= r
    ensures e.MisMatchedPrecision? ==>
      r[|MismatchPrefix|..] == Decimal(e.expected) + MismatchSeparator + Decimal(e.actual)
    ensures e.MergeFailed? ==> MergePrefix <= r && r[|MergePrefix|..] == e.msg
    ensures e.PrecisionBelowThreshold? ==> r == "Precision p must be at least 4"
    ensures e.PrecisionTooLarge? ==> r == "Precision too large, reduce p"
  {
    match e
    case MisMatchedPrecision(expected, actual) =>
      MismatchPrefix + Decimal(expected) + MismatchSeparator + Decimal(actual)
    case MergeFailed(msg) => MergePrefix + msg
    case PrecisionBelowThreshold => "Precision p must be at least 4"
    case PrecisionTooLarge => "Precision too large, reduce p"
  }

  /** `Error::source`: no variant wraps another error. */
  function Source(e: HyperLogLogError): (r: Option<HyperLogLogError>)
    ensures r.None?
  {
    None
  }

  /** `Error::cause` defers to `source`, so it is empty for every variant. */
  function Cause(e: HyperLogLogError): (r: Option<HyperLogLogError>)
    ensures r == None
  {
    Source(e)
  }

  /** The text after the fixed prefix of a merge failure is the caller's message, verbatim. */
  lemma MergeFailedMessage(msg: string)
    ensures Display(MergeFailed(msg))[..|MergePrefix|] == MergePrefix
    ensures Display(MergeFailed(msg))[|MergePrefix|..] == msg
  {
  }

  lemma DecimalInjective(a: nat, b: nat)
    requires Decimal(a) == Decimal(b)
    ensures a == b
  {
  }

  /** The length of the run of digits that s starts with. */
  function LeadingDigits(s: string): nat {
    if s == [] || !IsDigit(s[0]) then 0 else 1 + LeadingDigits(s[1..])
  }

  lemma {:induction false} LeadingDigitsOf(a: string, t: string)
    requires AllDigits(a) && |t| > 0 && !IsDigit(t[0])
    ensures LeadingDigits(a + t) == |a|
  {
    if a != [] {
      assert (a + t)[1..] == a[1..] + t;
      LeadingDigitsOf(a[1..], t);
    }
  }

  /**
   * Two digit strings each followed by the same separator, which starts with
   * a non-digit, can be told apart: the split point is where the digits end.
   */
  lemma SplitAtSeparator(a1: string, b1: string, a2: string, b2: string, sep: string)
    requires AllDigits(a1) && AllDigits(a2)
    requires |sep| > 0 && !IsDigit(sep[0])
    requires a1 + sep + b1 == a2 + sep + b2
    ensures a1 == a2 && b1 == b2
  {
    var s1, s2 := a1 + sep + b1, a2 + sep + b2;
    assert s1 == a1 + (sep + b1) && s2 == a2 + (sep + b2);
    LeadingDigitsOf(a1, sep + b1);
    LeadingDigitsOf(a2, sep + b2);
    assert a1 == s1[..|a1|] && a2 == s2[..|a2|];
    assert b1 == s1[|a1| + |sep|..] && b2 == s2[|a2| + |sep|..];
  }

  /** The two numbers of a precision mismatch can be read back from its message. */
  lemma MismatchMessageInjective(x1: u32, y1: u32, x2: u32, y2: u32)
    requires Display(MisMatchedPrecision(x1, y1)) == Display(MisMatchedPrecision(x2, y2))
    ensures x1 == x2 && y1 == y2
  {
    var m1, m2 := Display(MisMatchedPrecision(x1, y1)), Display(MisMatchedPrecision(x2, y2));
    var t1 := Decimal(x1) + MismatchSeparator + Decimal(y1);
    var t2 := Decimal(x2) + MismatchSeparator + Decimal(y2);
    assert m1 == MismatchPrefix + t1 && m2 == MismatchPrefix + t2;
    assert t1 == m1[|MismatchPrefix|..] && t2 == m2[|MismatchPrefix|..];
    SplitAtSeparator(Decimal(x1), Decimal(y1), Decimal(x2), Decimal(y2), MismatchSeparator);
    DecimalInjective(x1, x2);
    DecimalInjective(y1, y2);
  }

  /**
   * The first character and the eleventh tell the four message forms apart:
   * 'P' and 'm', 'M', 'P' and 'p', 'P' and 't'.
   */
  lemma MessageShape(e: HyperLogLogError)
    ensures |Display(e)| > 10
    ensures Display(e)[0] == (if e.MergeFailed? then 'M' else 'P')
    ensures e.MisMatchedPrecision? ==> Display(e)[10] == 'm'
    ensures e.PrecisionBelowThreshold? ==> Display(e)[10] == 'p'
    ensures e.PrecisionTooLarge? ==> Display(e)[10] == 't'
  {
    var m := Display(e);
    match e {
      case MisMatchedPrecision(x, y) =>
        assert m == MismatchPrefix + (Decimal(x) + MismatchSeparator + Decimal(y));
      case MergeFailed(msg) =>
        assert m == MergePrefix + msg;
      case PrecisionBelowThreshold =>
        FixedTextShapes();
      case PrecisionTooLarge =>
        FixedTextShapes();
    }
  }

  lemma FixedTextShapes()
    ensures var t := Display(PrecisionBelowThreshold); |t| > 10 && t[0] == 'P' && t[10] == 'p'
    ensures var t := Display(PrecisionTooLarge); |t| > 10 && t[0] == 'P' && t[10] == 't'
  {
    var below, large := "Precision p must be at least 4", "Precision too large, reduce p";
    assert below[0] == 'P' && below[10] == 'p';
    assert large[0] == 'P' && large[10] == 't';
  }

  /** Distinct errors have distinct messages: the message determines the variant and its data. */
  lemma DisplayInjective(e1: HyperLogLogError, e2: HyperLogLogError)
    requires Display(e1) == Display(e2)
    ensures e1 == e2
  {
    MessageShape(e1);
    MessageShape(e2);
    if e1.MisMatchedPrecision? && e2.MisMatchedPrecision? {
      MismatchMessageInjective(e1.expected, e1.actual, e2.expected, e2.actual);
    } else if e1.MergeFailed? && e2.MergeFailed? {
      MergeFailedMessage(e1.msg);
      MergeFailedMessage(e2.msg);
    }
  }
}
