/**
 * MimeTypeComparator: the order in which media types are preferred. The keys,
 * one after another, are the accepted quality under an optional bound
 * preference (higher first), the number of wildcards (fewer first), the
 * type's own `q` parameter (higher first), a fixed fallback table (higher
 * first) and finally the string form (lexically ascending).
 */
module MimeTypeComparator {
  import opened Wrappers
  import opened Exceptions
  import opened Strings
  import opened MimeTypes
  import opened MimeUtils
  import opened QValues
  import opened HeaderEntries

  /** countWildChars: 2 for a `*` primary type, 1 for a `*` subtype alone, else 0. */
  function CountWildChars(m: MediaType): (r: nat)
    ensures r <= 2
    ensures r == 2 <==> m.primary == Wildcard
    ensures r == 1 <==> m.primary != Wildcard && m.sub == Wildcard
  {
    if m.primary == Wildcard then 2
    else if m.sub == Wildcard then 1
    else 0
  }

  /**
   * A type accepted under a range has no more wildcards than the range, so
   * ordering by wildcard count puts types ahead of the ranges that cover them.
   */
  lemma MatchingRangeHasNoFewerWildcards(t: MediaType, range: MediaType)
    requires IsSameOrSubtype(t, range)
    ensures CountWildChars(t) <= CountWildChars(range)
  {
    LowerOfWildcard();
    if t.primary == Wildcard && range.primary != Wildcard {
      assert Lower(range.primary) == Wildcard;
      LowerStar(range.primary);
    }
    if t.sub == Wildcard && range.sub != Wildcard && range.primary != Wildcard {
      assert Lower(range.sub) == Wildcard;
      LowerStar(range.sub);
    }
  }

  /** compareByWildCardCount: -1 when `a` has fewer wildcards, 1 when more, 0 on a tie. */
  function CompareByWildCardCount(a: MediaType, b: MediaType): (r: int)
    ensures r == 0 <==> CountWildChars(a) == CountWildChars(b)
    ensures r == -1 <==> CountWildChars(a) < CountWildChars(b)
    ensures r == 1 <==> CountWildChars(a) > CountWildChars(b)
  {
    var w1, w2 := CountWildChars(a), CountWildChars(b);
    if w1 == w2 then 0 else if w1 < w2 then -1 else 1
  }

  /** getQ: the `q` parameter as a number, 1 when absent; a `q` that is not a number raises NumberFormat. */
  function GetQ(m: MediaType): (r: Result<real, Error>)
    ensures GetParameter(m.params, QParam).None? ==> r == Success(1.0)
    ensures GetParameter(m.params, QParam).Some? ==>
      (r.Success? <==> ParseDecimal(GetParameter(m.params, QParam).value).Some?)
    ensures r.Success? && GetParameter(m.params, QParam).Some? ==>
      r.value == ParseDecimal(GetParameter(m.params, QParam).value).value
    ensures r.Failure? ==> r.error == NumberFormat
  {
    match GetParameter(m.params, QParam)
    case None => Success(1.0)
    case Some(s) =>
      match ParseDecimal(s)
      case None => Failure(NumberFormat)
      case Some(q) => Success(q)
  }

  /** The keys of the fallback table: mimeType("application/xhtml+xml"), "text/html", "application/rdf+xml". */
  const Xhtml: MediaType := MediaType("application", "xhtml+xml", [])
  const Html: MediaType := MediaType("text", "html", [])
  const RdfXml: MediaType := MediaType("application", "rdf+xml", [])

  /** fallBackQ, with the float priorities 1.0, 0.9 and 0.8 in thousandths. */
  const FallBackTable: map<MediaType, int> := map[Xhtml := 1000, Html := 900, RdfXml := 800]

  lemma MimeTypeOfBase(primary: string, sub: string, s: string)
    requires IsToken(primary) && IsLower(primary) && IsToken(sub) && IsLower(sub)
    requires s == primary + ['/'] + sub
    ensures MimeTypeOf(s) == Success(MediaType(primary, sub, []))
  {
    ParseOfBase(primary, sub);
  }

  /** The table's keys are what mimeType makes of the strings the table is filled from. */
  lemma FallBackKeysParse()
    ensures MimeTypeOf("application/xhtml+xml") == Success(Xhtml)
    ensures MimeTypeOf("text/html") == Success(Html)
    ensures MimeTypeOf("application/rdf+xml") == Success(RdfXml)
  {
    XhtmlParses();
    HtmlParses();
    RdfXmlParses();
  }

  lemma XhtmlParses()
    ensures MimeTypeOf("application/xhtml+xml") == Success(Xhtml)
  {
    ApplicationIsToken();
    XhtmlIsToken();
    assert "application/xhtml+xml" == "application" + ['/'] + "xhtml+xml" by {
      TypeText("application", "xhtml+xml", "application/xhtml+xml");
    }
    MimeTypeOfBase("application", "xhtml+xml", "application/xhtml+xml");
  }

  lemma HtmlParses()
    ensures MimeTypeOf("text/html") == Success(Html)
  {
    assert IsToken("text") && IsLower("text");
    assert IsToken("html") && IsLower("html");
    MimeTypeOfBase("text", "html", "text/html");
  }

  lemma RdfXmlParses()
    ensures MimeTypeOf("application/rdf+xml") == Success(RdfXml)
  {
    ApplicationIsToken();
    RdfIsToken();
    assert "application/rdf+xml" == "application" + ['/'] + "rdf+xml" by {
      TypeText("application", "rdf+xml", "application/rdf+xml");
    }
    MimeTypeOfBase("application", "rdf+xml", "application/rdf+xml");
  }

  lemma ApplicationIsToken()
    ensures IsToken("application") && IsLower("application")
  {
  }

  lemma XhtmlIsToken()
    ensures IsToken("xhtml+xml") && IsLower("xhtml+xml")
  {
  }

  lemma RdfIsToken()
    ensures IsToken("rdf+xml") && IsLower("rdf+xml")
  {
  }

  // `s` is `primary/sub` written out.
  lemma TypeText(primary: string, sub: string, s: string)
    requires |s| == |primary| + 1 + |sub| && s[|primary|] == '/'
    requires s[..|primary|] == primary && s[|primary| + 1..] == sub
    ensures s == primary + ['/'] + sub
  {
    assert s == s[..|primary|] + [s[|primary|]] + s[|primary| + 1..];
  }

  /** getFallBackQ: the table's priority of `m`, or 0 for a type the table does not list. */
  function FallBackQ(m: MediaType): (r: int)
    ensures r == 1000 <==> m == Xhtml
    ensures r == 900 <==> m == Html
    ensures r == 800 <==> m == RdfXml
    ensures r == 0 <==> m !in FallBackTable
  {
    if m in FallBackTable then FallBackTable[m] else 0
  }

  /** fallBackCompare: -1 when `a` has the higher fallback priority, 1 when lower, 0 on a tie. */
  function FallBackCompare(a: MediaType, b: MediaType): (r: int)
    ensures r == 0 <==> FallBackQ(a) == FallBackQ(b)
    ensures r == -1 <==> FallBackQ(a) > FallBackQ(b)
    ensures r == 1 <==> FallBackQ(a) < FallBackQ(b)
  {
    var q1, q2 := FallBackQ(a), FallBackQ(b);
    if q1 == q2 then 0 else if q1 > q2 then -1 else 1
  }

  /**
   * inconsistentCompare: null sorts after everything; otherwise wildcard
   * count, then `q`, then the fallback table, with 0 when all three tie.
   */
  function InconsistentCompare(o1: Option<MediaType>, o2: Option<MediaType>): (r: Result<int, Error>)
    ensures o1.None? && o2.None? ==> r == Success(0)
    ensures o1.None? && o2.Some? ==> r == Success(1)
    ensures o1.Some? && o2.None? ==> r == Success(-1)
    ensures r.Success? ==> -1 <= r.value <= 1
    ensures r.Failure? ==> r.error == NumberFormat
  {
    if o1.None? && o2.None? then Success(0)
    else if o1.None? then Success(1)
    else if o2.None? then Success(-1)
    else
      var a, b := o1.value, o2.value;
      var wildCharComparison := CompareByWildCardCount(a, b);
      if wildCharComparison != 0 then Success(wildCharComparison)
      else
        match GetQ(a)
        case Failure(e) => Failure(e)
        case Success(q1) =>
          match GetQ(b)
          case Failure(e) => Failure(e)
          case Success(q2) =>
            if q1 == q2 then Success(FallBackCompare(a, b))
            else if q1 > q2 then Success(-1)
            else Success(1)
  }

  /** Swapping the arguments of inconsistentCompare negates its result. */
  lemma InconsistentCompareAntisymmetric(o1: Option<MediaType>, o2: Option<MediaType>)
    ensures InconsistentCompare(o2, o1).Success? <==> InconsistentCompare(o1, o2).Success?
    ensures InconsistentCompare(o1, o2).Success? ==>
      InconsistentCompare(o2, o1).value == -InconsistentCompare(o1, o2).value
  {
  }

  /** The accepted quality of `m` under the bound preference; without one every type ties at 0. */
  function BoundRank(bound: Option<seq<Entry>>, m: MediaType): int {
    match bound
    case None => 0
    case Some(es) => AcceptedQuality(es, m)
  }

  /**
   * compare: 0 for equal types; then the bound preference's accepted
   * quality, higher first; then inconsistentCompare; when that ties, the
   * lexical order of the string forms.
   */
  function Compare(a: MediaType, b: MediaType, bound: Option<seq<Entry>>): (r: Result<int, Error>)
    ensures a == b ==> r == Success(0)
    ensures r.Failure? ==> r.error == NumberFormat
  {
    if a == b then Success(0)
    else if bound.Some? && AcceptedQuality(bound.value, a) > AcceptedQuality(bound.value, b) then Success(-1)
    else if bound.Some? && AcceptedQuality(bound.value, a) < AcceptedQuality(bound.value, b) then Success(1)
    else
      match InconsistentCompare(Some(a), Some(b))
      case Failure(e) => Failure(e)
      case Success(c) =>
        if c == 0 then Success(CompareStrings(ToString(a), ToString(b))) else Success(c)
  }

  /**
   * compare as the program runs it. javax.activation.MimeType does not
   * override equals or hashCode, so the fallback table's containsKey matches
   * only the table's own key objects, which never leave the class: every
   * type gets priority 0, fallBackCompare always ties, and types tied on the
   * keys before it go straight to the lexical order of their string forms.
   */
  function CompareAsWritten(a: MediaType, b: MediaType, bound: Option<seq<Entry>>): (r: Result<int, Error>)
    ensures FallBackQ(a) == FallBackQ(b) ==> r == Compare(a, b, bound)
    ensures r.Failure? <==> Compare(a, b, bound).Failure?
  {
    if a == b then Success(0)
    else if bound.Some? && AcceptedQuality(bound.value, a) > AcceptedQuality(bound.value, b) then Success(-1)
    else if bound.Some? && AcceptedQuality(bound.value, a) < AcceptedQuality(bound.value, b) then Success(1)
    else
      var wildCharComparison := CompareByWildCardCount(a, b);
      if wildCharComparison != 0 then Success(wildCharComparison)
      else
        match GetQ(a)
        case Failure(e) => Failure(e)
        case Success(q1) =>
          match GetQ(b)
          case Failure(e) => Failure(e)
          case Success(q2) =>
            if q1 == q2 then Success(CompareStrings(ToString(a), ToString(b)))
            else if q1 > q2 then Success(-1)
            else Success(1)
  }

  /**
   * The reference order, written key by key: `a` comes strictly before `b`
   * when it wins on the first key on which the two differ. The `q` key is
   * only reached, and only defined, when both `q` values are numbers.
   */
  predicate Precedes(a: MediaType, b: MediaType, bound: Option<seq<Entry>>) {
    && a != b
    && (|| BoundRank(bound, a) > BoundRank(bound, b)
        || (BoundRank(bound, a) == BoundRank(bound, b) && PrecedesByOwnKeys(a, b)))
  }

  /** The keys after the bound preference: wildcards, `q`, fallback priority, string form. */
  predicate PrecedesByOwnKeys(a: MediaType, b: MediaType) {
    || CountWildChars(a) < CountWildChars(b)
    || (&& CountWildChars(a) == CountWildChars(b)
        && GetQ(a).Success? && GetQ(b).Success?
        && (|| GetQ(a).value > GetQ(b).value
            || (&& GetQ(a).value == GetQ(b).value
                && (|| FallBackQ(a) > FallBackQ(b)
                    || (FallBackQ(a) == FallBackQ(b) && CompareStrings(ToString(a), ToString(b)) < 0)))))
  }

  /** When compare raises: distinct types that tie on the keys before `q`, one of whose `q` is not a number. */
  predicate CompareRaises(a: MediaType, b: MediaType, bound: Option<seq<Entry>>) {
    && a != b
    && BoundRank(bound, a) == BoundRank(bound, b)
    && CountWildChars(a) == CountWildChars(b)
    && (GetQ(a).Failure? || GetQ(b).Failure?)
  }

  /** compare fails exactly as the reference order says, with a NumberFormat error. */
  lemma CompareFailure(a: MediaType, b: MediaType, bound: Option<seq<Entry>>)
    ensures Compare(a, b, bound).Failure? <==> CompareRaises(a, b, bound)
  {
  }

  /** compare is negative exactly when `a` precedes `b` in the reference order. */
  lemma CompareSign(a: MediaType, b: MediaType, bound: Option<seq<Entry>>)
    ensures Compare(a, b, bound).Success? && Compare(a, b, bound).value < 0 <==> Precedes(a, b, bound)
  {
  }

  /** Swapping the arguments negates the result, and a failure stays a failure. */
  lemma CompareAntisymmetric(a: MediaType, b: MediaType, bound: Option<seq<Entry>>)
    ensures Compare(b, a, bound).Success? <==> Compare(a, b, bound).Success?
    ensures Compare(a, b, bound).Success? ==> Compare(b, a, bound).value == -Compare(a, b, bound).value
  {
    CompareStringsAntisymmetric(ToString(a), ToString(b));
  }

  /** The reference order is asymmetric. */
  lemma PrecedesAsymmetric(a: MediaType, b: MediaType, bound: Option<seq<Entry>>)
    requires Precedes(a, b, bound)
    ensures !Precedes(b, a, bound)
  {
    CompareStringsAntisymmetric(ToString(a), ToString(b));
  }

  /** The reference order is transitive. */
  lemma PrecedesTransitive(a: MediaType, b: MediaType, c: MediaType, bound: Option<seq<Entry>>)
    requires Precedes(a, b, bound) && Precedes(b, c, bound)
    ensures Precedes(a, c, bound)
  {
    if a == c {
      PrecedesAsymmetric(a, b, bound);
    }
    var sa, sb, sc := ToString(a), ToString(b), ToString(c);
    if CompareStrings(sa, sb) < 0 && CompareStrings(sb, sc) < 0 {
      CompareStringsTransitive(sa, sb, sc);
    }
  }

  /** compare is transitive: the consistency the comparator is meant to guarantee. */
  lemma CompareTransitive(a: MediaType, b: MediaType, c: MediaType, bound: Option<seq<Entry>>)
    requires Compare(a, b, bound).Success? && Compare(a, b, bound).value < 0
    requires Compare(b, c, bound).Success? && Compare(b, c, bound).value < 0
    ensures Compare(a, c, bound).Success? && Compare(a, c, bound).value < 0
  {
    CompareSign(a, b, bound);
    CompareSign(b, c, bound);
    PrecedesTransitive(a, b, c, bound);
    CompareSign(a, c, bound);
  }

  /** Between types the parser can produce, compare is 0 only for equal types: no two distinct types tie. */
  lemma CompareZero(a: MediaType, b: MediaType, bound: Option<seq<Entry>>)
    requires WellFormed(a) && WellFormed(b)
    ensures Compare(a, b, bound) == Success(0) <==> a == b
  {
    if a != b && Compare(a, b, bound) == Success(0) {
      CompareStringsZero(ToString(a), ToString(b));
      ToStringInjective(a, b);
    }
  }

  /** Types without a `q` parameter, such as the media types of entries, always compare without error. */
  lemma CompareWithoutQ(a: MediaType, b: MediaType, bound: Option<seq<Entry>>)
    requires GetParameter(a.params, QParam).None? && GetParameter(b.params, QParam).None?
    ensures Compare(a, b, bound).Success?
  {
  }

  /** The bound preference is consulted first: a difference there decides, whatever the later keys. */
  lemma BoundRankDecides(a: MediaType, b: MediaType, es: seq<Entry>)
    requires a != b && AcceptedQuality(es, a) != AcceptedQuality(es, b)
    ensures Compare(a, b, Some(es)) == if AcceptedQuality(es, a) > AcceptedQuality(es, b) then Success(-1) else Success(1)
  {
  }

  /**
   * Without a bound preference, a type sorts ahead of any range with more
   * wildcards that covers it, whatever their `q` values.
   */
  lemma TypeBeforeCoveringRange(t: MediaType, range: MediaType)
    requires IsSameOrSubtype(t, range) && CountWildChars(t) != CountWildChars(range)
    ensures Compare(t, range, None) == Success(-1)
  {
    MatchingRangeHasNoFewerWildcards(t, range);
  }
}
