/**
 * The media-range test of MimeUtils, and what the parser and the string
 * form of a media type promise about each other.
 */
module MimeUtils {
  import opened Wrappers
  import opened Exceptions
  import opened Strings
  import opened MimeTypes

  /** MIME_TYPE_WILDCARD. */
  const Wildcard: string := "*"

  lemma TokenIsTrimmed(s: string)
    requires IsToken(s)
    ensures Trim(s) == s
  {
    TrimNoSpace(s);
  }

  lemma ParamPieceHasNoSemicolon(p: (string, string))
    requires ParamWellFormed(p)
    ensures ';' !in ParamPiece(p)
  {
  }

  lemma ParamPieceEquals(p: (string, string))
    requires ParamWellFormed(p)
    ensures IndexOf(ParamPiece(p), '=') == Some(|p.0| + 1)
  {
    assert ParamPiece(p) == (" " + p.0) + ['='] + p.1;
    IndexOfAfter(" " + p.0, '=', p.1);
  }

  lemma ParseParameterPiece(p: (string, string))
    requires ParamWellFormed(p)
    ensures ParseParameter(ParamPiece(p)) == Some(p)
  {
    var name, value := p.0, p.1;
    var piece := ParamPiece(p);
    ParamPieceEquals(p);
    assert piece[..|name| + 1] == [' '] + name;
    assert piece[|name| + 2..] == value;
    TrimLeadingBlank(name);
    LowerOfLower(name);
    TokenIsTrimmed(value);
  }

  lemma ParseParametersLast(piece: string, p: (string, string))
    requires ';' !in piece && ParseParameter(piece) == Some(p)
    ensures ParseParameters(piece) == Some([p])
  {
  }

  lemma ParseParametersNext(piece: string, p: (string, string), more: string, ps: seq<(string, string)>)
    requires ';' !in piece && ParseParameter(piece) == Some(p)
    requires ParseParameters(more) == Some(ps)
    ensures ParseParameters(piece + [';'] + more) == Some([p] + ps)
  {
    var rest := piece + [';'] + more;
    IndexOfAfter(piece, ';', more);
    assert rest[..|piece|] == piece;
    assert rest[|piece| + 1..] == more;
  }

  lemma ParseParametersCons(p: (string, string), ps: seq<(string, string)>, rest: string)
    requires ParamWellFormed(p) && ParseParameters(rest) == Some(ps)
    ensures ParseParameters(ParamPiece(p) + [';'] + rest) == Some([p] + ps)
  {
    ParseParameterPiece(p);
    ParamPieceHasNoSemicolon(p);
    ParseParametersNext(ParamPiece(p), p, rest, ps);
  }

  /** A lone parameter written `name=value`, without blanks, parses to itself. */
  lemma ParseTightParameter(name: string, value: string)
    requires ParamWellFormed((name, value))
    ensures ParseParameters(name + ['='] + value) == Some([(name, value)])
  {
    var piece := name + ['='] + value;
    TokenHasNoSeparator(name);
    TokenHasNoSeparator(value);
    IndexOfAfter(name, '=', value);
    assert piece[..|name|] == name && piece[|name| + 1..] == value;
    TokenIsTrimmed(name);
    LowerOfLower(name);
    TokenIsTrimmed(value);
    assert ParseParameter(piece) == Some((name, value));
    ParseParametersLast(piece, (name, value));
  }

  /** Parsing the parameter text of a well-formed parameter list gives it back. */
  lemma {:induction false} ParseParametersOfText(ps: seq<(string, string)>)
    requires |ps| >= 1
    requires forall i :: 0 <= i < |ps| ==> ParamWellFormed(ps[i])
    ensures ParseParameters(ParamsText(ps)) == Some(ps)
  {
    if |ps| == 1 {
      ParseParameterPiece(ps[0]);
      ParamPieceHasNoSemicolon(ps[0]);
      ParseParametersLast(ParamPiece(ps[0]), ps[0]);
      assert [ps[0]] == ps;
    } else {
      ParseParametersOfText(ps[1..]);
      ParseParametersCons(ps[0], ps[1..], ParamsText(ps[1..]));
      assert [ps[0]] + ps[1..] == ps;
    }
  }

  lemma ParseTypesOfTokens(primary: string, sub: string)
    requires IsToken(primary) && IsLower(primary) && IsToken(sub) && IsLower(sub)
    ensures ParseTypes(primary, sub) == Some((primary, sub))
  {
    TokenIsTrimmed(primary);
    LowerOfLower(primary);
    TokenIsTrimmed(sub);
    LowerOfLower(sub);
  }

  /** A token holds none of the separators the parser looks for. */
  lemma TokenHasNoSeparator(t: string)
    requires IsToken(t)
    ensures '/' !in t && ';' !in t && '=' !in t && ',' !in t
  {
    assert forall i :: 0 <= i < |t| ==> IsTokenChar(t[i]);
  }

  /** With no `/` before it, the `/` in `before/after` is the one the parser splits at. */
  lemma ParseAtSlash(before: string, after: string)
    requires '/' !in before
    ensures Parse(before + ['/'] + after) == ParseAround(before, after)
  {
    var s := before + ['/'] + after;
    IndexOfAfter(before, '/', after);
    assert s[..|before|] == before;
    assert s[|before| + 1..] == after;
  }

  lemma ParseAroundWithoutParameters(before: string, after: string, primary: string, sub: string)
    requires ';' !in before && ';' !in after
    requires ParseTypes(before, after) == Some((primary, sub))
    ensures ParseAround(before, after) == Success(MediaType(primary, sub, []))
  {
  }

  lemma ParseAroundAtSemicolon(before: string, after: string, semi: nat, primary: string, sub: string, ps: seq<(string, string)>)
    requires ';' !in before && IndexOf(after, ';') == Some(semi)
    requires ParseTypes(before, after[..semi]) == Some((primary, sub))
    requires ParseParameters(after[semi + 1..]) == Some(ps)
    ensures ParseAround(before, after) == Success(MediaType(primary, sub, ps))
  {
  }

  lemma ParseAroundWithParameters(before: string, sub: string, tail: string, primary: string, ps: seq<(string, string)>)
    requires ';' !in before && ';' !in sub
    requires ParseTypes(before, sub) == Some((primary, sub))
    requires ParseParameters(tail) == Some(ps)
    ensures ParseAround(before, sub + [';'] + tail) == Success(MediaType(primary, sub, ps))
  {
    var after := sub + [';'] + tail;
    IndexOfAfter(sub, ';', tail);
    assert after[..|sub|] == sub;
    assert after[|sub| + 1..] == tail;
    ParseAroundAtSemicolon(before, after, |sub|, primary, sub, ps);
  }

  lemma SlashLayout(before: string, sub: string, tail: string)
    ensures before + ['/'] + sub + [';'] + tail == before + ['/'] + (sub + [';'] + tail)
  {
  }

  lemma ParseOfBase(primary: string, sub: string)
    requires IsToken(primary) && IsLower(primary) && IsToken(sub) && IsLower(sub)
    ensures Parse(primary + ['/'] + sub) == Success(MediaType(primary, sub, []))
  {
    TokenHasNoSeparator(primary);
    TokenHasNoSeparator(sub);
    ParseAtSlash(primary, sub);
    ParseTypesOfTokens(primary, sub);
    ParseAroundWithoutParameters(primary, sub, primary, sub);
  }

  lemma ParseTypesAfterBlank(primary: string, sub: string)
    requires IsToken(primary) && IsLower(primary) && IsToken(sub) && IsLower(sub)
    ensures ParseTypes([' '] + primary, sub) == Some((primary, sub))
  {
    TrimLeadingBlank(primary);
    LowerOfLower(primary);
    TokenIsTrimmed(sub);
    LowerOfLower(sub);
  }

  /** A blank before the type, as after the `,` of a header, is trimmed away. */
  lemma ParseOfBlankBase(primary: string, sub: string)
    requires IsToken(primary) && IsLower(primary) && IsToken(sub) && IsLower(sub)
    ensures Parse([' '] + primary + ['/'] + sub) == Success(MediaType(primary, sub, []))
  {
    TokenHasNoSeparator(primary);
    TokenHasNoSeparator(sub);
    ParseAtSlash([' '] + primary, sub);
    ParseTypesAfterBlank(primary, sub);
    ParseAroundWithoutParameters([' '] + primary, sub, primary, sub);
  }

  /** The same with parameters: ` type/subtype;tail` parses as `type/subtype;tail` does. */
  lemma ParseOfBlankParts(primary: string, sub: string, tail: string, ps: seq<(string, string)>)
    requires IsToken(primary) && IsLower(primary) && IsToken(sub) && IsLower(sub)
    requires ParseParameters(tail) == Some(ps)
    ensures Parse([' '] + primary + ['/'] + sub + [';'] + tail) == Success(MediaType(primary, sub, ps))
  {
    TokenHasNoSeparator(primary);
    TokenHasNoSeparator(sub);
    SlashLayout([' '] + primary, sub, tail);
    ParseAtSlash([' '] + primary, sub + [';'] + tail);
    ParseTypesAfterBlank(primary, sub);
    ParseAroundWithParameters([' '] + primary, sub, tail, primary, ps);
  }

  lemma ParseOfParts(primary: string, sub: string, tail: string, ps: seq<(string, string)>)
    requires IsToken(primary) && IsLower(primary) && IsToken(sub) && IsLower(sub)
    requires ParseParameters(tail) == Some(ps)
    ensures Parse(primary + ['/'] + sub + [';'] + tail) == Success(MediaType(primary, sub, ps))
  {
    TokenHasNoSeparator(primary);
    TokenHasNoSeparator(sub);
    SlashLayout(primary, sub, tail);
    ParseAtSlash(primary, sub + [';'] + tail);
    ParseTypesOfTokens(primary, sub);
    ParseAroundWithParameters(primary, sub, tail, primary, ps);
  }

  /** Parsing the string form of a well-formed media type gives it back. */
  lemma ParseToString(m: MediaType)
    requires WellFormed(m)
    ensures Parse(ToString(m)) == Success(m)
  {
    if m.params == [] {
      assert ToString(m) == m.primary + ['/'] + m.sub;
      ParseOfBase(m.primary, m.sub);
    } else {
      var tail := ParamsText(m.params);
      assert ToString(m) == m.primary + ['/'] + m.sub + [';'] + tail;
      ParseParametersOfText(m.params);
      ParseOfParts(m.primary, m.sub, tail, m.params);
    }
  }

  /** Distinct well-formed media types have distinct string forms. */
  lemma ToStringInjective(a: MediaType, b: MediaType)
    requires WellFormed(a) && WellFormed(b)
    requires ToString(a) == ToString(b)
    ensures a == b
  {
    ParseToString(a);
    ParseToString(b);
  }

  /** mimeType(s): the parse, with a parse error rethrown as a RuntimeException. */
  function MimeTypeOf(s: string): (r: Result<MediaType, Error>)
    ensures r.Success? <==> Parse(s).Success?
    ensures r.Success? ==> r.value == Parse(s).value
    ensures r.Failure? ==> r.error == Runtime
  {
    match Parse(s)
    case Success(m) => Success(m)
    case Failure(_) => Failure(Runtime)
  }

  /** mimeType never fails on the string form of a well-formed media type. */
  lemma MimeTypeOfToString(m: MediaType)
    requires WellFormed(m)
    ensures MimeTypeOf(ToString(m)) == Success(m)
  {
    ParseToString(m);
  }

  lemma WildcardToString()
    ensures ToString(MediaType(Wildcard, Wildcard, [])) == "*/*"
  {
    assert ParamsToString([]) == "";
  }

  // WILDCARD_TYPE: `mimeType("*/*")`, which succeeds with type and subtype `*`.
  function WildcardType(): (r: MediaType)
    ensures MimeTypeOf("*/*") == Success(r)
    ensures r == MediaType(Wildcard, Wildcard, [])
  {
    WildcardToString();
    MimeTypeOfToString(MediaType(Wildcard, Wildcard, []));
    MimeTypeOf("*/*").value
  }

  /**
   * The value of parameter `name`; when the name repeats, the last value wins,
   * as it does in the library's parameter table.
   */
  function GetParameter(ps: seq<(string, string)>, name: string): (r: Option<string>)
    ensures r.None? <==> forall i :: 0 <= i < |ps| ==> ps[i].0 != name
    ensures r.Some? ==> exists i :: 0 <= i < |ps| && ps[i] == (name, r.value)
  {
    if ps == [] then None
    else if ps[|ps| - 1].0 == name then Some(ps[|ps| - 1].1)
    else GetParameter(ps[..|ps| - 1], name)
  }

  /** The parameters without any named `name`, in their original order. */
  function RemoveParameter(ps: seq<(string, string)>, name: string): (r: seq<(string, string)>)
    ensures forall p :: p in r <==> p in ps && p.0 != name
  {
    if ps == [] then []
    else (if ps[0].0 == name then [] else [ps[0]]) + RemoveParameter(ps[1..], name)
  }

  /** Removing a parameter keeps a media type well formed and leaves no parameter of that name. */
  lemma RemoveParameterWellFormed(m: MediaType, name: string)
    requires WellFormed(m)
    ensures WellFormed(m.(params := RemoveParameter(m.params, name)))
    ensures GetParameter(RemoveParameter(m.params, name), name).None?
  {
    var r := RemoveParameter(m.params, name);
    forall i | 0 <= i < |r|
      ensures ParamWellFormed(r[i]) && r[i].0 != name
    {
      assert r[i] in m.params;
    }
  }

  /**
   * isSameOrSubtype: is `t1` acceptable under the media range `t2`?
   * Parameters play no part.
   */
  predicate IsSameOrSubtype(t1: MediaType, t2: MediaType) {
    if t2.primary == Wildcard && t2.sub == Wildcard then true
    else if EqualsIgnoreCase(t1.primary, t2.primary) && t2.sub == Wildcard then true
    else EqualsIgnoreCase(t1.primary, t2.primary) && EqualsIgnoreCase(t1.sub, t2.sub)
  }

  lemma LowerOfWildcard()
    ensures Lower(Wildcard) == Wildcard
  {
    assert Lower(Wildcard)[0] == LowerChar('*') == '*';
  }

  // `*/*` accepts every media type.
  lemma WildcardAcceptsAll(t: MediaType)
    ensures IsSameOrSubtype(t, WildcardType())
  {
  }

  // A range `T/*` accepts exactly the types whose primary type is `T`
  // ignoring case; any other range accepts exactly the types equal to it,
  // type and subtype, ignoring case.
  lemma IsSameOrSubtypeCases(t: MediaType, range: MediaType)
    ensures range.sub == Wildcard ==>
      (IsSameOrSubtype(t, range) <==> range.primary == Wildcard || EqualsIgnoreCase(t.primary, range.primary))
    ensures range.sub != Wildcard ==>
      (IsSameOrSubtype(t, range) <==>
        EqualsIgnoreCase(t.primary, range.primary) && EqualsIgnoreCase(t.sub, range.sub))
  {
  }

  /** Every media type accepts itself. */
  lemma IsSameOrSubtypeReflexive(t: MediaType)
    ensures IsSameOrSubtype(t, t)
  {
  }

  /** Parameters, `q` among them, do not affect matching. */
  lemma ParametersIgnored(t1: MediaType, t2: MediaType, ps1: seq<(string, string)>, ps2: seq<(string, string)>)
    ensures IsSameOrSubtype(t1, t2) == IsSameOrSubtype(t1.(params := ps1), t2.(params := ps2))
  {
  }

  /** Acceptance is transitive: narrowing a range keeps what it accepts acceptable. */
  lemma IsSameOrSubtypeTransitive(t1: MediaType, t2: MediaType, t3: MediaType)
    requires IsSameOrSubtype(t1, t2) && IsSameOrSubtype(t2, t3)
    ensures IsSameOrSubtype(t1, t3)
  {
    LowerOfWildcard();
    if Lower(t3.primary) == Wildcard {
      LowerStar(t3.primary);
    }
    if Lower(t3.sub) == Wildcard {
      LowerStar(t3.sub);
    }
  }

  // Acceptance is not symmetric: text/plain is under text/*, not the reverse.
  lemma IsSameOrSubtypeNotSymmetric()
    ensures IsSameOrSubtype(MediaType("text", "plain", []), MediaType("text", "*", []))
    ensures !IsSameOrSubtype(MediaType("text", "*", []), MediaType("text", "plain", []))
  {
    assert Lower("plain") != Lower("*");
  }
}
