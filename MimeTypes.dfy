/**
 * Media types: a stand-in for the javax.activation.MimeType parser and its
 * string form.
 */
module MimeTypes {
  import opened Wrappers
  import opened Exceptions
  import opened Strings

  /**
   * A media type `primary/sub` with its parameters as (name, value) pairs in
   * the order they were written.
   */
  datatype MediaType = MediaType(primary: string, sub: string, params: seq<(string, string)>)

  /** One of the MIME specials `()<>@,;:\"/[]?=`, which cannot occur in a token. */
  predicate IsSpecial(c: char) {
    || c == '(' || c == ')' || c == '<' || c == '>' || c == '@'
    || c == ',' || c == ';' || c == ':' || c == '\\' || c == '"'
    || c == '/' || c == '[' || c == ']' || c == '?' || c == '='
  }

  /** A character allowed in a token: printable ASCII other than the MIME specials. */
  predicate IsTokenChar(c: char) {
    ' ' < c && c as int < 127 && !IsSpecial(c)
  }

  predicate IsToken(s: string) {
    |s| > 0 && forall i :: 0 <= i < |s| ==> IsTokenChar(s[i])
  }

  /** What the parser produces for a parameter: a lower-case name and a value, both tokens. */
  predicate ParamWellFormed(p: (string, string)) {
    IsToken(p.0) && IsLower(p.0) && IsToken(p.1)
  }

  /** What the parser produces: lower-case token type and subtype, well-formed parameters. */
  predicate WellFormed(m: MediaType) {
    && IsToken(m.primary) && IsLower(m.primary)
    && IsToken(m.sub) && IsLower(m.sub)
    && forall i :: 0 <= i < |m.params| ==> ParamWellFormed(m.params[i])
  }

  /** The text ` name=value` a parameter is written as, after its `;`. */
  function ParamPiece(p: (string, string)): string {
    " " + p.0 + "=" + p.1
  }

  /** The parameter pieces of a non-empty list, in order, joined by `;`. */
  function ParamsText(ps: seq<(string, string)>): string
    requires |ps| >= 1
  {
    if |ps| == 1 then ParamPiece(ps[0]) else ParamPiece(ps[0]) + [';'] + ParamsText(ps[1..])
  }

  /** The parameters as `; name=value` each, in order. */
  function ParamsToString(ps: seq<(string, string)>): string {
    if ps == [] then "" else [';'] + ParamsText(ps)
  }

  /** getBaseType: `primary/sub` without parameters. */
  function BaseType(m: MediaType): string {
    m.primary + "/" + m.sub
  }

  /** toString: the base type followed by `; name=value` for each parameter. */
  function ToString(m: MediaType): string {
    BaseType(m) + ParamsToString(m.params)
  }

  /** One `name=value` parameter; the name is folded to lower case. */
  function ParseParameter(piece: string): (r: Option<(string, string)>)
    ensures r.Some? ==> ParamWellFormed(r.value)
  {
    match IndexOf(piece, '=')
    case None => None
    case Some(i) =>
      var name := Lower(Trim(piece[..i]));
      var value := Trim(piece[i + 1..]);
      LowerIsLower(Trim(piece[..i]));
      if IsToken(name) && IsToken(value) then Some((name, value)) else None
  }

  /** The `;`-separated parameters that follow the first `;` of a media type. */
  function ParseParameters(rest: string): (r: Option<seq<(string, string)>>)
    ensures r.Some? ==> |r.value| >= 1
    ensures r.Some? ==> forall i :: 0 <= i < |r.value| ==> ParamWellFormed(r.value[i])
    decreases |rest|
  {
    match IndexOf(rest, ';')
    case None =>
      (match ParseParameter(rest)
       case None => None
       case Some(p) => Some([p]))
    case Some(i) =>
      match ParseParameter(rest[..i])
      case None => None
      case Some(p) =>
        match ParseParameters(rest[i + 1..])
        case None => None
        case Some(ps) => Some([p] + ps)
  }

  /** Type and subtype from the text around the `/`: trimmed, lower-cased, tokens. */
  function ParseTypes(before: string, after: string): (r: Option<(string, string)>)
    ensures r.Some? ==> IsToken(r.value.0) && IsLower(r.value.0)
    ensures r.Some? ==> IsToken(r.value.1) && IsLower(r.value.1)
  {
    var primary := Lower(Trim(before));
    var sub := Lower(Trim(after));
    LowerIsLower(Trim(before));
    LowerIsLower(Trim(after));
    if IsToken(primary) && IsToken(sub) then Some((primary, sub)) else None
  }

  /** The media type with the parameters that follow its first `;`. */
  function WithParameters(primary: string, sub: string, rest: string): (r: Result<MediaType, Error>)
    ensures r.Failure? ==> r.error == MimeTypeParse
    ensures r.Success? ==> r.value.primary == primary && r.value.sub == sub
    ensures r.Success? ==> forall i :: 0 <= i < |r.value.params| ==> ParamWellFormed(r.value.params[i])
  {
    match ParseParameters(rest)
    case None => Failure(MimeTypeParse)
    case Some(ps) => Success(MediaType(primary, sub, ps))
  }

  /**
   * new MimeType(s): type and subtype are the trimmed, lower-cased text
   * before and after the first `/`, the subtype ending at the first `;`;
   * a `;` before the `/`, a missing `/`, a type or subtype that is not a
   * token, or a malformed parameter raises MimeTypeParse.
   */
  function Parse(s: string): (r: Result<MediaType, Error>)
    ensures r.Failure? ==> r.error == MimeTypeParse
    ensures r.Success? ==> WellFormed(r.value)
  {
    match IndexOf(s, '/')
    case None => Failure(MimeTypeParse)
    case Some(slash) => ParseAround(s[..slash], s[slash + 1..])
  }

  /**
   * The rest of the parse, given the text before and after the first `/`:
   * the first `;` of the whole string is either in `before`, which is an
   * error, or is the first `;` of `after`, which ends the subtype.
   */
  function ParseAround(before: string, after: string): (r: Result<MediaType, Error>)
    ensures r.Failure? ==> r.error == MimeTypeParse
    ensures r.Success? ==> WellFormed(r.value)
  {
    if ';' in before then Failure(MimeTypeParse)
    else match IndexOf(after, ';')
      case None =>
        (match ParseTypes(before, after)
         case None => Failure(MimeTypeParse)
         case Some(types) => Success(MediaType(types.0, types.1, [])))
      case Some(semi) =>
        match ParseTypes(before, after[..semi])
        case None => Failure(MimeTypeParse)
        case Some(types) => WithParameters(types.0, types.1, after[semi + 1..])
  }
}
