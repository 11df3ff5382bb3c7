/**
 * The entries of an Accept header (AcceptPreference.AcceptHeaderEntry) and
 * the two queries over an ordered list of them that the comparator also
 * needs: the accepted quality of a media type and the preferred supported
 * type.
 */
module HeaderEntries {
  import opened Wrappers
  import opened Exceptions
  import opened MimeTypes
  import opened MimeUtils
  import opened QValues

  /** A media type without its `q` parameter, and the quality in thousandths. */
  datatype Entry = Entry(mediaType: MediaType, quality: int)

  /** The parameter that carries the quality. */
  const QParam: string := "q"

  /** What the entry constructor guarantees about an entry. */
  predicate ValidEntry(e: Entry) {
    && WellFormed(e.mediaType)
    && GetParameter(e.mediaType.params, QParam).None?
    && IntMin <= e.quality <= IntMax
  }

  /**
   * new AcceptHeaderEntry(m): the `q` parameter is taken out, the rest of the
   * type is re-parsed through mimeType, and the quality is 1000 without `q`
   * or `(int) (q * 1000)` with it; a `q` that is not a number raises
   * NumberFormat.
   */
  function MakeEntry(m: MediaType): (r: Result<Entry, Error>)
    requires WellFormed(m)
    ensures r.Failure? <==> GetParameter(m.params, QParam).Some? && ParseDecimal(GetParameter(m.params, QParam).value).None?
    ensures r.Failure? ==> r.error == NumberFormat
    ensures r.Success? ==> ValidEntry(r.value)
    ensures r.Success? ==> r.value.mediaType == m.(params := RemoveParameter(m.params, QParam))
    ensures r.Success? && GetParameter(m.params, QParam).None? ==> r.value.quality == 1000
    ensures r.Success? && GetParameter(m.params, QParam).Some? ==>
      r.value.quality == Quality(ParseDecimal(GetParameter(m.params, QParam).value).value)
  {
    var qValue := GetParameter(m.params, QParam);
    var withoutQ := m.(params := RemoveParameter(m.params, QParam));
    RemoveParameterWellFormed(m, QParam);
    MimeTypeOfToString(withoutQ);
    var mediaType := MimeTypeOf(ToString(withoutQ)).value;
    match qValue
    case None => Success(Entry(mediaType, 1000))
    case Some(v) =>
      match ParseDecimal(v)
      case None => Failure(NumberFormat)
      case Some(q) => Success(Entry(mediaType, Quality(q)))
  }

  /** An entry's media type is already free of `q`, so rebuilding it changes nothing. */
  lemma MakeEntryOfEntry(e: Entry)
    requires ValidEntry(e)
    ensures MakeEntry(e.mediaType) == Success(Entry(e.mediaType, 1000))
  {
    var ps := e.mediaType.params;
    assert RemoveParameter(ps, QParam) == ps by {
      RemoveParameterAbsent(ps, QParam);
    }
  }

  lemma {:induction false} RemoveParameterAbsent(ps: seq<(string, string)>, name: string)
    requires GetParameter(ps, name).None?
    ensures RemoveParameter(ps, name) == ps
  {
    if ps != [] {
      assert GetParameter(ps[1..], name).None?;
      RemoveParameterAbsent(ps[1..], name);
      assert [ps[0]] + ps[1..] == ps;
    }
  }

  // The entry `*/*` with quality 1000 that stands for an absent header.
  function DefaultEntry(): (r: Entry)
    ensures MakeEntry(WildcardType()) == Success(r)
    ensures r == Entry(WildcardType(), 1000)
  {
    var w := WildcardType();
    assert GetParameter(w.params, QParam).None?;
    assert RemoveParameter(w.params, QParam) == [];
    MakeEntry(w).value
  }

  /** Index of the first entry whose media range accepts `t`. */
  function FirstAccepting(es: seq<Entry>, t: MediaType): (r: Option<nat>)
    ensures r.Some? ==> r.value < |es| && IsSameOrSubtype(t, es[r.value].mediaType)
    ensures r.Some? ==> forall j :: 0 <= j < r.value ==> !IsSameOrSubtype(t, es[j].mediaType)
    ensures r.None? ==> forall j :: 0 <= j < |es| ==> !IsSameOrSubtype(t, es[j].mediaType)
  {
    if es == [] then None
    else if IsSameOrSubtype(t, es[0].mediaType) then Some(0)
    else match FirstAccepting(es[1..], t)
      case None => None
      case Some(i) => Some(i + 1)
  }

  /** Index of the last entry that `t`, read as a media range, accepts. */
  function LastAccepted(es: seq<Entry>, t: MediaType): (r: Option<nat>)
    ensures r.Some? ==> r.value < |es| && IsSameOrSubtype(es[r.value].mediaType, t)
    ensures r.Some? ==> forall j :: r.value < j < |es| ==> !IsSameOrSubtype(es[j].mediaType, t)
    ensures r.None? ==> forall j :: 0 <= j < |es| ==> !IsSameOrSubtype(es[j].mediaType, t)
  {
    if es == [] then None
    else if IsSameOrSubtype(es[|es| - 1].mediaType, t) then Some(|es| - 1)
    else LastAccepted(es[..|es| - 1], t)
  }

  /**
   * getAcceptedQuality(t): the quality of the first entry that accepts `t`;
   * failing that, of the last entry that `t` accepts; failing that, 0.
   */
  function AcceptedQuality(es: seq<Entry>, t: MediaType): int {
    match FirstAccepting(es, t)
    case Some(i) => es[i].quality
    case None =>
      match LastAccepted(es, t)
      case Some(j) => es[j].quality
      case None => 0
  }

  /** The first entry, in order, that accepts `t` gives its quality. */
  lemma AcceptedQualityForward(es: seq<Entry>, t: MediaType, i: nat)
    requires i < |es| && IsSameOrSubtype(t, es[i].mediaType)
    requires forall j :: 0 <= j < i ==> !IsSameOrSubtype(t, es[j].mediaType)
    ensures AcceptedQuality(es, t) == es[i].quality
  {
  }

  /** With no entry accepting `t`, the last entry that `t` accepts gives its quality. */
  lemma AcceptedQualityReverse(es: seq<Entry>, t: MediaType, i: nat)
    requires forall j :: 0 <= j < |es| ==> !IsSameOrSubtype(t, es[j].mediaType)
    requires i < |es| && IsSameOrSubtype(es[i].mediaType, t)
    requires forall j :: i < j < |es| ==> !IsSameOrSubtype(es[j].mediaType, t)
    ensures AcceptedQuality(es, t) == es[i].quality
  {
  }

  /** A type unrelated to every entry, in either direction, has quality 0. */
  lemma AcceptedQualityNone(es: seq<Entry>, t: MediaType)
    requires forall j :: 0 <= j < |es| ==> !IsSameOrSubtype(t, es[j].mediaType)
    requires forall j :: 0 <= j < |es| ==> !IsSameOrSubtype(es[j].mediaType, t)
    ensures AcceptedQuality(es, t) == 0
  {
  }

  /** The accepted quality is 0 or the quality of one of the entries. */
  lemma AcceptedQualityIsAnEntryQuality(es: seq<Entry>, t: MediaType)
    ensures AcceptedQuality(es, t) == 0 || exists i :: 0 <= i < |es| && es[i].quality == AcceptedQuality(es, t)
  {
  }

  // A `*/*` entry accepts everything, so no type falls through to the reverse scan.
  lemma AcceptedQualityWithWildcard(es: seq<Entry>, t: MediaType, i: nat)
    requires i < |es| && es[i].mediaType == WildcardType()
    ensures FirstAccepting(es, t).Some? && FirstAccepting(es, t).value <= i
  {
    WildcardAcceptsAll(t);
  }

  /** Index of the first supported type, in order, that the range `pattern` accepts. */
  function FirstSupported(supported: seq<MediaType>, pattern: MediaType): (r: Option<nat>)
    ensures r.Some? ==> r.value < |supported| && IsSameOrSubtype(supported[r.value], pattern)
    ensures r.Some? ==> forall j :: 0 <= j < r.value ==> !IsSameOrSubtype(supported[j], pattern)
    ensures r.None? ==> forall j :: 0 <= j < |supported| ==> !IsSameOrSubtype(supported[j], pattern)
  {
    if supported == [] then None
    else if IsSameOrSubtype(supported[0], pattern) then Some(0)
    else match FirstSupported(supported[1..], pattern)
      case None => None
      case Some(j) => Some(j + 1)
  }

  /**
   * The entry index and supported-type index getPreferredAccept(supported)
   * stops at: the earliest entry that accepts some supported type, and the
   * first supported type it accepts.
   */
  function PreferredMatch(es: seq<Entry>, supported: seq<MediaType>): (r: Option<(nat, nat)>)
    ensures r.Some? ==> r.value.0 < |es| && r.value.1 < |supported|
    ensures r.Some? ==> IsSameOrSubtype(supported[r.value.1], es[r.value.0].mediaType)
    ensures r.Some? ==> forall i, j :: 0 <= i < r.value.0 && 0 <= j < |supported| ==>
      !IsSameOrSubtype(supported[j], es[i].mediaType)
    ensures r.Some? ==> forall j :: 0 <= j < r.value.1 ==> !IsSameOrSubtype(supported[j], es[r.value.0].mediaType)
    ensures r.None? <==> forall i, j :: 0 <= i < |es| && 0 <= j < |supported| ==>
      !IsSameOrSubtype(supported[j], es[i].mediaType)
  {
    if es == [] then None
    else match FirstSupported(supported, es[0].mediaType)
      case Some(j) => Some((0, j))
      case None =>
        match PreferredMatch(es[1..], supported)
        case None =>
          assert forall i :: 1 <= i < |es| ==> es[i] == es[1..][i - 1];
          None
        case Some(m) =>
          assert forall i :: 1 <= i < |es| ==> es[i] == es[1..][i - 1];
          Some((m.0 + 1, m.1))
  }

  /** The first matching pair, in entry order and then supported order, is the one chosen. */
  lemma PreferredMatchAt(es: seq<Entry>, supported: seq<MediaType>, i: nat, j: nat)
    requires i < |es| && j < |supported| && IsSameOrSubtype(supported[j], es[i].mediaType)
    requires forall k, l :: 0 <= k < i && 0 <= l < |supported| ==> !IsSameOrSubtype(supported[l], es[k].mediaType)
    requires forall l :: 0 <= l < j ==> !IsSameOrSubtype(supported[l], es[i].mediaType)
    ensures PreferredMatch(es, supported) == Some((i, j))
    ensures PreferredFrom(es, supported) == Some(supported[j])
  {
  }

  /** getPreferredAccept(supported): the supported type chosen, or none (null). */
  function PreferredFrom(es: seq<Entry>, supported: seq<MediaType>): (r: Option<MediaType>)
  {
    match PreferredMatch(es, supported)
    case None => None
    case Some(m) => Some(supported[m.1])
  }

  /**
   * The preferred type is absent exactly when no entry accepts any supported
   * type; otherwise it is supported and accepted by the earliest entry that
   * accepts any supported type.
   */
  lemma PreferredFromSpec(es: seq<Entry>, supported: seq<MediaType>)
    ensures PreferredFrom(es, supported).None? <==>
      forall i, j :: 0 <= i < |es| && 0 <= j < |supported| ==> !IsSameOrSubtype(supported[j], es[i].mediaType)
    ensures PreferredFrom(es, supported).Some? ==>
      exists i :: 0 <= i < |es| && IsSameOrSubtype(PreferredFrom(es, supported).value, es[i].mediaType) &&
        (forall k, j :: 0 <= k < i && 0 <= j < |supported| ==> !IsSameOrSubtype(supported[j], es[k].mediaType))
    ensures PreferredFrom(es, supported).Some? ==> PreferredFrom(es, supported).value in supported
  {
    match PreferredMatch(es, supported)
    case None =>
    case Some(m) =>
      assert IsSameOrSubtype(supported[m.1], es[m.0].mediaType);
  }
}
