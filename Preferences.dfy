/**
 * AcceptPreference: the entries of one or more Accept headers, kept in a
 * sorted set ordered by AcceptHeaderEntry.compareTo, and the queries over
 * them.
 */
module Preferences {
  import opened Wrappers
  import opened Exceptions
  import opened Strings
  import opened MimeTypes
  import opened MimeUtils
  import opened QValues
  import opened HeaderEntries
  import opened MimeTypeComparator

  /** The 32-bit two's complement value of `x`: what Java int arithmetic leaves of it. */
  function Wrap32(x: int): (r: int)
    ensures IntMin <= r <= IntMax
    ensures (r - x) % 0x1_0000_0000 == 0
    ensures IntMin <= x <= IntMax ==> r == x
  {
    (x - IntMin) % 0x1_0000_0000 + IntMin
  }

  /**
   * AcceptHeaderEntry.compareTo as written: 0 for equal entries, the unbound
   * comparator on equal qualities, and otherwise `o.quality - quality` in
   * int arithmetic, which wraps around.
   */
  function EntryCompareAsWritten(e: Entry, o: Entry): (r: int)
    requires ValidEntry(e) && ValidEntry(o)
    ensures e == o ==> r == 0
    ensures e.quality != o.quality && IntMin <= o.quality - e.quality <= IntMax ==> (r < 0 <==> e.quality > o.quality)
  {
    if e == o then 0
    else if e.quality == o.quality then
      CompareWithoutQ(e.mediaType, o.mediaType, None);
      Compare(e.mediaType, o.mediaType, None).value
    else Wrap32(o.quality - e.quality)
  }

  /**
   * compareTo as intended: the same order with the quality difference taken
   * exactly, so that a higher quality always comes first.
   */
  function EntryCompare(e: Entry, o: Entry): (r: int)
    requires ValidEntry(e) && ValidEntry(o)
    ensures e.quality != o.quality ==> (r < 0 <==> e.quality > o.quality)
  {
    if e == o then 0
    else if e.quality == o.quality then
      CompareWithoutQ(e.mediaType, o.mediaType, None);
      Compare(e.mediaType, o.mediaType, None).value
    else o.quality - e.quality
  }

  /** The entry order: higher quality first, then the unbound media-type order. */
  lemma EntryCompareOrder(e: Entry, o: Entry)
    requires ValidEntry(e) && ValidEntry(o)
    ensures EntryCompare(e, o) < 0 <==>
      e != o && (e.quality > o.quality || (e.quality == o.quality && Precedes(e.mediaType, o.mediaType, None)))
  {
    CompareSign(e.mediaType, o.mediaType, None);
  }

  /** Swapping two entries negates their comparison. */
  lemma EntryCompareAntisymmetric(e: Entry, o: Entry)
    requires ValidEntry(e) && ValidEntry(o)
    ensures EntryCompare(o, e) == -EntryCompare(e, o)
  {
    CompareAntisymmetric(e.mediaType, o.mediaType, None);
  }

  /** Two entries compare as 0 exactly when they are equal, so the set coalesces only duplicates. */
  lemma EntryCompareZero(e: Entry, o: Entry)
    requires ValidEntry(e) && ValidEntry(o)
    ensures EntryCompare(e, o) == 0 <==> e == o
  {
    CompareZero(e.mediaType, o.mediaType, None);
    if e.mediaType == o.mediaType && e.quality == o.quality {
      assert e == o;
    }
  }

  /** The entry order is transitive. */
  lemma EntryCompareTransitive(a: Entry, b: Entry, c: Entry)
    requires ValidEntry(a) && ValidEntry(b) && ValidEntry(c)
    requires EntryCompare(a, b) < 0 && EntryCompare(b, c) < 0
    ensures EntryCompare(a, c) < 0
  {
    EntryCompareOrder(a, b);
    EntryCompareOrder(b, c);
    EntryCompareOrder(a, c);
    if a.quality == b.quality == c.quality {
      PrecedesTransitive(a.mediaType, b.mediaType, c.mediaType, None);
    }
  }

  /** For qualities in the range a q value from 0 to 1 gives, the code as written agrees with the intended order. */
  lemma EntryCompareAgrees(e: Entry, o: Entry)
    requires ValidEntry(e) && ValidEntry(o)
    requires 0 <= e.quality <= 1000 && 0 <= o.quality <= 1000
    ensures EntryCompareAsWritten(e, o) == EntryCompare(e, o)
  {
  }

  /**
   * With a quality of 0 (from `q=0`) and one saturated at Integer.MIN_VALUE
   * (from `q=-2147484` or below), both orders of comparison come out
   * negative: `o.quality - quality` overflows, and compareTo is not
   * antisymmetric.
   */
  lemma EntryCompareAsWrittenOverflows()
    ensures ValidEntry(Entry(Html, 0)) && ValidEntry(Entry(Html, IntMin))
    ensures EntryCompareAsWritten(Entry(Html, 0), Entry(Html, IntMin)) < 0
    ensures EntryCompareAsWritten(Entry(Html, IntMin), Entry(Html, 0)) < 0
    ensures EntryCompare(Entry(Html, IntMin), Entry(Html, 0)) > 0
  {
    assert IsToken("text") && IsLower("text");
    assert IsToken("html") && IsLower("html");
    assert WellFormed(Html);
    assert Wrap32(0 - IntMin) == IntMin;
  }

  /**
   * The wrong order reaches the set itself. A TreeSet holding `text/html` at
   * Integer.MAX_VALUE (from `q=3000000`) that is given `text/plain` at -1000
   * (from `q=-1`) asks the new entry's compareTo against the old one: the
   * difference overflows, comes out negative, and `text/plain` is put first,
   * where the intended order puts it after.
   */
  lemma EntryCompareAsWrittenMisorders()
    ensures ValidEntry(Entry(Html, IntMax)) && ValidEntry(Entry(MediaType("text", "plain", []), -1000))
    ensures EntryCompareAsWritten(Entry(MediaType("text", "plain", []), -1000), Entry(Html, IntMax)) < 0
    ensures EntryCompare(Entry(MediaType("text", "plain", []), -1000), Entry(Html, IntMax)) > 0
  {
    assert IsToken("text") && IsLower("text");
    assert IsToken("html") && IsLower("html");
    assert IsToken("plain") && IsLower("plain");
    assert WellFormed(Html) && WellFormed(MediaType("text", "plain", []));
    assert Wrap32(IntMax + 1000) == IntMin + 999;
  }

  predicate ValidEntries(es: seq<Entry>) {
    forall i :: 0 <= i < |es| ==> ValidEntry(es[i])
  }

  /** The TreeSet invariant: every entry strictly before every later one. */
  predicate SortedEntries(es: seq<Entry>) {
    && ValidEntries(es)
    && forall i, j :: 0 <= i < j < |es| ==> EntryCompare(es[i], es[j]) < 0
  }

  function Elements(es: seq<Entry>): set<Entry> {
    set e | e in es
  }

  lemma ElementsEmpty(es: seq<Entry>)
    ensures Elements(es) == {} <==> es == []
  {
    if es != [] {
      assert es[0] in Elements(es);
    }
  }

  /** Valid entries of strictly falling quality are in order, whatever their types. */
  lemma SortedByQuality(es: seq<Entry>)
    requires ValidEntries(es)
    requires forall i :: 0 <= i < |es| - 1 ==> es[i].quality > es[i + 1].quality
    ensures SortedEntries(es)
  {
    forall i, j | 0 <= i < j < |es|
      ensures es[i].quality > es[j].quality
    {
      QualityFallsFrom(es, i, j);
    }
  }

  lemma {:induction false} QualityFallsFrom(es: seq<Entry>, i: nat, j: nat)
    requires forall k :: 0 <= k < |es| - 1 ==> es[k].quality > es[k + 1].quality
    requires i < j < |es|
    ensures es[i].quality > es[j].quality
    decreases j - i
  {
    if i + 1 < j {
      QualityFallsFrom(es, i + 1, j);
    }
  }

  /** An entry before the first of a sorted list, by transitivity, is before all of it. */
  lemma SortedCons(e: Entry, es: seq<Entry>)
    requires SortedEntries(es) && ValidEntry(e)
    requires es != [] ==> EntryCompare(e, es[0]) < 0
    ensures SortedEntries([e] + es)
  {
    var r := [e] + es;
    forall i, j | 0 <= i < j < |r|
      ensures EntryCompare(r[i], r[j]) < 0
    {
      if i == 0 && j > 1 {
        EntryCompareTransitive(e, es[0], es[j - 1]);
      }
    }
  }

  /** Two sorted tiers, every quality of the first above every quality of the second, stay sorted together. */
  lemma SortedTiers(hi: seq<Entry>, lo: seq<Entry>)
    requires SortedEntries(hi) && SortedEntries(lo)
    requires forall i, j :: 0 <= i < |hi| && 0 <= j < |lo| ==> hi[i].quality > lo[j].quality
    ensures SortedEntries(hi + lo)
  {
    var r := hi + lo;
    forall i, j | 0 <= i < j < |r|
      ensures EntryCompare(r[i], r[j]) < 0
    {
      if i < |hi| <= j {
        assert r[i] == hi[i] && r[j] == lo[j - |hi|];
      }
    }
  }

  /** In a sorted set the qualities never increase. */
  lemma SortedQualityDescending(es: seq<Entry>, i: nat, j: nat)
    requires SortedEntries(es) && i <= j < |es|
    ensures es[i].quality >= es[j].quality
  {
    if i < j {
      EntryCompareOrder(es[i], es[j]);
    }
  }

  /** A sorted set holds no entry twice. */
  lemma SortedDistinct(es: seq<Entry>, i: nat, j: nat)
    requires SortedEntries(es) && i < j < |es|
    ensures es[i] != es[j]
  {
  }

  /** Two sorted sets with the same elements start with the same entry. */
  lemma SortedSameFirst(a: seq<Entry>, b: seq<Entry>)
    requires SortedEntries(a) && SortedEntries(b) && Elements(a) == Elements(b) && a != []
    ensures b != [] && a[0] == b[0]
  {
    assert a[0] in Elements(b);
    assert b[0] in Elements(a);
    if a[0] != b[0] {
      var k :| 0 < k < |b| && b[k] == a[0];
      var m :| 0 < m < |a| && a[m] == b[0];
      EntryCompareAntisymmetric(b[0], b[k]);
    }
  }

  /** After a common first entry, the rest of two equal sets are equal. */
  lemma SortedSameRest(a: seq<Entry>, b: seq<Entry>)
    requires SortedEntries(a) && SortedEntries(b) && Elements(a) == Elements(b)
    requires a != [] && b != [] && a[0] == b[0]
    ensures Elements(a[1..]) == Elements(b[1..])
  {
    forall e | e in a[1..]
      ensures e in b[1..]
    {
      var k :| 0 < k < |a| && a[k] == e;
      assert e in Elements(b);
    }
    forall e | e in b[1..]
      ensures e in a[1..]
    {
      var k :| 0 < k < |b| && b[k] == e;
      assert e in Elements(a);
    }
  }

  /** A sorted set is determined by its elements: the order holds no choice. */
  lemma {:induction false} SortedUnique(a: seq<Entry>, b: seq<Entry>)
    requires SortedEntries(a) && SortedEntries(b) && Elements(a) == Elements(b)
    ensures a == b
    decreases |a|
  {
    if a != [] {
      SortedSameFirst(a, b);
      SortedSameRest(a, b);
      assert SortedEntries(a[1..]) && SortedEntries(b[1..]);
      SortedUnique(a[1..], b[1..]);
      assert a == [a[0]] + a[1..] && b == [b[0]] + b[1..];
    } else {
      ElementsEmpty(b);
    }
  }

  /** Every entry after the insertion point is above `e`. */
  lemma InsertBelowRest(es: seq<Entry>, e: Entry, i: nat)
    requires SortedEntries(es) && ValidEntry(e) && i < |es|
    requires EntryCompare(e, es[i]) < 0
    ensures forall k :: i <= k < |es| ==> EntryCompare(e, es[k]) < 0
  {
    forall k | i < k < |es|
      ensures EntryCompare(e, es[k]) < 0
    {
      EntryCompareTransitive(e, es[i], es[k]);
    }
  }

  /** An entry strictly between its neighbours is not yet in the set. */
  lemma InsertNew(es: seq<Entry>, e: Entry, i: nat)
    requires SortedEntries(es) && ValidEntry(e) && i <= |es|
    requires forall k :: 0 <= k < i ==> EntryCompare(es[k], e) < 0
    requires forall k :: i <= k < |es| ==> EntryCompare(e, es[k]) < 0
    ensures e !in es
  {
    forall k | 0 <= k < |es|
      ensures es[k] != e
    {
      if k < i {
        EntryCompareZero(es[k], e);
      } else {
        EntryCompareZero(e, es[k]);
      }
    }
  }

  /** Entries below `e`, then `e`, then entries above it, are in order. */
  lemma InsertKeepsOrder(es: seq<Entry>, e: Entry, i: nat)
    requires SortedEntries(es) && ValidEntry(e) && i <= |es|
    requires forall k :: 0 <= k < i ==> EntryCompare(es[k], e) < 0
    requires forall k :: i <= k < |es| ==> EntryCompare(e, es[k]) < 0
    ensures SortedEntries(es[..i] + [e] + es[i..])
  {
    var r := es[..i] + [e] + es[i..];
    assert forall k :: 0 <= k < |r| ==> r[k] == (if k < i then es[k] else if k == i then e else es[k - 1]);
  }

  lemma InsertElements(es: seq<Entry>, e: Entry, i: nat)
    requires i <= |es|
    ensures Elements(es[..i] + [e] + es[i..]) == Elements(es) + {e}
  {
    assert es == es[..i] + es[i..];
  }

  /**
   * Inserting `e` where the entries before it are smaller and the entry
   * after it is larger keeps the set sorted and adds exactly `e`, which was
   * not there before.
   */
  lemma InsertSorted(es: seq<Entry>, e: Entry, i: nat)
    requires SortedEntries(es) && ValidEntry(e) && i <= |es|
    requires forall k :: 0 <= k < i ==> EntryCompare(es[k], e) < 0
    requires i < |es| ==> EntryCompare(e, es[i]) < 0
    ensures e !in es
    ensures SortedEntries(es[..i] + [e] + es[i..])
    ensures Elements(es[..i] + [e] + es[i..]) == Elements(es) + {e}
  {
    if i < |es| {
      InsertBelowRest(es, e, i);
    }
    InsertNew(es, e, i);
    InsertKeepsOrder(es, e, i);
    InsertElements(es, e, i);
  }

  /**
   * What the list constructor makes of one string: nothing when it is not a
   * media type (the MimeTypeParseException is logged and swallowed), the
   * error when its `q` is not a number, and otherwise its entry.
   */
  function EntriesOf(s: string): (r: Result<set<Entry>, Error>)
    ensures r == Success({}) <==> Parse(s).Failure?
    ensures r.Failure? <==> Parse(s).Success? && MakeEntry(Parse(s).value).Failure?
    ensures r.Failure? ==> r.error == NumberFormat
    ensures r.Success? && Parse(s).Success? ==> r.value == {MakeEntry(Parse(s).value).value}
  {
    match Parse(s)
    case Failure(_) => Success({})
    case Success(m) =>
      match MakeEntry(m)
      case Failure(err) => Failure(err)
      case Success(e) => Success({e})
  }

  /** Both sets of entries together, or the first error. */
  function UnionResult(x: Result<set<Entry>, Error>, y: Result<set<Entry>, Error>): Result<set<Entry>, Error> {
    if x.Failure? then x
    else if y.Failure? then y
    else Success(x.value + y.value)
  }

  lemma UnionResultEmpty(x: Result<set<Entry>, Error>)
    ensures UnionResult(x, Success({})) == x
  {
    if x.Success? {
      assert x.value + {} == x.value;
    }
  }

  lemma UnionResultAssociative(x: Result<set<Entry>, Error>, y: Result<set<Entry>, Error>, z: Result<set<Entry>, Error>)
    ensures UnionResult(UnionResult(x, y), z) == UnionResult(x, UnionResult(y, z))
  {
    if x.Success? && y.Success? && z.Success? {
      assert x.value + y.value + z.value == x.value + (y.value + z.value);
    }
  }

  /** The entries of every item of `ss` in turn, stopping at the first error. */
  function Collect(ss: seq<string>, f: string -> Result<set<Entry>, Error>): (r: Result<set<Entry>, Error>)
    ensures r.Success? <==> forall i :: 0 <= i < |ss| ==> f(ss[i]).Success?
  {
    if ss == [] then Success({})
    else UnionResult(Collect(ss[..|ss| - 1], f), f(ss[|ss| - 1]))
  }

  /** The entries are exactly the entries of the items. */
  lemma {:induction false} CollectMembers(ss: seq<string>, f: string -> Result<set<Entry>, Error>, e: Entry)
    requires Collect(ss, f).Success?
    ensures e in Collect(ss, f).value <==> exists i :: 0 <= i < |ss| && e in f(ss[i]).value
  {
    if ss != [] {
      var init := ss[..|ss| - 1];
      CollectMembers(init, f, e);
      if e in Collect(init, f).value {
        var i :| 0 <= i < |init| && e in f(init[i]).value;
        assert ss[i] == init[i];
      }
      if exists i :: 0 <= i < |ss| && e in f(ss[i]).value {
        var i :| 0 <= i < |ss| && e in f(ss[i]).value;
        if i < |init| {
          assert init[i] == ss[i];
        }
      }
    }
  }

  /** Collecting over two lists is the union of collecting over each. */
  lemma {:induction false} CollectAppend(a: seq<string>, b: seq<string>, f: string -> Result<set<Entry>, Error>)
    ensures Collect(a + b, f) == UnionResult(Collect(a, f), Collect(b, f))
    decreases |b|
  {
    if b == [] {
      assert a + b == a;
      UnionResultEmpty(Collect(a, f));
    } else {
      var init := b[..|b| - 1];
      var last := b[|b| - 1];
      assert (a + b)[..|a + b| - 1] == a + init;
      assert (a + b)[|a + b| - 1] == last;
      CollectAppend(a, init, f);
      UnionResultAssociative(Collect(a, f), Collect(init, f), f(last));
      calc {
        Collect(a + b, f);
        UnionResult(Collect(a + init, f), f(last));
        UnionResult(UnionResult(Collect(a, f), Collect(init, f)), f(last));
        UnionResult(Collect(a, f), UnionResult(Collect(init, f), f(last)));
        UnionResult(Collect(a, f), Collect(b, f));
      }
    }
  }

  /** An item without entries can be dropped from the list. */
  lemma CollectSkip(a: seq<string>, s: string, b: seq<string>, f: string -> Result<set<Entry>, Error>)
    requires f(s) == Success({})
    ensures Collect(a + [s] + b, f) == Collect(a + b, f)
  {
    CollectAppend(a + [s], b, f);
    CollectAppend(a, [s], f);
    CollectSingle(s, f);
    UnionResultEmpty(Success({}));
    UnionResultEmpty(Collect(a, f));
    CollectAppend(a, b, f);
  }

  /** One more item of a list adds its entries to those of the items before it. */
  lemma CollectPrefixStep(ss: seq<string>, i: nat, f: string -> Result<set<Entry>, Error>)
    requires i < |ss|
    ensures Collect(ss[..i + 1], f) == UnionResult(Collect(ss[..i], f), f(ss[i]))
  {
    assert ss[..i + 1][..i] == ss[..i];
  }

  lemma CollectSingle(s: string, f: string -> Result<set<Entry>, Error>)
    ensures Collect([s], f) == UnionResult(Success({}), f(s))
  {
    assert [s][..0] == [];
  }

  /** An error on the way through a prefix is the error of the whole list. */
  lemma {:induction false} CollectPrefixFailure(ss: seq<string>, i: nat, f: string -> Result<set<Entry>, Error>)
    requires i <= |ss| && Collect(ss[..i], f).Failure?
    ensures Collect(ss, f) == Collect(ss[..i], f)
  {
    CollectAppend(ss[..i], ss[i..], f);
    assert ss[..i] + ss[i..] == ss;
  }

  /** The entries the list constructor builds from strings that are not all empty. */
  function ParsedEntries(ss: seq<string>): (r: Result<set<Entry>, Error>)
    ensures r.Failure? ==> r.error == NumberFormat
  {
    var r := Collect(ss, EntriesOf);
    assert r.Failure? ==> r.error == NumberFormat by {
      if r.Failure? {
        CollectError(ss);
      }
    }
    r
  }

  lemma {:induction false} CollectError(ss: seq<string>)
    ensures Collect(ss, EntriesOf).Failure? ==> Collect(ss, EntriesOf).error == NumberFormat
  {
    if ss != [] {
      CollectError(ss[..|ss| - 1]);
    }
  }

  // new AcceptPreference(entryStrings): for a null or empty list the single
  // entry `*/*` with quality 1000, otherwise the entries of the strings.
  function EntrySet(entryStrings: Option<seq<string>>): (r: Result<set<Entry>, Error>)
    ensures r.Failure? ==> r.error == NumberFormat
  {
    if entryStrings.None? || entryStrings.value == [] then Success({DefaultEntry()})
    else ParsedEntries(entryStrings.value)
  }

  // A null or empty list yields exactly the default entry `*/*` with quality 1000.
  lemma EntrySetDefault()
    ensures EntrySet(None) == Success({Entry(WildcardType(), 1000)})
    ensures EntrySet(Some([])) == Success({Entry(WildcardType(), 1000)})
  {
  }

  /** When no string is a media type the set is empty: no default is put in its place. */
  lemma {:induction false} AllUnparseable(ss: seq<string>)
    requires forall i :: 0 <= i < |ss| ==> Parse(ss[i]).Failure?
    ensures ParsedEntries(ss) == Success({})
  {
    if ss != [] {
      var init := ss[..|ss| - 1];
      assert forall i :: 0 <= i < |init| ==> init[i] == ss[i];
      AllUnparseable(init);
      assert EntriesOf(ss[|ss| - 1]) == Success({});
      assert Collect(ss, EntriesOf) == UnionResult(Collect(init, EntriesOf), EntriesOf(ss[|ss| - 1]));
      UnionResultEmpty(Success({}));
    }
  }

  /** A string that is not a media type is skipped: the others give the same entries without it. */
  lemma UnparseableSkipped(a: seq<string>, s: string, b: seq<string>)
    requires Parse(s).Failure?
    ensures ParsedEntries(a + [s] + b) == ParsedEntries(a + b)
  {
    CollectSkip(a, s, b, EntriesOf);
  }

  /** fromString: null raises NullPointer; otherwise the entries of the `,`-separated pieces. */
  function HeaderEntrySet(header: Option<string>): (r: Result<set<Entry>, Error>)
    ensures header.None? ==> r == Failure(NullPointer)
    ensures header.Some? && r.Failure? ==> r.error == NumberFormat
  {
    match header
    case None => Failure(NullPointer)
    case Some(h) => EntrySet(Some(JavaSplit(h, ',')))
  }

  /** A header written as pieces joined by `,` gives one candidate entry per piece. */
  lemma HeaderOfPieces(pieces: seq<string>)
    requires |pieces| >= 1
    requires forall i :: 0 <= i < |pieces| ==> ',' !in pieces[i]
    requires |pieces| == 1 || pieces[|pieces| - 1] != []
    ensures HeaderEntrySet(Some(Join(pieces, ','))) == EntrySet(Some(pieces))
  {
    JavaSplitJoin(pieces, ',');
  }

  /** The entries of every header string of a request, or the first error. */
  function HeadersEntrySet(headers: seq<string>): Result<set<Entry>, Error> {
    Collect(headers, h => HeaderEntrySet(Some(h)))
  }

  // fromRequest: `*/*` when the request has no Accept header, otherwise the merge of all of them.
  function RequestEntrySet(headers: seq<string>): Result<set<Entry>, Error> {
    if headers == [] then HeaderEntrySet(Some("*/*")) else HeadersEntrySet(headers)
  }

  /** A header without a `,` is a single candidate entry. */
  lemma HeaderWithoutComma(h: string)
    requires ',' !in h
    ensures HeaderEntrySet(Some(h)) == UnionResult(Success({}), EntriesOf(h))
  {
    assert JavaSplit(h, ',') == [h];
    CollectSingle(h, EntriesOf);
  }

  lemma WildcardEntries()
    ensures EntriesOf("*/*") == Success({DefaultEntry()})
  {
    var w := WildcardType();
    assert Parse("*/*") == Success(w);
  }

  /** A request without an Accept header accepts everything with quality 1000. */
  lemma RequestWithoutHeaders()
    ensures RequestEntrySet([]) == Success({DefaultEntry()})
  {
    WildcardHeader();
  }

  lemma WildcardHeader()
    ensures HeaderEntrySet(Some("*/*")) == Success({DefaultEntry()})
  {
    assert ',' !in "*/*";
    WildcardEntries();
    HeaderOfOneEntry("*/*", DefaultEntry());
  }

  lemma HeaderOfOneEntry(h: string, e: Entry)
    requires ',' !in h && EntriesOf(h) == Success({e})
    ensures HeaderEntrySet(Some(h)) == Success({e})
  {
    HeaderWithoutComma(h);
    assert {} + {e} == {e};
  }

  /** The entries of all the given preferences together. */
  ghost function UnionOf(headers: seq<AcceptPreference>): (r: set<Entry>)
    reads set h | h in headers
    ensures forall e :: e in r <==> exists i :: 0 <= i < |headers| && e in headers[i].entries
  {
    if headers == [] then {} else UnionOf(headers[..|headers| - 1]) + Elements(headers[|headers| - 1].entries)
  }

  lemma UnionOfSnoc(headers: seq<AcceptPreference>, h: AcceptPreference)
    ensures UnionOf(headers + [h]) == UnionOf(headers) + Elements(h.entries)
  {
    assert (headers + [h])[..|headers|] == headers;
  }

  /**
   * An Accept preference: the TreeSet of entries, held as the sequence the
   * set iterates in, with the set's order as invariant.
   */
  class AcceptPreference {
    var entries: seq<Entry>

    ghost predicate Valid()
      reads this
    {
      SortedEntries(entries)
    }

    /** An empty TreeSet. */
    constructor Empty()
      ensures Valid() && entries == []
    {
      entries := [];
    }

    /**
     * TreeSet.add: puts `e` in its place unless an entry comparing as 0, that
     * is an equal entry, is already there.
     */
    method Add(e: Entry) returns (added: bool)
      requires Valid() && ValidEntry(e)
      modifies this
      ensures Valid()
      ensures added <==> e !in old(entries)
      ensures Elements(entries) == Elements(old(entries)) + {e}
    {
      var i := 0;
      while i < |entries| && EntryCompare(entries[i], e) < 0
        invariant 0 <= i <= |entries|
        invariant forall k :: 0 <= k < i ==> EntryCompare(entries[k], e) < 0
      {
        i := i + 1;
      }
      if i < |entries| && entries[i] == e {
        added := false;
      } else {
        if i < |entries| {
          EntryCompareZero(entries[i], e);
          EntryCompareAntisymmetric(entries[i], e);
        }
        InsertSorted(entries, e, i);
        entries := entries[..i] + [e] + entries[i..];
        added := true;
      }
    }

    /** TreeSet.addAll: every entry of `es`, added in turn. */
    method AddAll(es: seq<Entry>)
      requires Valid() && SortedEntries(es)
      modifies this
      ensures Valid()
      ensures Elements(entries) == old(Elements(entries)) + Elements(es)
    {
      for j := 0 to |es|
        invariant Valid()
        invariant Elements(entries) == old(Elements(entries)) + Elements(es[..j])
      {
        var _ := Add(es[j]);
        assert Elements(es[..j + 1]) == Elements(es[..j]) + {es[j]};
      }
      assert es[..|es|] == es;
    }

    /** One string of the list constructor: skipped when unparseable, else its entry is added. */
    method AddEntryString(entryString: string) returns (err: Option<Error>)
      requires Valid()
      modifies this
      ensures Valid()
      ensures err.Some? <==> EntriesOf(entryString).Failure?
      ensures err.Some? ==> err.value == EntriesOf(entryString).error
      ensures err.None? ==> Elements(entries) == old(Elements(entries)) + EntriesOf(entryString).value
    {
      match Parse(entryString) {
        case Failure(_) =>
          return None;
        case Success(m) =>
          match MakeEntry(m) {
            case Failure(e) =>
              return Some(e);
            case Success(entry) =>
              var _ := Add(entry);
              return None;
          }
      }
    }

    /** The list constructor: the default entry for a null or empty list, else each string's entry in turn. */
    static method FromEntryStrings(entryStrings: Option<seq<string>>) returns (r: Result<AcceptPreference, Error>)
      ensures r.Failure? <==> EntrySet(entryStrings).Failure?
      ensures r.Failure? ==> r.error == EntrySet(entryStrings).error
      ensures r.Success? ==> fresh(r.value) && r.value.Valid() && Elements(r.value.entries) == EntrySet(entryStrings).value
    {
      if entryStrings.None? || |entryStrings.value| == 0 {
        var p := new AcceptPreference.Empty();
        var _ := p.Add(DefaultEntry());
        return Success(p);
      }
      r := FromParsedStrings(entryStrings.value);
    }

    /** The loop of the list constructor over a non-empty list. */
    static method FromParsedStrings(ss: seq<string>) returns (r: Result<AcceptPreference, Error>)
      ensures r.Failure? <==> ParsedEntries(ss).Failure?
      ensures r.Failure? ==> r.error == ParsedEntries(ss).error
      ensures r.Success? ==> fresh(r.value) && r.value.Valid() && Elements(r.value.entries) == ParsedEntries(ss).value
    {
      var p := new AcceptPreference.Empty();
      for i := 0 to |ss|
        invariant p.Valid()
        invariant Collect(ss[..i], EntriesOf).Success?
        invariant Elements(p.entries) == Collect(ss[..i], EntriesOf).value
      {
        CollectPrefixStep(ss, i, EntriesOf);
        var err := p.AddEntryString(ss[i]);
        if err.Some? {
          CollectPrefixFailure(ss, i + 1, EntriesOf);
          return Failure(err.value);
        }
      }
      assert ss[..|ss|] == ss;
      return Success(p);
    }

    /** fromString: null raises NullPointer; otherwise the pieces between commas, as a list. */
    static method FromString(header: Option<string>) returns (r: Result<AcceptPreference, Error>)
      ensures r.Failure? <==> HeaderEntrySet(header).Failure?
      ensures r.Failure? ==> r.error == HeaderEntrySet(header).error
      ensures r.Success? ==> fresh(r.value) && r.value.Valid() && Elements(r.value.entries) == HeaderEntrySet(header).value
    {
      if header.None? {
        return Failure(NullPointer);
      }
      var pieces := JavaSplit(header.value, ',');
      var entries: seq<string> := [];
      for i := 0 to |pieces|
        invariant entries == pieces[..i]
      {
        entries := entries + [pieces[i]];
      }
      assert entries == pieces;
      r := FromEntryStrings(Some(entries));
    }

    /** fromHeaders: an empty collection raises IllegalArgument; otherwise every entry of every header goes into one set. */
    static method FromHeaders(headers: seq<AcceptPreference>) returns (r: Result<AcceptPreference, Error>)
      requires forall k :: 0 <= k < |headers| ==> headers[k].Valid()
      ensures r.Failure? <==> headers == []
      ensures r.Failure? ==> r.error == IllegalArgument
      ensures r.Success? ==> fresh(r.value) && r.value.Valid() && Elements(r.value.entries) == UnionOf(headers)
    {
      if headers == [] {
        return Failure(IllegalArgument);
      }
      var p := new AcceptPreference.Empty();
      for i := 0 to |headers|
        invariant p.Valid()
        invariant Elements(p.entries) == UnionOf(headers[..i])
      {
        p.AddAll(headers[i].entries);
        assert headers[..i + 1][..i] == headers[..i];
      }
      assert headers[..|headers|] == headers;
      return Success(p);
    }

    /**
     * fromRequest over the values of the request's Accept headers: `*` `/` `*`
     * when there are none, otherwise each value through fromString and the
     * results through fromHeaders.
     */
    static method FromRequest(headers: seq<string>) returns (r: Result<AcceptPreference, Error>)
      ensures r.Failure? <==> RequestEntrySet(headers).Failure?
      ensures r.Failure? ==> r.error == RequestEntrySet(headers).error
      ensures r.Success? ==> fresh(r.value) && r.value.Valid() && Elements(r.value.entries) == RequestEntrySet(headers).value
    {
      var f := h => HeaderEntrySet(Some(h));
      var prefs: seq<AcceptPreference> := [];
      for i := 0 to |headers|
        invariant |prefs| == i
        invariant forall q :: q in prefs ==> fresh(q) && q.Valid()
        invariant Collect(headers[..i], f).Success?
        invariant UnionOf(prefs) == Collect(headers[..i], f).value
      {
        var p := FromString(Some(headers[i]));
        CollectPrefixStep(headers, i, f);
        if p.Failure? {
          CollectPrefixFailure(headers, i + 1, f);
          return Failure(p.error);
        }
        UnionOfSnoc(prefs, p.value);
        prefs := prefs + [p.value];
      }
      assert headers[..|headers|] == headers;
      if prefs == [] {
        r := FromString(Some("*/*"));
      } else {
        r := FromHeaders(prefs);
      }
    }

    /** getEntries: the entries in the set's order, highest preference first. */
    method GetEntries() returns (result: seq<Entry>)
      requires Valid()
      ensures result == entries
      ensures forall i, j :: 0 <= i < j < |result| ==> result[i].quality >= result[j].quality
    {
      result := [];
      for i := 0 to |entries|
        invariant result == entries[..i]
      {
        result := result + [entries[i]];
      }
      forall i, j | 0 <= i < j < |result|
        ensures result[i].quality >= result[j].quality
      {
        SortedQualityDescending(entries, i, j);
      }
    }

    /**
     * getPreferredAccept() as written: pollFirst takes the first entry out of
     * the set and returns its media type; on an empty set pollFirst yields
     * null and reading its media type raises NullPointer.
     */
    method GetPreferredAccept() returns (r: Result<MediaType, Error>)
      requires Valid()
      modifies this
      ensures Valid()
      ensures old(entries) == [] ==> r == Failure(NullPointer) && entries == []
      ensures old(entries) != [] ==> r == Success(old(entries)[0].mediaType) && entries == old(entries)[1..]
    {
      if entries == [] {
        return Failure(NullPointer);
      }
      r := Success(entries[0].mediaType);
      entries := entries[1..];
    }

    /**
     * getPreferredAccept() as its documentation and tests intend: the media
     * type of the first entry, which has the highest quality, leaving the set
     * as it is.
     */
    function PeekPreferredAccept(): (r: Result<MediaType, Error>)
      requires Valid()
      reads this
      ensures r.Failure? <==> entries == []
      ensures r.Failure? ==> r.error == NullPointer
      ensures r.Success? ==>
        exists e :: e in entries && e.mediaType == r.value && (forall k :: 0 <= k < |entries| ==> entries[k].quality <= e.quality)
      ensures r.Success? ==> r.value == entries[0].mediaType
    {
      if entries == [] then Failure(NullPointer)
      else
        assert forall k :: 0 <= k < |entries| ==> entries[k].quality <= entries[0].quality by {
          forall k | 0 <= k < |entries|
            ensures entries[k].quality <= entries[0].quality
          {
            SortedQualityDescending(entries, 0, k);
          }
        }
        Success(entries[0].mediaType)
    }

    /**
     * getPreferredAccept(supported): for each entry in order, the first
     * supported type it accepts; null when no entry accepts any.
     */
    method GetPreferredAcceptFrom(supported: seq<MediaType>) returns (r: Option<MediaType>)
      ensures r == PreferredFrom(entries, supported)
    {
      for i := 0 to |entries|
        invariant forall k, j :: 0 <= k < i && 0 <= j < |supported| ==> !IsSameOrSubtype(supported[j], entries[k].mediaType)
      {
        for j := 0 to |supported|
          invariant forall l :: 0 <= l < j ==> !IsSameOrSubtype(supported[l], entries[i].mediaType)
        {
          if IsSameOrSubtype(supported[j], entries[i].mediaType) {
            PreferredMatchAt(entries, supported, i, j);
            return Some(supported[j]);
          }
        }
      }
      return None;
    }

    /**
     * getAcceptedQuality(t): a forward pass for an entry that accepts `t`,
     * then a backward pass over the array of entries for one that `t`
     * accepts, then 0.
     */
    method GetAcceptedQuality(t: MediaType) returns (q: int)
      ensures q == AcceptedQuality(entries, t)
    {
      for i := 0 to |entries|
        invariant forall k :: 0 <= k < i ==> !IsSameOrSubtype(t, entries[k].mediaType)
      {
        if IsSameOrSubtype(t, entries[i].mediaType) {
          AcceptedQualityForward(entries, t, i);
          return entries[i].quality;
        }
      }
      var es := entries;
      var reverseEntries := new Entry[|es|](k requires 0 <= k < |es| => es[k]);
      var i := |es| - 1;
      while i >= 0
        invariant -1 <= i < |es|
        invariant forall k :: i < k < |es| ==> !IsSameOrSubtype(es[k].mediaType, t)
      {
        var entry := reverseEntries[i];
        if IsSameOrSubtype(entry.mediaType, t) {
          AcceptedQualityReverse(es, t, i);
          return entry.quality;
        }
        i := i - 1;
      }
      AcceptedQualityNone(es, t);
      return 0;
    }
  }
}
