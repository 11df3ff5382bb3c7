// The situations the repository's own unit tests describe, stated over the
// model: the comparator's order of `image/jpeg`, `image/jpeg;q=.4` and
// `image/*`, the accepted qualities of the quality tests, the supported
// type chosen in the selection tests, the entries of the Java default
// header and of the merged request headers, and the two calls to
// getPreferredAccept() in the idempotence test.
module Scenarios {
  import opened Wrappers
  import opened Exceptions
  import opened Strings
  import opened MimeTypes
  import opened MimeUtils
  import opened QValues
  import opened HeaderEntries
  import opened MimeTypeComparator
  import opened Preferences

  const Jpeg: MediaType := MediaType("image", "jpeg", [])
  const JpegAtPointFour: MediaType := MediaType("image", "jpeg", [("q", ".4")])
  const AnyImage: MediaType := MediaType("image", "*", [])
  const Json: MediaType := MediaType("application", "json", [])

  // `.4` reads as four tenths.
  lemma PointFour()
    ensures ParseDecimal(".4") == Some(0.4)
  {
    assert ".4" == "" + ['.'] + "4";
    ParseUnsignedParts("", "4");
    assert DigitsValue("4") == 4;
    assert Shift(4.0, 1) == 0.4;
  }

  // The comparator's order in the comparator test: the plain type, then the
  // same type with `q=.4`, then the range `image/*` that covers both.
  lemma ComparatorTestOrder()
    ensures Compare(Jpeg, JpegAtPointFour, None) == Success(-1)
    ensures Compare(JpegAtPointFour, AnyImage, None) == Success(-1)
    ensures Compare(Jpeg, AnyImage, None) == Success(-1)
  {
    PointFour();
    assert GetParameter(JpegAtPointFour.params, QParam) == Some(".4");
    assert GetQ(JpegAtPointFour) == Success(0.4);
    assert CountWildChars(Jpeg) == 0 && CountWildChars(JpegAtPointFour) == 0 && CountWildChars(AnyImage) == 1;
  }

  // With wildcards and `q` tied, text/html comes before a type outside the fallback table.
  lemma FallBackBreaksTie()
    ensures Compare(Html, Json, None) == Success(-1)
  {
    assert CountWildChars(Html) == 0 && CountWildChars(Json) == 0;
    assert FallBackQ(Html) == 900 && FallBackQ(Json) == 0;
  }

  // As the program runs, the fallback table is never consulted, so the same
  // two types meet in the lexical order of their string forms instead.
  lemma FallBackIgnoredAsWritten()
    ensures CompareAsWritten(Html, Json, None).Success? && CompareAsWritten(Html, Json, None).value > 0
    ensures Compare(Html, Json, None) == Success(-1)
  {
    FallBackBreaksTie();
    assert CountWildChars(Html) == 0 && CountWildChars(Json) == 0;
    assert ToString(Html)[0] == 't' && ToString(Json)[0] == 'a';
  }

  const Png: MediaType := MediaType("image", "png", [])
  const AnyText: MediaType := MediaType("text", "*", [])
  const XFoo: MediaType := MediaType("image", "x-foo", [])
  const TextPlain: MediaType := MediaType("text", "plain", [])
  const Pdf: MediaType := MediaType("application", "pdf", [])
  const AnyType: MediaType := MediaType("*", "*", [])

  // The entries of `image/png;q=1`, `image/jpeg`, `image/*;q=.3` and
  // `text/*;q=.3`, in the order the entry set keeps them.
  function ImageAndTextEntries(): seq<Entry> {
    [Entry(Jpeg, 1000), Entry(Png, 1000), Entry(AnyImage, 300), Entry(AnyText, 300)]
  }

  // The same with `*/*;q=.1` added, which sorts last.
  function WithAnyTypeEntries(): seq<Entry> {
    [Entry(Jpeg, 1000), Entry(Png, 1000), Entry(AnyImage, 300), Entry(AnyText, 300), Entry(AnyType, 100)]
  }

  lemma ScenarioEntriesValid()
    ensures ValidEntry(Entry(Jpeg, 1000)) && ValidEntry(Entry(Png, 1000))
    ensures ValidEntry(Entry(AnyImage, 300)) && ValidEntry(Entry(AnyText, 300))
    ensures ValidEntry(Entry(AnyType, 100))
  {
  }

  // No wildcard on either side and no `q`: `image/jpeg` sorts before `image/png` by its string form.
  lemma JpegBeforePng()
    ensures Compare(Jpeg, Png, None).Success? && Compare(Jpeg, Png, None).value < 0
  {
    assert ToString(Jpeg) == "image/" + "jpeg";
    assert ToString(Png) == "image/" + "png";
    CompareStringsPrefix("image/", "jpeg", "png");
    assert FallBackQ(Jpeg) == 0;
    assert FallBackQ(Png) == 0;
  }

  // One wildcard each and no `q`: `image/*` sorts before `text/*` by its string form.
  lemma AnyImageBeforeAnyText()
    ensures Compare(AnyImage, AnyText, None).Success? && Compare(AnyImage, AnyText, None).value < 0
  {
    assert ToString(AnyImage) == "image/*";
    assert ToString(AnyText) == "text/*";
    assert FallBackQ(AnyImage) == 0;
    assert FallBackQ(AnyText) == 0;
  }

  lemma JpegEntryBeforePng()
    ensures ValidEntry(Entry(Jpeg, 1000)) && ValidEntry(Entry(Png, 1000))
    ensures EntryCompare(Entry(Jpeg, 1000), Entry(Png, 1000)) < 0
  {
    ScenarioEntriesValid();
    JpegBeforePng();
    CompareSign(Jpeg, Png, None);
    EntryCompareOrder(Entry(Jpeg, 1000), Entry(Png, 1000));
  }

  lemma AnyImageEntryBeforeAnyText()
    ensures ValidEntry(Entry(AnyImage, 300)) && ValidEntry(Entry(AnyText, 300))
    ensures EntryCompare(Entry(AnyImage, 300), Entry(AnyText, 300)) < 0
  {
    ScenarioEntriesValid();
    AnyImageBeforeAnyText();
    CompareSign(AnyImage, AnyText, None);
    EntryCompareOrder(Entry(AnyImage, 300), Entry(AnyText, 300));
  }

  lemma JpegFirstSorted()
    ensures SortedEntries([Entry(Jpeg, 1000), Entry(Png, 1000)])
  {
    JpegEntryBeforePng();
    SortedCons(Entry(Png, 1000), []);
    SortedCons(Entry(Jpeg, 1000), [Entry(Png, 1000)]);
  }

  lemma AnyImageFirstSorted()
    ensures SortedEntries([Entry(AnyImage, 300), Entry(AnyText, 300)])
  {
    AnyImageEntryBeforeAnyText();
    SortedCons(Entry(AnyText, 300), []);
    SortedCons(Entry(AnyImage, 300), [Entry(AnyText, 300)]);
  }

  // The entry list of the quality test without a `*/*` entry is in the order the entry set keeps.
  lemma ImageAndTextSorted()
    ensures SortedEntries(ImageAndTextEntries())
  {
    var hi, lo := [Entry(Jpeg, 1000), Entry(Png, 1000)], [Entry(AnyImage, 300), Entry(AnyText, 300)];
    JpegFirstSorted();
    AnyImageFirstSorted();
    SortedTiers(hi, lo);
    assert hi + lo == ImageAndTextEntries();
  }

  // The same for the quality test with `*/*;q=.1`.
  lemma WithAnyTypeSorted()
    ensures SortedEntries(WithAnyTypeEntries())
  {
    ImageAndTextSorted();
    ScenarioEntriesValid();
    SortedCons(Entry(AnyType, 100), []);
    SortedTiers(ImageAndTextEntries(), [Entry(AnyType, 100)]);
  }

  // The first quality test, with `*/*;q=.1`: an exact entry gives 1000, a
  // type under `image/*` or `text/*` gets 300, and anything else falls to
  // the `*/*` entry's 100.
  lemma QualitiesWithAnyType()
    ensures AcceptedQuality(WithAnyTypeEntries(), Jpeg) == 1000
    ensures AcceptedQuality(WithAnyTypeEntries(), Png) == 1000
    ensures AcceptedQuality(WithAnyTypeEntries(), XFoo) == 300
    ensures AcceptedQuality(WithAnyTypeEntries(), TextPlain) == 300
    ensures AcceptedQuality(WithAnyTypeEntries(), Pdf) == 100
  {
    var es := WithAnyTypeEntries();
    AcceptedQualityForward(es, Jpeg, 0);
    AcceptedQualityForward(es, Png, 1);
    AcceptedQualityForward(es, XFoo, 2);
    AcceptedQualityForward(es, TextPlain, 3);
    AcceptedQualityForward(es, Pdf, 4);
  }

  // The second quality test, without `*/*`: the same, except that a type no
  // entry accepts gets 0.
  lemma QualitiesWithoutAnyType()
    ensures AcceptedQuality(ImageAndTextEntries(), Jpeg) == 1000
    ensures AcceptedQuality(ImageAndTextEntries(), Png) == 1000
    ensures AcceptedQuality(ImageAndTextEntries(), XFoo) == 300
    ensures AcceptedQuality(ImageAndTextEntries(), TextPlain) == 300
    ensures AcceptedQuality(ImageAndTextEntries(), Pdf) == 0
  {
    var es := ImageAndTextEntries();
    AcceptedQualityForward(es, Jpeg, 0);
    AcceptedQualityForward(es, Png, 1);
    AcceptedQualityForward(es, XFoo, 2);
    AcceptedQualityForward(es, TextPlain, 3);
    AcceptedQualityNone(es, Pdf);
  }

  // Two names that differ, ignoring case, at one position are not equal ignoring case.
  lemma DiffersAt(a: string, b: string, i: nat)
    requires i < |a| && i < |b| && LowerChar(a[i]) != LowerChar(b[i])
    ensures !EqualsIgnoreCase(a, b)
  {
    assert Lower(a)[i] != Lower(b)[i];
  }

  const OctetStream: MediaType := MediaType("application", "octetstream", [])
  const Tif: MediaType := MediaType("image", "tif", [])
  const TextHmtl: MediaType := MediaType("text", "hmtl", [])

  // The first selection test: the first entry that accepts any supported
  // type decides, whatever the entries after it accept. Only `image/*`
  // accepts `image/tif`.
  lemma BestFromSupportedTif()
    ensures PreferredFrom(ImageAndTextEntries(), [Json, OctetStream, Tif]) == Some(Tif)
  {
    DiffersAt("tif", "png", 0);
    PreferredMatchAt(ImageAndTextEntries(), [Json, OctetStream, Tif], 2, 2);
  }

  // Adding `image/png` moves the choice to the earlier `image/png` entry.
  lemma BestFromSupportedPng()
    ensures PreferredFrom(ImageAndTextEntries(), [Json, OctetStream, Tif, Png]) == Some(Png)
  {
    DiffersAt("tif", "png", 0);
    PreferredMatchAt(ImageAndTextEntries(), [Json, OctetStream, Tif, Png], 1, 3);
  }

  // Any subtype of text, even a misspelt one, is accepted by `text/*`.
  lemma BestFromSupportedText()
    ensures PreferredFrom(ImageAndTextEntries(), [TextHmtl]) == Some(TextHmtl)
  {
    PreferredMatchAt(ImageAndTextEntries(), [TextHmtl], 3, 0);
  }

  const TextCsv: MediaType := MediaType("text", "csv", [])
  const TextTurtle: MediaType := MediaType("text", "turtle", [])

  // The entries of `image/*;q=0.1`, `text/*;q=.01` and `application/rdf+xml;q=.3`, in order.
  function RdfFirstEntries(): seq<Entry> {
    [Entry(RdfXml, 300), Entry(AnyImage, 100), Entry(AnyText, 10)]
  }

  lemma RdfFirstValid()
    ensures ValidEntries(RdfFirstEntries())
  {
    assert ValidEntry(Entry(RdfXml, 300));
    ScenarioEntriesValid();
  }

  lemma RdfFirstSorted()
    ensures SortedEntries(RdfFirstEntries())
  {
    RdfFirstValid();
    SortedByQuality(RdfFirstEntries());
  }

  // The second selection test: the exact rdf entry has the highest quality and decides.
  lemma BestFromSupportedRdf()
    ensures PreferredFrom(RdfFirstEntries(), [TextCsv, TextTurtle, RdfXml]) == Some(RdfXml)
  {
    PreferredMatchAt(RdfFirstEntries(), [TextCsv, TextTurtle, RdfXml], 0, 2);
  }

  // The entries of the merged headers `text/*;q=0.5,image/*;q=0.3`,
  // `text/html;q=1,image/png;q=0.4` and `*/*;q=0.1`, in order.
  function MergedEntries(): seq<Entry> {
    [Entry(Html, 1000), Entry(AnyText, 500), Entry(Png, 400), Entry(AnyImage, 300), Entry(AnyType, 100)]
  }

  lemma MergedValid()
    ensures ValidEntries(MergedEntries())
  {
    assert ValidEntry(Entry(Html, 1000));
    assert ValidEntry(Entry(AnyText, 500)) && ValidEntry(Entry(Png, 400));
    assert ValidEntry(Entry(AnyImage, 300)) && ValidEntry(Entry(AnyType, 100));
  }

  lemma MergedSorted()
    ensures SortedEntries(MergedEntries())
  {
    MergedValid();
    SortedByQuality(MergedEntries());
  }

  const Gif: MediaType := MediaType("image", "gif", [])

  // The merging test: each supported type added is accepted by an earlier
  // entry than the ones before it. Only `*/*` accepts rdf.
  lemma BestFromMergedRdf()
    ensures PreferredFrom(MergedEntries(), [RdfXml]) == Some(RdfXml)
  {
    PreferredMatchAt(MergedEntries(), [RdfXml], 4, 0);
  }

  // `image/*` accepts gif; `image/png` does not.
  lemma BestFromMergedGif()
    ensures PreferredFrom(MergedEntries(), [RdfXml, Gif]) == Some(Gif)
  {
    DiffersAt("gif", "png", 0);
    PreferredMatchAt(MergedEntries(), [RdfXml, Gif], 3, 1);
  }

  // `text/*` accepts csv.
  lemma BestFromMergedCsv()
    ensures PreferredFrom(MergedEntries(), [RdfXml, Gif, TextCsv]) == Some(TextCsv)
  {
    PreferredMatchAt(MergedEntries(), [RdfXml, Gif, TextCsv], 1, 2);
  }

  // The exact `text/html` entry comes first.
  lemma BestFromMergedHtml()
    ensures PreferredFrom(MergedEntries(), [RdfXml, Gif, TextCsv, Html]) == Some(Html)
  {
    PreferredMatchAt(MergedEntries(), [RdfXml, Gif, TextCsv, Html], 0, 3);
  }

  // The Java default header `text/html, image/gif, image/jpeg, *; q=.2, */*; q=.2`:
  // the piece `*; q=.2` has no `/`, so it does not parse and adds nothing.
  lemma LoneStarSkipped()
    ensures Parse(" *; q=.2").Failure?
    ensures EntriesOf(" *; q=.2") == Success({})
  {
    assert '/' !in " *; q=.2";
  }

  // The pieces of the Java default header, as the parse lemmas write them.
  lemma PieceTexts()
    ensures "text" + ['/'] + "html" == "text/html"
    ensures [' '] + "image" + ['/'] + "gif" == " image/gif"
    ensures [' '] + "image" + ['/'] + "jpeg" == " image/jpeg"
    ensures [' '] + "*" + ['/'] + "*" + [';'] + " q=.2" == " */*; q=.2"
  {
  }

  // `text/html` is a plain entry of quality 1000.
  lemma HtmlPiece()
    ensures EntriesOf("text/html") == Success({Entry(Html, 1000)})
  {
    ParseOfBase("text", "html");
    PieceTexts();
    assert ValidEntry(Entry(Html, 1000));
    MakeEntryOfEntry(Entry(Html, 1000));
  }

  // ` image/gif`, after the `,`, is a plain entry of quality 1000.
  lemma GifPiece()
    ensures EntriesOf(" image/gif") == Success({Entry(Gif, 1000)})
  {
    ParseOfBlankBase("image", "gif");
    PieceTexts();
    assert ValidEntry(Entry(Gif, 1000));
    MakeEntryOfEntry(Entry(Gif, 1000));
  }

  // ` image/jpeg`, after the `,`, is a plain entry of quality 1000.
  lemma JpegPiece()
    ensures EntriesOf(" image/jpeg") == Success({Entry(Jpeg, 1000)})
  {
    ParseOfBlankBase("image", "jpeg");
    PieceTexts();
    assert ValidEntry(Entry(Jpeg, 1000));
    MakeEntryOfEntry(Entry(Jpeg, 1000));
  }

  lemma PointTwoPiece()
    ensures ParamWellFormed(("q", ".2"))
    ensures ParamPiece(("q", ".2")) == " q=.2"
    ensures ';' !in " q=.2"
  {
  }

  // `q=.2` is the one parameter of ` */*; q=.2`.
  lemma PointTwoParameter()
    ensures ParseParameters(" q=.2") == Some([("q", ".2")])
  {
    PointTwoPiece();
    ParseParameterPiece(("q", ".2"));
    ParseParametersLast(" q=.2", ("q", ".2"));
  }

  // `*/*` with `q=.2` makes the `*/*` entry of quality 200.
  lemma AnyTypeAtPointTwo()
    ensures MakeEntry(MediaType("*", "*", [("q", ".2")])) == Success(Entry(AnyType, 200))
  {
    var m := MediaType("*", "*", [("q", ".2")]);
    assert WellFormed(m);
    assert GetParameter(m.params, QParam) == Some(".2");
    assert RemoveParameter(m.params, QParam) == [];
    PointTwo();
  }

  // `.2` reads as two tenths, which is quality 200.
  lemma PointTwo()
    ensures ParseDecimal(".2") == Some(0.2)
    ensures Quality(0.2) == 200
  {
    assert ".2" == "" + ['.'] + "2";
    ParseUnsignedParts("", "2");
    assert DigitsValue("2") == 2;
    assert Shift(2.0, 1) == 0.2;
    QualityOfMillis(0.2, 200);
  }

  // ` */*; q=.2`, after the `,`, is the `*/*` entry of quality 200.
  lemma AnyTypePiece()
    ensures EntriesOf(" */*; q=.2") == Success({Entry(AnyType, 200)})
  {
    PointTwoParameter();
    ParseOfBlankParts("*", "*", " q=.2", [("q", ".2")]);
    PieceTexts();
    AnyTypeAtPointTwo();
  }

  // The Accept header Java's URL connection sends by default,
  // `text/html, image/gif, image/jpeg, *; q=.2, */*; q=.2`, written as its
  // comma-separated pieces.
  const JavaDefaultHeader: string := "text/html" + "," + " image/gif" + "," + " image/jpeg" + "," + " *; q=.2" + "," + " */*; q=.2"

  function JavaDefaultPieces(): seq<string> {
    ["text/html", " image/gif", " image/jpeg", " *; q=.2", " */*; q=.2"]
  }

  function JavaDefaultParsedPieces(): seq<string> {
    ["text/html", " image/gif", " image/jpeg", " */*; q=.2"]
  }

  // Four strings with known entry sets collect to the union of those sets.
  lemma CollectFour(a: string, b: string, c: string, d: string, f: string -> Result<set<Entry>, Error>,
                    sa: set<Entry>, sb: set<Entry>, sc: set<Entry>, sd: set<Entry>)
    requires f(a) == Success(sa) && f(b) == Success(sb) && f(c) == Success(sc) && f(d) == Success(sd)
    ensures Collect([a, b, c, d], f) == Success(sa + sb + sc + sd)
  {
    assert [a][..0] == [];
    assert {} + sa == sa;
    assert Collect([a], f) == Success(sa);
    assert [a, b][..1] == [a];
    assert Collect([a, b], f) == Success(sa + sb);
    assert [a, b, c][..2] == [a, b];
    assert Collect([a, b, c], f) == Success(sa + sb + sc);
    assert [a, b, c, d][..3] == [a, b, c];
  }

  // The header splits at its commas into the five pieces.
  lemma JavaDefaultSplits()
    ensures HeaderEntrySet(Some(JavaDefaultHeader)) == ParsedEntries(JavaDefaultPieces())
  {
    JavaDefaultJoin();
    JavaDefaultPiecesHaveNoComma();
    HeaderOfPieces(JavaDefaultPieces());
  }

  lemma JavaDefaultJoin()
    ensures Join(JavaDefaultPieces(), ',') == JavaDefaultHeader
  {
    JoinFive("text/html", " image/gif", " image/jpeg", " *; q=.2", " */*; q=.2", ',');
  }

  lemma JoinFive(a: string, b: string, c: string, d: string, e: string, sep: char)
    ensures Join([a, b, c, d, e], sep) == a + [sep] + b + [sep] + c + [sep] + d + [sep] + e
  {
    assert [d, e][1..] == [e];
    assert Join([d, e], sep) == d + [sep] + e;
    assert [c, d, e][1..] == [d, e];
    assert Join([c, d, e], sep) == c + [sep] + d + [sep] + e;
    assert [b, c, d, e][1..] == [c, d, e];
    assert Join([b, c, d, e], sep) == b + [sep] + c + [sep] + d + [sep] + e;
    assert [a, b, c, d, e][1..] == [b, c, d, e];
  }

  lemma JavaDefaultPiecesHaveNoComma()
    ensures forall i :: 0 <= i < |JavaDefaultPieces()| ==> ',' !in JavaDefaultPieces()[i]
  {
  }

  // The piece `*; q=.2` contributes nothing.
  lemma JavaDefaultSkipsLoneStar()
    ensures ParsedEntries(JavaDefaultPieces()) == ParsedEntries(JavaDefaultParsedPieces())
  {
    LoneStarSkipped();
    var a, b := ["text/html", " image/gif", " image/jpeg"], [" */*; q=.2"];
    assert a + [" *; q=.2"] + b == JavaDefaultPieces();
    assert a + b == JavaDefaultParsedPieces();
    UnparseableSkipped(a, " *; q=.2", b);
  }

  // The other four pieces give the four entries.
  lemma JavaDefaultParsedEntries()
    ensures ParsedEntries(JavaDefaultParsedPieces())
         == Success({Entry(Html, 1000)} + {Entry(Gif, 1000)} + {Entry(Jpeg, 1000)} + {Entry(AnyType, 200)})
  {
    PieceEntries();
    CollectFour("text/html", " image/gif", " image/jpeg", " */*; q=.2", EntriesOf,
      {Entry(Html, 1000)}, {Entry(Gif, 1000)}, {Entry(Jpeg, 1000)}, {Entry(AnyType, 200)});
  }

  lemma JavaDefaultElements()
    ensures Elements(JavaDefaultEntries())
         == {Entry(Html, 1000)} + {Entry(Gif, 1000)} + {Entry(Jpeg, 1000)} + {Entry(AnyType, 200)}
  {
  }

  lemma PieceEntries()
    ensures EntriesOf("text/html") == Success({Entry(Html, 1000)})
    ensures EntriesOf(" image/gif") == Success({Entry(Gif, 1000)})
    ensures EntriesOf(" image/jpeg") == Success({Entry(Jpeg, 1000)})
    ensures EntriesOf(" */*; q=.2") == Success({Entry(AnyType, 200)})
  {
    HtmlPiece();
    GifPiece();
    JpegPiece();
    AnyTypePiece();
  }

  // The Java default header, through fromString, holds exactly the four entries.
  lemma JavaDefaultEntrySet()
    ensures HeaderEntrySet(Some(JavaDefaultHeader)) == Success(Elements(JavaDefaultEntries()))
  {
    JavaDefaultSplits();
    JavaDefaultSkipsLoneStar();
    JavaDefaultParsedEntries();
    JavaDefaultElements();
  }

  // The entries the Java default header leaves, in the order the entry set keeps.
  function JavaDefaultEntries(): seq<Entry> {
    [Entry(Html, 1000), Entry(Gif, 1000), Entry(Jpeg, 1000), Entry(AnyType, 200)]
  }

  // Tied on wildcards and `q`, text/html wins on the fallback table.
  lemma HtmlEntryBeforeGif()
    ensures ValidEntry(Entry(Html, 1000)) && ValidEntry(Entry(Gif, 1000))
    ensures EntryCompare(Entry(Html, 1000), Entry(Gif, 1000)) < 0
  {
    assert ValidEntry(Entry(Html, 1000)) && ValidEntry(Entry(Gif, 1000));
    assert CountWildChars(Html) == 0 && CountWildChars(Gif) == 0;
    assert FallBackQ(Html) == 900 && FallBackQ(Gif) == 0;
    CompareSign(Html, Gif, None);
    EntryCompareOrder(Entry(Html, 1000), Entry(Gif, 1000));
  }

  // Tied on everything else, `image/gif` sorts before `image/jpeg` by its string form.
  lemma GifEntryBeforeJpeg()
    ensures ValidEntry(Entry(Gif, 1000)) && ValidEntry(Entry(Jpeg, 1000))
    ensures EntryCompare(Entry(Gif, 1000), Entry(Jpeg, 1000)) < 0
  {
    assert ValidEntry(Entry(Gif, 1000)) && ValidEntry(Entry(Jpeg, 1000));
    assert ToString(Gif) == "image/" + "gif";
    assert ToString(Jpeg) == "image/" + "jpeg";
    CompareStringsPrefix("image/", "gif", "jpeg");
    assert FallBackQ(Gif) == 0 && FallBackQ(Jpeg) == 0;
    CompareSign(Gif, Jpeg, None);
    EntryCompareOrder(Entry(Gif, 1000), Entry(Jpeg, 1000));
  }

  // Three entries each before the next are sorted.
  lemma SortedThree(a: Entry, b: Entry, c: Entry)
    requires ValidEntry(a) && ValidEntry(b) && ValidEntry(c)
    requires EntryCompare(a, b) < 0 && EntryCompare(b, c) < 0
    ensures SortedEntries([a, b, c])
  {
    EntryCompareTransitive(a, b, c);
  }

  lemma HtmlFirstSorted()
    ensures SortedEntries([Entry(Html, 1000), Entry(Gif, 1000), Entry(Jpeg, 1000)])
  {
    HtmlEntryBeforeGif();
    GifEntryBeforeJpeg();
    SortedThree(Entry(Html, 1000), Entry(Gif, 1000), Entry(Jpeg, 1000));
  }

  lemma JavaDefaultSorted()
    ensures SortedEntries(JavaDefaultEntries())
  {
    var hi, lo := [Entry(Html, 1000), Entry(Gif, 1000), Entry(Jpeg, 1000)], [Entry(AnyType, 200)];
    HtmlFirstSorted();
    assert ValidEntry(Entry(AnyType, 200));
    SortedCons(Entry(AnyType, 200), []);
    SortedTiers(hi, lo);
    assert hi + lo == JavaDefaultEntries();
  }

  // Exact entries give 1000 and everything else falls to `*/*` at 200.
  lemma JavaDefaultQualities()
    ensures AcceptedQuality(JavaDefaultEntries(), Jpeg) == 1000
    ensures AcceptedQuality(JavaDefaultEntries(), Gif) == 1000
    ensures AcceptedQuality(JavaDefaultEntries(), XFoo) == 200
    ensures AcceptedQuality(JavaDefaultEntries(), TextPlain) == 200
    ensures AcceptedQuality(JavaDefaultEntries(), Pdf) == 200
  {
    var es := JavaDefaultEntries();
    DiffersAt("gif", "jpeg", 0);
    AcceptedQualityForward(es, Jpeg, 2);
    AcceptedQualityForward(es, Gif, 1);
    AcceptedQualityForward(es, XFoo, 3);
    AcceptedQualityForward(es, TextPlain, 3);
    AcceptedQualityForward(es, Pdf, 3);
  }

  // The three Accept header values of the merging test,
  // `text/*;q=0.5,image/*;q=0.3`, `text/html;q=1,image/png;q=0.4` and
  // `*/*;q=0.1`, written as their pieces `type/subtype;q=value`.
  const AnyTextPiece: string := "text" + ['/'] + "*" + [';'] + ("q" + ['='] + "0.5")
  const AnyImagePiece: string := "image" + ['/'] + "*" + [';'] + ("q" + ['='] + "0.3")
  const HtmlAtOnePiece: string := "text" + ['/'] + "html" + [';'] + ("q" + ['='] + "1")
  const PngPiece: string := "image" + ['/'] + "png" + [';'] + ("q" + ['='] + "0.4")
  const TextAndImageHeader: string := AnyTextPiece + "," + AnyImagePiece
  const HtmlAndPngHeader: string := HtmlAtOnePiece + "," + PngPiece
  const AnyTypeHeader: string := "*" + ['/'] + "*" + [';'] + ("q" + ['='] + "0.1")

  function MergedHeaders(): seq<string> {
    [TextAndImageHeader, HtmlAndPngHeader, AnyTypeHeader]
  }

  // A piece `type/subtype;q=v` whose `v` reads as a number is the entry of
  // `type/subtype` at that number's quality.
  lemma QualifiedPiece(primary: string, sub: string, v: string, n: int)
    requires IsToken(primary) && IsLower(primary) && IsToken(sub) && IsLower(sub) && IsToken(v)
    requires ParseDecimal(v).Some? && Quality(ParseDecimal(v).value) == n
    ensures EntriesOf(primary + ['/'] + sub + [';'] + ("q" + ['='] + v))
         == Success({Entry(MediaType(primary, sub, []), n)})
  {
    assert IsToken("q") && IsLower("q");
    ParseTightParameter("q", v);
    ParseOfParts(primary, sub, "q" + ['='] + v, [("q", v)]);
    var m := MediaType(primary, sub, [("q", v)]);
    assert GetParameter(m.params, QParam) == Some(v);
    assert RemoveParameter(m.params, QParam) == [];
  }

  // Such a piece holds no `,`, so it stays whole when its header is split.
  lemma QualifiedPieceHasNoComma(primary: string, sub: string, v: string)
    requires IsToken(primary) && IsToken(sub) && IsToken(v)
    ensures ',' !in primary + ['/'] + sub + [';'] + ("q" + ['='] + v)
  {
    TokenHasNoSeparator(primary);
    TokenHasNoSeparator(sub);
    TokenHasNoSeparator(v);
  }

  // `0.d` is d hundred thousandths.
  lemma TenthsQuality(d: char)
    requires '0' <= d <= '9'
    ensures ParseDecimal(['0', '.', d]).Some?
    ensures Quality(ParseDecimal(['0', '.', d]).value) == (d as int - '0' as int) * 100
  {
    var k := d as int - '0' as int;
    assert ['0', '.', d] == "0" + ['.'] + [d];
    assert IsDigits("0") && DigitsValue("0") == 0;
    assert IsDigits([d]) && DigitsValue([d]) == k by {
      assert [d][..0] == [];
    }
    assert Pow10(3 - |[d]|) == 100;
    QualityOfShortFraction("0", [d]);
  }

  lemma TenthsIsToken(d: char)
    requires '0' <= d <= '9'
    ensures IsToken(['0', '.', d])
  {
    assert IsTokenChar('0') && IsTokenChar('.') && IsTokenChar(d);
  }

  // A piece `type/subtype;q=0.d` is the entry of `type/subtype` at d hundred, and holds no `,`.
  lemma TenthsPiece(primary: string, sub: string, d: char)
    requires IsToken(primary) && IsLower(primary) && IsToken(sub) && IsLower(sub)
    requires '0' <= d <= '9'
    ensures ',' !in primary + ['/'] + sub + [';'] + ("q" + ['='] + ['0', '.', d])
    ensures EntriesOf(primary + ['/'] + sub + [';'] + ("q" + ['='] + ['0', '.', d]))
         == Success({Entry(MediaType(primary, sub, []), (d as int - '0' as int) * 100)})
  {
    TenthsQuality(d);
    TenthsIsToken(d);
    QualifiedPiece(primary, sub, ['0', '.', d], (d as int - '0' as int) * 100);
    QualifiedPieceHasNoComma(primary, sub, ['0', '.', d]);
  }

  // `1` is the full quality 1000.
  lemma OneQuality()
    ensures ParseDecimal("1") == Some(1.0)
    ensures Quality(1.0) == 1000
  {
    assert DigitsValue("1") == 1;
    QualityOfMillis(1.0, 1000);
  }

  // A piece `type/subtype;q=1` is the entry of `type/subtype` at 1000, and holds no `,`.
  lemma OnePiece(primary: string, sub: string)
    requires IsToken(primary) && IsLower(primary) && IsToken(sub) && IsLower(sub)
    ensures ',' !in primary + ['/'] + sub + [';'] + ("q" + ['='] + "1")
    ensures EntriesOf(primary + ['/'] + sub + [';'] + ("q" + ['='] + "1"))
         == Success({Entry(MediaType(primary, sub, []), 1000)})
  {
    OneQuality();
    assert IsToken("1");
    QualifiedPiece(primary, sub, "1", 1000);
    QualifiedPieceHasNoComma(primary, sub, "1");
  }

  // Two strings with known entry sets collect to the union of those sets.
  lemma CollectTwo(a: string, b: string, f: string -> Result<set<Entry>, Error>, sa: set<Entry>, sb: set<Entry>)
    requires f(a) == Success(sa) && f(b) == Success(sb)
    ensures Collect([a, b], f) == Success(sa + sb)
  {
    assert [a][..0] == [];
    assert {} + sa == sa;
    assert Collect([a], f) == Success(sa);
    assert [a, b][..1] == [a];
  }

  lemma CollectThree(a: string, b: string, c: string, f: string -> Result<set<Entry>, Error>,
                     sa: set<Entry>, sb: set<Entry>, sc: set<Entry>)
    requires f(a) == Success(sa) && f(b) == Success(sb) && f(c) == Success(sc)
    ensures Collect([a, b, c], f) == Success(sa + sb + sc)
  {
    CollectTwo(a, b, f, sa, sb);
    assert [a, b, c][..2] == [a, b];
  }

  // A header of two pieces with known entry sets holds both.
  lemma HeaderOfTwo(a: string, b: string, sa: set<Entry>, sb: set<Entry>)
    requires ',' !in a && ',' !in b && b != []
    requires EntriesOf(a) == Success(sa) && EntriesOf(b) == Success(sb)
    ensures HeaderEntrySet(Some(a + "," + b)) == Success(sa + sb)
  {
    assert [a, b][1..] == [b];
    assert Join([a, b], ',') == a + "," + b;
    HeaderOfPieces([a, b]);
    CollectTwo(a, b, EntriesOf, sa, sb);
  }

  // `text/*;q=0.5,image/*;q=0.3`: the two ranges at 500 and 300.
  lemma TextAndImageEntries()
    ensures HeaderEntrySet(Some(TextAndImageHeader)) == Success({Entry(AnyText, 500)} + {Entry(AnyImage, 300)})
  {
    AnyTextPieceEntry();
    AnyImagePieceEntry();
    HeaderOfTwo(AnyTextPiece, AnyImagePiece, {Entry(AnyText, 500)}, {Entry(AnyImage, 300)});
  }

  lemma AnyTextPieceEntry()
    ensures ',' !in AnyTextPiece && EntriesOf(AnyTextPiece) == Success({Entry(AnyText, 500)})
  {
    TenthsPiece("text", "*", '5');
  }

  lemma AnyImagePieceEntry()
    ensures ',' !in AnyImagePiece && EntriesOf(AnyImagePiece) == Success({Entry(AnyImage, 300)})
  {
    TenthsPiece("image", "*", '3');
  }

  // `text/html;q=1,image/png;q=0.4`: html at 1000 and png at 400.
  lemma HtmlAndPngEntries()
    ensures HeaderEntrySet(Some(HtmlAndPngHeader)) == Success({Entry(Html, 1000)} + {Entry(Png, 400)})
  {
    HtmlAtOnePieceEntry();
    PngPieceEntry();
    HeaderOfTwo(HtmlAtOnePiece, PngPiece, {Entry(Html, 1000)}, {Entry(Png, 400)});
  }

  lemma HtmlAtOnePieceEntry()
    ensures ',' !in HtmlAtOnePiece && EntriesOf(HtmlAtOnePiece) == Success({Entry(Html, 1000)})
  {
    assert IsToken("text") && IsLower("text");
    assert IsToken("html") && IsLower("html");
    OnePiece("text", "html");
  }

  lemma PngPieceEntry()
    ensures ',' !in PngPiece && EntriesOf(PngPiece) == Success({Entry(Png, 400)})
  {
    assert IsToken("image") && IsLower("image");
    assert IsToken("png") && IsLower("png");
    TenthsPiece("image", "png", '4');
  }

  // `*/*;q=0.1`: everything at 100.
  lemma AnyTypeEntries()
    ensures HeaderEntrySet(Some(AnyTypeHeader)) == Success({Entry(AnyType, 100)})
  {
    TenthsPiece("*", "*", '1');
    HeaderOfOneEntry(AnyTypeHeader, Entry(AnyType, 100));
  }

  // A request with three Accept header values merges their entries.
  lemma RequestOfThree(a: string, b: string, c: string, sa: set<Entry>, sb: set<Entry>, sc: set<Entry>)
    requires HeaderEntrySet(Some(a)) == Success(sa)
    requires HeaderEntrySet(Some(b)) == Success(sb)
    requires HeaderEntrySet(Some(c)) == Success(sc)
    ensures RequestEntrySet([a, b, c]) == Success(sa + sb + sc)
  {
    CollectThree(a, b, c, h => HeaderEntrySet(Some(h)), sa, sb, sc);
  }

  lemma MergedElements()
    ensures Elements(MergedEntries())
         == {Entry(AnyText, 500)} + {Entry(AnyImage, 300)} + ({Entry(Html, 1000)} + {Entry(Png, 400)}) + {Entry(AnyType, 100)}
  {
  }

  // fromRequest merges the three headers into the five entries the test expects.
  lemma MergedEntrySet()
    ensures RequestEntrySet(MergedHeaders()) == Success(Elements(MergedEntries()))
  {
    TextAndImageEntries();
    HtmlAndPngEntries();
    AnyTypeEntries();
    RequestOfThree(TextAndImageHeader, HtmlAndPngHeader, AnyTypeHeader,
      {Entry(AnyText, 500)} + {Entry(AnyImage, 300)}, {Entry(Html, 1000)} + {Entry(Png, 400)}, {Entry(AnyType, 100)});
    MergedElements();
  }

  lemma PngAndCsvValid()
    ensures ValidEntry(Entry(Png, 300)) && ValidEntry(Entry(TextCsv, 200))
  {
  }

  // The set built from `image/png;q=.3` and `text/csv;q=.2` holds the png entry first.
  method PngAndCsv() returns (p: AcceptPreference)
    ensures fresh(p) && p.Valid()
    ensures p.entries == [Entry(Png, 300), Entry(TextCsv, 200)]
  {
    var png, csv := Entry(Png, 300), Entry(TextCsv, 200);
    PngAndCsvValid();
    p := new AcceptPreference.Empty();
    var _ := p.Add(png);
    var _ := p.Add(csv);
    var expected := [png, csv];
    SortedByQuality(expected);
    assert Elements(expected) == Elements(p.entries);
    SortedUnique(p.entries, expected);
  }

  // The idempotence test against getPreferredAccept() as written: the second
  // call sees the set without its first entry and answers text/csv.
  method PollTwice() returns (first: Result<MediaType, Error>, second: Result<MediaType, Error>)
    ensures first == Success(Png)
    ensures second == Success(TextCsv)
  {
    var p := PngAndCsv();
    first := p.GetPreferredAccept();
    second := p.GetPreferredAccept();
  }

  // The idempotence test against the intended getPreferredAccept(): both calls answer image/png.
  method PeekTwice() returns (first: Result<MediaType, Error>, second: Result<MediaType, Error>)
    ensures first == Success(Png)
    ensures second == Success(Png)
  {
    var p := PngAndCsv();
    first := p.PeekPreferredAccept();
    second := p.PeekPreferredAccept();
  }

  // The set built from `image/png;q=1`, `image/*;q=.3` and `text/*;q=.3`.
  method PngAndRanges() returns (p: AcceptPreference)
    ensures fresh(p) && p.Valid()
    ensures p.entries == [Entry(Png, 1000), Entry(AnyImage, 300), Entry(AnyText, 300)]
  {
    var png, image, text := Entry(Png, 1000), Entry(AnyImage, 300), Entry(AnyText, 300);
    ScenarioEntriesValid();
    p := new AcceptPreference.Empty();
    var _ := p.Add(png);
    var _ := p.Add(image);
    var _ := p.Add(text);
    var expected := [png, image, text];
    PngAndRangesSorted();
    assert Elements(expected) == Elements(p.entries);
    SortedUnique(p.entries, expected);
  }

  lemma PngAndRangesSorted()
    ensures SortedEntries([Entry(Png, 1000), Entry(AnyImage, 300), Entry(AnyText, 300)])
  {
    var hi, lo := [Entry(Png, 1000)], [Entry(AnyImage, 300), Entry(AnyText, 300)];
    ScenarioEntriesValid();
    SortedCons(Entry(Png, 1000), []);
    AnyImageFirstSorted();
    SortedTiers(hi, lo);
  }

  // The highest-quality test: the png entry comes first and its type is the answer.
  method HighestQuality() returns (best: Result<MediaType, Error>)
    ensures best == Success(Png)
  {
    var p := PngAndRanges();
    best := p.PeekPreferredAccept();
  }

  // The Java default test end to end: fromString on the header, then the
  // accepted quality of each type the test asks about.
  method JavaDefault() returns (jpeg: int, gif: int, xFoo: int, plain: int, pdf: int)
    ensures jpeg == 1000 && gif == 1000
    ensures xFoo == 200 && plain == 200 && pdf == 200
  {
    var r := AcceptPreference.FromString(Some(JavaDefaultHeader));
    JavaDefaultEntrySet();
    var p := r.value;
    JavaDefaultSorted();
    SortedUnique(p.entries, JavaDefaultEntries());
    JavaDefaultQualities();
    jpeg := p.GetAcceptedQuality(Jpeg);
    gif := p.GetAcceptedQuality(Gif);
    xFoo := p.GetAcceptedQuality(XFoo);
    plain := p.GetAcceptedQuality(TextPlain);
    pdf := p.GetAcceptedQuality(Pdf);
  }

  // The merging test end to end: fromRequest on the three header values,
  // then getEntries, gives the five entries in the order the set keeps them.
  method MergingHeaders() returns (entries: seq<Entry>)
    ensures entries == MergedEntries()
  {
    var r := AcceptPreference.FromRequest(MergedHeaders());
    MergedEntrySet();
    var p := r.value;
    MergedSorted();
    SortedUnique(p.entries, MergedEntries());
    entries := p.GetEntries();
  }
}
