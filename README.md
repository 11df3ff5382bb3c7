# Accept-header content negotiation, modelled in Dafny

This project models the core of a small Java library for HTTP content
negotiation over the `Accept` header (section 5.3.2 of RFC 7231, with the
quality values of section 5.3.1):

- **media-range matching** (`MimeUtils.isSameOrSubtype`): whether a media
  type is acceptable under a range such as `*/*`, `text/*` or `text/html`;
- **the media-type order** (`MimeTypeComparator`): a lexicographic order
  whose keys are the accepted quality under an optional bound preference,
  the wildcard count, the type's own `q` parameter, a fixed fallback table
  and the string form;
- **the preference set** (`AcceptPreference` and its `AcceptHeaderEntry`):
  the entries of one or more headers, each a media type without `q` and a
  quality in thousandths, held in a `TreeSet` ordered by quality and then by
  the comparator, with the queries over it: the entries in order, the most
  preferred type, the best of a set of supported types, and the accepted
  quality of a type.

Modules, in dependency order:

| module | what it holds |
|---|---|
| `Wrappers`, `Exceptions` | `Option` (Java's null), `Result` (a thrown exception) and the exceptions the core raises |
| `Strings` | the parts of `java.lang.String` the core relies on: `indexOf`, `trim`, ASCII `toLowerCase`/`equalsIgnoreCase`, `split` (trailing empty strings dropped) and `compareTo` |
| `MimeTypes` | the `MediaType` datatype, its string form and a parser standing in for `javax.activation.MimeType` |
| `MimeUtils` | `mimeType`, `WILDCARD_TYPE`, parameter lookup and removal, `isSameOrSubtype`, and the round trip between parser and string form |
| `QValues` | a `q` value read as an exact decimal, and `(int) (q * 1000)` |
| `HeaderEntries` | `AcceptHeaderEntry` construction, and the two queries over an ordered entry list as specification functions |
| `MimeTypeComparator` | the comparator and a key-by-key reference order it is proved against |
| `Preferences` | `compareTo` as written and as intended, the sorted-set invariant, what each factory builds, and the class `AcceptPreference` |
| `Scenarios` | the situations of the repository's unit tests, stated over the model |

The `TreeSet` is a class field `entries: seq<Entry>` with the invariant
that every entry comes strictly before every later one in the entry order.
`Add` inserts in place and keeps it, so the set is determined by its
elements (`SortedUnique`) and every factory is specified by the set of
entries it must hold.

Where the code and its documentation disagree, the model follows the code,
with two exceptions recorded under Findings and Left out: the set is kept in
the corrected entry order, and the fallback table is read by value.
`getPreferredAccept()` is documented and tested as a query, but it removes
the first entry (see Findings). The quality is documented as "from 0 to
1000", but `q` is not range-checked, so any `int` can occur and the model
keeps the full signed range.

## Model

Paths are relative to the repository root.

| member | source | states |
|---|---|---|
| Strings.JavaSplitJoin | mavenproject1/src/main/java/eu/fusepool/p3/accept/util/AcceptPreference.java:117 | `split(",")` of pieces joined by `,` gives the pieces back, provided none holds a `,` and the last is not empty (Java drops trailing empty strings) |
| Strings.JoinSplit | mavenproject1/src/main/java/eu/fusepool/p3/accept/util/AcceptPreference.java:117 | gluing the pieces of a split back together with the separator gives the original string: splitting loses no text |
| Strings.SplitJoin | mavenproject1/src/main/java/eu/fusepool/p3/accept/util/AcceptPreference.java:117 | splitting pieces that hold no separator, once joined, gives the pieces back |
| Strings.CompareStringsAntisymmetric | src/main/java/eu/fusepool/p3/accept/util/MimeTypeComparator.java:121 | `String.compareTo` with the arguments swapped is the negation |
| Strings.CompareStringsZero | src/main/java/eu/fusepool/p3/accept/util/MimeTypeComparator.java:121 | `compareTo` is 0 exactly for equal strings |
| Strings.CompareStringsTransitive | src/main/java/eu/fusepool/p3/accept/util/MimeTypeComparator.java:121 | `compareTo` below 0 is transitive |
| MimeTypes.Parse | mavenproject1/src/main/java/eu/fusepool/p3/accept/util/AcceptPreference.java:167 | `new MimeType(s)` raises only MimeTypeParse; when it succeeds the type and subtype are lower-case tokens and every parameter is a lower-case token name with a token value |
| MimeTypes.ParseAround | mavenproject1/src/main/java/eu/fusepool/p3/accept/util/AcceptPreference.java:167 | the parse after the first `/`: it fails only with MimeTypeParse, and a success is well formed |
| MimeTypes.ToString | mavenproject1/src/main/java/eu/fusepool/p3/accept/util/AcceptPreference.java:57 | the string form `type/subtype; name=value…`, with a blank after each `;` as the library writes it (`text/html; level=1`), that `getBaseType() + parameters.toString()` builds and `compare` orders by; `MimeUtils.ParseToString` proves it parses back to the same type and `MimeUtils.ToStringInjective` that distinct types have distinct forms |
| MimeUtils.ParseToString | mavenproject1/src/main/java/eu/fusepool/p3/accept/util/AcceptPreference.java:57 | parsing the string form of a well-formed media type gives that type back, parameters included and in order |
| MimeUtils.ToStringInjective | src/main/java/eu/fusepool/p3/accept/util/MimeTypeComparator.java:121 | distinct well-formed media types have distinct string forms |
| MimeUtils.ParseAtSlash | mavenproject1/src/main/java/eu/fusepool/p3/accept/util/AcceptPreference.java:167 | when the text before a `/` holds no `/`, that `/` is where the parser splits type from subtype |
| MimeUtils.ParseOfBlankBase | src/test/java/eu/fusepool/p3/accept/util/AcceptPreferenceTest.java:70 | a blank before the type, as after each `,` of a header, is trimmed away and the type parses as without it |
| MimeUtils.ParseOfBlankParts | src/test/java/eu/fusepool/p3/accept/util/AcceptPreferenceTest.java:70 | the same for a type with parameters |
| MimeUtils.ParseParametersOfText | mavenproject1/src/main/java/eu/fusepool/p3/accept/util/AcceptPreference.java:57 | the written parameters of a well-formed list parse back to the same list |
| MimeUtils.ParseTightParameter | mavenproject1/src/main/java/eu/fusepool/p3/accept/util/AcceptPreference.java:167 | a lone parameter written `name=value` without blanks, as in `text/*;q=0.5`, parses to that one parameter |
| MimeUtils.MimeTypeOf | mavenproject1/src/main/java/eu/fusepool/p3/accept/util/MimeUtils.java:51-57 | `mimeType` succeeds exactly when the parse does and returns its result; a parse error becomes the Runtime error |
| MimeUtils.MimeTypeOfToString | mavenproject1/src/main/java/eu/fusepool/p3/accept/util/AcceptPreference.java:57 | `mimeType` never fails on the string form of a well-formed type, which the entry constructor relies on |
| MimeUtils.WildcardType | mavenproject1/src/main/java/eu/fusepool/p3/accept/util/MimeUtils.java:27 | `WILDCARD_TYPE` is what `mimeType("*/*")` returns: type and subtype `*`, no parameters |
| MimeUtils.GetParameter | mavenproject1/src/main/java/eu/fusepool/p3/accept/util/AcceptPreference.java:54 | a parameter's value is absent exactly when no parameter has that name; a value found belongs to a parameter of that name |
| MimeUtils.RemoveParameter | mavenproject1/src/main/java/eu/fusepool/p3/accept/util/AcceptPreference.java:55 | removing a name keeps exactly the parameters with other names |
| MimeUtils.RemoveParameterWellFormed | mavenproject1/src/main/java/eu/fusepool/p3/accept/util/AcceptPreference.java:55-57 | removing `q` keeps a type well formed and leaves no `q` |
| MimeUtils.WildcardAcceptsAll | mavenproject1/src/main/java/eu/fusepool/p3/accept/util/MimeUtils.java:71-72 | the range `*/*` accepts every type |
| MimeUtils.IsSameOrSubtype | mavenproject1/src/main/java/eu/fusepool/p3/accept/util/MimeUtils.java:65-78 | `isSameOrSubtype(t1, t2)`: `*/*` accepts all, `T/*` accepts the types of primary type `T` ignoring case, any other range exactly its own type and subtype ignoring case; the cases, reflexivity, transitivity and the independence from parameters are the lemmas below |
| MimeUtils.IsSameOrSubtypeCases | mavenproject1/src/main/java/eu/fusepool/p3/accept/util/MimeUtils.java:65-78 | a range `T/*` accepts exactly the types whose primary type equals `T` ignoring case (all types when `T` is `*`); any other range accepts exactly the types whose type and subtype equal it ignoring case |
| MimeUtils.IsSameOrSubtypeReflexive | mavenproject1/src/main/java/eu/fusepool/p3/accept/util/MimeUtils.java:76 | every type is acceptable under itself |
| MimeUtils.ParametersIgnored | mavenproject1/src/main/java/eu/fusepool/p3/accept/util/MimeUtils.java:66-69 | parameters, `q` among them, play no part in matching |
| MimeUtils.IsSameOrSubtypeTransitive | mavenproject1/src/main/java/eu/fusepool/p3/accept/util/MimeUtils.java:65-78 | a type under a range that is itself under a wider range is under the wider range |
| MimeUtils.IsSameOrSubtypeNotSymmetric | mavenproject1/src/main/java/eu/fusepool/p3/accept/util/MimeUtils.java:60-63 | `text/plain` is under `text/*`, and `text/*` is not under `text/plain` |
| QValues.ParseUnsignedAccepts | mavenproject1/src/main/java/eu/fusepool/p3/accept/util/AcceptPreference.java:62 | the unsigned reading of a `q` value succeeds exactly on digits with at most one `.` and at least one digit |
| QValues.ParseDecimal | mavenproject1/src/main/java/eu/fusepool/p3/accept/util/AcceptPreference.java:62 | the stand-in for `Float.parseFloat` on a `q` value: an optional sign and an unsigned decimal, read exactly, and no value for any other text; `ParseUnsignedAccepts`, `ParseDecimalSign` and `ParseUnsignedParts` state what it accepts and the value it reads |
| QValues.ParseDecimalSign | mavenproject1/src/main/java/eu/fusepool/p3/accept/util/AcceptPreference.java:62 | a leading `+` keeps the value and a leading `-` negates it |
| QValues.ParseUnsignedParts | mavenproject1/src/main/java/eu/fusepool/p3/accept/util/AcceptPreference.java:62 | `whole.frac` reads as the exact value of the whole digits plus the fraction digits |
| QValues.Truncate | mavenproject1/src/main/java/eu/fusepool/p3/accept/util/AcceptPreference.java:62 | the `(int)` cast truncates toward zero, on both sides of 0 |
| QValues.Quality | mavenproject1/src/main/java/eu/fusepool/p3/accept/util/AcceptPreference.java:62 | `(int) (q * 1000)` lies in the int range and is the truncation of `q * 1000`, or Integer.MAX_VALUE when that is at least as large |
| QValues.QualityMonotonic | mavenproject1/src/main/java/eu/fusepool/p3/accept/util/AcceptPreference.java:62 | a higher `q` never gives a lower quality |
| QValues.QualityInUnitRange | mavenproject1/src/main/java/eu/fusepool/p3/accept/util/AcceptPreference.java:49 | a `q` from 0 to 1 gives a quality from 0 to 1000 |
| QValues.QualityOfShortFraction | mavenproject1/src/main/java/eu/fusepool/p3/accept/util/AcceptPreference.java:62 | a `q` with at most three fraction digits converts to its exact number of thousandths (`.3` is 300), under the exact reading of `q` admitted under Left out |
| HeaderEntries.MakeEntry | mavenproject1/src/main/java/eu/fusepool/p3/accept/util/AcceptPreference.java:51-64 | the entry constructor fails exactly when `q` is present and not a number; an entry's type is the input without `q` and its quality is 1000 without `q`, else `(int) (q * 1000)` |
| HeaderEntries.MakeEntryOfEntry | mavenproject1/src/main/java/eu/fusepool/p3/accept/util/AcceptPreference.java:51-64 | rebuilding an entry from its own type gives that type back with quality 1000 |
| HeaderEntries.DefaultEntry | mavenproject1/src/main/java/eu/fusepool/p3/accept/util/AcceptPreference.java:163 | the entry built from `WILDCARD_TYPE` is `*/*` with quality 1000 |
| HeaderEntries.FirstAccepting | mavenproject1/src/main/java/eu/fusepool/p3/accept/util/AcceptPreference.java:225-229 | the index found is the first entry whose range accepts the type; none is found exactly when no entry accepts it |
| HeaderEntries.LastAccepted | mavenproject1/src/main/java/eu/fusepool/p3/accept/util/AcceptPreference.java:231-237 | the index found is the last entry that the type, read as a range, accepts; none is found exactly when there is no such entry |
| HeaderEntries.AcceptedQualityForward | mavenproject1/src/main/java/eu/fusepool/p3/accept/util/AcceptPreference.java:225-229 | the first entry, in order, that accepts the type gives the accepted quality |
| HeaderEntries.AcceptedQuality | mavenproject1/src/main/java/eu/fusepool/p3/accept/util/AcceptPreference.java:224-240 | the reference for `getAcceptedQuality`: the quality of the first entry that accepts the type, else of the last entry the type accepts, else 0; `AcceptedQualityForward`, `AcceptedQualityReverse` and `AcceptedQualityNone` state the three outcomes |
| HeaderEntries.AcceptedQualityReverse | mavenproject1/src/main/java/eu/fusepool/p3/accept/util/AcceptPreference.java:231-237 | with no entry accepting the type, the last entry the type accepts gives the quality |
| HeaderEntries.AcceptedQualityNone | mavenproject1/src/main/java/eu/fusepool/p3/accept/util/AcceptPreference.java:239 | a type unrelated to every entry in both directions has quality 0 |
| HeaderEntries.AcceptedQualityIsAnEntryQuality | mavenproject1/src/main/java/eu/fusepool/p3/accept/util/AcceptPreference.java:224-240 | the accepted quality is 0 or the quality of one of the entries |
| HeaderEntries.AcceptedQualityWithWildcard | mavenproject1/src/main/java/eu/fusepool/p3/accept/util/AcceptPreference.java:225-229 | with a `*/*` entry the forward pass always finds an entry, at or before it |
| HeaderEntries.FirstSupported | mavenproject1/src/main/java/eu/fusepool/p3/accept/util/AcceptPreference.java:210-214 | the first supported type, in order, that a range accepts; none exactly when it accepts none |
| HeaderEntries.PreferredMatch | mavenproject1/src/main/java/eu/fusepool/p3/accept/util/AcceptPreference.java:207-218 | the pair found is the earliest entry accepting any supported type, with the first supported type it accepts; none exactly when no entry accepts any |
| HeaderEntries.PreferredMatchAt | mavenproject1/src/main/java/eu/fusepool/p3/accept/util/AcceptPreference.java:207-218 | the first matching pair in entry order and then supported order is the one chosen, and its supported type is the answer |
| HeaderEntries.PreferredFromSpec | mavenproject1/src/main/java/eu/fusepool/p3/accept/util/AcceptPreference.java:199-218 | the answer is null exactly when no entry accepts any supported type; otherwise it is a supported type accepted by the earliest entry that accepts any |
| HeaderEntries.PreferredFrom | mavenproject1/src/main/java/eu/fusepool/p3/accept/util/AcceptPreference.java:207-218 | the reference for `getPreferredAccept(Set)`: the supported type of the first matching pair in entry order and then supported order, or null; `PreferredFromSpec` states it by membership and acceptance |
| MimeTypeComparator.CountWildChars | src/main/java/eu/fusepool/p3/accept/util/MimeTypeComparator.java:146-154 | 2 exactly for a `*` primary type, 1 exactly for a `*` subtype under another primary type, else 0 |
| MimeTypeComparator.MatchingRangeHasNoFewerWildcards | src/main/java/eu/fusepool/p3/accept/util/MimeTypeComparator.java:128-154 | a type accepted under a range has no more wildcards than the range |
| MimeTypeComparator.CompareByWildCardCount | src/main/java/eu/fusepool/p3/accept/util/MimeTypeComparator.java:133-144 | -1, 0 or 1 exactly as the first type has fewer, as many or more wildcards |
| MimeTypeComparator.GetQ | src/main/java/eu/fusepool/p3/accept/util/MimeTypeComparator.java:156-163 | 1 without `q`; the value of `q` when it is a number; NumberFormat otherwise |
| MimeTypeComparator.FallBackKeysParse | src/main/java/eu/fusepool/p3/accept/util/MimeTypeComparator.java:44-48 | the table's keys are what `mimeType` makes of `application/xhtml+xml`, `text/html` and `application/rdf+xml` |
| MimeTypeComparator.FallBackQ | src/main/java/eu/fusepool/p3/accept/util/MimeTypeComparator.java:165-171 | 1000, 900 and 800 exactly for the three table keys, 0 exactly for every other type |
| MimeTypeComparator.FallBackCompare | src/main/java/eu/fusepool/p3/accept/util/MimeTypeComparator.java:50-61 | -1, 0 or 1 exactly as the first type's fallback priority is higher, equal or lower |
| MimeTypeComparator.InconsistentCompare | src/main/java/eu/fusepool/p3/accept/util/MimeTypeComparator.java:79-104 | two nulls are 0, null sorts after any type, results lie in -1..1, and the only error is NumberFormat |
| MimeTypeComparator.InconsistentCompareAntisymmetric | src/main/java/eu/fusepool/p3/accept/util/MimeTypeComparator.java:79-104 | swapping the arguments negates the result and keeps a failure a failure |
| MimeTypeComparator.Compare | src/main/java/eu/fusepool/p3/accept/util/MimeTypeComparator.java:106-110 | equal types compare as 0, and the only error is NumberFormat |
| MimeTypeComparator.CompareAsWritten | src/main/java/eu/fusepool/p3/accept/util/MimeTypeComparator.java:106-126 | `compare` as the program runs it, with the fallback table never matching: it agrees with `Compare` whenever the two fallback priorities are equal, and fails exactly when `Compare` does |
| MimeTypeComparator.CompareSign | src/main/java/eu/fusepool/p3/accept/util/MimeTypeComparator.java:106-126 | compare is negative exactly when the first type wins on the first key, in the documented order, on which the two differ |
| MimeTypeComparator.CompareFailure | src/main/java/eu/fusepool/p3/accept/util/MimeTypeComparator.java:106-126 | compare raises exactly for distinct types tied on the bound quality and the wildcard count, one of whose `q` is not a number |
| MimeTypeComparator.CompareAntisymmetric | src/main/java/eu/fusepool/p3/accept/util/MimeTypeComparator.java:106-126 | swapping the arguments negates the result, and a failure stays a failure |
| MimeTypeComparator.PrecedesAsymmetric | src/main/java/eu/fusepool/p3/accept/util/MimeTypeComparator.java:106-126 | the key-by-key reference order is asymmetric |
| MimeTypeComparator.PrecedesTransitive | src/main/java/eu/fusepool/p3/accept/util/MimeTypeComparator.java:106-126 | the reference order is transitive |
| MimeTypeComparator.CompareTransitive | src/main/java/eu/fusepool/p3/accept/util/MimeTypeComparator.java:29-30 | compare below 0 is transitive: the consistency the comparator is documented to guarantee |
| MimeTypeComparator.CompareZero | src/main/java/eu/fusepool/p3/accept/util/MimeTypeComparator.java:106-126 | between types the parser can produce, compare is 0 only for equal types |
| MimeTypeComparator.CompareWithoutQ | src/main/java/eu/fusepool/p3/accept/util/MimeTypeComparator.java:156-163 | types without `q`, such as entry types, always compare without error |
| MimeTypeComparator.BoundRankDecides | src/main/java/eu/fusepool/p3/accept/util/MimeTypeComparator.java:111-118 | under a bound preference a difference in accepted quality decides first, higher first |
| MimeTypeComparator.TypeBeforeCoveringRange | src/main/java/eu/fusepool/p3/accept/util/MimeTypeComparator.java:133-154 | unbound, a type sorts ahead of any range with more wildcards that covers it, whatever their `q` |
| Preferences.Wrap32 | mavenproject1/src/main/java/eu/fusepool/p3/accept/util/AcceptPreference.java:74 | the 32-bit two's complement value: in the int range, congruent modulo 2^32 and unchanged inside the range |
| Preferences.EntryCompare | mavenproject1/src/main/java/eu/fusepool/p3/accept/util/AcceptPreference.java:66-75 | for different qualities the result is negative exactly when the first entry's quality is higher |
| Preferences.EntryCompareAsWritten | mavenproject1/src/main/java/eu/fusepool/p3/accept/util/AcceptPreference.java:66-75 | `compareTo` as written: equal entries give 0, and when the qualities differ and `o.quality - quality` fits in an int the sign is right (higher quality first); outside that range it wraps, as `EntryCompareAsWrittenOverflows` and `EntryCompareAsWrittenMisorders` show |
| Preferences.EntryCompareOrder | mavenproject1/src/main/java/eu/fusepool/p3/accept/util/AcceptPreference.java:66-75 | an entry comes first exactly when its quality is higher, or the qualities tie and its type comes first in the unbound comparator |
| Preferences.EntryCompareAntisymmetric | mavenproject1/src/main/java/eu/fusepool/p3/accept/util/AcceptPreference.java:66-75 | swapping two entries negates their comparison |
| Preferences.EntryCompareZero | mavenproject1/src/main/java/eu/fusepool/p3/accept/util/AcceptPreference.java:68-72 | two entries compare as 0 exactly when they are equal, so the set coalesces only duplicates |
| Preferences.EntryCompareTransitive | mavenproject1/src/main/java/eu/fusepool/p3/accept/util/AcceptPreference.java:66-75 | the entry order is transitive |
| Preferences.EntryCompareAgrees | mavenproject1/src/main/java/eu/fusepool/p3/accept/util/AcceptPreference.java:74 | for qualities from 0 to 1000 the subtraction as written agrees with the intended order |
| Preferences.EntryCompareAsWrittenOverflows | mavenproject1/src/main/java/eu/fusepool/p3/accept/util/AcceptPreference.java:74 | with qualities 0 and Integer.MIN_VALUE, `o.quality - quality` overflows and both orders of comparison are negative |
| Preferences.EntryCompareAsWrittenMisorders | mavenproject1/src/main/java/eu/fusepool/p3/accept/util/AcceptPreference.java:74 | the overflow reaches the set: `text/plain` at -1000 compared against `text/html` at Integer.MAX_VALUE comes out negative, so the TreeSet puts it first, where the intended order puts it after |
| Preferences.SortedQualityDescending | mavenproject1/src/main/java/eu/fusepool/p3/accept/util/AcceptPreference.java:158 | in the sorted set qualities never increase |
| Preferences.SortedDistinct | mavenproject1/src/main/java/eu/fusepool/p3/accept/util/AcceptPreference.java:158 | the sorted set holds no entry twice |
| Preferences.SortedUnique | mavenproject1/src/main/java/eu/fusepool/p3/accept/util/AcceptPreference.java:158 | two sorted sequences with the same elements are equal: the order leaves no choice |
| Preferences.InsertSorted | mavenproject1/src/main/java/eu/fusepool/p3/accept/util/AcceptPreference.java:167 | inserting an entry between a smaller and a larger neighbour keeps the set sorted and adds exactly that entry, which was absent |
| Preferences.EntriesOf | mavenproject1/src/main/java/eu/fusepool/p3/accept/util/AcceptPreference.java:166-170 | one entry string gives nothing exactly when it does not parse, NumberFormat exactly when its `q` is not a number, and otherwise its entry |
| Preferences.CollectMembers | mavenproject1/src/main/java/eu/fusepool/p3/accept/util/AcceptPreference.java:165-171 | the entries collected from several strings are exactly the entries of some string among them |
| Preferences.ParsedEntries | mavenproject1/src/main/java/eu/fusepool/p3/accept/util/AcceptPreference.java:165-171 | building from strings fails only with NumberFormat |
| Preferences.EntrySetDefault | mavenproject1/src/main/java/eu/fusepool/p3/accept/util/AcceptPreference.java:162-163 | a null or empty list gives exactly the entry `*/*` with quality 1000 |
| Preferences.EntrySet | mavenproject1/src/main/java/eu/fusepool/p3/accept/util/AcceptPreference.java:160-173 | the entries `new AcceptPreference(entryStrings)` holds: `*/*` at 1000 for a null or empty list, otherwise the entries of the strings; the only error is NumberFormat |
| Preferences.AllUnparseable | mavenproject1/src/main/java/eu/fusepool/p3/accept/util/AcceptPreference.java:165-171 | when no string parses the set is empty, with no default in its place |
| Preferences.UnparseableSkipped | mavenproject1/src/main/java/eu/fusepool/p3/accept/util/AcceptPreference.java:166-170 | a string that does not parse is skipped: the others give the same entries without it |
| Preferences.HeaderOfPieces | mavenproject1/src/main/java/eu/fusepool/p3/accept/util/AcceptPreference.java:111-122 | a header made of pieces joined by `,` gives the entries of those pieces as a list |
| Preferences.HeaderEntrySet | mavenproject1/src/main/java/eu/fusepool/p3/accept/util/AcceptPreference.java:111-122 | the entries `fromString(header)` holds: NullPointer exactly for null, otherwise those of the list constructor over `split(",")`, whose only error is NumberFormat |
| Preferences.HeaderWithoutComma | mavenproject1/src/main/java/eu/fusepool/p3/accept/util/AcceptPreference.java:117 | a header without `,` is a single entry string |
| Preferences.RequestWithoutHeaders | mavenproject1/src/main/java/eu/fusepool/p3/accept/util/AcceptPreference.java:98-99 | a request without an Accept header gives exactly `*/*` with quality 1000 |
| Preferences.RequestEntrySet | mavenproject1/src/main/java/eu/fusepool/p3/accept/util/AcceptPreference.java:92-103 | the entries `fromRequest` holds: those of `fromString("*/*")` when there is no header, otherwise the union of each header's `fromString` entries, failing when one of them fails; `RequestWithoutHeaders` and `Scenarios.MergedEntrySet` state it on inputs |
| Preferences.AcceptPreference.Empty | mavenproject1/src/main/java/eu/fusepool/p3/accept/util/AcceptPreference.java:161 | a new TreeSet is empty and sorted |
| Preferences.AcceptPreference.Add | mavenproject1/src/main/java/eu/fusepool/p3/accept/util/AcceptPreference.java:167 | `TreeSet.add` keeps the set sorted, adds exactly the entry, and reports whether it was absent |
| Preferences.AcceptPreference.AddAll | mavenproject1/src/main/java/eu/fusepool/p3/accept/util/AcceptPreference.java:152 | `addAll` keeps the set sorted and its elements become the old ones plus the added ones |
| Preferences.AcceptPreference.AddEntryString | mavenproject1/src/main/java/eu/fusepool/p3/accept/util/AcceptPreference.java:166-170 | one pass of the constructor loop: an error exactly when the string's entry fails, otherwise the set gains that string's entries |
| Preferences.AcceptPreference.FromEntryStrings | mavenproject1/src/main/java/eu/fusepool/p3/accept/util/AcceptPreference.java:160-173 | the list constructor fails exactly as its specification does, with the same error, and otherwise yields a new sorted set of exactly the specified entries |
| Preferences.AcceptPreference.FromParsedStrings | mavenproject1/src/main/java/eu/fusepool/p3/accept/util/AcceptPreference.java:165-171 | the constructor loop gives exactly the collected entries, or the first error |
| Preferences.AcceptPreference.FromString | mavenproject1/src/main/java/eu/fusepool/p3/accept/util/AcceptPreference.java:111-122 | null raises NullPointer; otherwise a new sorted set of exactly the entries of the `,`-separated pieces, or their error |
| Preferences.AcceptPreference.FromHeaders | mavenproject1/src/main/java/eu/fusepool/p3/accept/util/AcceptPreference.java:144-156 | an empty collection raises IllegalArgument; otherwise a new sorted set whose entries are exactly the union of the inputs' entries |
| Preferences.UnionOf | mavenproject1/src/main/java/eu/fusepool/p3/accept/util/AcceptPreference.java:144-156 | the entries of a collection of preferences: an entry belongs exactly when some preference of the collection holds it |
| Preferences.AcceptPreference.FromRequest | mavenproject1/src/main/java/eu/fusepool/p3/accept/util/AcceptPreference.java:92-103 | no header gives the set of `*/*`; otherwise the union of every header's entries, or the first error |
| Preferences.AcceptPreference.GetEntries | mavenproject1/src/main/java/eu/fusepool/p3/accept/util/AcceptPreference.java:183-189 | the entries in the set's order, with qualities never increasing |
| Preferences.AcceptPreference.GetPreferredAccept | mavenproject1/src/main/java/eu/fusepool/p3/accept/util/AcceptPreference.java:195-197 | as written: returns the first entry's type and removes that entry; on an empty set raises NullPointer |
| Preferences.AcceptPreference.PeekPreferredAccept | mavenproject1/src/main/java/eu/fusepool/p3/accept/util/AcceptPreference.java:191-197 | as documented: the type of the set's first entry, whose quality is the highest, the set unchanged; NullPointer exactly on an empty set |
| Preferences.AcceptPreference.GetPreferredAcceptFrom | mavenproject1/src/main/java/eu/fusepool/p3/accept/util/AcceptPreference.java:207-218 | the two loops return the preferred supported type of the specification |
| Preferences.AcceptPreference.GetAcceptedQuality | mavenproject1/src/main/java/eu/fusepool/p3/accept/util/AcceptPreference.java:224-240 | the forward loop and the reverse loop over the array return the accepted quality of the specification |
| Scenarios.PointFour | mavenproject1/src/test/java/eu/fusepool/p3/accept/util/MimeComparatorTest.java:41 | `.4` reads as four tenths |
| Scenarios.ComparatorTestOrder | mavenproject1/src/test/java/eu/fusepool/p3/accept/util/MimeComparatorTest.java:35-54 | `image/jpeg` before `image/jpeg;q=.4` before `image/*` |
| Scenarios.FallBackBreaksTie | src/main/java/eu/fusepool/p3/accept/util/MimeTypeComparator.java:89-95 | tied on wildcards and `q`, `text/html` sorts before a type outside the fallback table |
| Scenarios.FallBackIgnoredAsWritten | src/main/java/eu/fusepool/p3/accept/util/MimeTypeComparator.java:89-95 | as written, `text/html` sorts after `application/json` by their string forms, where the table read by value puts it before |
| Scenarios.ImageAndTextSorted | src/test/java/eu/fusepool/p3/accept/util/AcceptPreferenceTest.java:50-56 | the entries of the second quality test, in the order the set keeps them |
| Scenarios.WithAnyTypeSorted | src/test/java/eu/fusepool/p3/accept/util/AcceptPreferenceTest.java:32-39 | the entries of the first quality test, in the order the set keeps them |
| Scenarios.QualitiesWithAnyType | src/test/java/eu/fusepool/p3/accept/util/AcceptPreferenceTest.java:41-45 | accepted qualities 1000, 1000, 300, 300 and 100 |
| Scenarios.QualitiesWithoutAnyType | src/test/java/eu/fusepool/p3/accept/util/AcceptPreferenceTest.java:57-61 | accepted qualities 1000, 1000, 300, 300 and 0 |
| Scenarios.BestFromSupportedTif | src/test/java/eu/fusepool/p3/accept/util/AcceptPreferenceTest.java:111-118 | `image/tif` is chosen |
| Scenarios.BestFromSupportedPng | src/test/java/eu/fusepool/p3/accept/util/AcceptPreferenceTest.java:120-121 | with `image/png` added, `image/png` is chosen |
| Scenarios.BestFromSupportedText | src/test/java/eu/fusepool/p3/accept/util/AcceptPreferenceTest.java:123-125 | `text/hmtl` alone is chosen, under `text/*` |
| Scenarios.RdfFirstSorted | src/test/java/eu/fusepool/p3/accept/util/AcceptPreferenceTest.java:130-142 | the entries of the second selection test, in the order the set keeps them |
| Scenarios.BestFromSupportedRdf | src/test/java/eu/fusepool/p3/accept/util/AcceptPreferenceTest.java:136-143 | `application/rdf+xml` is chosen |
| Scenarios.MergedSorted | src/test/java/eu/fusepool/p3/accept/util/AcceptPreferenceTest.java:160-162 | the five merged entries, in the order the set keeps them |
| Scenarios.BestFromMergedRdf | src/test/java/eu/fusepool/p3/accept/util/AcceptPreferenceTest.java:164-168 | `application/rdf+xml` alone is chosen, under `*/*` |
| Scenarios.BestFromMergedGif | src/test/java/eu/fusepool/p3/accept/util/AcceptPreferenceTest.java:170-171 | with `image/gif` added, it is chosen |
| Scenarios.BestFromMergedCsv | src/test/java/eu/fusepool/p3/accept/util/AcceptPreferenceTest.java:173-174 | with `text/csv` added, it is chosen |
| Scenarios.BestFromMergedHtml | src/test/java/eu/fusepool/p3/accept/util/AcceptPreferenceTest.java:176-177 | with `text/html` added, it is chosen |
| Scenarios.LoneStarSkipped | src/test/java/eu/fusepool/p3/accept/util/AcceptPreferenceTest.java:66-70 | the piece `*; q=.2` does not parse and adds no entry |
| Scenarios.JavaDefaultEntrySet | src/test/java/eu/fusepool/p3/accept/util/AcceptPreferenceTest.java:70 | `fromString` on the Java default header gives exactly `text/html`, `image/gif` and `image/jpeg` at 1000 and `*/*` at 200 |
| Scenarios.JavaDefaultSorted | src/test/java/eu/fusepool/p3/accept/util/AcceptPreferenceTest.java:70 | those entries, in the order the set keeps them |
| Scenarios.JavaDefaultQualities | src/test/java/eu/fusepool/p3/accept/util/AcceptPreferenceTest.java:71-75 | accepted qualities 1000, 1000, 200, 200 and 200 |
| Scenarios.JavaDefault | src/test/java/eu/fusepool/p3/accept/util/AcceptPreferenceTest.java:68-76 | end to end through `FromString` and `GetAcceptedQuality`: 1000, 1000, 200, 200 and 200 |
| Scenarios.QualifiedPiece | mavenproject1/src/main/java/eu/fusepool/p3/accept/util/AcceptPreference.java:51-64 | a piece `type/subtype;q=v` whose `v` is a number is the entry of `type/subtype`, without `q`, at the quality of `v` |
| Scenarios.TenthsQuality | mavenproject1/src/main/java/eu/fusepool/p3/accept/util/AcceptPreference.java:62 | `0.d` converts to d hundred thousandths |
| Scenarios.OneQuality | mavenproject1/src/main/java/eu/fusepool/p3/accept/util/AcceptPreference.java:62 | `1` converts to 1000 |
| Scenarios.TenthsPiece | mavenproject1/src/main/java/eu/fusepool/p3/accept/util/AcceptPreference.java:166-170 | a piece `type/subtype;q=0.d` holds no `,` and gives the entry of `type/subtype` at d hundred |
| Scenarios.OnePiece | mavenproject1/src/main/java/eu/fusepool/p3/accept/util/AcceptPreference.java:166-170 | a piece `type/subtype;q=1` holds no `,` and gives the entry of `type/subtype` at 1000 |
| Scenarios.HeaderOfTwo | mavenproject1/src/main/java/eu/fusepool/p3/accept/util/AcceptPreference.java:111-122 | a header of two `,`-separated pieces holds the entries of both |
| Scenarios.RequestOfThree | mavenproject1/src/main/java/eu/fusepool/p3/accept/util/AcceptPreference.java:92-103 | a request with three Accept header values holds the entries of all three |
| Scenarios.TextAndImageEntries | src/test/java/eu/fusepool/p3/accept/util/AcceptPreferenceTest.java:152 | `text/*;q=0.5,image/*;q=0.3` gives `text/*` at 500 and `image/*` at 300 |
| Scenarios.HtmlAndPngEntries | src/test/java/eu/fusepool/p3/accept/util/AcceptPreferenceTest.java:153 | `text/html;q=1,image/png;q=0.4` gives `text/html` at 1000 and `image/png` at 400 |
| Scenarios.AnyTypeEntries | src/test/java/eu/fusepool/p3/accept/util/AcceptPreferenceTest.java:154 | `*/*;q=0.1` gives `*/*` at 100 |
| Scenarios.MergedEntrySet | src/test/java/eu/fusepool/p3/accept/util/AcceptPreferenceTest.java:147-162 | the three headers of the merging test, through fromRequest, give exactly the five entries `text/*`, `image/*`, `text/html`, `image/png` and `*/*` |
| Scenarios.MergingHeaders | src/test/java/eu/fusepool/p3/accept/util/AcceptPreferenceTest.java:160-162 | end to end through `FromRequest` and `GetEntries`: the five entries, in the order the set keeps them |
| Scenarios.PngAndCsv | src/test/java/eu/fusepool/p3/accept/util/AcceptPreferenceTest.java:81-85 | the set of `image/png;q=.3` and `text/csv;q=.2` holds png first |
| Scenarios.PollTwice | src/test/java/eu/fusepool/p3/accept/util/AcceptPreferenceTest.java:79-88 | as written, the two calls answer `image/png` and then `text/csv` |
| Scenarios.PeekTwice | src/test/java/eu/fusepool/p3/accept/util/AcceptPreferenceTest.java:79-88 | as intended, both calls answer `image/png` |
| Scenarios.PngAndRanges | src/test/java/eu/fusepool/p3/accept/util/AcceptPreferenceTest.java:92-98 | the set of the highest-quality test holds `image/png` first |
| Scenarios.HighestQuality | src/test/java/eu/fusepool/p3/accept/util/AcceptPreferenceTest.java:90-100 | the preferred type is `image/png` |

## Left out

- `fromRequest`'s servlet plumbing: the request's Accept header values are a parameter `seq<string>`, and `HttpServletRequest` and its `Enumeration` are not modelled.
- `Float.parseFloat` and float arithmetic: a `q` value is an exact decimal read as a `real`, and `(int) (q * 1000)` is exact truncation with saturation. Binary float rounding (a `q` such as `0.251`, whose float times 1000 rounds to a float just below 251 and so truncates to 250; among three-digit `q` values from 0 to 1 the same happens to `0.253`, `0.502`, `0.506` and `0.511`, and it is common for large `q` such as `123456.789`, which gives 123456792), exponents, hexadecimal floats, `NaN`, `Infinity` and type suffixes are not modelled; such text is a NumberFormat error in the model.
- QValues.Quality: does not model the float rounding of `q * 1000` described in the previous line.
- QValues.QualityOfShortFraction: the exact number of thousandths holds under the model's exact reading of `q`; in Java's single-precision arithmetic it is one less at `0.251`, `0.253`, `0.502`, `0.506` and `0.511`.
- MimeTypes.Parse: the parameter list is parsed more strictly than by `javax.activation.MimeType`. A trailing `;` (`text/html;`) and an empty parameter name (`text/html;=1`) make the stand-in fail, so the model skips such an entry string where Java keeps it. A repeated parameter name keeps every copy in the model, where the library keeps only the last value; lookups agree, because `MimeUtils.GetParameter` returns the last value, but the string form lists every copy.
- `javax.activation.MimeType` is not part of this model. Its parser is a stand-in (`MimeTypes.Parse`). It splits at the first `/` and the first `;`, trims, lower-cases type, subtype and parameter names, and requires tokens. Quoted parameter values are not modelled.
- Case folding covers ASCII letters only; `String.toLowerCase` and `equalsIgnoreCase` on other characters are not modelled.
- `String.compareTo` compares UTF-16 code units; the model compares Dafny characters, which agree on the Basic Multilingual Plane only.
- Equality of `MimeType`: the model uses structural equality of the parsed type. `javax.activation.MimeType` does not override `equals` or `hashCode`, so in Java the fallback table's `containsKey`, `compare`'s `o1.equals(o2)` and `AcceptHeaderEntry.equals` in `compareTo` all test object identity. The table's keys never leave the class, so in Java every fallback priority is 0 and ties go straight to the string forms: the Java default header orders `image/gif`, `image/jpeg`, `text/html`, and `getPreferredAccept({text/html, image/gif})` on `image/gif, text/html` gives `image/gif`, where the model gives `text/html` (see Findings; `MimeTypeComparator.CompareAsWritten` is the program's comparison). For the two `equals` calls the outcome is the same, because equal types that are distinct objects tie on every key and compare as 0 through their equal string forms, except that two distinct objects with the same unparseable `q` raise NumberFormat in Java where the model answers 0.
- MimeTypeComparator.Compare: reads the fallback table by value, as documented at MimeTypeComparator.java:38-41, not by object identity as the program runs it; the rest of the model (`FallBackBreaksTie`, `JavaDefaultSorted`, the set order) uses this reading.
- Preferences.AcceptPreference: the set is kept in the order of the corrected `EntryCompare`, not of `EntryCompareAsWritten`, which the Java `TreeSet` uses. Where two qualities differ by more than the `int` range (which takes `q` values whose difference exceeds about 2147483, since a quality is `q` times 1000), the program's order is not modelled: `text/html;q=3000000` and `text/plain;q=-1` are held with `text/plain` first in Java, so `getPreferredAccept()` answers `text/plain` there and `text/html` in the model (`EntryCompareAsWrittenMisorders`).
- The parameter list's hash-table order: parameters keep the order they were written in, so `toString` of a type with several parameters may order them differently in Java.
- `HashSet` iteration order in `getPreferredAccept(Set)`: the supported types are a sequence, and the chosen type is specified by membership and acceptance (`PreferredFromSpec`) as well as by the first match in that sequence.
- A comparator bound to a preference reads that preference's entries as a fixed snapshot `seq<Entry>`, not a live object.
- Logging of skipped entry strings, and the `toString` methods used for debugging.
- Scenarios: the Java default header and the merging test are modelled from the header text down. The quality and selection tests start from the entry lists the list constructor produces (`ImageAndTextEntries`, `WithAnyTypeEntries`, `RdfFirstEntries`).

## Findings

| source | as written | input that shows it | evidently intended | confidence | as-written member | corrected member |
|---|---|---|---|---|---|---|
| mavenproject1/src/main/java/eu/fusepool/p3/accept/util/AcceptPreference.java:195-197 | `getPreferredAccept()` returns `entries.pollFirst().mediaType`, which removes the first entry from the set | the set of `image/png;q=.3` and `text/csv;q=.2` (src/test/java/eu/fusepool/p3/accept/util/AcceptPreferenceTest.java:79-88): the first call gives `image/png`, the second `text/csv` | a query returning the highest-quality type and leaving the set alone, as the documentation and the idempotence test expect | not executed | Preferences.AcceptPreference.GetPreferredAccept, Scenarios.PollTwice | Preferences.AcceptPreference.PeekPreferredAccept, Scenarios.PeekTwice |
| mavenproject1/src/main/java/eu/fusepool/p3/accept/util/AcceptPreference.java:74 | `compareTo` returns `o.quality - quality` in int arithmetic | `text/html;q=0` (quality 0) against `text/html;q=-2147484` (quality Integer.MIN_VALUE): the difference overflows and both orders of comparison are negative | a comparison whose sign says which quality is higher, as `Integer.compare(o.quality, quality)` gives | not executed | Preferences.EntryCompareAsWritten, Preferences.EntryCompareAsWrittenOverflows, Preferences.EntryCompareAsWrittenMisorders | Preferences.EntryCompare, Preferences.EntryCompareOrder, Preferences.EntryCompareAgrees |
| src/main/java/eu/fusepool/p3/accept/util/MimeTypeComparator.java:165-171 | `getFallBackQ` looks the type up with `containsKey` in a `HashMap` keyed by `MimeType`, which compares by object identity; the table's own keys never leave the class, so the lookup never matches and every priority is 0 | `text/html` against `application/json`, both without `q`: the tie goes to the string forms and `application/json` comes first | the table's priorities apply to equal types, as the comment at lines 38-41 says, so `text/html` comes first | not executed | MimeTypeComparator.CompareAsWritten, Scenarios.FallBackIgnoredAsWritten | MimeTypeComparator.Compare, MimeTypeComparator.FallBackQ, Scenarios.FallBackBreaksTie |
