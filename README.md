# OMDb console client — a verified model of its core

The client turns a console command such as `buscar batman -t movie -r 2004 2008`
into one or more queries to the OMDb web API. It converts the JSON answers into
a tree of named values (the Composite pattern `MovieData` / `MovieDataLeaf` /
`MovieDataComposite`) and prints that tree with one tab per level. A later bare
number asks for the full details of one earlier result.

The model covers the logic under the I/O:

- `MovieData.dfy`: the tree as the datatype `TreeNode = Leaf | Composite`.
  - It defines indented rendering (`toStringIndented`, `toString`), the
    pre-order `imdbID` lookup (`getId`), and the two `equals` implementations.
  - It has a class `CompositeNode` for a `MovieDataComposite` that
    `addChild` fills in place.
- `RequestParams.dfy` (module `OmdbParams`): the request-parameter object.
  - It is a class with five optional string fields.
  - Each setter, `reset` and the copy constructor is proved against a pure
    transition on a `ParamsState` value.
  - The year getters make a single year and a year range mutually exclusive.
- `Json.dfy`: the Gson values the client reads (null, primitive with its
  printed text, array, object with ordered members). It also covers `get`,
  `toString()` and the quote-stripping `replace("\"", "")`.
- `OmdbClient.dfy`: the client's own logic.
  - `buildQueryString`, with a decoder that reads a query back as its
    reference.
  - `parseSearchResults`, and `buildMovieData`. Both build trees with
    `addChild` in loops.
  - `getById`, and `search` with its year-by-year loop over a copy of the
    parameters.
  - The merge into an insertion-ordered set.
- `StringUtils.dfy`: `isInteger` as Java's `Integer.parseInt` accepts it
  (optional sign, decimal digits, 32-bit range), plus `Integer.toString`.
- `Command.dfy`: `validateInput` and `setParams`.
  - They are written once; the two copies, `src/main/java/main/Main.java` and
    `src/main/java/Main.java`, have the same bodies.
  - `validateInput` is a loop proved against a recursive option grammar.
  - `setParams` is a loop over a `RequestParams` object, proved against a
    recursive scan.
  - Lemmas connect the scan to the parsed options: later options win, the
    title and ID are kept, and no index is read out of range once the
    tokens are validated.

The HTTP round trip together with Gson's text parser is one function
parameter, `fetch: string -> Result<Value, Error>`. The equality the
`LinkedHashSet` uses is another, `dup(existing, new)`. Java exceptions are
`Failure` results (`Error` in `OmdbClient.dfy`).

In three places the design description and the code disagree; the model
follows the code:

- The design names array elements `1`, `2`, `3`, but `buildMovieData` names
  them `""`. This is Finding 1 below. The builder takes the naming as a
  flag: `GetById` uses the as-written naming, and the corrected naming is
  proved beside it.
- The design says two nodes without an ID are never equal, but
  `MovieDataComposite.equals` compares with `==`, so two ID-less composites
  are equal. `Equals` and `IdlessEqualityDiffers` model and state this.
- The design says missing fields never raise, but `parseSearchResults`
  dereferences `get("Title")` and the other fields. The model ends in
  `MissingField`.

A year range whose start is after its end needs no upstream check in the
model: it issues no query. `Search` has no `modifies` clause, so the caller's
parameters are provably left unchanged.

## Model

| member | source | states |
|---|---|---|
| StringUtils.ParseInt | src/main/java/utils/StringUtils.java:15-23 | a string parses exactly when it is an optional `-` or `+` followed by at least one decimal digit and the signed value lies in the 32-bit int range; the result is that signed value |
| StringUtils.IsInteger | src/main/java/utils/StringUtils.java:10-23 | true exactly for an optionally signed decimal numeral whose value fits in an int, so never for an empty string or a lone sign; never an exception |
| StringUtils.NatToString | src/main/java/omdb/OmdbClient.java:45 | the decimal text of a year is never empty |
| StringUtils.NatToStringDigits | src/main/java/omdb/OmdbClient.java:45 | the decimal text is all digits, denotes the number, and has no leading zero |
| StringUtils.ParseIntToString | src/main/java/omdb/OmdbClient.java:40-45 | `Integer.parseInt(Integer.toString(i)) == i` for every int `i` |
| StringUtils.NegativeParses | src/main/java/omdb/OmdbClient.java:40-45 | the negative half of that round trip, down to -2^31 |
| StringUtils.IntToStringIsInteger | src/main/java/utils/StringUtils.java:15-23 | `isInteger` accepts the text of every int |
| StringUtils.OptionWordsAreNotIntegers | src/main/java/main/Main.java:127-134 | `-t`, `-y` and `-r` are not integers, so an option word is never taken as a year argument |
| StringUtils.IsIntegerExamples | src/test/java/maintests/MainTest.java:24-34 | "23" and "2004" are integers; "abc" and "def" are not |
| StringUtils.ParseIntExamples | src/main/java/utils/StringUtils.java:18 | "007" parses as 7 and "+5" as 5, while a lone `-` or `+` does not parse |
| Json.GetFindsFirst | src/main/java/omdb/OmdbClient.java:111-115 | `get(key)` is null exactly when no member has the key; otherwise it is the value of the first member with that key |
| Json.Text | src/main/java/omdb/OmdbClient.java:134 | the printed text of an array or an object is at least two characters long |
| Json.TextDelimiters | src/main/java/omdb/OmdbClient.java:134 | an array prints between `[` and `]`, an object between `{` and `}`; null prints as `null` and a primitive as its own text |
| Json.StripQuotes | src/main/java/omdb/OmdbClient.java:113-115 | a stripped value contains no quote character |
| Json.StripQuotesKeepsOthers | src/main/java/omdb/OmdbClient.java:146 | stripping keeps the count of every other character; a quote-free value is unchanged |
| Json.StripQuotesSnoc | src/main/java/omdb/OmdbClient.java:146 | stripping a string with one more character at the end strips the string and keeps that character unless it is a quote |
| Json.StripQuotesConcat | src/main/java/omdb/OmdbClient.java:146 | stripping a concatenation concatenates the stripped parts, so the kept characters stay in order |
| Json.StripQuotesChar | src/main/java/omdb/OmdbClient.java:146 | a single character is removed exactly when it is a quote |
| Json.StripQuotesIdempotent | src/main/java/omdb/OmdbClient.java:146 | stripping twice equals stripping once |
| MovieData.Tabs | src/main/java/moviedata/MovieDataLeaf.java:18-20 | the prefix is exactly `depth` tabs (none for a negative depth) and holds no newline |
| MovieData.Render | src/main/java/moviedata/MovieData.java:37-46 | every node's rendering is non-empty and ends in a newline |
| MovieData.RenderAll | src/main/java/moviedata/MovieDataComposite.java:28-29 | the children's text is empty exactly when there are no children, and otherwise ends in a newline |
| MovieData.ToString | src/main/java/moviedata/MovieData.java:23-28 | `toString()` is the rendering at depth 0, a non-empty text ending in a newline |
| MovieData.CompositeRenderSplit | src/main/java/moviedata/MovieDataComposite.java:26-30 | a composite renders as its header line `name:` followed by its children, so a childless composite is the header line alone |
| MovieData.LeafDeeper | src/main/java/moviedata/MovieDataLeaf.java:17-23 | a leaf rendered one level deeper is its rendering with one more tab in front |
| MovieData.CompositeDeeper | src/main/java/moviedata/MovieDataComposite.java:26-34 | a composite rendered one level deeper is its rendering with a tab before every line, given the same holds for its children |
| MovieData.RenderAllDeeperIndents | src/main/java/moviedata/MovieDataComposite.java:28-29 | the children rendered one level deeper are their rendering with a tab before every line |
| MovieData.RenderDeeperIndentsEveryLine | src/main/java/moviedata/MovieData.java:37-46 | `toStringIndented(d + 1)` is `toStringIndented(d)` with one tab before every line, for any tree whose names and values are single-line |
| MovieData.RecordIdIsFirstIdLeaf | src/main/java/moviedata/MovieData.java:30-35 | `getId` is the value of the first `imdbID` leaf of the whole subtree in pre-order, and null when there is none |
| MovieData.FirstIdIsFirstIdLeaf | src/main/java/moviedata/MovieDataComposite.java:36-43 | the loop over the children returns the first `imdbID` leaf of all of them in pre-order, or null |
| MovieData.Equals | src/main/java/moviedata/MovieDataLeaf.java:35-41 | false for a non-`MovieData` argument; a leaf is equal exactly when both IDs exist and match; a composite with an ID equals another node with an ID exactly when the ID strings are the same object; a composite without an ID equals exactly the ID-less nodes; a true result from a node with an ID means the same ID |
| MovieData.EqualsSymmetric | src/main/java/moviedata/MovieDataComposite.java:50-54 | between two nodes of the same class, `equals` gives the same answer both ways |
| MovieData.SameRecordEquivalence | src/main/java/moviedata/MovieData.java:48-54 | "same imdb ID" holds of a node and itself exactly when it has an ID, and is symmetric and transitive |
| MovieData.IdlessEqualityDiffers | src/main/java/moviedata/MovieDataComposite.java:50-54 | a leaf without an ID is not equal to itself, while a composite without an ID is |
| MovieData.WithChild | src/main/java/moviedata/MovieDataComposite.java:22-24 | appending keeps the name and the existing children as a prefix, with the new child last and one more child in all |
| MovieData.CompositeNode.constructor | src/main/java/moviedata/MovieDataComposite.java:13-16 | a new composite has the given name and no children |
| MovieData.CompositeNode.AddChild | src/main/java/moviedata/MovieDataComposite.java:22-24 | the object afterwards stands for the old node with `c` appended |
| MovieData.ExampleTree | src/test/java/moviedatatests/MovieDataCompositeTest.java:14-27 | the test tree built with `addChild` has the nested ID "999" |
| MovieData.AddChildRender | src/main/java/moviedata/MovieDataComposite.java:26-34 | adding a child appends exactly that child's rendering one level deeper |
| MovieData.AddChildRecordId | src/main/java/moviedata/MovieDataComposite.java:36-43 | adding a child changes `getId` only when there was no ID yet, and then to the child's ID |
| MovieData.FirstIdAppend | src/main/java/moviedata/MovieDataComposite.java:36-43 | the first ID of a longer child list is the old first ID, or else the new child's |
| OmdbParams.YearOf | src/main/java/omdb/RequestParams.java:69-73 | `getYear` is non-null only when no range is visible, and then it is `startYear` |
| OmdbParams.StartYearOf | src/main/java/omdb/RequestParams.java:75-79 | `getStartYear` is non-null exactly when `getEndYear` is, and then it is `startYear` |
| OmdbParams.EndYearOf | src/main/java/omdb/RequestParams.java:81-85 | `getEndYear` is non-null exactly when both a start and an end year are stored, and then it is `endYear` |
| OmdbParams.YearGettersExclusive | src/main/java/omdb/RequestParams.java:69-85 | `getYear` and `getStartYear` are never both non-null; `getStartYear` and `getEndYear` are null together |
| OmdbParams.WithTitle | src/main/java/omdb/RequestParams.java:28-30 | the title becomes `t`; type, ID and every year getter are unchanged |
| OmdbParams.WithKind | src/main/java/omdb/RequestParams.java:32-34 | the type becomes `t`; title, ID and every year getter are unchanged |
| OmdbParams.WithId | src/main/java/omdb/RequestParams.java:46-48 | the ID becomes `i`; title, type and every year getter are unchanged |
| OmdbParams.WithYear | src/main/java/omdb/RequestParams.java:36-39 | `getYear` becomes `y` and both range getters become null; title, type and ID unchanged |
| OmdbParams.WithYearRange | src/main/java/omdb/RequestParams.java:41-44 | with both bounds the range getters show them and `getYear` is null; a null end makes it a single year; a null start hides every year |
| OmdbParams.CopyOf | src/main/java/omdb/RequestParams.java:20-26 | the copy keeps title, type, ID and a visible range, but never a single year |
| OmdbParams.LaterYearSettingWins | src/main/java/omdb/RequestParams.java:36-44 | a later `setYear` overrides an earlier `setYearRange`, and a later complete range overrides an earlier year |
| OmdbParams.RequestParams.constructor | src/main/java/omdb/RequestParams.java:16-18 | all five fields start null |
| OmdbParams.RequestParams.Copy | src/main/java/omdb/RequestParams.java:20-26 | the new object holds `CopyOf` of the argument's state |
| OmdbParams.RequestParams.SetTitle | src/main/java/omdb/RequestParams.java:28-30 | the new state is `WithTitle` of the old |
| OmdbParams.RequestParams.SetType | src/main/java/omdb/RequestParams.java:32-34 | the new state is `WithKind` of the old |
| OmdbParams.RequestParams.SetYear | src/main/java/omdb/RequestParams.java:36-39 | the new state is `WithYear` of the old |
| OmdbParams.RequestParams.SetYearRange | src/main/java/omdb/RequestParams.java:41-44 | the new state is `WithYearRange` of the old |
| OmdbParams.RequestParams.SetId | src/main/java/omdb/RequestParams.java:46-48 | the new state is `WithId` of the old |
| OmdbParams.RequestParams.Reset | src/main/java/omdb/RequestParams.java:53-59 | every field is null, so every year getter is null |
| OmdbClient.QueryStringBounds | src/main/java/omdb/OmdbClient.java:71-94 | the query starts with `baseUrl?apikey=KEY&` and ends with `&`; with every getter null it is that prefix alone |
| OmdbClient.QueryStringTitleExample | src/test/java/omdbtests/OmdbClientTest.java:21-25 | with the title "batman" and `searchAll`, the query is "BASEURL?apikey=APIKEY&s=batman&" |
| OmdbClient.ReplaceUnderscores | src/main/java/omdb/OmdbClient.java:80 | same length, no `_` left, every `_` becomes `+` and every other character stays |
| OmdbClient.BuildQueryStringRoundTrip | src/main/java/omdb/OmdbClient.java:71-94 | read back after the `baseUrl?apikey=KEY&` prefix, the query carries the title (under `s` or `t` by `searchAll`, `_` as `+`), the ID, the type and the single year, each present exactly when its getter is non-null, for values without `&` |
| OmdbClient.RangeIsNeverSent | src/main/java/omdb/OmdbClient.java:89-90 | parameters holding a range send no `y=` segment |
| OmdbClient.SearchEntry | src/main/java/omdb/OmdbClient.java:107-115 | an element yields an entry exactly when it is an object with Title, Year, Type and imdbID; the entry has the leaves `Año`, `Tipo`, `imdbID` in that order; a non-object fails with `NotAnObject` and a missing Title with its name |
| OmdbClient.SearchEntryMissingFieldOrder | src/main/java/omdb/OmdbClient.java:111-115 | the fields are dereferenced in the order Title, Year, Type, imdbID: with the earlier ones present, a missing Year, Type or imdbID is the error |
| OmdbClient.ReadSearchEntry | src/main/java/omdb/OmdbClient.java:108-115 | the composite filled with `addChild` is `SearchEntry` of the element |
| OmdbClient.SearchEntryContents | src/main/java/omdb/OmdbClient.java:111-115 | an entry is named by the Title's JSON text with its quotes; its `Año` and `Tipo` leaves hold the stripped Year and Type texts, and its ID is the stripped imdbID text |
| OmdbClient.SearchEntryId | src/main/java/omdb/OmdbClient.java:115 | the ID of an entry is the value of its third leaf |
| OmdbClient.Insert | src/main/java/omdb/OmdbClient.java:117 | `add` keeps the set as a prefix, leaves it unchanged exactly when an equal element is present, otherwise appends the element, and keeps it free of equal pairs |
| OmdbClient.AddAll | src/main/java/omdb/OmdbClient.java:49 | `addAll` keeps the set as a prefix and free of equal pairs, adds only given elements, and leaves every given element present or matched by an equal one |
| OmdbClient.Kept | src/main/java/omdb/OmdbClient.java:49 | the elements a set keeps of a sequence, read from the front, are no more than the sequence and all come from it |
| OmdbClient.KeptSnoc | src/main/java/omdb/OmdbClient.java:49 | one more element at the end is kept exactly when nothing the set then holds rejects it |
| OmdbClient.AddAllIsKept | src/main/java/omdb/OmdbClient.java:49 | `addAll` appends to the set exactly the elements `Kept` names, in their order in the argument |
| OmdbClient.AddAllKeepsAll | src/main/java/omdb/OmdbClient.java:37 | when no element equals another, as with fresh objects under identity equality, `addAll` appends all of them in order |
| OmdbClient.Entries | src/main/java/omdb/OmdbClient.java:107-118 | the loop succeeds exactly when every element has the four fields, and yields no more entries than elements, all of them search entries with no equal pair; a non-empty array never gives an empty set |
| OmdbClient.EntryValues | src/main/java/omdb/OmdbClient.java:107-118 | one entry per element of an all-valid array, the `i`-th being the entry of element `i` |
| OmdbClient.EntriesAreAdded | src/main/java/omdb/OmdbClient.java:107-118 | over an all-valid array the loop's set is `addAll` of the elements' entries on an empty set |
| OmdbClient.EntriesAreKept | src/main/java/omdb/OmdbClient.java:107-118 | over an all-valid array the set is `Kept` of the elements' entries from an empty set: array order, first of each equal group |
| OmdbClient.EntriesComeFromArray | src/main/java/omdb/OmdbClient.java:107-118 | every entry in the set is the entry of some element of the array |
| OmdbClient.EntriesKeepAll | src/main/java/omdb/OmdbClient.java:107-118 | when no entry equals another, the set holds one entry per element, the `i`-th being the entry of element `i` |
| OmdbClient.EntriesCoverEveryElement | src/main/java/omdb/OmdbClient.java:107-118 | every element's entry ends up in the set or is matched by an equal one |
| OmdbClient.SearchResults | src/main/java/omdb/OmdbClient.java:96-121 | a non-object answer fails, a missing `Search` gives no results, a non-array `Search` fails the cast, and the results are search entries with no equal pair |
| OmdbClient.SearchResultsAreKept | src/main/java/omdb/OmdbClient.java:96-121 | a `Search` array of valid elements gives `Kept` of their entries from an empty set |
| OmdbClient.SearchResultsKeepAll | src/main/java/omdb/OmdbClient.java:96-121 | when no entry equals another, a `Search` array of valid elements gives one result per element, in array order |
| OmdbClient.ParseSearchResults | src/main/java/omdb/OmdbClient.java:96-121 | the loop's result is `SearchResults` of the answer |
| OmdbClient.NonNull | src/main/java/omdb/OmdbClient.java:128-148 | the members that make children are exactly the non-null ones, in order |
| OmdbClient.Build | src/main/java/omdb/OmdbClient.java:123-151 | a non-object fails with `NotAnObject`; a built tree is a composite named `name` with no more children than members |
| OmdbClient.BuildMembers | src/main/java/omdb/OmdbClient.java:128-148 | the loop over the key set makes at most one child per member |
| OmdbClient.MemberChild | src/main/java/omdb/OmdbClient.java:129-147 | a member makes no child exactly when its value is null; a child it makes is named by its key |
| OmdbClient.BuildElems | src/main/java/omdb/OmdbClient.java:133-135 | the loop over an array makes one composite per element |
| OmdbClient.BuildShape | src/main/java/omdb/OmdbClient.java:123-151 | building succeeds exactly when every nested array element is an object, and yields a composite named `name` |
| OmdbClient.BuildMembersShape | src/main/java/omdb/OmdbClient.java:128-148 | one child per non-null member in key order, each as the member's kind prescribes |
| OmdbClient.MemberChildShape | src/main/java/omdb/OmdbClient.java:129-147 | a null value gives no child; a primitive gives a leaf with quotes stripped; an object or an array gives a composite named by its key |
| OmdbClient.BuildElemsShape | src/main/java/omdb/OmdbClient.java:133-135 | one composite per array element, in order, the `i`-th named by its position |
| OmdbClient.BuildMovieData | src/main/java/omdb/OmdbClient.java:123-151 | the root filled with `addChild` is `Build` of the answer under the given element naming: "" as written, positions from 1 corrected |
| OmdbClient.BuildMember | src/main/java/omdb/OmdbClient.java:129-147 | the child made for one key is `MemberChild` of that member |
| OmdbClient.BuildArrayElements | src/main/java/omdb/OmdbClient.java:132-136 | the composite named by the key receives the elements' trees in order, each under its `ElementName`, or the first element's error |
| OmdbClient.ArrayElementsUnnamedAsWritten | src/main/java/omdb/OmdbClient.java:134 | as written, every array element is built under the name "" |
| OmdbClient.RatingsExampleAsWritten | src/test/java/omdbtests/OmdbClientTest.java:81 | for a `Ratings` array the code names the element "" where the expected text has "1" |
| OmdbClient.ElementNamesCountFromOne | src/test/java/omdbtests/OmdbClientTest.java:81-82 | corrected, the `i`-th element is named by the number `i + 1` |
| OmdbClient.Details | src/main/java/omdb/OmdbClient.java:27-32 | a failed request is the result; a built answer is a composite named "Detalles" |
| OmdbClient.GetById | src/main/java/omdb/OmdbClient.java:27-32 | the result is `Details` of the parameters, built as written with every array element named "" |
| OmdbClient.DetailsShape | src/main/java/omdb/OmdbClient.java:27-32 | the details query carries the title under `t`, never `s`; the result is a composite named "Detalles" whenever the answer can be built |
| OmdbClient.RangeQueries | src/main/java/omdb/OmdbClient.java:44 | a range issues `end - start + 1` queries, or none when the start is after the end |
| OmdbClient.RangeQueriesYears | src/main/java/omdb/OmdbClient.java:44-47 | the `k`-th query is built from the copy with its year set to `start + k` |
| OmdbClient.RangeQueriesPrefix | src/main/java/omdb/OmdbClient.java:44 | the queries up to year `m` are a prefix of the queries of the whole range |
| OmdbClient.RangeQueryCarriesYear | src/main/java/omdb/OmdbClient.java:45-47 | the `k`-th query carries the title under `s`, the ID and the type of the parameters, and the year `start + k` |
| OmdbClient.SearchQueries | src/main/java/omdb/OmdbClient.java:39-58 | without a visible range there is exactly one `searchAll` query; with one, both bounds parse and there is one query per year; an unparsable start fails with its text |
| OmdbClient.JavaIncrement | src/main/java/omdb/OmdbClient.java:44 | `++i` on a Java int adds one below `MAX_VALUE` and wraps to `MIN_VALUE` at it |
| OmdbClient.JavaCounter | src/main/java/omdb/OmdbClient.java:44 | the loop counter is always a 32-bit int |
| OmdbClient.JavaCounterIsYear | src/main/java/omdb/OmdbClient.java:44 | until it reaches `MAX_VALUE` the counter is the start year plus the number of increments |
| OmdbClient.RangeLoopAtMaxIntNeverExits | src/main/java/omdb/OmdbClient.java:44 | the counter never exceeds `MAX_VALUE`, so `i <= endYear` stays true when `endYear` is `MAX_VALUE`: after the last year it wraps to `MIN_VALUE` |
| OmdbClient.MaxIntRangeWrapsAsWritten | src/main/java/omdb/OmdbClient.java:44 | from 2020 the counter reaches `MAX_VALUE` and then `MIN_VALUE` |
| OmdbClient.AddPage | src/main/java/omdb/OmdbClient.java:47-49 | a failed request or parse is the result; otherwise the set grows by `Kept` of the page's results and stays free of equal pairs |
| OmdbClient.Collect | src/main/java/omdb/OmdbClient.java:49 | merged results are search entries with no equal pair |
| OmdbClient.SearchSpec | src/main/java/omdb/OmdbClient.java:34-61 | the results of `search` have no equal pair and each carries an imdb ID |
| OmdbClient.SearchResultsHaveIds | src/main/java/omdb/OmdbClient.java:113-115 | every search entry has an ID |
| OmdbClient.CollectFailurePersists | src/main/java/omdb/OmdbClient.java:44-53 | a failing query ends the whole search with its error |
| OmdbClient.CollectKeepsEarlierResults | src/main/java/omdb/OmdbClient.java:49 | results of earlier years stay, in their order, as a prefix of the final results |
| OmdbClient.CollectCoversEveryPage | src/main/java/omdb/OmdbClient.java:49 | every result of every year is in the final set or matched by an equal one |
| OmdbClient.FetchPage | src/main/java/omdb/OmdbClient.java:47-49 | one request merges its parsed results into the set |
| OmdbClient.SearchYears | src/main/java/omdb/OmdbClient.java:42-53 | the year loop on the copy merges exactly the pages of `RangeQueries` in order |
| OmdbClient.Search | src/main/java/omdb/OmdbClient.java:34-61 | `search` returns `SearchSpec` of the parameters and, having no `modifies` clause, leaves them unchanged |
| Command.IsSearchWord | src/main/java/main/Main.java:119 | "buscar" itself is accepted, and only words of its length are |
| Command.SearchWordExamples | src/main/java/main/Main.java:119 | `equalsIgnoreCase("buscar")` accepts "buscar", "BUSCAR" and "Buſcar" and rejects "busc" and "buscas" |
| Command.ParseFrom | src/main/java/main/Main.java:120-141 | past the end the option list is empty; a parsed list starts at an option word and takes at least two tokens per option |
| Command.ValidCommandAccepts | src/test/java/maintests/MainTest.java:23-26 | the accepted test commands without a year range (`BUSCAR abc`, `23`, `buscar abc -t series`, `buscar 0000000000 -y 2004`) are valid |
| Command.TestYears | src/test/java/maintests/MainTest.java:25-36 | "2004", "2008", "1990" and "1980" parse as those years |
| Command.ValidCommandAcceptsRanges | src/test/java/maintests/MainTest.java:27-28 | `buscar abc -r 2004 2008` and `buscar abc -t movie -r 2004 2008` are valid |
| Command.ValidCommandRejectsExamples | src/test/java/maintests/MainTest.java:30-37 | the rejected test commands without a year (`buscar`, `busc`, the empty command, `buscar abc -t seriesss`) are invalid |
| Command.ValidCommandRejectsYears | src/test/java/maintests/MainTest.java:33-36 | the rejected test commands with a year (`-r abc 1990`, `-r 1980 def`, `-r 2004 1990`, `-y 1980 def`) are invalid |
| Command.ValidCommandRejects | src/main/java/Main.java:105-108 | for integer `a` and `b`: `-r a b` with `a` above `b` is rejected, so are `-r` with a non-integer bound and a stray token after `-y a` |
| Command.ValidateInput | src/main/java/main/Main.java:113-142 | the loop returns true exactly when the tokens form a valid command: one integer token, or `buscar` (any case), a title, and `-t`/`-y`/`-r` options with valid arguments |
| Command.ApplyToken | src/main/java/main/Main.java:155-166 | one token never changes the title or the ID, and a token that is not an option word changes nothing |
| Command.ScanFrom | src/main/java/main/Main.java:154-167 | the scan never changes the title or the ID, and a tail without option words changes nothing |
| Command.SetParams | src/main/java/main/Main.java:151-168 | the title becomes `tokens[1]`, then each option token from index 2 applies its setter in token order |
| Command.ApplyOptsAppend | src/main/java/main/Main.java:154-167 | options apply left to right: applying a concatenation applies the first part, then the second |
| Command.ArgumentsAreNotOptionWords | src/main/java/Main.java:97-109 | a valid type or an integer argument is never itself an option word |
| Command.ValidatedArgsInRange | src/main/java/Main.java:118-136 | on validated tokens every option's arguments lie inside the array |
| Command.ScanAppliesOptions | src/main/java/main/Main.java:154-167 | the scan over the tokens applies exactly the options the grammar parsed, in order |
| Command.SetParamsFollowsOptions | src/main/java/Main.java:118-136 | on validated tokens `setParams` sets the title and applies the parsed options in order |
| Command.OptionsKeepTitleAndId | src/main/java/main/Main.java:154-167 | options never change the title or the ID |
| Command.LastYearOptionWins | src/main/java/main/Main.java:159-164 | the last `-y` or `-r` decides the year getters, whatever type options follow |
| Command.TypeOptionsKeepYears | src/main/java/main/Main.java:156-158 | `-t` options leave the year getters as they were |
| Command.SetParamsExample | src/test/java/maintests/MainTest.java:87-93 | `-r 2004 2008 -y 1998` leaves the single year 1998 and no range |

## Left out

- HTTP: `makeGetRequest`, `HttpClient` and `new URI(...)` are the `fetch` parameter. A bad URI or an I/O failure is its `RequestFailed` result.
- Gson's text parser and printer: answers arrive as `Json.Value`, and `Text` is a compact printer. Gson's exact escaping of string contents is not modelled.
- Json.Get: with duplicate keys it returns the first member, while Gson's `JsonObject` keeps the last value; OMDb answers have no duplicate keys.
- URL encoding: titles are sent with only `_` turned into `+`, as the code does. The round-trip lemmas assume values without `&`, because a value containing `&` cannot be read back.
- Object identity: neither node class overrides `hashCode`, so the `LinkedHashSet` deduplicates by identity. Its equality is the abstract `dup` relation; the model does not claim deduplication by imdb ID.
- MovieData.Equals: the composite's `==` on ID strings is the `sameIdObject` flag, because string identity is not a value.
- Aliasing: a child mutated after it was added to a composite is not captured. `CompositeNode` holds its children as values.
- The interactive `main` loop and `printMenu` are not modelled, in both Main files. This covers the console, `Scanner`, `menu.txt`, `split("\\s+")`, the lookup of an earlier result by number, and `printStackTrace`.
- The two `Main` files are modelled once, because their `validateInput` and `setParams` bodies are identical.
- StringUtils.ParseInt: accepts ASCII digits only. Java's `Integer.parseInt` also accepts other Unicode decimal digits.
- Command.IsSearchWord: models Java's case-insensitive comparison only for the word `buscar` (ASCII case and the long s `ſ`).

## Findings

| source | as written | input that shows it | evidently intended | confidence | as-written member | corrected member |
|---|---|---|---|---|---|---|
| src/main/java/omdb/OmdbClient.java:134 | every array element is built under the name "", so it prints as an empty `:` header | a details answer with `"Ratings":[{...},{...},{...}]` | elements named "1", "2", "3", as the expected text at src/test/java/omdbtests/OmdbClientTest.java:81 shows | not executed | OmdbClient.ArrayElementsUnnamedAsWritten | OmdbClient.ElementNamesCountFromOne |
| src/main/java/omdb/OmdbClient.java:44 | the `int` counter of the year loop wraps from `MAX_VALUE` to `MIN_VALUE`, so `i <= endYear` never fails when `endYear` is `MAX_VALUE` | the command `buscar x -r 2020 2147483647` | the loop stops after the end year | not executed | OmdbClient.RangeLoopAtMaxIntNeverExits | OmdbClient.SearchYears |
