/**
 * `OmdbClient`: the query string sent to the OMDb API, the conversion of its
 * JSON answers into movie-data trees, and the two public operations `getById`
 * and `search`. The HTTP round trip and the JSON text parser are one function
 * parameter, `fetch`, from a query string to a parsed value or an error.
 */
module OmdbClient {
  import opened Wrappers
  import opened StringUtils
  import opened MovieData
  import opened OmdbParams
  import opened Json

  /** The client's two final fields. */
  datatype Client = Client(baseUrl: string, apiKey: string)

  /** The exceptions the core can end in. */
  datatype Error =
    | RequestFailed            // a bad URI, an I/O error or an interrupted request
    | MalformedJson            // the response body is not JSON text
    | NotAnObject              // `getAsJsonObject()` on a value that is not an object
    | SearchNotArray           // the cast of the "Search" member to `JsonArray` fails
    | MissingField(field: string)  // `get(field)` is null and is then dereferenced
    | NumberFormat(text: string)   // `Integer.parseInt` rejects a stored year

  // =====================================================================
  // buildQueryString
  // =====================================================================

  /** `baseUrl?apikey=KEY&`, the start of every query. */
  function Prefix(c: Client): string
  {
    c.baseUrl + "?apikey=" + c.apiKey + "&"
  }

  /** One `key=value&` segment; nothing when the value is null. */
  function Segment(key: string, value: Option<string>): string
  {
    if value.None? then "" else key + "=" + value.value + "&"
  }

  /** `replace('_', '+')`: each underscore becomes a plus sign, every other character stays. */
  function ReplaceUnderscores(s: string): (r: string)
    ensures |r| == |s| && '_' !in r
    ensures forall i :: 0 <= i < |s| ==> r[i] == (if s[i] == '_' then '+' else s[i])
  {
    if s == [] then ""
    else [if s[0] == '_' then '+' else s[0]] + ReplaceUnderscores(s[1..])
  }

  /** The title goes under `s` (list search) or `t` (single title). */
  function TitleKey(searchAll: bool): string
  {
    if searchAll then "s" else "t"
  }

  /** The title as sent, underscores turned into plus signs. */
  function SentTitle(p: ParamsState): Option<string>
  {
    if p.title.None? then None else Some(ReplaceUnderscores(p.title.value))
  }

  /**
   * `buildQueryString(params, searchAll)`: the prefix, then title, ID, type
   * and year in that order, each only when its getter is non-null.
   */
  function BuildQueryString(c: Client, p: ParamsState, searchAll: bool): string
  {
    Prefix(c) + Segment(TitleKey(searchAll), SentTitle(p)) + Segment("i", p.id)
      + Segment("type", p.kind) + Segment("y", YearOf(p))
  }

  /** Every query starts with the prefix and ends with `&`; with every getter null it is the prefix alone. */
  lemma QueryStringBounds(c: Client, p: ParamsState, searchAll: bool)
    ensures Prefix(c) <= BuildQueryString(c, p, searchAll)
    ensures BuildQueryString(c, p, searchAll)[|BuildQueryString(c, p, searchAll)| - 1] == '&'
    ensures SentTitle(p).None? && p.id.None? && p.kind.None? && YearOf(p).None?
      ==> BuildQueryString(c, p, searchAll) == Prefix(c)
  {
  }

  // ---------------------------------------------------------------------
  // Reading a query string back: the reference for what it carries
  // ---------------------------------------------------------------------

  /** The parameters a query carries, by query key. */
  datatype QueryView = QueryView(
    s: Option<string>, t: Option<string>, i: Option<string>, kind: Option<string>, y: Option<string>)

  const NoParams: QueryView := QueryView(None, None, None, None, None)

  /** What a query built from `p` ought to carry: the title under its key, the ID, the type and the single year. */
  function Carried(p: ParamsState, searchAll: bool): QueryView
  {
    var title := SentTitle(p);
    QueryView(if searchAll then title else None, if searchAll then None else title, p.id, p.kind, YearOf(p))
  }

  /** The position of the first `c` in `s`. */
  function IndexOf(s: string, c: char): (r: Option<nat>)
    ensures r.Some? ==> r.value < |s| && s[r.value] == c && c !in s[..r.value]
    ensures r.None? ==> c !in s
  {
    if s == [] then None
    else if s[0] == c then Some(0)
    else
      var r := IndexOf(s[1..], c);
      if r.None? then None
      else
        assert s[..r.value + 1] == [s[0]] + s[1..][..r.value];
        Some(r.value + 1)
  }

  lemma IndexOfFirst(a: string, c: char, b: string)
    requires c !in a
    ensures IndexOf(a + [c] + b, c) == Some(|a|)
  {
    var s := a + [c] + b;
    assert s[|a|] == c;
    assert s[..|a|] == a;
  }

  /** Records `key=value` in the view; an unknown key makes the query unreadable. */
  function Assign(v: QueryView, key: string, value: string): Option<QueryView>
  {
    if key == "s" then Some(v.(s := Some(value)))
    else if key == "t" then Some(v.(t := Some(value)))
    else if key == "i" then Some(v.(i := Some(value)))
    else if key == "type" then Some(v.(kind := Some(value)))
    else if key == "y" then Some(v.(y := Some(value)))
    else None
  }

  /** Reads `key=value&` segments up to the end of the string. */
  function DecodeSegments(rest: string, v: QueryView): Option<QueryView>
    decreases |rest|
  {
    if rest == [] then Some(v)
    else
      var amp := IndexOf(rest, '&');
      if amp.None? then None
      else
        var seg := rest[..amp.value];
        var eq := IndexOf(seg, '=');
        if eq.None? then None
        else
          var v' := Assign(v, seg[..eq.value], seg[eq.value + 1..]);
          if v'.None? then None else DecodeSegments(rest[amp.value + 1..], v'.value)
  }

  /** Reads a query string of client `c`. */
  function DecodeQuery(c: Client, q: string): Option<QueryView>
  {
    if Prefix(c) <= q then DecodeSegments(q[|Prefix(c)|..], NoParams) else None
  }

  predicate KnownKey(key: string)
  {
    key == "s" || key == "t" || key == "i" || key == "type" || key == "y"
  }

  /** Records an optional value; null leaves the view as it is. */
  function Put(v: QueryView, key: string, value: Option<string>): QueryView
    requires KnownKey(key)
  {
    if value.None? then v else Assign(v, key, value.value).value
  }

  lemma DecodeSegmentStep(key: string, value: Option<string>, rest: string, v: QueryView)
    requires KnownKey(key)
    requires value.Some? ==> '&' !in value.value
    ensures DecodeSegments(Segment(key, value) + rest, v) == DecodeSegments(rest, Put(v, key, value))
  {
    if value.Some? {
      var val := value.value;
      var s := Segment(key, value) + rest;
      assert '=' !in key && '&' !in key;
      assert s == (key + "=" + val) + ['&'] + rest;
      IndexOfFirst(key + "=" + val, '&', rest);
      var seg := s[..|key + "=" + val|];
      assert seg == key + ['='] + val;
      IndexOfFirst(key, '=', val);
      assert seg[..|key|] == key;
      assert seg[|key| + 1..] == val;
      assert s[|key + "=" + val| + 1..] == rest;
    } else {
      assert Segment(key, value) + rest == rest;
    }
  }

  /**
   * Round trip: reading back the query `buildQueryString` writes gives the
   * title (under `s` or `t`), the ID, the type and the single year that the
   * getters show, and nothing else; a year range is never sent. Values must
   * not contain `&`, which the client does not encode.
   */
  lemma BuildQueryStringRoundTrip(c: Client, p: ParamsState, searchAll: bool)
    requires p.title.Some? ==> '&' !in p.title.value
    requires p.id.Some? ==> '&' !in p.id.value
    requires p.kind.Some? ==> '&' !in p.kind.value
    requires p.startYear.Some? ==> '&' !in p.startYear.value
    ensures DecodeQuery(c, BuildQueryString(c, p, searchAll)) == Some(Carried(p, searchAll))
  {
    var s1 := Segment(TitleKey(searchAll), SentTitle(p));
    var s2 := Segment("i", p.id);
    var s3 := Segment("type", p.kind);
    var s4 := Segment("y", YearOf(p));
    var rest := s1 + (s2 + (s3 + (s4 + "")));
    QueryAfterPrefix(Prefix(c), s1, s2, s3, s4);
    assert SentTitle(p).Some? ==> '&' !in SentTitle(p).value;
    var v1 := Put(NoParams, TitleKey(searchAll), SentTitle(p));
    var v2 := Put(v1, "i", p.id);
    var v3 := Put(v2, "type", p.kind);
    DecodeSegmentStep(TitleKey(searchAll), SentTitle(p), s2 + (s3 + (s4 + "")), NoParams);
    DecodeSegmentStep("i", p.id, s3 + (s4 + ""), v1);
    DecodeSegmentStep("type", p.kind, s4 + "", v2);
    DecodeSegmentStep("y", YearOf(p), "", v3);
    PutsGiveCarried(p, searchAll);
  }

  lemma QueryAfterPrefix(pre: string, s1: string, s2: string, s3: string, s4: string)
    ensures pre <= pre + s1 + s2 + s3 + s4
    ensures (pre + s1 + s2 + s3 + s4)[|pre|..] == s1 + (s2 + (s3 + (s4 + "")))
  {
    assert pre + s1 + s2 + s3 + s4 == pre + (s1 + (s2 + (s3 + (s4 + ""))));
  }

  lemma PutsGiveCarried(p: ParamsState, searchAll: bool)
    ensures Put(Put(Put(Put(NoParams, TitleKey(searchAll), SentTitle(p)), "i", p.id), "type", p.kind), "y", YearOf(p))
      == Carried(p, searchAll)
  {
  }

  /** While a year range is stored, the query carries no year at all. */
  lemma RangeIsNeverSent(c: Client, p: ParamsState, searchAll: bool)
    requires EndYearOf(p).Some?
    ensures BuildQueryString(c, p, searchAll)
      == Prefix(c) + Segment(TitleKey(searchAll), SentTitle(p)) + Segment("i", p.id) + Segment("type", p.kind)
  {
    assert Segment("y", YearOf(p)) == "";
  }

  /** The client and the title "batman" of the unit test of `buildQueryString`. */
  const TestClient: Client := Client("BASEURL", "APIKEY")
  const Batman: ParamsState := WithTitle(Cleared, Some("batman"))

  lemma TestPrefix()
    ensures Prefix(TestClient) == "BASEURL?apikey=APIKEY&"
  {
  }

  lemma TestTitleSegment()
    ensures BuildQueryString(TestClient, Batman, true) == Prefix(TestClient) + "s=batman&"
  {
    assert ReplaceUnderscores("batman") == "batman";
  }

  /** The first query of the unit test of `buildQueryString`: a title alone, sent under `s`. */
  lemma QueryStringTitleExample()
    ensures BuildQueryString(TestClient, Batman, true) == "BASEURL?apikey=APIKEY&s=batman&"
  {
    TestTitleSegment();
    TestPrefix();
  }

  // =====================================================================
  // parseSearchResults
  // =====================================================================

  /** The four members a search result is read from. */
  predicate HasEntryFields(e: Value)
  {
    && e.Obj?
    && Get(e.members, "Title").Some? && Get(e.members, "Year").Some?
    && Get(e.members, "Type").Some? && Get(e.members, IdField).Some?
  }

  /**
   * One element of the "Search" array: a composite named by the printed
   * title (quotes kept), with the year, type and ID as leaves (quotes
   * removed). The fields are read in the order Title, Year, Type, imdbID; the
   * first one missing ends the parse.
   */
  function SearchEntry(e: Value): (r: Result<TreeNode, Error>)
    ensures r.Success? <==> HasEntryFields(e)
    ensures r.Success? ==> IsSearchEntry(r.value)
    ensures !e.Obj? ==> r == Failure(NotAnObject)
    ensures e.Obj? && Get(e.members, "Title").None? ==> r == Failure(MissingField("Title"))
  {
    if !e.Obj? then Failure(NotAnObject)
    else
      var title := Get(e.members, "Title");
      var year := Get(e.members, "Year");
      var kind := Get(e.members, "Type");
      var id := Get(e.members, IdField);
      if title.None? then Failure(MissingField("Title"))
      else if year.None? then Failure(MissingField("Year"))
      else if kind.None? then Failure(MissingField("Type"))
      else if id.None? then Failure(MissingField(IdField))
      else
        Success(Composite(Text(title.value), [
          Leaf("Año", StripQuotes(Text(year.value))),
          Leaf("Tipo", StripQuotes(Text(kind.value))),
          Leaf(IdField, StripQuotes(Text(id.value)))]))
  }

  /** The fields are checked in the order Title, Year, Type, imdbID: the error names the first one missing. */
  lemma SearchEntryMissingFieldOrder(e: Value)
    requires e.Obj?
    ensures Get(e.members, "Title").Some? && Get(e.members, "Year").None?
      ==> SearchEntry(e) == Failure(MissingField("Year"))
    ensures Get(e.members, "Title").Some? && Get(e.members, "Year").Some? && Get(e.members, "Type").None?
      ==> SearchEntry(e) == Failure(MissingField("Type"))
    ensures Get(e.members, "Title").Some? && Get(e.members, "Year").Some?
      && Get(e.members, "Type").Some? && Get(e.members, IdField).None?
      ==> SearchEntry(e) == Failure(MissingField(IdField))
  {
  }

  /** The loop body of `parseSearchResults`: a composite named by the title, filled with `addChild`. */
  method ReadSearchEntry(e: Value) returns (r: Result<TreeNode, Error>)
    ensures r == SearchEntry(e)
  {
    if !e.Obj? {
      return Failure(NotAnObject);
    }
    var title := Get(e.members, "Title");
    if title.None? {
      return Failure(MissingField("Title"));
    }
    var movie := new CompositeNode(Text(title.value));
    var year := Get(e.members, "Year");
    if year.None? {
      return Failure(MissingField("Year"));
    }
    movie.AddChild(Leaf("Año", StripQuotes(Text(year.value))));
    var kind := Get(e.members, "Type");
    if kind.None? {
      return Failure(MissingField("Type"));
    }
    movie.AddChild(Leaf("Tipo", StripQuotes(Text(kind.value))));
    var id := Get(e.members, IdField);
    if id.None? {
      return Failure(MissingField(IdField));
    }
    movie.AddChild(Leaf(IdField, StripQuotes(Text(id.value))));
    assert movie.children == [Leaf("Año", StripQuotes(Text(year.value))),
      Leaf("Tipo", StripQuotes(Text(kind.value))), Leaf(IdField, StripQuotes(Text(id.value)))];
    return Success(movie.Node());
  }

  /**
   * A search result is named by the printed title, its year and type
   * leaves hold the printed Year and Type without quotes, and its `getId()`
   * is the printed imdbID without quotes: the ID `getById` is later asked for.
   */
  lemma SearchEntryContents(e: Value)
    requires HasEntryFields(e)
    ensures SearchEntry(e).value.name == Text(Get(e.members, "Title").value)
    ensures SearchEntry(e).value.children[0].value == StripQuotes(Text(Get(e.members, "Year").value))
    ensures SearchEntry(e).value.children[1].value == StripQuotes(Text(Get(e.members, "Type").value))
    ensures RecordId(SearchEntry(e).value) == Some(StripQuotes(Text(Get(e.members, IdField).value)))
  {
    SearchEntryId(SearchEntry(e).value);
  }

  /** The shape of a search result: a composite with exactly the leaves Año, Tipo and imdbID. */
  predicate IsSearchEntry(m: TreeNode)
  {
    && m.Composite? && |m.children| == 3
    && m.children[0].Leaf? && m.children[0].name == "Año"
    && m.children[1].Leaf? && m.children[1].name == "Tipo"
    && m.children[2].Leaf? && m.children[2].name == IdField
  }

  /** A search result always carries an ID: the value of its third leaf. */
  lemma SearchEntryId(m: TreeNode)
    requires IsSearchEntry(m)
    ensures RecordId(m) == Some(m.children[2].value)
  {
    var cs := m.children;
    assert |"Año"| != |IdField| && |"Tipo"| != |IdField|;
    assert RecordId(cs[0]) == None && RecordId(cs[1]) == None;
    assert cs[2..][0] == cs[2] && cs[2..][1..] == [];
    assert FirstId(cs[2..]) == Some(cs[2].value);
    assert cs[1..][0] == cs[1] && cs[1..][1..] == cs[2..];
    assert FirstId(cs[1..]) == FirstId(cs[2..]);
    assert cs[0] in cs;
  }

  // ---------------------------------------------------------------------
  // The linked hash set
  // ---------------------------------------------------------------------

  /**
   * `dup(y, x)` says that the set, already holding `y`, rejects `x`: same
   * hash code and `x.equals(y)`. The tree classes do not override
   * `hashCode`, so it rests on object identity and is a parameter here.
   */
  predicate Known(acc: seq<TreeNode>, x: TreeNode, dup: (TreeNode, TreeNode) -> bool)
  {
    exists y :: y in acc && dup(y, x)
  }

  /** No element rejects a later one: what a linked hash set holds. */
  predicate DupFree(s: seq<TreeNode>, dup: (TreeNode, TreeNode) -> bool)
  {
    forall i, j :: 0 <= i < j < |s| ==> !dup(s[i], s[j])
  }

  /** `add(x)`: appended unless a member rejects it; iteration order is insertion order. */
  function Insert(acc: seq<TreeNode>, x: TreeNode, dup: (TreeNode, TreeNode) -> bool): (r: seq<TreeNode>)
    ensures acc <= r && |r| <= |acc| + 1
    ensures r == acc <==> Known(acc, x, dup)
    ensures x in r || Known(acc, x, dup)
    ensures DupFree(acc, dup) ==> DupFree(r, dup)
  {
    if Known(acc, x, dup) then acc
    else
      var r := acc + [x];
      assert forall i :: 0 <= i < |acc| ==> r[i] == acc[i] && r[i] in acc;
      r
  }

  /** `addAll(xs)`: `add` on each element of `xs`, in order. */
  function AddAll(acc: seq<TreeNode>, xs: seq<TreeNode>, dup: (TreeNode, TreeNode) -> bool): (r: seq<TreeNode>)
    ensures acc <= r
    ensures DupFree(acc, dup) ==> DupFree(r, dup)
    ensures forall y :: y in r ==> y in acc || y in xs
    ensures forall x :: x in xs ==> Covered(r, x, dup)
  {
    if xs == [] then acc
    else
      var init := xs[..|xs| - 1];
      var last := xs[|xs| - 1];
      var mid := AddAll(acc, init, dup);
      var r := Insert(mid, last, dup);
      assert xs == init + [last];
      forall x | x in init
        ensures Covered(r, x, dup)
      {
        CoveredGrows(mid, r, x, dup);
      }
      r
  }

  /** With a relation that never rejects (distinct objects, distinct hash codes) the set keeps every element: `addAll` appends. */
  lemma {:induction false} AddAllKeepsAll(acc: seq<TreeNode>, xs: seq<TreeNode>, dup: (TreeNode, TreeNode) -> bool)
    requires forall a, b :: !dup(a, b)
    ensures AddAll(acc, xs, dup) == acc + xs
  {
    if xs != [] {
      var init := xs[..|xs| - 1];
      AddAllKeepsAll(acc, init, dup);
      assert xs == init + [xs[|xs| - 1]];
      assert !Known(AddAll(acc, init, dup), xs[|xs| - 1], dup);
    }
  }

  /**
   * The elements of `xs` that a set already holding `seen` keeps, read from
   * the front: each is kept unless an element already there, or one kept
   * before it, rejects it. A forward statement of `addAll`, independent of it.
   */
  function Kept(seen: seq<TreeNode>, xs: seq<TreeNode>, dup: (TreeNode, TreeNode) -> bool): (r: seq<TreeNode>)
    ensures |r| <= |xs|
    ensures forall y :: y in r ==> y in xs
    decreases |xs|
  {
    if xs == [] then []
    else if Known(seen, xs[0], dup) then Kept(seen, xs[1..], dup)
    else [xs[0]] + Kept(seen + [xs[0]], xs[1..], dup)
  }

  /** Keeping from `xs + [x]` keeps from `xs`, then `x` unless what the set then holds rejects it. */
  lemma {:induction false} KeptSnoc(seen: seq<TreeNode>, xs: seq<TreeNode>, x: TreeNode, dup: (TreeNode, TreeNode) -> bool)
    ensures Kept(seen, xs + [x], dup)
      == Kept(seen, xs, dup) + (if Known(seen + Kept(seen, xs, dup), x, dup) then [] else [x])
    decreases |xs|
  {
    if xs == [] {
      assert xs + [x] == [x] && [x][1..] == [];
      assert seen + [] == seen;
    } else {
      var h, t := xs[0], xs[1..];
      assert (xs + [x])[0] == h && (xs + [x])[1..] == t + [x];
      if Known(seen, h, dup) {
        KeptSnoc(seen, t, x, dup);
      } else {
        KeptSnoc(seen + [h], t, x, dup);
        assert seen + Kept(seen, xs, dup) == (seen + [h]) + Kept(seen + [h], t, dup);
      }
    }
  }

  /** `addAll` appends to what the set held exactly the elements `Kept` names, in their order in `xs`. */
  lemma {:induction false} AddAllIsKept(acc: seq<TreeNode>, xs: seq<TreeNode>, dup: (TreeNode, TreeNode) -> bool)
    ensures AddAll(acc, xs, dup) == acc + Kept(acc, xs, dup)
  {
    if xs == [] {
      assert acc + [] == acc;
    } else {
      var init := xs[..|xs| - 1];
      var last := xs[|xs| - 1];
      assert xs == init + [last];
      AddAllIsKept(acc, init, dup);
      KeptSnoc(acc, init, last, dup);
      assert (acc + Kept(acc, init, dup)) + [last] == acc + (Kept(acc, init, dup) + [last]);
    }
  }

  /** `x` is in `r`, or `r` holds an element that rejects it. */
  predicate Covered(r: seq<TreeNode>, x: TreeNode, dup: (TreeNode, TreeNode) -> bool)
  {
    x in r || Known(r, x, dup)
  }

  /** The elements of a "Search" array, each turned into a result and added to a fresh set. */
  function Entries(es: seq<Value>, dup: (TreeNode, TreeNode) -> bool): (r: Result<seq<TreeNode>, Error>)
    ensures r.Success? <==> forall i :: 0 <= i < |es| ==> HasEntryFields(es[i])
    ensures r.Success? ==> DupFree(r.value, dup) && |r.value| <= |es|
    ensures r.Success? && es != [] ==> r.value != []
    ensures r.Success? ==> forall m :: m in r.value ==> IsSearchEntry(m)
  {
    if es == [] then Success([])
    else
      var init := es[..|es| - 1];
      var prev := Entries(init, dup);
      assert forall i :: 0 <= i < |init| ==> init[i] == es[i];
      if prev.Failure? then Failure(prev.error)
      else
        var m := SearchEntry(es[|es| - 1]);
        if m.Failure? then Failure(m.error)
        else Success(Insert(prev.value, m.value, dup))
  }

  /** Every element of the array ends up in the set, or is rejected by an equal element already there. */
  lemma {:induction false} EntriesCoverEveryElement(es: seq<Value>, dup: (TreeNode, TreeNode) -> bool)
    requires Entries(es, dup).Success?
    ensures forall i :: 0 <= i < |es| ==> Covered(Entries(es, dup).value, SearchEntry(es[i]).value, dup)
  {
    if es != [] {
      var init := es[..|es| - 1];
      EntriesStep(es, dup);
      EntriesCoverEveryElement(init, dup);
      var prev := Entries(init, dup).value;
      var x := SearchEntry(es[|es| - 1]).value;
      forall i | 0 <= i < |es|
        ensures Covered(Insert(prev, x, dup), SearchEntry(es[i]).value, dup)
      {
        if i < |init| {
          assert init[i] == es[i];
        }
        InsertCovers(prev, x, SearchEntry(es[i]).value, dup);
      }
    }
  }

  /** The set after one more entry is the set before with that entry inserted. */
  lemma EntriesStep(es: seq<Value>, dup: (TreeNode, TreeNode) -> bool)
    requires es != [] && Entries(es, dup).Success?
    ensures Entries(es[..|es| - 1], dup).Success? && SearchEntry(es[|es| - 1]).Success?
    ensures Entries(es, dup).value
      == Insert(Entries(es[..|es| - 1], dup).value, SearchEntry(es[|es| - 1]).value, dup)
  {
  }

  /** Inserting covers the inserted node and keeps every node covered that was. */
  lemma InsertCovers(acc: seq<TreeNode>, x: TreeNode, y: TreeNode, dup: (TreeNode, TreeNode) -> bool)
    ensures Covered(Insert(acc, x, dup), x, dup)
    ensures Covered(acc, y, dup) ==> Covered(Insert(acc, x, dup), y, dup)
  {
    var r := Insert(acc, x, dup);
    if Covered(acc, y, dup) {
      CoveredGrows(acc, r, y, dup);
    }
    if x !in r {
      CoveredGrows(acc, r, x, dup);
    }
  }

  lemma CoveredGrows(s: seq<TreeNode>, t: seq<TreeNode>, x: TreeNode, dup: (TreeNode, TreeNode) -> bool)
    requires s <= t && Covered(s, x, dup)
    ensures Covered(t, x, dup)
  {
    if x !in s {
      var y :| y in s && dup(y, x);
      assert y in t;
    }
  }

  /**
   * `parseSearchResults(json)`: no "Search" member gives an empty set; a
   * "Search" member that is not an array (null included) fails the cast.
   */
  function SearchResults(j: Value, dup: (TreeNode, TreeNode) -> bool): (r: Result<seq<TreeNode>, Error>)
    ensures !j.Obj? ==> r == Failure(NotAnObject)
    ensures j.Obj? && Get(j.members, "Search").None? ==> r == Success([])
    ensures j.Obj? && Get(j.members, "Search").Some? && !Get(j.members, "Search").value.Arr? ==> r == Failure(SearchNotArray)
    ensures r.Success? ==> DupFree(r.value, dup) && forall m :: m in r.value ==> IsSearchEntry(m)
  {
    if !j.Obj? then Failure(NotAnObject)
    else
      match Get(j.members, "Search")
      case None => Success([])
      case Some(a) => if a.Arr? then Entries(a.elems, dup) else Failure(SearchNotArray)
  }

  method ParseSearchResults(j: Value, dup: (TreeNode, TreeNode) -> bool) returns (r: Result<seq<TreeNode>, Error>)
    ensures r == SearchResults(j, dup)
  {
    if !j.Obj? {
      return Failure(NotAnObject);
    }
    var search := Get(j.members, "Search");
    if search.None? {
      return Success([]);
    }
    if !search.value.Arr? {
      return Failure(SearchNotArray);
    }
    var es := search.value.elems;
    var results: seq<TreeNode> := [];
    var i := 0;
    while i < |es|
      invariant 0 <= i <= |es|
      invariant Entries(es[..i], dup) == Success(results)
    {
      var movie := ReadSearchEntry(es[i]);
      EntriesPrefixStep(es, i, dup);
      if movie.Failure? {
        EntriesFailurePersists(es, i + 1, dup);
        return Failure(movie.error);
      }
      results := Insert(results, movie.value, dup);
      i := i + 1;
    }
    assert es[..i] == es;
    return Success(results);
  }

  /** One more element of the array: it is either rejected, with its own error, or inserted. */
  lemma EntriesPrefixStep(es: seq<Value>, i: nat, dup: (TreeNode, TreeNode) -> bool)
    requires i < |es| && Entries(es[..i], dup).Success?
    ensures SearchEntry(es[i]).Failure? ==> Entries(es[..i + 1], dup) == Failure(SearchEntry(es[i]).error)
    ensures SearchEntry(es[i]).Success? ==>
      Entries(es[..i + 1], dup) == Success(Insert(Entries(es[..i], dup).value, SearchEntry(es[i]).value, dup))
  {
    assert es[..i + 1][..i] == es[..i];
  }

  /** Once a prefix of the array fails, the whole array fails with the same error. */
  lemma {:induction false} EntriesFailurePersists(es: seq<Value>, k: nat, dup: (TreeNode, TreeNode) -> bool)
    requires k <= |es| && Entries(es[..k], dup).Failure?
    ensures Entries(es, dup) == Entries(es[..k], dup)
    decreases |es| - k
  {
    if k < |es| {
      assert es[..k + 1][..k] == es[..k];
      EntriesFailurePersists(es, k + 1, dup);
    } else {
      assert es[..k] == es;
    }
  }

  /** The results an array of valid search results stands for, in array order. */
  function EntryValues(es: seq<Value>): (r: seq<TreeNode>)
    requires forall i :: 0 <= i < |es| ==> HasEntryFields(es[i])
    ensures |r| == |es|
    ensures forall i :: 0 <= i < |es| ==> r[i] == SearchEntry(es[i]).value
  {
    if es == [] then []
    else
      var init := es[..|es| - 1];
      assert forall i :: 0 <= i < |init| ==> init[i] == es[i];
      EntryValues(init) + [SearchEntry(es[|es| - 1]).value]
  }

  /** Over an array of valid results, the loop is `addAll` of their values on an empty set. */
  lemma {:induction false} EntriesAreAdded(es: seq<Value>, dup: (TreeNode, TreeNode) -> bool)
    requires forall i :: 0 <= i < |es| ==> HasEntryFields(es[i])
    ensures Entries(es, dup) == Success(AddAll([], EntryValues(es), dup))
  {
    if es != [] {
      var init := es[..|es| - 1];
      var xs := EntryValues(es);
      assert forall i :: 0 <= i < |init| ==> init[i] == es[i];
      EntriesAreAdded(init, dup);
      assert xs[..|xs| - 1] == EntryValues(init);
    }
  }

  /**
   * Over an array of valid results, the set holds what `Kept` keeps of them
   * from an empty set: every member comes from the array, in array order,
   * and an element is left out only when an earlier kept one rejects it.
   */
  lemma EntriesAreKept(es: seq<Value>, dup: (TreeNode, TreeNode) -> bool)
    requires forall i :: 0 <= i < |es| ==> HasEntryFields(es[i])
    ensures Entries(es, dup) == Success(Kept([], EntryValues(es), dup))
  {
    var xs := EntryValues(es);
    var kept := Kept([], xs, dup);
    EntriesAreAdded(es, dup);
    assert Entries(es, dup) == Success(AddAll([], xs, dup));
    AddAllIsKept([], xs, dup);
    assert [] + kept == kept;
  }

  /** Every member of the set is the result of some element of the array. */
  lemma EntriesComeFromArray(es: seq<Value>, dup: (TreeNode, TreeNode) -> bool)
    requires Entries(es, dup).Success?
    ensures forall m :: m in Entries(es, dup).value ==> exists i :: 0 <= i < |es| && m == SearchEntry(es[i]).value
  {
    var xs := EntryValues(es);
    EntriesAreKept(es, dup);
    forall m | m in Entries(es, dup).value
      ensures exists i :: 0 <= i < |es| && m == SearchEntry(es[i]).value
    {
      assert m in xs;
      var i :| 0 <= i < |xs| && xs[i] == m;
    }
  }

  /** With a relation that never rejects, the set holds one result per element of the array, in array order. */
  lemma EntriesKeepAll(es: seq<Value>, dup: (TreeNode, TreeNode) -> bool)
    requires forall a, b :: !dup(a, b)
    requires forall i :: 0 <= i < |es| ==> HasEntryFields(es[i])
    ensures Entries(es, dup).Success? && |Entries(es, dup).value| == |es|
    ensures forall i :: 0 <= i < |es| ==> Entries(es, dup).value[i] == SearchEntry(es[i]).value
  {
    var xs := EntryValues(es);
    EntriesAreAdded(es, dup);
    assert Entries(es, dup) == Success(AddAll([], xs, dup));
    AddAllKeepsAll([], xs, dup);
    assert AddAll([], xs, dup) == xs;
    assert Entries(es, dup).value == xs;
  }

  /** `parseSearchResults` on a "Search" array of valid results: `Kept` of their values, from an empty set. */
  lemma SearchResultsAreKept(j: Value, dup: (TreeNode, TreeNode) -> bool)
    requires j.Obj? && Get(j.members, "Search").Some? && Get(j.members, "Search").value.Arr?
    requires forall e :: e in Get(j.members, "Search").value.elems ==> HasEntryFields(e)
    ensures SearchResults(j, dup) == Success(Kept([], EntryValues(Get(j.members, "Search").value.elems), dup))
  {
    EntriesAreKept(Get(j.members, "Search").value.elems, dup);
  }

  /** With a relation that never rejects, a "Search" array of valid results gives one result per element, in array order. */
  lemma SearchResultsKeepAll(j: Value, dup: (TreeNode, TreeNode) -> bool)
    requires forall a, b :: !dup(a, b)
    requires j.Obj? && Get(j.members, "Search").Some? && Get(j.members, "Search").value.Arr?
    requires forall e :: e in Get(j.members, "Search").value.elems ==> HasEntryFields(e)
    ensures SearchResults(j, dup).Success?
    ensures |SearchResults(j, dup).value| == |Get(j.members, "Search").value.elems|
    ensures forall i :: 0 <= i < |Get(j.members, "Search").value.elems| ==>
      SearchResults(j, dup).value[i] == SearchEntry(Get(j.members, "Search").value.elems[i]).value
  {
    var es := Get(j.members, "Search").value.elems;
    EntriesKeepAll(es, dup);
    assert SearchResults(j, dup) == Entries(es, dup);
  }

  // =====================================================================
  // buildMovieData
  // =====================================================================

  /**
   * The name given to the `k`-th element (from 0) of a JSON array. As written
   * every element is named "" (`indexed` false); the corrected builder names
   * them 1, 2, 3, ... (`indexed` true).
   */
  function ElementName(k: nat, indexed: bool): string
  {
    if indexed then IntToString(k + 1) else ""
  }

  /** The value can be turned into a tree: an object whose nested objects, and whose arrays' elements, are all buildable. */
  predicate Buildable(j: Value)
    decreases j, 0
  {
    j.Obj? && forall i :: 0 <= i < |j.members| ==> MemberBuildable(j.members[i])
  }

  predicate MemberBuildable(m: Member)
    decreases m
  {
    match m.value
    case Arr(es) => forall i :: 0 <= i < |es| ==> Buildable(es[i])
    case Obj(_) => Buildable(m.value)
    case _ => true
  }

  /** The members whose value is not null, in order: the ones that become children. */
  function NonNull(ms: seq<Member>): (r: seq<Member>)
    ensures |r| <= |ms|
    ensures forall i :: 0 <= i < |r| ==> !r[i].value.Null? && r[i] in ms
    ensures forall m :: m in ms && !m.value.Null? ==> m in r
  {
    if ms == [] then []
    else
      var init := ms[..|ms| - 1];
      var last := ms[|ms| - 1];
      assert ms == init + [last];
      NonNull(init) + (if last.value.Null? then [] else [last])
  }

  /**
   * `buildMovieData(json, name)`: a composite named `name` holding one child
   * per non-null member, in key order. A value that is not an object fails.
   */
  function Build(j: Value, name: string, indexed: bool): (r: Result<TreeNode, Error>)
    ensures !j.Obj? ==> r == Failure(NotAnObject)
    ensures r.Success? ==> r.value.Composite? && r.value.name == name && |r.value.children| <= |j.members|
    decreases j, 1
  {
    if !j.Obj? then Failure(NotAnObject)
    else
      var cs := BuildMembers(j.members, indexed);
      if cs.Failure? then Failure(cs.error) else Success(Composite(name, cs.value))
  }

  /**
   * The loop over the key set: a member holding an array becomes a composite
   * named by the key with one child per element; one holding an object
   * becomes the tree built from it under the key; a primitive becomes a leaf
   * with its printed text, quotes removed; a null is skipped.
   */
  function BuildMembers(ms: seq<Member>, indexed: bool): (r: Result<seq<TreeNode>, Error>)
    ensures r.Success? ==> |r.value| <= |ms|
    decreases ms
  {
    if ms == [] then Success([])
    else
      var prev := BuildMembers(ms[..|ms| - 1], indexed);
      if prev.Failure? then Failure(prev.error)
      else
        var last := ms[|ms| - 1];
        var c := MemberChild(last, indexed);
        if c.Failure? then Failure(c.error)
        else if c.value.None? then prev
        else Success(prev.value + [c.value.value])
  }

  function MemberChild(m: Member, indexed: bool): (r: Result<Option<TreeNode>, Error>)
    ensures r == Success(None) <==> m.value.Null?
    ensures r.Success? && r.value.Some? ==> r.value.value.name == m.key
    decreases m
  {
    match m.value
    case Null => Success(None)
    case Prim(_) => Success(Some(Leaf(m.key, StripQuotes(Text(m.value)))))
    case Obj(_) =>
      var t := Build(m.value, m.key, indexed);
      if t.Failure? then Failure(t.error) else Success(Some(t.value))
    case Arr(es) =>
      var cs := BuildElems(es, indexed);
      if cs.Failure? then Failure(cs.error) else Success(Some(Composite(m.key, cs.value)))
  }

  /** The loop over an array: element `k` becomes the tree built from it under `ElementName(k)`. */
  function BuildElems(es: seq<Value>, indexed: bool): (r: Result<seq<TreeNode>, Error>)
    ensures r.Success? ==> |r.value| == |es|
    ensures r.Success? ==> forall i :: 0 <= i < |es| ==> r.value[i].Composite?
    decreases es
  {
    if es == [] then Success([])
    else
      var prev := BuildElems(es[..|es| - 1], indexed);
      if prev.Failure? then Failure(prev.error)
      else
        var t := Build(es[|es| - 1], ElementName(|es| - 1, indexed), indexed);
        if t.Failure? then Failure(t.error) else Success(prev.value + [t.value])
  }

  /** How a non-null member shows in the tree: named by its key; a leaf exactly for a primitive, holding its text without quotes. */
  predicate ChildOf(m: Member, t: TreeNode)
  {
    && t.name == m.key
    && (t.Leaf? <==> m.value.Prim?)
    && (t.Leaf? ==> t.value == StripQuotes(Text(m.value)))
  }

  /**
   * The builder succeeds exactly on buildable values (every other value
   * ends in `NotAnObject`), and then yields a composite named `name`.
   */
  lemma {:induction false} BuildShape(j: Value, name: string, indexed: bool)
    ensures Build(j, name, indexed).Success? <==> Buildable(j)
    ensures Build(j, name, indexed).Success? ==>
      Build(j, name, indexed).value.Composite? && Build(j, name, indexed).value.name == name
    decreases j, 1
  {
    if j.Obj? {
      BuildMembersShape(j.members, indexed);
    }
  }

  /** One child per non-null member, in order, each as `ChildOf` describes. */
  lemma {:induction false} BuildMembersShape(ms: seq<Member>, indexed: bool)
    ensures BuildMembers(ms, indexed).Success? <==> forall i :: 0 <= i < |ms| ==> MemberBuildable(ms[i])
    ensures BuildMembers(ms, indexed).Success? ==>
      && |BuildMembers(ms, indexed).value| == |NonNull(ms)|
      && forall i :: 0 <= i < |NonNull(ms)| ==> ChildOf(NonNull(ms)[i], BuildMembers(ms, indexed).value[i])
    decreases ms
  {
    if ms != [] {
      var init := ms[..|ms| - 1];
      var last := ms[|ms| - 1];
      assert forall i :: 0 <= i < |init| ==> init[i] == ms[i];
      assert ms == init + [last];
      BuildMembersShape(init, indexed);
      MemberChildShape(last, indexed);
      var r := BuildMembers(ms, indexed);
      if r.Success? {
        var prev := BuildMembers(init, indexed).value;
        assert forall i :: 0 <= i < |prev| ==> r.value[i] == prev[i];
      }
    }
  }

  lemma {:induction false} MemberChildShape(m: Member, indexed: bool)
    ensures MemberChild(m, indexed).Success? <==> MemberBuildable(m)
    ensures MemberChild(m, indexed).Success? ==> (MemberChild(m, indexed).value.None? <==> m.value.Null?)
    ensures MemberChild(m, indexed).Success? && MemberChild(m, indexed).value.Some? ==>
      ChildOf(m, MemberChild(m, indexed).value.value)
    decreases m
  {
    match m.value
    case Obj(_) => BuildShape(m.value, m.key, indexed);
    case Arr(es) => BuildElemsShape(es, indexed);
    case _ =>
  }

  /** One composite per element, the `i`-th named `ElementName(i)`. */
  lemma {:induction false} BuildElemsShape(es: seq<Value>, indexed: bool)
    ensures BuildElems(es, indexed).Success? <==> forall i :: 0 <= i < |es| ==> Buildable(es[i])
    ensures BuildElems(es, indexed).Success? ==>
      && |BuildElems(es, indexed).value| == |es|
      && forall i :: 0 <= i < |es| ==>
        BuildElems(es, indexed).value[i].Composite? && BuildElems(es, indexed).value[i].name == ElementName(i, indexed)
    decreases es
  {
    if es != [] {
      var init := es[..|es| - 1];
      assert forall i :: 0 <= i < |init| ==> init[i] == es[i];
      BuildElemsShape(init, indexed);
      BuildShape(es[|es| - 1], ElementName(|es| - 1, indexed), indexed);
      var r := BuildElems(es, indexed);
      if r.Success? {
        var prev := BuildElems(init, indexed).value;
        assert forall i :: 0 <= i < |prev| ==> r.value[i] == prev[i];
      }
    }
  }

  /** Once a prefix of the members fails, all of them fail with the same error. */
  lemma {:induction false} BuildMembersFailurePersists(ms: seq<Member>, k: nat, indexed: bool)
    requires k <= |ms| && BuildMembers(ms[..k], indexed).Failure?
    ensures BuildMembers(ms, indexed) == BuildMembers(ms[..k], indexed)
    decreases |ms| - k
  {
    if k < |ms| {
      assert ms[..k + 1][..k] == ms[..k];
      BuildMembersFailurePersists(ms, k + 1, indexed);
    } else {
      assert ms[..k] == ms;
    }
  }

  /** Once a prefix of the elements fails, all of them fail with the same error. */
  lemma {:induction false} BuildElemsFailurePersists(es: seq<Value>, k: nat, indexed: bool)
    requires k <= |es| && BuildElems(es[..k], indexed).Failure?
    ensures BuildElems(es, indexed) == BuildElems(es[..k], indexed)
    decreases |es| - k
  {
    if k < |es| {
      assert es[..k + 1][..k] == es[..k];
      BuildElemsFailurePersists(es, k + 1, indexed);
    } else {
      assert es[..k] == es;
    }
  }

  lemma BuildMembersStep(ms: seq<Member>, k: nat, indexed: bool, prev: seq<TreeNode>, child: Option<TreeNode>)
    requires k < |ms| && BuildMembers(ms[..k], indexed) == Success(prev)
    requires MemberChild(ms[k], indexed) == Success(child)
    ensures child.None? ==> BuildMembers(ms[..k + 1], indexed) == Success(prev)
    ensures child.Some? ==> BuildMembers(ms[..k + 1], indexed) == Success(prev + [child.value])
  {
    assert ms[..k + 1][..k] == ms[..k] && ms[..k + 1][k] == ms[k];
  }

  /**
   * `buildMovieData(json, name)` as the loop over the key set, recursing
   * into nested objects and array elements; array elements are named
   * `ElementName(n, indexed)`: "" as written (`indexed` false), their
   * position from 1 in the corrected form.
   */
  method BuildMovieData(j: Value, name: string, indexed: bool) returns (r: Result<TreeNode, Error>)
    ensures r == Build(j, name, indexed)
    decreases j, 1
  {
    if !j.Obj? {
      return Failure(NotAnObject);
    }
    var root := new CompositeNode(name);
    var ms := j.members;
    var k := 0;
    while k < |ms|
      invariant 0 <= k <= |ms|
      invariant root.name == name
      invariant BuildMembers(ms[..k], indexed) == Success(root.children)
    {
      assert ms[k] in ms;
      var child := BuildMember(ms[k], indexed);
      if child.Failure? {
        assert ms[..k + 1][..k] == ms[..k] && ms[..k + 1][k] == ms[k];
        BuildMembersFailurePersists(ms, k + 1, indexed);
        return Failure(child.error);
      }
      BuildMembersStep(ms, k, indexed, root.children, child.value);
      if child.value.Some? {
        root.AddChild(child.value.value);
      }
      k := k + 1;
    }
    assert ms[..k] == ms;
    assert BuildMembers(j.members, indexed) == Success(root.children);
    return Success(root.Node());
  }

  /** The body of the key-set loop for one member. */
  method BuildMember(m: Member, indexed: bool) returns (r: Result<Option<TreeNode>, Error>)
    ensures r == MemberChild(m, indexed)
    decreases m
  {
    match m.value {
      case Null =>
        return Success(None);
      case Prim(_) =>
        return Success(Some(Leaf(m.key, StripQuotes(Text(m.value)))));
      case Obj(_) =>
        var t := BuildMovieData(m.value, m.key, indexed);
        if t.Failure? {
          return Failure(t.error);
        }
        return Success(Some(t.value));
      case Arr(es) =>
        var node := BuildArrayElements(m.key, es, indexed);
        if node.Failure? {
          return Failure(node.error);
        }
        return Success(Some(node.value));
    }
  }

  /**
   * The inner loop of `buildMovieData`: a composite named `key` receives one
   * tree per element, the `n`-th named `ElementName(n, indexed)`.
   */
  method BuildArrayElements(key: string, es: seq<Value>, indexed: bool) returns (r: Result<TreeNode, Error>)
    ensures BuildElems(es, indexed).Failure? ==> r == Failure(BuildElems(es, indexed).error)
    ensures BuildElems(es, indexed).Success? ==> r == Success(Composite(key, BuildElems(es, indexed).value))
    decreases es
  {
    var m := new CompositeNode(key);
    var n := 0;
    while n < |es|
      invariant 0 <= n <= |es|
      invariant m.name == key
      invariant BuildElems(es[..n], indexed) == Success(m.children)
    {
      assert es[..n + 1][..n] == es[..n] && es[..n + 1][n] == es[n];
      assert es[n] in es;
      var t := BuildMovieData(es[n], ElementName(n, indexed), indexed);
      if t.Failure? {
        BuildElemsFailurePersists(es, n + 1, indexed);
        return Failure(t.error);
      }
      m.AddChild(t.value);
      n := n + 1;
    }
    assert es[..n] == es;
    return Success(m.Node());
  }

  // ---------------------------------------------------------------------
  // How array elements are named
  // ---------------------------------------------------------------------

  /**
   * As written, every element of an array is named "": the entries of a
   * detail response's "Ratings" array all render as a bare `:` line.
   */
  lemma ArrayElementsUnnamedAsWritten(es: seq<Value>, i: nat)
    requires BuildElems(es, false).Success? && i < |es|
    ensures |BuildElems(es, false).value| == |es| && BuildElems(es, false).value[i].name == ""
  {
    BuildElemsShape(es, false);
  }

  /** The smallest detail answer that shows it: one rating, rendered with an empty name instead of `1`. */
  lemma RatingsExampleAsWritten()
    ensures Build(Obj([Member("Ratings", Arr([Obj([])]))]), "Detalles", false)
      == Success(Composite("Detalles", [Composite("Ratings", [Composite("", [])])]))
    ensures Build(Obj([Member("Ratings", Arr([Obj([])]))]), "Detalles", true)
      == Success(Composite("Detalles", [Composite("Ratings", [Composite("1", [])])]))
  {
    var ms := [Member("Ratings", Arr([Obj([])]))];
    var es := [Obj([])];
    assert ms[..|ms| - 1] == [] && es[..|es| - 1] == [];
    assert Build(Obj([]), "", false) == Success(Composite("", []));
    assert Build(Obj([]), "1", true) == Success(Composite("1", []));
    assert ElementName(0, true) == "1" by {
      assert NatToString(1) == "1";
    }
    assert BuildElems(es, false) == Success([] + [Composite("", [])]);
    assert BuildElems(es, true) == Success([] + [Composite("1", [])]);
    assert [] + [Composite("", [])] == [Composite("", [])];
    assert [] + [Composite("1", [])] == [Composite("1", [])];
    assert ms[0].value == Arr(es);
    assert MemberChild(ms[0], false) == Success(Some(Composite("Ratings", [Composite("", [])])));
    assert MemberChild(ms[0], true) == Success(Some(Composite("Ratings", [Composite("1", [])])));
    assert BuildMembers(ms, false) == Success([] + [Composite("Ratings", [Composite("", [])])]);
    assert BuildMembers(ms, true) == Success([] + [Composite("Ratings", [Composite("1", [])])]);
    assert [] + [Composite("Ratings", [Composite("", [])])] == [Composite("Ratings", [Composite("", [])])];
    assert [] + [Composite("Ratings", [Composite("1", [])])] == [Composite("Ratings", [Composite("1", [])])];
  }

  /**
   * Corrected: element `i` is named by the integer `i + 1`, so the names
   * read 1, 2, 3, ... and no two elements share one.
   */
  lemma ElementNamesCountFromOne(es: seq<Value>, i: nat)
    requires BuildElems(es, true).Success? && i < |es| && i < MaxInt
    ensures |BuildElems(es, true).value| == |es| && ParseInt(BuildElems(es, true).value[i].name) == Some(i + 1)
  {
    BuildElemsShape(es, true);
    ParseIntToString(i + 1);
  }

  // =====================================================================
  // getById
  // =====================================================================

  /** `getById(params)`: one query under `t=`, whose answer becomes the tree "Detalles", array elements named "" as written. */
  function Details(c: Client, p: ParamsState, fetch: string -> Result<Value, Error>): (r: Result<TreeNode, Error>)
    ensures fetch(BuildQueryString(c, p, false)).Failure? ==> r == Failure(fetch(BuildQueryString(c, p, false)).error)
    ensures r.Success? ==> r.value.Composite? && r.value.name == "Detalles"
  {
    var body := fetch(BuildQueryString(c, p, false));
    if body.Failure? then Failure(body.error) else Build(body.value, "Detalles", false)
  }

  method GetById(c: Client, params: RequestParams, fetch: string -> Result<Value, Error>) returns (r: Result<TreeNode, Error>)
    ensures r == Details(c, params.State(), fetch)
  {
    var body := fetch(BuildQueryString(c, params.State(), false));
    if body.Failure? {
      return Failure(body.error);
    }
    r := BuildMovieData(body.value, "Detalles", false);
  }

  /**
   * `getById` succeeds exactly when the request does and the answer is
   * buildable, and then returns a composite named "Detalles"; the query
   * carries the title under `t`, never under `s`.
   */
  lemma DetailsShape(c: Client, p: ParamsState, fetch: string -> Result<Value, Error>)
    requires p.title.Some? ==> '&' !in p.title.value
    requires p.id.Some? ==> '&' !in p.id.value
    requires p.kind.Some? ==> '&' !in p.kind.value
    requires p.startYear.Some? ==> '&' !in p.startYear.value
    ensures Details(c, p, fetch).Success? <==>
      fetch(BuildQueryString(c, p, false)).Success? && Buildable(fetch(BuildQueryString(c, p, false)).value)
    ensures Details(c, p, fetch).Success? ==>
      Details(c, p, fetch).value.Composite? && Details(c, p, fetch).value.name == "Detalles"
    ensures DecodeQuery(c, BuildQueryString(c, p, false)).Some?
      && DecodeQuery(c, BuildQueryString(c, p, false)).value.s.None?
      && DecodeQuery(c, BuildQueryString(c, p, false)).value.t == SentTitle(p)
  {
    BuildQueryStringRoundTrip(c, p, false);
    var body := fetch(BuildQueryString(c, p, false));
    if body.Success? {
      BuildShape(body.value, "Detalles", false);
    }
  }

  // =====================================================================
  // search
  // =====================================================================

  /** The query for one year of a range: the copy after `setYear(year)`, sent with `s=`. */
  function YearQuery(c: Client, s: ParamsState, year: int): string
  {
    BuildQueryString(c, WithYear(s, Some(IntToString(year))), true)
  }

  /** The queries of the loop over the years `start` to `end`: one per year, in increasing order. */
  function RangeQueries(c: Client, s: ParamsState, start: int, end: int): (r: seq<string>)
    ensures |r| == if end < start then 0 else end - start + 1
    decreases end - start
  {
    if end < start then [] else RangeQueries(c, s, start, end - 1) + [YearQuery(c, s, end)]
  }

  /** The `k`-th query of the range is the one for year `start + k`. */
  lemma {:induction false} RangeQueriesYears(c: Client, s: ParamsState, start: int, end: int)
    ensures forall k :: 0 <= k < |RangeQueries(c, s, start, end)| ==>
      RangeQueries(c, s, start, end)[k] == YearQuery(c, s, start + k)
    decreases end - start
  {
    if start <= end {
      RangeQueriesYears(c, s, start, end - 1);
    }
  }

  /** The loop's queries up to year `m` are the first ones of the whole range. */
  lemma RangeQueriesPrefix(c: Client, s: ParamsState, start: int, end: int, m: int)
    requires start - 1 <= m <= end
    ensures RangeQueries(c, s, start, end)[..m - start + 1] == RangeQueries(c, s, start, m)
  {
    RangeQueriesYears(c, s, start, end);
    RangeQueriesYears(c, s, start, m);
  }

  /**
   * Each query of a range carries the title under `s`, the ID, the type and
   * that year alone.
   */
  lemma RangeQueryCarriesYear(c: Client, s: ParamsState, start: int, end: int, k: nat)
    requires start + k <= end
    requires s.title.Some? ==> '&' !in s.title.value
    requires s.id.Some? ==> '&' !in s.id.value
    requires s.kind.Some? ==> '&' !in s.kind.value
    ensures DecodeQuery(c, RangeQueries(c, s, start, end)[k])
      == Some(QueryView(SentTitle(s), None, s.id, s.kind, Some(IntToString(start + k))))
  {
    var y := start + k;
    RangeQueriesYears(c, s, start, end);
    assert '&' !in IntToString(y) by {
      NatToStringDigits(if y < 0 then -y else y);
    }
    BuildQueryStringRoundTrip(c, WithYear(s, Some(IntToString(y))), true);
  }

  /**
   * The queries `search` sends, in order: one `s=` query when no range is
   * shown; otherwise one per year of the range, from a copy of the
   * parameters, after parsing both bounds.
   */
  function SearchQueries(c: Client, p: ParamsState): (r: Result<seq<string>, Error>)
    ensures EndYearOf(p).None? ==> r == Success([BuildQueryString(c, p, true)])
    ensures EndYearOf(p).Some? && r.Success? ==>
      && ParseInt(StartYearOf(p).value).Some? && ParseInt(EndYearOf(p).value).Some?
      && |r.value| == if ParseInt(EndYearOf(p).value).value < ParseInt(StartYearOf(p).value).value then 0
                      else ParseInt(EndYearOf(p).value).value - ParseInt(StartYearOf(p).value).value + 1
    ensures EndYearOf(p).Some? && ParseInt(StartYearOf(p).value).None? ==> r == Failure(NumberFormat(StartYearOf(p).value))
  {
    if EndYearOf(p).None? then Success([BuildQueryString(c, p, true)])
    else
      var start := ParseInt(StartYearOf(p).value);
      if start.None? then Failure(NumberFormat(StartYearOf(p).value))
      else
        var end := ParseInt(EndYearOf(p).value);
        if end.None? then Failure(NumberFormat(EndYearOf(p).value))
        else Success(RangeQueries(c, CopyOf(p), start.value, end.value))
  }

  // The loop counter of `search` as written: a Java `int`, so `++i` wraps
  // from `MaxInt` to `MinInt`.

  /** `++i` on a Java `int`. */
  function JavaIncrement(i: int): (r: int)
    requires MinInt <= i <= MaxInt
    ensures MinInt <= r <= MaxInt
    ensures i < MaxInt ==> r == i + 1
    ensures i == MaxInt ==> r == MinInt
  {
    if i == MaxInt then MinInt else i + 1
  }

  /** The Java counter after `k` increments from `start`. */
  function JavaCounter(start: int, k: nat): (r: int)
    requires MinInt <= start <= MaxInt
    ensures MinInt <= r <= MaxInt
  {
    if k == 0 then start else JavaIncrement(JavaCounter(start, k - 1))
  }

  /** Until it reaches `MaxInt` the Java counter is the year the model's loop uses. */
  lemma {:induction false} JavaCounterIsYear(start: int, k: nat)
    requires MinInt <= start <= MaxInt && k <= MaxInt - start
    ensures JavaCounter(start, k) == start + k
  {
    if k > 0 {
      JavaCounterIsYear(start, k - 1);
    }
  }

  /**
   * With `endYear == MaxInt` the guard `i <= endYear` holds on every pass, and
   * the pass after year `MaxInt` searches year `MinInt`: the loop never ends.
   */
  lemma RangeLoopAtMaxIntNeverExits(start: int, k: nat)
    requires MinInt <= start <= MaxInt
    ensures JavaCounter(start, k) <= MaxInt
    ensures JavaCounter(start, MaxInt - start + 1) == MinInt
  {
    JavaCounterIsYear(start, MaxInt - start);
  }

  /** The input `-r 2020 2147483647`: after the year `MaxInt` the counter is back at `MinInt`, still within the range. */
  lemma MaxIntRangeWrapsAsWritten()
    ensures JavaCounter(2020, MaxInt - 2020) == MaxInt
    ensures JavaCounter(2020, MaxInt - 2020 + 1) == MinInt <= MaxInt
  {
    RangeLoopAtMaxIntNeverExits(2020, 0);
  }

  /** One query of `search`: send it, parse the page, add its results to the set. */
  function AddPage(acc: seq<TreeNode>, q: string, fetch: string -> Result<Value, Error>, dup: (TreeNode, TreeNode) -> bool)
    : (r: Result<seq<TreeNode>, Error>)
    ensures fetch(q).Failure? ==> r == Failure(fetch(q).error)
    ensures r.Success? <==> fetch(q).Success? && SearchResults(fetch(q).value, dup).Success?
    ensures r.Success? ==> r.value == acc + Kept(acc, SearchResults(fetch(q).value, dup).value, dup)
    ensures r.Success? && DupFree(acc, dup) ==> DupFree(r.value, dup)
  {
    var body := fetch(q);
    if body.Failure? then Failure(body.error)
    else
      var found := SearchResults(body.value, dup);
      if found.Failure? then Failure(found.error)
      else
        AddAllIsKept(acc, found.value, dup);
        Success(AddAll(acc, found.value, dup))
  }

  /** Sends the queries in order and adds every page of results to one linked hash set; the first failure ends it. */
  function Collect(qs: seq<string>, fetch: string -> Result<Value, Error>, dup: (TreeNode, TreeNode) -> bool)
    : (r: Result<seq<TreeNode>, Error>)
    ensures r.Success? ==> DupFree(r.value, dup) && forall m :: m in r.value ==> IsSearchEntry(m)
  {
    if qs == [] then Success([])
    else
      var prev := Collect(qs[..|qs| - 1], fetch, dup);
      if prev.Failure? then prev else AddPage(prev.value, qs[|qs| - 1], fetch, dup)
  }

  /** `search(params)`: the results of all its queries, duplicates dropped, in the order first seen. */
  function SearchSpec(c: Client, p: ParamsState, fetch: string -> Result<Value, Error>, dup: (TreeNode, TreeNode) -> bool)
    : (r: Result<seq<TreeNode>, Error>)
    ensures r.Success? ==> DupFree(r.value, dup)
    ensures r.Success? ==> forall m :: m in r.value ==> IsSearchEntry(m) && RecordId(m).Some?
  {
    var qs := SearchQueries(c, p);
    if qs.Failure? then Failure(qs.error)
    else
      var r := Collect(qs.value, fetch, dup);
      if r.Success? then
        SearchResultsHaveIds(r.value);
        r
      else r
  }

  lemma SearchResultsHaveIds(ms: seq<TreeNode>)
    requires forall m :: m in ms ==> IsSearchEntry(m)
    ensures forall m :: m in ms ==> RecordId(m).Some?
  {
    forall m | m in ms
      ensures RecordId(m).Some?
    {
      SearchEntryId(m);
    }
  }

  /** Once a prefix of the queries fails, the whole search fails with the same error. */
  lemma {:induction false} CollectFailurePersists(qs: seq<string>, k: nat, fetch: string -> Result<Value, Error>, dup: (TreeNode, TreeNode) -> bool)
    requires k <= |qs| && Collect(qs[..k], fetch, dup).Failure?
    ensures Collect(qs, fetch, dup) == Collect(qs[..k], fetch, dup)
    decreases |qs| - k
  {
    if k < |qs| {
      assert qs[..k + 1][..k] == qs[..k];
      CollectFailurePersists(qs, k + 1, fetch, dup);
    } else {
      assert qs[..k] == qs;
    }
  }

  /** Results found by earlier queries come first and stay: the set only grows at its end. */
  lemma {:induction false} CollectKeepsEarlierResults(qs: seq<string>, k: nat, fetch: string -> Result<Value, Error>, dup: (TreeNode, TreeNode) -> bool)
    requires k <= |qs| && Collect(qs, fetch, dup).Success?
    ensures Collect(qs[..k], fetch, dup).Success?
    ensures Collect(qs[..k], fetch, dup).value <= Collect(qs, fetch, dup).value
    decreases |qs| - k
  {
    if k == |qs| {
      assert qs[..k] == qs;
    } else {
      var init := qs[..|qs| - 1];
      assert init[..k] == qs[..k];
      CollectKeepsEarlierResults(init, k, fetch, dup);
    }
  }

  /** A page that parses has each of its results in the new set, or a duplicate of it. */
  lemma AddPageCovers(acc: seq<TreeNode>, q: string, x: TreeNode, fetch: string -> Result<Value, Error>, dup: (TreeNode, TreeNode) -> bool)
    requires fetch(q).Success? && SearchResults(fetch(q).value, dup).Success?
    requires x in SearchResults(fetch(q).value, dup).value
    ensures AddPage(acc, q, fetch, dup).Success? && Covered(AddPage(acc, q, fetch, dup).value, x, dup)
  {
  }

  /** The first `k + 1` queries are the first `k` and one more. */
  lemma CollectPrefixStep(qs: seq<string>, k: nat, fetch: string -> Result<Value, Error>, dup: (TreeNode, TreeNode) -> bool)
    requires k < |qs| && Collect(qs[..k], fetch, dup).Success?
    ensures Collect(qs[..k + 1], fetch, dup) == AddPage(Collect(qs[..k], fetch, dup).value, qs[k], fetch, dup)
  {
    var pre := qs[..k + 1];
    assert pre[..|pre| - 1] == qs[..k] && pre[|pre| - 1] == qs[k];
  }

  /** No result is lost: each result of each page is in the final set, or rejected there as a duplicate. */
  lemma CollectCoversEveryPage(qs: seq<string>, k: nat, x: TreeNode, fetch: string -> Result<Value, Error>, dup: (TreeNode, TreeNode) -> bool)
    requires k < |qs| && Collect(qs, fetch, dup).Success?
    requires fetch(qs[k]).Success? && SearchResults(fetch(qs[k]).value, dup).Success?
    requires x in SearchResults(fetch(qs[k]).value, dup).value
    ensures Covered(Collect(qs, fetch, dup).value, x, dup)
  {
    CollectKeepsEarlierResults(qs, k + 1, fetch, dup);
    CollectKeepsEarlierResults(qs, k, fetch, dup);
    var pre := qs[..k + 1];
    CollectPrefixStep(qs, k, fetch, dup);
    AddPageCovers(Collect(qs[..k], fetch, dup).value, qs[k], x, fetch, dup);
    CoveredGrows(Collect(pre, fetch, dup).value, Collect(qs, fetch, dup).value, x, dup);
  }

  /** One more query: its page is added unless an earlier query failed. */
  lemma CollectStep(qs: seq<string>, q: string, fetch: string -> Result<Value, Error>, dup: (TreeNode, TreeNode) -> bool)
    ensures Collect(qs, fetch, dup).Failure? ==> Collect(qs + [q], fetch, dup) == Collect(qs, fetch, dup)
    ensures Collect(qs, fetch, dup).Success? ==>
      Collect(qs + [q], fetch, dup) == AddPage(Collect(qs, fetch, dup).value, q, fetch, dup)
  {
    assert (qs + [q])[..|qs|] == qs;
  }

  /** One more year of the range: its page is added to the results of the years before. */
  lemma RangeStep(c: Client, s: ParamsState, start: int, y: int, fetch: string -> Result<Value, Error>, dup: (TreeNode, TreeNode) -> bool)
    requires start <= y
    requires Collect(RangeQueries(c, s, start, y - 1), fetch, dup).Success?
    ensures Collect(RangeQueries(c, s, start, y), fetch, dup)
      == AddPage(Collect(RangeQueries(c, s, start, y - 1), fetch, dup).value, YearQuery(c, s, y), fetch, dup)
  {
    CollectStep(RangeQueries(c, s, start, y - 1), YearQuery(c, s, y), fetch, dup);
  }

  /** A year whose page fails ends the whole range with that failure. */
  lemma RangeFailure(c: Client, s: ParamsState, start: int, y: int, end: int, fetch: string -> Result<Value, Error>, dup: (TreeNode, TreeNode) -> bool)
    requires start <= y <= end
    requires Collect(RangeQueries(c, s, start, y), fetch, dup).Failure?
    ensures Collect(RangeQueries(c, s, start, end), fetch, dup) == Collect(RangeQueries(c, s, start, y), fetch, dup)
  {
    RangeQueriesPrefix(c, s, start, end, y);
    CollectPrefixFailure(RangeQueries(c, s, start, y), RangeQueries(c, s, start, end), fetch, dup);
  }

  /** A failing prefix decides the whole sequence of queries. */
  lemma CollectPrefixFailure(pre: seq<string>, qs: seq<string>, fetch: string -> Result<Value, Error>, dup: (TreeNode, TreeNode) -> bool)
    requires |pre| <= |qs| && qs[..|pre|] == pre && Collect(pre, fetch, dup).Failure?
    ensures Collect(qs, fetch, dup) == Collect(pre, fetch, dup)
  {
    CollectFailurePersists(qs, |pre|, fetch, dup);
  }

  /** Sends one query and adds its page of results; the two lines each branch of `search` repeats. */
  method FetchPage(q: string, acc: seq<TreeNode>, fetch: string -> Result<Value, Error>, dup: (TreeNode, TreeNode) -> bool)
    returns (r: Result<seq<TreeNode>, Error>)
    ensures r == AddPage(acc, q, fetch, dup)
  {
    var body := fetch(q);
    if body.Failure? {
      return Failure(body.error);
    }
    var found := ParseSearchResults(body.value, dup);
    if found.Failure? {
      return Failure(found.error);
    }
    return Success(AddAll(acc, found.value, dup));
  }

  /**
   * The loop of `search` over the years `start` to `end`: `setYear` on the
   * copy, then one query per year.
   */
  method SearchYears(c: Client, clone: RequestParams, start: int, end: int,
                     fetch: string -> Result<Value, Error>, dup: (TreeNode, TreeNode) -> bool)
    returns (r: Result<seq<TreeNode>, Error>)
    modifies clone
    ensures r == Collect(RangeQueries(c, old(clone.State()), start, end), fetch, dup)
  {
    ghost var copy := clone.State();
    var results: seq<TreeNode> := [];
    var i := start;
    while i <= end
      invariant start <= i && (i <= end + 1 || i == start)
      invariant clone.title == copy.title && clone.kind == copy.kind && clone.id == copy.id
      invariant Collect(RangeQueries(c, copy, start, i - 1), fetch, dup) == Success(results)
      decreases end - i
    {
      clone.SetYear(Some(IntToString(i)));
      assert clone.State() == WithYear(copy, Some(IntToString(i)));
      var page := FetchPage(BuildQueryString(c, clone.State(), true), results, fetch, dup);
      RangeStep(c, copy, start, i, fetch, dup);
      if page.Failure? {
        RangeFailure(c, copy, start, i, end, fetch, dup);
        return page;
      }
      results := page.value;
      i := i + 1;
    }
    if end < start {
      assert RangeQueries(c, copy, start, i - 1) == [] == RangeQueries(c, copy, start, end);
    } else {
      assert i - 1 == end;
    }
    return Success(results);
  }

  /** `search(params)`: a year range is searched year by year on a copy of the parameters, anything else with one query. */
  method Search(c: Client, params: RequestParams, fetch: string -> Result<Value, Error>, dup: (TreeNode, TreeNode) -> bool)
    returns (r: Result<seq<TreeNode>, Error>)
    ensures r == SearchSpec(c, params.State(), fetch, dup)
  {
    if params.EndYear().Some? {
      var start := ParseInt(params.StartYear().value);
      if start.None? {
        return Failure(NumberFormat(params.StartYear().value));
      }
      var end := ParseInt(params.EndYear().value);
      if end.None? {
        return Failure(NumberFormat(params.EndYear().value));
      }
      var clone := new RequestParams.Copy(params);
      ghost var p := params.State();
      assert SearchQueries(c, p) == Success(RangeQueries(c, clone.State(), start.value, end.value));
      r := SearchYears(c, clone, start.value, end.value, fetch, dup);
      assert params.State() == p;
    } else {
      var q := BuildQueryString(c, params.State(), true);
      CollectStep([], q, fetch, dup);
      assert [] + [q] == [q];
      r := FetchPage(q, [], fetch, dup);
    }
  }
}
