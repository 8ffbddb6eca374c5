/**
 * The console commands of `Main`: `validateInput`, which accepts a detail
 * request (one integer) or `buscar <title>` followed by options, and
 * `setParams`, which writes a validated search command into a
 * `RequestParams`. The two `Main` classes of the program carry the same
 * code; this module models it once.
 */
module Command {
  import opened Wrappers
  import opened StringUtils
  import opened OmdbParams

  /** The accepted values of `-t`, compared case-sensitively. */
  const Types: seq<string> := ["series", "movie", "episode"]

  const SearchWord: string := "buscar"

  // ---------------------------------------------------------------------
  // `equalsIgnoreCase`
  // ---------------------------------------------------------------------

  /**
   * `c` matches the lower-case letter `l` of the search word under Java's
   * `equalsIgnoreCase`: the letter itself, its upper case, or, for `s`, the
   * long s U+017F, whose upper case is `S`.
   */
  predicate MatchesIgnoringCase(c: char, l: char)
    requires 'a' <= l <= 'z'
  {
    c == l || c == (l as int - 32) as char || (l == 's' && c == 'ſ')
  }

  /** `token.equalsIgnoreCase("buscar")`. */
  predicate IsSearchWord(token: string): (b: bool)
    ensures token == SearchWord ==> b
    ensures b ==> |token| == |SearchWord|
  {
    |token| == |SearchWord| && forall k :: 0 <= k < |token| ==> MatchesIgnoringCase(token[k], SearchWord[k])
  }

  lemma SearchWordExamples()
    ensures IsSearchWord("buscar") && IsSearchWord("BUSCAR") && IsSearchWord("Buſcar")
    ensures !IsSearchWord("busc") && !IsSearchWord("buscas")
  {
    assert !MatchesIgnoringCase("buscas"[5], SearchWord[5]);
  }

  // ---------------------------------------------------------------------
  // The option grammar
  // ---------------------------------------------------------------------

  /** One option of a search command. */
  datatype Opt =
    | TypeOpt(kind: string)
    | YearOpt(year: string)
    | RangeOpt(from: string, to: string)

  predicate IsOptionWord(token: string)
  {
    token == "-t" || token == "-y" || token == "-r"
  }

  /**
   * The options written from index `i` on: `-t` and a type, `-y` and an
   * integer, `-r` and two integers of which the first is not the larger,
   * repeated to the end. Any other token, or a missing argument, is `None`.
   */
  function ParseFrom(tokens: seq<string>, i: nat): (r: Option<seq<Opt>>)
    ensures i >= |tokens| ==> r == Some([])
    ensures r.Some? && i < |tokens| ==> IsOptionWord(tokens[i])
    ensures r.Some? && i <= |tokens| ==> 2 * |r.value| <= |tokens| - i
    decreases |tokens| - i
  {
    if i >= |tokens| then Some([])
    else if tokens[i] == "-t" then
      if i + 1 >= |tokens| || tokens[i + 1] !in Types then None
      else Prepend(TypeOpt(tokens[i + 1]), ParseFrom(tokens, i + 2))
    else if tokens[i] == "-y" then
      if i + 1 >= |tokens| || !IsInteger(tokens[i + 1]) then None
      else Prepend(YearOpt(tokens[i + 1]), ParseFrom(tokens, i + 2))
    else if tokens[i] == "-r" then
      if i + 1 >= |tokens| || !IsInteger(tokens[i + 1]) then None
      else if i + 2 >= |tokens| || !IsInteger(tokens[i + 2]) then None
      else if ParseInt(tokens[i + 1]).value > ParseInt(tokens[i + 2]).value then None
      else Prepend(RangeOpt(tokens[i + 1], tokens[i + 2]), ParseFrom(tokens, i + 3))
    else None
  }

  function Prepend(o: Opt, rest: Option<seq<Opt>>): Option<seq<Opt>>
  {
    if rest.None? then None else Some([o] + rest.value)
  }

  /**
   * What `validateInput` accepts: one integer token, or the search word, any
   * title, and a well-formed option list.
   */
  predicate ValidCommand(tokens: seq<string>)
  {
    if |tokens| == 0 then false
    else if |tokens| == 1 then IsInteger(tokens[0])
    else IsSearchWord(tokens[0]) && ParseFrom(tokens, 2).Some?
  }

  /** Commands the unit tests of `validateInput` accept. */
  lemma ValidCommandAccepts()
    ensures ValidCommand(["BUSCAR", "abc"]) && ValidCommand(["23"])
    ensures ValidCommand(["buscar", "abc", "-t", "series"])
    ensures ValidCommand(["buscar", "0000000000", "-y", "2004"])
  {
    IsIntegerExamples();
    SearchWordExamples();
  }

  /** The years the tests write, read as integers. */
  lemma TestYears()
    ensures ParseInt("2004") == Some(2004) && ParseInt("2008") == Some(2008)
    ensures ParseInt("1990") == Some(1990) && ParseInt("1980") == Some(1980)
  {
    assert "2004"[..3] == "200" && "2008"[..3] == "200" && "200"[..2] == "20" && "20"[..1] == "2";
    assert "1990"[..3] == "199" && "1980"[..3] == "198" && "199"[..2] == "19" && "198"[..2] == "19";
    assert "19"[..1] == "1" && "2"[..0] == "" && "1"[..0] == "";
  }

  /** The accepted commands of the tests that carry a year range. */
  lemma ValidCommandAcceptsRanges()
    ensures ValidCommand(["buscar", "abc", "-r", "2004", "2008"])
    ensures ValidCommand(["buscar", "abc", "-t", "movie", "-r", "2004", "2008"])
  {
    TestYears();
    SearchWordExamples();
    var t := ["buscar", "abc", "-t", "movie", "-r", "2004", "2008"];
    assert ParseFrom(t, 7) == Some([]);
    assert t[4] == "-r" && t[4] != "-t" && t[4] != "-y";
    assert IsInteger(t[5]) && IsInteger(t[6]) && ParseInt(t[5]).value <= ParseInt(t[6]).value;
    assert [RangeOpt("2004", "2008")] + [] == [RangeOpt("2004", "2008")];
    assert ParseFrom(t, 4) == Some([RangeOpt("2004", "2008")]);
  }

  /** Commands the unit tests of `validateInput` reject. */
  lemma ValidCommandRejectsExamples()
    ensures !ValidCommand(["buscar"]) && !ValidCommand(["busc"]) && !ValidCommand([])
    ensures !ValidCommand(["buscar", "abc", "-t", "seriesss"])
  {
    assert !IsDigit("buscar"[0]) && !IsDigit("busc"[0]);
  }

  /** The rejected commands of the tests that carry a year or a year range. */
  lemma ValidCommandRejectsYears()
    ensures !ValidCommand(["buscar", "a", "-r", "abc", "1990"])
    ensures !ValidCommand(["buscar", "a", "-r", "1980", "def"])
    ensures !ValidCommand(["buscar", "abc", "-r", "2004", "1990"])
    ensures !ValidCommand(["buscar", "a", "-y", "1980", "def"])
  {
    TestYears();
    ValidCommandRejects("a", "1980", "1980");
    ValidCommandRejects("abc", "2004", "1990");
  }

  /**
   * A year range whose bounds are out of order is rejected, as is a range or
   * a year with a non-integer argument, and a stray token after `-y`.
   */
  lemma ValidCommandRejects(title: string, a: string, b: string)
    requires IsInteger(a) && IsInteger(b)
    ensures ParseInt(a).value > ParseInt(b).value ==> !ValidCommand(["buscar", title, "-r", a, b])
    ensures !ValidCommand(["buscar", title, "-r", "abc", b])
    ensures !ValidCommand(["buscar", title, "-r", a, "def"])
    ensures !ValidCommand(["buscar", title, "-y", a, "def"])
  {
    assert !IsInteger("abc") by { assert !IsDigit("abc"[0]); }
    assert !IsInteger("def") by { assert !IsDigit("def"[0]); }
    var t := ["buscar", title, "-y", a, "def"];
    assert ParseFrom(t, 4) == None;
  }

  // ---------------------------------------------------------------------
  // `validateInput`
  // ---------------------------------------------------------------------

  /** `validateInput(tokens)`: the loop over the options, which jumps over each option's arguments. */
  method ValidateInput(tokens: seq<string>) returns (ok: bool)
    ensures ok == ValidCommand(tokens)
  {
    if |tokens| == 0 {
      return false;
    }
    if |tokens| == 1 {
      return IsInteger(tokens[0]);
    }
    if !IsSearchWord(tokens[0]) {
      return false;
    }
    var i := 2;
    while i < |tokens|
      invariant 2 <= i <= |tokens|
      invariant ValidCommand(tokens) == ParseFrom(tokens, i).Some?
      decreases |tokens| - i
    {
      if tokens[i] == "-t" {
        if i + 1 >= |tokens| || tokens[i + 1] !in Types {
          return false;
        }
        i := i + 2;
      } else if tokens[i] == "-y" {
        if i + 1 >= |tokens| || !IsInteger(tokens[i + 1]) {
          return false;
        }
        i := i + 2;
      } else if tokens[i] == "-r" {
        if i + 1 >= |tokens| || !IsInteger(tokens[i + 1]) {
          return false;
        }
        if i + 2 >= |tokens| || !IsInteger(tokens[i + 2]) {
          return false;
        }
        if ParseInt(tokens[i + 1]).value > ParseInt(tokens[i + 2]).value {
          return false;
        }
        i := i + 3;
      } else {
        return false;
      }
    }
    return true;
  }

  // ---------------------------------------------------------------------
  // `setParams`
  // ---------------------------------------------------------------------

  /**
   * Every option word from index `i` on has its arguments inside the array:
   * what `setParams` needs so that it reads no index out of range.
   */
  predicate ArgsInRange(tokens: seq<string>, i: nat)
  {
    forall j :: i <= j < |tokens| ==>
      (tokens[j] == "-t" || tokens[j] == "-y" ==> j + 1 < |tokens|) && (tokens[j] == "-r" ==> j + 2 < |tokens|)
  }

  /** One pass of the loop of `setParams` at index `i`: an option word applies its setter, any other token is skipped. */
  function ApplyToken(s: ParamsState, tokens: seq<string>, i: nat): (r: ParamsState)
    requires i < |tokens| && ArgsInRange(tokens, i)
    ensures r.title == s.title && r.id == s.id
    ensures !IsOptionWord(tokens[i]) ==> r == s
  {
    if tokens[i] == "-t" then WithKind(s, Some(tokens[i + 1]))
    else if tokens[i] == "-y" then WithYear(s, Some(tokens[i + 1]))
    else if tokens[i] == "-r" then WithYearRange(s, Some(tokens[i + 1]), Some(tokens[i + 2]))
    else s
  }

  /** The state after the loop of `setParams` has visited every index from `i` on, one token at a time. */
  function ScanFrom(s: ParamsState, tokens: seq<string>, i: nat): (r: ParamsState)
    requires ArgsInRange(tokens, i)
    ensures r.title == s.title && r.id == s.id
    ensures (forall j :: i <= j < |tokens| ==> !IsOptionWord(tokens[j])) ==> r == s
    decreases |tokens| - i
  {
    if i >= |tokens| then s else ScanFrom(ApplyToken(s, tokens, i), tokens, i + 1)
  }

  /**
   * `setParams(params, tokens)`: the title is `tokens[1]`; then every token
   * from index 2 is visited and each option word calls its setter.
   */
  method SetParams(params: RequestParams, tokens: seq<string>)
    requires |tokens| >= 2 && ArgsInRange(tokens, 2)
    modifies params
    ensures params.State() == ScanFrom(WithTitle(old(params.State()), Some(tokens[1])), tokens, 2)
  {
    params.SetTitle(Some(tokens[1]));
    ghost var start := params.State();
    var i := 2;
    while i < |tokens|
      invariant 2 <= i <= |tokens| && ArgsInRange(tokens, i)
      invariant ScanFrom(params.State(), tokens, i) == ScanFrom(start, tokens, 2)
      decreases |tokens| - i
    {
      ghost var before := params.State();
      if tokens[i] == "-t" {
        params.SetType(Some(tokens[i + 1]));
      } else if tokens[i] == "-y" {
        params.SetYear(Some(tokens[i + 1]));
      } else if tokens[i] == "-r" {
        params.SetYearRange(Some(tokens[i + 1]), Some(tokens[i + 2]));
      }
      assert params.State() == ApplyToken(before, tokens, i);
      i := i + 1;
    }
  }

  // ---------------------------------------------------------------------
  // The options as values, and what `setParams` does with them
  // ---------------------------------------------------------------------

  function ApplyOpt(s: ParamsState, o: Opt): ParamsState
  {
    match o
    case TypeOpt(t) => WithKind(s, Some(t))
    case YearOpt(y) => WithYear(s, Some(y))
    case RangeOpt(a, b) => WithYearRange(s, Some(a), Some(b))
  }

  /** The options applied in the order written. */
  function ApplyOpts(s: ParamsState, opts: seq<Opt>): ParamsState
    decreases opts
  {
    if opts == [] then s else ApplyOpts(ApplyOpt(s, opts[0]), opts[1..])
  }

  /** Applying two lists of options one after the other is applying their concatenation. */
  lemma {:induction false} ApplyOptsAppend(s: ParamsState, a: seq<Opt>, b: seq<Opt>)
    ensures ApplyOpts(s, a + b) == ApplyOpts(ApplyOpts(s, a), b)
    decreases a
  {
    if a != [] {
      assert (a + b)[0] == a[0] && (a + b)[1..] == a[1..] + b;
      ApplyOptsAppend(ApplyOpt(s, a[0]), a[1..], b);
    } else {
      assert a + b == b;
    }
  }

  /** Arguments are never option words: a type is a word, a year an integer. */
  lemma ArgumentsAreNotOptionWords(t: string)
    ensures t in Types ==> !IsOptionWord(t)
    ensures IsInteger(t) ==> !IsOptionWord(t)
  {
    OptionWordsAreNotIntegers();
  }

  /** How many tokens the option starting with `token` takes, itself included. */
  function Width(token: string): nat
  {
    if token == "-r" then 3 else 2
  }

  /**
   * One option of a well-formed list: an option word, its arguments (none of
   * them an option word) and a well-formed rest.
   */
  lemma ParseFromStep(tokens: seq<string>, i: nat)
    requires i < |tokens| && ParseFrom(tokens, i).Some?
    ensures IsOptionWord(tokens[i]) && i + Width(tokens[i]) <= |tokens|
    ensures forall j :: i < j < i + Width(tokens[i]) ==> !IsOptionWord(tokens[j])
    ensures ParseFrom(tokens, i + Width(tokens[i])).Some?
    ensures |ParseFrom(tokens, i).value| > 0
    ensures ParseFrom(tokens, i).value[1..] == ParseFrom(tokens, i + Width(tokens[i])).value
  {
    ArgumentsAreNotOptionWords(tokens[i + 1]);
    if tokens[i] == "-r" {
      ArgumentsAreNotOptionWords(tokens[i + 2]);
    }
  }

  /** A well-formed option list keeps every option's arguments inside the array. */
  lemma {:induction false} ParsedArgsInRange(tokens: seq<string>, i: nat)
    requires ParseFrom(tokens, i).Some?
    ensures ArgsInRange(tokens, i)
    decreases |tokens| - i
  {
    if i < |tokens| {
      ParseFromStep(tokens, i);
      ParsedArgsInRange(tokens, i + Width(tokens[i]));
    }
  }

  /** Every command `validateInput` accepts with a title can be given to `setParams`. */
  lemma ValidatedArgsInRange(tokens: seq<string>)
    requires |tokens| >= 2 && ValidCommand(tokens)
    ensures ArgsInRange(tokens, 2)
  {
    ParsedArgsInRange(tokens, 2);
  }

  /** The visits to an option's arguments change nothing: they are not option words. */
  lemma SkipArguments(s: ParamsState, tokens: seq<string>, i: nat, n: nat)
    requires i + n <= |tokens| && ArgsInRange(tokens, i)
    requires forall j :: i <= j < i + n ==> !IsOptionWord(tokens[j])
    ensures ScanFrom(s, tokens, i) == ScanFrom(s, tokens, i + n)
    decreases n
  {
    if n > 0 {
      assert !IsOptionWord(tokens[i]);
      SkipArguments(s, tokens, i + 1, n - 1);
    }
  }

  /**
   * On a well-formed option list the token-by-token loop of `setParams` does
   * exactly what the options say, in the order written.
   */
  lemma {:induction false} ScanAppliesOptions(s: ParamsState, tokens: seq<string>, i: nat)
    requires ParseFrom(tokens, i).Some?
    ensures ArgsInRange(tokens, i)
    ensures ScanFrom(s, tokens, i) == ApplyOpts(s, ParseFrom(tokens, i).value)
    decreases |tokens| - i
  {
    ParsedArgsInRange(tokens, i);
    if i < |tokens| {
      var n := Width(tokens[i]);
      ParseFromStep(tokens, i);
      var o := ParseFrom(tokens, i).value[0];
      var s1 := ApplyToken(s, tokens, i);
      assert s1 == ApplyOpt(s, o);
      ScanAppliesOptions(s1, tokens, i + n);
      SkipArguments(s1, tokens, i + 1, n - 1);
    }
  }

  /**
   * `setParams` on a validated search command: the title is `tokens[1]`, the
   * ID is untouched, and the options apply in the order written.
   */
  lemma SetParamsFollowsOptions(s: ParamsState, tokens: seq<string>)
    requires |tokens| >= 2 && ValidCommand(tokens)
    ensures ArgsInRange(tokens, 2)
    ensures ScanFrom(WithTitle(s, Some(tokens[1])), tokens, 2)
      == ApplyOpts(WithTitle(s, Some(tokens[1])), ParseFrom(tokens, 2).value)
  {
    ScanAppliesOptions(WithTitle(s, Some(tokens[1])), tokens, 2);
  }

  /** Options set only the type and the years: the title and the ID stay. */
  lemma {:induction false} OptionsKeepTitleAndId(s: ParamsState, opts: seq<Opt>)
    ensures ApplyOpts(s, opts).title == s.title && ApplyOpts(s, opts).id == s.id
    decreases opts
  {
    if opts != [] {
      OptionsKeepTitleAndId(ApplyOpt(s, opts[0]), opts[1..]);
    }
  }

  /**
   * The last year option wins: after a `-y` or a complete `-r`, followed only
   * by `-t` options, the year getters show that option alone.
   */
  lemma {:induction false} LastYearOptionWins(s: ParamsState, before: seq<Opt>, o: Opt, after: seq<Opt>)
    requires !o.TypeOpt?
    requires forall k :: 0 <= k < |after| ==> after[k].TypeOpt?
    ensures o.YearOpt? ==> Years(ApplyOpts(s, before + [o] + after)) == (Some(o.year), None, None)
    ensures o.RangeOpt? ==> Years(ApplyOpts(s, before + [o] + after)) == (None, Some(o.from), Some(o.to))
  {
    ApplyOptsAppend(s, before + [o], after);
    ApplyOptsAppend(s, before, [o]);
    var t := ApplyOpt(ApplyOpts(s, before), o);
    assert ApplyOpts(ApplyOpts(s, before), [o]) == t;
    TypeOptionsKeepYears(t, after);
  }

  lemma {:induction false} TypeOptionsKeepYears(s: ParamsState, opts: seq<Opt>)
    requires forall k :: 0 <= k < |opts| ==> opts[k].TypeOpt?
    ensures Years(ApplyOpts(s, opts)) == Years(s)
    decreases opts
  {
    if opts != [] {
      TypeOptionsKeepYears(ApplyOpt(s, opts[0]), opts[1..]);
    }
  }

  /** The unit test's last case: `-r 2004 2008 -y 1998` leaves the single year 1998 and no range. */
  lemma SetParamsExample(s: ParamsState)
    ensures ArgsInRange(["buscar", "abc", "-r", "2004", "2008", "-y", "1998"], 2)
    ensures Years(ScanFrom(WithTitle(s, Some("abc")), ["buscar", "abc", "-r", "2004", "2008", "-y", "1998"], 2))
      == (Some("1998"), None, None)
  {
    var tokens := ["buscar", "abc", "-r", "2004", "2008", "-y", "1998"];
    assert tokens[3] != "-r" && tokens[4] != "-r" && tokens[6] != "-r";
    var s2 := WithYearRange(WithTitle(s, Some("abc")), Some("2004"), Some("2008"));
    assert ScanFrom(s2, tokens, 5) == WithYear(s2, Some("1998"));
  }
}
