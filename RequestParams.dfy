/**
 * `RequestParams`: the mutable bag of query parameters. A single year and a
 * year range share the two stored fields `startYear`/`endYear`; the getters
 * decide which of the two the object currently holds, so they can never both
 * be visible.
 */
module OmdbParams {
  import opened Wrappers

  /**
   * The five stored fields, exactly as the object holds them. `kind` is the
   * source's `type` field (a reserved word here).
   */
  datatype ParamsState = ParamsState(
    title: Option<string>,
    kind: Option<string>,
    startYear: Option<string>,
    endYear: Option<string>,
    id: Option<string>)

  /** Every field null: a fresh object, or one after `reset()`. */
  const Cleared: ParamsState := ParamsState(None, None, None, None, None)

  // ---------------------------------------------------------------------
  // The year getters
  // ---------------------------------------------------------------------

  /** `getYear()`: the stored start year, visible only while no end year is stored. */
  function YearOf(s: ParamsState): (r: Option<string>)
    ensures r.Some? ==> StartYearOf(s).None? && EndYearOf(s).None?
    ensures r.Some? ==> r == s.startYear
  {
    if s.endYear.None? then s.startYear else None
  }

  /** `getStartYear()`: the stored start year, visible only while an end year is stored. */
  function StartYearOf(s: ParamsState): (r: Option<string>)
    ensures r.Some? <==> EndYearOf(s).Some?
    ensures r.Some? ==> r == s.startYear
  {
    if s.endYear.None? then None else s.startYear
  }

  /** `getEndYear()`: the stored end year, visible only while a start year is stored. */
  function EndYearOf(s: ParamsState): (r: Option<string>)
    ensures r.Some? <==> s.startYear.Some? && s.endYear.Some?
    ensures r.Some? ==> r == s.endYear
  {
    if s.startYear.None? then None else s.endYear
  }

  /** What the three year getters show, as one value. */
  function Years(s: ParamsState): (Option<string>, Option<string>, Option<string>)
  {
    (YearOf(s), StartYearOf(s), EndYearOf(s))
  }

  /** Whatever is stored, the getters show either a single year, or a complete range, or nothing. */
  lemma YearGettersExclusive(s: ParamsState)
    ensures !(YearOf(s).Some? && StartYearOf(s).Some?)
    ensures StartYearOf(s).Some? <==> EndYearOf(s).Some?
  {
  }

  // ---------------------------------------------------------------------
  // The state changes, on values
  // ---------------------------------------------------------------------

  /** `setTitle(t)`: only the title changes. */
  function WithTitle(s: ParamsState, t: Option<string>): (r: ParamsState)
    ensures r.title == t
    ensures r.kind == s.kind && r.id == s.id && Years(r) == Years(s)
  {
    s.(title := t)
  }

  /** `setType(t)`: only the type changes. */
  function WithKind(s: ParamsState, t: Option<string>): (r: ParamsState)
    ensures r.kind == t
    ensures r.title == s.title && r.id == s.id && Years(r) == Years(s)
  {
    s.(kind := t)
  }

  /** `setId(i)`: only the ID changes. */
  function WithId(s: ParamsState, i: Option<string>): (r: ParamsState)
    ensures r.id == i
    ensures r.title == s.title && r.kind == s.kind && Years(r) == Years(s)
  {
    s.(id := i)
  }

  /** `setYear(y)`: the single year is `y` and no range is visible; title, type and ID stay. */
  function WithYear(s: ParamsState, y: Option<string>): (r: ParamsState)
    ensures YearOf(r) == y && StartYearOf(r).None? && EndYearOf(r).None?
    ensures r.title == s.title && r.kind == s.kind && r.id == s.id
  {
    s.(startYear := y, endYear := None)
  }

  /**
   * `setYearRange(a, b)`: with both bounds the range is visible and the single
   * year is not; with no upper bound it acts as `setYear(a)`; with no lower
   * bound every year getter shows null. Title, type and ID stay.
   */
  function WithYearRange(s: ParamsState, a: Option<string>, b: Option<string>): (r: ParamsState)
    ensures a.Some? && b.Some? ==> StartYearOf(r) == a && EndYearOf(r) == b && YearOf(r).None?
    ensures b.None? ==> Years(r) == Years(WithYear(s, a))
    ensures a.None? ==> Years(r) == (None, None, None)
    ensures r.title == s.title && r.kind == s.kind && r.id == s.id
  {
    s.(startYear := a, endYear := b)
  }

  /**
   * The copy constructor copies through the getters: title, type, ID and a
   * year range survive, a single year does not.
   */
  function CopyOf(s: ParamsState): (r: ParamsState)
    ensures r.title == s.title && r.kind == s.kind && r.id == s.id
    ensures StartYearOf(r) == StartYearOf(s) && EndYearOf(r) == EndYearOf(s)
    ensures YearOf(r).None?
  {
    ParamsState(s.title, s.kind, StartYearOf(s), EndYearOf(s), s.id)
  }

  /** A later `setYear` overrides an earlier `setYearRange`, and a later complete `setYearRange` overrides an earlier `setYear`. */
  lemma LaterYearSettingWins(s: ParamsState, y: Option<string>, a: Option<string>, b: Option<string>)
    ensures Years(WithYear(WithYearRange(s, a, b), y)) == Years(WithYear(s, y)) == (y, None, None)
    ensures a.Some? && b.Some? ==> Years(WithYearRange(WithYear(s, y), a, b)) == (None, a, b)
  {
  }

  // ---------------------------------------------------------------------
  // The object
  // ---------------------------------------------------------------------

  class RequestParams {
    var title: Option<string>
    var kind: Option<string>
    var startYear: Option<string>
    var endYear: Option<string>
    var id: Option<string>

    /** The stored fields as a value. */
    function State(): ParamsState
      reads this
    {
      ParamsState(title, kind, startYear, endYear, id)
    }

    function Title(): Option<string> reads this { title }
    function Type(): Option<string> reads this { kind }
    function Id(): Option<string> reads this { id }
    function Year(): Option<string> reads this { YearOf(State()) }
    function StartYear(): Option<string> reads this { StartYearOf(State()) }
    function EndYear(): Option<string> reads this { EndYearOf(State()) }

    /** `new RequestParams()`: every field null. */
    constructor ()
      ensures State() == Cleared
    {
      title, kind, startYear, endYear, id := None, None, None, None, None;
    }

    /** `new RequestParams(p)`: copies `p` through its getters; `p` is not changed. */
    constructor Copy(p: RequestParams)
      ensures State() == CopyOf(p.State())
    {
      title := p.Title();
      kind := p.Type();
      startYear := p.StartYear();
      endYear := p.EndYear();
      id := p.Id();
    }

    method SetTitle(t: Option<string>)
      modifies this
      ensures State() == WithTitle(old(State()), t)
    {
      title := t;
    }

    method SetType(t: Option<string>)
      modifies this
      ensures State() == WithKind(old(State()), t)
    {
      kind := t;
    }

    method SetYear(y: Option<string>)
      modifies this
      ensures State() == WithYear(old(State()), y)
    {
      startYear := y;
      endYear := None;
    }

    method SetYearRange(a: Option<string>, b: Option<string>)
      modifies this
      ensures State() == WithYearRange(old(State()), a, b)
    {
      startYear := a;
      endYear := b;
    }

    method SetId(i: Option<string>)
      modifies this
      ensures State() == WithId(old(State()), i)
    {
      id := i;
    }

    /** `reset()`: every field back to null, so every getter shows null. */
    method Reset()
      modifies this
      ensures State() == Cleared
      ensures Years(State()) == (None, None, None)
    {
      title, kind, startYear, endYear, id := None, None, None, None, None;
    }
  }
}
