/**
 * The parsed JSON values the client reads: Gson's `JsonNull`, `JsonPrimitive`,
 * `JsonArray` and `JsonObject`, with `get(key)`, `toString()` and the
 * quote-stripping the client applies to printed values.
 */
module Json {
  import opened Wrappers

  /**
   * A parsed JSON value. A primitive keeps the text Gson prints for it: a
   * quoted string, a number, `true` or `false`. An object keeps its members in
   * the order Gson iterates its key set.
   */
  datatype Value =
    | Null
    | Prim(text: string)
    | Arr(elems: seq<Value>)
    | Obj(members: seq<Member>)

  datatype Member = Member(key: string, value: Value)

  /** `JsonObject.get(key)`: the value of the first member named `key`, or null when there is none. */
  function Get(ms: seq<Member>, key: string): Option<Value>
  {
    if ms == [] then None
    else if ms[0].key == key then Some(ms[0].value)
    else Get(ms[1..], key)
  }

  /** `get` finds a member exactly when one has the key, and then the first such member. */
  lemma {:induction false} GetFindsFirst(ms: seq<Member>, key: string)
    ensures Get(ms, key).None? <==> forall i :: 0 <= i < |ms| ==> ms[i].key != key
    ensures Get(ms, key).Some? ==>
      exists i :: 0 <= i < |ms| && ms[i] == Member(key, Get(ms, key).value) && (forall k :: 0 <= k < i ==> ms[k].key != key)
  {
    if ms != [] && ms[0].key != key {
      GetFindsFirst(ms[1..], key);
      if Get(ms, key).Some? {
        var i :| 0 <= i < |ms[1..]| && ms[1..][i] == Member(key, Get(ms, key).value)
          && forall k :: 0 <= k < i ==> ms[1..][k].key != key;
        assert ms[i + 1] == Member(key, Get(ms, key).value);
        assert forall k :: 0 <= k < i + 1 ==> ms[k].key != key by {
          forall k | 0 <= k < i + 1 ensures ms[k].key != key {
            if k > 0 { assert ms[k] == ms[1..][k - 1]; }
          }
        }
      } else {
        assert forall i :: 0 < i < |ms| ==> ms[i] == ms[1..][i - 1];
      }
    } else if ms != [] {
      assert ms[0] == Member(key, Get(ms, key).value);
    }
  }

  /** `toString()` of a value: Gson's compact form, without spaces. */
  function Text(v: Value): (r: string)
    ensures v.Arr? || v.Obj? ==> |r| >= 2
  {
    match v
    case Null => "null"
    case Prim(t) => t
    case Arr(es) => "[" + ElemsText(es) + "]"
    case Obj(ms) => "{" + MembersText(ms) + "}"
  }

  /**
   * The printed text of an array opens with `[` and closes with `]`, that of
   * an object with `{` and `}`; null prints as `null` and a primitive as its
   * own text.
   */
  lemma TextDelimiters(v: Value)
    ensures v.Arr? ==> Text(v)[0] == '[' && Text(v)[|Text(v)| - 1] == ']'
    ensures v.Obj? ==> Text(v)[0] == '{' && Text(v)[|Text(v)| - 1] == '}'
    ensures v.Null? ==> Text(v) == "null"
    ensures v.Prim? ==> Text(v) == v.text
  {
  }

  function ElemsText(es: seq<Value>): string
  {
    if es == [] then ""
    else if |es| == 1 then Text(es[0])
    else Text(es[0]) + "," + ElemsText(es[1..])
  }

  function MembersText(ms: seq<Member>): string
  {
    if ms == [] then ""
    else if |ms| == 1 then MemberText(ms[0])
    else MemberText(ms[0]) + "," + MembersText(ms[1..])
  }

  function MemberText(m: Member): string
  {
    "\"" + m.key + "\":" + Text(m.value)
  }

  /** `s.replace("\"", "")`: every double quote removed, every other character kept in order. */
  function StripQuotes(s: string): (r: string)
    ensures '"' !in r
  {
    if s == [] then ""
    else
      var last := s[|s| - 1];
      StripQuotes(s[..|s| - 1]) + (if last == '"' then "" else [last])
  }

  /** Only quotes go: every other character keeps its number of occurrences, and a string without quotes is unchanged. */
  lemma {:induction false} StripQuotesKeepsOthers(s: string)
    ensures forall c :: c != '"' ==> multiset(StripQuotes(s))[c] == multiset(s)[c]
    ensures '"' !in s ==> StripQuotes(s) == s
  {
    if s != [] {
      var init, last := s[..|s| - 1], s[|s| - 1];
      StripQuotesKeepsOthers(init);
      assert s == init + [last];
      assert multiset(s) == multiset(init) + multiset{last};
      var tail := if last == '"' then "" else [last];
      assert StripQuotes(s) == StripQuotes(init) + tail;
      assert multiset(StripQuotes(s)) == multiset(StripQuotes(init)) + multiset(tail);
    }
  }

  /** Stripping `s + [c]` strips `s` and then keeps `c` unless it is a quote. */
  lemma StripQuotesSnoc(s: string, c: char)
    ensures StripQuotes(s + [c]) == StripQuotes(s) + (if c == '"' then "" else [c])
  {
    assert (s + [c])[..|s|] == s;
  }

  /**
   * Stripping works character by character and keeps the order: the
   * stripped concatenation is the concatenation of the stripped parts.
   */
  lemma {:induction false} StripQuotesConcat(a: string, b: string)
    ensures StripQuotes(a + b) == StripQuotes(a) + StripQuotes(b)
  {
    if b == [] {
      assert a + b == a;
    } else {
      var init, last := b[..|b| - 1], b[|b| - 1];
      assert b == init + [last];
      assert a + b == (a + init) + [last];
      StripQuotesConcat(a, init);
      StripQuotesSnoc(a + init, last);
      StripQuotesSnoc(init, last);
    }
  }

  /** One character survives stripping exactly when it is not a quote. */
  lemma StripQuotesChar(c: char)
    ensures StripQuotes([c]) == if c == '"' then "" else [c]
  {
    assert [c][..0] == [];
  }

  /** Stripping twice is stripping once. */
  lemma StripQuotesIdempotent(s: string)
    ensures StripQuotes(StripQuotes(s)) == StripQuotes(s)
  {
    StripQuotesKeepsOthers(StripQuotes(s));
  }
}
