/**
 * What the two translation scripts share: the Korean-to-English table, a Python `dict` kept in
 * insertion order, and the quoting of the Korean field of a CSV row after items 6 and 7 of
 * section 2 of RFC 4180 (a field holding a comma, a line break or a double quote is enclosed in
 * double quotes, and a double quote inside it is written twice).
 */
module TranslationTables {
  import opened Wrappers
  import opened Text

  /** A Python `dict` of strings: its items in insertion order. */
  type Dict = seq<(string, string)>

  predicate DistinctKeys(d: Dict) {
    forall i, j :: 0 <= i < j < |d| ==> d[i].0 != d[j].0
  }

  /** `translations[k]` when `k in translations`. */
  function Lookup(d: Dict, k: string): (r: Option<string>)
    ensures r.Some? <==> exists i :: 0 <= i < |d| && d[i].0 == k
    ensures r.Some? ==> exists i :: 0 <= i < |d| && d[i] == (k, r.value)
  {
    if d == [] then None
    else if d[0].0 == k then Some(d[0].1)
    else Lookup(d[1..], k)
  }

  /** `d[k] = v`: an existing key keeps its place and takes the new value; a new key goes last. */
  function Put(d: Dict, k: string, v: string): (r: Dict)
    ensures |r| == |d| || |r| == |d| + 1
    ensures forall i :: 0 <= i < |d| ==> r[i].0 == d[i].0
    ensures |r| == |d| + 1 ==> r[|d|] == (k, v)
    ensures DistinctKeys(d) ==> DistinctKeys(r)
    ensures forall x :: Lookup(r, x) == if x == k then Some(v) else Lookup(d, x)
  {
    if d == [] then [(k, v)]
    else if d[0].0 == k then [(k, v)] + d[1..]
    else [d[0]] + Put(d[1..], k, v)
  }

  /** The value the last item of a literal with key `k` gives it. */
  function LastValue(entries: seq<(string, string)>, k: string): Option<string> {
    if entries == [] then None
    else if entries[|entries| - 1].0 == k then Some(entries[|entries| - 1].1)
    else LastValue(entries[..|entries| - 1], k)
  }

  /** The `dict` a literal `{k1: v1, k2: v2, …}` builds: a repeated key keeps the place of its first
      item and the value of its last one. */
  function DictLiteral(entries: seq<(string, string)>): (d: Dict)
    ensures DistinctKeys(d)
    ensures forall k :: Lookup(d, k) == LastValue(entries, k)
  {
    if entries == [] then []
    else Put(DictLiteral(entries[..|entries| - 1]), entries[|entries| - 1].0, entries[|entries| - 1].1)
  }

  /** Items with other keys do not change the value a key ends with. */
  lemma {:induction false} LastValueSkips(e: seq<(string, string)>, b: seq<(string, string)>, k: string)
    requires forall i :: 0 <= i < |b| ==> b[i].0 != k
    ensures LastValue(e + b, k) == LastValue(e, k)
    decreases |b|
  {
    if b == [] {
      assert e + b == e;
    } else {
      assert (e + b)[..|e + b| - 1] == e + b[..|b| - 1];
      LastValueSkips(e, b[..|b| - 1], k);
    }
  }

  /** A later item of a literal overrides an earlier one with the same key. */
  lemma LaterDuplicateWins(a: seq<(string, string)>, k: string, v: string, b: seq<(string, string)>)
    requires forall i :: 0 <= i < |b| ==> b[i].0 != k
    ensures Lookup(DictLiteral(a + [(k, v)] + b), k) == Some(v)
  {
    LastValueSkips(a + [(k, v)], b, k);
    assert (a + [(k, v)])[..|a|] == a;
  }

  // ---------------------------------------------------------------------------------------
  // Quoting one field.
  // ---------------------------------------------------------------------------------------

  /** The field holds a character that forces quoting: a comma, a line feed or a double quote. */
  predicate NeedsQuotes(s: string) {
    ',' in s || '\n' in s || '"' in s
  }

  /** `s.replace('"', '""')`. */
  function DoubleQuotes(s: string): (r: string)
    ensures |r| >= |s|
  {
    if s == [] then []
    else (if s[0] == '"' then "\"\"" else [s[0]]) + DoubleQuotes(s[1..])
  }

  /** The Korean field as the scripts write it: enclosed in quotes, inner quotes doubled, exactly
      when it needs quoting. */
  function QuoteField(s: string): (f: string)
    ensures NeedsQuotes(s) ==> f == "\"" + DoubleQuotes(s) + "\""
    ensures !NeedsQuotes(s) ==> f == s
  {
    if NeedsQuotes(s) then "\"" + DoubleQuotes(s) + "\"" else s
  }

  /** The body of an escaped field: every double quote is one of a pair. */
  predicate WellEscaped(t: string)
    decreases |t|
  {
    t == []
    || (t[0] == '"' && |t| >= 2 && t[1] == '"' && WellEscaped(t[2..]))
    || (t[0] != '"' && WellEscaped(t[1..]))
  }

  /** Reads the body of an escaped field back: each pair of double quotes is one quote. */
  function Unescape(t: string): string
    decreases |t|
  {
    if t == [] then []
    else if |t| >= 2 && t[0] == '"' && t[1] == '"' then "\"" + Unescape(t[2..])
    else [t[0]] + Unescape(t[1..])
  }

  /** An RFC 4180 reader of one field: an escaped field loses its quotes and its doubled quotes. */
  function ReadField(f: string): string {
    if |f| >= 2 && f[0] == '"' && f[|f| - 1] == '"' then Unescape(f[1..|f| - 1]) else f
  }

  lemma {:induction false} DoubleQuotesSpec(s: string)
    ensures WellEscaped(DoubleQuotes(s))
    ensures Unescape(DoubleQuotes(s)) == s
    decreases |s|
  {
    if s != [] {
      DoubleQuotesSpec(s[1..]);
      var t := DoubleQuotes(s);
      if s[0] == '"' {
        assert t[2..] == DoubleQuotes(s[1..]);
      } else {
        assert t[1..] == DoubleQuotes(s[1..]);
      }
    }
  }

  /** The written field is a well-formed RFC 4180 field that reads back as the text it was made
      from; an unquoted field holds none of the characters that force quoting. */
  lemma QuoteFieldSpec(s: string)
    ensures ReadField(QuoteField(s)) == s
    ensures NeedsQuotes(s) ==> var f := QuoteField(s);
              |f| >= 2 && f[0] == '"' && f[|f| - 1] == '"' && WellEscaped(f[1..|f| - 1])
    ensures !NeedsQuotes(s) ==> ',' !in QuoteField(s) && '\n' !in QuoteField(s) && '"' !in QuoteField(s)
  {
    DoubleQuotesSpec(s);
    if NeedsQuotes(s) {
      var f := QuoteField(s);
      assert f[1..|f| - 1] == DoubleQuotes(s);
    } else if |s| >= 2 {
      assert s[0] != '"';
    }
  }
}
