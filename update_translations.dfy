/**
 * update_translations.py: fills the English column of the translation table from a fixed
 * Korean-to-English dictionary, matching a whole text first and then any key it contains.
 */
module UpdateTranslations {
  import opened Wrappers
  import opened Text
  import opened TranslationTables

  /** The value of the first key, in insertion order, that occurs in `text`. */
  function FirstContainedKey(d: Dict, text: string): (r: Option<string>)
    ensures r.Some? <==> exists i :: 0 <= i < |d| && IsSubstring(d[i].0, text)
  {
    if d == [] then None
    else if IsSubstring(d[0].0, text) then Some(d[0].1)
    else FirstContainedKey(d[1..], text)
  }

  /** `translate_text`: nothing for a blank text, the value of the text itself when it is a key,
      else the value of the first key it contains, else nothing. */
  function Translate(d: Dict, text: string): string {
    if IsBlank(text) then ""
    else match Lookup(d, text)
      case Some(v) => v
      case None => FirstContainedKey(d, text).GetOr("")
  }

  /** The partial match is the first key, in insertion order, contained in the text. */
  lemma {:induction false} FirstContainedKeyIsFirst(d: Dict, text: string)
    ensures var r := FirstContainedKey(d, text);
            r.Some? ==> exists i :: 0 <= i < |d| && IsSubstring(d[i].0, text) && d[i].1 == r.value
                                    && forall j :: 0 <= j < i ==> !IsSubstring(d[j].0, text)
  {
    if d != [] && !IsSubstring(d[0].0, text) {
      FirstContainedKeyIsFirst(d[1..], text);
      var r := FirstContainedKey(d, text);
      if r.Some? {
        var i :| 0 <= i < |d[1..]| && IsSubstring(d[1..][i].0, text) && d[1..][i].1 == r.value
                 && forall j :: 0 <= j < i ==> !IsSubstring(d[1..][j].0, text);
        assert d[i + 1] == d[1..][i];
        forall j | 0 <= j < i + 1
          ensures !IsSubstring(d[j].0, text)
        {
          if j > 0 {
            assert d[j] == d[1..][j - 1];
          }
        }
      }
    }
  }

  /** Only one key can be the first contained one. */
  lemma FirstIndexUnique(d: Dict, text: string, i: int, k: int)
    requires 0 <= i < |d| && IsSubstring(d[i].0, text) && forall j :: 0 <= j < i ==> !IsSubstring(d[j].0, text)
    requires 0 <= k < |d| && IsSubstring(d[k].0, text) && forall j :: 0 <= j < k ==> !IsSubstring(d[j].0, text)
    ensures i == k
  {
  }

  /** What `translate_text` gives, case by case. */
  lemma TranslateSpec(d: Dict, text: string)
    ensures IsBlank(text) ==> Translate(d, text) == ""
    ensures !IsBlank(text) && Lookup(d, text).Some? ==> Translate(d, text) == Lookup(d, text).value
    ensures !IsBlank(text) && Lookup(d, text).None? ==>
              ((forall i :: 0 <= i < |d| ==> !IsSubstring(d[i].0, text)) ==> Translate(d, text) == "")
              && (forall i | 0 <= i < |d| && IsSubstring(d[i].0, text)
                               && (forall j :: 0 <= j < i ==> !IsSubstring(d[j].0, text))
                    :: Translate(d, text) == d[i].1)
  {
    FirstContainedKeyIsFirst(d, text);
    if !IsBlank(text) && Lookup(d, text).None? {
      forall i | 0 <= i < |d| && IsSubstring(d[i].0, text) && (forall j :: 0 <= j < i ==> !IsSubstring(d[j].0, text))
        ensures Translate(d, text) == d[i].1
      {
        var k :| 0 <= k < |d| && IsSubstring(d[k].0, text) && d[k].1 == FirstContainedKey(d, text).value
                 && forall j :: 0 <= j < k ==> !IsSubstring(d[j].0, text);
        FirstIndexUnique(d, text, i, k);
      }
    }
  }

  /** `translate_text` with its loop over `translations.items()` and its early returns. */
  method TranslateText(d: Dict, text: string) returns (english: string)
    ensures english == Translate(d, text)
  {
    if IsBlank(text) {
      return "";
    }
    var exact := Lookup(d, text);
    if exact.Some? {
      return exact.value;
    }
    var i := 0;
    while i < |d|
      invariant 0 <= i <= |d|
      invariant FirstContainedKey(d[i..], text) == FirstContainedKey(d, text)
    {
      assert d[i..][1..] == d[i + 1..];
      if IsSubstring(d[i].0, text) {
        return d[i].1;
      }
      i := i + 1;
    }
    return "";
  }

  /** The rewrite of row `index` of the file: the two header rows and rows of fewer than three
      fields stay; any other row becomes [code, page, Korean, English], where the Korean text has
      its surrounding double quotes stripped and is quoted again when needed, and the English text
      is the stripped existing one when that is not blank and the translation otherwise. */
  function RewriteRow(d: Dict, index: nat, row: seq<string>): seq<string> {
    if index < 2 || |row| < 3 then row else DataRow(d, row)
  }

  /** The rewrite of a data row of at least three fields. */
  function DataRow(d: Dict, row: seq<string>): seq<string>
    requires |row| >= 3
  {
    var korean := StripChar(row[2], '"');
    var existing := if |row| > 3 then Trim(row[3]) else "";
    var english := if !IsBlank(existing) then existing else Translate(d, korean);
    [row[0], row[1], QuoteField(korean), english]
  }

  /** A blank text stays blank after stripping, and a stripped non-blank text is not blank. */
  lemma TrimKeepsBlankness(s: string)
    ensures IsBlank(Trim(s)) <==> IsBlank(s)
  {
    BlankIffTrimEmpty(s);
    BlankIffTrimEmpty(Trim(s));
    TrimIdempotent(s);
  }

  /** What the rewrite keeps and what it builds. */
  lemma RewriteRowSpec(d: Dict, index: nat, row: seq<string>)
    ensures index < 2 || |row| < 3 ==> RewriteRow(d, index, row) == row
    ensures index >= 2 && |row| >= 3 ==>
              var r := RewriteRow(d, index, row);
              var korean := StripChar(row[2], '"');
              |r| == 4 && r[0] == row[0] && r[1] == row[1]
              && r[2] == QuoteField(korean) && ReadField(r[2]) == korean
              && (|row| > 3 && !IsBlank(row[3]) ==> r[3] == Trim(row[3]))
              && (|row| == 3 || IsBlank(row[3]) ==> r[3] == Translate(d, korean))
  {
    if index >= 2 && |row| >= 3 {
      QuoteFieldSpec(StripChar(row[2], '"'));
      if |row| > 3 {
        TrimKeepsBlankness(row[3]);
      }
    }
  }

  /** The loop of `process_csv` over the rows read from the file. */
  method ProcessRows(d: Dict, rows: seq<seq<string>>) returns (out: seq<seq<string>>)
    ensures |out| == |rows|
    ensures forall i :: 0 <= i < |rows| ==> out[i] == RewriteRow(d, i, rows[i])
  {
    out := [];
    for i := 0 to |rows|
      invariant |out| == i
      invariant forall k :: 0 <= k < i ==> out[k] == RewriteRow(d, k, rows[k])
    {
      var row := rows[i];
      var newRow := row;
      if i != 0 && i != 1 && |row| >= 3 {
        newRow := RewriteDataRow(d, row);
      }
      assert newRow == RewriteRow(d, i, rows[i]);
      RowsStep(d, rows, out, i, newRow);
      out := out + [newRow];
    }
  }

  /** The rewritten rows grow by one row at a time. */
  lemma RowsStep(d: Dict, rows: seq<seq<string>>, out: seq<seq<string>>, i: nat, newRow: seq<string>)
    requires |out| == i < |rows|
    requires forall k :: 0 <= k < i ==> out[k] == RewriteRow(d, k, rows[k])
    requires newRow == RewriteRow(d, i, rows[i])
    ensures forall k :: 0 <= k < i + 1 ==> (out + [newRow])[k] == RewriteRow(d, k, rows[k])
  {
  }

  /** The body of the loop for a data row of at least three fields. */
  method RewriteDataRow(d: Dict, row: seq<string>) returns (newRow: seq<string>)
    requires |row| >= 3
    ensures newRow == DataRow(d, row)
  {
    var code := row[0];
    var page := row[1];
    var koreanText := StripChar(row[2], '"');
    var existingEnglish := if |row| > 3 then Trim(row[3]) else "";
    var english;
    if !IsBlank(existingEnglish) {
      english := existingEnglish;
    } else {
      english := TranslateText(d, koreanText);
    }
    newRow := [code, page];
    newRow := newRow + [QuoteField(koreanText)];
    newRow := newRow + [english];
  }

  /** A whole text that is a key wins over an earlier key it contains (excerpt of the table). */
  lemma ExactMatchFirst()
    ensures var d := [("기념일", "Anniversary"), ("캘린더", "Calendar"), ("기념일 추가", "Add Anniversary")];
            Translate(d, "기념일 추가") == "Add Anniversary" && Translate(d, "새 기념일") == "Anniversary"
  {
    var d := [("기념일", "Anniversary"), ("캘린더", "Calendar"), ("기념일 추가", "Add Anniversary")];
    assert OccursAt("기념일", "새 기념일", 2);
    assert !IsBlank("새 기념일") by { assert !IsWhitespace("새 기념일"[0]); }
    assert !IsBlank("기념일 추가") by { assert !IsWhitespace("기념일 추가"[0]); }
    assert Lookup(d, "새 기념일").None?;
  }
}
