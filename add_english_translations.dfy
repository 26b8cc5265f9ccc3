/**
 * add_english_translations.py: fills the English column of the translation table from a
 * dictionary literal with repeated keys, matching whole texts only.
 */
module AddEnglishTranslations {
  import opened Wrappers
  import opened Text
  import opened TranslationTables

  /** `translate_text`: nothing for a blank text, the value of the text when it is a key, and
      nothing otherwise. Its loop over the items only executes `pass`, so it has no effect. */
  function Translate(d: Dict, text: string): (english: string)
    ensures IsBlank(text) ==> english == ""
  {
    if IsBlank(text) then ""
    else Lookup(d, text).GetOr("")
  }

  /** There is no partial matching: a text that is not a key yields nothing, even when it
      contains one; a key yields its value. */
  lemma TranslateSpec(d: Dict, text: string)
    ensures !IsBlank(text) && Lookup(d, text).Some? ==> Translate(d, text) == Lookup(d, text).value
    ensures Lookup(d, text).None? ==> Translate(d, text) == ""
    ensures Translate(d, text) != "" ==> exists i :: 0 <= i < |d| && d[i] == (text, Translate(d, text))
  {
  }

  /** The rewrite of row `index` of the file: the two header rows and rows of fewer than three
      fields stay; any other row becomes [code, page, Korean, English], where the Korean text is
      quoted when needed and the English text is the existing one, unstripped, when that is not
      blank and the translation otherwise. */
  function RewriteRow(d: Dict, index: nat, row: seq<string>): seq<string> {
    if index < 2 || |row| < 3 then row
    else
      var korean := row[2];
      var existing := if |row| > 3 then row[3] else "";
      var english := if !IsBlank(existing) then existing else Translate(d, korean);
      [row[0], row[1], QuoteField(korean), if english != "" then english else ""]
  }

  /** What the rewrite keeps and what it builds. */
  lemma RewriteRowSpec(d: Dict, index: nat, row: seq<string>)
    ensures index < 2 || |row| < 3 ==> RewriteRow(d, index, row) == row
    ensures index >= 2 && |row| >= 3 ==>
              var r := RewriteRow(d, index, row);
              |r| == 4 && r[0] == row[0] && r[1] == row[1]
              && r[2] == QuoteField(row[2]) && ReadField(r[2]) == row[2]
              && (|row| > 3 && !IsBlank(row[3]) ==> r[3] == row[3])
              && (|row| == 3 || IsBlank(row[3]) ==> r[3] == Translate(d, row[2]))
  {
    if index >= 2 && |row| >= 3 {
      QuoteFieldSpec(row[2]);
    }
  }

  /** The loop of `process_csv` over the rows read from the file. */
  method ProcessRows(d: Dict, rows: seq<seq<string>>) returns (out: seq<seq<string>>)
    ensures |out| == |rows|
    ensures forall i :: 0 <= i < |rows| ==> out[i] == RewriteRow(d, i, rows[i])
  {
    out := [];
    for i := 0 to |rows|
      invariant |out| == i
      invariant forall k :: 0 <= k < i ==> out[k] == RewriteRow(d, k, rows[k])
    {
      var row := rows[i];
      if i == 0 || i == 1 {
        out := out + [row];
      } else if |row| >= 3 {
        var code := row[0];
        var page := row[1];
        var koreanText := row[2];
        var existingEnglish := if |row| > 3 then row[3] else "";
        var english;
        if !IsBlank(existingEnglish) {
          english := existingEnglish;
        } else {
          english := Translate(d, koreanText);
        }
        var newRow := [code, page];
        newRow := newRow + [QuoteField(koreanText)];
        if english != "" {
          newRow := newRow + [english];
        } else {
          newRow := newRow + [""];
        }
        out := out + [newRow];
      } else {
        out := out + [row];
      }
    }
  }

  /** The weekday and date-unit items of the literal (its lines for 월 … 일 and the later 일 and
      월): "일" ends up meaning "Day", not "Sun", and "월" keeps "Month". */
  lemma DuplicateDayKey()
    ensures var d := DictLiteral([("월", "Month"), ("화", "Tue"), ("수", "Wed"), ("목", "Thu"), ("금", "Fri"),
                                  ("토", "Sat"), ("일", "Sun"), ("일", "Day"), ("월", "Month")]);
            Translate(d, "일") == "Day" && Translate(d, "월") == "Month"
  {
    var a := [("월", "Month"), ("화", "Tue"), ("수", "Wed"), ("목", "Thu"), ("금", "Fri"), ("토", "Sat"), ("일", "Sun")];
    var e := a + [("일", "Day")] + [("월", "Month")];
    assert e == [("월", "Month"), ("화", "Tue"), ("수", "Wed"), ("목", "Thu"), ("금", "Fri"),
                 ("토", "Sat"), ("일", "Sun"), ("일", "Day"), ("월", "Month")];
    LaterDuplicateWins(a, "일", "Day", [("월", "Month")]);
    assert LastValue(e, "월") == Some("Month");
    assert !IsBlank("일") by { assert !IsWhitespace("일"[0]); }
    assert !IsBlank("월") by { assert !IsWhitespace("월"[0]); }
  }

  /** The two scripts differ on an English text with surrounding blanks: this one keeps it as is. */
  lemma KeepsUnstrippedEnglish(d: Dict)
    ensures RewriteRow(d, 2, ["c", "p", "안녕", " Hi "])[3] == " Hi "
  {
    assert !IsBlank(" Hi ") by { assert !IsWhitespace(" Hi "[1]); }
  }
}
