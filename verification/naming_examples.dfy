/** Worked examples of the naming policy on concrete inputs. */
module NamingExamples {
  import opened JsText
  import opened Types
  import opened FileNames

  lemma {:induction false} CleanSourceExamples()
    ensures CleanSource("Report.pdf") == "Report"
    ensures CleanSource("a.b.c") == "a.b"
    ensures CleanSource("noext") == "noext"
    ensures CleanSource("x.") == "x."
  {
    CleanSourceStrips("Report.pdf", 6);
    assert "Report.pdf"[..6] == "Report";
    CleanSourceStrips("a.b.c", 3);
    assert "a.b.c"[..3] == "a.b";
    CleanSourceKeeps("noext");
    CleanSourceKeeps("x.");
  }

  lemma {:induction false} PaddingExample()
    ensures PageNumber(0, NamingConfig(Default, "", "", 1, 3, Suffix, "", false, false, false)) == "001"
  {
  }

  /** Blank manual lines are skipped when lines are matched to pages. */
  lemma {:induction false} ManualLinesExample()
    ensures ManualLines("Alpha\n\nBeta") == ["Alpha", "Beta"]
  {
    var parts := ["Alpha", "", "Beta"];
    SplitExample(parts);
    NonBlankExample(parts);
  }

  lemma {:induction false} SplitExample(parts: seq<string>)
    requires parts == ["Alpha", "", "Beta"]
    ensures Split("Alpha\n\nBeta", '\n') == parts
  {
    assert Join(parts[2..], '\n') == "Beta";
    assert Join(parts[1..], '\n') == "\nBeta";
    assert Join(parts, '\n') == "Alpha\n\nBeta";
    assert forall k :: 0 <= k < |parts| ==> '\n' !in parts[k];
    SplitUnique(parts, '\n');
  }

  lemma {:induction false} NonBlankExample(parts: seq<string>)
    requires parts == ["Alpha", "", "Beta"]
    ensures NonBlank(parts) == ["Alpha", "Beta"]
  {
    assert !IsJsWhitespace(parts[0][0]) && !IsJsWhitespace(parts[2][0]);
    NonBlankOfThree(parts[0], parts[1], parts[2]);
  }

  lemma {:induction false} NonBlankOfThree(a: string, b: string, c: string)
    requires !IsBlank(a) && IsBlank(b) && !IsBlank(c)
    ensures NonBlank([a, b, c]) == [a, c]
  {
    NonBlankCons(c, []);
    NonBlankCons(b, [c]);
    NonBlankCons(a, [b, c]);
    assert [a, b, c] == [a] + [b, c];
    assert [b, c] == [b] + [c];
  }

  /** Page 5 of "Report.pdf" with the default settings (start at 1, two
      digits, number after the name). */
  lemma {:induction false} ReportExample(config: NamingConfig, sourceName: string)
    requires config == NamingConfig(Default, "", "", 1, 2, Suffix, "", false, false, false)
    requires sourceName == "Report.pdf"
    ensures GenerateFileName(4, config, sourceName, []) == "Report_05"
  {
    assert "Report" + "_" + "05" == "Report_05";
    var clean := CleanSource(sourceName);
    CleanSourceExamples();
    assert clean == "Report";
    var num := PageNumber(4, config);
    ReportNumber(config);
    var base := ChooseBase(4, config, clean, []).base;
    assert base == clean;
    ReportSanitized(base);
    NameShape(4, config, sourceName, []);
    var joined := Sanitize(base) + "_" + num;
    assert GenerateFileName(4, config, sourceName, []) == joined;
    assert joined == "Report_05";
  }

  lemma {:induction false} ReportNumber(config: NamingConfig)
    requires config.startNumber == 1 && config.padding == 2
    ensures PageNumber(4, config) == "05"
  {
    assert IntToString(5) == "5";
  }

  lemma {:induction false} ReportSanitized(s: string)
    requires s == "Report"
    ensures Sanitize(s) == "Report"
  {
    assert NoForbidden(s);
    SanitizeKeepsClean(s);
  }
}
