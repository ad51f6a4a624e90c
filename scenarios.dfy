/**
 * Concrete files and the version the reader takes from them. Each line is
 * first described by the positions of its quotes, then the reader's result
 * on it follows from the general lemmas of `Setup`.
 */
module SetupScenarios {
  import opened Wrappers
  import opened PyStr
  import opened Setup

  /** The text before the quote in the assignments below. */
  const Prefix: string := "__version__ = "

  /** A line that starts with `__version__ = ` mentions the marker. */
  lemma PrefixMentionsMarker(line: string, tail: string)
    requires line == Prefix + tail
    ensures Contains(line, Marker)
  {
    assert OccursAt(line, Marker, 0) by {
      assert line[..|Marker|] == Prefix[..|Marker|];
    }
  }

  /**
   * A line `__version__ = ` followed by a quote, `v`, the same quote and
   * `rest` mentions the marker and has its first quote of that kind at 14.
   */
  lemma AssignmentShape(line: string, q: char, v: string, rest: string)
    requires line == Prefix + [q] + v + [q] + rest
    requires q == DoubleQuote || q == SingleQuote
    ensures Contains(line, Marker) && FirstAt(line, q, 14)
    ensures line[15..15 + |v|] == v && line[15 + |v|] == q
  {
    PrefixMentionsMarker(line, [q] + v + [q] + rest);
    EnclosedAfterHead(line, Prefix, q, v, rest);
  }

  /** The quotes of `__version__ = "0.9"`. */
  lemma DoubleQuotedLine()
    ensures var line := "__version__ = \"0.9\"\n";
      Contains(line, Marker) && FirstAt(line, DoubleQuote, 14) && line[15..18] == "0.9" && line[18] == DoubleQuote
  {
    var line := "__version__ = \"0.9\"\n";
    assert line == Prefix + [DoubleQuote] + "0.9" + [DoubleQuote] + "\n";
    AssignmentShape(line, DoubleQuote, "0.9", "\n");
  }

  /** `__version__ = "0.9"` yields `0.9`. */
  lemma DoubleQuotedVersion()
    ensures LineVersion("__version__ = \"0.9\"\n") == Some("0.9")
    ensures GetVersion(["__version__ = \"0.9\"\n"]) == Some("0.9")
  {
    DoubleQuotedLine();
    LineVersionDoubleQuoted("__version__ = \"0.9\"\n", 14, 18);
    GetVersionOneLine("__version__ = \"0.9\"\n");
  }

  /** The quotes of `__version__ = '2.3'`, which holds no double quote. */
  lemma SingleQuotedLine()
    ensures var line := "__version__ = '2.3'\n";
      && Contains(line, Marker) && DoubleQuote !in line
      && FirstAt(line, SingleQuote, 14) && line[15..18] == "2.3" && line[18] == SingleQuote
  {
    var line := "__version__ = '2.3'\n";
    assert line == Prefix + [SingleQuote] + "2.3" + [SingleQuote] + "\n";
    AssignmentShape(line, SingleQuote, "2.3", "\n");
  }

  /** `__version__ = '2.3'` yields `2.3`. */
  lemma SingleQuotedVersion()
    ensures LineVersion("__version__ = '2.3'\n") == Some("2.3")
    ensures GetVersion(["__version__ = '2.3'\n"]) == Some("2.3")
  {
    SingleQuotedLine();
    LineVersionSingleQuoted("__version__ = '2.3'\n", 14, 18);
    GetVersionOneLine("__version__ = '2.3'\n");
  }

  /** The quotes of `__version__ = "2.3"  # was '2.2'`. */
  lemma BothQuotesLine()
    ensures var line := "__version__ = \"2.3\"  # was '2.2'\n";
      Contains(line, Marker) && FirstAt(line, DoubleQuote, 14) && line[15..18] == "2.3" && line[18] == DoubleQuote
  {
    var line := "__version__ = \"2.3\"  # was '2.2'\n";
    assert line == Prefix + [DoubleQuote] + "2.3" + [DoubleQuote] + "  # was '2.2'\n";
    AssignmentShape(line, DoubleQuote, "2.3", "  # was '2.2'\n");
  }

  /** With both quote kinds on the line, the double-quoted text is taken. */
  lemma DoubleQuoteWins()
    ensures GetVersion(["__version__ = \"2.3\"  # was '2.2'\n"]) == Some("2.3")
  {
    BothQuotesLine();
    LineVersionDoubleQuoted("__version__ = \"2.3\"  # was '2.2'\n", 14, 18);
    GetVersionOneLine("__version__ = \"2.3\"  # was '2.2'\n");
  }

  /** The quote of `__version__ = "0.9`, which has no closing quote. */
  lemma UnterminatedLine()
    ensures var line := "__version__ = \"0.9\n";
      Contains(line, Marker) && FirstAt(line, DoubleQuote, 14) && line[15..19] == "0.9\n" && |line| == 19
  {
    var line := "__version__ = \"0.9\n";
    assert line == Prefix + [DoubleQuote] + "0.9\n";
    PrefixMentionsMarker(line, [DoubleQuote] + "0.9\n");
    FirstAfterHead(line, Prefix, DoubleQuote, "0.9\n");
  }

  /**
   * With a single double quote on the line the version runs to the end of
   * the line and keeps the line terminator.
   */
  lemma UnterminatedVersion()
    ensures GetVersion(["__version__ = \"0.9\n"]) == Some("0.9\n")
  {
    UnterminatedLine();
    LineVersionDoubleQuoted("__version__ = \"0.9\n", 14, 19);
    GetVersionOneLine("__version__ = \"0.9\n");
  }

  /** A comment line does not qualify: it lacks the marker. */
  lemma CommentLineSkipped()
    ensures !Qualifies("# version\n")
  {
    NotContainsMissingChar("# version\n", Marker, '_');
  }

  /** A marker line with no quote of either kind does not qualify. */
  lemma UnquotedMarkerLineSkipped()
    ensures !Qualifies("__version__ = VERSION\n")
  {
    assert DoubleQuote !in "__version__ = VERSION\n" && SingleQuote !in "__version__ = VERSION\n";
  }

  /** A marker line without quotes does not end the scan: the later `'2.3'` line decides. */
  lemma UnquotedMarkerThenVersion()
    ensures GetVersion(["__version__ = VERSION\n", "__version__ = '2.3'\n"]) == Some("2.3")
  {
    UnquotedMarkerLineSkipped();
    SingleQuotedVersion();
    GetVersionPair("__version__ = VERSION\n", "__version__ = '2.3'\n");
  }

  /** A comment line before the version line changes nothing. */
  lemma CommentThenVersion()
    ensures GetVersion(["# version\n", "__version__ = '2.3'\n"]) == Some("2.3")
  {
    CommentLineSkipped();
    SingleQuotedVersion();
    GetVersionPair("# version\n", "__version__ = '2.3'\n");
  }

  /** Of two version lines, the first decides. */
  lemma FirstVersionLineWins()
    ensures GetVersion(["__version__ = \"0.9\"\n", "__version__ = '2.3'\n"]) == Some("0.9")
  {
    DoubleQuotedVersion();
    GetVersionPair("__version__ = \"0.9\"\n", "__version__ = '2.3'\n");
  }

  /** A file with no version marker yields no value, even with quotes in it. */
  lemma NoMarker()
    ensures GetVersion(["import os\n", "v = '1.0'\n"]) == None
  {
    var lines := ["import os\n", "v = '1.0'\n"];
    assert !Qualifies(lines[0]) by {
      NotContainsMissingChar(lines[0], Marker, '_');
    }
    assert !Qualifies(lines[1]) by {
      NotContainsMissingChar(lines[1], Marker, '_');
    }
    assert forall k :: 0 <= k < |lines| ==> !Qualifies(lines[k]) by {
      forall k | 0 <= k < |lines| ensures !Qualifies(lines[k]) {
        assert k == 0 || k == 1;
      }
    }
  }
}
